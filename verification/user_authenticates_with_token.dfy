/** Token authentication as the user-account crate does it. Its
    authenticated-user lookup can fail operationally; such a failure stops the
    resolution instead of falling through to the anonymous store. */
module UserAuthenticatesWithToken {
  import opened Entities
  import opened SessionMaps
  import opened Repositories
  import Legacy = LegacyUserAuthenticatesWithToken

  datatype AuthenticationError =
    | UserNotFound
    | WrongToken
    | UserRepositoryError(cause: SavingUserError)

  datatype Resolution = Resolution(result: Result<User, AuthenticationError>, after: Stores, trace: seq<Call>)

  /** Resolves `token`: the session lookup comes first, then the authenticated
      store, then (only when that store answered "absent") the anonymous store. */
  function Execute(stores: Stores, order: seq<Id>, token: string): (r: Resolution)
    requires IsIterationOrder(order, stores.sessions.sessions)
    // Resolution only reads the stores.
    ensures r.after == stores
    ensures |r.trace| > 0 && r.trace[0] == FindSessionByToken(token)
    // Unknown token: neither user store is consulted.
    ensures r.result == Err(WrongToken) <==> !HasToken(stores.sessions.sessions, token)
    ensures r.result == Err(WrongToken) ==> r.trace == [FindSessionByToken(token)]
    // A resolved user belongs to a session carrying the token, and is the
    // record stored under that session's user id, authenticated first.
    ensures r.result.Ok? ==>
      && stores.authenticated.findFault.None?
      && exists k | k in stores.sessions.sessions ::
           && stores.sessions.sessions[k].token == token
           && StoredUnder(stores.authenticated.users, stores.anonymous.users,
                          stores.sessions.sessions[k].userId, r.result.value)
    // With users stored under their own ids, the resolved user's id is the
    // matched session's user id.
    ensures r.result.Ok? && AuthenticatedKeyedById(stores.authenticated.users)
              && AnonymousKeyedById(stores.anonymous.users) ==>
      exists k | k in stores.sessions.sessions ::
        && stores.sessions.sessions[k].token == token
        && stores.sessions.sessions[k].userId == r.result.value.UserId()
    // An operational failure of the authenticated store is reported as such.
    ensures r.result.Err? && r.result.error.UserRepositoryError? ==>
      && stores.authenticated.findFault == Some(r.result.error.cause)
      && HasToken(stores.sessions.sessions, token)
    ensures r.result == Err(UserNotFound) ==>
      && stores.authenticated.findFault.None?
      && exists k | k in stores.sessions.sessions ::
           && stores.sessions.sessions[k].token == token
           && stores.sessions.sessions[k].userId !in stores.authenticated.users
           && stores.sessions.sessions[k].userId !in stores.anonymous.users
    // The anonymous store is asked only after the authenticated store
    // answered "absent" without failing.
    ensures forall i | 0 <= i < |r.trace| && r.trace[i].FindAnonymousUser? ::
      && i == 2
      && r.trace[1] == FindAuthenticatedUser(r.trace[i].id)
      && stores.authenticated.findFault.None?
      && r.trace[i].id !in stores.authenticated.users
  {
    var calls := [FindSessionByToken(token)];
    match FindByToken(stores.sessions, order, token)
    case None => Resolution(Err(WrongToken), stores, calls)
    case Some(s) =>
      var calls := calls + [FindAuthenticatedUser(s.userId)];
      match FindAuthenticated(stores.authenticated, s.userId)
      case Err(e) => Resolution(Err(UserRepositoryError(e)), stores, calls)
      case Ok(Some(u)) => Resolution(Ok(Authenticated(u)), stores, calls)
      case Ok(None) =>
        var calls := calls + [FindAnonymousUser(s.userId)];
        match FindAnonymous(stores.anonymous, s.userId)
        case Some(a) => Resolution(Ok(Anonymous(a)), stores, calls)
        case None => Resolution(Err(UserNotFound), stores, calls)
  }

  /** With the token carried by exactly one stored session, the outcome is
      decided by that session's user id and the authenticated store's fault:
      a fault stops the lookup, then authenticated wins (whatever the anonymous
      store holds), then anonymous, else the user is missing. */
  lemma ResolvesThroughMatchedSession(stores: Stores, order: seq<Id>, k: Id)
    requires IsIterationOrder(order, stores.sessions.sessions)
    requires k in stores.sessions.sessions
    requires TokenIsUnique(stores.sessions.sessions, stores.sessions.sessions[k].token)
    ensures var s := stores.sessions.sessions[k];
            var auth := stores.authenticated;
            var anon := stores.anonymous.users;
            var r := Execute(stores, order, s.token);
            && (auth.findFault.Some? ==>
                  r.result == Err(UserRepositoryError(auth.findFault.value))
                  && r.trace == [FindSessionByToken(s.token), FindAuthenticatedUser(s.userId)])
            && (auth.findFault.None? && s.userId in auth.users ==>
                  r.result == Ok(Authenticated(auth.users[s.userId])))
            && (auth.findFault.None? && s.userId !in auth.users && s.userId in anon ==>
                  r.result == Ok(Anonymous(anon[s.userId])))
            && (auth.findFault.None? && s.userId !in auth.users && s.userId !in anon ==>
                  r.result == Err(UserNotFound))
  {
    ScanFindsUniqueSession(stores.sessions.sessions, order, k);
  }

  /** The user crate's error, as the user-account crate names it. */
  function FromLegacyError(e: Legacy.AuthenticationError): (r: AuthenticationError)
    ensures e.UserNotFound? <==> r.UserNotFound?
    ensures e.WrongToken? <==> r.WrongToken?
  {
    match e
    case UserNotFound => UserNotFound
    case WrongToken => WrongToken
  }

  /** When the authenticated store cannot fail, the two crates' resolutions
      make the same calls and reach the same outcome for every token and every
      store state. */
  lemma AgreesWithLegacyWhenLookupCannotFail(stores: Stores, order: seq<Id>, token: string)
    requires IsIterationOrder(order, stores.sessions.sessions)
    requires stores.authenticated.findFault.None?
    ensures var current := Execute(stores, order, token);
            var legacy := Legacy.Execute(stores.sessions, stores.authenticated.users,
                                         stores.anonymous.users, order, token);
            && current.trace == legacy.trace
            && (legacy.result.Ok? ==> current.result == Ok(legacy.result.value))
            && (legacy.result.Err? ==> current.result == Err(FromLegacyError(legacy.result.error)))
  {
  }
}
