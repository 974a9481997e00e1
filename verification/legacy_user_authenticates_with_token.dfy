/** Token authentication as the user crate does it. Its authenticated-user
    lookup cannot fail (it answers only "found" or "absent"), so its error set
    has just two members. */
module LegacyUserAuthenticatesWithToken {
  import opened Entities
  import opened SessionMaps
  import opened Repositories

  /** The closed error set: no other failure exists. */
  datatype AuthenticationError = UserNotFound | WrongToken

  datatype Resolution = Resolution(result: Result<User, AuthenticationError>, trace: seq<Call>)

  /** Resolves `token` against the session store, then the authenticated users,
      then the anonymous users. None of the stores is returned: resolution
      only reads them. */
  function Execute(
    sessions: SessionStore,
    authenticated: map<Id, AuthenticatedUser>,
    anonymous: map<Id, AnonymousUser>,
    order: seq<Id>,
    token: string
  ): (r: Resolution)
    requires IsIterationOrder(order, sessions.sessions)
    ensures |r.trace| > 0 && r.trace[0] == FindSessionByToken(token)
    // Unknown token: the user stores are not consulted.
    ensures r.result == Err(WrongToken) <==> !HasToken(sessions.sessions, token)
    ensures r.result == Err(WrongToken) ==> r.trace == [FindSessionByToken(token)]
    // A resolved user belongs to a session carrying the token, and is the
    // record stored under that session's user id, authenticated first.
    ensures r.result.Ok? ==>
      exists k | k in sessions.sessions ::
        && sessions.sessions[k].token == token
        && StoredUnder(authenticated, anonymous, sessions.sessions[k].userId, r.result.value)
    // With users stored under their own ids, the resolved user's id is the
    // matched session's user id.
    ensures r.result.Ok? && AuthenticatedKeyedById(authenticated) && AnonymousKeyedById(anonymous) ==>
      exists k | k in sessions.sessions ::
        sessions.sessions[k].token == token && sessions.sessions[k].userId == r.result.value.UserId()
    ensures r.result == Err(UserNotFound) ==>
      exists k | k in sessions.sessions ::
        && sessions.sessions[k].token == token
        && sessions.sessions[k].userId !in authenticated
        && sessions.sessions[k].userId !in anonymous
    // The anonymous store is asked only after the authenticated store said "absent".
    ensures forall i | 0 <= i < |r.trace| && r.trace[i].FindAnonymousUser? ::
      i == 2 && r.trace[1] == FindAuthenticatedUser(r.trace[i].id) && r.trace[i].id !in authenticated
  {
    var calls := [FindSessionByToken(token)];
    match FindByToken(sessions, order, token)
    case None => Resolution(Err(WrongToken), calls)
    case Some(s) =>
      var calls := calls + [FindAuthenticatedUser(s.userId)];
      if s.userId in authenticated then
        Resolution(Ok(Authenticated(authenticated[s.userId])), calls)
      else
        var calls := calls + [FindAnonymousUser(s.userId)];
        if s.userId in anonymous then
          Resolution(Ok(Anonymous(anonymous[s.userId])), calls)
        else
          Resolution(Err(UserNotFound), calls)
  }

  /** With the token carried by exactly one stored session, the outcome is
      decided by that session's user id alone: authenticated wins, then
      anonymous, else the user is missing. */
  lemma ResolvesThroughMatchedSession(
    sessions: SessionStore,
    authenticated: map<Id, AuthenticatedUser>,
    anonymous: map<Id, AnonymousUser>,
    order: seq<Id>,
    k: Id
  )
    requires IsIterationOrder(order, sessions.sessions)
    requires k in sessions.sessions && TokenIsUnique(sessions.sessions, sessions.sessions[k].token)
    ensures var s := sessions.sessions[k];
            var r := Execute(sessions, authenticated, anonymous, order, s.token).result;
            && (s.userId in authenticated ==> r == Ok(Authenticated(authenticated[s.userId])))
            && (s.userId !in authenticated && s.userId in anonymous ==>
                  r == Ok(Anonymous(anonymous[s.userId])))
            && (s.userId !in authenticated && s.userId !in anonymous ==> r == Err(UserNotFound))
  {
    ScanFindsUniqueSession(sessions.sessions, order, k);
  }
}
