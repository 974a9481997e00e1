/** Provisioning of a first-time visitor: save an anonymous user, then build
    and save its first session. The two writes are independent; a failure of
    the second does not undo the first. */
module AnonymousRegisters {
  import opened Entities
  import opened SessionMaps
  import opened Repositories
  import UserAuthenticatesWithToken

  datatype AnonymousRegistrationError =
    | SavingAnonymousError(userCause: SavingUserError)
    | SavingSessionError(sessionCause: SessionRepositoryError)

  datatype Registration = Registration(
    result: Result<(AnonymousUser, Session), AnonymousRegistrationError>,
    after: Stores,
    trace: seq<Call>)

  /** Every session write in `trace` comes after the write of the anonymous user `id`. */
  predicate UserWrittenBeforeSession(trace: seq<Call>, id: Id) {
    forall i | 0 <= i < |trace| && trace[i].SaveSession? ::
      exists j | 0 <= j < i :: trace[j] == SaveAnonymousUser(AnonymousUser(id))
  }

  /** Registers the anonymous user `id`. The id factory's next value
      `sessionId` and the token generator `generate` are the external
      providers; the generator is seeded with `id`. */
  function Execute(stores: Stores, id: Id, sessionId: Id, generate: Id -> string): (r: Registration)
    ensures r.after.authenticated == stores.authenticated
    ensures r.after.anonymous.saveFault == stores.anonymous.saveFault
    ensures r.after.sessions.saveFault == stores.sessions.saveFault
    ensures UserWrittenBeforeSession(r.trace, id)
    // Success exactly when both writes succeed.
    ensures r.result.Ok? <==> stores.anonymous.saveFault.None? && stores.sessions.saveFault.None?
    // The user and the session both name `id`; the session carries the fresh
    // id and the token generated from `id`.
    ensures r.result.Ok? ==>
      var (user, session) := r.result.value;
      && user.id == id
      && session == Session(sessionId, id, generate(id))
    // On success the anonymous store gains the user and the session store
    // gains the session; nothing else changes.
    ensures r.result.Ok? ==>
      && r.after.anonymous.users == stores.anonymous.users[id := r.result.value.0]
      && r.after.sessions.sessions == stores.sessions.sessions[sessionId := r.result.value.1]
    // A failed user write touches nothing else and calls no provider.
    ensures stores.anonymous.saveFault.Some? ==>
      && r.result == Err(SavingAnonymousError(stores.anonymous.saveFault.value))
      && r.after == stores
      && r.trace == [SaveAnonymousUser(AnonymousUser(id))]
    // A failed session write leaves the user written: there is no rollback.
    ensures stores.anonymous.saveFault.None? && stores.sessions.saveFault.Some? ==>
      && r.result == Err(SavingSessionError(stores.sessions.saveFault.value))
      && r.after.sessions == stores.sessions
      && id in r.after.anonymous.users
      && r.after.anonymous.users == stores.anonymous.users[id := AnonymousUser(id)]
  {
    var user := AnonymousUser(id);
    var calls := [SaveAnonymousUser(user)];
    var (saved, anonymous) := SaveAnonymous(stores.anonymous, user);
    match saved
    case Err(e) => Registration(Err(SavingAnonymousError(e)), stores, calls)
    case Ok(_) =>
      var session := Session(sessionId, user.id, generate(id));
      var calls := calls + [CreateId, GenerateToken(id), SaveSession(session)];
      assert calls[0] == SaveAnonymousUser(user);
      var (stored, sessions) := SaveSessionRecord(stores.sessions, session);
      var after := stores.(anonymous := anonymous, sessions := sessions);
      match stored
      case Err(e) => Registration(Err(SavingSessionError(e)), after, calls)
      case Ok(_) => Registration(Ok((user, session)), after, calls)
  }

  /** A successful registration followed by resolving the returned token
      yields the new anonymous user, provided no other session carries the
      generated token and the id is not an authenticated user. */
  lemma RegisteredTokenResolvesToAnonymous(
    stores: Stores, id: Id, sessionId: Id, generate: Id -> string, order: seq<Id>)
    requires stores.anonymous.saveFault.None? && stores.sessions.saveFault.None?
    requires stores.authenticated.findFault.None?
    requires id !in stores.authenticated.users
    requires forall k | k in stores.sessions.sessions && k != sessionId ::
               stores.sessions.sessions[k].token != generate(id)
    requires IsIterationOrder(order, stores.sessions.sessions[sessionId := Session(sessionId, id, generate(id))])
    ensures var reg := Execute(stores, id, sessionId, generate);
            && reg.result.Ok?
            && UserAuthenticatesWithToken.Execute(reg.after, order, reg.result.value.1.token).result
               == Ok(Anonymous(AnonymousUser(id)))
  {
    var reg := Execute(stores, id, sessionId, generate);
    var m := reg.after.sessions.sessions;
    assert m[sessionId].token == generate(id);
    assert TokenIsUnique(m, generate(id));
    UserAuthenticatesWithToken.ResolvesThroughMatchedSession(reg.after, order, sessionId);
  }
}
