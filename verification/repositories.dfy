/** The repositories the use cases are wired to, as immutable values: each
    store is a map plus an injected fault. A store whose fault is `Some(e)`
    answers the faulty call with `Err(e)` and changes nothing; otherwise it
    behaves like an in-memory map keyed by id. Every call a use case makes on
    a repository or provider is recorded as a `Call`, so that which stores
    were consulted, and in which order, can be stated. */
module Repositories {
  import opened Entities
  import opened SessionMaps

  datatype SessionStore = SessionStore(sessions: SessionMap, saveFault: Option<SessionRepositoryError>)

  /** The account crate's authenticated-user store: its lookup can fail
      operationally, which is different from reporting an absent user. */
  datatype AuthenticatedUserStore = AuthenticatedUserStore(
    users: map<Id, AuthenticatedUser>,
    findFault: Option<SavingUserError>)

  datatype AnonymousUserStore = AnonymousUserStore(
    users: map<Id, AnonymousUser>,
    saveFault: Option<SavingUserError>)

  datatype Stores = Stores(
    sessions: SessionStore,
    authenticated: AuthenticatedUserStore,
    anonymous: AnonymousUserStore)

  /** Every authenticated user is stored under its own id. */
  predicate AuthenticatedKeyedById(users: map<Id, AuthenticatedUser>) {
    forall k | k in users :: users[k].id == k
  }

  /** Every anonymous user is stored under its own id. */
  predicate AnonymousKeyedById(users: map<Id, AnonymousUser>) {
    forall k | k in users :: users[k].id == k
  }

  /** `user` is what the two stores hold for `id`, the authenticated store
      taking precedence over the anonymous one. */
  predicate StoredUnder(
    authenticated: map<Id, AuthenticatedUser>,
    anonymous: map<Id, AnonymousUser>,
    id: Id,
    user: User
  ) {
    match user
    case Authenticated(u) => id in authenticated && authenticated[id] == u
    case Anonymous(a) => id !in authenticated && id in anonymous && anonymous[id] == a
  }

  /** One call on a repository or a provider, in the order it was made. */
  datatype Call =
    | FindSessionByToken(token: string)
    | FindAuthenticatedUser(id: Id)
    | FindAnonymousUser(id: Id)
    | SaveAnonymousUser(user: AnonymousUser)
    | CreateId
    | GenerateToken(seed: Id)
    | SaveSession(session: Session)

  /** `find_by_token` over the order in which the map is visited. */
  function FindByToken(store: SessionStore, order: seq<Id>, t: string): (r: Option<Session>)
    requires IsIterationOrder(order, store.sessions)
    ensures r.Some? ==> r.value.token == t && r.value in store.sessions.Values
    ensures r.None? <==> !HasToken(store.sessions, t)
  {
    ScanFindsStoredToken(store.sessions, order, t);
    ScanForToken(store.sessions, order, t)
  }

  function SaveSessionRecord(store: SessionStore, s: Session): (r: (Result<(), SessionRepositoryError>, SessionStore))
    ensures r.1.saveFault == store.saveFault
    ensures r.0.Err? ==> r.1 == store && Some(r.0.error) == store.saveFault
    ensures r.0.Ok? ==> store.saveFault.None? && r.1.sessions == store.sessions[s.id := s]
  {
    match store.saveFault
    case Some(e) => (Err(e), store)
    case None => (Ok(()), store.(sessions := store.sessions[s.id := s]))
  }

  function FindAuthenticated(store: AuthenticatedUserStore, id: Id): (r: Result<Option<AuthenticatedUser>, SavingUserError>)
    ensures r.Err? <==> store.findFault.Some?
    ensures r == Ok(None) ==> id !in store.users
    ensures r.Ok? && r.value.Some? ==> id in store.users && r.value.value == store.users[id]
  {
    match store.findFault
    case Some(e) => Err(e)
    case None => if id in store.users then Ok(Some(store.users[id])) else Ok(None)
  }

  function FindAnonymous(store: AnonymousUserStore, id: Id): (r: Option<AnonymousUser>)
    ensures r.Some? <==> id in store.users
    ensures r.Some? ==> r.value == store.users[id]
  {
    if id in store.users then Some(store.users[id]) else None
  }

  function SaveAnonymous(store: AnonymousUserStore, u: AnonymousUser): (r: (Result<(), SavingUserError>, AnonymousUserStore))
    ensures r.1.saveFault == store.saveFault
    ensures r.0.Err? ==> r.1 == store && Some(r.0.error) == store.saveFault
    ensures r.0.Ok? ==> store.saveFault.None? && r.1.users == store.users[u.id := u]
  {
    match store.saveFault
    case Some(e) => (Err(e), store)
    case None => (Ok(()), store.(users := store.users[u.id := u]))
  }
}
