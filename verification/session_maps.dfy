/** Facts about a session map keyed by session id, shared by every in-memory
    session repository. A `HashMap` visits its entries in an order the program
    does not control; that order is an explicit `order` argument here, and any
    order satisfying `IsIterationOrder` may be passed. */
module SessionMaps {
  import opened Entities

  type SessionMap = map<Id, Session>

  /** `order` visits every key of `m` exactly once. */
  predicate IsIterationOrder(order: seq<Id>, m: SessionMap) {
    && (forall i | 0 <= i < |order| :: order[i] in m)
    && (forall k | k in m :: k in order)
    && (forall i, j | 0 <= i < j < |order| :: order[i] != order[j])
  }

  /** Some stored session carries the bearer token `t`. */
  predicate HasToken(m: SessionMap, t: string) {
    exists k | k in m :: m[k].token == t
  }

  /** Some stored session belongs to the user `u`. */
  predicate HasUser(m: SessionMap, u: Id) {
    exists k | k in m :: m[k].userId == u
  }

  /** No two stored sessions share the token `t`. */
  predicate TokenIsUnique(m: SessionMap, t: string) {
    forall k1, k2 | k1 in m && k2 in m && m[k1].token == t && m[k2].token == t :: k1 == k2
  }

  /** The first session, in visiting order, whose token is `t`. */
  function ScanForToken(m: SessionMap, order: seq<Id>, t: string): (r: Option<Session>)
    ensures r.Some? ==> r.value.token == t && exists k | k in order :: k in m && m[k] == r.value
    ensures r.None? <==> forall k | k in order && k in m :: m[k].token != t
    decreases |order|
  {
    if order == [] then None
    else if order[0] in m && m[order[0]].token == t then Some(m[order[0]])
    else ScanForToken(m, order[1..], t)
  }

  /** The first key, in visiting order, whose session belongs to `u`. */
  function ScanForUser(m: SessionMap, order: seq<Id>, u: Id): (r: Option<Id>)
    ensures r.Some? ==> r.value in order && r.value in m && m[r.value].userId == u
    ensures r.None? <==> forall k | k in order && k in m :: m[k].userId != u
    decreases |order|
  {
    if order == [] then None
    else if order[0] in m && m[order[0]].userId == u then Some(order[0])
    else ScanForUser(m, order[1..], u)
  }

  /** Looking a token up over a full iteration order finds a session with that
      token exactly when one is stored. */
  lemma ScanFindsStoredToken(m: SessionMap, order: seq<Id>, t: string)
    requires IsIterationOrder(order, m)
    ensures ScanForToken(m, order, t).None? <==> !HasToken(m, t)
  {
  }

  /** When a token is unique, every iteration order finds the one session that
      carries it. */
  lemma ScanFindsUniqueSession(m: SessionMap, order: seq<Id>, k: Id)
    requires IsIterationOrder(order, m)
    requires k in m && TokenIsUnique(m, m[k].token)
    ensures ScanForToken(m, order, m[k].token) == Some(m[k])
  {
    var r := ScanForToken(m, order, m[k].token);
    assert k in order;
    assert r.Some?;
  }
}
