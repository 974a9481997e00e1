/** The session repository double whose `save` always fails. Its lookups scan
    the stored map; its bulk delete removes the first session of the user it
    meets and then stops. */
module BrokenSessionRepositoryMock {
  import opened Entities
  import opened SessionMaps

  datatype SessionRepositoryMockWithBrokenSave = SessionRepositoryMockWithBrokenSave(sessions: SessionMap)

  /** A fresh mock holds no session. */
  function New(): (m: SessionRepositoryMockWithBrokenSave)
    ensures m.sessions == map[]
  {
    SessionRepositoryMockWithBrokenSave(map[])
  }

  /** The session stored under `id`, copied field by field, if any. */
  function Find(m: SessionRepositoryMockWithBrokenSave, id: Id): (r: Option<Session>)
    ensures r.Some? <==> id in m.sessions
    ensures r.Some? ==> r.value == m.sessions[id]
  {
    if id in m.sessions then
      var s := m.sessions[id];
      Some(Session(s.id, s.userId, s.token))
    else None
  }

  /** Some stored session carrying `t`, the first one the iteration meets. */
  function FindByToken(m: SessionRepositoryMockWithBrokenSave, order: seq<Id>, t: string): (r: Option<Session>)
    requires IsIterationOrder(order, m.sessions)
    ensures r.Some? ==> r.value.token == t && r.value in m.sessions.Values
    ensures r.None? <==> !HasToken(m.sessions, t)
  {
    ScanFindsStoredToken(m.sessions, order, t);
    match ScanForToken(m.sessions, order, t)
    case None => None
    case Some(s) => Some(Session(s.id, s.userId, s.token))
  }

  /** Always fails, and never stores anything. */
  function Save(m: SessionRepositoryMockWithBrokenSave, s: Session): (r: (Result<(), SessionRepositoryError>, SessionRepositoryMockWithBrokenSave))
    ensures r.0 == Err(SessionRepositoryError.Save)
    ensures r.1 == m
  {
    (Err(SessionRepositoryError.Save), m)
  }

  /** Removes one session of `u`, the first the iteration meets, and reports
      success in every case. */
  function DeleteUsersSessions(m: SessionRepositoryMockWithBrokenSave, order: seq<Id>, u: Id): (r: (Result<(), SessionRepositoryError>, SessionRepositoryMockWithBrokenSave))
    requires IsIterationOrder(order, m.sessions)
    ensures r.0 == Ok(())
    ensures !HasUser(m.sessions, u) ==> r.1 == m
    ensures HasUser(m.sessions, u) ==>
      exists k | k in m.sessions :: m.sessions[k].userId == u && r.1.sessions == m.sessions - {k}
  {
    match ScanForUser(m.sessions, order, u)
    case None => (Ok(()), m)
    case Some(k) => (Ok(()), SessionRepositoryMockWithBrokenSave(m.sessions - {k}))
  }

  /** A bulk delete that removes every session of `u`, as the operation's
      name promises. */
  function DeleteAllUsersSessions(m: SessionRepositoryMockWithBrokenSave, u: Id): (r: (Result<(), SessionRepositoryError>, SessionRepositoryMockWithBrokenSave))
    ensures r.0 == Ok(())
    ensures !HasUser(r.1.sessions, u)
    ensures forall k | k in r.1.sessions :: k in m.sessions && r.1.sessions[k] == m.sessions[k]
    ensures forall k | k in m.sessions && m.sessions[k].userId != u :: k in r.1.sessions
  {
    (Ok(()), SessionRepositoryMockWithBrokenSave(map k | k in m.sessions && m.sessions[k].userId != u :: m.sessions[k]))
  }

  /** Removing only the first match leaves a user holding two sessions with
      one of them, whatever order the map is visited in. */
  lemma DeleteUsersSessionsLeavesSecondSession(m: SessionRepositoryMockWithBrokenSave, order: seq<Id>, u: Id, k1: Id, k2: Id)
    requires IsIterationOrder(order, m.sessions)
    requires k1 in m.sessions && k2 in m.sessions && k1 != k2
    requires m.sessions[k1].userId == u && m.sessions[k2].userId == u
    ensures HasUser(DeleteUsersSessions(m, order, u).1.sessions, u)
  {
    var after := DeleteUsersSessions(m, order, u).1;
    var k :| k in m.sessions && m.sessions[k].userId == u && after.sessions == m.sessions - {k};
    var kept := if k == k1 then k2 else k1;
    assert kept in after.sessions && after.sessions[kept].userId == u;
  }

  /** When the user holds at most one session, removing the first match and
      removing every match coincide. */
  lemma DeleteAgreesForSingleSession(m: SessionRepositoryMockWithBrokenSave, order: seq<Id>, u: Id)
    requires IsIterationOrder(order, m.sessions)
    requires forall k1, k2 | k1 in m.sessions && k2 in m.sessions &&
               m.sessions[k1].userId == u && m.sessions[k2].userId == u :: k1 == k2
    ensures DeleteUsersSessions(m, order, u) == DeleteAllUsersSessions(m, u)
  {
    var first := DeleteUsersSessions(m, order, u).1;
    var all := DeleteAllUsersSessions(m, u).1;
    if HasUser(m.sessions, u) {
      var k :| k in m.sessions && m.sessions[k].userId == u && first.sessions == m.sessions - {k};
      assert all.sessions.Keys == m.sessions.Keys - {k};
    } else {
      assert all.sessions.Keys == m.sessions.Keys;
    }
    assert first.sessions == all.sessions;
  }

  /** One call a client makes on the mock; lookups and bulk deletes carry the
      order the map is visited in at that moment. */
  datatype MockCall =
    | FindCall(id: Id)
    | FindByTokenCall(token: string, order: seq<Id>)
    | SaveCall(session: Session)
    | DeleteCall(user: Id, order: seq<Id>)

  predicate CallValid(m: SessionRepositoryMockWithBrokenSave, c: MockCall) {
    match c
    case FindByTokenCall(_, order) => IsIterationOrder(order, m.sessions)
    case DeleteCall(_, order) => IsIterationOrder(order, m.sessions)
    case _ => true
  }

  /** The mock's state after one call. */
  function Step(m: SessionRepositoryMockWithBrokenSave, c: MockCall): SessionRepositoryMockWithBrokenSave
    requires CallValid(m, c)
  {
    match c
    case FindCall(_) => m
    case FindByTokenCall(_, _) => m
    case SaveCall(s) => Save(m, s).1
    case DeleteCall(u, order) => DeleteUsersSessions(m, order, u).1
  }

  /** Every call of `calls`, made in turn from `m`, is well formed. */
  predicate ValidRun(m: SessionRepositoryMockWithBrokenSave, calls: seq<MockCall>)
    decreases |calls|
  {
    |calls| == 0 || (CallValid(m, calls[0]) && ValidRun(Step(m, calls[0]), calls[1..]))
  }

  function Replay(m: SessionRepositoryMockWithBrokenSave, calls: seq<MockCall>): SessionRepositoryMockWithBrokenSave
    requires ValidRun(m, calls)
    decreases |calls|
  {
    if |calls| == 0 then m else Replay(Step(m, calls[0]), calls[1..])
  }

  /** Since `save` never inserts, an empty mock stays empty whatever is called
      on it, so its lookups never find anything. */
  lemma {:induction false} EmptyMockStaysEmpty(m: SessionRepositoryMockWithBrokenSave, calls: seq<MockCall>)
    requires m.sessions == map[]
    requires ValidRun(m, calls)
    ensures Replay(m, calls).sessions == map[]
    ensures forall id :: Find(Replay(m, calls), id) == None
    ensures forall t :: !HasToken(Replay(m, calls).sessions, t)
    decreases |calls|
  {
    if |calls| > 0 {
      var next := Step(m, calls[0]);
      assert next.sessions == map[];
      EmptyMockStaysEmpty(next, calls[1..]);
    }
  }
}
