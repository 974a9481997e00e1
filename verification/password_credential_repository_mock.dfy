/** The in-memory password-credential repository: a map from a user's id to
    that user's credential. */
module PasswordCredentialRepositoryMock {
  import opened Entities

  datatype PasswordCredentialRepositoryMock = PasswordCredentialRepositoryMock(credentials: map<Id, PasswordCredential>)

  /** Each credential is stored under the id of the user it belongs to. */
  predicate KeyedByUserId(m: PasswordCredentialRepositoryMock) {
    forall k | k in m.credentials :: m.credentials[k].userId == k
  }

  function New(): (m: PasswordCredentialRepositoryMock)
    ensures KeyedByUserId(m)
    ensures forall k :: k !in m.credentials
  {
    PasswordCredentialRepositoryMock(map[])
  }

  /** Stores `c` under its user id, replacing any earlier credential of that
      user and leaving every other user's credential as it was. */
  function Save(m: PasswordCredentialRepositoryMock, c: PasswordCredential): (r: PasswordCredentialRepositoryMock)
    ensures KeyedByUserId(m) ==> KeyedByUserId(r)
    ensures r.credentials.Keys == m.credentials.Keys + {c.userId}
    ensures c.userId in r.credentials && r.credentials[c.userId] == c
    ensures forall k | k in m.credentials && k != c.userId :: r.credentials[k] == m.credentials[k]
  {
    PasswordCredentialRepositoryMock(m.credentials[c.userId := c])
  }

  /** A copy of the credential stored for `id`, if any. */
  function FindByUserId(m: PasswordCredentialRepositoryMock, id: Id): (r: Option<PasswordCredential>)
    ensures r.Some? <==> id in m.credentials
    ensures r.Some? ==> r.value == m.credentials[id]
    ensures r.Some? && KeyedByUserId(m) ==> r.value.userId == id
  {
    if id in m.credentials then
      var c := m.credentials[id];
      Some(PasswordCredential(c.userId, c.password, c.salt))
    else None
  }

  /** Removes the credential stored under `c`'s user id, and nothing else. */
  function Delete(m: PasswordCredentialRepositoryMock, c: PasswordCredential): (r: PasswordCredentialRepositoryMock)
    ensures KeyedByUserId(m) ==> KeyedByUserId(r)
    ensures r.credentials.Keys == m.credentials.Keys - {c.userId}
    ensures forall k | k in r.credentials :: r.credentials[k] == m.credentials[k]
  {
    PasswordCredentialRepositoryMock(m.credentials - {c.userId})
  }

  /** A saved credential is found again under its user id, with the same
      user id, password and salt. */
  lemma SaveThenFind(m: PasswordCredentialRepositoryMock, c: PasswordCredential)
    ensures FindByUserId(Save(m, c), c.userId) == Some(c)
  {
  }

  /** Saving a second credential for the same user replaces the first. */
  lemma SaveOverwrites(m: PasswordCredentialRepositoryMock, c1: PasswordCredential, c2: PasswordCredential)
    requires c1.userId == c2.userId
    ensures Save(Save(m, c1), c2) == Save(m, c2)
  {
    assert Save(Save(m, c1), c2).credentials == Save(m, c2).credentials;
  }

  /** After a delete the user's credential is gone, and the other users'
      lookups answer as before. */
  lemma DeleteThenFind(m: PasswordCredentialRepositoryMock, c: PasswordCredential, other: Id)
    requires other != c.userId
    ensures FindByUserId(Delete(m, c), c.userId) == None
    ensures FindByUserId(Delete(m, c), other) == FindByUserId(m, other)
  {
  }

  /** Deleting what was just saved restores the store when the user had no
      credential before. */
  lemma SaveThenDeleteRestores(m: PasswordCredentialRepositoryMock, c: PasswordCredential)
    requires c.userId !in m.credentials
    ensures Delete(Save(m, c), c) == m
  {
    assert Delete(Save(m, c), c).credentials == m.credentials;
  }
}
