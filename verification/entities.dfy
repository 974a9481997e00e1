/** Entities shared by the user and user-account crates: identifiers, sessions,
    the two kinds of user, password credentials, and the error values the
    repositories report. */
module Entities {

  /** An opaque identifier. Equality is by value; where identifiers come from
      (an id factory) is an external concern. */
  datatype Id = Id(raw: nat)

  /** One authentication grant: the bearer `token` stands for the user `userId`. */
  datatype Session = Session(id: Id, userId: Id, token: string)

  /** A person's name; its validation rules are not part of this model. */
  datatype Name = Name(first: string, last: string)

  datatype AnonymousUser = AnonymousUser(id: Id)

  datatype AuthenticatedUser = AuthenticatedUser(id: Id, name: Name, email: string)

  /** The caller: exactly one of the two kinds of user. */
  datatype User = Anonymous(anonymous: AnonymousUser) | Authenticated(authenticated: AuthenticatedUser)
  {
    function UserId(): Id {
      match this
      case Anonymous(a) => a.id
      case Authenticated(u) => u.id
    }
  }

  datatype PasswordCredential = PasswordCredential(userId: Id, password: string, salt: string)

  datatype Option<T> = None | Some(value: T)

  datatype Result<T, E> = Ok(value: T) | Err(error: E)

  /** The user repositories' error value. Its variants are defined outside the
      files modelled here, so it only carries a description. */
  datatype SavingUserError = SavingUserError(reason: string)

  /** The session repository's error value, as far as the modelled code uses it. */
  datatype SessionRepositoryError = Save
}
