# Session-backed identity in argentum, modelled in Dafny

This project models the session-backed identity layer of the argentum Rust
workspace:

- **Token authentication, two versions.** Both turn a bearer token into the
  calling `User`. The user-account crate's version has five outcomes:
  `Authenticated`, `Anonymous`, `WrongToken`, `UserNotFound` and
  `UserRepositoryError`. The older user crate's version has no repository
  error, because its authenticated-user lookup cannot fail. In both, the
  session lookup comes first, then the authenticated store, then the
  anonymous store.
- **Anonymous registration.** It saves an anonymous user, then builds a
  session for it and saves that. It does not roll back the first write when
  the second fails.
- **Two repository doubles.**
  - A session repository whose `save` always fails.
  - A password-credential repository keyed by user id.

The model is purely functional:

- Every store is an immutable value: a map plus an optional injected fault
  (`findFault`, `saveFault`). A store with a fault answers the faulty call
  with that error and changes nothing.
- Each use case is a function from its inputs and the stores to a result,
  the stores afterwards, and a trace of the repository and provider calls
  made, in order. The trace is what lets the contracts say that a store was
  or was not consulted, and that one write precedes another.
- A Rust `HashMap` visits its entries in an order the program does not
  control. That order is an explicit `order` argument, and any sequence that
  visits each key exactly once (`IsIterationOrder`) may be passed.
- The id factory's next value and the token generator are parameters of
  registration (`sessionId`, `generate`).

Files and modules:

| file | module | models |
|---|---|---|
| `entities.dfy` | `Entities` | identifiers, `Session`, the `User` union, credentials, error values |
| `session_maps.dfy` | `SessionMaps` | scans of a session map in iteration order |
| `repositories.dfy` | `Repositories` | fault-injected stores and the call trace |
| `user_authenticates_with_token.dfy` | `UserAuthenticatesWithToken` | user-account crate token authentication |
| `legacy_user_authenticates_with_token.dfy` | `LegacyUserAuthenticatesWithToken` | user crate token authentication |
| `anonymous_registers.dfy` | `AnonymousRegisters` | anonymous registration |
| `broken_session_repository_mock.dfy` | `BrokenSessionRepositoryMock` | the session repository whose save fails |
| `password_credential_repository_mock.dfy` | `PasswordCredentialRepositoryMock` | the password-credential repository |

Registration followed by token authentication yields the new anonymous user
only when three conditions hold: no other session carries the generated
token, the id is not an authenticated user, and the authenticated lookup
does not fail (`AnonymousRegisters.RegisteredTokenResolvesToAnonymous`).
The broken session mock's `delete_users_sessions` removes one session of the
user; see Findings.

Resolution is read-only. The account version returns the stores and its
contract states they are unchanged. The older version returns no store at all.

## Model

| member | source | states |
|---|---|---|
| `UserAuthenticatesWithToken.Execute` | argentum_user_account_business/src/use_case/user_authenticates_with_token.rs:27-47 | The session lookup is the first call. The result is `WrongToken` exactly when no stored session carries the token, and then no user store is consulted. A resolved user is the record stored under the matched session's user id, with authenticated taking precedence; when users are stored under their own ids, its id is that session's user id. `UserRepositoryError(e)` means the authenticated lookup failed with `e`. `UserNotFound` means a session matched whose user id is in neither store. The anonymous store is asked only as the third call, after the authenticated store answered "absent" without failing. The stores are unchanged. |
| `UserAuthenticatesWithToken.ResolvesThroughMatchedSession` | argentum_user_account_business/src/use_case/user_authenticates_with_token.rs:35-46 | For a token held by exactly one session, the result is decided by that session's user id. A failing authenticated lookup gives `UserRepositoryError` after exactly two calls, so the anonymous store is never queried. Otherwise, presence in the authenticated store gives `Authenticated` whatever the anonymous store holds. Then presence in the anonymous store gives `Anonymous`. Otherwise the result is `UserNotFound`. |
| `UserAuthenticatesWithToken.AgreesWithLegacyWhenLookupCannotFail` | argentum_user_business/src/use_case/user_authenticates_with_token.rs:35-43 | When the authenticated lookup cannot fail, the account version and the older version make the same calls and give the same user or the corresponding error, for every token and every store state. |
| `LegacyUserAuthenticatesWithToken.Execute` | argentum_user_business/src/use_case/user_authenticates_with_token.rs:27-44 | The session lookup comes first. An unknown token gives `WrongToken` and no user store is consulted. A resolved user is the record stored under the matched session's user id, with the authenticated store checked first; its id equals the session's user id when users are stored under their own ids. `UserNotFound` means a matched session's user id is in neither store. The anonymous store is queried only after the authenticated store answered "absent". The error type has exactly the two variants `UserNotFound` and `WrongToken`. |
| `LegacyUserAuthenticatesWithToken.ResolvesThroughMatchedSession` | argentum_user_business/src/use_case/user_authenticates_with_token.rs:35-43 | For a token held by exactly one session: an authenticated user under the session's user id wins whatever the anonymous store holds; otherwise an anonymous user gives `Anonymous`; otherwise the result is `UserNotFound`. |
| `AnonymousRegisters.Execute` | argentum_user_account_business/src/use_case/anonymous_registers.rs:32-54 | Registration succeeds exactly when both saves succeed. On success the user's id and the session's user id are the input id, the session id is the factory's value, and the token is generated from the input id. The anonymous store gains the user, the session store gains the session, and nothing else changes. A failed user save gives `SavingAnonymousError`, changes no store, and calls neither provider. A failed session save gives `SavingSessionError` and leaves the user saved, with no rollback. Every session write in the trace follows the user write. |
| `AnonymousRegisters.RegisteredTokenResolvesToAnonymous` | argentum_user_account_business/src/use_case/anonymous_registers.rs:44-51 | A successful registration followed by token authentication with the returned token yields `Anonymous` with the input id. This needs three conditions: no other session carries that token, the id is not an authenticated user, and the authenticated lookup does not fail. |
| `BrokenSessionRepositoryMock.New` | argentum_user_account_business/src/mock/repository/broken/session_repository_mock.rs:13-17 | A fresh mock holds no session. |
| `BrokenSessionRepositoryMock.Find` | argentum_user_account_business/src/mock/repository/broken/session_repository_mock.rs:27-32 | Returns a session exactly when one is stored under the id, with the same id, user id and token as the stored one. |
| `BrokenSessionRepositoryMock.FindByToken` | argentum_user_account_business/src/mock/repository/broken/session_repository_mock.rs:34-46 | Returns only a stored session carrying the token, and returns nothing exactly when no stored session carries it. |
| `BrokenSessionRepositoryMock.Save` | argentum_user_account_business/src/mock/repository/broken/session_repository_mock.rs:48-50 | Always fails with `Save` and leaves the stored sessions unchanged. |
| `BrokenSessionRepositoryMock.DeleteUsersSessions` | argentum_user_account_business/src/mock/repository/broken/session_repository_mock.rs:52-68 | Always returns `Ok`. With no session of the user it changes nothing. Otherwise it removes exactly one entry, and that entry belongs to the user. |
| `BrokenSessionRepositoryMock.DeleteUsersSessionsLeavesSecondSession` | argentum_user_account_business/src/mock/repository/broken/session_repository_mock.rs:53-65 | Whenever a user holds two sessions, the user still holds one of them after the delete, whatever order the map is visited in. |
| `BrokenSessionRepositoryMock.DeleteAllUsersSessions` | argentum_user_account_business/src/mock/repository/broken/session_repository_mock.rs:52-68 | The corrected delete: afterwards no session of the user remains, every other session is kept unchanged, and nothing is added. |
| `BrokenSessionRepositoryMock.DeleteAgreesForSingleSession` | argentum_user_account_business/src/mock/repository/broken/session_repository_mock.rs:53-65 | When the user holds at most one session, removing the first match and removing every match give the same store. |
| `BrokenSessionRepositoryMock.EmptyMockStaysEmpty` | argentum_user_account_business/src/mock/repository/broken/session_repository_mock.rs:48-50 | From an empty mock, any sequence of finds, saves and deletes leaves it empty. So `find` returns nothing and no token is ever stored, for the mock's whole lifetime. |
| `SessionMaps.ScanForToken` | argentum_user_account_business/src/mock/repository/broken/session_repository_mock.rs:35-45 | The loop over the map returns only a visited session carrying the token. It returns nothing exactly when no visited session carries it. |
| `SessionMaps.ScanForUser` | argentum_user_account_business/src/mock/repository/broken/session_repository_mock.rs:55-61 | The loop over the map picks only a visited key whose session belongs to the user. It picks nothing exactly when no visited session belongs to the user. |
| `SessionMaps.ScanFindsUniqueSession` | argentum_user_account_business/src/mock/repository/broken/session_repository_mock.rs:34-46 | When exactly one stored session carries a token, the lookup returns that session whatever the iteration order. |
| `PasswordCredentialRepositoryMock.New` | argentum_user_account_business/src/mock/repository/password_credential_repository_mock.rs:12-16 | A fresh repository is empty, and so every credential in it is stored under its own user id. |
| `PasswordCredentialRepositoryMock.Save` | argentum_user_account_business/src/mock/repository/password_credential_repository_mock.rs:26-30 | The credential is stored under its user id, replacing any earlier one. Every other user's credential is unchanged, and no other key appears. Storing under the owner's id is preserved. |
| `PasswordCredentialRepositoryMock.FindByUserId` | argentum_user_account_business/src/mock/repository/password_credential_repository_mock.rs:32-37 | Returns a credential exactly when one is stored under the id, equal to the stored one. In a repository keyed by owner, its user id is the queried id. |
| `PasswordCredentialRepositoryMock.Delete` | argentum_user_account_business/src/mock/repository/password_credential_repository_mock.rs:39-43 | Removes exactly the key of the credential's user id. Every remaining entry is unchanged. |
| `PasswordCredentialRepositoryMock.SaveThenFind` | argentum_user_account_business/src/mock/repository/password_credential_repository_mock.rs:26-37 | After saving a credential, looking up its user id returns that credential: same user id, password and salt. |
| `PasswordCredentialRepositoryMock.SaveOverwrites` | argentum_user_account_business/src/mock/repository/password_credential_repository_mock.rs:26-29 | Saving two credentials of the same user in turn leaves the same repository as saving only the second. |
| `PasswordCredentialRepositoryMock.DeleteThenFind` | argentum_user_account_business/src/mock/repository/password_credential_repository_mock.rs:32-43 | After a delete, the user's lookup returns nothing, and every other user's lookup answers as before. |
| `PasswordCredentialRepositoryMock.SaveThenDeleteRestores` | argentum_user_account_business/src/mock/repository/password_credential_repository_mock.rs:26-43 | Saving a credential for a user who had none, then deleting it, gives back the original repository. |

## Left out

- Logging, the demo application's wiring and its console output are not modelled. They do I/O and chain use cases whose sources are not part of this model.
- The id factory and the token generator are external providers. Registration takes the factory's next value and the generator function as parameters.
- Name and e-mail validation, and the user constructors, are not part of this model. The id passed to a constructor becomes the record's id.
- `RefCell` interior mutability and the `&dyn` trait-object wiring are modelled as stores passed in and returned.
- The general session, anonymous-user and authenticated-user repositories are not part of this model. Each is modelled as an in-memory map with an injected fault. Their save stores under the record's id. Their token lookup is the same scan the broken session mock performs.
- Error messages and the `#[from]` conversions are not modelled. The user repositories' error variants are defined outside this model, so `SavingUserError` only carries a description. `SessionRepositoryError` has only the `Save` variant used here.
- The user crate's `Session` stores boxed ids. It is modelled with the same `Session` datatype as the user-account crate.
- PasswordCredentialRepositoryMock.Save: keys the map by the user id itself, not by its string form. This assumes `Id::to_string` is injective.
- Concurrency is not modelled: every operation runs to completion on the stores it is given.

## Findings

| source | as written | input that shows it | evidently intended | confidence | as-written member | corrected member |
|---|---|---|---|---|---|---|
| argentum_user_account_business/src/mock/repository/broken/session_repository_mock.rs:52-68 | `delete_users_sessions` stops at the first session of the user (`break`) and removes only that one | a user with two stored sessions: after the delete, one of them remains | remove every session of the user, as the plural name says | medium, not executed | `BrokenSessionRepositoryMock.DeleteUsersSessions` (shown by `BrokenSessionRepositoryMock.DeleteUsersSessionsLeavesSecondSession`) | `BrokenSessionRepositoryMock.DeleteAllUsersSessions` |
