# User service of the hexagonal architecture example, in Dafny

This project models the core of a small user-management service built in
hexagonal style (domain, ports, adapters):

- **`UserEmail`** (`user_email.dfy`, module `UserEmailModel`): a value object
  whose constructor runs three checks in order. The value must not be blank,
  it must contain `@`, and it must match
  `^[A-Za-z0-9+_.-]+@[A-Za-z0-9.-]+\.[A-Za-z]{2,}$`. The regular expression
  has two forms in the model. `RegexMatches` is a declarative ghost
  predicate. `MatchesEmailPattern` is an executable backtracking matcher. A
  lemma proves the two equivalent. `UserEmail` is a subset type, so an
  invalid email value cannot exist.
- **`User`** (`user.dfy`, module `UserModel`): an immutable record. Its
  constructor rejects a blank name, a negative age and an age above 150.
  The record also carries `isAdult` (age at least 18) and
  `canReceivePromotionalEmails` (the same test). `User` is a subset type of
  the well-formed records.
- **`UserResponse.from`** (`user_response.dfy`, module `WebResponse`): the
  response body that the web layer builds from a user.
- **The `UserRepository` port** (`repository_port.dfy`, module
  `RepositoryPort`): pure functions over the stored users, kept in
  insertion order, plus an identifier counter. `save`, `findById` and
  `findByEmail` are the functions `Save`, `FindById` and `FindByEmail`;
  `findAll` is the sequence of stored users itself; `delete` is `Exists`
  (the answer it returns) together with `Remove` (the store it leaves).
  The store invariant holds throughout: every user has an identifier, no
  identifier appears twice and no email appears twice.
- **`UserRepositoryAdapter`** (`persistence.dfy`, module `Persistence`): a
  class holding the rows of the `users` table, together with the mappings
  `toEntity` and `toDomain`. Each method is proved against the port
  functions through a ghost copy of the stored users.
- **The `EmailService` port** (`email_port.dfy`, module `EmailPort`): an
  append-only log of the messages the service asked it to send.
- **`UserDomainService`** (`domain_service.dfy`, module `DomainService`): a
  class over a repository adapter and an outbox. It covers user creation
  with the duplicate-email check and the welcome message, the lookups,
  deletion, and the promotional mailing to eligible users. Three client
  methods replay the creation, mailing and deletion flows of the test
  suite against the class contracts.
- **`Seqs`** and **`Wrappers`** (`seqs.dfy`, `wrappers.dfy`): first-match
  search, removal at a position, and the `Option` and `Result` types.

The code throws `IllegalArgumentException` for rejected input. The model
returns the `Failure` case of a `Result` instead, with one error value per
message the code raises.

## Model

| member | source | states |
|---|---|---|
| UserEmailModel.ParseEmail | src/main/kotlin/com/example/hexagonal/domain/model/UserEmail.kt:4-11 | accepts exactly the strings the pattern matches and keeps them unchanged; a blank string fails with the blank error; a non-blank string without `@` fails with the missing-`@` error; a non-blank string with `@` that does not match fails with the format error |
| UserEmailModel.MatchesEmailPatternIffRegex | src/main/kotlin/com/example/hexagonal/domain/model/UserEmail.kt:8 | the matcher accepts a string if and only if the anchored regular expression matches it |
| UserEmailModel.MatchesEmailPattern | src/main/kotlin/com/example/hexagonal/domain/model/UserEmail.kt:8 | `value.matches(Regex(...))`: a backtracking matcher over the whole string; what it accepts is the anchored pattern, by `MatchesEmailPatternIffRegex` |
| UserEmailModel.BlankMeansAllWhitespace | src/main/kotlin/com/example/hexagonal/domain/model/UserEmail.kt:6 | `isNotBlank` fails exactly when every character is whitespace |
| UserEmailModel.PatternImpliesEarlierChecks | src/main/kotlin/com/example/hexagonal/domain/model/UserEmail.kt:6-8 | a string that matches the pattern also passes the blank check and the `@` check |
| UserEmailModel.AcceptedEmailShape | src/main/kotlin/com/example/hexagonal/domain/model/UserEmail.kt:8 | every accepted email has exactly one `@`, a non-empty local part of allowed characters before it, and a `.` followed by at least two ASCII letters at the end |
| UserEmailModel.AcceptedExample | src/main/kotlin/com/example/hexagonal/domain/model/UserEmail.kt:4-11 | `john@example.com` is accepted and stored as given |
| UserEmailModel.RejectedExamples | src/main/kotlin/com/example/hexagonal/domain/model/UserEmail.kt:6-10 | `""` and `"   "` fail as blank; `invalid-email` and `not-an-email` fail for the missing `@`; `a@b` fails the format check |
| UserEmailModel.NoAtSign | src/main/kotlin/com/example/hexagonal/domain/model/UserEmail.kt:7 | a string whose first character is not whitespace and that has no `@` fails for the missing `@` |
| UserModel.NewUser | src/main/kotlin/com/example/hexagonal/domain/model/User.kt:6-17 | succeeds exactly when the name is not blank and 0 <= age <= 150, and then holds exactly the given fields (no id in gives no id out); otherwise the first failing check names the error |
| UserModel.IsAdult | src/main/kotlin/com/example/hexagonal/domain/model/User.kt:19 | `isAdult()`: the age is at least 18, with the boundary cases in `AdultExamples` |
| UserModel.CanReceivePromotionalEmails | src/main/kotlin/com/example/hexagonal/domain/model/User.kt:21 | `canReceivePromotionalEmails()`: the same test as `isAdult()`, so exactly users aged 18 or more (`AdultExamples`) |
| UserModel.AdultExamples | src/main/kotlin/com/example/hexagonal/domain/model/User.kt:19-21 | ages 1 and 17 give minors; ages 18, 19 and 65 give adults; a user can receive promotions exactly when aged 18 or more |
| WebResponse.From | src/main/kotlin/com/example/hexagonal/application/web/model/response/UserResponse.kt:16-23 | copies id, name, age and creation time, and flattens the email to its string; `isAdult` holds exactly when the age is at least 18; the response keeps the user's invariants, and its email string parses back to the user's email |
| WebResponse.FromIsInjective | src/main/kotlin/com/example/hexagonal/application/web/model/response/UserResponse.kt:16-23 | two users with equal responses are the same user |
| RepositoryPort.IndexOfId | src/main/kotlin/com/example/hexagonal/domain/port/outbound/UserRepository.kt:9 | gives a position holding the id, and is absent exactly when no stored user has it |
| RepositoryPort.FindById | src/main/kotlin/com/example/hexagonal/domain/port/outbound/UserRepository.kt:9 | a result is a stored user with that id; the result is absent exactly when no stored user has the id |
| RepositoryPort.FindByEmail | src/main/kotlin/com/example/hexagonal/domain/port/outbound/UserRepository.kt:10 | a result is a stored user with that email; the result is absent exactly when no stored user has the email string |
| RepositoryPort.Exists | src/main/kotlin/com/example/hexagonal/infrastructure/persistence/UserRepositoryAdapter.kt:33 | `existsById`, the answer `delete` returns: a stored user holds the id, by `ExistsIff` |
| RepositoryPort.ExistsIff | src/main/kotlin/com/example/hexagonal/infrastructure/persistence/UserRepositoryAdapter.kt:33 | the answer is true exactly when some stored user has the id |
| RepositoryPort.Remove | src/main/kotlin/com/example/hexagonal/domain/port/outbound/UserRepository.kt:12 | an unknown id leaves the store unchanged; a stored id shortens it by one |
| RepositoryPort.Save | src/main/kotlin/com/example/hexagonal/domain/port/outbound/UserRepository.kt:8 | fails exactly when another stored user holds the email; on success the returned user keeps every field, gets the next id when it had none, and is in the new store |
| RepositoryPort.SaveNewUser | src/main/kotlin/com/example/hexagonal/domain/port/outbound/UserRepository.kt:8 | a user without an id whose email is free gets a fresh id and is appended; the counter advances by one |
| RepositoryPort.SaveExistingUser | src/main/kotlin/com/example/hexagonal/domain/port/outbound/UserRepository.kt:8 | a user whose id is stored and whose email is free replaces exactly that entry; every other entry and the counter stay as they were |
| RepositoryPort.SaveUnknownId | src/main/kotlin/com/example/hexagonal/domain/port/outbound/UserRepository.kt:8 | a user carrying an id nobody holds, with a free email, is appended unchanged; the counter moves past its id and never goes down |
| RepositoryPort.SavePreservesInvariant | src/main/kotlin/com/example/hexagonal/infrastructure/persistence/UserEntity.kt:10-18 | every successful save keeps ids set, below the counter and distinct, and keeps emails unique |
| RepositoryPort.SaveThenFind | src/main/kotlin/com/example/hexagonal/domain/port/outbound/UserRepository.kt:8-10 | right after a save, `findById` with the returned id and `findByEmail` with the saved email both return the saved user |
| RepositoryPort.SaveTwoInOrder | src/main/kotlin/com/example/hexagonal/domain/port/outbound/UserRepository.kt:8-11 | saving two new users with different free emails succeeds twice, and lists them after the earlier users in save order |
| RepositoryPort.RemoveExisting | src/main/kotlin/com/example/hexagonal/domain/port/outbound/UserRepository.kt:12 | deleting a stored id removes exactly that one user (as a multiset), leaves no user with the id, and keeps the invariant |
| RepositoryPort.RemoveLeavesNoId | src/main/kotlin/com/example/hexagonal/domain/port/outbound/UserRepository.kt:12 | after deleting a stored id, no remaining user holds it |
| RepositoryPort.RemoveKeepsInvariant | src/main/kotlin/com/example/hexagonal/domain/port/outbound/UserRepository.kt:12 | deleting any id keeps ids set, below the counter and distinct, and keeps emails unique |
| RepositoryPort.SaveThenDelete | src/main/kotlin/com/example/hexagonal/domain/port/outbound/UserRepository.kt:8-12 | a saved user's id exists, and after deleting it the id is no longer found |
| RepositoryPort.RemoveMissing | src/main/kotlin/com/example/hexagonal/domain/port/outbound/UserRepository.kt:12 | deleting an id nobody has reports absence and changes nothing |
| Persistence.ToEntity | src/main/kotlin/com/example/hexagonal/infrastructure/persistence/UserRepositoryAdapter.kt:41-47 | the row holds every field of the user, with the email as its string |
| Persistence.ToDomain | src/main/kotlin/com/example/hexagonal/infrastructure/persistence/UserRepositoryAdapter.kt:49-55 | a row maps to a user exactly when its email is valid, its name is not blank and its age is within bounds, and then every field is preserved |
| Persistence.MappingRoundTrip | src/main/kotlin/com/example/hexagonal/infrastructure/persistence/UserRepositoryAdapter.kt:41-55 | writing a user as a row and reading it back gives the same user |
| Persistence.MappingRoundTripBack | src/main/kotlin/com/example/hexagonal/infrastructure/persistence/UserRepositoryAdapter.kt:41-55 | a row that can be read back is the row of the user it reads as |
| Persistence.MapToDomain | src/main/kotlin/com/example/hexagonal/infrastructure/persistence/UserRepositoryAdapter.kt:29 | one user per row, in row order, each the row's mapping |
| Persistence.UserRepositoryAdapter.RowsAgreeOnId | src/main/kotlin/com/example/hexagonal/infrastructure/persistence/UserRepositoryAdapter.kt:20-22 | the row lookup by id finds the same position as the user lookup |
| Persistence.UserRepositoryAdapter.RowClashMeansTaken | src/main/kotlin/com/example/hexagonal/infrastructure/persistence/UserRepositoryAdapter.kt:14-18 | a row clashes with the written row exactly when another stored user holds the email |
| Persistence.UserRepositoryAdapter.FindById | src/main/kotlin/com/example/hexagonal/infrastructure/persistence/UserRepositoryAdapter.kt:20-22 | reading the table by id answers as the port's `findById` over the stored users |
| Persistence.UserRepositoryAdapter.FindByEmail | src/main/kotlin/com/example/hexagonal/infrastructure/persistence/UserRepositoryAdapter.kt:24-26 | comparing the email column with the value's string answers as the port's `findByEmail` |
| Persistence.UserRepositoryAdapter.FindAll | src/main/kotlin/com/example/hexagonal/infrastructure/persistence/UserRepositoryAdapter.kt:28-30 | the mapped rows are exactly the stored users, in order |
| Persistence.UserRepositoryAdapter.Save | src/main/kotlin/com/example/hexagonal/infrastructure/persistence/UserRepositoryAdapter.kt:14-18 | on an email clash the write is rejected and nothing changes; otherwise the table, the stored users and the counter become the port's `save` outcome, and the returned user is the one read back |
| Persistence.UserRepositoryAdapter.Delete | src/main/kotlin/com/example/hexagonal/infrastructure/persistence/UserRepositoryAdapter.kt:32-39 | reports whether the id was stored; the stored users become the port's `delete` outcome; the counter is unchanged; the invariant is kept |
| EmailPort.EmailOutbox.SendWelcomeEmail | src/main/kotlin/com/example/hexagonal/domain/port/outbound/EmailService.kt:6 | appends one welcome message for the user |
| EmailPort.EmailOutbox.SendPromotionalEmail | src/main/kotlin/com/example/hexagonal/domain/port/outbound/EmailService.kt:7 | appends one promotional message with the given user and content |
| DomainService.Eligible | src/main/kotlin/com/example/hexagonal/domain/service/UserDomainService.kt:46-47 | the filtered list is no longer than the stored list |
| DomainService.EligibleMembers | src/main/kotlin/com/example/hexagonal/domain/service/UserDomainService.kt:46-47 | a user is in the filtered list exactly when it is stored and can receive promotions |
| DomainService.EligibleAppend | src/main/kotlin/com/example/hexagonal/domain/service/UserDomainService.kt:46-47 | filtering distributes over concatenation, so order is kept |
| DomainService.EligibleCount | src/main/kotlin/com/example/hexagonal/domain/service/UserDomainService.kt:46-47 | an eligible user is kept as many times as it occurs; anyone else is dropped |
| DomainService.PromotionalRecipients | src/main/kotlin/com/example/hexagonal/domain/service/UserDomainService.kt:45-52 | the mailing sends an adult one promotion per stored occurrence and sends minors none |
| DomainService.BatchCount | src/main/kotlin/com/example/hexagonal/domain/service/UserDomainService.kt:49-51 | one promotional message per recipient occurrence |
| DomainService.BatchSnoc | src/main/kotlin/com/example/hexagonal/domain/service/UserDomainService.kt:49-51 | one more recipient adds one promotional message at the end |
| DomainService.SendEach | src/main/kotlin/com/example/hexagonal/domain/service/UserDomainService.kt:49-51 | the log gains the promotional messages for the given users, in their order, and nothing else |
| DomainService.MailingExample | src/main/kotlin/com/example/hexagonal/domain/service/UserDomainService.kt:46-47 | of an adult of 25 and a minor of 16, only the adult is eligible |
| DomainService.UserDomainService.CreateUser | src/main/kotlin/com/example/hexagonal/domain/service/UserDomainService.kt:17-35 | an invalid email fails with its own error; a stored email fails as duplicate; if neither, a blank name or an age out of bounds fails with its own error; it succeeds exactly when all three checks pass; a failure saves nothing and sends nothing; a success appends the new user (next id, given fields, creation time `now`) and sends exactly one welcome to it |
| DomainService.UserDomainService.GetUserById | src/main/kotlin/com/example/hexagonal/domain/service/UserDomainService.kt:37 | answers as the repository's `findById` |
| DomainService.UserDomainService.GetUserByEmail | src/main/kotlin/com/example/hexagonal/domain/service/UserDomainService.kt:39 | answers as the repository's `findByEmail` |
| DomainService.UserDomainService.GetAllUsers | src/main/kotlin/com/example/hexagonal/domain/service/UserDomainService.kt:41 | every stored user, in insertion order |
| DomainService.UserDomainService.DeleteUser | src/main/kotlin/com/example/hexagonal/domain/service/UserDomainService.kt:43 | reports whether the id was stored, removes that user, keeps the id counter, and sends nothing |
| DomainService.UserDomainService.SendPromotionalEmailToEligibleUsers | src/main/kotlin/com/example/hexagonal/domain/service/UserDomainService.kt:45-52 | appends one promotion per eligible user, in `findAll` order, and leaves the store unchanged |
| DomainService.DuplicateEmailScenario | src/test/kotlin/com/example/hexagonal/domain/UserDomainServiceTest.kt:27-75 | on an empty store, creating "John Doe" aged 25 gives an adult with an id and one welcome; a second creation with the same email fails as duplicate and sends nothing |
| DomainService.MailingScenario | src/test/kotlin/com/example/hexagonal/domain/UserDomainServiceTest.kt:115-141 | with an adult of 25 and a minor of 16 stored, the mailing adds exactly one message, a promotion to the adult |
| DomainService.DeletionScenario | src/integrationTest/kotlin/com/example/hexagonal/UserRepositoryIntegrationTest.kt:76-104 | deleting an unknown id reports false; deleting a created user's id reports true, and the user is no longer found |

## Left out

- The web layer is not modelled: `UserController`, `CreateUserRequest`, HTTP status mapping and JSON. Only `UserResponse.from` is modelled.
- Spring wiring and the JPA runtime are replaced by the adapter class. `UserJpaRepository` becomes the `rows` sequence, and the unique email column becomes the `EmailAlreadyStored` result in place of a constraint exception.
- `UUID` generation is a counter (`nextId`), and `LocalDateTime.now()` is the caller's `now` parameter. Both are sources of nondeterminism in the code.
- `EmailServiceAdapter` logging is left out. The email port is an infallible log, so a failure of the welcome or promotional sender is not modelled. The code has no per-recipient failure isolation either: an exception in the mailing loop would abort it.
- Concurrency is not modelled. The check-then-save race in `createUser`, where two requests create the same email, cannot occur in the sequential model.
- Kotlin `Int` is 32-bit, and the model's `age: int` is unbounded. Only 0..150 is ever accepted, so wrap-around has no effect.
- Kotlin strings are UTF-16 code units, and the model's `char` is a Unicode scalar value. `isNotBlank` is modelled with Java's `Character.isWhitespace` set plus the no-break spaces `isWhitespace` also counts in Kotlin.
- Persistence.UserRepositoryAdapter.Save: saving a user whose id is not stored is modelled as an insert under that id. JPA `merge` semantics for detached entities with unknown ids are left out.
- Persistence.UserRepositoryAdapter.FindById, Persistence.UserRepositoryAdapter.FindByEmail and Persistence.UserRepositoryAdapter.FindAll (`UserRepositoryAdapter.kt:21`, `:25`, `:29`): an invalid row (for which `toDomain` would throw) cannot occur, because every row is the image of a valid user by the adapter invariant. The throwing path is therefore unreachable and not modelled.
- DomainService.UserDomainService.CreateUser: the contract states the outcome of the repository and notifier calls, not the order in which the read-only lookups happen. That the email is parsed before the repository is consulted shows only in the error priorities.
- The code raises two age messages, one for a negative age and one for an age above 150 (`User.kt:15-16`); the model has `NegativeAge` and `AgeAboveMaximum`.
- `getUserByEmail` takes an already-parsed `UserEmail`, so the model gives it no invalid-email error path.
