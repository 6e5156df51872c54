# User service core in Dafny

This project models the write path of a small user CRUD service and proves
properties about it:

- **Error values** (`Errors`). Every failure is a message with a status and a
  tag. Four constructors build them: not found (404, `not_found`), bad request
  (400, `bad_request`), unprocessable entity (422, `invalid_request`) and
  internal server error (500, `server_error`).
- **User record and rules** (`Model`). The user record and the `validate`
  struct tags. The tags become an explicit ordered list of fields, each with
  its ordered list of tags.
- **Strings** (`Text`). The parts of `strings` and `unicode` that the code
  relies on: `TrimSpace`, `Contains` and `Join`.
- **Repository** (`Keys`, `Repository`). The store is one table, a map from
  primary key to row plus the next key the engine hands out.
  - `UserRepository` is a class with that map as a field. Its methods change
    the map and record each call in a ghost trace.
  - Each method is proved equal to a function over the table. Lemmas about
    those functions state what the repository promises.
  - A database failure is injected per statement through the `faults` map,
    which holds the driver's message.
- **Validator** (`Validation`). The declared field rules run in field order,
  and each field stops at its first failing tag. Each failure maps to a fixed
  message or to the validator's default text. The name-pair uniqueness query
  then always runs.
  - `ValidateUser` is a method whose loop builds the message list.
  - A failed uniqueness query panics in the code. Here it is the `Aborted`
    outcome, which carries the repository's error.
- **Service** (`Service`). `UserService` is a class holding the repository and
  the validator. Each method is proved equal to an `Outcome` function: the
  table afterwards, the result, and the repository calls made in order. That
  makes "`DbCreateUser` is not called when validation fails" a statement about
  the `calls` component.

Failures are classified as follows:

- A database failure becomes an internal server error carrying the driver's
  text.
- "no users found", "record not found" and "User not found" become not-found
  errors.
- A rejected save becomes a bad-request error whose message is the violations
  joined with ",".

### Where the model follows the code rather than the description

- **Age 0.** The age field carries `required` before `validateAge`, and
  `required` fails on the zero value. An age of 0 is therefore reported with
  the validator's default `required` text, not with "User does not meet
  minimum age requirement" (`Validation.AgeMessage`).
- **Field order.** Fields are checked in declaration order: first name, last
  name, email, age. Email messages therefore come before age messages
  (`Validation.ViolationsInOrder`).
- **Updates skip empty fields.** `DbUpdateUser` runs the engine's `Updates`
  with a record, which skips zero-valued fields. An empty string or a zero age
  in an update is not written. The service still returns the record with the
  empty values (`Service.UpdateReportsUnstoredFields`).
- **Updates are not validated.** An update can store a row that the rules
  reject (`Service.UpdateSkipsValidation`).
- **Lookup by id 0.** The engine's `Where(User{Id: 0})` drops the zero
  condition, so `DbGetUser(0)` takes some row. The code's id check then fails
  with "User not found" rather than "record not found"
  (`Repository.GetUserFinds`).

## Model

| member | source | states |
|---|---|---|
| Errors.NotFoundError | internal/utils/error.go:34-40 | the result carries the message unchanged, status 404 and tag "not_found" |
| Errors.BadRequestError | internal/utils/error.go:42-48 | the result carries the message unchanged, status 400 and tag "bad_request" |
| Errors.UnprocessibleEntityError | internal/utils/error.go:49-55 | the result carries the message unchanged, status 422 and tag "invalid_request" |
| Errors.InternalServerError | internal/utils/error.go:65-71 | the result carries the message unchanged, status 500 and tag "server_error" |
| Errors.Classify | internal/utils/error.go:22-32 | reading only `Status()` and `Error()`, a recognised kind rebuilds the whole error from its `Message()` |
| Errors.ClassifyConstruct | internal/utils/error.go:22-71 | what each constructor builds is classified as its own kind, and `Message()` returns the text it was given |
| Errors.KindsDistinct | internal/utils/error.go:34-71 | two different constructors never share a status and never share a tag |
| Errors.ConstructInjective | internal/utils/error.go:34-71 | two constructed errors are equal exactly when kind and message are |
| Text.TrimSpace | internal/service/userValidationService.go:81 | the trimmed text is empty exactly when every code point is white space; otherwise it starts and ends with a code point that is not white space |
| Text.ContainsChar | internal/service/userValidationService.go:81 | containing a one-code-point string is the same as holding that code point |
| Text.JoinContainsPart | internal/service/userService.go:61 | every joined part occurs in the joined string |
| Repository.SortedIdsComplete | internal/repository/userRepository.go:32 | the ascending key order contains every key |
| Repository.RowsByIdLists | internal/repository/userRepository.go:32-38 | the listing has one entry per row: every entry is a stored row under its own id, ids strictly ascend, and every stored row appears |
| Repository.ListUsersLists | internal/repository/userRepository.go:28-42 | listing succeeds exactly when the database does and the table is non-empty, then returns the full listing; an empty table gives not found with "no users found" |
| Repository.GetUserFinds | internal/repository/userRepository.go:53-66 | on a well-formed table the lookup returns exactly the stored row with that id; a missing id gives "record not found"; id 0 on a non-empty table gives "User not found" |
| Repository.GetUserOnlyMatching | internal/repository/userRepository.go:61-65 | on any table, a successful lookup returns a row whose id is the one asked for |
| Repository.ExistsIff | internal/repository/userRepository.go:86-100 | the query answers true exactly when some stored row has both the first and the last name |
| Repository.FaultsPassThrough | internal/repository/userRepository.go:28-100 | a failing statement returns its driver text as a server error and leaves the table as it was |
| Repository.CreateThenGet | internal/repository/userRepository.go:44-51 | the record is stored under a non-zero key: its own id, or a fresh one for id 0. The same record comes back, the table stays well-formed, other rows are untouched, and a later lookup of the id finds the record |
| Repository.UpdateMerges | internal/repository/userRepository.go:68-75 | an update of a stored id writes the record's non-empty fields into that row only, and returns the input record |
| Repository.MergeAllNonZero | internal/repository/userRepository.go:70 | when every field of the record is non-empty, the stored row becomes that record |
| Repository.DeleteThenGet | internal/repository/userRepository.go:77-84 | deleting removes exactly that row and returns no record; a later lookup fails with "record not found"; a second delete changes nothing |
| Repository.UserRepository.constructor | internal/repository/userRepository.go:24-26 | the repository starts over a well-formed table with the given faults and an empty trace |
| Repository.UserRepository.DbListUsers | internal/repository/userRepository.go:28-42 | returns the listing result of the current table and records one `ListUsers` call |
| Repository.UserRepository.DbCreateUser | internal/repository/userRepository.go:44-51 | the new table and result are those of the save step; the table stays well-formed |
| Repository.UserRepository.DbGetUser | internal/repository/userRepository.go:53-66 | returns the lookup result of the current table and records one `GetUser` call |
| Repository.UserRepository.DbUpdateUser | internal/repository/userRepository.go:68-75 | the new table and result are those of the update step; the table stays well-formed |
| Repository.UserRepository.DbDeleteUser | internal/repository/userRepository.go:77-84 | the new table and result are those of the delete step; the table stays well-formed |
| Repository.UserRepository.ExistsByFirstNameAndLastName | internal/repository/userRepository.go:86-100 | returns the name query's result on the current table and records one `ExistsByName` call |
| Validation.ValidateEmailIff | internal/service/userValidationService.go:79-82 | `validateEmail` accepts exactly addresses that have a code point which is not white space and contain "@" |
| Validation.FirstFailing | internal/model/user.go:7-8 | the position found is the first tag the value fails, and every earlier tag passes; none is found exactly when all tags pass |
| Validation.FieldErrors | internal/model/user.go:5-8 | each field contributes at most one error |
| Validation.Messages | internal/service/userValidationService.go:39-54 | one message per failed tag, in the same order, each the one the tag maps to |
| Validation.NameOutcome | internal/model/user.go:5-6 | a name field fails only `required`, and only when it is empty |
| Validation.EmailOutcome | internal/model/user.go:7 | the email field reports the first of `required`, `email`, `validateEmail` that fails |
| Validation.AgeOutcome | internal/model/user.go:8 | the age field reports `required` for 0 and otherwise `validateAge` below ten |
| Validation.FieldErrorsOfUser | internal/model/user.go:3-9 | the rule engine's errors equal the per-field decision table, in declaration order; the id carries no rule |
| Validation.FieldMessages | internal/service/userValidationService.go:41-53 | each field's failure maps to its message: `validateAge` to the age message, `email` and `validateEmail` to the email message, `required` to the default text |
| Validation.ViolationsInOrder | internal/service/userValidationService.go:30-61 | the violations are the messages of first name, last name, email and age, in that order, then the uniqueness message when the pair is stored |
| Validation.MessagesDistinct | internal/service/userValidationService.go:11-17 | no field message equals the uniqueness message, and the age, email and default texts are all different |
| Validation.AgeMessage | internal/service/userValidationService.go:73-77 | the age message is reported exactly for a non-zero age under ten; age 0 gets the `required` text instead |
| Validation.EmailMessage | internal/service/userValidationService.go:79-82 | the email message is reported exactly for a non-empty address that fails the library syntax or `validateEmail`; an empty one gets the `required` text |
| Validation.NameMessages | internal/model/user.go:5-6 | an empty first name is the first violation, and an empty last name is reported with its `required` text |
| Validation.UniqueMessageLast | internal/service/userValidationService.go:57-61 | the uniqueness message is present exactly when the pair is stored, and then it is the last violation and appears nowhere earlier |
| Validation.ViolationsEmptyIff | internal/service/userValidationService.go:63-70 | there are no violations exactly when no field rule failed and the pair is new |
| Validation.NoViolationsIff | internal/service/userValidationService.go:27-71 | a record passes exactly when both names are non-empty, the email passes all three checks, the age is non-zero and at least ten, and the pair is new |
| Validation.AllFailInOrder | internal/service/userValidationService.go:36-61 | a record with every field empty and a stored pair gets exactly five violations, in field order and then uniqueness |
| Validation.ReportedInJoin | internal/service/userService.go:59-62 | every violation can be found in the ","-joined rejection message |
| Validation.ValidateResultIff | internal/service/userValidationService.go:84-89 | a failed query aborts validation with the repository's error; otherwise the violations are the record's, with the uniqueness flag true exactly when a stored row has both names |
| Validation.AgeNineRejected | internal/service/userValidationService_test.go:12-31 | age 9 yields the age message in the joined violations |
| Validation.BadEmailRejected | internal/service/userValidationService_test.go:33-52 | "bad_email" yields the email message, whatever the library syntax check says |
| Validation.DuplicateRejected | internal/service/userValidationService_test.go:54-73 | a record whose names are already stored yields the uniqueness message, as the last violation |
| Validation.UserValidationService.constructor | internal/service/userValidationService.go:23-25 | the validator holds the given repository and email syntax |
| Validation.UserValidationService.ValidateFirstNameLastName | internal/service/userValidationService.go:84-90 | true exactly when the pair is not stored; a failed query is returned as the error; one `ExistsByName` call |
| Validation.UserValidationService.ValidateUser | internal/service/userValidationService.go:27-71 | the outcome is the table's validation result: the ordered violations, or the abort; the uniqueness query is made exactly once |
| Service.SaveRejectsInvalid | internal/service/userService.go:59-62 | with violations, the save fails with status 400 and tag "bad_request", its message contains every violation, the table is unchanged and only the uniqueness query runs |
| Service.SaveAbortsOnQueryFailure | internal/service/userService.go:52-57 | an aborted validation is returned as the error; the table is unchanged and `DbCreateUser` is not called |
| Service.SaveStoresValid | internal/service/userService.go:65-74 | a save succeeds exactly when the record passes every rule and its pair is new. The input is then stored under a non-zero id, other rows are kept, and a lookup returns it |
| Service.SaveChangeIsInsert | internal/service/userService.go:48-76 | a save that changes the table inserted a rule-passing record whose pair no row had |
| Service.SaveKeepsNamesUnique | internal/service/userService.go:48-76 | if no two rows shared a name pair before a save, none do after it |
| Service.FieldErrorsIgnoreId | internal/model/user.go:4 | the rules do not depend on the id |
| Service.SaveKeepsRowsPassing | internal/service/userService.go:48-76 | if every stored row passed the rules before a save, every row does after it |
| Service.LookupFailureStops | internal/service/userService.go:85-88 | a failed lookup in update or delete is returned unchanged, with the table untouched and only `DbGetUser` called |
| Service.UpdateOverwrites | internal/service/userService.go:78-101 | an update of a stored row keeps its id, writes the candidate's non-empty fields, touches no other row, and returns the candidate |
| Service.UpdateSkipsValidation | internal/service/userService.go:78-101 | an update stores an age of 5, which the age rule rejects |
| Service.UpdateReportsUnstoredFields | internal/service/userService.go:89-100 | an update with an empty email and age 0 returns them empty, while the row keeps its old email and age |
| Service.DeleteTwice | internal/service/userService.go:103-118 | deleting a stored row removes only that row and returns no record; deleting it again fails with not found before `DbDeleteUser` is called |
| Service.DeleteMissing | internal/service/userService.go:103-112 | deleting an id with no row fails with status 404, leaves the table alone and calls only `DbGetUser` |
| Service.SeedRejectsDuplicate | database/database.go:21-33 | saving another John Doe into the seeded table fails with status 400 and the uniqueness message, and stores nothing |
| Service.UserService.constructor | internal/service/userService.go:19-22 | the service holds the repository and a validator over that same repository |
| Service.UserService.GetAllUsers | internal/service/userService.go:24-34 | returns the repository's listing or its error unchanged |
| Service.UserService.GetUser | internal/service/userService.go:36-46 | returns the repository's row or its error unchanged |
| Service.UserService.SaveUser | internal/service/userService.go:48-76 | the new table, the result and the calls are those of the save outcome: validate, then reject or insert |
| Service.UserService.UpdateUser | internal/service/userService.go:78-101 | the new table, the result and the calls are those of the update outcome: fetch, overwrite four fields, persist |
| Service.UserService.DeleteUser | internal/service/userService.go:103-118 | the new table, the result and the calls are those of the delete outcome: fetch, then delete |

## Left out

- HTTP transport, routing, middleware, JSON decoding and encoding, and the
  status-to-text switch of the response writer. None of these is part of the
  core.
- `ApiErrFromBytes` (internal/utils/error.go:57-63): it only decodes JSON.
- Logging: every log call is dropped. The constants `RESPONSE_USER_NOT_FOUND`
  and `RESPONSE_VALIDATION_FAILED` are only logged or unused, so they are not
  modelled.
- Concurrency. The uniqueness check and the insert are not atomic; the model
  is sequential.
- Integer width. Ids and ages are unbounded integers rather than `int64`.
  No arithmetic on them can overflow in the code except the engine's key
  counter.
- The validator library's `email` syntax. It is the opaque predicate
  `emailSyntax`, a parameter of the validator; address syntax is not
  reimplemented.
- Untyped Go errors. The repository and service return plain errors built
  with `errors.New`. Here they are error values classified as described
  above. The message text is kept unchanged; the status and tag are this
  model's classification.
- Engine details:
  - Auto-increment is modelled as a counter that only grows and stays above
    every key used.
  - Which row the engine takes for a lookup by id 0 is modelled as the lowest
    key.
  - The SQL text and transactions are not modelled.
- In-place update. `UpdateUser` overwrites fields of the fetched record in
  place. The model updates a copy of the fetched value instead; nothing else
  holds that record, so no aliasing is lost.
- `DeleteUser`'s nil-user branch (internal/service/userService.go:109-112).
  `DbGetUser` never returns a nil user without an error, so that branch
  cannot be reached and has no separate path here.
- `Message()` differing from `Error()`: this is not stated as a property.
  It holds only when the message differs from the tag.
- Validation.FieldErrors: its own contract only bounds the number of errors.
  The exact list is stated by `Validation.FieldErrorsOfUser`.
- Repository.GetUserOnlyMatching: its contract needs no proof steps; it is
  kept because it holds on any table, well-formed or not.
