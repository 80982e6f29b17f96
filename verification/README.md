# User store with unique emails — a Dafny model

This project models the core of a small GraphQL CRUD service for `User` records
(name, email, phone, address):

- **`UserService`** — create, update and delete over a keyed store of users, plus the
  read operations. The one real business rule is the check-then-write on email.
  Create rejects an email that already exists. Update re-checks only when the email
  changes. Delete of a missing id is an error.
- **`UserRepository`** — the queries the service relies on, written as explicit
  filters over the rows: exact email and phone lookup, case-insensitive name search,
  the three-criteria `searchUsers` query, and counts.
- **`UserInput`** — the Bean Validation constraints on the four input fields. The
  result is the set of all violated constraints.
- **`GlobalExceptionHandler.resolveToSingleError`** — the ordered mapping from a
  failure to one GraphQL error category and message.

The store is a `Store(rows, nextId)`. `rows` holds the table's rows in storage
order; `nextId` is the next value of the identity sequence, so ids are never reused.
A mutation returns a `Reply`: the store after the call and a `Result`, which is
either the value returned or the `Failure` thrown. The invariant `Users.Valid`
says ids are issued by the sequence, ids are a key, and no two users share an email.
Create, update and delete preserve it.

Java `String`s are nullable, so every field is an `Option<string>`. Spring Data
treats a null argument of a derived query as `IS NULL`, so lookups compare options.

Modules, one per file: `Wrappers`, `Seqs` (order-preserving filter), `Text`
(ASCII case folding, `trim`, substring, `Long.toString`), `SqlLike` (the `LIKE`
operator), `Users`, `Failures`, `Validation`, `UserRepository`, `UserService`,
`Lifecycle` (properties of call sequences), `ExceptionHandler` and `Controller`.
`Controller` runs `@Valid` before the service and turns failures into responses.

Three points of the code shape the model:

- Validation runs in the controller, not the service. It is method validation
  enabled by `@Validated` on the controller class (`UserController.java:19`) and applied to the
  `@Valid` input of `createUser` and `updateUser` (`UserController.java:104`, `:112`), modelled in `Controller`.
- An `IllegalArgumentException` becomes a BAD_REQUEST error carrying its own message.
- In a validation error, every violation message is followed by `"; "`, the last one
  included.

## Model

| member | source | states |
|---|---|---|
| UserService.GetAllUsers | src/main/java/org/example/graphqlcrudapi/service/UserService.java:30-32 | every stored user, in storage order |
| UserService.GetUserById | src/main/java/org/example/graphqlcrudapi/service/UserService.java:38-41 | a stored user with that id; fails with UserNotFound "User not found with id: <id>" exactly when no user has the id |
| UserService.GetUserByEmail | src/main/java/org/example/graphqlcrudapi/service/UserService.java:47-49 | a user with exactly that email; absence (not a failure) exactly when nobody has it |
| UserService.SearchUsersByName | src/main/java/org/example/graphqlcrudapi/service/UserService.java:55-57 | exactly the stored users whose name contains the fragment, ignoring case |
| UserService.SearchUsers | src/main/java/org/example/graphqlcrudapi/service/UserService.java:63-65 | exactly the stored users satisfying every supplied criterion |
| UserService.GetUserCount | src/main/java/org/example/graphqlcrudapi/service/UserService.java:121-123 | the number of users |
| UserService.UserExists | src/main/java/org/example/graphqlcrudapi/service/UserService.java:129-131 | true iff some user has the id |
| UserService.EmailExists | src/main/java/org/example/graphqlcrudapi/service/UserService.java:137-139 | true iff some user's email equals the argument |
| UserService.CreateUser | src/main/java/org/example/graphqlcrudapi/service/UserService.java:70-83 | an existing email fails with DuplicateEmail "Email already exists: <email>" and leaves the store unchanged; otherwise the returned user carries the input's four fields under the next id and is appended to the store |
| UserService.CreateAddsExactlyOne | src/main/java/org/example/graphqlcrudapi/service/UserService.java:76-82 | a created user's id is held by no existing user, the count grows by one, and every earlier user is unchanged |
| UserService.CreatePreservesValid | src/main/java/org/example/graphqlcrudapi/service/UserService.java:72-74 | create keeps ids unique and no two users sharing an email |
| UserService.UpdateUser | src/main/java/org/example/graphqlcrudapi/service/UserService.java:88-103 | a failed update leaves the store unchanged; an absent id fails with UserNotFound; a duplicate is reported only when the email changes and someone already has it; success replaces all four fields (nulls included) of that id's row and no other row |
| UserService.UpdateSameEmailNeverDuplicate | src/main/java/org/example/graphqlcrudapi/service/UserService.java:92-95 | an update keeping the stored (non-null) email succeeds, whatever other users exist |
| UserService.UpdateOutcome | src/main/java/org/example/graphqlcrudapi/service/UserService.java:88-103 | for an existing user with a non-null email, the update succeeds iff the email is kept or nobody has the new one; otherwise it fails with DuplicateEmail "Email already exists: <email>" |
| UserService.UpdateFailsOnlyAsReported | src/main/java/org/example/graphqlcrudapi/service/UserService.java:88-95 | when every stored email is non-null, a failed update is either not-found or duplicate-email, never the null-email exception |
| UserService.UpdatePreservesValid | src/main/java/org/example/graphqlcrudapi/service/UserService.java:92-102 | update keeps ids unique and no two users sharing an email |
| UserService.Replace | src/main/java/org/example/graphqlcrudapi/service/UserService.java:97-102 | saving the merged user replaces exactly the rows with its id, keeping order and length |
| UserService.DeleteUser | src/main/java/org/example/graphqlcrudapi/service/UserService.java:108-115 | an absent id fails with UserNotFound and changes nothing; otherwise returns true and keeps exactly the users with other ids |
| UserService.DeletePreservesValid | src/main/java/org/example/graphqlcrudapi/service/UserService.java:108-115 | delete keeps ids unique and no two users sharing an email |
| UserService.DeleteRemovesOne | src/main/java/org/example/graphqlcrudapi/service/UserService.java:113-114 | deleting an existing id lowers the count by exactly one and the id no longer exists |
| Lifecycle.CreateThenGet | src/main/java/org/example/graphqlcrudapi/service/UserService.java:76-82 | reading back the id a create returned gives a user with the input's field values |
| Lifecycle.UpdateThenGet | src/main/java/org/example/graphqlcrudapi/service/UserService.java:97-102 | reading back an updated id gives the input's field values under the same id |
| Lifecycle.EmailExistsAfterCreate | src/main/java/org/example/graphqlcrudapi/service/UserService.java:76-82 | after a create the input's email exists |
| Lifecycle.EmailGoneAfterDelete | src/main/java/org/example/graphqlcrudapi/service/UserService.java:108-115 | after deleting a user nobody has its email |
| Lifecycle.SecondCreateIsDuplicate | src/main/java/org/example/graphqlcrudapi/service/UserService.java:72-74 | creating the same email twice: the second call fails with DuplicateEmail and writes nothing, so the count grows by exactly one when the email was new and the store is unchanged when it was not |
| Lifecycle.DeleteTwice | src/main/java/org/example/graphqlcrudapi/service/UserService.java:108-115 | a first delete returns true, a second delete of the same id fails with UserNotFound |
| UserRepository.FindById | src/main/java/org/example/graphqlcrudapi/repository/UserRepository.java:13 | a row with that id, absent exactly when no row has it |
| UserRepository.ExistsById | src/main/java/org/example/graphqlcrudapi/repository/UserRepository.java:13 | true iff some row has the id |
| UserRepository.FindByIdUnique | src/main/java/org/example/graphqlcrudapi/repository/UserRepository.java:13 | under a primary key, the row found is the one and only row with the id |
| UserRepository.ExistsByEmail | src/main/java/org/example/graphqlcrudapi/repository/UserRepository.java:28 | true iff some row's email equals the argument |
| UserRepository.FindByEmail | src/main/java/org/example/graphqlcrudapi/repository/UserRepository.java:18 | a row with that email, empty exactly when no row has it |
| UserRepository.FindByEmailAgreesWithExists | src/main/java/org/example/graphqlcrudapi/repository/UserRepository.java:18-28 | with unique emails, findByEmail never fails and finds a row iff existsByEmail holds |
| UserRepository.FindByNameContainingIgnoreCase | src/main/java/org/example/graphqlcrudapi/repository/UserRepository.java:23 | exactly the rows whose non-null name contains the fragment, ignoring case |
| UserRepository.EmptyFragmentMatchesAll | src/main/java/org/example/graphqlcrudapi/repository/UserRepository.java:23 | the empty fragment selects every user that has a name |
| UserRepository.FindByPhone | src/main/java/org/example/graphqlcrudapi/repository/UserRepository.java:33 | exactly the rows whose phone equals the argument |
| UserRepository.SearchUsers | src/main/java/org/example/graphqlcrudapi/repository/UserRepository.java:38-44 | a row is selected iff each non-null criterion holds: name and email contain it ignoring case, phone contains it case-sensitively; a null field never matches |
| UserRepository.SearchWithoutCriteriaIsAll | src/main/java/org/example/graphqlcrudapi/repository/UserRepository.java:38-41 | with all criteria null every user is returned |
| UserRepository.SearchNarrowsByName | src/main/java/org/example/graphqlcrudapi/repository/UserRepository.java:39 | adding a name criterion further filters the result, so it can only shrink |
| UserRepository.SearchNarrowsByEmail | src/main/java/org/example/graphqlcrudapi/repository/UserRepository.java:40 | adding an email criterion further filters the result, so it can only shrink |
| UserRepository.SearchNarrowsByPhone | src/main/java/org/example/graphqlcrudapi/repository/UserRepository.java:41 | adding a phone criterion further filters the result, so it can only shrink |
| UserRepository.SearchByNameAgrees | src/main/java/org/example/graphqlcrudapi/repository/UserRepository.java:23-39 | findByNameContainingIgnoreCase(n) equals searchUsers(n, null, null) |
| UserRepository.SearchUsersAsWritten | src/main/java/org/example/graphqlcrudapi/repository/UserRepository.java:38-44 | the query as written: a row is selected iff each non-null criterion, wrapped in '%', is a LIKE match |
| UserRepository.SearchAsWrittenAgrees | src/main/java/org/example/graphqlcrudapi/repository/UserRepository.java:38-41 | with no `%`, `_` or `\` in any criterion, the query as written equals the substring search |
| UserRepository.SearchAsWrittenTreatsUnderscoreAsWildcard | src/main/java/org/example/graphqlcrudapi/repository/UserRepository.java:39 | criterion "a_c" selects a user named "abc" in the query as written but not in the substring search |
| UserRepository.Count | src/main/java/org/example/graphqlcrudapi/repository/UserRepository.java:13 | the number of rows |
| UserRepository.CountByNamePattern | src/main/java/org/example/graphqlcrudapi/repository/UserRepository.java:49-50 | the count is the size of the as-written search with only the name criterion set: the rows whose lower-cased name is LIKE the lower-cased wrapped pattern |
| UserRepository.CountByNamePatternAgrees | src/main/java/org/example/graphqlcrudapi/repository/UserRepository.java:49-50 | for a pattern without `%`, `_` or `\`, the count equals the size of findByNameContainingIgnoreCase |
| SqlLike.LikeInfixIffContains | src/main/java/org/example/graphqlcrudapi/repository/UserRepository.java:39-41 | s LIKE '%'+f+'%' iff f is a substring of s, for f without `%`, `_` or `\` |
| SqlLike.LikeLiteral | src/main/java/org/example/graphqlcrudapi/repository/UserRepository.java:39-41 | a pattern without `%`, `_` or `\` matches exactly the string equal to it |
| SqlLike.LikePrefix | src/main/java/org/example/graphqlcrudapi/repository/UserRepository.java:39-41 | such a pattern followed by '%' matches exactly the strings it is a prefix of |
| Validation.Violations | src/main/java/org/example/graphqlcrudapi/dto/UserInput.java:9-21 | each constraint is reported iff its rule fails: name null or blank; name length outside 2..100; email null or blank; a non-empty email failing the syntax check; phone over 15; address over 500 |
| Validation.NoViolationsIffConforms | src/main/java/org/example/graphqlcrudapi/dto/UserInput.java:9-21 | no violation is reported iff every field rule holds, with blank as Java trim() leaving nothing |
| Validation.BlankNameFailsOnlyNotBlank | src/main/java/org/example/graphqlcrudapi/dto/UserInput.java:9-11 | a blank name of length 2..100 violates NotBlank and not Size |
| Validation.Ordered | src/main/java/org/example/graphqlcrudapi/config/GlobalExceptionHandler.java:40-41 | the violation set enumerated once each: same members, no repeats |
| Validation.NameSizeMessageQuotesBounds | src/main/java/org/example/graphqlcrudapi/dto/UserInput.java:10 | the name size message quotes the bounds 2 and 100 the annotation enforces |
| Validation.PhoneMessageQuotesBound | src/main/java/org/example/graphqlcrudapi/dto/UserInput.java:17 | the phone size message quotes the bound 15 the annotation enforces |
| Validation.AddressMessageQuotesBound | src/main/java/org/example/graphqlcrudapi/dto/UserInput.java:20 | the address size message quotes the bound 500 the annotation enforces |
| Validation.MessageInjective | src/main/java/org/example/graphqlcrudapi/dto/UserInput.java:9-21 | the six annotation messages differ pairwise, so a message names its constraint |
| Validation.MessagesHaveNoSemicolon | src/main/java/org/example/graphqlcrudapi/dto/UserInput.java:9-21 | no constraint message contains ';' |
| ExceptionHandler.ResolveToSingleError | src/main/java/org/example/graphqlcrudapi/config/GlobalExceptionHandler.java:18-66 | NotFound keeps its message as NOT_FOUND; DuplicateEmail and IllegalArgument keep theirs as BAD_REQUEST; a constraint violation is BAD_REQUEST "Validation failed: " plus each message and "; "; anything else is INTERNAL_ERROR "Internal server error occurred" |
| ExceptionHandler.JoinMessages | src/main/java/org/example/graphqlcrudapi/config/GlobalExceptionHandler.java:37-41 | a non-empty list of messages ends with the "; " terminator |
| ExceptionHandler.InternalOnlyForUnexpected | src/main/java/org/example/graphqlcrudapi/config/GlobalExceptionHandler.java:18-66 | the category is INTERNAL_ERROR iff the failure is unclassified, NOT_FOUND iff it is UserNotFound |
| ExceptionHandler.InternalCauseNotEchoed | src/main/java/org/example/graphqlcrudapi/config/GlobalExceptionHandler.java:61-66 | two unclassified failures with different messages produce the same error |
| ExceptionHandler.SplitJoin | src/main/java/org/example/graphqlcrudapi/config/GlobalExceptionHandler.java:37-41 | semicolon-free messages are read back, in order, from their joined text |
| ExceptionHandler.ValidationErrorLists | src/main/java/org/example/graphqlcrudapi/config/GlobalExceptionHandler.java:37-48 | a constraint-violation error is BAD_REQUEST, starts "Validation failed: ", and lists exactly its messages in order |
| Failures.NotFoundMessage | src/main/java/org/example/graphqlcrudapi/service/UserService.java:40 | the message starts "User not found with id: " and the rest reads back as the id |
| Failures.DuplicateMessage | src/main/java/org/example/graphqlcrudapi/service/UserService.java:73 | the message starts "Email already exists: " and the rest is the email ("null" for null) |
| Text.TrimEmptyIffBlank | src/main/java/org/example/graphqlcrudapi/dto/UserInput.java:9 | trim() leaves nothing iff every character is at or below the space character |
| Controller.Respond | src/main/java/org/example/graphqlcrudapi/config/GlobalExceptionHandler.java:17-18 | a call answers with its data and no error exactly when it succeeded; a failure answers with the single error the handler resolves it to |
| Controller.ValidationFailure | src/main/java/org/example/graphqlcrudapi/dto/UserInput.java:9-21 | the thrown violation carries one message per violated constraint: a constraint's message is present iff it was violated |
| Controller.CreateUser | src/main/java/org/example/graphqlcrudapi/controller/UserController.java:103-106 | an invalid input fails with a constraint violation and leaves the store unchanged; a valid input behaves as the service's create |
| Controller.UpdateUser | src/main/java/org/example/graphqlcrudapi/controller/UserController.java:111-114 | an invalid input fails with a constraint violation and leaves the store unchanged; a valid input behaves as the service's update |
| Controller.CreateKeepsAdmissible | src/main/java/org/example/graphqlcrudapi/controller/UserController.java:103-106 | validated creation keeps the store valid with every stored user passing validation |
| Controller.UpdateKeepsAdmissible | src/main/java/org/example/graphqlcrudapi/controller/UserController.java:111-114 | validated update keeps the store valid with every stored user passing validation |
| Controller.DeleteKeepsAdmissible | src/main/java/org/example/graphqlcrudapi/controller/UserController.java:119-122 | delete keeps the store valid with every stored user passing validation |
| Controller.UpdateNeverInternal | src/main/java/org/example/graphqlcrudapi/service/UserService.java:92-95 | in such a store the stored email is never null, so an update never ends in an internal error |
| Controller.InvalidInputRejected | src/main/java/org/example/graphqlcrudapi/config/GlobalExceptionHandler.java:37-48 | an invalid create is one BAD_REQUEST error listing every violated constraint's message, and nothing is written |
| Controller.DuplicateEmailScenario | src/test/java/org/example/graphqlcrudapi/controller/UserControllerTest.java:234-245 | creating with the seeded user's email yields BAD_REQUEST "Email already exists: test@example.com" and changes nothing |
| Controller.NotFoundScenario | src/test/java/org/example/graphqlcrudapi/controller/UserControllerTest.java:212-219 | getUserById(999) on the seeded store yields NOT_FOUND "User not found with id: 999" |

## Left out

- `User` entity: its source is not part of this model. Column constraints, timestamps, `equals`/`hashCode` and any database-level unique constraint are not modelled.
- Concurrency and `@Transactional`: the model is sequential. The race between `existsByEmail` and `save` is not represented.
- Storage failures: the only internal failures produced are the `NullPointerException` in `updateUser` and the non-unique-result error of `findByEmail`.
- Ids: the identity sequence starts at 1 and is an unbounded integer. `Long` overflow is not modelled.
- Case folding: `LOWER`, `UPPER` and `toLowerCase` are ASCII-only. Database collation and Unicode folding are not modelled.
- String length: a length is counted in Unicode scalar values, not UTF-16 code units.
- `@Email`: the syntax check is the uninterpreted parameter `wellFormed`. As in Hibernate's validator, null and the empty string pass without it.
- Violation order: `getConstraintViolations()` is a hash set with unspecified iteration order. The model enumerates it in the annotations' declaration order.
- Controller argument gates: the `@NotNull` checks on `id`, a null `input`, and GraphQL `ID` coercion are not modelled. Ids are always present.
- Read-only controller queries: they only delegate, so they are not modelled separately from the service.
- Error envelope: the GraphQL error's `path` and `location` are not modelled.
- Not part of this model: `GraphQLConfig.java` (DateTime scalar), `JacksonConfig.java` and `DataLoader.java` (startup seeding).
- UserRepository.FindByNameContainingIgnoreCase: the fragment is never null. The Java signature accepts a null name, and what Spring Data does with it is not modelled.
- UserService.SearchUsersByName: the fragment is never null. The null the service and the controller argument accept (`UserController.java:60` has no `@NotNull`) is not modelled.
- UserService.SearchUsers: answers with the corrected literal-substring search, not the `@Query` as written (see Findings). The two agree when no criterion holds `%`, `_` or `\` (`UserRepository.SearchAsWrittenAgrees`). For other criteria the source's `searchUsers` can return a different set of users than the model.
- SqlLike.Like: the default `\` escape character of the usual databases is not modelled. Every character other than `%` and `_` matches itself, so the lemmas relating `LIKE` to substring search exclude `\` as well.
- UserRepository.CountByNamePatternAgrees: holds only for a pattern without `%`, `_` or `\`. A pattern with them is matched as a `LIKE` pattern, while `findByNameContainingIgnoreCase` escapes them.
- UserRepository.CountByNamePattern: the pattern is never null. A null pattern, which makes the `LIKE` unknown and the count 0, is not modelled.
- UserRepository.SearchByNameAgrees: compares with the corrected `SearchUsers`. Against the query as written it holds only for a fragment without `%`, `_` or `\` (`SearchAsWrittenAgrees`).

## Findings

| source | as written | input that shows it | evidently intended | confidence | as-written member | corrected member |
|---|---|---|---|---|---|---|
| src/main/java/org/example/graphqlcrudapi/repository/UserRepository.java:39-41 | each criterion is spliced into `CONCAT('%', :c, '%')` and used as a `LIKE` pattern without escaping, so `%` and `_` in a criterion are wildcards | `searchUsers(name = "a_c")` on a user named "abc" returns that user | criteria match as literal substrings, as the derived `findByNameContainingIgnoreCase` (which escapes them) does | medium, not executed | UserRepository.SearchUsersAsWritten | UserRepository.SearchUsers |

`UserRepository.SearchAsWrittenTreatsUnderscoreAsWildcard` proves the counterexample.
`UserRepository.SearchAsWrittenAgrees` proves the two agree whenever no criterion holds `%`, `_` or `\`.
The service uses the corrected `SearchUsers`.
