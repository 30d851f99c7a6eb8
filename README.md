# job4j_auth account service, modelled in Dafny

This project models the request handling of the `/person` REST controller of a
small account service, and the credential lookup that the service gives to
Spring Security. The controller has six handlers:

- list all persons
- get a person by id
- change a password
- sign up
- replace a person
- delete a person

Its exception handler turns `IllegalArgumentException` into a 400 response.

Files and modules:

- `wrappers.dfy`, module `Wrappers`: `Option`, which stands for Java's `null` and `Optional`.
- `java_text.dfy`, module `JavaText`: Java strings as UTF-16 code units.
  `String.length()` counts code units. The regular-expression engine steps over code points.
- `password_pattern.dfy`, module `PasswordPattern`: the sign-up password pattern
  `^(?=.*[0-9])(?=.*[a-z])(?=.*[A-Z]).{4,}$` under `String.matches`. It gives
  the meaning of `.`, `.*`, the three lookaheads and `.{4,}$`. A lemma proves
  that this matcher accepts exactly the passwords of a plain rule, `PasswordPolicy`.
  That rule requires:
  - no line terminator;
  - an ASCII digit, an ASCII lower-case letter and an ASCII upper-case letter;
  - at least four code points.
- `domain.dfy`, module `Domain`: `Person`, the request body `PersonDto`, status
  codes, the exceptions a handler throws, and a handler's outcome.
- `person_service.dfy`, module `PersonService`: the person store, a
  `map<int, Person>`. Ids come from an identity counter, start at 1 and are
  never reused. Saving a `Person` whose id is 0 inserts it under a fresh id.
  Saving any other `Person` replaces the stored one.
- `controller.dfy`, module `Controller`: the sign-up checks and the mapping of
  exceptions to responses. It gives each handler as a function from the store
  before the request to the store after it and the outcome. The class
  `PersonController` holds the store as fields, plus the password encoder it was
  constructed with. The encoder is a fixed function of the
  password; nothing else is assumed about it. Each method of the class changes the fields step by step, as the
  handler does, and is proved to follow the handler's function.
- `details_service.dfy`, module `DetailsService`: `loadUserByUsername`.
- `properties.dfy`, module `AccountProperties`: properties that relate two
  requests, or a request and the credential lookup.

What the code does at its edges:

- A null login or password is not a validation error of its own. It is
  dereferenced at line 72 or line 75, which throws a `NullPointerException`
  that the controller's handler does not catch. The test at lines 79-80 can
  never fire (`Controller.SignUpCheck`).
- A blank login of 3-15 units is accepted, because only the length is checked.
- The `.*` of the lookaheads does not cross line terminators, and `.{4,}$`
  matches only if the whole password is free of them. A password containing a
  line break is therefore rejected.
- Lengths are Java lengths. The login bound 3-15 counts UTF-16 code units. The
  pattern's `{4,}` counts code points. The `password.length() < 4` test at
  line 75 is therefore redundant (`PasswordPattern.MatchImpliesLengthAtLeastFour`).
- The null-body test of `update` at lines 93-94 is modelled (`Controller.UpdateStep`),
  but Spring refuses a missing or null required `@RequestBody` before the
  handler runs, so in the running service that test never fires either.

## Model

| member | source | states |
|---|---|---|
| JavaText.CodePointCount | src/main/java/ru/job4j/controller/PersonController.java:75 | The number of code points of a Java string is at most its `length()`, and at least half of it. It equals `length()` when there are no surrogates. |
| PasswordPattern.DotRun | src/main/java/ru/job4j/controller/PersonController.java:75 | `.` repeated consumes the whole password exactly when no unit is a line terminator. The number of steps is then the code point count. |
| PasswordPattern.DotStarReachesClassMember | src/main/java/ru/job4j/controller/PersonController.java:75 | On a password without line terminators, the `.*` of a lookahead can stop in front of any ASCII digit or letter. |
| PasswordPattern.LookaheadFromMember | src/main/java/ru/job4j/controller/PersonController.java:75 | On a password without line terminators, `(?=.*[c])` succeeds when some unit is in the class `c`. |
| PasswordPattern.MatchesIffPolicy | src/main/java/ru/job4j/controller/PersonController.java:75 | `Matches`, the model of `password.matches(...)` built from `DotStarReaches` (`.*`), `Lookahead` (`(?=.*[c])`) and `DotRun` (`.{4,}$`), holds if and only if the password has no line terminator, has an ASCII digit, a lower-case and an upper-case letter, and has at least 4 code points. |
| PasswordPattern.MatchImpliesLengthAtLeastFour | src/main/java/ru/job4j/controller/PersonController.java:75 | A matching password has `length() >= 4`, so the `length() < 4` disjunct never decides. |
| PasswordPattern.SupplementaryCharacterCountsOnce | src/main/java/ru/job4j/controller/PersonController.java:75 | "aB1" followed by one surrogate pair has 4 code points and matches, although it is 5 units long. |
| PersonService.Save | src/main/java/ru/job4j/repository/PersonRepository.java:11 | Saving keeps login and password. A new Person (id 0) gets a non-zero id not yet in the store. Any other Person keeps its id. The store then holds the saved Person under its id and is otherwise unchanged. |
| PersonService.FindByLogin | src/main/java/ru/job4j/repository/PersonRepository.java:15 | Returns nothing exactly when no stored Person has the login. Otherwise it returns a stored Person with that login. |
| Controller.SignUpCheck | src/main/java/ru/job4j/controller/PersonController.java:70-81 | A null login, or a null password after a good login, gives an unmessaged NullPointerException. A login length outside 3-15 gives the login IllegalArgumentException whatever the password. A good login with a password outside the policy gives the password IllegalArgumentException. It passes exactly when both fields are present and valid. The explicit NullPointerException of line 80 never occurs. |
| Controller.Respond | src/main/java/ru/job4j/controller/PersonController.java:116-127 | A returned response entity passes through unchanged, whatever its status (so the plain 404s of updatePassword, update and delete stay entities). The reply is an ErrorResponse with 400 exactly for IllegalArgumentException, carrying its message. It is an ErrorResponse with 404 exactly for the not-found ResponseStatusException. It is left unhandled exactly for a NullPointerException. |
| Controller.FindAllOf | src/main/java/ru/job4j/controller/PersonController.java:38-44 | 200 with a body holding exactly the stored persons. |
| Controller.FindByIdOf | src/main/java/ru/job4j/controller/PersonController.java:46-54 | 200 with the stored person exactly when the id is stored. Otherwise it throws a ResponseStatusException with status 404 and the reason "User with this id wasn't found. Please, check the input.", which `Respond` maps to a 404 ErrorResponse. Whether the client's error body shows the reason depends on Spring Boot settings outside the code. |
| Controller.UpdatePasswordStep | src/main/java/ru/job4j/controller/PersonController.java:56-66 | An absent id gives 404 and an unchanged store. A present id gives 200 with the person under the same id and login and the password `encode(newPassword)`. The store changes at that id only. |
| Controller.CreateStep | src/main/java/ru/job4j/controller/PersonController.java:68-89 | Returns (201) exactly for accepted sign-ups. A rejected sign-up throws what SignUpCheck gives and leaves the store as it was. An accepted one adds exactly one person under a new non-zero id, with the given login and password `encode(password)`, and returns it. |
| Controller.UpdateStep | src/main/java/ru/job4j/controller/PersonController.java:91-102 | A null body gives the "Person cannot be empty." IllegalArgumentException (a test Spring's required-body check makes unreachable in the running service). An id that is not stored gives 404. In both cases the store is unchanged. Otherwise the body is stored verbatim under its id, password not encoded, with 200 and no body. |
| Controller.DeleteStep | src/main/java/ru/job4j/controller/PersonController.java:104-114 | An absent id gives 404 and an unchanged store. A present id gives 200 and removes exactly that id. Every other entry is unchanged. |
| Controller.PersonController.constructor | src/main/java/ru/job4j/controller/PersonController.java:32-36 | The controller works over the injected store exactly as it stands (any well-formed store), with the injected encoder. |
| Controller.PersonController.Save | src/main/java/ru/job4j/repository/PersonRepository.java:11 | The fields change as PersonService.Save says, and the store stays well-formed. |
| Controller.PersonController.FindAll | src/main/java/ru/job4j/controller/PersonController.java:38-44 | Reads the store without changing it and answers as FindAllOf. |
| Controller.PersonController.FindById | src/main/java/ru/job4j/controller/PersonController.java:46-54 | Reads the store without changing it and answers as FindByIdOf. |
| Controller.PersonController.UpdatePassword | src/main/java/ru/job4j/controller/PersonController.java:56-66 | The new store and the outcome are those of UpdatePasswordStep, and the store stays well-formed. |
| Controller.PersonController.Create | src/main/java/ru/job4j/controller/PersonController.java:68-89 | The new store and the outcome are those of CreateStep, and the store stays well-formed. |
| Controller.PersonController.Update | src/main/java/ru/job4j/controller/PersonController.java:91-102 | The new store and the outcome are those of UpdateStep, and the store stays well-formed. |
| Controller.PersonController.Delete | src/main/java/ru/job4j/controller/PersonController.java:104-114 | The new store and the outcome are those of DeleteStep, and the store stays well-formed. |
| DetailsService.LoadUserByUsername | src/main/java/ru/job4j/service/PersonDetailsServiceImpl.java:22-29 | UsernameNotFound carrying the requested login exactly when no stored person has it. Otherwise the principal's username is the login, its password is the stored password verbatim, and its authority list is empty. It reads the store and never changes it. |
| AccountProperties.SignUpBadLoginIsBadRequest | src/main/java/ru/job4j/controller/PersonController.java:72-74 | A login length outside 3-15 yields 400 with the login message whatever the password, and nothing is saved. |
| AccountProperties.SignUpBadPasswordIsBadRequest | src/main/java/ru/job4j/controller/PersonController.java:75-78 | With a valid login, a password outside the policy yields 400 with the password message, and nothing is saved. |
| AccountProperties.SignUpNullFieldIsUnhandled | src/main/java/ru/job4j/controller/PersonController.java:72-80 | A null login, or a null password with a valid login, ends in an unhandled NullPointerException, not 400, and nothing is saved. |
| AccountProperties.SignUpThenFindById | src/main/java/ru/job4j/controller/PersonController.java:82-88 | A successful sign-up grows the store by exactly one, and a GET of the returned id gives the returned person. |
| AccountProperties.SignUpOfNewLoginThenLoadUser | src/main/java/ru/job4j/service/PersonDetailsServiceImpl.java:22-29 | When the login was not taken before, the lookup after a successful sign-up finds a principal whose username is that login, whose password is exactly the encoded password stored at sign-up, and whose authority list is empty. |
| AccountProperties.ExamplePasswordFollowsPolicy | src/main/java/ru/job4j/controller/PersonController.java:75 | "Passw0rd" has no line terminator, an ASCII digit, a lower-case and an upper-case letter, and at least 4 code points. |
| AccountProperties.SignUpExample | src/main/java/ru/job4j/controller/PersonController.java:68-89 | Sign-up of "bob12" / "Passw0rd" is answered 201 and stores "bob12" with `encode("Passw0rd")` under a new non-zero id. |
| AccountProperties.UpdatePasswordThenFindById | src/main/java/ru/job4j/controller/PersonController.java:56-66 | After a password change the ids are the same. A GET returns the same id and login with `encode(newPassword)`, and every other person is untouched. |
| AccountProperties.UpdateThenFindById | src/main/java/ru/job4j/controller/PersonController.java:91-102 | After a PUT of a stored id the answer is 200 with no body, and a GET returns the body as sent, password not encoded. |
| AccountProperties.UpdateOfUnsavedPersonIsNotFound | src/main/java/ru/job4j/controller/PersonController.java:96-99 | A PUT body with id 0, never a stored id, gives 404 and changes nothing. |
| AccountProperties.DeleteTwiceIsNotFound | src/main/java/ru/job4j/controller/PersonController.java:104-114 | A second delete of the same id gives 404 and leaves the store as the first left it. |
| AccountProperties.DeleteThenFindByIdIsNotFound | src/main/java/ru/job4j/controller/PersonController.java:104-114 | Deleting a stored id gives 200 and shrinks the store by one. A later GET of that id gives 404. |

## Left out

- HTTP routing, `ResponseEntity` and servlet plumbing, JSON serialisation of the error body and its `type` entry, and logging (PersonController.java lines 22-26 and 119-126). Only status codes, bodies and error messages are modelled.
- BCrypt: the encoder is the constructor's `encode` function. Nothing is assumed about its output, not even that it differs from its input.
- BCrypt's random salt: the real encoder returns a new hash on each call, even for the same password. The model's `encode` gives one hash per password. In the contracts, `password == encode(x)` means the hash made by that request's single call. No contract compares two calls.
- Spring's handling of a missing request body, which happens before a handler runs. The Bean Validation annotations of `PersonDTO` are also left out, because no `@Valid` triggers them.
- Controller.PersonController.UpdatePassword: takes the request's password as a non-null string. A PATCH body without a password hands null to the BCrypt encoder, whose reaction is not modelled.
- Person's login and password are non-null strings. A PUT body whose `login` or `password` is null is not modelled.
- The order of the list `findAll` returns: the body is the set of stored persons.
- Person ids are unbounded integers. Java `int` overflow of the identity counter is not modelled.
- PersonService.FindByLogin: when several persons share a login, the model picks one of them. The real repository's behaviour in that case, an exception for more than one result, is not modelled.
- DetailsService.LoadUserByUsername: Spring Security's `User` constructor rejects an empty username. That rejection happens inside the library and is not modelled. Only a PUT can store an empty login.
- The remaining flags of the principal (enabled, non-expired and so on) are fixed by Spring Security and not modelled.
- Concurrent requests, transactions and store failures.
- The JPA entity's identity: the person `updatePassword` changes is a value copy, not the managed entity.
