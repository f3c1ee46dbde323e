# Grand Line authentication core, modelled in Dafny

This project models the account-verification core of the authentication service and its two route-annotation parsers:

- **Account lifecycle (`IdentityService.UserService`).** A class that holds the user table and the verification-code table. Its methods model registration, authentication, password reset, code confirmation and code resend. Each method answers the service's `{message, status}` pair for every branch, or rethrows when a fault is not one of the service's own exceptions.
- **Repositories (`Accounts`).** The two tables are in-memory classes. Each has a sequence of rows, the next id, and a flag saying whether the store can be reached. Lookups return `null` on a miss, and updates are guarded.
- **Older HTTP handlers (`AuthenticationHandlers`).** The controller's `authenticator` and `registrator` are modelled with the local error list they grow.
- **`PathValidator` of the authentication service (`AuthPathValidator`).**
  - `checkPath` reads `@VERB(path,controller)`.
  - `checkEmail` is the e-mail shape test.
  - `randomPassword` is the loop that draws characters from a 76-character set.
- **`PathValidator` of the container-info service (`ContainerPathValidator`).** Its `checkPath` reads `@VERB(path.controller)`.
- **Supporting modules.**
  - `RoutePattern`: the regular expression `@([A-Z]+)\(([^)]+)\)` both parsers run, written as a leftmost matcher and proved equal to a reference definition of an occurrence.
  - `Text`: the JavaScript string primitives used (`trim`, `.length` in UTF-16 code units, `split` on one character, `toLowerCase` on capitals).

Environment inputs are parameters:

- the clock (`now`, in milliseconds);
- the random 12-character verification code;
- the random indices `randomPassword` draws;
- whether the mail transport accepts a message, and its answer.

`bcrypt` is an injective `Hash`, with `Matches(p, h) <==> h == Hash(p)`. A session token is the opaque value `Token(userId)`.

Three repository operations the service calls are not defined in the repository classes: `findByCode`, `findByUserId` and `updateStatus`. They are modelled as follows:

- `findByCode`: the first code row with that address and code;
- `findByUserId`: the first code row of that account;
- `updateStatus`: setting the status of the row with that id.

The service's own operations keep three facts about the two tables: login ids are unique, every code belongs to an account with its address, and an account has at most one code. Nothing in the database enforces them: the controller's `registrator` writes the user table without a uniqueness check. So `UserService.Valid` asks only what the repositories keep (fresh, distinct ids), and each operation promises to keep the three facts when they held before (`Coherent`).

The model keeps `status` on user rows and `expAt` on code rows because the service reads both. The repositories' `create` methods store them too; see "Left out".

In these places the model follows the code, even where an account service might be expected to behave differently:

- `authenticateUser` never reads the account status, so an UNCONFIRMED account signs in (`RegisterThenSignIn`).
- Code confirmation does not look at the code's expiry. A code row whose user id is 0 is answered 200 without any update.
- `resendCode` never writes a new code. It answers 200 with an empty message when no code exists, and it throws when the existing code has expired.
- `passwordReset` does not persist the PASSWORD_RESET_REQUIRED status, because `updatePassword` writes the password only.
- The address `luffy@grandline.example` is refused by `checkEmail`: its last label has seven letters and the pattern allows two to four (`RefusedLongLabel`).

## Model

| member | source | states |
|---|---|---|
| RoutePattern.MatchAtIsOccurrence | svc.authentification/src/framework/validator/PathValidator.ts:6 | the matcher tried at one index succeeds with captures `c` exactly when `c` is an occurrence of `@([A-Z]+)\(([^)]+)\)` starting there |
| RoutePattern.SearchFrom | svc.authentification/src/framework/validator/PathValidator.ts:7 | the search returns the first index from `i` on where the pattern matches, and none only when no later index matches |
| RoutePattern.Exec | svc.authentification/src/framework/validator/PathValidator.ts:6-7 | `exec` returns a match at an index where the pattern matches and at no earlier index; it returns none exactly when no index matches |
| RoutePattern.ExecIsLeftmostOccurrence | svc.authentification/src/framework/validator/PathValidator.ts:6-7 | `exec` finds an occurrence, and the leftmost one; it finds nothing exactly when the pattern occurs nowhere |
| RoutePattern.ExecAtStart | svc.container.info/src/framework/validator/PathValidator.ts:4-5 | an occurrence at index 0 is what `exec` returns |
| RoutePattern.WholeAnnotation | svc.container.info/src/framework/validator/PathValidator.ts:4-5 | on `@VERB(args)` with capitals and `)`-free args, `exec` captures exactly `VERB` and `args` |
| Text.Trim | svc.authentification/src/framework/validator/PathValidator.ts:20 | `trim` returns a slice `s[a..b]` of its argument with only ECMAScript white space before `a` and after `b`, no blank at either end of the result, and `""` only for an all-blank string |
| Text.Utf16Length | svc.authentification/src/adapter/service/UserService.ts:32 | `.length` counts UTF-16 code units, between the number of characters and twice it, and equal to it on the Basic Multilingual Plane |
| Text.SplitJoins | svc.container.info/src/framework/validator/PathValidator.ts:14-15 | the pieces of `split` hold no separator, and joining them with the separator gives back the string |
| Text.SplitFields | svc.authentification/src/framework/validator/PathValidator.ts:19-21 | piece 0 is the text before the first separator; there is a piece 1 exactly when the separator occurs, and it is the text between the first and second separators |
| Text.SplitThree | svc.container.info/src/framework/validator/PathValidator.ts:14-15 | splitting `a.b.c` with separator-free parts gives `[a, b, c]` |
| Text.Lower | svc.authentification/src/framework/validator/PathValidator.ts:18 | `toLowerCase` keeps the length and lowers each ASCII capital |
| AuthPathValidator.CheckPath | svc.authentification/src/framework/validator/PathValidator.ts:3-24 | a successful `checkPath` returns exactly three strings |
| AuthPathValidator.CheckPathFailures | svc.authentification/src/framework/validator/PathValidator.ts:9-21 | `checkPath` throws "is not a correct route injection" exactly when the pattern occurs nowhere, throws on a verb outside the seven methods, and throws the `endpoints[1]` TypeError exactly when the parentheses hold no comma; otherwise it succeeds |
| AuthPathValidator.CheckPathFields | svc.authentification/src/framework/validator/PathValidator.ts:18-23 | on success the result is the leftmost verb in lower case, the trimmed text before the first comma, and the trimmed text between the first and second commas |
| AuthPathValidator.CheckPathVerb | svc.authentification/src/framework/validator/PathValidator.ts:5 | the returned verb is one of get, post, put, patch, delete, head, options |
| AuthPathValidator.LowerVerb | svc.authentification/src/framework/validator/PathValidator.ts:18 | each accepted method lower-cases to its lower-case name |
| AuthPathValidator.CommaRoute | svc.authentification/src/framework/validator/PathValidator.ts:3-24 | `@VERB(path,controller)` with an accepted verb and comma-free, unpadded parts parses to `[lower(VERB), path, controller]` |
| AuthPathValidator.PostRoute | svc.authentification/src/adapter/controller/AuthenticationController.ts:12-15 | an annotation of the controller's `@POST(path,controller)` form parses to `["post", path, controller]` |
| AuthPathValidator.CheckEmail | svc.authentification/src/framework/validator/PathValidator.ts:26-29 | an accepted address is at least six characters long, starts with a local-part character and ends with a letter |
| AuthPathValidator.CheckEmailIsPattern | svc.authentification/src/framework/validator/PathValidator.ts:26-29 | the split-based `checkEmail` accepts exactly the strings of the form `[a-zA-Z0-9._-]+ @ [a-zA-Z0-9.-]+ . [a-zA-Z]{2,4}` |
| AuthPathValidator.AcceptedHasParts | svc.authentification/src/framework/validator/PathValidator.ts:27 | an accepted address splits at its first `@` into the parts of the pattern |
| AuthPathValidator.PartsAreAccepted | svc.authentification/src/framework/validator/PathValidator.ts:27 | every string of the pattern's form is accepted |
| AuthPathValidator.CheckEmailOneAt | svc.authentification/src/framework/validator/PathValidator.ts:27 | every accepted address holds exactly one `@` |
| AuthPathValidator.AcceptedEmail | svc.authentification/src/framework/validator/PathValidator.ts:27 | `luffy@grandline.com` is accepted |
| AuthPathValidator.NoDotNearEnd | svc.authentification/src/framework/validator/PathValidator.ts:27 | an address with no dot among its last five characters is refused |
| AuthPathValidator.RefusedLongLabel | svc.authentification/src/framework/validator/PathValidator.ts:27 | `luffy@grandline.example` is refused |
| AuthPathValidator.Drawn | svc.authentification/src/framework/validator/PathValidator.ts:31-41 | a password drawn with `n` indices has length `n` and only charset characters |
| AuthPathValidator.RandomPassword | svc.authentification/src/framework/validator/PathValidator.ts:31-41 | the loop returns a string of the requested length whose `i`-th character is the charset character at the `i`-th draw |
| AuthPathValidator.CharsetPrintable | svc.authentification/src/framework/validator/PathValidator.ts:32 | the charset holds printable ASCII only |
| AuthPathValidator.DrawnIsPlain | svc.authentification/src/framework/validator/PathValidator.ts:32-38 | a drawn password is its own trim and its UTF-16 length is its number of characters |
| ContainerPathValidator.CheckPath | svc.container.info/src/framework/validator/PathValidator.ts:3-19 | `checkPath` fails exactly when `exec` finds nothing; otherwise it returns exactly three strings, the first being the verb as written |
| ContainerPathValidator.CheckPathMeaning | svc.container.info/src/framework/validator/PathValidator.ts:3-17 | `checkPath` throws, naming the route, exactly when the pattern occurs nowhere; otherwise it returns exactly `[verb unchanged, text before the first dot, text between the first and second dots or ""]` |
| ContainerPathValidator.DottedRoute | svc.container.info/src/framework/validator/PathValidator.ts:10-15 | `@VERB(path.controller)` with dot-free parts gives exactly `[VERB, path, controller]` |
| ContainerPathValidator.UsersRoute | svc.container.info/src/tests/unit/framwork/validator/PathValidator.test.ts:30-34 | `@GET(/users.controller)` gives `["GET", "/users", "controller"]` |
| ContainerPathValidator.MockRoute | svc.container.info/src/tests/unit/framwork/validator/PathValidator.test.ts:24-28 | `@GET(/mockroute.controller)` gives `["GET", "/mockroute", "controller"]` |
| ContainerPathValidator.InvalidVerbRoute | svc.container.info/src/tests/unit/framwork/validator/PathValidator.test.ts:42-47 | `@INVALID(/invalid.route)` is accepted as `["INVALID", "/invalid", "route"]`; the parser throws nothing on it |
| Accounts.HashInjective | svc.authentification/src/adapter/service/UserService.ts:86 | two passwords have the same digest exactly when they are equal |
| Accounts.MatchesOnlyItsOwn | svc.authentification/src/adapter/service/UserService.ts:45 | `bcrypt.compare(p, hash(q))` holds exactly when `p == q` |
| Accounts.FindFirst | svc.authentification/src/adapter/repositories/UserRepository.ts:54 | a lookup finds nothing exactly when no row qualifies, and otherwise returns the first qualifying row |
| Accounts.WithPassword | svc.authentification/src/adapter/repositories/UserRepository.ts:77-80 | rewriting a password changes the password of the rows with that id only, and every other field and row is kept |
| Accounts.WithStatus | svc.authentification/src/adapter/service/UserService.ts:223 | setting a status changes the status of the rows with that id only, and every other field and row is kept |
| Accounts.WithStatusAbsent | svc.authentification/src/adapter/service/UserService.ts:221-224 | setting the status of an id no row has leaves the table as it was |
| Accounts.WithStatusIdempotent | svc.authentification/src/adapter/service/UserService.ts:221-225 | setting the same status twice is the same as setting it once |
| Accounts.UserRepository.FindById | svc.authentification/src/adapter/repositories/UserRepository.ts:15-22 | throws exactly when the store is down; otherwise returns null exactly when no row has the id, or a stored row with that id |
| Accounts.UserRepository.FindByGrandLineId | svc.authentification/src/adapter/repositories/UserRepository.ts:52-59 | throws exactly when the store is down; otherwise returns null exactly when no row has the login id, or a stored row with that login id, the first in insertion order (see "Left out") |
| Accounts.UserRepository.Create | svc.authentification/src/adapter/repositories/UserRepository.ts:30-44 | appends exactly one row holding the DTO's fields under the next id, and returns it; throws and changes nothing when the store is down |
| Accounts.UserRepository.UpdatePassword | svc.authentification/src/adapter/repositories/UserRepository.ts:67-89 | returns null and changes nothing for a DTO without an id; throws when no row has the id or the store is down; otherwise only that row's password changes and the updated row is returned |
| Accounts.UserRepository.UpdateStatus | svc.authentification/src/adapter/service/UserService.ts:223 | sets the status of the row with that id and nothing else, or throws when the store is down |
| Accounts.VerificationCodeRepository.FindById | svc.authentification/src/adapter/repositories/VerificationCodeRepository.ts:10-16 | throws exactly when the store is down; otherwise null exactly when no code has the id, or the code with that id |
| Accounts.VerificationCodeRepository.FindByCode | svc.authentification/src/adapter/service/UserService.ts:215 | null exactly when no code has that address and value, otherwise such a code |
| Accounts.VerificationCodeRepository.FindByUserId | svc.authentification/src/adapter/service/UserService.ts:258 | null exactly when the account has no code, otherwise a code of that account |
| Accounts.VerificationCodeRepository.FindByGrandLineId | svc.authentification/src/adapter/repositories/VerificationCodeRepository.ts:35-37 | always throws "Method not implemented <id>.", whatever its argument |
| Accounts.VerificationCodeRepository.Create | svc.authentification/src/adapter/repositories/VerificationCodeRepository.ts:18-34 | without a user id, or when the store is down, throws and adds nothing; otherwise appends exactly one code with that user id, address, value and expiry, and returns it |
| IdentityService.HandleError | svc.authentification/src/adapter/service/UserService.ts:297-299 | the answer carries the exception's message; its status is the exception's when that is not 0, and 500 when it is 0 |
| IdentityService.IsNameChar | svc.authentification/src/adapter/service/UserService.ts:77 | a name character is Latin-1 and is neither × nor ÷ |
| IdentityService.ValidNameChars | svc.authentification/src/adapter/service/UserService.ts:77-84 | a name that passes the test is made of name characters and white space only, and holds at least one name character that is not white space |
| IdentityService.SoleHolderKept | svc.authentification/src/adapter/service/UserService.ts:153-169 | with unique login ids, a row holding a login id is its only holder, and stays the only one in a table with the same login ids row by row, as after a password rewrite |
| IdentityService.ConsistentAfterRewrite | svc.authentification/src/adapter/service/UserService.ts:168-169 | rewriting passwords or statuses keeps login ids unique, every code owned by an account with its address, and one code per account |
| IdentityService.ConsistentAfterRegistration | svc.authentification/src/adapter/service/UserService.ts:95-115 | adding an account with a new login id and fresh id, then its code, keeps the tables consistent |
| IdentityService.UserService.AuthenticateUser | svc.authentification/src/adapter/service/UserService.ts:30-62 | 400 "Invalid data" for a missing field or a trimmed password under 8; 400 "Invalid grandLine Id." for a bad address; 401 "Authentication failed." exactly when no account has the id or the password does not match; 200 with the account's token exactly when it matches (the status is never read); rethrows a store fault |
| IdentityService.UserService.RegistratorUser | svc.authentification/src/adapter/service/UserService.ts:64-136 | every input check (fields, password length, address, both trimmed names) runs before any write; a taken login id gives 400 "grandLine Id already exists." and writes nothing; otherwise exactly one UNCONFIRMED account with the hashed password and the next user id, and one 12-character code for it under the next code id, expiring 10 minutes after `now`, are added and both counters move by one; a code-store fault keeps the account and leaves the code table and its counter as they were; 201 with the mail answer, or 500 "email no sended" with both rows kept; tables that were consistent stay consistent |
| IdentityService.UserService.Enroll | svc.authentification/src/adapter/service/UserService.ts:95-125 | the store calls of registration: a taken login id or a store fault writes nothing; otherwise the account, then its code, are appended under the next ids, each counter moving by one |
| IdentityService.UserService.PasswordReset | svc.authentification/src/adapter/service/UserService.ts:138-198 | 400 for a missing or malformed id, 404 "Account is not exist." for an unknown one; otherwise the account's stored password becomes the hash of the 12-character `randomPassword`, and nothing else changes, counters included; 200 with the mail answer, or a rethrown fault when mailing fails |
| IdentityService.UserService.CodeValidator | svc.authentification/src/adapter/service/UserService.ts:200-233 | 400 when a field is missing or the trimmed code is not 12 long, or the id is malformed; 400 "Verification code not found." when no code has that address and value; otherwise the owning account becomes CONFIRMED and nothing else changes, counters included, and the answer is 200 "Code confirmed successfully."; a code whose user id is 0 gets the same 200 with no update, even when the user store is down; the code table is never written |
| IdentityService.UserService.ConfirmTwice | svc.authentification/src/adapter/service/UserService.ts:200-233 | a confirmation that succeeded succeeds again with the same answer and leaves the tables as the first one left them |
| IdentityService.UserService.SignInSoleHolder | svc.authentification/src/adapter/service/UserService.ts:43-51 | signing in with the password of the only account holding the login id answers 200 with that account's token, whatever its status |
| IdentityService.UserService.RegisterThenSignIn | svc.authentification/src/adapter/service/UserService.ts:86-125 | after a 201 registration, signing in with the same login id and password answers 200 with the new account's token, though the account is UNCONFIRMED |
| IdentityService.UserService.ResetThenSignIn | svc.authentification/src/adapter/service/UserService.ts:153-180 | after a 200 reset, the account the lookup found existed before it; when login ids were unique, the temporary password signs that account in |
| IdentityService.UserService.ResendCode | svc.authentification/src/adapter/service/UserService.ts:235-295 | writes nothing; 400 for a missing or malformed id; 404 "User not found."; 400 "User is already confirmed."; 400 "A confirmation code has already been sent." when the account's code has not expired; rethrows an empty Error when it has; 200 with an empty message when the account has no code |
| AuthenticationHandlers.AuthenticationController.constructor | svc.authentification/src/adapter/controller/AuthenticationController.ts:11-16 | the two route annotations, sign-in and sign-up, in that order |
| AuthenticationHandlers.AuthenticationController.Authenticator | svc.authentification/src/adapter/controller/AuthenticationController.ts:17-62 | 400 "Both grandLineId and password are required." for a missing field; 400 with the one-message list for a short password, before any lookup; 401 "User not found."; 401 `{error: "Incorrect password."}` on a mismatch; 200 with the token exactly when the account exists and the password matches; 500 when the store is down |
| AuthenticationHandlers.AuthenticationController.Registrator | svc.authentification/src/adapter/controller/AuthenticationController.ts:64-96 | 400 "All fields are required." or 400 with the password-length error list, both writing nothing; otherwise exactly one account with the hashed password, no status and the next id is stored, the counter moves by one, and the row is returned with 201; 500 and no write when the store is down |

## Left out

- Hashing: `bcrypt` is an injective `Hash`. Salting, the cost factor and the 72-byte truncation of long passwords are not modelled, so two passwords that share their first 72 bytes count as different here.
- Tokens: `jsonwebtoken` signing, the secret key and the one-hour expiry are not modelled. A token is `Token(userId)`.
- Randomness:
  - `randomstring.generate(12)` is the `code` parameter, constrained to 12 alphanumeric characters.
  - `Math.random` is the sequence of charset indices `draws`.
- Clock: `new Date()` is the integer `now` in milliseconds, and the expiry is `now + 600000`. Calendar and time-zone arithmetic is not modelled.
- Mail: `EmailNotificator.ts` (nodemailer, SMTP) is the `Dispatch` parameter, which either accepts with an answer or rejects.
  - `passwordReset` calls `sendForgotPassword`, which that file does not define, so as written every reset that reaches it would throw a TypeError after the password was changed.
  - The model treats the call as an ordinary mailing that may succeed.
- Accounts.UserRepository.Create stores the DTO's status. The source's `create` drops it, but the service reads it back in `resendCode`.
- Accounts.VerificationCodeRepository.Create stores the expiry. The source's `create` drops it, but the service compares it with the clock.
- Accounts.VerificationCodeRepository.FindByCode does not filter out expired codes, since no definition of `findByCode` is present. Only `findByCode`, `findByUserId` and `updateStatus` are assumed to exist.
- Shared tables: `codeValidator` and the controller handlers construct fresh repository objects (`new UserRepository()`). Here they use the same tables as the service, which is what the shared database gives.
- AuthenticationHandlers.AuthenticationController.Registrator stores the names it was given. The source passes `firstname` and `lastname` keys where `create` reads `firstName` and `lastName`, so the stored names would be undefined.
- Request bodies: each field is a string or absent. A non-string field, on which `.trim()` would throw and the handler would answer 500, is not modelled.
- Unreachable branches: ids start at 1, so the service's `if (result.dataValues.id)` test always passes, and so does `updatePassword`'s id test when called from the reset. As a result, the "Password update failed." branch of `passwordReset` is not reachable through `UserService.PasswordReset`.
- Route annotations: the two literal annotations in the controller's `ROUTE` are not instantiated. `AuthPathValidator.PostRoute` states the parse for every annotation of that form.
- Accounts.UserRepository and Accounts.VerificationCodeRepository: whether a store can be reached is the constant `online` of each repository object, fixed for its lifetime. A store that answers one call and fails the next one within the same operation is not modelled. Examples are `create` failing after a successful uniqueness lookup (UserService.ts:95-100) and `updatePassword` failing after a successful lookup (UserService.ts:153-169).
- Accounts.FindFirst, Accounts.UserRepository.FindByGrandLineId: `findOne` without an ordering leaves open which of several rows with the same login id it returns (UserRepository.ts:54). The model resolves this to the first row in insertion order. The sign-in properties IdentityService.UserService.SignInSoleHolder and IdentityService.UserService.ResetThenSignIn therefore promise the 200 only when one row alone holds the login id. With duplicates, which the controller's `registrator` can create, a reset may rewrite one row and the next lookup return the other.
- Concurrency: the asynchronous calls, the race between the uniqueness check and `create` in registration, and the logging are not modelled. Each operation is one sequential method.
- Strings: `toLowerCase` is modelled on ASCII capitals only. That is exact here, because the verb is a run of `[A-Z]`.
