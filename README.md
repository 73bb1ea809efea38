# Account lifecycle of the high-school portal's `AuthController`

This project models the five account handlers of `AuthController` in Dafny and proves properties about them. The handlers are register, verifyEmail, login, findPassword and resetPassword. Each one looks up a single user row in the repository, checks it, and then either answers with an error or writes the row back. A row is in one of these states:

- *pending*: it holds an e-mail token with an expiry an hour ahead; it is created with an empty password;
- *active*: verification set a password digest and cleared the token pair;
- *signed in*: login stored a refresh token on the row;
- *reset requested*: findPassword stamped a reset token with an hour to live. resetPassword spends that token to replace the password.

The project has four modules:

- `UserStore` (`user_store.dfy`) holds the user row, the repository, and the repository operations the controller calls. The repository is a sequence of rows, oldest first, plus the next primary key. `findOne` is the first row that matches its `where` clause. `remove` drops one row. `create` followed by `save` appends a row with the next key. The module also defines the repository invariant `WellFormed`:
  - e-mail addresses are unique;
  - keys increase along the rows;
  - each token column is set or cleared together with its expiry column.
- `AuthLifecycle` (`auth_lifecycle.dfy`) has one pure transition function per handler. Each takes the repository and returns the reply together with the new repository. The replies are the handler's distinct rejections, plain success, or the issued access/refresh pair.
- `AuthProperties` (`auth_properties.dfy`) proves three kinds of lemma:
  - every handler keeps `WellFormed`;
  - each handler's branches, seen from the row it acts on;
  - what sequences of requests do.
- `Controllers` (`auth_controller.dfy`) has the class `AuthController`. It owns the repository as mutable fields and has one method per handler. Each method does the handler's read, checks and in-place writes, and is proved against the transition function of the same name. `HappyPath` is a client of the class that calls register, verify, login and a second login.

Collaborators are parameters:
- the clock is `now`, an integer number of milliseconds, and "one hour later" is `now + HOUR`;
- `crypto.randomBytes(32).toString('hex')` is a caller-supplied `token` of 64 lower-case hex digits;
- bcrypt is an injected `hash` function whose digests are never empty, and `compare(p, d)` holds when `d == hash(p)`; so the empty password of a new row matches no password;
- the JWT issuer's outputs are `access` and `refresh`;
- the mail transport's success is `mailOk`. A failed send answers `ServerError` after the row has already been saved, as in the code.

JavaScript truthiness is modelled explicitly:
- a nullable string column is truthy when it is set and non-empty;
- a `Date` column is truthy when it is set.

Two behaviours of the code that the model makes explicit:

- **A pending row can hold a password.** findPassword and resetPassword do not check that verification is complete, so a pending row can be given a password digest while its e-mail token pair is still set. At the exact instant its verification expires, login then accepts that password. `ResetOnPendingRegistration` proves this sequence.
- **The login expiry gap.** Login's two expiry checks are strict (`<` and `>`). At `now == emailTokenExpiry`, neither fires and the password check decides. register's split is `<` against `>=`. `LoginDecision` and `LoginOnFreshRegistration` state this case.

## Model

| member | source | states |
|---|---|---|
| `UserStore.FindOne` | src/controllers/authController.ts:19 | `findOne`: when it returns an index, that row matches and no earlier row does; it returns nothing exactly when no row matches |
| `UserStore.RemoveAt` | src/controllers/authController.ts:31 | `remove`: one row fewer, and the rows before and after the removed one keep their order |
| `UserStore.FindByEmail` | src/controllers/authController.ts:124 | under unique e-mails, the lookup by a row's e-mail returns that row |
| `AuthLifecycle.Register` | src/controllers/authController.ts:12-79 | the reply is a pending or already-registered rejection, or the mail outcome; a rejection writes nothing; otherwise the next key is used and the last row is the new pending row (empty password, STUDENT, the token, expiry now + HOUR); this row is either appended to an e-mail no row held, or replaces an expired pending row for that e-mail |
| `AuthLifecycle.VerifyEmail` | src/controllers/authController.ts:82-114 | reply is success, invalid token or expired; a rejection writes nothing; invalid token exactly when no row holds the token; expired only for a holder whose expiry has passed; success only for a holder whose expiry has not passed, and then that one row gets the password's digest and loses its token pair |
| `AuthLifecycle.Login` | src/controllers/authController.ts:117-162 | every rejection writes nothing; a success returns exactly the issued pair; user-not-found exactly when no row holds the e-mail; a success is for a row holding the e-mail whose expiry is unset or equal to now, whose digest matches, and which has no truthy refresh token, and that row alone gains the refresh token |
| `AuthLifecycle.FindPassword` | src/controllers/authController.ts:165-211 | user-not-found exactly when no row matches both name and e-mail, and then nothing is written; otherwise the reply is the mail outcome and one row matching both gets the new reset token and expiry now + HOUR, whatever it held before |
| `AuthLifecycle.ResetPassword` | src/controllers/authController.ts:214-246 | reply is success, invalid token or expired; a rejection writes nothing (the password is kept); invalid token exactly when no row holds the reset token; success only for a holder whose expiry has not passed, which gets the new password's digest and loses its reset pair |
| `AuthProperties.RegisterKeepsWellFormed` | src/controllers/authController.ts:29-54 | register keeps e-mails unique, keys increasing and token pairs paired, also when it removes an expired row |
| `AuthProperties.VerifyEmailKeepsWellFormed` | src/controllers/authController.ts:101-107 | verifyEmail keeps the repository invariant |
| `AuthProperties.LoginKeepsWellFormed` | src/controllers/authController.ts:152-156 | login keeps the repository invariant |
| `AuthProperties.FindPasswordKeepsWellFormed` | src/controllers/authController.ts:177-186 | findPassword keeps the repository invariant |
| `AuthProperties.ResetPasswordKeepsWellFormed` | src/controllers/authController.ts:232-239 | resetPassword keeps the repository invariant |
| `AuthProperties.RegisterWhilePending` | src/controllers/authController.ts:19-28 | a row for the e-mail with a truthy token, an expiry and now before the expiry: register answers the pending rejection and the repository is unchanged |
| `AuthProperties.RegisterAfterExpiry` | src/controllers/authController.ts:29-54 | a pending row for the e-mail whose expiry is at or before now is removed and exactly one new pending row for the e-mail is appended; no other row changes |
| `AuthProperties.RegisterActiveAccount` | src/controllers/authController.ts:21-36 | a row for the e-mail without a truthy token and an expiry: register answers already-registered and the repository is unchanged |
| `AuthProperties.RegisterNewEmail` | src/controllers/authController.ts:39-54 | an e-mail no row holds: exactly one pending row is appended with the next key |
| `AuthProperties.RegisterTwiceWithinHour` | src/controllers/authController.ts:19-54 | after an accepted register, a second register for that e-mail within the hour is refused and adds no second row |
| `AuthProperties.RegisterAgainAfterHour` | src/controllers/authController.ts:26-54 | after an accepted register, registering again once the hour has passed replaces the stale row by one new pending row with the new token and expiry |
| `AuthProperties.VerifyExpiredToken` | src/controllers/authController.ts:94-98 | a token whose expiry is before now: verifyEmail answers expired and the row stays pending, untouched |
| `AuthProperties.VerifyLiveToken` | src/controllers/authController.ts:100-107 | a live token: its row gets a digest that verifies against the password, both token columns are cleared, every other column and every other row is unchanged |
| `AuthProperties.LoginDecision` | src/controllers/authController.ts:124-158 | for the row holding the e-mail, each reply happens exactly when its condition holds in the order not-verified, expired, wrong password, already logged in, success; an expiry equal to now passes both expiry checks; success writes only the refresh token |
| `AuthProperties.SecondLoginRefused` | src/controllers/authController.ts:148-156 | after a successful login that stored a non-empty refresh token, no second login for that e-mail succeeds; with the same password it is refused as already logged in at any time when the row is verified, and at the same instant when it is still pending (a pending row that logged in at its expiry instant is refused as expired later) |
| `AuthProperties.LoginOnFreshRegistration` | src/controllers/authController.ts:129-145 | a row just registered: login is not-verified before the expiry, expired after it, and wrong-password at the expiry instant |
| `AuthProperties.RegisterVerifyLogin` | src/controllers/authController.ts:12-162 | register a new e-mail, verify within the hour, log in: success, success, the issued pair; a second login at any time is refused as already logged in |
| `AuthProperties.FindPasswordStamps` | src/controllers/authController.ts:172-186 | findPassword for a row's own name and e-mail stamps exactly that row with the token and expiry now + HOUR and changes nothing else |
| `AuthProperties.FindPasswordTwiceRevokesFirst` | src/controllers/authController.ts:183-186 | a second findPassword overwrites the first reset token, so resetting with the first token is then answered as invalid |
| `AuthProperties.ResetWithExpiredToken` | src/controllers/authController.ts:226-230 | a reset token whose expiry is before now: resetPassword answers expired and the password is unchanged |
| `AuthProperties.ResetThenLogin` | src/controllers/authController.ts:214-246 | on an active row without a session, findPassword then resetPassword within the hour succeeds; then login accepts the new password and rejects an old one with a different digest |
| `AuthProperties.ResetOnPendingRegistration` | src/controllers/authController.ts:165-246 | register, findPassword and resetPassword together leave a row with both a password digest and its e-mail token; at the expiry instant, login with that password succeeds |
| `Controllers.AuthController.constructor` | src/controllers/authController.ts:10 | a controller over an empty repository, which satisfies the invariant |
| `Controllers.AuthController.Register` | src/controllers/authController.ts:12-79 | the in-place register keeps the invariant and its reply and new repository are those of `AuthLifecycle.Register` |
| `Controllers.AuthController.VerifyEmail` | src/controllers/authController.ts:82-114 | the in-place verifyEmail keeps the invariant and agrees with `AuthLifecycle.VerifyEmail` |
| `Controllers.AuthController.Login` | src/controllers/authController.ts:117-162 | the in-place login keeps the invariant and agrees with `AuthLifecycle.Login` |
| `Controllers.AuthController.FindPassword` | src/controllers/authController.ts:165-211 | the in-place findPassword keeps the invariant and agrees with `AuthLifecycle.FindPassword` |
| `Controllers.AuthController.ResetPassword` | src/controllers/authController.ts:214-246 | the in-place resetPassword keeps the invariant and agrees with `AuthLifecycle.ResetPassword` |
| `Controllers.HappyPath` | src/controllers/authController.ts:12-162 | through the class on a fresh repository: register, verify a minute later, then log in gets the pair; a second login a minute later is refused as already logged in |

## Left out

- HTTP plumbing: Express requests and responses, status codes and the message strings are reduced to the `Reply` datatype.
- Outbound e-mail: the nodemailer transport and the mail text are I/O. Only the send's success is kept, as `mailOk`.
- The `try`/`catch` path: failures of the repository or of bcrypt, and `console.log`, are not modelled. Only the mail failure leads to `ServerError`.
- bcrypt internals: the salt and the cost factor of 10 are not modelled. `hash` is one deterministic function whose only stated property is a non-empty digest, and `compare` is exact equality with its output, so salted digests that differ per call are not represented.
- Random tokens: `crypto.randomBytes` is a parameter. Its freshness is a precondition only of the lemmas that need it. The model does not assume that tokens are unique across rows.
- JWT issuance: `../utils/jwt` is not part of this model. Its outputs are opaque parameters.
- Time: `Date`, `setHours`, time zones and daylight saving are replaced by an integer clock in milliseconds. The precision of the database's date column is not modelled.
- String comparison: every `where` lookup compares strings for exact equality. The database's collation (for example case-insensitive or trailing-space-insensitive matching of e-mails) is not modelled, and `WellFormed` guarantees uniqueness of e-mails only as exact strings.
- Row order: `findOne` is taken to return the first matching row in insertion order. The database gives no such guarantee without an `ORDER BY`; under unique e-mails this matters only for token lookups.
- E-mail uniqueness: the `User` entity is not part of this model. Unique e-mails are the class invariant, and every handler is proved to keep it.
- Missing request fields: TypeORM drops a `where` key whose value is `undefined`. Every request field is modelled as a present string, so the model does not capture that a verifyEmail or resetPassword request without a token matches the first row and then overwrites that row's password.
- `RoleType` is not part of this model. Only `STUDENT` is used, and `OtherRole` stands for the other tags.
- Concurrency: the check-then-write races between concurrent requests, because the code does no locking.
- The comment and carousel controllers and the `Post` entity delegate all behaviour to the ORM.
