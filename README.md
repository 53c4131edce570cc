# User authentication engine, modelled in Dafny

This project models the authentication engine `UserAuthenticationService`. The engine holds two stores:

- a **user store**, keyed by email;
- a **session store**, whose rows each record one issued token, the user it was issued to, and a state of ACTIVE or EXPIRED.

It offers three operations:

- **signUp** refuses an email that is already registered. Otherwise it stores a new user whose password is the encoder's encoding of the given one.
- **login** refuses an unknown email or a password the encoder does not match against the stored encoding. Otherwise it signs the claims `iat` = now, `exp` = now + 2592000, `user_id` and `issuer` = "scaler" into a token. It records a new ACTIVE session for that token and user and returns the token.
- **validateToken** answers false when no session row matches both the token and the user id. Otherwise it parses the token and compares its `exp` with the current time. A token past its `exp` marks its session EXPIRED and gives false; any other token gives true.

The files:

- `auth_types.dfy` (module `AuthTypes`): the records, the claims, Java `long` addition, and the two collaborators the engine is constructed with. The password encoder (`encode`, `matches`) and the token codec (`sign`, `parse`) are datatypes of uninterpreted functions. Properties that depend on them take an explicit assumption: `AcceptsOwnEncoding` (a password matches its own encoding) and `ParsesWhatItSigns` (parsing a signed token gives back its claims).
- `auth_spec.dfy` (module `AuthSpec`): the two stores as one value `Store`, with its invariant `Valid`. It also holds one function per operation giving the new stores and the outcome, and states what each outcome means in its postconditions.
- `auth_service.dfy` (module `AuthService`): the class `UserAuthenticationService`. Its fields hold the two stores as maps. Its methods update them in place, with early returns on the error branches. Each method is proved to produce exactly the stores and outcome of the matching `AuthSpec` function, and to keep `Valid`.
- `auth_properties.dfy` (module `AuthProperties`): properties that relate several calls. These are repeated sign-up, the one-way session lifecycle, idempotent validation, login followed by validation, and a worked scenario.

Modelling choices:

- The current time is a parameter `now` of type `Long` (the range of a Java `long`). The `+ 2592000` wraps as Java's does (`AddLong`). The literal is modelled as written. It is added to a millisecond clock, so a token is valid for 2592 seconds (43.2 minutes).
- The exceptions the code throws become `Err` outcomes of a `Result`: `UserAlreadyExists`, `UserNotFound`, `WrongPassword`, and `TokenRejected` for a token the parser refuses. `validateToken` lets a parse failure propagate as an error rather than returning false, and the model does the same.
- The session store is rows keyed by a generated id. This is a modelling assumption: the session entity and its repository are not part of this model, so the model assumes that saving a new session inserts a row even when an equal token already exists (no uniqueness constraint on the token). The lookup by token and user id finds a set of rows. When it finds more than one, the model reports `AmbiguousSession`. This stands for the non-unique-result failure of a lookup declared to return at most one row. Two logins of one user within one millisecond sign equal claims, so they produce that situation (`SameMillisecondLogins`).
- Emails are exact-match keys, as in the code; there is no case folding.
- `login` saves the session without checking for an equal token, and the model does the same.

## Model

| member | source | states |
|---|---|---|
| `AuthTypes.AddLong` | src/main/java/org/example/userauthenticationservice/services/UserAuthenticationService.java:77 | Java `long` addition: the exact sum when it fits, otherwise the sum shifted by 2^64 in the direction that brings it back into range |
| `AuthTypes.LoginClaims` | src/main/java/org/example/userauthenticationservice/services/UserAuthenticationService.java:74-79 | the signed claims carry `iat` = now, `user_id` = the user's id and `issuer` = "scaler". `exp` is now + 2592000 unless that overflows a `long`, in which case `exp` is exactly now + 2592000 − 2^64 and so falls before `iat` |
| `AuthSpec.SignUp` | src/main/java/org/example/userauthenticationservice/services/UserAuthenticationService.java:42-53 | a registered email gives UserAlreadyExists and leaves both stores unchanged. A fresh email gives true and adds exactly one user under that email, with a stored password equal to `encode(password)` and an id no existing user has. Existing users, all sessions and the next session id are unchanged, and the store invariant is kept |
| `AuthSpec.Login` | src/main/java/org/example/userauthenticationservice/services/UserAuthenticationService.java:56-90 | success holds exactly when the email is registered and `matches(password, storedHash)` is true. An unknown email gives UserNotFound and a wrong password gives WrongPassword, each with no change. On success the token is `sign(LoginClaims(user id, now))`, and exactly one new ACTIVE session for that token and user is added in an unused row. Existing sessions, the users and the next user id are unchanged, and the invariant is kept |
| `AuthSpec.ValidateToken` | src/main/java/org/example/userauthenticationservice/services/UserAuthenticationService.java:93-113 | no matching row gives false with no change, and several matching rows give AmbiguousSession with no change. For the single matching row: a parse failure gives TokenRejected with no change; now > `exp` gives false and sets that row, and only that row, to EXPIRED; now ≤ `exp` gives true with no change. The invariant is kept, and no row is removed or reactivated |
| `AuthService.UserAuthenticationService.constructor` | src/main/java/org/example/userauthenticationservice/services/UserAuthenticationService.java:29-39 | the engine starts over the given stores, encoder and codec |
| `AuthService.UserAuthenticationService.SignUp` | src/main/java/org/example/userauthenticationservice/services/UserAuthenticationService.java:42-53 | the in-place update of the user store gives exactly the stores and outcome of `AuthSpec.SignUp` and keeps the invariant |
| `AuthService.UserAuthenticationService.Login` | src/main/java/org/example/userauthenticationservice/services/UserAuthenticationService.java:56-90 | the in-place insertion of the session gives exactly the stores and outcome of `AuthSpec.Login` and keeps the invariant |
| `AuthService.UserAuthenticationService.ValidateToken` | src/main/java/org/example/userauthenticationservice/services/UserAuthenticationService.java:93-113 | the lookup, the parse and the in-place state change give exactly the stores and outcome of `AuthSpec.ValidateToken` and keep the invariant |
| `AuthProperties.SecondSignUpFails` | src/main/java/org/example/userauthenticationservice/services/UserAuthenticationService.java:43-51 | after any sign-up, a second sign-up with the same email is refused with UserAlreadyExists, whatever the password, and changes nothing |
| `AuthProperties.NoOperationReactivates` | src/main/java/org/example/userauthenticationservice/services/UserAuthenticationService.java:83-109 | none of the three operations removes a session row or changes its token or user, and none turns an EXPIRED row back to ACTIVE |
| `AuthProperties.StateChangeKeepsMatching` | src/main/java/org/example/userauthenticationservice/services/UserAuthenticationService.java:94 | changing a row's state does not change which rows the lookup by token and user id finds |
| `AuthProperties.ValidateRepeats` | src/main/java/org/example/userauthenticationservice/services/UserAuthenticationService.java:94-112 | repeating validation at the same time gives the same outcome and stores. After any outcome other than true, validating again at any later time gives that outcome again and changes nothing, so an expired session stays EXPIRED and the answer stays false |
| `AuthProperties.StateNotConsulted` | src/main/java/org/example/userauthenticationservice/services/UserAuthenticationService.java:103-112 | the outcome of validation does not depend on the state of any session row, only on the lookup, the parse and `exp` |
| `AuthProperties.SignedUpUserHasNoSessions` | src/main/java/org/example/userauthenticationservice/services/UserAuthenticationService.java:48-51 | right after sign-up, the lookup finds no session for the new user's id, whatever the token |
| `AuthProperties.LoginThenValidate` | src/main/java/org/example/userauthenticationservice/services/UserAuthenticationService.java:74-112 | assume a codec that parses what it signs, and a login whose token has no session yet for that user. Validating that token for that user gives true at any time up to now + 2592000. At any later time it gives false and leaves the new session EXPIRED |
| `AuthProperties.SignUpLoginValidate` | src/main/java/org/example/userauthenticationservice/services/UserAuthenticationService.java:42-112 | assume an encoder that matches a password against its own encoding and a codec that parses what it signs. Then a fresh sign-up, a login with the same password and a validation within the window succeed in turn, and the validation gives true |
| `AuthProperties.SameMillisecondLogins` | src/main/java/org/example/userauthenticationservice/services/UserAuthenticationService.java:74-96 | two successful logins of one user at the same time return the same token. In a session store without a uniqueness constraint on the token, the lookup afterwards finds two rows for it, so every validation of that token fails with AmbiguousSession |
| `AuthProperties.AliceScenario` | src/main/java/org/example/userauthenticationservice/services/UserAuthenticationService.java:42-112 | sign up alice@example.com/secret123 and log in to get a token T; validating T within the window gives true. A login with wrongpass then gives WrongPassword, and a second sign-up gives UserAlreadyExists |

## Left out

- Password hashing internals: `encode` and `matches` are uninterpreted. No property assumes that a password matches its own encoding, except where `AcceptsOwnEncoding` is stated as a precondition.
- Token signing and parsing internals, including the secret key: `sign` and `parse` are uninterpreted. `ParsesWhatItSigns` is a stated precondition where it is used. The token library's own checks and conversions during parsing are not modelled; only its success or failure is. That covers its own reading of `exp` and the type of the claim values it returns. A missing or non-numeric `exp`, which the code would fail on when it casts the claim, is folded into a parse failure.
- The clock: `System.currentTimeMillis()` is the parameter `now`.
- Persistence and dependency injection: the stores are in-memory maps, and their generated ids are counters. User ids are unbounded naturals, not 64-bit values.
- Session table constraints: the model assumes the token column has no uniqueness constraint. With one, a second login that signs equal claims fails on save, and `SameMillisecondLogins` covers only the store without the constraint.
- Concurrency: racing sign-ups and racing validations are not modelled. Every operation runs alone.
- `src/main/java/org/example/userauthenticationservice/security/CustomUserDetailsService.java`: a framework adapter that looks a user up by email and wraps it. It has no logic of its own, and the wrapper type is not part of this model.
- Hardening the code does not have: email case folding, a nonce claim that makes tokens unique, and rate limiting on login.
