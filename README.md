# HashKrypt authentication core in Dafny

This project models two parts of HashKrypt, an end-to-end encrypted file-sharing service:

- the server's `AuthService`, which handles signup, login validation, and issuing, rotating and revoking refresh tokens over the `user` and `refreshToken` tables;
- the client signup page's constraint checks: the password rules, the email pattern, the trimmed-length checks, the `formValid` guard on submit, and the submit button's disabled state.

Modules:

- `Wrappers`: `Option` and `Result`.
- `Hex`: `Buffer.toString('hex')` as lowercase hex, with its decoder and the round trip.
- `Crypto`: Argon2 `hash`/`verify` as a pair of functions. `Crypto.Sound` states the three properties the model relies on:
  - a hash verifies its own input;
  - a hash verifies no other input;
  - a hash is never the plaintext.
  `SoundIsSatisfiable` shows that these three properties are consistent.
- `Sessions`: the store as a value, the database queries and updates the service uses, and one function per state-changing operation (signup, issuing a refresh token, refresh, revoke) giving the store and the result after the call. The properties of those operations are proved here as lemmas. The access-token claims (`GenerateAccessToken`) and the lookups carry their properties as `ensures` clauses. `validateUser` changes nothing and is modelled directly as `Auth.AuthService.ValidateUser`, whose `ensures` states its properties.
- `Auth`: `class AuthService`. Its fields are the two tables and the id counters, and a constant hasher standing for Argon2. Each state-changing method (`Signup`, `GenerateAndStoreRefreshToken`, `RefreshTokens`, `RevokeRefreshToken`) ensures that the new store and its result are exactly what the matching `Sessions` function computes from the old store. The `for … of` scan over the `findMany` snapshot, shared by refresh and revoke, is the method `ScanLive`: a `while` loop with invariants that changes nothing and returns what `Sessions.FirstMatch` specifies.
- `SignupForm`: the page's checks as predicates over the form's fields, with lemmas that spell out what each check accepts.

## Model

| member | source | states |
|---|---|---|
| Hex.Encode | server/src/auth/auth.service.ts:77 | the token of n random bytes has 2n characters, all lowercase hex digits |
| Hex.DecodeEncode | server/src/auth/auth.service.ts:77 | hex decoding recovers the bytes: the encoding loses nothing |
| Hex.EncodeInjective | server/src/auth/auth.service.ts:121 | different random bytes give different tokens |
| Crypto.SoundIsSatisfiable | server/src/auth/auth.service.ts:34-36 | the assumed Argon2 properties (a hash verifies its own input, no other input, and differs from the input) can all hold together |
| Sessions.FindUserByEmail | server/src/auth/auth.service.ts:29-31 | `findUnique` by email: a returned user is in the table and has that email; none is returned iff no user has it |
| Sessions.FindUserById | server/src/auth/auth.service.ts:109-112 | `findUnique` by id: a returned user is in the table with that id; none is returned iff no user has it |
| Sessions.FirstMatch | server/src/auth/auth.service.ts:99-105 | the scan returns a row of the list whose hash verifies the token; it returns nothing iff no row verifies it |
| Sessions.FirstLiveIndex | server/src/auth/auth.service.ts:95-105 | reference definition: the index of the first non-revoked row verifying the token, or none iff no such row exists |
| Sessions.FirstMatchOfLive | server/src/auth/auth.service.ts:95-105 | scanning the `revoked: false` rows finds exactly the row at the first live matching index of the whole table |
| Sessions.MarkRevoked | server/src/auth/auth.service.ts:115-118 | update by id: only `revoked` changes; a row ends up revoked iff it was already revoked or has that id |
| Sessions.MarkRevokedOnly | server/src/auth/auth.service.ts:115-118 | with unique row ids, revoking by the id of row i changes row i only |
| Sessions.LocateMatch | server/src/auth/auth.service.ts:99-107 | when the scan finds a row, that row is the first live match of the table, at a known index |
| Sessions.GenerateAccessToken | server/src/auth/auth.service.ts:68-73 | the claims name the user's id and email; the token is issued in the current second and expires 900 seconds (15 minutes) later |
| Sessions.IssueAppendsRow | server/src/auth/auth.service.ts:76-89 | appends exactly one row and leaves the earlier rows and the users alone; the row has the given user, is live, and expires now + 30 days (2592000000 ms); its hash verifies the returned token and is not the token; the token is 128 lowercase hex characters |
| Sessions.IssuePreservesValid | server/src/auth/auth.service.ts:80-86 | issuing keeps ids unique and below the counters, and emails unique |
| Sessions.IssuePreservesUnambiguous | server/src/auth/auth.service.ts:76-89 | if the new token collides with no stored row, every token still verifies against at most one row |
| Sessions.SignupRejectsTakenEmail | server/src/auth/auth.service.ts:29-32 | signup fails with EmailInUse iff some user has the email; after a failure the store is unchanged |
| Sessions.SignupCreatesUser | server/src/auth/auth.service.ts:34-53 | a successful signup appends one user with a new id and the request's email, name, phone, country, public key and key blob; the password hash verifies the password and is not the password; one live row is added for that user, expiring in 30 days and verifying the returned refresh token; the access token is the one `GenerateAccessToken` signs for the new user at `now` (its id and email, 15-minute expiry); the store stays valid |
| Sessions.RefreshFailure | server/src/auth/auth.service.ts:95-112 | refresh returns nothing iff no live row verifies the token, or the first such row's user does not exist; then the store is unchanged |
| Sessions.RefreshRotates | server/src/auth/auth.service.ts:114-134 | a successful refresh revokes exactly the first live row matching the token and keeps every other row. It appends one live row for the same user, expiring in 30 days, whose hash verifies the returned 128-hex-character token. The access token is the one `GenerateAccessToken` signs at `now` for the table user with that id, which exists. Users are untouched |
| Sessions.RefreshPreservesValid | server/src/auth/auth.service.ts:114-130 | refreshing keeps ids unique and below the counters, and emails unique |
| Sessions.RefreshIgnoresExpiry | server/src/auth/auth.service.ts:95-112 | changing any row's `expiresAt` never changes the outcome of refresh: expiry is not checked |
| Sessions.FirstLiveIndexIgnoresExpiry | server/src/auth/auth.service.ts:95-97 | the first live match does not depend on any row's `expiresAt` |
| Sessions.RefreshSingleUse | server/src/auth/auth.service.ts:114-130 | after a successful refresh with a token, refreshing again with the same token fails and changes nothing. This holds when no two rows verify the presented token and the new token verifies against no stored row; the store must be well formed and the hasher sound |
| Sessions.SignupPreservesUnambiguous | server/src/auth/auth.service.ts:38-51 | if the new token collides with no stored row, every token still verifies against at most one row after signup |
| Sessions.RefreshPreservesUnambiguous | server/src/auth/auth.service.ts:114-130 | if the new token collides with no stored row, every token still verifies against at most one row after refresh |
| Sessions.RevokeFirstOnly | server/src/auth/auth.service.ts:138-154 | revoke returns true iff some live row verifies the token; it then revokes only the first such row, and otherwise changes nothing |
| Sessions.RevokePreservesValid | server/src/auth/auth.service.ts:143-151 | revoking keeps ids unique and below the counters, and emails unique |
| Sessions.RevokePreservesUnambiguous | server/src/auth/auth.service.ts:143-151 | revoking changes only `revoked` flags, so every token still verifies against at most one row |
| Sessions.RevokeIdempotent | server/src/auth/auth.service.ts:138-154 | when no two rows verify the presented token, a second revoke of the same token returns false and changes nothing |
| Auth.AuthService.constructor | server/src/auth/auth.service.ts:11-14 | the service starts over empty tables with a sound hasher |
| Auth.AuthService.Signup | server/src/auth/auth.service.ts:17-54 | the new store and result are those of `Sessions.Signup` on the old store; the store stays valid |
| Auth.AuthService.ValidateUser | server/src/auth/auth.service.ts:57-65 | returns the user with this email iff one exists and its hash verifies the password; returns nothing both for an unknown email and for a wrong password; reads the store without changing it |
| Auth.AuthService.GenerateAndStoreRefreshToken | server/src/auth/auth.service.ts:76-89 | the new store and token are those of `Sessions.IssueRefreshToken`; the store stays valid |
| Auth.AuthService.ScanLive | server/src/auth/auth.service.ts:99-105 | the loop returns the first row of the snapshot whose hash verifies the token, or nothing |
| Auth.AuthService.RefreshTokens | server/src/auth/auth.service.ts:92-135 | the new store and result are those of `Sessions.Refresh` on the old store; the store stays valid |
| Auth.AuthService.RevokeRefreshToken | server/src/auth/auth.service.ts:138-154 | the new store and answer are those of `Sessions.Revoke` on the old store; the store stays valid |
| SignupForm.Test | client/src/app/signup/page.tsx:47-49 | a one-character-class regex test holds iff some character of the string is in the class |
| SignupForm.HandleSubmit | client/src/app/signup/page.tsx:76-86 | submitting navigates iff `formValid` holds, and then to `/login`; otherwise nothing happens |
| SignupForm.SubmitEnabledIffNavigates | client/src/app/signup/page.tsx:260 | the button is enabled exactly when submitting would navigate to `/login` |
| SignupForm.SpecialIsAsciiPunctuation | client/src/app/signup/page.tsx:49 | the special-character class is exactly the 32 ASCII punctuation characters |
| SignupForm.PasswordChecksMean | client/src/app/signup/page.tsx:47-49 | `hasUpper`, `hasNumber` and `hasSpecial` each hold iff the password contains an A–Z letter, a 0–9 digit, or an ASCII punctuation character respectively |
| SignupForm.EmptyPasswordNeverValid | client/src/app/signup/page.tsx:50 | an empty password never matches its confirmation, so the form is invalid, submit is ignored and the button disabled |
| SignupForm.TrimIsSlice | client/src/app/signup/page.tsx:53 | `trim()` keeps the stretch between the first and last non-whitespace characters and drops only whitespace |
| SignupForm.TrimmedLengthAtLeast | client/src/app/signup/page.tsx:53-56 | a trimmed length of at least n holds iff two non-whitespace characters span at least n positions |
| SignupForm.EmailTestPositions | client/src/app/signup/page.tsx:54 | the email test holds iff the email has no whitespace, and has an `@` after at least one character and a later `.` with a character between them and one after |
| SignupForm.EmailFromParts | client/src/app/signup/page.tsx:54 | any three nonblank, whitespace-free parts joined as `local@domain.tld` pass the test |
| SignupForm.EmailToParts | client/src/app/signup/page.tsx:54 | every email that passes splits into three nonblank parts as `local@domain.tld` |
| SignupForm.FormValidMeans | client/src/app/signup/page.tsx:52-62 | `formValid` holds iff all of the following hold: the name and the country have two non-whitespace characters; the phone's text spans at least 7 positions; the email has that shape; the password has at least 8 characters including an uppercase letter, a digit and an ASCII punctuation character, and equals its non-empty confirmation; the terms are accepted |
| SignupForm.ExamplePassword | client/src/app/signup/page.tsx:46-49 | `Abcd1234!` meets the length, uppercase, digit and special-character checks |

## Left out

- Argon2, JWT signing and `randomBytes` are left abstract.
  - Hashing is a pair of function values whose assumed properties are stated by `Crypto.Sound`. Salts are parameters.
  - The access token is its claims; the signature is not modelled.
  - The random bytes are a 64-byte parameter. `Date.now()` is a parameter in milliseconds.
- Prisma is modelled as in-memory tables, and ids are counters. Database failures, transactions and concurrency are not modelled. Two concurrent refreshes racing on one token are outside the model.
- The model assumes `findMany({ where: { revoked: false } })` returns rows in insertion order. Prisma promises no order without `orderBy`, so "first match" means first in the table here.
- The model follows the code, which never reads `expiresAt` when refreshing. An expired but unrevoked row is still accepted and rotated; `Sessions.RefreshIgnoresExpiry` states this.
- Revoked-by-rotation and revoked-by-logout rows are both just `revoked = true`, as in the code: nothing distinguishes rotation from logout.
- `Sessions.RefreshSingleUse`, `Sessions.RevokeIdempotent` and the `PreservesUnambiguous` lemmas assume random tokens do not repeat. A newly drawn token must collide with no stored row, and the presented token (or, for the preservation lemmas, every token) may verify against at most one row. Starting from empty tables, the preservation lemmas carry the second condition through signup, issuing, refresh and revoke. These are hypotheses, because randomness is outside the model.
- No foreign key is modelled: a row whose user is gone makes refresh return nothing, as the code's `findUnique` check does.
- The signup page's rendering, styling, focus scrolling and the UI's per-rule check icons are not modelled. Only `password`, `confirm`, `fullName`, `email`, `phone`, `country` and `agree` feed the model.
- `String.length` in JavaScript counts UTF-16 code units. The model counts Dafny characters, which differ only for characters outside the Basic Multilingual Plane.
- The controller, DTO validation, cookie handling and the HTTP error mapping of `Error('Email already in use')` and `null` are not part of this model.
