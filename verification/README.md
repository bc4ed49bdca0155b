# Email/password authentication demo — Dafny model

This project models the two pieces of sequential logic in a small
email/password authentication demo:

* the **Express server** (`server.js`): an append-only, in-memory user table;
  sign-up (presence check, password length, email uniqueness, then append a
  record with id `users.length + 1`); sign-in (lookup by email, bcrypt
  comparison, one uniform 401 for every credential failure); the
  `authenticateToken` middleware (bearer token taken as the second
  space-separated header segment, 401 without one, 403 when verification
  fails); and the profile lookup by id (404 when the id resolves to nothing);
* the **browser script** (`script.js`): `validateEmail`, `validatePassword`,
  the password-strength meter, the validation chains of the sign-in and
  sign-up submit handlers, and the expiry comparison in `checkAuth`.

Each request handler is a pure function from the current user table and a
request to a response and the next table (`AuthServer.Step`), and `Run`
chains them. bcrypt and jsonwebtoken are not modelled. They are function
values: `PasswordHasher(hash, compare)` and `TokenService(sign, verify)`.
The facts assumed about them are predicates that lemmas take as
preconditions:

* `Sound`: `compare(p, hash(p, rounds, salt))` holds;
* `WellFormed`: an issued token is non-empty, contains no space and
  verifies to its user id;
* in `AuthServerProperties.AnnScenario` only: the hash of "secret1" does not
  accept the password "wrong".

The bcrypt salt and the `createdAt` clock reading come in as a per-request
`Context`. Strings are `seq<char>`. JavaScript's `.length` counts UTF-16
code units, so it is modelled as `JsString.Utf16Length`: a character outside
the Basic Multilingual Plane counts twice. `\s` and `trim()` share one
whitespace set (ECMAScript WhiteSpace and LineTerminator), `JsString.IsWhitespace`.

Files:

| file | contents |
|---|---|
| `wrappers.dfy` | `Option` |
| `js_string.dfy` | `\s`, `trim()`, `split(' ')` / `join`, `.length` |
| `credential_store.dfy` | `User`, the store, `users.find`, the store invariant |
| `auth_server.dfy` | the handlers, `authenticateToken`, `Step`, `Run` |
| `auth_server_properties.dfy` | lemmas about the handlers |
| `client_validation.dfy` | the browser validators, strength meter, form chains, `checkAuth` |
| `client_server.dfy` | lemmas that connect the browser checks to the server's |

Behaviour worth knowing:

* **Password length unit.** The length rule counts UTF-16 code units (`.length`). A character outside the Basic Multilingual Plane counts as two.
* **Who checks uniqueness.** The store itself has no failing insert. The sign-up handler checks for an existing email before it appends.
* **Scheme word not checked.** `authenticateToken` does not look at the first header segment. `Foo <token>` is accepted like `Bearer <token>`, and so is `Bearer <token> <more>`.
* **404 is reachable.** The profile 404 can happen, because token verification never consults the store. An example is a token that is still valid after a restart has emptied the store.

## Model

| member | source | states |
|---|---|---|
| `JsString.Utf16Length` | server.js:44 | `.length` of a string lies between its character count and twice that, and is 0 only for the empty string |
| `JsString.Utf16LengthConcat` | script.js:34 | `.length` of a concatenation is the sum of the lengths |
| `JsString.Utf16LengthOfBmp` | script.js:34 | on Basic-Multilingual-Plane text `.length` equals the character count |
| `JsString.Utf16LengthInsert` | script.js:228 | inserting a character strictly increases `.length` |
| `JsString.SkipWhitespace` | script.js:74 | returns the first non-whitespace position at or after the start index (or the end), with only whitespace skipped over |
| `JsString.SkipWhitespaceBack` | script.js:74 | returns the position just past the last non-whitespace character of the range (or its start), with only whitespace skipped over |
| `JsString.Trim` | script.js:127-128 | `trim()` returns a slice of the input whose cut-off ends are all whitespace and whose own ends are not; it is empty exactly when the input is all whitespace |
| `JsString.TrimIdempotent` | script.js:127-128 | trimming an already trimmed string changes nothing |
| `JsString.Split` | server.js:181 | `split(' ')` yields at least one segment, no segment contains the separator, and joining the segments with the separator gives back the input |
| `JsString.SplitJoin` | server.js:181 | splitting the join of separator-free segments gives back exactly those segments |
| `JsString.SplitNoSeparator` | server.js:181 | a string without the separator splits into itself alone, so it has no second segment |
| `JsString.SplitCons` | server.js:181 | a separator-free head followed by the separator splits off as the first segment |
| `CredentialStore.Find` | server.js:21 | `users.find`: the position returned holds a matching record and every earlier record does not match; nothing is returned only when no record matches |
| `CredentialStore.FindByEmail` | server.js:20-22 | `findUserByEmail` returns the first record whose email is exactly equal; it returns nothing iff no record has that email |
| `CredentialStore.FindById` | server.js:157 | the profile lookup returns the first record with the id; it returns nothing iff no record has it |
| `CredentialStore.FindByEmailUnique` | server.js:52 | on a valid store the email lookup finds the one record holding that email |
| `CredentialStore.FindByIdValid` | server.js:65 | on a valid store, id n resolves to position n-1 for 1 <= n <= users.length, and every other id resolves to nothing |
| `CredentialStore.AppendValid` | server.js:64-72 | appending a record with id `users.length + 1` and an email not already present keeps ids equal to position + 1 and emails distinct |
| `AuthServer.HandleSignUp` | server.js:32-88 | 201 iff all three fields are present, the password has at least 6 code units and the email is new; any other outcome is a 400 failure with the store unchanged; on success exactly one record is appended with id `users.length + 1`, the given name and email, the hash and the timestamp, earlier records are untouched, and the 201 body holds the public view and the token for that id |
| `AuthServer.HandleSignIn` | server.js:100-144 | missing email or password gives 400 "Email and password are required"; the status is always 200, 400 or 401; a 200 answers for a record with that email whose hash accepts the password, with its public view and a token for its id |
| `AuthServer.BearerToken` | server.js:180-181 | a token that is found is non-empty and contains no space |
| `AuthServer.AuthenticateToken` | server.js:179-200 | no token gives exactly 401 "Access token required"; authorised iff a token is present and it verifies, and then the user id is the verified claim; a token that is present but fails verification gets exactly 403 "Invalid or expired token" |
| `AuthServer.HandleProfile` | server.js:156-176 | the status is 200, 401, 403 or 404; a middleware denial is returned unchanged; 200 iff the token is authorised and some record has its id; 404 iff the token is authorised but no record has its id, and then the body is "User not found"; a 200 carries the public view and `createdAt` of a record with the verified id |
| `AuthServer.Step` | server.js:32-176 | a request only ever extends the store, by at most one record, and only a sign-up answered with 201 changes it: sign-in and profile never modify the store |
| `AuthServer.Run` | server.js:17 | a sequence of requests gets one response each; the store is only extended, by at most one record per request |
| `AuthServerProperties.SignUpRejectionOrder` | server.js:37-57 | a missing field is reported first, whatever the password and the store; then a short password, whether or not the email is taken; then a taken email; each rejection leaves the store unchanged |
| `AuthServerProperties.SixUnitPasswordAccepted` | server.js:44 | the bound is inclusive: a 6-unit password with a new email and present fields is registered |
| `AuthServerProperties.SignUpPreservesValid` | server.js:52-72 | sign-up preserves the store invariant (ids equal position + 1, emails distinct) |
| `AuthServerProperties.SecondSignUpRejected` | server.js:52-57 | after a successful registration, registering the same email again fails with "User with this email already exists", whatever the (non-empty) name and whatever password of at least 6 code units, and leaves the store unchanged |
| `AuthServerProperties.SignInOutcome` | server.js:105-144 | on a valid store with both fields present, sign-in gives 200 iff some record with that email accepts the password; every other outcome is exactly 401 "Invalid credentials" |
| `AuthServerProperties.SignInHidesWhichPartFailed` | server.js:113-128 | on a valid store, an unknown email and a known email with a wrong password give identical responses (401 "Invalid credentials") |
| `AuthServerProperties.SignUpThenSignIn` | server.js:61-141 | if the hash is sound, registering (name, e, p) on a store without e and then signing in with (e, p) gives 200 with the same public user, whose id is `users.length + 1` |
| `AuthServerProperties.BearerTokenIsSecondSegment` | server.js:181-183 | for a header made of space-separated segments, the token is the second segment, whatever the first segment and whatever follows; an empty second segment counts as no token |
| `AuthServerProperties.BearerHeader` | server.js:181 | `"Bearer " + t` yields `t` for a non-empty, space-free `t` |
| `AuthServerProperties.ProfileWithoutTokenIs401` | server.js:180-188 | with no header, or a header without a space, there is no token, and the profile route answers 401 "Access token required" without verifying anything |
| `AuthServerProperties.ProfileWithEmptySegmentIs401` | server.js:181-188 | a header with an empty second segment (`"Bearer "`) also gives 401 |
| `AuthServerProperties.SignUpThenProfile` | server.js:75-175 | with well-formed tokens and a valid store, the token returned by sign-up, sent as `Bearer <token>`, gives 200 with the new user's public view and creation time |
| `AuthServerProperties.StepPreservesValid` | server.js:32-176 | any single request preserves the store invariant |
| `AuthServerProperties.RunPreservesValid` | server.js:17 | any sequence of requests preserves the store invariant, so every store reachable from the empty one satisfies it |
| `AuthServerProperties.AnnScenario` | server.js:32-176 | An example session: registration gives 201 with id 1; sign-in gives 200 with id 1; a wrong password gives 401 "Invalid credentials"; the profile with her token gives 200 with her data; the profile with no header gives 401 |
| `ClientValidation.IndexOf` | script.js:29 | returns the first position holding the character, or nothing when it does not occur |
| `ClientValidation.ValidateEmail` | script.js:28-31 | accepted iff the string has no whitespace, exactly one '@' at an index > 0, and after the '@' a '.' that is neither the first nor the last character of that part |
| `ClientValidation.EmailCharsAround` | script.js:29 | the parts before and after an '@' consist of `[^\s@]` iff the string has no whitespace and that '@' is the only one |
| `ClientValidation.AllEmailCharsSlice` | script.js:29 | a slice consists of `[^\s@]` iff every position in its range does |
| `ClientValidation.ValidateEmailMatchesRegex` | script.js:29 | the validator accepts exactly the strings matched by `^[^\s@]+@[^\s@]+\.[^\s@]+$` read literally, in both directions |
| `ClientValidation.ValidEmailMatches` | script.js:29 | an accepted string matches the regular expression |
| `ClientValidation.RegexMatchIsValid` | script.js:29 | a string matching the regular expression is accepted |
| `ClientValidation.ValidatePassword` | script.js:33-35 | a password of 6 or more characters is accepted, and an accepted one has at least 3 characters; the exact rule is stated by `ClientValidation.ValidatePasswordBmp` and `ClientServer.PasswordRuleShared` |
| `ClientValidation.ValidatePasswordBmp` | script.js:33-35 | on Basic-Multilingual-Plane text, accepted iff at least 6 characters |
| `ClientValidation.CountTrue` | script.js:224-231 | the number of criteria met is at most the number of criteria |
| `ClientValidation.StrengthScore` | script.js:224-231 | the score is 25 times the number of criteria met (length >= 8, ASCII lowercase, ASCII uppercase, digit), so it lies in {0, 25, 50, 75, 100} |
| `ClientValidation.StrengthIndicator` | script.js:233-239 | "Strong" iff score >= 75; "Medium" iff 50 <= score < 75; "Weak" otherwise |
| `ClientValidation.LevelByCriteria` | script.js:224-239 | Strong iff at least three criteria are met; Medium iff exactly two; Weak iff at most one |
| `ClientValidation.InsertKeepsWitness` | script.js:229-231 | a character class still occurs after a character is inserted anywhere |
| `ClientValidation.InsertNeverLowersScore` | script.js:228-231 | inserting a character anywhere never lowers the score |
| `ClientValidation.InsertNeverLowersLevel` | script.js:233-239 | inserting a character anywhere never lowers the label |
| `ClientValidation.SignInForm` | script.js:74-88 | an empty trimmed email or empty password is reported as "Please fill in all fields" before the email format is looked at; a request is sent iff the trimmed email is valid and the password is non-empty; it carries the trimmed email and the untrimmed password; a non-blank email that fails `validateEmail`, with a non-empty password, is reported as "Please enter a valid email address"; no other message is shown |
| `ClientValidation.SignUpForm` | script.js:127-161 | a request is sent iff the trimmed name is non-empty, the trimmed email is valid, the password is valid and the confirmation equals it; the request carries the trimmed name and email and the untrimmed password |
| `ClientValidation.BlankFieldReportedFirst` | script.js:127-136 | a whitespace-only name or email, or an empty password or confirmation, is reported as "Please fill in all fields" before any other check |
| `ClientValidation.MalformedEmailReportedSecond` | script.js:127-141 | "Please enter a valid email address" is reported iff no field is blank and the trimmed email fails `validateEmail`, so a malformed email is reported before any password problem |
| `ClientValidation.ShortPasswordReportedThird` | script.js:127-146 | "Password must be at least 6 characters long" is reported iff no field is blank, the trimmed email is valid and the password is shorter than 6 UTF-16 code units |
| `ClientValidation.MismatchReportedLast` | script.js:133-151 | "Passwords do not match" is reported iff every earlier check passes and the confirmation differs |
| `ClientValidation.IsLiveMillis` | script.js:308-310 | `exp > Date.now() / 1000` holds iff the current millisecond is strictly before `exp * 1000` |
| `ClientValidation.IsLiveMillisAll` | script.js:308-310 | the same equivalence for all expiry and clock values |
| `ClientValidation.CheckAuth` | script.js:302-320 | redirect iff a non-empty stored token decodes to a payload with an `exp` later than now; the stored session is cleared iff a non-empty token fails to decode |
| `ClientValidation.ExpiryIsStrict` | script.js:310 | at exactly `exp` the token is no longer live; one millisecond earlier it is |
| `ClientServer.PasswordRuleShared` | script.js:33-35 | browser and server use the same 6-unit bound and the same message, and the browser accepts exactly the passwords that pass the server's length check (server.js:44-49) |
| `ClientServer.SubmittedSignUpPassesServerChecks` | script.js:127-161 | a sign-up body the form submits is never refused for a missing field or a short password: the server answers 201 iff the email is new, and otherwise 400 "User with this email already exists" |
| `ClientServer.SubmittedSignInPassesServerChecks` | script.js:74-96 | a sign-in body the form submits never draws the 400 missing-field response: the server answers 200 or 401 |

## Left out

- Express setup, CORS, static file serving, `app.listen` and the `/` route: framework plumbing.
- The health endpoint: it has no logic beyond a fixed message and the clock.
- The 500 catch-all branches: they need a library call that throws, and bcrypt and jsonwebtoken are function values here.
- bcrypt internals (salting, cost factor) are not modelled: `hash` and `compare` are parameters, and only `Sound` is assumed, where a lemma needs it.
- jsonwebtoken signing and verification are not modelled: `sign` and `verify` are parameters. The secret and the 24-hour `expiresIn` are folded into the `verify` value.
- AuthServer.Run: one `TokenService` serves the whole request sequence, so a token cannot expire between two requests of one `Run`; expiry is modelled only as a `verify` that refuses the token, fixed per `Run`.
- The check-then-insert race between concurrent sign-ups is not modelled. Requests are strictly sequential, so the invariant proved (distinct emails) holds only for that schedule.
- A token that verifies but carries no numeric `userId` claim is not modelled: `verify` yields the claim or nothing, and every token this server signs carries one.
- The `Date` values are not modelled. `createdAt` is an opaque string taken from the request context, and `Date.now()` is an integer millisecond parameter of `CheckAuth`.
- `atob`, `JSON.parse` and `split('.')` in `checkAuth`: the decoded payload is an input (`StoredPayload`).
- ClientValidation.IsLive: `Date.now() / 1000` is a double division in JavaScript; the model uses exact real division and an integer `exp`. The two agree for integer `exp` values and millisecond clock readings below 2^43 (beyond the year 2200), where the rounding error of the division stays far below the 0.001 gap to the nearest integer.
- JavaScript truthiness of non-string body values (numbers, objects): a body field is either absent or a string.
- DOM manipulation, `localStorage`, `fetch`, `setTimeout`, and the response handling after `fetch` in both submit handlers: these are effects. The model only says whether a request is sent and with which body.
- Tab switching, `showMessage`, the loading state, the confirm-password match indicator, remember-me, autocomplete and the focus/blur styling: these are presentation only.
- The strength bar's width string and the text colour assignment are not modelled. The label and bar colour are modelled, in `StrengthIndicator`.
- ClientValidation.ValidatePassword: its own contract gives only the bounds implied by the UTF-16 length; the exact rule (at least 6 UTF-16 code units, matching the server) is stated by `ClientServer.PasswordRuleShared` and `ClientValidation.ValidatePasswordBmp`.
