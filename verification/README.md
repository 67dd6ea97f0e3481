# Account registration, verification and bearer-token gate — a Dafny model

This project models the authentication core of a small Express/Mongoose
service: the four account handlers (register, verify, login, resend
verification) and the `Authorization: Bearer <token>` gate in front of the
authenticated routes, together with the request-body checks that run before
register and login.

Each handler is a pure transition `(Store, request) -> Step(Store, Outcome)`,
where `Outcome` is the HTTP status plus a payload. The store holds two
collections kept in insertion order: `users` (a user's id is its position;
no handler deletes a user) and `records` (verification records). A Mongo
`findOne` is modelled as the first match in insertion order. This ordered
form is used instead of a map so that the choice `findOne` makes among
several matches is deterministic and can be reasoned about.

Foreign calls are parameters of the handlers:

- `isEmail`: the validator's e-mail syntax test.
- `hashed`: the string argon2 produced for the submitted password.
- `passwordMatches(hash, password)`: argon2's verify.
- `token`: what `randomString(200)` produced. Freshness is a lemma hypothesis (`TokenFresh`).
- `sign(payload, seconds)`: the JWT signer.
- `verifyJwt(token)`: the JWT verifier. It answers `None` when the library throws or returns nothing.
- `now`: the clock.

Files:

- `text.dfy`: JavaScript's `toLowerCase`, `trim`, `replace(/\s+/, "")` and `split`, with the e-mail normalisation built from them.
- `store.dfy`: the entities, the `findOne` lookups and the store invariants.
- `validation.dfy`: the register and login check chains.
- `controller.dfy`: the four handlers, and the resend handler with its lookup kind corrected.
- `middleware.dfy`: the bearer-header gate.
- `workflow.dfy`: properties that span several calls.

Source quirks the model keeps on purpose:

- The duplicate check of `register` looks up `email.toLowerCase()`. The stored e-mail is lower-cased, has its first whitespace run removed and is trimmed. A padded spelling of a stored e-mail therefore passes the duplicate check (`Workflow.PaddedDuplicateAdmitted`). It creates a second account with the same stored e-mail only under two conditions. First, the e-mail syntax test must accept the padded spelling; the model keeps that test abstract, so acceptance is a hypothesis of the lemma. Second, the user collection must have no unique index on `email`. With such an index, the `save()` at line 50 would throw and the answer would be 500, and indexes are not modelled (see Left out).
- The regex is not global, so a second inner whitespace run survives (`Text.NormalizeEmailKeepsSecondRun`).
- `login` looks the account up by the e-mail exactly as sent, without lower-casing it.
- `resendVerification` looks up records of type `"Register new aaccount"`. No handler writes that type (see Findings).
- `verify` overwrites `verifiedAt` on an account that is already verified. The `Verify` contract states the update unconditionally. This happens whenever an account holds a second activation record, for instance after a resend.

## Model

| member | source | states |
|---|---|---|
| Text.Lower | app/controllers/api/AuthController.js:30 | `toLowerCase` keeps the length, maps each character to its lower-case form position by position, and leaves no capital letter |
| Text.LowerFixes | app/controllers/api/AuthController.js:30 | lower-casing leaves a string unchanged exactly when it has no capital letter |
| Text.Trim | app/controllers/api/AuthController.js:38-39 | `trim` never lengthens its input; the result neither starts nor ends with whitespace, and it is empty exactly when the input is all whitespace |
| Text.TrimIsPiece | app/controllers/api/AuthController.js:38-39 | what `trim` keeps is the contiguous piece of the input that starts right after its leading whitespace run, and only whitespace follows that piece |
| Text.TrimOfPadded | app/controllers/api/AuthController.js:38-39 | `trim` removes exactly the whitespace padding around an unpadded string |
| Text.RemoveFirstSpaceRun | app/controllers/api/AuthController.js:39 | `replace(/\s+/, "")` never lengthens its input. Its full behaviour is fixed by the two lemmas below: every string is either space-free or a space-free head, a whitespace run and a rest |
| Text.RemoveFirstSpaceRunCuts | app/controllers/api/AuthController.js:39 | the non-global `replace(/\s+/, "")` removes the leftmost maximal whitespace run and nothing else |
| Text.RemoveFirstSpaceRunOfSpaceFree | app/controllers/api/AuthController.js:39 | a string without whitespace passes through the replacement unchanged |
| Text.NormalizeEmailKeepsSecondRun | app/controllers/api/AuthController.js:39 | for any space-free, capital-free pieces `a`, `b`, `c`, the e-mail `a b c` is stored as `ab c`: only the first whitespace run is removed, so a second one survives normalisation |
| Text.NormalizeEmailDropsPadding | app/controllers/api/AuthController.js:30-39 | leading whitespace before a space-free, capital-free e-mail survives lower-casing but is gone from the stored key |
| Text.NormalizeEmail | app/controllers/api/AuthController.js:39 | the stored e-mail key is no longer than what was sent, has no capital letter, and neither starts nor ends with whitespace |
| Text.NormalizeEmailIsLower | app/controllers/api/AuthController.js:30-39 | a stored e-mail has no capital letter, so the duplicate check's key for it is the stored e-mail itself |
| Text.Split | app/middlewares/auth.js:29 | `split(" ")` yields at least one piece, and no piece contains the separator |
| Text.JoinSplit | app/middlewares/auth.js:29 | joining the pieces of `split` with the separator gives back the header |
| Text.SplitJoin | app/middlewares/auth.js:29 | splitting a join of separator-free pieces gives back the pieces |
| Store.FindUserByEmail | app/controllers/api/AuthController.js:160 | `User.findOne({email})` returns the first account whose stored e-mail equals the key exactly, or nothing when none does |
| Store.FindActivation | app/controllers/api/AuthController.js:100-103 | the lookup finds the first record carrying the token with type "Register New Account", or nothing when there is none |
| Store.FindRecordOf | app/controllers/api/AuthController.js:234-237 | the lookup finds the first record of the given account and type, or nothing when there is none |
| Validation.RegisterErrors | app/middlewares/auth.js:7-12 | register validation passes exactly when fullName, email and password are non-empty and the e-mail is well-formed; each message is reported exactly when its check fails |
| Validation.LoginErrors | app/middlewares/auth.js:15-19 | login validation passes exactly when email and password are non-empty and the e-mail is well-formed; each message is reported exactly when its check fails |
| AuthController.Register | app/controllers/api/AuthController.js:20-79 | a validation failure gives 422 and no write; a lower-cased e-mail that is already stored gives 422 and no write; 201 happens exactly otherwise, and then adds exactly one unverified account at the next id (trimmed name, normalised e-mail, the hash and never the plaintext) and one "Register New Account" record for it; the response shows the account without its password |
| AuthController.Verify | app/controllers/api/AuthController.js:95-134 | 400 exactly when no activation record carries the token; 500 when the record's account is missing; on 200 that account alone becomes verified at `now` and the consumed record is removed; every non-200 answer leaves the store unchanged |
| AuthController.Login | app/controllers/api/AuthController.js:150-206 | the store is never written; 200 exactly when validation passes, an account has the e-mail exactly as sent, the password verifies and the account is verified; the token signs `{user:{id, fullName, email}}` for 3600 seconds |
| AuthController.Resend | app/controllers/api/AuthController.js:217-252 | a missing e-mail gives 422 and an unknown lower-cased e-mail gives 404, both without writes; otherwise 201, the first record of the superseded type (if any) is deleted and exactly one new "Register New Account" record is appended |
| AuthController.ResendVerification | app/controllers/api/AuthController.js:233-252 | as written: on a store of activation records nothing is deleted and exactly one record is appended |
| AuthController.ResendVerificationFixed | app/controllers/api/AuthController.js:233-252 | with the corrected type, a known e-mail gives 201, the users are untouched and the last record is the new one; when each account had at most one pending record and every record is an activation record, the new record is the account's only one |
| AuthMiddleware.Status | app/middlewares/auth.js:35-61 | the gate writes a response exactly when it refuses: 400 for a wrong scheme, 404 for a missing token, 401 for a token the verifier rejects |
| AuthMiddleware.StatusNamesRefusal | app/middlewares/auth.js:35-61 | the three refusal codes are distinct, so the code alone identifies which check refused |
| AuthMiddleware.Auth | app/middlewares/auth.js:24-61 | a missing header crashes rather than answering; the gate lets a request through only with a user the verifier returned for the header's second piece |
| AuthMiddleware.SchemeIsBearer | app/middlewares/auth.js:29-36 | the first piece is exactly `Bearer` iff the header is `Bearer` or begins with `Bearer ` (case-sensitive) |
| AuthMiddleware.BadSchemeRefused | app/middlewares/auth.js:35-39 | any other scheme gives 400 |
| AuthMiddleware.VerifierConsultedLast | app/middlewares/auth.js:35-47 | a 400 or 404 verdict is the same whatever the verifier would say: the verifier is never consulted for them |
| AuthMiddleware.MissingTokenRefused | app/middlewares/auth.js:32-43 | `Bearer`, `Bearer ` and `Bearer` followed by two spaces give 404 |
| AuthMiddleware.ExtraPiecesIgnored | app/middlewares/auth.js:29-33 | pieces after the second are ignored: `Bearer a b` is judged as `Bearer a` |
| AuthMiddleware.WellFormedHeaderVerdict | app/middlewares/auth.js:45-61 | for `Bearer <token>`, a verifier rejection gives 401, and an accepted payload's `user` is passed on |
| Workflow.RegisterKeepsWellFormed | app/controllers/api/AuthController.js:37-60 | with a fresh token, register keeps every record pointing at an account, tokens distinct, records of activation type, and at most one pending record per account |
| Workflow.VerifyKeepsWellFormed | app/controllers/api/AuthController.js:111-123 | verify keeps the store invariant and at most one pending record per account |
| Workflow.ResendKeepsWellFormed | app/controllers/api/AuthController.js:227-252 | with a fresh token, the resend handler as written keeps the store invariant |
| Workflow.ResendFixedKeepsOnePending | app/controllers/api/AuthController.js:233-252 | the corrected resend keeps the invariant and at most one pending record per account |
| Workflow.ResendDuplicatesPending | app/controllers/api/AuthController.js:233-252 | as written, a resend for an account with a pending record leaves it with two |
| Workflow.VerifyIsSingleUse | app/controllers/api/AuthController.js:100-123 | after a successful verify, the same token gives 400 and changes nothing |
| Workflow.UnknownTokenRefused | app/controllers/api/AuthController.js:100-109 | a token no record carries gives 400 and leaves users and records unchanged |
| Workflow.ResendKeepsOldToken | app/controllers/api/AuthController.js:234-248 | as written, every token issued before a resend still verifies after it |
| Workflow.ResendFixedSupersedes | app/controllers/api/AuthController.js:234-248 | with the corrected type, the account's earlier token gives 400 after a resend, and the new record is the account's only one |
| Workflow.SecondRegistrationRefused | app/controllers/api/AuthController.js:29-35 | after a registration, a second one whose lower-cased e-mail equals the stored e-mail (`A@x.com` after `a@x.com`) gives 422 and writes nothing |
| Workflow.PaddedDuplicateAdmitted | app/controllers/api/AuthController.js:30-39 | an e-mail whose lower-cased form is not stored but whose normalised form is gets 201 and a second account with the same stored e-mail |
| Workflow.PaddedDuplicateExample | app/controllers/api/AuthController.js:30-39 | such e-mails exist: when stored e-mails have no whitespace, any stored e-mail preceded by whitespace passes the duplicate check and registers a second account under the same stored e-mail |
| Workflow.LoginIsCaseSensitive | app/controllers/api/AuthController.js:160-164 | when stored e-mails are lower-case, a login e-mail with a capital letter gives 422 "Invalid Email or Password" |
| Workflow.LoginFailuresAlike | app/controllers/api/AuthController.js:160-171 | an unknown e-mail and a wrong password give the identical 422 outcome |
| Workflow.LoginNeedsVerifiedAccount | app/controllers/api/AuthController.js:173-179 | the right password on an unverified account gives 400 and no token |
| Workflow.FreshRegistration | app/controllers/api/AuthController.js:37-60 | a valid registration with an unused e-mail appends exactly the new unverified account and its activation record |
| Workflow.FreshActivation | app/controllers/api/AuthController.js:100-123 | the token of a fresh registration verifies exactly the new account |
| Workflow.VerifiedLogin | app/controllers/api/AuthController.js:160-201 | a verified account with the right password and the stored e-mail receives a token signed over its id, name and e-mail |
| Workflow.RegisterVerifyLogin | app/controllers/api/AuthController.js:20-201 | register, then verify with the issued token, then login with the stored e-mail and the same password gives 201, 200 and a session token for the new account |

## Left out

- Password hashing: argon2 internals, the hash parameters and the per-call salt are not modelled. The hash output is a parameter, and the verifier is a parameter assumed only where a lemma says so.
- JWT: signing, the HMAC secret and expiry checking are not modelled. A token presented after its 3600-second window is rejected only if the `verifyJwt` parameter rejects it.
- `randomString(200)` is not modelled. Its randomness and length are replaced by a supplied token; freshness is a lemma hypothesis.
- Mongoose and MongoDB are not modelled. This covers persistence, schema defaults and unique indexes (models/User.js and models/Verification.js are not part of this model), and any failure of a write. The only 500 path modelled is `verify` finding a record whose account is missing.
- AuthController.Verify: assumes `findOneAndRemove(verifyData._id)` at line 123 removes the consumed record. That call passes the id itself, not `{_id: id}`, as the filter, and the model does not decide how the driver reads a bare id.
- AuthController.Login: a failure reported by `jwt.sign` to its callback is not modelled. It throws inside the callback, outside the handler's try block.
- Text.Lower: lower-cases the ASCII letters only. JavaScript's `toLowerCase` also maps the rest of Unicode.
- Response envelope `{status, message, data}` and the success messages are not modelled. Only the status code, the error message and the data payload are kept.
- `isEmail` internals (express-validator) are not modelled; the test is a parameter.
- Validation.RegisterErrors: the form holds the request body's fields only. `check()` at auth.js:8-12 also accepts a field found in the query, route parameters, headers or cookies. The handler then reads `req.body` alone, and `email.toLowerCase()` on the missing body field throws inside the try block, giving 500; the model answers 422 for such a request.
- Validation.LoginErrors: the form holds the request body's fields only, while `check()` at auth.js:15-19 also looks in the query, route parameters, headers and cookies. A login whose fields are only outside the body passes validation. `User.findOne({ email: undefined })` then runs, which this model does not decide; the model answers 422.
- Non-string request fields are not modelled: fields are `Option<string>`. A truthy non-string field, such as `{"email": 1}` sent to resend, makes `email.toLowerCase()` throw inside the try block and the answer is 500.
- Concurrency: the model is sequential. It does not model the atomicity of a check followed by a delete under concurrent requests, nor async/await.
- `getAuthenticatedUser` is not modelled. routes/api/auth.js imports it, but AuthController.js does not define it.
- The route table, database connection, server start-up and API documentation are not modelled.

## Findings

| source | as written | input that shows it | evidently intended | confidence | as-written member | corrected member |
|---|---|---|---|---|---|---|
| app/controllers/api/AuthController.js:234-237 | the record to supersede is looked up with type "Register new aaccount". No handler writes that type, so nothing is deleted and every earlier activation token keeps working | register e-mail `e` (token `t1`), resend for `e` (token `t2`), then verify `t1`: 200 | type "Register New Account": after the resend, verify `t1` gives 400 and `t2` is the account's only token | high; not executed | Workflow.ResendKeepsOldToken | Workflow.ResendFixedSupersedes |
