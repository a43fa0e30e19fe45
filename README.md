# SITEis back end: session gate and user store, modelled in Dafny

This project models the core of the SITEis back end server (`siteiS2/back/server.js`), an Express
application. The model has four parts:

- **Path classification** (`isPublic`). A request path has its query string stripped. It is then
  public if it is on the seven-entry allowlist, if it starts with the raw prefix `/img`, `/css` or
  `/js`, or if it ends in a static-file extension in any letter case.
- **The session gate**. This middleware runs before every route. A public path passes. Any other
  path needs a `siteis_token` cookie that the token library accepts; otherwise the request is
  redirected to `/login.html`.
- **The user store** behind `POST /register` and `POST /login`. It is a list of user records.
  Both handlers read the whole list. Only a successful registration changes it in memory and
  writes all of it back; every other registration answer, and every login, leaves the file alone.
  `POST /logout` clears the session cookie.
- **The contact log** behind `POST /contact`. It uses the same read-modify-write pattern on a
  list of messages.

Modules, one per file:

- `Text` (`text.dfy`): ASCII case folding, `startsWith`, and the end-anchored suffix test of
  the extension regex. Also `split('?')[0]`, characterised as the longest prefix that holds no `?`.
- `Http` (`http.dfy`): responses, which are a status, a JSON body and a cookie action. Also the
  client's cookie jar and how a response changes it.
- `Paths` (`paths.dfy`): `PUBLIC_PATHS`, the extension list and `IsPublic`.
- `Session` (`session.dfy`): the gate's decision, `Gate`. The token library is a pair of
  functions `Jwt(sign, verify)`.
- `Users` (`users.dfy`): user records and the case-insensitive lookup. `RegisterOutcome` and
  `LoginOutcome` are the specification functions. The `UserStore` class holds the persisted
  `users` sequence, and its `Register` and `Login` methods are proved against those functions.
- `Contact` (`contact.dfy`): `ContactOutcome` and the `MessageLog` class.
- `Flows` (`flows.dfy`): properties that span several requests. Examples: register then log in;
  the cookie set by login opens the gate; logout closes it.

How the outside world is modelled:

- bcrypt is `Bcrypt(hash, compare)`. Lemmas that need a hash to match its own password take
  `RoundTrips(bcrypt)` as a hypothesis.
- The token library is `Jwt(sign, verify)`. `verify` is the validity oracle at the time of the
  request. Lemmas that need a fresh token to be accepted take `Sound(jwt)` as a hypothesis.
- `Flows.CryptoHypothesesSatisfiable` shows that both hypotheses can hold.
- These are passed in as parameters: whether each file read or write succeeds (`Disk`, or
  `readOk`/`writeOk`), `Date.now()`, the ISO timestamps, the salt and the client IP.

Two behaviours of the code that are easy to miss, both modelled as written:

- `/logout` is not in `PUBLIC_PATHS` (server.js:25), so the gate redirects a logout request
  that has no valid session (`Session.LogoutNeedsSession`). Only a logged-in client can clear
  its cookie through the route.
- The three handlers treat a failed read of their file differently. `/contact` only logs it and
  carries on from an empty list (server.js:69-77), so the write that follows replaces the file's
  history with the one new message (`Contact.ContactReadFailureDropsHistory`). `/register` and
  `/login` answer 500 "Erro interno" instead (server.js:104-107, 161-164).

## Model

| member | source | states |
|---|---|---|
| `Text.Lower` | siteiS2/back/server.js:109 | lower-casing keeps the length and folds each character on its own (ASCII fold) |
| `Text.LowerIdempotent` | siteiS2/back/server.js:109-119 | lower-casing an email that is already stored lower-cased changes nothing |
| `Text.LowerAppend` | siteiS2/back/server.js:30 | lower-casing distributes over concatenation, so a case-blind suffix test looks only at the suffix |
| `Text.StartsWith` | siteiS2/back/server.js:31 | definition: `startsWith` as a sequence prefix (no contract of its own; used by `HasStaticPrefix`) |
| `Text.EndsWith` | siteiS2/back/server.js:30 | definition: the string ends in the given suffix, the end anchor `$` of the extension regex (no contract of its own; used by `HasStaticExtension`) |
| `Text.BeforeQuery` | siteiS2/back/server.js:28 | `split('?')[0]` is a prefix of the path, holds no `?`, and stops only at a `?` or at the end |
| `Text.BeforeQueryUnique` | siteiS2/back/server.js:28 | those three properties determine the part before the query |
| `Text.BeforeQueryDropsQuery` | siteiS2/back/server.js:28 | for a `?`-free `p`, the part of `p + "?" + q` before the query is `p` |
| `Text.BeforeQueryKeepsPrefix` | siteiS2/back/server.js:28 | stripping the query keeps every `?`-free prefix of the path |
| `Paths.PUBLIC_PATHS` | siteiS2/back/server.js:25 | definition: the seven exact-match public paths, in the order of the source (a constant; its property is `AllowlistIsPublic`) |
| `Paths.STATIC_EXTENSIONS` | siteiS2/back/server.js:30 | definition: the eleven alternatives of the extension regex, with `woff2?` written out as `woff` and `woff2` (a constant; used by `HasStaticExtension`) |
| `Paths.HasStaticExtension` | siteiS2/back/server.js:30 | definition: the lower-cased path ends in `.` followed by one of the eleven extensions of the regex (no contract of its own; used by `StaticExtensionIsPublic` and `ExtensionInAnyCase`) |
| `Paths.HasStaticPrefix` | siteiS2/back/server.js:31 | definition: the raw path starts with `/img`, `/css` or `/js` (no contract of its own; used by `StaticPrefixIsPublic`) |
| `Paths.IsPublic` | siteiS2/back/server.js:27-32 | definition of `isPublic`: the three rules applied to the part before the first `?`; its properties are the `Paths` lemmas below |
| `Paths.IsPublicCases` | siteiS2/back/server.js:27-32 | a query-free path is public exactly when it is allowlisted, has a static prefix, or has a static extension |
| `Paths.QueryStringIgnored` | siteiS2/back/server.js:28 | `isPublic(p + "?" + q) == isPublic(p)` when `p` holds no `?` |
| `Paths.ClassifiesPathBeforeQuery` | siteiS2/back/server.js:28-31 | classifying a path is the same as classifying its part before the query |
| `Paths.AllowlistIsPublic` | siteiS2/back/server.js:25 | every member of `PUBLIC_PATHS` is public |
| `Paths.StaticPrefixIsPublic` | siteiS2/back/server.js:31 | any path beginning with `/img`, `/css` or `/js` is public, with or without a query |
| `Paths.StaticExtensionIsPublic` | siteiS2/back/server.js:30-31 | a query-free path whose lower-cased form ends in `.` plus a listed extension is public |
| `Paths.ExtensionInAnyCase` | siteiS2/back/server.js:30 | `stem.EXT` is public for any `?`-free stem and any letter case of a `?`-free listed extension |
| `Paths.RootIsProtected` | siteiS2/back/server.js:37 | the root `/` is not public |
| `Paths.LogoutIsProtected` | siteiS2/back/server.js:25 | `/logout` is not public |
| `Paths.IndexPageIsProtected` | siteiS2/back/server.js:30 | `.html` is not a static extension, so `/index.html` is not public |
| `Paths.UnlistedPageIsProtected` | siteiS2/back/server.js:31 | `/dashboard` is not public |
| `Paths.PrefixIsCaseSensitive` | siteiS2/back/server.js:31 | the prefix test is case-sensitive: `/JS/main` is not public |
| `Paths.RawPrefixExample` | siteiS2/back/server.js:31 | the raw `startsWith('/js')` makes `/jsonx` public |
| `Paths.QueryExample` | siteiS2/back/server.js:28 | `/login?next=/x` is public |
| `Session.HasToken` | siteiS2/back/server.js:39-40 | definition: a `siteis_token` cookie is present and not empty, the truthiness test before verification (no contract of its own; used by `Gate`) |
| `Session.HasSession` | siteiS2/back/server.js:39-43 | definition: the token is truthy and `jwt.verify` accepts it (no contract of its own; used by `GatePassesIff`) |
| `Session.Gate` | siteiS2/back/server.js:38-46 | the gate has exactly two outcomes: `next` or a redirect to `/login.html` |
| `Session.GatePassesIff` | siteiS2/back/server.js:38-46 | a request passes exactly when its path is public or it carries a non-empty token that verifies; otherwise it is redirected to `/login.html` |
| `Session.PublicPathPasses` | siteiS2/back/server.js:38 | a public path passes whatever the cookies |
| `Session.MissingTokenRedirects` | siteiS2/back/server.js:39-40 | a protected path with no `siteis_token` cookie, or an empty one, is redirected to `/login.html` |
| `Session.RejectedTokenRedirects` | siteiS2/back/server.js:41-45 | a protected path whose token fails verification gets the same redirect |
| `Session.ValidTokenPasses` | siteiS2/back/server.js:41-43 | a non-empty token that verifies lets any path pass |
| `Session.GateIgnoresQuery` | siteiS2/back/server.js:28-38 | the query string never changes the gate's verdict |
| `Session.LogoutNeedsSession` | siteiS2/back/server.js:35-40 | without a valid session, `/logout` is redirected to the login page |
| `Session.DashboardScenario` | siteiS2/back/server.js:37-46 | `/dashboard` with no cookie or with a rejected (expired) token, and `/` with no cookie, are redirected |
| `Http.ErrorResponse` | siteiS2/back/server.js:95-181 | definition: `res.status(code).json({ error: message })`, an error body that leaves the cookies alone (no contract of its own; used by every error answer) |
| `Http.ApplyCookie` | siteiS2/back/server.js:144-176 | `res.cookie` stores the value and adds only that name; `res.clearCookie` removes only that name; no other cookie changes, and keeping changes nothing |
| `Users.Given` | siteiS2/back/server.js:95 | definition: JavaScript truthiness of a string field, sent and not empty (no contract of its own) |
| `Users.RegisterComplete` | siteiS2/back/server.js:95 | definition: name, email and password are all truthy, the negation of the guard at server.js:95 (no contract of its own; used by `RegisterBadRequestIff`) |
| `Users.LoginComplete` | siteiS2/back/server.js:152 | definition: email and password are both truthy, the negation of the guard at server.js:152 (no contract of its own; used by `LoginEarlyErrors`) |
| `Users.SameEmail` | siteiS2/back/server.js:109 | the `u.email && ...` match: a match needs a non-empty request email of the stored email's length |
| `Users.Strip` | siteiS2/back/server.js:134 | definition: the record minus `passwordHash`; `PublicUser` has no hash field, so no answer can carry one (no contract of its own) |
| `Users.EmailKeysUnique` | siteiS2/back/server.js:109-124 | definition: no two records with a non-empty email match each other ignoring case, the invariant the 409 check keeps (no contract of its own; its properties are `RegisterPreservesUniqueness` and `UniqueEmailMatch`) |
| `Users.FindFrom` | siteiS2/back/server.js:109 | the scan returns the first index from `from` on whose email matches ignoring case, or none when no record there matches |
| `Users.FindByEmail` | siteiS2/back/server.js:166 | `users.find`: the first record whose non-empty email matches ignoring case, or none exactly when none matches |
| `Users.NewUser` | siteiS2/back/server.js:116-122 | the new record's email is in lower case and matches the email of the form under the case-blind test |
| `Users.RegisterOutcome` | siteiS2/back/server.js:92-140 | register answers 200 exactly when it changes the users file, and a change appends exactly the new record |
| `Users.RegisterBadRequestIff` | siteiS2/back/server.js:94-95 | register answers 400 "Campos faltando" exactly when name, email or password is missing or empty, and the store is unchanged |
| `Users.RegisterConflictIff` | siteiS2/back/server.js:109-110 | register answers 409 exactly when the store already holds the email under some letter case, and the store is unchanged |
| `Users.RegisterStoreFailure` | siteiS2/back/server.js:99-131 | a failed read, or a failed write of a new record, answers 500 and leaves the file unchanged |
| `Users.RegisterFailureKeepsStore` | siteiS2/back/server.js:92-139 | register answers only 200, 400, 409 or 500; every answer but 200 is an error body and leaves the store unchanged |
| `Users.RegisterSuccessIff` | siteiS2/back/server.js:109-135 | success happens exactly when the form is complete, read and write succeed and the email is new. It appends one record and keeps the earlier ones. The new email is lower-cased, the record gets the given id, time and hash, and the answer omits the hash |
| `Users.RegisterPreservesUniqueness` | siteiS2/back/server.js:109-124 | if emails are unique up to case before a registration, they still are after it |
| `Users.RegisterPreservesLowerCase` | siteiS2/back/server.js:119-124 | if every stored email is lower-case before a registration, every one still is after it |
| `Users.RegisterTwiceConflicts` | siteiS2/back/server.js:109-127 | registering the same email twice, in any case, answers 409 the second time and stores exactly one matching record |
| `Users.LoginOutcome` | siteiS2/back/server.js:149-182 | a 200 answers with a user body and sets `siteis_token`; every other answer is an error body and leaves the cookies alone |
| `Users.LoginEarlyErrors` | siteiS2/back/server.js:151-164 | login answers 400 exactly for a missing field and 500 exactly for a failed read; it answers only 200, 400, 401 or 500 |
| `Users.LoginUnknownEmail` | siteiS2/back/server.js:166-167 | an email matching no record answers 401 "Credenciais inválidas" |
| `Users.LoginWrongPassword` | siteiS2/back/server.js:169-171 | the first matching record, in file order, whose hash rejects the password gets the identical 401 answer |
| `Users.LoginSuccessIff` | siteiS2/back/server.js:166-171 | login succeeds exactly when the first case-insensitive match accepts the password |
| `Users.LoginSuccessAnswer` | siteiS2/back/server.js:173-177 | a successful login answers with that record minus its hash, and sets `siteis_token` to a token signed for its id and email |
| `Users.LoginRejectionsUniform` | siteiS2/back/server.js:166-171 | every 401 has the same body, and only a success changes the cookies |
| `Users.UniqueEmailMatch` | siteiS2/back/server.js:109-110 | while emails are unique up to case, at most one record matches any email |
| `Users.LoginChecksTheMatch` | siteiS2/back/server.js:166-171 | while emails are unique up to case, the matching record is the first match, and login succeeds exactly when its hash accepts the password |
| `Users.Logout` | siteiS2/back/server.js:143-146 | logout answers 200 `{ ok: true }`, removes `siteis_token` from any jar and keeps every other cookie |
| `Users.UserStore.Valid` | siteiS2/back/server.js:109-124 | definition: the persisted `users` satisfy `EmailKeysUnique` (no contract of its own; kept by `UserStore.Register` and relied on by `UserStore.Login`) |
| `Users.UserStore.Register` | siteiS2/back/server.js:92-140 | the handler's answer and the new store are those of `RegisterOutcome`; any failure leaves the store unchanged; email uniqueness is preserved |
| `Users.UserStore.Login` | siteiS2/back/server.js:149-182 | the handler answers as `LoginOutcome` and does not change the store; a success sets the `siteis_token` cookie; in a valid store it succeeds exactly when the one matching record accepts the password |
| `Contact.ContactOutcome` | siteiS2/back/server.js:61-89 | a failure leaves the messages file unchanged; a success writes the list read (empty after a failed read) with the new message appended |
| `Contact.ContactAppendsOne` | siteiS2/back/server.js:79-88 | with read and write working, exactly one message is appended and the others are kept |
| `Contact.ContactWriteFailure` | siteiS2/back/server.js:81-86 | a failed write answers 500 "Não foi possível salvar a mensagem" and the file is unchanged |
| `Contact.ContactReadFailureDropsHistory` | siteiS2/back/server.js:69-82 | a failed read is only logged; the write then leaves just the new message |
| `Contact.ContactStatusIff` | siteiS2/back/server.js:79-88 | contact answers 200 exactly when the write succeeds, and 500 otherwise; on success the new message is last |
| `Contact.MessageLog.Contact` | siteiS2/back/server.js:61-89 | the handler's answer and the new file are those of `ContactOutcome`; a failure leaves the file unchanged |
| `Flows.RegisterThenLogin` | siteiS2/back/server.js:109-177 | after a successful registration, logging in with the same password and the email in any case answers with the new record and sets a token for its id and lower-cased email |
| `Flows.AnaScenario` | siteiS2/back/server.js:116-177 | registering `Ana@x.com` and then logging in as `ana@x.com` succeeds and sets `siteis_token` |
| `Flows.LoginOpensSession` | siteiS2/back/server.js:175-176 | the cookie a successful login sets makes the gate pass every path |
| `Flows.LogoutEndsSession` | siteiS2/back/server.js:143-146 | logout answers `{ ok: true }`; afterwards every protected path redirects to the login page |
| `Flows.LogoutIdempotent` | siteiS2/back/server.js:144 | clearing the cookie twice leaves the same jar as clearing it once |
| `Flows.AuthRoutesNeverBlocked` | siteiS2/back/server.js:25 | `/login.html` (the redirect target), `/login`, `/register` and `/contact` always pass the gate |

## Left out

- Express wiring is left out as framework plumbing: cors, body-parser, cookie-parser,
  `app.listen`, and the `PORT` and `JWT_SECRET` environment lookups (server.js:1-22, 194-196).
- Three routes depend on the filesystem or hold no logic, so they are not modelled: static file
  serving (server.js:53), the SPA `index.html` fallback with its 404 (server.js:185-192) and
  `GET /health` (server.js:56-58).
- File I/O and JSON parsing are not modelled. Each store is the sequence its file holds; a
  missing or empty file is the empty sequence. Whether a read or write succeeds is a parameter.
  A failed write is taken to leave the file as it was; a partial write is not modelled.
- Records in the users file, and request fields, are taken to be strings. The non-string cases
  are not modelled, field by field:
  - a truthy non-string email reaches `email.toLowerCase()` in the `find` callback only when
    some stored record has a truthy `email` (server.js:109, 166); it then throws into the outer
    `catch` blocks that answer 500 (server.js:136-139, 178-181). With no such record, `/login`
    answers 401 (server.js:167) and `/register` throws at server.js:119 instead, again
    answering 500;
  - a truthy non-string name is stored and echoed back with 200 (server.js:118, 135);
  - a truthy non-string password makes bcrypt's `hashSync` fail on registration (server.js:114),
    and `compareSync` fail on a login whose email matched a record (server.js:170); both reach
    those `catch` blocks.
- The `console.error` logging on each failure path (server.js:76, 84, 105, 129, 137, 162, 179) is
  dropped; it changes neither the answer nor the files.
- The gate's outer `catch`, which falls open to `next` (server.js:47-49), is not modelled. Every
  step of the modelled classification is total, so that branch is never reached.
- bcrypt is not modelled. Salt generation with cost 10, hashing and compare are stood in for by
  the functions in `Bcrypt`, and the round trip is a hypothesis. Its 72-byte password truncation
  is not captured.
- JWT signing, signature checking and the two-hour expiry are not modelled. `Jwt.verify` is the
  oracle at the time of the request, and `Sound` says that a token just issued is accepted.
- `Date.now()` ids and the ISO timestamps are parameters. The model does not make ids unique:
  two registrations in the same millisecond get the same id, as in the source.
- Cookie flags (HttpOnly, SameSite=Lax) are not modelled, nor cookie-parser's JSON cookies; a
  response only sets, clears or keeps a named cookie.
- The last-writer-wins race between concurrent registrations is left out: the model handles one
  request at a time.
- Text.Lower: folds ASCII letters only, an approximation of JavaScript's Unicode `toLowerCase`
  on emails. For the extension regex, which has no `u` flag, the ASCII fold is exact.
- The contact body is a map from field names to strings, not arbitrary JSON.
