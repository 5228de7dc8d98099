# jwt-pizza-service: authentication, sessions, throttling, metrics and log masking in Dafny

This project models the security core of the pizza-ordering service:

- **Input validation**: `validateInput` checks the body of register, login and update.
- **Users**:
  - `addUser` creates accounts with a role policy.
  - `getUser` checks credentials behind a per-e-mail login throttle.
  - `updateUser` changes a user's e-mail or password.
- **Sessions**: a session registry keyed by the JWS signature of the bearer token.
- **Authentication**: `authenticateToken` turns an `Authorization` header into an identity or a denial.
- **Routes**:
  - the register, login, logout and update routes of the authentication router;
  - the order router, with its admin-only menu additions, paged order lists, order creation and chaos flag.
- **Metrics**: the in-process counters of the metrics module.
- **Logger**: the two pure helpers, status-to-level banding and password masking.

Everything is a value. Each table of the database (`user`, `userRole`, `auth`, `menu`, `dinerOrder`) is a sequence in insertion order, with an auto-increment counter where the table has one. Every operation is a function from the old state to the new state and a result.

Outside code is passed in as parameters:

- `jwt.verify` is the oracle `verify: string -> Verified`.
- `jwt.sign` is represented by the token it produced.
- `bcrypt.compare` is the oracle `compare`.
- `bcrypt.hash` is represented by the hash it produced.
- `Math.random() < 0.5` is the boolean `chaosRoll`.
- The factory's HTTP reply is the value `reply`.
- `config.db.listPerPage` is the integer `perPage`.

The fifteen-minute `setTimeout` decrements of the throttle become a multiset of pending timer events. An explicit `Fire` step consumes them.

JavaScript semantics are written out where they matter:

- **Truthiness**: a missing field and `""` are both falsy; an `id` of 0 in the claims is falsy.
- **`split`**: it always yields at least one piece.
- **`\s`**: the full whitespace class is used.
- **`toUpperCase`**: modelled for ASCII letters.
- **Regular expressions**: the global regular-expression replacement of `sanitize` is modelled exactly. It is a leftmost-first walk, and a match's end is unique.

Files:

| file | module | contents |
|---|---|---|
| common.dfy | `Common` | `Option`, `Result`, `Failure(status, message)`, truthiness |
| text.dfy | `Text` | `split`/`join`, segment lookup, character removal, upper-casing, the e-mail pattern |
| throttle.dfy | `Throttle` | `checkLoginAttempts`, its timers and the delete on success |
| sessions.dfy | `Sessions` | `getTokenSignature`, `loginUser`, `isLoggedIn`, `logoutUser` |
| users.dfy | `Users` | `addUser`, `getUser`, `updateUser`, `getOffset` |
| metrics.dfy | `Metrics` | method counts, endpoint counts, tallies, active users, pizza sales |
| auth.dfy | `Auth` | `validateInput`, `readAuthToken`, `authenticateToken`, `isRole`, the auth routes |
| orders.dfy | `Orders` | the order router and its chaos flag |
| logging.dfy | `Logging` | `statusToLogLevel`, `sanitize` |

Notes on the code:

- **Session check**: the session lookup at `src/routes/authRouter.js:115` is not awaited, so its "Session expired" branch is never taken (see Findings). The authenticated routes take the session check as a parameter `SessionCheck`: `NotAwaited` is the code as written, `Awaited` is the corrected check.
- **Role check**: `isRole` compares role names only and ignores the `objectId` (Auth.IsRoleIgnoresObjectId).
- **Role names**: the role constants come from `src/model/model.js`, which is not part of this model. The values `diner`, `admin` and `franchisee` are taken from the endpoint documentation and from the SQL text `role='franchisee'` in `src/database/database.js`.

## Model

| member | source | states |
|---|---|---|
| Text.Split | src/routes/authRouter.js:255 | `split` on one character yields one more piece than there are separators, and no piece contains the separator |
| Text.JoinSplit | src/routes/authRouter.js:255 | joining the pieces of `split` with the same separator gives back the original string |
| Text.SplitJoin | src/routes/authRouter.js:255 | splitting a join of separator-free pieces gives back exactly those pieces |
| Text.Segment | src/database/database.js:443-449 | the n-th piece of a split exists exactly when there are at least n separators, and it is separator-free |
| Text.SegmentOfJoin | src/database/database.js:443-449 | the n-th piece of a join of separator-free pieces is the n-th piece, and there is none past the end |
| Text.RemoveAll | src/routes/authRouter.js:88 | the result holds no removed character, and every other character keeps its number of occurrences |
| Text.RemoveAllAppend | src/routes/authRouter.js:88 | removal works piece by piece: stripping a concatenation is stripping each part, so the kept characters stay in their order |
| Text.RemoveAllIdempotent | src/routes/authRouter.js:88 | stripping `<>'"` a second time changes nothing |
| Text.ToUpper | src/metrics.js:17 | upper-casing keeps the length and maps each character on its own |
| Text.EmailValidatorMatchesPattern | src/routes/authRouter.js:75-76 | the e-mail check accepts a string exactly when it matches `^[^\s@]+@[^\s@]+\.[^\s@]+$` (both directions) |
| Throttle.Check | src/database/database.js:539-547 | an attempt is refused with 429 exactly when the count is 5 or more; a refused attempt leaves the state unchanged; an accepted one raises the count by one and arms one timer; the invariant is kept |
| Throttle.Fire | src/database/database.js:548-553 | a timer lowers only a present, non-zero count by one; it never creates an entry; the invariant is kept |
| Throttle.Reset | src/database/database.js:140 | a successful login deletes the e-mail's entry only; armed timers stay armed |
| Throttle.RunKeepsValid | src/database/database.js:539-554 | after any sequence of attempts, timers and logins every count stays within 0..5 |
| Throttle.RunNeverRecreates | src/database/database.js:548-553 | a deleted entry comes back only through a new attempt for that e-mail |
| Throttle.CheckIsolated | src/database/database.js:539-547 | an attempt for one e-mail leaves every other e-mail's count unchanged |
| Throttle.RepeatedAttempts | src/database/database.js:540-547 | k accepted attempts from zero leave the count at k |
| Throttle.SixthAttemptRefused | src/database/database.js:540-546 | the sixth attempt in a row without a timer firing is refused with 429 |
| Throttle.TimersDrain | src/database/database.js:548-553 | once every armed timer of an e-mail has fired, its count is back to 0 |
| Sessions.TokenSignature | src/database/database.js:443-449 | the key is dot-free, and it is "" when the token has fewer than three segments |
| Sessions.SignatureOfCompactToken | src/database/database.js:443-449 | a token made of three or more dot-free segments (header, payload, signature, …) is keyed by its third segment, the signature |
| Sessions.LoginUser | src/database/database.js:189-201 | after login the token reads as logged in; the table gains exactly the one row keyed by the signature |
| Sessions.LogoutUser | src/database/database.js:218-226 | after logout no token with the same signature is logged in; rows with other keys are kept with their multiplicities; other tokens' state is unchanged |
| Sessions.LogoutAbsentIsNoOp | src/database/database.js:218-226 | logging out a token without a row leaves the table as it was |
| Sessions.LoginThenLogout | src/database/database.js:189-226 | a login followed by a logout of the same token leaves it logged out and every other row in place |
| Sessions.UnsignedTokensCollide | src/database/database.js:443-449 | all tokens with fewer than three segments share the key "", so one login makes them all read as logged in |
| Users.BuildRoleRows | src/database/database.js:83-108 | one role row per requested role, in order: objectId 0 except for Franchisee, which gets its franchise's id; it stops at the first Franchisee whose franchise is unknown |
| Users.BuildRoleRowsComplete | src/database/database.js:83-108 | the role loop writes every row exactly when every Franchisee request names a known franchise |
| Users.AddUser | src/database/database.js:43-113 | the four checks in their order (400 e-mail taken, 400 no roles, 403 any Admin, 400 unknown role); none of them writes; once all four pass, it succeeds exactly when every Franchisee names a known franchise; on success the user row and one role row per role are added and the id is the next id; an unknown franchise fails with 500 after the user row and the earlier role rows are written |
| Users.AddUserKeepsValid | src/database/database.js:77-108 | whatever `addUser` does, every user row and role row keeps an id below the auto-increment counter |
| Users.AddSingleDiner | src/database/database.js:43-113 | a fresh e-mail with the single Diner role always succeeds, adding one user row and one Diner row with objectId 0 |
| Users.AddUserNeverGrantsAdmin | src/database/database.js:63-66 | no call of `addUser` adds an Admin role row |
| Users.FirstWithEmail | src/database/database.js:120-125 | the row read is the first one with that e-mail, or none |
| Users.RowsOf | src/database/database.js:131-135 | every role row selected belongs to the user |
| Users.RowsOfCounts | src/database/database.js:131-135 | the selected rows are exactly that user's rows, with their multiplicities |
| Users.RowsOfAppend | src/database/database.js:131-135 | selecting distributes over appended rows, so the rows keep their table order |
| Users.NoRowsOfFresh | src/database/database.js:131-135 | an id above every row's user id selects no rows |
| Users.ReportRole | src/database/database.js:136-138 | a reported role keeps its name, and its objectId is absent exactly when it is 0 |
| Users.GetUser | src/database/database.js:115-148 | 429 with the state unchanged once 5 attempts are counted; otherwise every failure is 401 "Invalid credentials" and the attempt stays counted; success exactly when the e-mail exists and the password compares; success deletes the counter and reports the user's roles |
| Users.SetFields | src/database/database.js:177-181 | only the target user's row changes, and only in the fields given |
| Users.AddedDinerLogsIn | src/database/database.js:115-148 | a user just added with a fresh e-mail and the Diner role passes `getUser` with a password bcrypt accepts, and is reported with exactly the Diner role |
| Users.UpdateUser | src/database/database.js:150-187 | an e-mail is checked before a password; once both checks pass, the target's row receives the given e-mail and the new hash (with neither field nothing is written); other users are untouched; the reply is `getUser` on the updated store |
| Users.UpdateThenGetUser | src/database/database.js:150-187 | after an update with a valid e-mail held by no other user and a valid password, the target's row holds both and the read-back `getUser` succeeds for the target |
| Users.GetOffset | src/database/database.js:439-441 | the offset is a whole number of pages: `page - 1` pages of `perPage` rows, and page 1 when none is given |
| Users.PagesAreAdjacent | src/database/database.js:439-441 | page k + 1 starts exactly `perPage` rows after page k, and page 1 starts at 0 |
| Metrics.IncrementMethodCount | src/metrics.js:68-72 | only the named method's counter rises, by one; any other name changes nothing |
| Metrics.ResetMethodCounts | src/metrics.js:56-62 | every counter reads 0 afterwards |
| Metrics.GetMethodCounts | src/metrics.js:64-66 | the snapshot has exactly the four method keys, each with its counter's value |
| Metrics.Record | src/metrics.js:80-93 | total rises by one, and exactly one of success and failure rises, as `ok` says; balance is kept |
| Metrics.RecordAllBalanced | src/metrics.js:173-186 | after any sequence of calls total = success + failure, and success grew by the number of successful calls |
| Metrics.TrackUserActivity | src/metrics.js:157-165 | the user joins or leaves the active set, and the count equals the set's size |
| Metrics.ActivityIdempotent | src/metrics.js:157-165 | marking a user active (or inactive) twice is the same as once |
| Metrics.AddByType | src/metrics.js:206-211 | each description's bucket rises by the number of items carrying that non-empty description (for descriptions that are ordinary keys; see Left out) |
| Metrics.TrackPizzaSales | src/metrics.js:195-216 | a non-array changes nothing; success adds the item count to sold and per-type counts; failure adds it to failures only |
| Metrics.CountEndpoint | src/metrics.js:22-27 | a path with a non-empty third segment raises that segment's counter and the total (both by 2 when the segment is "total"); other counters are unchanged |
| Metrics.CountApiEndpoint | src/metrics.js:23-27 | for `/api/<endpoint>/…` the endpoint's counter and the total each rise by one |
| Metrics.TrackRequest | src/metrics.js:15-35 | the request tracker counts the upper-cased method and the endpoint, and touches no other metric |
| Metrics.IncrementAuthenticationCount | src/metrics.js:80-93 | the authentication tally records one call, no other metric changes, and the consistency of all metrics is kept |
| Metrics.TrackPizzaOrder | src/metrics.js:173-186 | the order tally records one call, no other metric changes, and the consistency of all metrics is kept |
| Metrics.TrackActivity | src/metrics.js:157-165 | the active-user set changes as `trackUserActivity` says, no other metric changes, and the consistency of all metrics is kept |
| Metrics.TrackSales | src/metrics.js:195-216 | the pizza metrics change as `trackPizzaSales` says, no other metric changes, and the consistency of all metrics is kept |
| Auth.ValidateInput | src/routes/authRouter.js:66-91 | 400 "All fields are required" exactly when a field is falsy, then "Invalid email format" exactly when the e-mail fails the pattern, then the 8-character rule; on success the name has no `<>'"` |
| Auth.ValidateInputIdempotent | src/routes/authRouter.js:88 | validating an already validated body again changes nothing, unless the name was stripped to "" |
| Auth.ReadAuthToken | src/routes/authRouter.js:251-260 | a falsy header gives no token; otherwise there is a token exactly when the header holds a space, and the token holds none |
| Auth.BearerToken | src/routes/authRouter.js:251-256 | a header `<scheme> <token>[ …]` yields the token, whatever the scheme word is |
| Auth.SanitizeRole | src/routes/authRouter.js:123-126 | each role keeps its name, and a missing objectId becomes 0 |
| Auth.IdentityOf | src/routes/authRouter.js:120-127 | the identity carries the claims' id and e-mail and one sanitised role per claimed role |
| Auth.Authenticate | src/routes/authRouter.js:94-137 | as written: 401 "Authentication required" exactly when no token is read; 401 "Invalid token" exactly when verification or the claims check fails; otherwise the identity of the claims, never "Session expired" |
| Auth.AuthenticateChecked | src/routes/authRouter.js:114-117 | with the lookup awaited, an identity is granted only to a token whose signature has a session row, and "Session expired" is returned exactly when the as-written check would have granted a token with no row |
| Auth.RevokedTokenStillAccepted | src/routes/authRouter.js:115-117 | a logged-out token that still verifies is accepted as written and refused with "Session expired" once the lookup is awaited |
| Auth.InvalidTokenIsUniform | src/routes/authRouter.js:102-112 | every failure of the verify and claims stage gives the same 401 "Invalid token" |
| Auth.HasRole | src/routes/authRouter.js:128 | `isRole` is true exactly when some role entry has that name |
| Auth.IsRoleIgnoresObjectId | src/routes/authRouter.js:128 | changing a role entry's objectId never changes the role check |
| Auth.Register | src/routes/authRouter.js:140-163 | a validation error is returned as is, and any `addUser` error is 400 "Registration failed", with no session either way; a valid body with an unused e-mail always succeeds, adding one user row with the stripped name and one Diner row, and logs the new token in |
| Auth.RegisterThenLogin | src/routes/authRouter.js:140-190 | right after registering, the same body logs in (when bcrypt accepts the password), as the new user with exactly the Diner role, and both tokens are live |
| Auth.Login | src/routes/authRouter.js:166-190 | every `getUser` error (429 included) is 401 "Invalid credentials"; each validated attempt is counted once in the authentication tally; success logs the token in and marks the user active |
| Auth.ThrottledLoginLooksLikeBadPassword | src/routes/authRouter.js:184-188 | a throttled login answers exactly like a wrong password and leaves the throttle unchanged |
| Auth.Logout | src/routes/authRouter.js:193-204 | under either session check: a denied caller changes nothing; otherwise the user is marked inactive, no other metric changes, and the token's session rows are deleted |
| Auth.LogoutKeepsTokenUsable | src/routes/authRouter.js:193-204 | as written: after logout the same header is still authenticated as before and logs out again with "logout successful" |
| Auth.LogoutRevokes | src/routes/authRouter.js:115-117 | corrected half of the session-check finding: with the lookup awaited, after logout the same header is refused with "Session expired", by logout itself too |
| Auth.UpdateRoute | src/routes/authRouter.js:207-230 | under either session check: a denial or a validation error is returned unchanged; 403 "Unauthorized" exactly when the caller is neither the target nor an Admin, with nothing written; a write happens only for the target itself or an Admin; for an authorised valid request the throttle and store are `updateUser`'s, the target's row gets the body's e-mail and the new hash, and the reply is `updateUser`'s or 400 "Update failed"; no failure surfaces as 429 or 500 |
| Auth.UpdateAuthorization | src/routes/authRouter.js:217 | a caller may always update their own profile, and a caller without Admin may update nobody else's |
| Orders.AddMenuItem | src/routes/orderRouter.js:101-118 | 403 "unable to add menu item" exactly when the caller is not an Admin, with no write; otherwise one row is appended and the whole menu returned |
| Orders.SetChaos | src/routes/orderRouter.js:209-220 | an Admin sets the flag to exactly `state == "true"`; anyone else leaves the state unchanged; the reply is the flag's current value |
| Orders.SetChaosIdempotent | src/routes/orderRouter.js:215-217 | setting the flag twice to the same state is the same as once |
| Orders.OrdersOf | src/database/database.js:231-235 | every order listed belongs to the caller |
| Orders.OrdersOfCounts | src/database/database.js:231-235 | the caller's orders occur exactly as often as in the table, and no other order occurs |
| Orders.OrdersOfAppend | src/database/database.js:231-235 | selecting distributes over appended rows, so the orders keep their table order |
| Orders.Window | src/database/database.js:234 | `LIMIT offset, count` returns at most `count` rows, the exact slice when it fits, and nothing past the end |
| Orders.GetOrders | src/database/database.js:228-249 | a page is returned exactly when the offset is not negative; it holds at most `perPage` of the caller's own orders and echoes the page number |
| Orders.WindowsCover | src/database/database.js:234 | the windows of pages 1..k of a list, put together, are its first `k * perPage` elements (or all of it) |
| Orders.PagesCover | src/database/database.js:228-249 | reading pages 1..k lists the caller's orders from the first, each exactly once, in order |
| Orders.KnownPrefix | src/database/database.js:260-261 | the items before the first unknown menu id are those `getID` finds |
| Orders.AddDinerOrder | src/database/database.js:251-271 | the order row is always inserted with the next id; it succeeds exactly when every item names a menu row; otherwise it fails with "No ID found" and keeps the item rows written before the failing one |
| Orders.OutcomeStatus | src/routes/orderRouter.js:134-206 | only a fulfilled order is answered 200; every failure is a 500 |
| Orders.CreateOrder | src/routes/orderRouter.js:134-206 | the "Chaos monkey" failure happens exactly when the flag is on and the roll hits, with no order stored; every outcome except a failed store records one order and its items' sales, counted as a success exactly when the factory fulfilled the order |
| Orders.ChaosOffNeverFails | src/routes/orderRouter.js:142 | while the flag is off, no order fails on purpose and the roll has no effect |
| Orders.Handle | src/routes/orderRouter.js:88-220 | under either session check: `GET /menu` needs no authentication; every other route answers with the authentication denial and changes nothing; an authenticated request is answered by its route's handler: `PUT /menu` by `addMenuItem` (403 for a non-Admin), `GET /` by `getOrders` (500 when the database rejects the page), `POST /` by `createOrder`, `PUT /chaos/:state` with the flag, which an Admin sets to `state == "true"`; only an Admin's `/chaos` call changes the flag and only an Admin's `PUT /menu` changes the menu; ids stay unique and metrics balanced |
| Orders.AdminChaosThenOrderFails | src/routes/orderRouter.js:134-218 | through the router, an Admin's `PUT /chaos/true` reports the flag on, and the next order on a hitting roll fails with "Chaos monkey" |
| Orders.NonAdminRefused | src/routes/orderRouter.js:101-118 | through the router, a caller without Admin gets 403 on `PUT /menu` and the unchanged flag on `/chaos/:state`, with nothing changed |
| Orders.HandleIgnoresSessions | src/routes/authRouter.js:115-117 | as written, no order route's answer depends on the session table, so a logged-out token that still verifies is served as before |
| Orders.ChaosStaysOff | src/routes/orderRouter.js:209-217 | under either session check, unless some call that the check admits as an Admin goes to `/chaos/:state`, the flag stays off |
| Orders.RunCallsKeepsInvariants | src/routes/orderRouter.js:88-220 | over any sequence of requests, table ids stay unique and every tally stays balanced |
| Logging.StatusToLogLevel | src/logger.js:38-42 | "error" exactly for status ≥ 500, "warn" exactly for 400..499, "info" exactly below 400 |
| Logging.LevelMonotone | src/logger.js:38-42 | a higher status never gets a milder level |
| Logging.MatchIffField | src/logger.js:50-51 | as written, a match starts at i and ends at e exactly when the text between is `\"password\":`, spaces, `\"`, a value without `"`, `\"` |
| Logging.ScanFrom | src/logger.js:50-52 | the walk's pieces put back together give the original text |
| Logging.ScanFromValid | src/logger.js:50-52 | the walk masks at each position where a match starts and keeps one character elsewhere |
| Logging.ScanUnique | src/logger.js:50-52 | there is only one such walk of any text |
| Logging.Sanitize | src/logger.js:48-54 | the output is the walk rendered: each match replaced by `\"password\": \"*****\"`, everything else copied in order |
| Logging.RenderedAppend | src/logger.js:50-52 | the output of a walk is the outputs of its parts, in order |
| Logging.KeptTextUnchanged | src/logger.js:48-54 | anywhere in a walk, between and around masks, a run of kept characters appears in the output unchanged and in order, right after the output of everything before it |
| Logging.SanitizeKeepsTextBetweenMasks | src/logger.js:48-54 | in the sanitised text, whatever the walk keeps between, before or after the masks is the text's own characters at that place, unchanged and in order |
| Logging.NoFieldUnchanged | src/logger.js:48-54 | text in which no match starts is logged unchanged |
| Logging.FieldMasked | src/logger.js:48-54 | a password field at the start becomes the mask, and the walk continues right after it |
| Logging.QuoteFreePasswordMasked | src/logger.js:50-53 | as written, a password without `"` is masked whole |
| Logging.PasswordQuoteLeaks | src/logger.js:51 | as written, the password `ab"cd` is cut at its quote and `cd` stays in the log |
| Logging.EscapedPasswordMasked | src/logger.js:51 | with a value pattern that steps over escapes, every password's whole field is one match |

## Left out

- **Concurrency**: requests are handled one after another. Interleaving of asynchronous requests on Node's event loop is not modelled.
- **I/O**: MySQL connections, schema creation, `initializeDatabase`, and the franchise and store CRUD queries are left out. The tables are modelled as sequences, and the model assumes rows come back in insertion order, since the queries have no `ORDER BY`.
- **Oracles**: `jwt.sign`, `jwt.verify` (HS256, one-hour maximum age) and `bcrypt.hash`/`bcrypt.compare` are parameters. Their cryptography and clock are not modelled.
- **Timing and logging calls**: latency tracking (`trackServiceLatency`, `trackPizzaCreationLatency`), `trackRevenue` (floating-point prices), CPU and memory sampling and metric shipping are left out. So are `Logger.log`, `httpLogger`, `sendLogToGrafana` and `nowString`. They are clocks, floating point and network I/O.
- **Factory call**: the request to the factory and `Math.random` are parameters (`reply`, `chaosRoll`). Prices of menu items and order items are floating point and are not modelled.
- **JSON body typing**: request bodies are typed. A non-string `name`, `email` or `password` and a non-array `items` or `roles` claim are not modelled. The exception is `roles` in `addUser`, where a non-array value is modelled.
- **String lengths**: `password.length` counts UTF-16 code units, while the model counts characters. The two differ for characters outside the Basic Multilingual Plane.
- Text.ToUpper: upper-cases ASCII letters only, because an HTTP method is an ASCII token.
- **Request counter keys**: `requests` and `pizzasByType` are plain objects. Keys that collide with `Object.prototype` members (`constructor`, `__proto__`, `toString`, …) are not modelled.
- Metrics.AddByType: treats every description as an ordinary key. In the source, an item described `__proto__` leaves `pizzasByType` unchanged (the assignment is ignored), and one described `constructor` or `toString` turns its bucket into a string, because the inherited member is read in place of 0.
- **Column collation**: `WHERE email = ?` in `addUser` and `getUser` and the `auth` table's token lookup are modelled as exact string equality, as is the throttle's `Map`. The schema is not modelled; under a case-insensitive collation `A@x.com` would log in as `a@x.com` while keeping its own throttle counter.
- **Unused throttle helpers**: `trackLoginAttempt`, `resetLoginAttempts` and the default-admin seeding in `src/database/database.js` are never called from the modelled routes and are left out.
- **Module-load defects**: the router exports an undefined `setAuthUser`.
- **Missing logger methods**: `src/logger.js` exports an instance of its class and defines neither `dbLogger`, `factoryLogger` nor `unhandledErrorLogger`. The service still calls them: `getMenu` calls `dbLogger` (`src/database/database.js:22`), `createOrder` calls `factoryLogger` (`src/routes/orderRouter.js:155`), and every `StatusCodeError` constructor runs `new Logger()` and then `unhandledErrorLogger` (`src/endpointHelper.js:5-6`). The model treats these calls as succeeding no-ops. As written, each status-coded error throws a `TypeError` before its status is set, so the default handler answers 500. That affects 400 "Email already exists", the throttle's 429, 400 "Invalid email format" and 403 "unable to add menu item". `GET /menu` fails too. Where a route catches the error (login, register, update), the answer the model gives is unchanged.
- Logging.EscapedPasswordMasked: is stated for passwords without control characters (below U+0020). Those get `\u`-style escapes, which the lemma's `TwiceEscaped` does not produce.
- Logging.Sanitize: starts from the serialised text. `JSON.stringify` of the log record is not modelled.
- **Order ids in responses**: `addMenuItem` returns the whole menu, as `getMenu` reads it back. The `id` that `addDinerOrder` returns is the auto-increment counter.
- **Numeric parameters**: `req.params.userId` and `req.query.page` are strings that the service coerces to numbers. The model takes integers, so `NaN` from a non-numeric parameter is not modelled. The page number is echoed as an integer rather than as the string received.
- **Database errors in `getOrders`**: a `LIMIT` clause the database rejects (negative offset or page size) is modelled as a 500 without its message, because the message comes from MySQL.

## Findings

| source | as written | input that shows it | evidently intended | confidence | as-written member | corrected member |
|---|---|---|---|---|---|---|
| src/routes/authRouter.js:115-117 | `DB.isLoggedIn(token)` is not awaited. A promise is always truthy, so "Session expired" is never returned and the session table is never consulted. | A token that was logged out with `DELETE /api/auth` but is still inside its one-hour lifetime is accepted on every authenticated route. | Await the lookup, and refuse a token whose signature has no session row with 401 "Session expired". | high; not executed | Auth.RevokedTokenStillAccepted | Auth.AuthenticateChecked |
| src/logger.js:51 | The value part `[^"]*\\"` stops at the first `"`. In the twice-serialised body, a quote inside the password appears as `\\\"`, so the match ends there. | The password `ab"cd` is logged as `\"password\": \"*****\"cd\"`, so the part after the quote leaks. | Mask the whole password value, stepping over the escape sequences of the serialised string. | medium; not executed | Logging.PasswordQuoteLeaks | Logging.EscapedPasswordMasked |

The authenticated routes (`Auth.Logout`, `Auth.UpdateRoute` and every order route except `GET /menu` in `Orders.Handle`) take the session check as a parameter. Under `NotAwaited` they behave as the code is written: `Auth.LogoutKeepsTokenUsable` and `Orders.HandleIgnoresSessions` state that logging out revokes nothing. Under `Awaited` they behave as corrected: `Auth.LogoutRevokes` states that a logged-out header is refused.
