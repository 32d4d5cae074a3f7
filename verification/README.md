# Blog platform core: account lockout, request authorization, blog derivations

This project models, in Dafny, the three pieces of sequential logic of a blog
platform's REST back end. It proves properties of each model.

- **Account security** (`backend/src/models/User.js`). The `isLocked` virtual is
  modelled, along with `incLoginAttempts`, `resetLoginAttempts`, the login step
  `findByCredentials` and the password-hash guard of the pre-save hook. The
  password-reset and e-mail-verification token generators are modelled too.
  Files: `user.dfy` and `lockout.dfy`. The second holds the properties of runs of
  login calls.
- **Request authorization** (`backend/src/middleware/auth.js`). The middlewares
  `protect`, `authorize`, `optionalAuth` and `checkOwnership` are modelled, with the
  shared header-or-cookie token extraction. File: `auth.dfy`.
- **Blog derivations** (`backend/src/models/Blog.js`). The pre-save hook is modelled:
  slug, read time, excerpt and publication date. So are the `likesCount` virtual,
  `toggleLike` and `incrementViews`. Files: `slug.dfy` and `blog.dfy`.
- Shared pieces. `text.dfy` gives JavaScript's string operations: `toLowerCase` on
  ASCII, regex character-class filtering, `replace(/R+/g, c)`, `split(/R+/)`,
  `split(c)`, `join` and `trim`. `hex.dfy` gives `Buffer.toString('hex')`.
  `common.dfy` gives `Option`, ids and millisecond times.

Every operation is a pure function. Time arrives as `now`, in milliseconds. The
outside world arrives as parameters:

- bcrypt's hash and compare are the function parameters `bcrypt` and `compare`.
- SHA-256 is the function parameter `sha256`.
- `jwt.verify` is the function parameter `verify`. It returns the claims, or `None`
  when the library throws (bad signature, malformed token, or the RFC 7519
  section 4.1.4 `exp` check).
- The bytes from `crypto.randomBytes` are the parameter `entropy`.
- Database lookups are `Lookup` values: `Found`, `NotFound` or `Threw`.

Users are kept in a map keyed by their stored e-mail address. The schema stores
addresses lower-cased and unique. A Dafny `char` is a Unicode scalar value, while a
JavaScript string element is a UTF-16 code unit. The two agree on text within the
Basic Multilingual Plane, and lengths here are counted in scalar values (see
"## Left out").

The main results:

- From a clean account, five wrong passwords lock it for two hours from the fifth
  attempt. Any call inside that window, even with the right password, is refused as
  locked and changes nothing.
- Every run of logins keeps the invariant "a lock is set exactly when the count has
  reached 5".
- Unknown, inactive and suspended addresses fail exactly like a wrong password.
- `optionalAuth` is `protect` with every rejection turned into passing the request on.
- Behind `protect`, the role `authorize` judges is the stored one. A demoted author's
  still-valid token is refused with 403.
- The slug uses only `[a-z0-9-]`, never contains `--`, is idempotent, and keeps the
  title's letters and digits in order. The test's title `New Test Blog` gives
  `new-test-blog`.
- `toggleLike` flips membership and leaves others' likes in order. For a user who
  had not liked the post, liking then unliking restores the list. With one like per
  user, `likesCount` moves by exactly one.

### Behaviour of the code that the model keeps

- A failed attempt after a strictly expired lock (`lockUntil < now`) drops the lock and
  restarts the count at 1 (User.js:169-173). Otherwise the count grows by one, and a lock
  is set only on an account that is not currently locked, so an active lock is never
  extended (User.js:176-183).
- In the model, each login call reads the clock once. When that reading equals
  `lockUntil`, the account is not locked (User.js:112), yet the lock has not strictly
  expired either (User.js:169), so a wrong password counts on and re-locks at once
  (`Lockout.WrongPasswordAtLockInstant`). The code reads `Date.now()` separately at
  User.js:206 (through `isLocked`), 169, 179 (through `isLocked` again) and 180, with the
  awaited bcrypt comparison at User.js:210 between the first read and the rest. There,
  the re-lock happens only when the reads at 206 and 169 both return exactly `lockUntil`.
  Otherwise the later read lies past it, and the count restarts at 1 with no lock.
- A lock is removed only by a failed attempt after it has lapsed (User.js:169-173) or by
  a successful login (User.js:187-192). Reading `isLocked` changes nothing (User.js:111-113).
- `authorize` tests membership of the role in the listed set and nothing else
  (auth.js:76-81). No role ranks above another.
- In `protect`, every call that can throw sits inside the inner `try`, which answers 401
  (auth.js:27-56). `checkOwnership` answers 500 for a failed lookup, and also for a
  request with no attached user, because reading `req.user.role` throws
  (auth.js:139, 154-159).
- The slug code's comment at Blog.js:126 says `.trim('-')` removes leading and trailing
  hyphens. `String.prototype.trim` ignores its argument, so hyphens at either end remain
  (`Slug.OuterHyphensSurvive`).

## Model

| member | source | states |
|---|---|---|
| UserModel.IsLocked | backend/src/models/User.js:111-113 | the `isLocked` virtual: a lock time is recorded and lies strictly after `now` (its properties are stated by the next row) |
| UserModel.LockIsInterval | backend/src/models/User.js:111-113 | with a lock time L set, the account is locked at `now` exactly when `now < L`; at `now == L` it is not locked |
| UserModel.IncLoginAttempts | backend/src/models/User.js:167-184 | a failed attempt after a strictly expired lock drops the lock and sets the count to 1; otherwise the count grows by exactly 1; an active lock is never changed; an unlocked account whose count reaches 5 gets a lock at `now + 2h`; below 5 the lock field is left as it was; no other field changes |
| UserModel.ResetLoginAttempts | backend/src/models/User.js:187-192 | the count becomes 0, `lastLogin` becomes `now`, the account is unlocked at every time, and no other field changes |
| UserModel.HashPasswordOnSave | backend/src/models/User.js:116-124 | only the password field can change; it is replaced by `bcrypt(password, salt)` when modified and kept as it is otherwise, so a stored hash is never hashed again |
| UserModel.NewSecret | backend/src/models/User.js:141-147 | the handed-out token is the hex text of the random bytes and reads back as them; the stored digest is the SHA-256 of that token; the expiry is `now` plus the lifetime |
| UserModel.GetResetPasswordToken | backend/src/models/User.js:139-150 | returns a 40-hex-digit token encoding the 20 random bytes; stores its SHA-256 with expiry `now + 600000` ms; changes nothing else |
| UserModel.GetEmailVerificationToken | backend/src/models/User.js:153-164 | returns a 40-hex-digit token encoding the 20 random bytes; stores its SHA-256 with expiry `now + 86400000` ms; changes nothing else |
| UserModel.ResetTokenWindow | backend/src/models/User.js:144-147 | the stored digest is the SHA-256 of the issued token and the expiry is issue time plus ten minutes; so under `SecretAccepts`, the assumed redemption rule (digest matches, `now` before expiry), the token works exactly during those ten minutes |
| UserModel.VerificationTokenWindow | backend/src/models/User.js:158-161 | the stored digest is the SHA-256 of the issued token and the expiry is issue time plus twenty-four hours; under the same assumed rule the token works exactly during that day |
| UserModel.ErrorMessage | backend/src/models/User.js:201-214 | a locked account's error text differs from the generic "Invalid credentials", which every other failure shares |
| UserModel.FindActiveByEmail | backend/src/models/User.js:196-199 | finds a user exactly when the lower-cased address is stored with status active |
| UserModel.FindByCredentials | backend/src/models/User.js:195-221 | unknown or non-active address: "Invalid credentials" with no change; active and locked: the distinct lock error with no change; wrong password: "Invalid credentials" plus the failed-attempt update; right password: the loaded user plus the reset; no other record changes |
| UserModel.LockedIgnoresPassword | backend/src/models/User.js:205-208 | while locked, the result is the same for every password and every comparison outcome, and the store is left alone |
| UserModel.NoEnumeration | backend/src/models/User.js:196-203 | a missing address and an inactive or suspended account give the same "Invalid credentials" result with the store unchanged |
| Lockout.IncKeepsLockConsistent | backend/src/models/User.js:167-184 | a failed attempt keeps "lock set exactly when count is at least 5" |
| Lockout.LoginAllKeepsLockConsistent | backend/src/models/User.js:195-221 | any sequence of login calls keeps that invariant for every stored user |
| Lockout.WrongPasswordsAccumulate | backend/src/models/User.js:176-183 | from an active, unlocked account, k wrong passwords (count + k at most 5) all fail generically and raise the count by k; a lock of two hours after the last call is set exactly when the count reaches 5 |
| Lockout.FiveFailuresLock | backend/src/models/User.js:178-208 | from a clean account, five wrong passwords give count 5 and a lock two hours after the fifth; a sixth call inside the window fails as locked even with the right password |
| Lockout.FewerFailuresDoNotLock | backend/src/models/User.js:178-181 | fewer than five wrong passwords from a clean account leave it unlocked, with the count equal to the number of failures |
| Lockout.LockedWindowIsInert | backend/src/models/User.js:205-208 | every call arriving before the lock time fails as locked and the store does not change |
| Lockout.CorrectPasswordAfterLock | backend/src/models/User.js:217-220 | from the lock time on, the right password logs in, clears count and lock, and stamps `lastLogin` |
| Lockout.WrongPasswordAfterLapse | backend/src/models/User.js:169-174 | after a lock has strictly lapsed, a wrong password clears it and restarts the count at 1 |
| Lockout.WrongPasswordAtLockInstant | backend/src/models/User.js:169-183 | with one clock reading per call equal to the lock time, a wrong password keeps counting and sets a new two-hour lock (a property of the one-clock model; see "## Left out" on the separate clock reads) |
| Lockout.SavedPasswordLogsIn | backend/src/models/User.js:116-128 | a password hashed by the pre-save hook logs in afterwards, if bcrypt's compare accepts its own hash |
| Auth.RoleNotAuthorized | backend/src/middleware/auth.js:79 | the 403 text `User role '<role>' is not authorized to access this route`, with 'user' for the regular role |
| Auth.RoleNotAuthorizedNamesRole | backend/src/middleware/auth.js:76-81 | the role-denial message determines the role: different roles give different messages |
| Auth.IssueClaims | backend/src/models/User.js:132-136 | the signed payload holds the user's id and role at signing time |
| Auth.SecondField | backend/src/middleware/auth.js:12 | a second space-separated field exists exactly when the header contains a space; it is the text after the first space, up to the next space or the end |
| Auth.ExtractToken | backend/src/middleware/auth.js:10-17 | a header starting with "Bearer" decides alone, giving its second field; the cookie is read only without such a header; an empty token counts as none |
| Auth.BearerRoundTrip | backend/src/middleware/auth.js:11-13 | the header `Bearer <t>` yields exactly `t` for a non-empty, space-free `t`, whatever the cookie |
| Auth.BareBearerHidesCookie | backend/src/middleware/auth.js:11-17 | a header of just "Bearer" yields no token, even when a cookie token is present |
| Auth.HeaderTakesPrecedence | backend/src/middleware/auth.js:92-98 | with a Bearer header, changing the cookie never changes the extracted token |
| Auth.Protect | backend/src/middleware/auth.js:19-56 | passes exactly when a token exists, verifies, and names a found, active user; then that loaded user is attached; every rejection is 401, and "Account is not active" is given exactly for a found, non-active user |
| Auth.Authorize | backend/src/middleware/auth.js:67-84 | passes exactly when a user is attached whose role is in the set, and leaves the request unchanged; no user gives 401; a role outside the set gives 403 naming it |
| Auth.OptionalAuth | backend/src/middleware/auth.js:87-122 | always passes on; the only possible change is an attached active user |
| Auth.OptionalAuthIsLenientProtect | backend/src/middleware/auth.js:100-117 | when `protect` passes, `optionalAuth` passes with the same user attached; when `protect` rejects, `optionalAuth` passes the request unchanged |
| Auth.ProtectedOwnership | backend/src/middleware/auth.js:139-152 | behind `protect`, a `protect` rejection is passed through unchanged; `checkOwnership` then answers 500 only for a failed lookup, and passes exactly when the loaded user is an admin, the resource records no author, or the user is its author |
| Auth.CheckOwnership | backend/src/middleware/auth.js:125-161 | 404 is given exactly when the resource is missing, whatever the user; a failed lookup is 500, and so is a found resource with no attached user (reading its role throws); it passes exactly for an admin, an unrecorded author, or the author; a pass attaches the resource; 403 exactly for a non-admin who is not the recorded author |
| Auth.ProtectedRoute | backend/src/routes/blogs.js:215 | the chain `protect, authorize(...roles)`: `authorize` runs only on a request `protect` passed on (properties in the next rows) |
| Auth.ProtectedRouteUsesStoredRole | backend/src/routes/blogs.js:215 | behind `protect`, `authorize` never answers 401, and its decision and 403 message depend on the stored role |
| Auth.RoleClaimIgnored | backend/src/middleware/auth.js:29-32 | two tokens naming the same user id get the same outcome, whatever roles they claim |
| Auth.DemotedAuthorRefused | backend/src/routes/blogs.js:215 | a token signed while its user was an author, presented after demotion to 'user', is refused by `protect, authorize('admin','author')` with 403 naming 'user' |
| Auth.NoCredentialsRefused | backend/src/middleware/auth.js:19-25 | no header and no cookie gives 401 "Not authorized to access this route" |
| Text.ToLower | backend/src/models/Blog.js:121 | `toLowerCase` on ASCII: same length, each upper-case letter mapped to its lower-case form, every other character kept |
| Text.Filter | backend/src/models/Blog.js:123 | `replace(/[^a-z0-9 -]/g, '')`: only kept characters remain, all taken from the input (its full meaning is pinned by the next three rows) |
| Text.FilterMultiset | backend/src/models/Blog.js:123 | every kept character occurs in the result exactly as often as in the input, and every other character not at all |
| Text.FilterAppend | backend/src/models/Blog.js:123 | filtering distributes over concatenation, so kept characters stay in their order |
| Text.FilterKeepsAll | backend/src/models/Blog.js:123 | a string made only of kept characters is left as it is |
| Text.ReplaceRuns | backend/src/models/Blog.js:124-125 | `replace(/R+/g, c)`: never longer than the input, empty exactly when the input is, and a first character outside R survives |
| Text.FilterReplaceRuns | backend/src/models/Blog.js:124-125 | the characters outside R survive, in order and all of them: `replace` changes nothing a filter for them can see |
| Text.ReplaceRunsCountsRuns | backend/src/models/Blog.js:124-125 | when `c` is in R, each maximal run leaves exactly one run character behind |
| Text.ReplaceRunsCharset | backend/src/models/Blog.js:124-125 | the result holds only `c` and characters of the input outside R |
| Text.ReplaceRunsNoAdjacent | backend/src/models/Blog.js:125 | when `c` is itself in R, no two characters of R are left side by side |
| Text.Trim | backend/src/models/Blog.js:126 | `trim()`: the result is a contiguous slice of the input that neither starts nor ends with whitespace, and everything cut off on either side is whitespace |
| Text.Split | backend/src/models/Blog.js:131 | `split(/\s+/)`: exactly one more piece than there are maximal whitespace runs, and no piece holds whitespace |
| Text.SplitOnChar | backend/src/middleware/auth.js:12 | `split(' ')`: at least one piece, and no piece holds the separator |
| Text.SplitOnCharSecondPiece | backend/src/middleware/auth.js:12 | with the separator present, piece 1 is the text after the first separator up to the next one or the end |
| Text.JoinSplitOnChar | backend/src/middleware/auth.js:12 | joining the pieces of `split(c)` with `c` gives back the original header |
| Text.JoinSplitIsReplaceRuns | backend/src/models/Blog.js:124 | `replace(/\s+/g, '-')` equals `split(/\s+/).join('-')` |
| Hex.Encode | backend/src/models/User.js:141 | `toString('hex')`: two lower-case hex digits per byte |
| Hex.DecodeEncode | backend/src/models/User.js:141 | the hex text of random bytes reads back as those bytes |
| Hex.EncodeInjective | backend/src/models/User.js:141 | distinct random bytes give distinct tokens |
| Slug.Slugify | backend/src/models/Blog.js:121-126 | the slug has only `[a-z0-9-]`, never two hyphens in a row, and is no longer than the title |
| Slug.SlugifyIdempotent | backend/src/models/Blog.js:121-126 | slugging a slug returns it unchanged |
| Slug.SlugifyKeepsAlnum | backend/src/models/Blog.js:121-125 | the slug's letters and digits are exactly those of the lower-cased title, in order |
| Slug.SlugOfWords | backend/src/models/Blog.js:121-126 | letter-and-digit words separated by single spaces give the lower-cased words joined by single hyphens |
| Slug.SlugOfNewTestBlog | backend/tests/blogs.test.js:162 | `New Test Blog` gives `new-test-blog` |
| Slug.TabIsDeleted | backend/src/models/Blog.js:123-124 | a tab is deleted by the character filter, not turned into a hyphen: `a<TAB>b` gives `ab` |
| Slug.OuterHyphensSurvive | backend/src/models/Blog.js:126 | `trim('-')` leaves the outer hyphens: `-Go-` gives `-go-` |
| BlogModel.WordCount | backend/src/models/Blog.js:131 | the word count of any content, even empty, is at least 1 |
| BlogModel.WordCountCountsRuns | backend/src/models/Blog.js:131 | the word count is 1 plus the number of maximal whitespace runs |
| BlogModel.ReadTime | backend/src/models/Blog.js:130-133 | the read time is the least whole number of minutes covering the words at 200 per minute, and is at least 1 |
| BlogModel.GeneratedExcerpt | backend/src/models/Blog.js:137 | the excerpt is the first min(200, length) characters of the content plus "...", and fits the 300-character schema limit |
| BlogModel.PreSave | backend/src/models/Blog.js:119-146 | only slug, read time, excerpt and publication date can change; each changes only when its own trigger holds; a modified title gives exactly its slug; an existing excerpt and an existing publication date are never overwritten; a new date is `now` |
| BlogModel.PreSaveIdempotent | backend/src/models/Blog.js:119-146 | saving twice with the same modified paths gives the same document as saving once, at any later time |
| BlogModel.LikesCount | backend/src/models/Blog.js:114-116 | the `likesCount` virtual: the number of entries in the like list (its behaviour under toggling is in `ToggleLikeCount`) |
| BlogModel.OthersLikes | backend/src/models/Blog.js:180 | a like is kept exactly when it is in the list and given by someone else; the result is the whole list when the user had none |
| BlogModel.OthersLikesConcat | backend/src/models/Blog.js:180 | the filter distributes over concatenation, so kept likes keep their order |
| BlogModel.ToggleLike | backend/src/models/Blog.js:176-186 | whether the user has liked flips; others' likes are unchanged and in order; an absent user gains exactly one like at the end; a present user keeps none; nothing outside the likes changes |
| BlogModel.ToggleTwiceRestores | backend/src/models/Blog.js:176-186 | for a user who had not liked the post, liking then unliking restores the like list exactly |
| BlogModel.ToggleLikeCount | backend/src/models/Blog.js:114-116 | with one like per user, toggling keeps that property and moves `likesCount` by exactly 1, up or down |
| BlogModel.IncrementViews | backend/src/models/Blog.js:170-173 | views grow by exactly 1 and nothing else changes |
| BlogModel.SaveAfterCountersChangesNothing | backend/src/models/Blog.js:119-146 | the save after a view bump or a like toggle derives nothing, because only that path is modified |

## Left out

- Cryptography is left out: bcrypt's salt generation (cost 12) and hashing, `bcrypt.compare`, SHA-256, JWT signing and verification, and `crypto.randomBytes`. These are foreign library calls, so they are parameters. The claim that two hashes of one password differ needs a random salt, which is outside the model.
- The `getSignedJwtToken` expiry (`JWT_EXPIRE`, default 7 days) is not modelled. Expiry is enforced inside the verification library, and `verify` returning `None` covers it.
- Concurrency is left out. So is the atomicity of `updateOne` with `$inc`, `$set` and `$unset`. Each login call is one step on the store, taken with a single `now`. The source reads `Date.now()` up to four times per failed login: at User.js:206 through `isLocked`, at 169, at 179 through `isLocked`, and at 180. The awaited bcrypt comparison at User.js:210 runs between the first read and the others. The model's single `now` therefore also covers the case where all reads agree, which is the only case in which `Lockout.WrongPasswordAtLockInstant` describes the code.
- Text.ReplaceRuns: the contract does not say where each `c` falls among the kept characters. It pins which characters survive and in what order (`FilterReplaceRuns`), how many run characters remain (`ReplaceRunsCountsRuns`), the characters it may introduce, that no run characters are adjacent, and the agreement with `split`/`join`. Where each `c` falls is fixed by the body alone.
- Text.Split: the contract gives the number of pieces and says that no piece holds a run character. The contents of each piece are fixed only by the body and, through `JoinSplitIsReplaceRuns`, by `replace`. The read time uses only the count.
- `findByCredentials` returns the user as loaded, before the reset. `updateOne` does not change the in-memory document. The model keeps this and returns the updated store separately.
- Logging (`logger.error`, `logger.debug`) and the JSON response bodies are left out. A rejection carries only its status and error text.
- The outer `catch` of `protect` (500 "Server error") and of `optionalAuth` is not modelled. Every call that can throw is already inside the inner `try`.
- Mongoose schema validators and setters are left out. These include the e-mail regex, length limits, enums, the `trim` setter on the title and the `lowercase` setter on e-mail. The model takes field values as stored.
- `Blog.getPublished`, `Blog.search` and the `commentsCount` virtual are left out, because they are database queries.
- `toLowerCase` is modelled for ASCII letters only; other characters pass unchanged. This affects the slug (Blog.js:121) and the login lookup (User.js:197). It differs from JavaScript for non-ASCII upper-case letters. It also differs for the few non-ASCII characters whose lower case is ASCII: an address typed with U+212A KELVIN SIGN finds the matching `k…` account in the code but not in the model.
- BlogModel.GeneratedExcerpt: strings are sequences of Unicode scalar values, not UTF-16 code units. For text outside the Basic Multilingual Plane, lengths and the `substring(0, 200)` cut point differ from JavaScript. The code can cut a surrogate pair in half, and the model cannot represent the result. The same holds for the other string lengths in the model.
- UserModel.SecretAccepts: the rule for redeeming a reset or verification token is assumed, not modelled from code. The code only stores the digest and expiry (User.js:144-147, 158-161). The controllers that would redeem tokens are stubs. `ResetTokenWindow` and `VerificationTokenWindow` hold under that assumed rule.
- `Math.ceil(wordCount / 200)` is modelled as exact integer ceiling division. Floating-point rounding could differ only for word counts near 2^53, far beyond any JavaScript string length.
- The `.save()` calls are not modelled as persistence. They return promises and write to the database. Their effect through the pre-save hook is covered.
- Controllers, route wiring, the server, logging setup, the API documentation and the front end are left out. They are stubs or plumbing.
