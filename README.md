# SweetShop inventory API — a Dafny model of its request rules

SweetShop is a small HTTP/JSON API for a sweet shop. Users sign up, log in
and get a 24-hour bearer token. Any signed-in user may buy a sweet. Only the
admin may add, change, delete or restock sweets. This project models the
guard-and-update rules inside the route handlers, the token middleware and
the sweet schema. It proves what each request does to the stores and what it
answers.

Each request is one atomic step on the state:

- The **sweet collection** is a class `SweetRoutes.SweetStore` with a field
  `sweets: map<SweetId, Sweet>`. Its handlers are methods that reassign that
  field. Fresh ids come from a counter, which stands for the store's object
  ids.
- The **user collection** is a class `UserRoutes.UserStore` with a field
  `users: seq<User>`. Users are never deleted, so a user's id is its
  position. `findOne` returns the first match in insertion order.
- The **guards** are functions that return the failure a request gets, in
  the handler's order: `AdminCheck`, `CheckNewSweet`, `SignupRejection`,
  `PasswordChangeRejection`. So are the read-only handlers (`Login`,
  `Profile`, `Search`), the middleware (`Authenticate`) and the schema
  (`SweetValid`, `Trim`, `Document`).

Modules: `Common` (optional fields, statuses, replies), `Jwt` (jwt.js),
`SweetSchema` (models/sweets.js), `SweetRoutes` (routes/sweetsRoutes.js),
`UserRoutes` (routes/userRoutes.js), `Scenario` (two client methods that
use only the stores' contracts).

Modelling choices that follow the code and its libraries:

- **Save validates the whole record.** The document store validates every
  loaded field on save, not only the changed one. So a purchase or restock
  of a record fails at save, and gets 500 with the store unchanged, in two
  cases: the record was left invalid by an update (for example a negative
  price), or the restock makes the quantity negative.
- **Update skips the validators but not the unique index.** Update writes
  the body as it is: no `required` or `min` check runs (see
  `PatchBypassesValidators`). The `trim` setter still runs. The unique
  index on `name` is enforced by the database itself, so an update that
  would duplicate a name fails with a duplicate-key error (500). Update
  therefore keeps names unique but not `price ≥ 0` or `quantity ≥ 0`.
- **Empty price bounds are absent; `'0'` is a bound.** Search parameters
  arrive as strings. An empty one is falsy and so absent. `minPrice=0` is
  the non-empty string `'0'`, so it is a filter: it excludes records whose
  price an update made negative.
- **Create's save never fails validation.** A request that passes the create
  checks always satisfies the schema (`CheckNewSweet`'s last ensures).
  So the handler's `ValidationError` branch cannot be reached here.
- **The scheme word is not checked.** The token is the second space-separated
  piece of the `Authorization` header, and the first word may be anything.
  Clients conventionally send `Bearer <token>`, but nothing requires it.
  Two spaces after the scheme leave an empty second piece, which
  means no token.
- **Status codes follow the code.** A duplicate email, a duplicate sweet
  name and a second admin all get 400, as in the code, not 409 Conflict.
- **Restock amount.** The amount is `Number(amount || 0)`: an absent amount
  adds 0. A negative amount is accepted as long as the result stays ≥ 0.

## Model

| member | source | states |
|---|---|---|
| `Jwt.IssuedTokenLifetime` | jwt.js:6-8 | An issued token carries exactly the given payload and verifies to it for 86400 s after issue, and is expired from then on |
| `Jwt.Split` | jwt.js:13 | `split(' ')` yields at least one piece, and no piece contains a space |
| `Jwt.SplitJoin` | jwt.js:13 | Joining the pieces with single spaces gives the header back (nothing is lost by splitting) |
| `Jwt.SplitAfterWord` | jwt.js:13 | A space-free first word followed by a space becomes the first piece on its own |
| `Jwt.SplitWord` | jwt.js:13 | A space-free string splits into itself alone |
| `Jwt.ExtractToken` | jwt.js:13-17 | An extracted token is non-empty, has no space, and exists only when a header does |
| `Jwt.TokenAfterAnyScheme` | jwt.js:13 | `<any scheme word> <token>` yields that token: the first word is not checked |
| `Jwt.NoSpaceNoToken` | jwt.js:13-17 | A header without a space yields no token |
| `Jwt.DoubleSpaceNoToken` | jwt.js:13-17 | Two spaces after the scheme leave an empty second piece, so no token |
| `Jwt.TokenIgnoresLaterPieces` | jwt.js:13 | `<scheme> <token> <more>` yields that token: pieces after the second are ignored |
| `Jwt.TrailingSpaceNoToken` | jwt.js:13-17 | `<scheme> ` with a trailing space leaves an empty second piece, so no token |
| `Jwt.Authenticate` | jwt.js:11-30 | No token gives 401 "Access denied. No token provided." (if and only if); an expired token gives 401 "Token expired"; every other failure gives 401 "Invalid token"; it proceeds exactly when verification succeeds, with the decoded claims as the user |
| `Jwt.IssuedTokenAuthenticates` | jwt.js:6-23 | A token issued for a payload at time `t`, sent as `<scheme> <token>`, passes with that payload while `now < t + 86400` and gets "Token expired" from then on |
| `SweetSchema.TrimStart` | models/sweets.js:25-28 | Removes only leading white space and leaves a suffix that does not start with white space |
| `SweetSchema.TrimEnd` | models/sweets.js:25-28 | Removes only trailing white space and leaves a prefix that does not end with white space |
| `SweetSchema.Trim` | models/sweets.js:25-28 | The result is the middle of the input between white-space ends, and neither of its ends is white space |
| `SweetSchema.TrimKeepsTrimmed` | models/sweets.js:25-28 | A string with no white space at either end is left as it is |
| `SweetSchema.TrimIdempotent` | models/sweets.js:25-28 | Trimming twice equals trimming once |
| `SweetSchema.DocumentFields` | models/sweets.js:3-33 | A new record keeps the given fields, stores `Trim` of the given description (and none when none is given) and `''` for a missing image, and passes the validators exactly when name and category are non-empty and price and quantity are ≥ 0 |
| `SweetRoutes.AdminCheck` | routes/sweetsRoutes.js:7-12 | Passes if and only if the role is exactly `'admin'`; otherwise 403 "Access denied: Admins only" |
| `SweetRoutes.AdminRoute` | routes/sweetsRoutes.js:15 | Authentication failures pass through unchanged; an authenticated non-admin gets 403; only an admin proceeds |
| `SweetRoutes.AdminRouteRefusals` | routes/sweetsRoutes.js:7-15 | An admin-only route gets 401 without a token and 403 with a valid non-admin token |
| `SweetRoutes.CheckNewSweet` | routes/sweetsRoutes.js:19-25 | Missing name/category (falsy) or price/quantity (undefined) give the "required" 400 first. Then a negative price or quantity gives the "negative" 400. It passes if and only if all four are present and both numbers are ≥ 0, and what passes satisfies the schema |
| `SweetRoutes.ZeroPriceAndQuantityAccepted` | routes/sweetsRoutes.js:19-25 | Price 0 and quantity 0 pass the create checks |
| `SweetRoutes.ApplyPatch` | routes/sweetsRoutes.js:114 | Each field present in the body overwrites the record's (description trimmed); every absent field keeps its value |
| `SweetRoutes.EmptyPatchKeepsRecord` | routes/sweetsRoutes.js:114 | An empty body changes nothing |
| `SweetRoutes.PatchBypassesValidators` | routes/sweetsRoutes.js:114 | A body with a negative price or quantity yields a record the schema would refuse |
| `SweetRoutes.LowerUpper` | routes/sweetsRoutes.js:68-69 | Upper-casing a string does not change its lower case, so both case-insensitive sides see the same text |
| `SweetRoutes.MatchIgnoresCase` | routes/sweetsRoutes.js:68-69 | With the `'i'` option, upper-casing the record's field or the needle never changes whether they match, for all strings |
| `SweetRoutes.Search` | routes/sweetsRoutes.js:63-76 | Returns exactly the records, unchanged, that meet every supplied filter: name and category as case-insensitive substrings, and `minPrice ≤ price ≤ maxPrice` |
| `SweetRoutes.SearchWithoutFilters` | routes/sweetsRoutes.js:51-76 | With no filter the search returns the whole collection, as the list route does |
| `SweetRoutes.SearchPriceRange` | routes/sweetsRoutes.js:70-74 | A `minPrice`/`maxPrice` search returns exactly the records priced in the inclusive range |
| `SweetRoutes.SearchNarrows` | routes/sweetsRoutes.js:66-74 | Adding filters never adds results |
| `SweetRoutes.ChocFindsChocolateBar` | routes/sweetsRoutes.js:68 | The name filter `choc` matches "Chocolate Bar" |
| `SweetRoutes.SweetStore.Create` | routes/sweetsRoutes.js:15-47 | Checks run in order: 403 for a non-admin, then the create checks, then 400 for a taken name; each failure leaves the store unchanged. It succeeds if and only if all pass. Then exactly one record is added under a fresh id, the record satisfies the schema, the reply is 201 with it, and table validity is kept |
| `SweetRoutes.SweetStore.Purchase` | routes/sweetsRoutes.js:86-103 | 404 for an absent id, then 400 "Out of stock" for quantity ≤ 0, then 500 when save would fail validation; each failure leaves the store unchanged. Success lowers only that record's quantity by 1, and `remaining` is the new quantity (≥ 0). A valid in-stock record always succeeds, and table validity is kept |
| `SweetRoutes.SweetStore.Restock` | routes/sweetsRoutes.js:145-164 | 403 for a non-admin, then 404 for an absent id, then 500 when save would fail validation; each failure leaves the store unchanged. Success adds `amount` (0 if absent) to that record only and reports the new quantity. An absent amount leaves the store as it was, and table validity is kept |
| `SweetRoutes.SweetStore.Update` | routes/sweetsRoutes.js:107-122 | 403 for a non-admin, then 404 for an absent id, then 500 for a name another record has; each failure leaves the store unchanged. Success stores the patched record under that id only and returns it. Names stay unique |
| `SweetRoutes.SweetStore.Delete` | routes/sweetsRoutes.js:126-141 | 403 for a non-admin, then 404 for an absent id, store unchanged; otherwise exactly that id is removed and table validity is kept |
| `UserRoutes.FindByEmail` | routes/userRoutes.js:20 | Returns the first user with that email, or none when no user has it |
| `UserRoutes.SignupRejection` | routes/userRoutes.js:10-31 | In order: 400 for a missing field, 400 for a password under 6 characters, 400 "User already exists with this email" for a taken email, 400 "Admin user already exists" for an admin request when an admin exists. It passes if and only if none of these holds |
| `UserRoutes.SecondAdminRefused` | routes/userRoutes.js:26-31 | Once an admin exists, every signup asking for `'admin'` is refused |
| `UserRoutes.SignupKeepsInvariants` | routes/userRoutes.js:20-34 | A signup that passes its checks keeps emails unique and leaves at most one admin |
| `UserRoutes.FindAppended` | routes/userRoutes.js:20-23 | An email new to the collection finds the user just added |
| `UserRoutes.FindIgnoresPassword` | routes/userRoutes.js:64 | Changing a password does not change which user an email finds |
| `UserRoutes.FindOwnEmail` | routes/userRoutes.js:64 | With unique emails, a user's email finds that user |
| `UserRoutes.Login` | routes/userRoutes.js:56-91 | 400 without both fields. It succeeds if and only if the first user with the email exists and the password matches; otherwise the reply is 401 "Invalid email or password". A success carries a token for that user's id and role and the user without password |
| `UserRoutes.LoginFailuresIndistinguishable` | routes/userRoutes.js:64-72 | An unknown email and a wrong password get the identical 401 reply |
| `UserRoutes.Profile` | routes/userRoutes.js:94-103 | 404 if and only if the id is absent; otherwise the user's fields without the password |
| `UserRoutes.ProfileIgnoresPassword` | routes/userRoutes.js:96 | The profile reveals nothing of the password: changing one gives identical profiles |
| `UserRoutes.PasswordChangeRejection` | routes/userRoutes.js:111-124 | In order: 400 for a missing field, 400 for a new password under 6 characters (both before the lookup), 404 for an absent user, then 401 for a wrong current password. It passes if and only if none holds |
| `UserRoutes.UserStore.Signup` | routes/userRoutes.js:6-52 | On rejection: the failure, users unchanged. Otherwise exactly one user is appended, with the password as a digest and role default `'customer'`. The reply is 201 with a token for its id and role and the user without password. Emails stay unique and admins stay at most one |
| `UserRoutes.UserStore.ChangePassword` | routes/userRoutes.js:107-134 | On rejection: the failure, users unchanged. Otherwise only the caller's stored digest is replaced by the new password's, and every profile is unchanged |
| `UserRoutes.SignupThenLogin` | routes/userRoutes.js:33-75 | Logging in with the email and password just signed up with opens a session for the new user, with its id and role in the token |
| `UserRoutes.ChangeThenLogin` | routes/userRoutes.js:121-127 | After a password change the new password logs that user in; the old one gets 401, unless both have the same digest |

## Left out

- server.js: the app wiring, CORS, body parsing, logging, the welcome and
  health routes, the 404 fallback and the error middleware. These are I/O
  plumbing. The list route (`GET /`) returns the collection unchanged. It
  appears only through `SearchWithoutFilters`.
- Cryptography: signing, signature checking and the secret. A token is
  modelled by what its payload reads (`Token`). The middleware sees the
  token library's verification only as a function from a token string to
  `Verified | Expired | Invalid`. The decoded `iat`/`exp` fields are not
  kept in `req.user`'s model, which holds `{ id, role }` only.
- models/user.js is not part of this model. Password hashing is an
  arbitrary function and `comparePassword` is "the candidate's digest is the
  stored digest". A salted comparison is not modelled. The default role is
  taken to be `'customer'`. Any validation the user schema applies (a role
  enum, email normalisation) is not modelled.
- Store internals: object-id format and cast errors (ids are counters or
  positions), and database failures other than the ones above (the generic
  500 branches are modelled only where a validator or the unique index
  causes them). Timestamps and the order in which results are returned are
  not modelled (search returns a map).
- The search filters: regular-expression syntax in `name`/`category` is
  treated as a literal substring. Case folding covers ASCII letters only.
- JavaScript values: price, quantity, amount and the price bounds are
  integers. Floating point, `NaN` from non-numeric strings, `null` fields
  and fields of the wrong type are not modelled. Password length counts
  characters, not UTF-16 code units.
- Update bodies: only the six schema fields are modelled. Unknown fields,
  which strict mode drops, and update operators in the body are not.
- Concurrency: the read-then-save of purchase and restock can interleave
  between requests. Each request is one atomic step here.
- Logging (`console.error`).
