# Token lifecycle of fitness-tracker-backend, in Dafny

This project models the authentication core of the fitness-tracker backend and proves properties of it:

- **Token manager** (`user/auth/token_manager.go`). It mints a pair of compact JWTs: an access token and a refresh token.
  - Each token has its own secret, lifetime and `type` claim.
  - `ValidateAccessToken` checks an access token and returns its user id.
  - `RefreshTokens` checks a refresh token and rotates it into a fresh pair.
  - golang-jwt's `ParseWithClaims` checks for a malformed token first, then the signature, then expiry. Its errors are passed on unchanged. `ErrInvalidToken` is reserved for a token that parsed but carries the wrong `type`.
- **Auth service** (`user/use_case/auth_service.go`). It provides `Register`, `Login`, `Refresh` and `Validate`.
  - These run over a user repository, which is modelled after the in-memory repository of the service's tests.
  - bcrypt is modelled as an idealised hash.
- **Bearer middleware** (`shared/middleware/auth.go`). It checks the `Authorization` header and strips one `"Bearer "`.
  - It validates the token.
  - On success it stores `uint(userID)` under `"user_id"` in the request context and continues the chain. Otherwise it aborts with 401.
  - `UserID` reads the stored id back.

## How it is modelled

**Tokens are real strings.**
- A token is three `.`-separated segments, as in the compact serialisation of section 7.1 of RFC 7515.
- The header segment is the constant base64url text of `{"alg":"HS256","typ":"JWT"}`.
- Base64url and JSON are replaced by a small invertible codec (module `Text`):
  - integers are written in decimal;
  - strings are `%`-escaped, so they can contain neither `.` nor `,`.
- HMAC-SHA256 is replaced by an injective tag `Tag(key, input)`. A signature therefore names its key and its input exactly.
- Proved:
  - The decoder inverts the encoder.
  - The decoder accepts nothing the encoder did not write.
  - `ParseWithClaims(token, key, now)` succeeds with claims `c` exactly when `token == SignedString(c, key)` and `now < c.expiresAt`. So every string outside the image of `SignedString` fails.
  - The model's failure is the malformed error when the token is not three segments, or the payload or the signature segment does not decode. It is also the malformed error for every header segment other than the HS256 one, which differs from golang-jwt for decodable headers (see "## Left out").
  - It is the signature error when the signature decodes but is not the key's tag for the signed text.

**Time** is a parameter `now` in whole seconds. It stands for every clock reading: the two `time.Now()` calls of `newToken` (`user/auth/token_manager.go:78`) and golang-jwt's own reading when it checks `exp`. `RefreshTokens` therefore checks expiry and mints the new pair at the same `now`. golang-jwt validates only `exp` by default, and a token is valid while `now < exp`.

**Go integers.**
- Claims carry the user id as an `int32`.
- `Int32Of` models Go's `int32(uint)` with its two's-complement wrap.
- `UintOf` models `uint(int32)` with its wrap modulo 2^64.

**State.**
- The token manager is an immutable value.
- The user repository is a class whose `store` map and `next` counter change.
- The auth service is a class holding the repository and a manager.
- The gin request context is a class holding:
  - the `Authorization` header;
  - its key/value map;
  - the response status and error text;
  - whether the chain was aborted;
  - whether the chain went on to the next handler.

## Model

| member | source | states |
|---|---|---|
| TokenManager.NewManager | user/auth/token_manager.go:35-42 | The manager holds the two secrets and lifetimes exactly as given. A `Manager` is a value, so no operation can change them afterwards. |
| TokenManager.Manager.NewToken | user/auth/token_manager.go:77-90 | The token is nonempty. Under its own secret, at any time `t`, it parses to `Claims(userId, ttype, now+ttl, now)` while `t < now+ttl` and to `TokenExpired` afterwards. Under every other key it fails with `TokenSignatureInvalid`. |
| TokenManager.Manager.NewTokens | user/auth/token_manager.go:45-55 | There is no error and both tokens are nonempty. The access token parses under the access secret to `type="access"`, `exp=now+accessTTL` and `iat=now`, until it expires. The refresh token parses the same way with the refresh secret, `type="refresh"` and the refresh TTL. |
| TokenManager.Manager.ParseToken | user/auth/token_manager.go:95-107 | On success the token is the signed form of the returned claims, of the expected kind and unexpired. Every unexpired token signed with the secret gives its claims if the kind matches, and `ErrInvalidToken` otherwise. `ErrInvalidToken` arises only after a successful parse. A library failure is returned unchanged. |
| TokenManager.Manager.ValidateAccessToken | user/auth/token_manager.go:58-64 | On an error the id is 0. Success means the token is an unexpired access token signed with the access secret for that id. A wrong-kind token gives `ErrInvalidToken`. Library errors pass through unchanged. |
| TokenManager.Manager.RefreshTokens | user/auth/token_manager.go:67-73 | On an error both tokens are "". Success means the token is an unexpired refresh token for some user `u`, and the result is exactly `NewTokens(u, now)`. A wrong-kind token gives `ErrInvalidToken`. Library errors pass through unchanged. |
| TokenManager.ValidateSignedToken | user/auth/token_manager.go:58-64 | Exact outcome of `ValidateAccessToken` on any signed token. A key other than the access secret gives a signature error. An expired token gives an expiry error. A wrong kind gives `ErrInvalidToken`. Otherwise the result is the token's user id. |
| TokenManager.RefreshSignedToken | user/auth/token_manager.go:67-73 | Exact outcome of `RefreshTokens` on any signed token, in the same terms. |
| TokenManager.AccessTokenLifetime | user/auth/token_manager_test.go:12-20 | The access token of `NewTokens(u, now)` validates to `u` at every `t < now+accessTTL` and fails with `TokenExpired` from then on. |
| TokenManager.RefreshTokenIsNoAccessToken | user/auth/token_manager.go:103-104 | A refresh token is never accepted by `ValidateAccessToken`. With equal secrets and before expiry, the kind check rejects it with `ErrInvalidToken`. |
| TokenManager.AccessTokenIsNoRefreshToken | user/auth/token_manager.go:103-104 | An access token is never accepted by `RefreshTokens`. With equal secrets and before expiry, the kind check rejects it with `ErrInvalidToken`. |
| TokenManager.RotationKeepsSubject | user/auth/token_manager.go:67-73 | An unexpired refresh token for `u` rotates into `NewTokens(u, rotatedAt)`. That pair's access token validates to `u` for its whole lifetime. |
| TokenManager.MalformedTokens | user/auth/token_manager.go:99-101 | "" and "not.a.valid.token" fail with golang-jwt's malformed error, which is passed on as it is. |
| TokenManager.ParsedUnderAnyKey | user/auth/token_manager.go:96-101 | A signed token parses under its own key to its claims until expiry and fails with an expiry error after. Under every other key it fails with a signature error. |
| TokenManager.ParsedClaimsUnique | user/auth/token_manager.go:96-101 | An unexpired signed token parses to exactly the claims it was signed from. |
| Jwt.SignedString | user/auth/token_manager.go:88-89 | The token is exactly three segments: the HS256 header, the claims' payload, and a signature that decodes to the key and the signed text. |
| Jwt.ParseWithClaims | user/auth/token_manager.go:96-101 | A successful parse means the token is the signed form of the returned claims under this key, and that it is unexpired. |
| Jwt.DecodeTagOf | user/auth/token_manager.go:96-101 | A signature segment decodes back to the key and the text it was made from. |
| Jwt.TagOfDecoded | user/auth/token_manager.go:96-101 | A signature segment that decodes is exactly the tag of what it decodes to. |
| Jwt.UndecodableSignature | user/auth/token_manager.go:96-101 | A token whose signature segment does not decode fails with `TokenMalformed` under every key and at every time, before any signature check. |
| Jwt.GarbledSignature | user/auth/token_manager.go:96-101 | A valid header and payload followed by the signature segment "!!!" is malformed. |
| Jwt.ParseExactly | user/auth/token_manager.go:96-101 | Parsing succeeds with `c` if and only if the token is `SignedString(c, key)` and `now < c.expiresAt`. |
| Jwt.ParseSigned | user/auth/token_manager.go:96-101 | A token signed with one key and parsed with another gives `TokenSignatureInvalid`. With the same key, it gives its claims before expiry and `TokenExpired` after. |
| Jwt.TamperedPayloadRejected | user/auth/token_manager.go:96-101 | A signed token whose payload segment is replaced by a different one is rejected under every key. |
| Jwt.DecodePayloadSegment | user/auth/token_manager.go:79-89 | The claims payload written when signing decodes back to the same claims. |
| Jwt.PayloadOfDecoded | user/auth/token_manager.go:79-89 | A payload that decodes to some claims is exactly the payload those claims encode to. |
| Jwt.SigningInputInjective | user/auth/token_manager.go:88-89 | Equal signing inputs carry equal payload segments. |
| Jwt.TagInjective | user/auth/token_manager.go:88-89 | Equal signatures imply equal keys and equal signing inputs. |
| Text.JoinSplit | user/auth/token_manager.go:88-89 | Joining a string's `.`-separated segments gives back the string. |
| Text.ParseIntText | user/auth/token_manager.go:79-86 | The decimal text of every integer claim parses back to it. |
| Text.IntTextParsed | user/auth/token_manager.go:79-86 | Any text that parses to an integer is that integer's unique decimal text. |
| Text.UnescapeEscape | user/auth/token_manager.go:79-86 | An escaped string claim unescapes back to itself. |
| Text.EscapeUnescape | user/auth/token_manager.go:79-86 | Any text that unescapes to `t` is the escape of `t`. |
| GoInt.Int32Of | user/use_case/auth_service.go:51 | Go's `int32(id)`: the result is congruent to the id modulo 2^32, and equal to it below 2^31. |
| GoInt.UintOf | user/use_case/auth_service.go:82 | Go's `uint(id)`: the result is below 2^64 and congruent to the id modulo 2^64, and equal to it for non-negative ids. |
| GoInt.IdRoundTrip | user/use_case/auth_service.go:51 | An id below 2^31 survives `uint(int32(id))`. |
| GoInt.IdRoundTripBreaksAt2To31 | user/use_case/auth_service.go:51 | The id 2^31 does not survive: it comes back as 2^64 - 2^31. |
| Bcrypt.GenerateFromPassword | user/use_case/auth_service.go:38-41 | Hashing succeeds if and only if the password fits bcrypt's 72-byte limit. The hash differs from the password and verifies against it. |
| Bcrypt.CompareHashAndPassword | user/use_case/auth_service.go:62-64 | A password of at most 72 bytes verifies exactly against its own digest. A longer password verifies exactly when its first 72 bytes do. |
| Bcrypt.OnlyOwnPassword | user/use_case/auth_service.go:62-64 | A digest verifies against no other password of at most 72 bytes. |
| Bcrypt.VerifiesExactly | user/use_case/auth_service.go:62-64 | A generated digest verifies against its own password. When that password is 72 bytes long, it also verifies against every longer password that starts with it. It verifies against nothing else. |
| Bcrypt.ExtensionVerifies | user/use_case/auth_service.go:62-64 | The digest of a 72-byte password verifies against that password with anything appended. So Login accepts such extensions. |
| Repository.UserRepository.constructor | user/use_case/auth_service_test.go:29-31 | The repository starts empty, and the next id is 1. |
| Repository.UserRepository.Create | user/use_case/auth_service_test.go:33-41 | The user is stored under the next id, that id is handed back, and the counter goes up by one. |
| Repository.UserRepository.GetByEmail | user/use_case/auth_service_test.go:43-53 | A found user is stored under its id with that address. Nothing is found if and only if no stored user has the address. |
| UseCase.AuthService.constructor | user/use_case/auth_service.go:21-23 | Given a well-formed repository, the service holds it and the manager, and is itself well formed. |
| UseCase.AuthService.Register | user/use_case/auth_service.go:33-53 | A taken address gives `ErrEmailAlreadyUsed`, two "" tokens and an unchanged store. A password bcrypt refuses gives its error and an unchanged store. Otherwise it adds exactly one user, under the next id, with the address and the password's hash, and returns `NewTokens(int32(id))`. Unique addresses stay unique. |
| UseCase.AuthService.Login | user/use_case/auth_service.go:56-68 | Every failure is `ErrInvalidCredentials` with "" tokens, for an unknown address and for a wrong password alike. Success means a stored user with the address has a hash that verifies, and the pair is `NewTokens(int32(id))`. With unique addresses, it succeeds exactly then. The store is not modified. |
| UseCase.AuthService.Refresh | user/use_case/auth_service.go:71-74 | It is exactly the manager's `RefreshTokens`. An unexpired refresh token for `u` gives `NewTokens(u, now)`. Failures give "" tokens. |
| UseCase.AuthService.Validate | user/use_case/auth_service.go:77-83 | It has the manager's error. The id is 0 on an error and `uint(id)` on success. |
| UseCase.ValidateIssuedId | user/use_case/auth_service.go:77-83 | An access token minted for a stored id below 2^31 validates back to that id while it lives. |
| UseCase.RegisterThenLogin | user/use_case/auth_service_test.go:109-124 | Registering a fresh address and then logging in with the same password both succeed. Login returns the pair for the registered id. |
| UseCase.RegisterAndLoginScenario | user/use_case/auth_service_test.go:109-124 | On an empty store, `Register("x@y.com","pwd")` and then `Login` both succeed with nonempty tokens. |
| UseCase.RefreshAndValidateScenario | user/use_case/auth_service_test.go:126-142 | The first user gets id 1. Rotating that user's refresh token and validating the new access token yields 1 with no error. |
| UseCase.PasswordHashStoredScenario | user/use_case/auth_service_test.go:144-156 | The stored hash is nonempty, differs from "secret" and verifies against it. |
| UseCase.DuplicateEmailScenario | user/use_case/auth_service_test.go:158-164 | A second registration with the same address gives `ErrEmailAlreadyUsed`. |
| UseCase.WrongCredentialsScenario | user/use_case/auth_service.go:57-64 | A wrong password and an unknown address both give `ErrInvalidCredentials`. |
| Middleware.HasPrefix | shared/middleware/auth.go:17 | True when the string is the prefix followed by some rest, and then the rest is what follows the prefix. True for every string of that form. |
| Middleware.TrimPrefix | shared/middleware/auth.go:22 | With the prefix present, the prefix followed by the result is the string. Without it, the string is returned unchanged. |
| Middleware.BearerToken | shared/middleware/auth.go:16-22 | A returned token is the header with one `"Bearer "` in front. |
| Middleware.BearerTokenOf | shared/middleware/auth.go:16-22 | `"Bearer " + t` yields exactly `t`, even when `t` itself starts with `"Bearer "`. So exactly one prefix is removed. |
| Middleware.Context.constructor | shared/middleware/auth_test.go:40-42 | A new request context holds the given header, no keys, status 200, no error body, and is neither aborted nor continued. |
| Middleware.Context.AbortWithStatusJSON | shared/middleware/auth.go:18 | The chain is aborted with the given status and error text. Keys and continuation are untouched. |
| Middleware.Context.Set | shared/middleware/auth.go:30 | Exactly one key is written. |
| Middleware.Context.Next | shared/middleware/auth.go:31 | The chain continues. Nothing else changes. |
| Middleware.Auth | shared/middleware/auth.go:14-33 | A missing or non-Bearer header aborts with 401 and "missing or invalid authorization header", whatever the manager. A token `ValidateAccessToken` rejects aborts with 401 and "invalid or expired token". On both failures no key is written and the chain does not continue. A valid token sets `"user_id"` to `uint(userID)` and continues. |
| Middleware.UserID | shared/middleware/auth.go:36-43 | It returns `(id, true)` when `"user_id"` holds a `uint` `id`. It returns `(0, false)` when the key is absent or holds another type. |
| Middleware.PingBody | shared/middleware/auth_test.go:22-28 | When UserID finds an id, the body is "uid=" followed by decimal text that parses back to that id. Otherwise it is "no‑uid", with the non-breaking hyphen of the test. |
| Middleware.ServePing | shared/middleware/auth_test.go:15-30 | A request through Auth and /ping gets 401 exactly when the header is no Bearer header or its token does not validate. Otherwise it gets 200 with "uid=" and the validated id. |
| Middleware.SuccessScenario | shared/middleware/auth_test.go:32-47 | `"Bearer "` plus a live access token for 42 gets 200 and "uid=42". |
| Middleware.MissingHeaderScenario | shared/middleware/auth_test.go:49-58 | No header gets 401. |
| Middleware.InvalidTokenScenario | shared/middleware/auth_test.go:60-70 | "Bearer not.a.valid.token" gets 401. |

## Left out

- HMAC-SHA256, base64url and JSON inside golang-jwt are replaced by the invertible codec and the injective tag described above.
  - The model does not capture key secrecy or the difficulty of forging a signature.
  - What it does capture: in the model a token verifies under a key only if that key signed exactly those claims.
- Jwt.Tag: separates keys that HMAC-SHA256 treats as equal. HMAC zero-pads a key shorter than its 64-byte block, so "k" and "k" followed by a zero byte sign alike. It hashes a longer key first, so such a key and its SHA-256 digest sign alike.
- Jwt.ParseWithClaims: every header segment other than the HS256 one is malformed. golang-jwt decodes the header and looks up its `alg`. A decodable header naming another known `alg` (`none`, RS*, ES*, PS*) fails with `ErrTokenSignatureInvalid`, because the key is a byte slice. An unknown or missing `alg` fails with `ErrTokenUnverifiable`, which the model lacks. An HS256 header written differently goes on to the signature check. The model has no header decoder, so it does none of these.
- Jwt.ParseWithClaims: "the signature segment decodes" means having the tag's two-field escaped shape. It does not mean being valid base64url, so the split between `TokenMalformed` and `TokenSignatureInvalid` follows the stand-in codec's shape, not base64url's alphabet and padding.
- The `alg` header has one fixed value. golang-jwt would also accept HS384 and HS512 tokens because the key function does not check the method. All tokens here are HS256.
- Tokens whose payload lacks `exp` are not modelled, and neither are tokens with extra claims. A payload is exactly `user_id`, `type`, `exp` and `iat`.
- NumericDate rounding and sub-second lifetimes are not modelled. Time is whole seconds.
- Manager.NewTokens: uses one `now` for both tokens, where the source reads the clock twice.
- Manager.RefreshTokens: uses one `now` for the library's expiry check and for minting the new pair. The source reads the clock in the parser and again in each `newToken`.
- Manager.NewTokens: never fails, because HS256 signing with a byte-slice key does not fail. The `("", "", err)` branches of the source have no counterpart, and Register's and Login's token error is always nil.
- Repository errors are not modelled. The in-memory `Create` never fails, and `GetByEmail` fails only by not finding the address; a database error would make `Register` go ahead as for a fresh address.
- The repository's `GetByID`, `List`, `Update`, `Delete` and `Count` are not used by the core and are not modelled.
- The mutex of the in-memory repository is not modelled. The model is sequential.
- `User.Name` and `User.CreatedAt` are not modelled.
- The user id is modelled as an unsigned integer. `models.User` declares `ID string`, but every use treats it as an integer.
- Overflow of the repository's `next` counter is not modelled.
- GoInt.IdRoundTrip: holds only below 2^31. Ids from 2^31 on are wrapped by `int32(user.ID)`, which IdRoundTripBreaksAt2To31 exhibits.
- Bcrypt internals are not modelled: salting, the cost factor and one-wayness. The hash is the bcrypt marker followed by the password, and characters stand for bytes in the 72-byte limit.
- Bcrypt.CompareHashAndPassword: ignores bytes after the 72nd as bcrypt does. It does not model the key schedule's cycling over the password followed by a zero byte, under which, for example, "a" and "a", zero byte, "a" verify against the same hash. Among passwords of at most 72 bytes the model's digest tells all apart.
- Bcrypt.OnlyOwnPassword: holds for the model's digest only. Under bcrypt's zero-byte cycling, a hash also matches other passwords of at most 72 bytes, for example "a" and "a", zero byte, "a".
- Bcrypt.VerifiesExactly: its "nothing else" holds for the model's digest only, and misses the same zero-byte-cycling collisions.
- Gin internals are not modelled: routing, JSON rendering of `gin.H` and the handler index. `Next` records only that the chain continued, and the /ping handler runs after `Auth` returns.
- `context.Context` arguments are not modelled. They are unused by the core.
