# Auth core of the API server, modelled in Dafny

This project models the authentication core of a Node.js API server:

- `src/utils/security.js`:
  - URL-safe unpadded base64 (section 5 of RFC 4648);
  - a length-checked constant-time byte comparison;
  - password hashing with PBKDF2, stored as the self-describing string
    `pbkdf2_<digest>$<iterations>$<salt>$<hash>`;
  - compact HS256 tokens, `header.payload.signature` as in section 7.1 of RFC 7515, with
    the `iat` and `exp` claims of RFC 7519.
- `src/middleware/auth.js`:
  - bearer-token extraction from the `Authorization` header;
  - the two Express handlers `optionalAuth` and `requireAuth`.

The crypto primitives, the JSON codec, the clock and the random salt are parameters:

- `crypto.pbkdf2Sync` is a function `Pbkdf2`. It returns `None` where Node throws.
- `crypto.createHmac(...).digest()` is a function `Hmac`.
- `JSON.stringify` and `JSON.parse` are a `JsonCodec`.
- `Date.now()` is the `nowMs` argument.
- `crypto.randomBytes` is the `salt` argument.

The properties these primitives must have for the round trips to hold are predicates that
the lemmas require:

- `KeepsKeyLength`: a derived key has the requested length.
- `RoundTrips`: parsing what was stringified gives the value back.

A thrown exception is the `Threw` case of `Outcome`. A JavaScript value whose type is
checked with `typeof x === 'string'` is an `Arg`: a string, or anything else.

The handlers are imperative: `AuthMiddleware.Request` is a class whose `auth` and `user`
fields they update. Each handler method is proved equal to a specification function on the
old field values, and the lemmas about the handlers are stated on those functions. The users
table behind `attachUser` is a lookup function in `Env`. For each user id it gives a row, no
row, or a failing query.

Modules, one file each:

| file | module | what |
|---|---|---|
| common.dfy | Common | bytes, `Arg`, `Option`, `Outcome` |
| strings.dfy | Strings | `split`, joining, character replacement, decimal numbers |
| base64url.dfy | Base64Url | `base64UrlEncode`, `base64UrlDecodeToBuffer` |
| safe_compare.dfy | SafeCompare | `timingSafeEqual` and `crypto.timingSafeEqual` |
| passwords.dfy | Passwords | `hashPassword`, `verifyPassword` |
| tokens.dfy | Tokens | `signToken`, `verifyToken` |
| bearer.dfy | Bearer | `getTokenFromRequest` |
| auth_middleware.dfy | AuthMiddleware | `optionalAuth`, `requireAuth` |

## Model

| member | source | states |
|---|---|---|
| Strings.Split | src/utils/security.js:41 | `split` on one character yields at least one field, and no field contains the separator |
| Strings.SplitJoin | src/utils/security.js:41 | splitting separator-free fields joined by the separator gives back exactly those fields |
| Strings.JoinSplit | src/utils/security.js:41 | joining the fields of a split rebuilds the original string |
| Strings.SplitFour | src/utils/security.js:36-44 | four separator-free fields written with `$` between them split back into those four fields |
| Strings.SplitThree | src/utils/security.js:72-85 | three separator-free segments written with `.` between them split back into those three segments |
| Strings.ReplaceAll | src/utils/security.js:8-9 | a global one-character replace keeps the length and replaces exactly the matching characters |
| Strings.RemoveAll | src/utils/security.js:7 | the result is no longer than the input and holds exactly the input's characters other than `=` |
| Strings.RemoveAllCounts | src/utils/security.js:7 | every character other than `=` is kept as many times as it occurs, and every `=` is dropped |
| Strings.RemoveAllSingle | src/utils/security.js:7 | a single character is dropped if it is `=` and kept otherwise |
| Strings.RemoveAllConcat | src/utils/security.js:7 | removing from a concatenation removes from each part and keeps the parts in order; with RemoveAllSingle this fixes the result character by character |
| Strings.RemoveAllAbsent | src/utils/security.js:7 | a string without `=` is left unchanged |
| Strings.NatToDecimal | src/utils/security.js:36 | an iteration count prints as a non-empty run of decimal digits |
| Strings.ParseDecimal | src/utils/security.js:48-49 | an iteration field is read as a number exactly when it is a non-empty run of decimal digits |
| Strings.DecimalRoundTrip | src/utils/security.js:36-49 | reading back a printed iteration count gives the same count |
| Base64Url.PadLength | src/utils/security.js:15 | the decoder adds at most three `=`, bringing the length to a multiple of four |
| Base64Url.Decode | src/utils/security.js:12-13 | a non-string input decodes to the empty buffer |
| Base64Url.Encode | src/utils/security.js:3-10 | defined as standard base64 with `=` removed, then `+` replaced by `-` and `/` by `_`; EncodeIsUnpaddedUrl, EncodeAlphabet and DecodeEncode state its properties |
| Base64Url.EncodeIsUnpaddedUrl | src/utils/security.js:3-10 | the encoding is the URL-safe alphabet characters of the six-bit groups, with padding removed |
| Base64Url.EncodeAlphabet | src/utils/security.js:3-10 | the encoding has ceil(8n/6) characters, all URL-safe, with no `=`, `+`, `/`, `.` or `$` |
| Base64Url.DecodeEncode | src/utils/security.js:3-18 | decoding an encoding gives back exactly the encoded bytes |
| SafeCompare.DiffBits | src/utils/security.js:24 | the OR of the pairwise XOR is zero exactly when the buffers are equal |
| SafeCompare.ConstantTimeEquals | src/utils/security.js:24 | for equal-length buffers, the primitive answers true exactly when they are equal |
| SafeCompare.TimingSafeEqual | src/utils/security.js:20-25 | true exactly when the buffers are equal; buffers of different lengths are always unequal |
| Passwords.HashPassword | src/utils/security.js:27-37 | hashing throws exactly when key derivation throws for the defaulted options |
| Passwords.ParseStored | src/utils/security.js:40-53 | an accepted hash string has an iteration count that is positive and below the value `Number()` rounds to `Infinity`, a non-empty salt and hash, and a digest without `$` |
| Passwords.VerifyPassword | src/utils/security.js:39-57 | true exactly when the stored string parses and re-deriving with its digest, iterations, salt and hash length gives its hash; throws exactly when it parses and derivation throws |
| Passwords.FormatHash | src/utils/security.js:36 | defined as the template `pbkdf2_<digest>$<iterations>$<salt>$<key>` with both byte fields base64url-encoded; FormatFields and ParseFormatted state its properties |
| Passwords.FormatFields | src/utils/security.js:36 | a hash string splits on `$` into scheme, decimal iterations, salt encoding and key encoding |
| Passwords.ParseFormatted | src/utils/security.js:36-53 | the parser reads back every hash string the hasher writes, with the same digest, iterations, salt and key |
| Passwords.HashThenVerify | src/utils/security.js:27-57 | a password verifies against its own freshly made hash, for a derivation that keeps key lengths |
| Passwords.DefaultShape | src/utils/security.js:27-36 | with default options the hash is `pbkdf2_sha256$200000$` then 22 characters for 16 salt bytes, then 43 characters for 32 key bytes |
| Passwords.DefaultFields | src/utils/security.js:28-36 | with the defaults the scheme is `pbkdf2_sha256`, the count prints as `200000`, and a 16-byte salt and 32-byte key encode to 22 and 43 characters that decode back to 16 and 32 bytes |
| Passwords.DefaultIterationsText | src/utils/security.js:28 | the default iteration count prints as `200000` |
| Passwords.MalformedIsFalse | src/utils/security.js:40-53 | a non-string, a field count other than four, a missing prefix, a non-decimal, zero or infinite count, or an empty salt or hash gives false, never a throw |
| Passwords.InfiniteCountIsFalse | src/utils/security.js:48-49 | a hash string whose count is at least 2^1024 - 2^970, which `Number()` rounds to `Infinity`, gives false without key derivation |
| Passwords.PlaintextNeverMatches | src/utils/security.js:45 | any stored string without the scheme prefix gives false for every password, the stored string itself included |
| Passwords.UnknownDigestThrows | src/utils/security.js:55 | every well-formed hash string (a `$`-free digest, positive count, non-empty salt and key) whose key derivation throws makes verification throw rather than return false |
| Tokens.Claims | src/utils/security.js:64-68 | the body keeps every payload field, adds `iat` and `exp`, and these two override same-named payload fields |
| Tokens.SignToken | src/utils/security.js:59-78 | defined as the encoded header and the encoded body with `iat` and `exp`, joined by `.`, then `.` and the encoded HMAC of the two; SignedShape and SignThenVerify state its properties |
| Tokens.HasExpired | src/utils/security.js:100 | defined as: the payload has a numeric `exp` below the current second; VerifyOrder and SignThenVerify use it |
| Tokens.CheckPayload | src/utils/security.js:92-104 | succeeds exactly when the payload segment parses and the parsed payload has not expired, returning that payload; otherwise fails with `bad_payload` or `expired` |
| Tokens.VerifyToken | src/utils/security.js:80-105 | a success means three segments, a third segment that decodes to the HMAC of the first two, a payload parsed from the second, and no expiry |
| Tokens.VerifyOrder | src/utils/security.js:81-104 | each failure code appears exactly when its check fails and every earlier check passed, in the order missing, format, signature, payload, expired |
| Tokens.HeaderNotInspected | src/utils/security.js:85-104 | for a correctly signed token, the verdict depends on the payload segment alone; the header and its `alg` are never read |
| Tokens.SignedShape | src/utils/security.js:59-78 | a signed token has three URL-safe segments: encoded header, encoded body, and the encoded HMAC of the first two |
| Tokens.SignThenVerify | src/utils/security.js:59-105 | a signed token verifies under the same secret until `exp` and yields the payload plus `iat` and `exp`; after that it is `expired` |
| Tokens.EmptySegmentsPassFormat | src/utils/security.js:82-83 | only the segment count is checked, so empty segments get past the format check |
| Bearer.GetTokenFromRequest | src/middleware/auth.js:4-9 | a token exists exactly when the header is a string matching `Bearer\s+(.+)` case-insensitively, and it is the capture of the match with the longest run of spaces |
| Bearer.TokenIsCleanSuffix | src/middleware/auth.js:7-8 | a returned token is a non-empty proper suffix of the header without line terminators |
| Bearer.BearerToken | src/middleware/auth.js:7-8 | `Bearer` in any case, a space, then a token that starts with no space and has no line break gives that token unchanged |
| AuthMiddleware.Subject | src/middleware/auth.js:36-37 | a subject exists exactly when the payload is an object whose `sub` is a non-empty string, and it is that string |
| AuthMiddleware.OptionalAuth | src/middleware/auth.js:23-46 | the response and the new `req.auth` and `req.user` are those of the handler's specification on the old fields |
| AuthMiddleware.RequireAuth | src/middleware/auth.js:48-74 | the response and the new `req.auth` and `req.user` are those of the handler's specification on the old fields |
| AuthMiddleware.AuthCarriesSubject | src/middleware/auth.js:36-39 | the `req.auth` the handlers leave either keeps its old value or holds a verified payload together with its non-empty `sub` |
| AuthMiddleware.OptionalAuthSetsAuth | src/middleware/auth.js:34-39 | `optionalAuth` sets `req.auth` exactly when the token verifies and has a usable `sub`, and otherwise leaves it unchanged |
| AuthMiddleware.RequireAuthSetsAuth | src/middleware/auth.js:58-65 | `requireAuth` sets `req.auth` in exactly the same case and to the same value as `optionalAuth` |
| AuthMiddleware.OptionalAuthOutcomes | src/middleware/auth.js:23-46 | `optionalAuth` never answers 401; without a token, a verified token or a usable `sub` it calls `next()` and changes nothing; it forwards only a lookup failure |
| AuthMiddleware.RequireAuthOutcomes | src/middleware/auth.js:48-74 | `requireAuth` answers 401 with `missing_auth`, the verifier's own code, `invalid_auth` or `user_not_found` in these cases, and forwards a lookup failure to `next(e)` |
| AuthMiddleware.RequireAuthPassesOnlyKnownUsers | src/middleware/auth.js:60-73 | `requireAuth` calls `next()` exactly when the token verifies, its `sub` is usable and the user row is found; `req.auth` and `req.user` then hold that subject and that row |
| AuthMiddleware.LookupFailureForwarded | src/middleware/auth.js:40-70 | both handlers pass a lookup failure to `next(e)` in exactly the same cases, and only for a failing query |

## Left out

- Crypto internals: PBKDF2, HMAC-SHA256 and `crypto.randomBytes` are parameters. The
  model assumes no property of them beyond `KeepsKeyLength`, which a lemma requires where it
  needs it.
- Timing: `SafeCompare.DiffBits` visits every byte pair, but the model states nothing about
  time or side channels.
- `Buffer.from(String(x), 'utf8')` for non-buffer arguments: the encoder and the comparison
  take bytes, and UTF-8 encoding of strings is not modelled.
- Passwords are strings; `String(password)` coercion of other values is not modelled.
- Base64Url.Decode: Node's decoder is modelled as decoding the leading run of
  standard-alphabet characters. This is exact for well-formed input. Node's leniency on
  ill-formed input (stray characters in the middle, a dangling sixth bit) is not modelled.
- A JSON object is a `map`, so the key order `JSON.stringify` writes is not modelled: in
  `signToken` the payload keys come first, and a payload `iat` or `exp` keeps its original
  position. The order is visible only in the encoded bytes, which the codec parameter
  produces.
- JSON is the `JsonCodec` parameter. Numbers are integers, so a `NaN` expiry from
  `Number(opts.expiresInSeconds)` and fractional `exp` values are not modelled.
- Passwords.ParseStored: the iteration field is accepted only as plain decimal digits.
  `Number(iterationsRaw)` also accepts forms such as `1e3`, `0x10`, ` 12 ` and `1.5`, and
  these are not modelled. A finite count above 2^53 reaches key derivation as the double
  `Number()` rounds it to; the model passes the exact count. Counts that round to
  `Infinity` are modelled and rejected.
- Passwords.HashPassword: options are whole numbers, so `Number(...)` of arbitrary option
  values is not modelled. `crypto.pbkdf2Sync`'s own range checks belong to the `Pbkdf2`
  parameter.
- `signToken` with a non-object payload (spreading a string or an array) is not modelled.
  The payload is a JSON object.
- The secret is a parameter. `getAuthSecret` (src/middleware/auth.js:11-13) and its
  environment-variable fallback are not modelled.
- `attachUser`'s SQL query and the database (src/config/db.js) are not part of this model.
  The query is the `lookup` function of `Env`.
- The `try { verifyToken(...) } catch (e) { next(e) }` branches of both handlers
  (src/middleware/auth.js:28-32, 53-57): the modelled `verifyToken` is total and never
  throws, so these branches cannot be reached.
- `verified.error ?? 'invalid_auth'` (src/middleware/auth.js:58): every failure carries an
  error code, so the fallback cannot be reached and the model uses the code.
- Express's `res.status(401).json(...)` is the `Unauthorized(reason)` response.
  `next()` and `next(e)` are `Next` and `NextWithError(e)`. Asynchrony is not modelled.
- Controllers, routes, the server entry point and the database layer are not part of this
  model.

The model follows the code's behaviour in these points:

- `verifyPassword` has no legacy plaintext branch and returns no upgrade flag.
- `verifyPassword` throws, and does not return false, when key derivation rejects the stored
  digest.
- `verifyToken` checks only that there are three segments. It accepts empty ones.
- The token header's second field is `typ`.
