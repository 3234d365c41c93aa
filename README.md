# Gateway JWT utilities, modelled in Dafny

This project models `JwtUtils`, the token helper of an API gateway. It covers four things:

- checking a JWT, and renewing it when it has expired;
- reading the token's subject (the user's email);
- reading its AUTHORITIES role list as one comma-separated string;
- looking up the signing secret in the secret service's JSON reply.

The JWT library and the HTTP client are abstracted. The library's verdict on a token enters as a
`ParseOutcome`: either the verified `Claims`, or a `Rejection`. A rejection is one of the four
categories `parseToken` catches, expiry, a not-yet-valid token, or `OtherJwt` for every other
exception of the library. The renewal service enters as an oracle `exchange` from the `Request` sent to the `Response` received.
Java's `null` is `Option.None`. A thrown exception is `Outcome.Raised`.

Modules:

- `Wrappers`: the `Option` type.
- `Strings`: the string operations.
  - `Join`, the reference definition of a separator-joined list.
  - `Terminated`, what a builder holds after appending each element and then a separator.
  - `Split` and `Substring`, the latter with Java's bounds checks.
  - Lemmas relating these operations.
- `JwtUtils`: the operations of the Java class.
  - `GetRoles` is a method. Like the source, it uses a loop over a `seq<char>` builder.
  - Everything else is a function, because the source is try/catch dispatch and `Optional`
    chains with no mutable state.

Behaviour of the code that the model keeps as written:

- Renewal never turns a failed exchange into null. Without any response, `requireNonNull` throws.
  An empty Authorization header list makes `get(0)` throw. A first value shorter than 7 characters
  makes `substring(7)` throw. Only a missing Authorization header gives null.
- Renewal drops the first 7 characters without checking that they are `"Bearer "`.
- `parseToken` catches only four refusal categories besides expiry. A not-yet-valid token
  (`PrematureJwt`) and any other library exception (`OtherJwt`) match no catch clause, so they
  reach the caller. An exception thrown by renewal inside the expired-token catch clause reaches
  the caller too.

## Model

| member | source | states |
|---|---|---|
| `JwtUtils.GetRoles` | src/main/java/com/nhnacademy/marketgg/gateway/jwt/JwtUtils.java:117-124 | A loop appends each role and a comma, then the last character is cut off. For n >= 1 roles the result is exactly the roles joined by commas in list order. Zero roles throw StringIndexOutOfBoundsException. A missing claim throws NullPointerException, a non-list claim ClassCastException, and a refused token propagates the JWT exception. |
| `JwtUtils.Roles` | src/main/java/com/nhnacademy/marketgg/gateway/jwt/JwtUtils.java:117-124 | Corrected role header: zero roles give "" instead of an exception. For n >= 1 roles, the result followed by one comma is the builder's content, so it agrees with the written code wherever that code returns. |
| `JwtUtils.EmptyAuthoritiesTrimFails` | src/main/java/com/nhnacademy/marketgg/gateway/jwt/JwtUtils.java:123 | Zero roles leave the builder empty, and `substring(0, -1)` on it is out of range. |
| `JwtUtils.RolesSplitBack` | src/main/java/com/nhnacademy/marketgg/gateway/jwt/JwtUtils.java:118-123 | If no role contains a comma, splitting the role header on ',' gives back exactly the role list, in order. |
| `JwtUtils.RolesLength` | src/main/java/com/nhnacademy/marketgg/gateway/jwt/JwtUtils.java:118-123 | For n >= 1 roles, the header's length is the sum of the role lengths plus n - 1. |
| `Strings.TerminatedIsJoinThenSep` | src/main/java/com/nhnacademy/marketgg/gateway/jwt/JwtUtils.java:119-123 | For a non-empty list, what the builder accumulates is the joined list followed by exactly one separator. Cutting off that final separator therefore yields the join. |
| `Strings.JoinLength` | src/main/java/com/nhnacademy/marketgg/gateway/jwt/JwtUtils.java:118-123 | A non-empty list joins to the total length of its elements plus one separator between each adjacent pair. |
| `Strings.SplitJoin` | src/main/java/com/nhnacademy/marketgg/gateway/jwt/JwtUtils.java:118-123 | Splitting a join on its one-character separator returns the list, if no element contains that character. |
| `Strings.JoinSplit` | src/main/java/com/nhnacademy/marketgg/gateway/jwt/JwtUtils.java:118-123 | Joining the fields of a split on the same character returns the string. With SplitJoin, this makes Split and Join inverses. |
| `Strings.Substring` | src/main/java/com/nhnacademy/marketgg/gateway/jwt/JwtUtils.java:123 | Java's `substring(begin, end)` fails exactly when it does not hold that 0 <= begin <= end <= length. Otherwise it returns the characters between the bounds, and the string is prefix + result + suffix. |
| `JwtUtils.ParseToken` | src/main/java/com/nhnacademy/marketgg/gateway/jwt/JwtUtils.java:64-83 | A valid token comes back unchanged. Expiry returns exactly what renewal returns for the same token and URL. Signature, malformed, unsupported and illegal-argument failures give null. A not-yet-valid token or any other library exception propagates. |
| `JwtUtils.OnlyExpiryRenews` | src/main/java/com/nhnacademy/marketgg/gateway/jwt/JwtUtils.java:64-82 | For every outcome other than expiry, a valid token included, the result does not depend on the renewal service. No other path reaches renewal. |
| `JwtUtils.RenewalSeesOnlyBearerRequest` | src/main/java/com/nhnacademy/marketgg/gateway/jwt/JwtUtils.java:88-91 | On expiry, the service is consulted only about the GET to the renewal URL with `Authorization: Bearer <token>`. |
| `JwtUtils.ParseTokenReturnsToken` | src/main/java/com/nhnacademy/marketgg/gateway/jwt/JwtUtils.java:64-83 | The result is token t exactly when the parse succeeded and t is the input, or the token expired and renewal produced t. This holds in both directions. |
| `JwtUtils.ParseTokenRaisesOnlyWhenUncaught` | src/main/java/com/nhnacademy/marketgg/gateway/jwt/JwtUtils.java:72-82 | An exception reaches the caller only on the expiry path or for a refusal no catch clause handles (not yet valid, or another library exception). Every caught refusal is swallowed. |
| `JwtUtils.RequestRenewToken` | src/main/java/com/nhnacademy/marketgg/gateway/jwt/JwtUtils.java:85-98 | No response fails with NullPointerException. A missing Authorization header gives null. An empty header list fails `get(0)`. A first value shorter than 7 characters fails `substring(7)`. Otherwise the result is that first value minus its first 7 characters. |
| `JwtUtils.RenewalStripsBearer` | src/main/java/com/nhnacademy/marketgg/gateway/jwt/JwtUtils.java:94-97 | A first header value `Bearer <t>` yields t. |
| `JwtUtils.RenewalEchoRoundTrip` | src/main/java/com/nhnacademy/marketgg/gateway/jwt/JwtUtils.java:88-96 | The strip undoes `setBearerAuth`: a service that echoes the request's Authorization header returns the token that was sent. |
| `JwtUtils.BearerAuth` | src/main/java/com/nhnacademy/marketgg/gateway/jwt/JwtUtils.java:90-91 | The bearer header value is the prefix `Bearer ` (section 2.1 of RFC 6750), which is 7 characters long, followed by the token. |
| `JwtUtils.RenewalRequest` | src/main/java/com/nhnacademy/marketgg/gateway/jwt/JwtUtils.java:88-91 | The renewal GET goes to the renewal URL and carries the expired token after the bearer prefix. |
| `JwtUtils.GetClaims` | src/main/java/com/nhnacademy/marketgg/gateway/jwt/JwtUtils.java:126-132 | Returns a verified token's claim set. Any refusal, expiry included, propagates: an illegal argument as Java's IllegalArgumentException, every other refusal as the library's JwtException. |
| `JwtUtils.GetEmail` | src/main/java/com/nhnacademy/marketgg/gateway/jwt/JwtUtils.java:106-108 | Returns the `sub` claim of a verified token (section 4.1.2 of RFC 7519), or null when it has none. A refused token propagates the library's exception. |
| `JwtUtils.GetJwtSecret` | src/main/java/com/nhnacademy/marketgg/gateway/jwt/JwtUtils.java:50-53 | A null reply throws IllegalArgumentException. A reply without `body` throws NullPointerException. A `body` without `secret` gives null. Otherwise the result is `body.secret`. |

## Findings

| source | as written | input that shows it | evidently intended | confidence | as-written member | corrected member |
|---|---|---|---|---|---|---|
| src/main/java/com/nhnacademy/marketgg/gateway/jwt/JwtUtils.java:123 | `sb.substring(0, sb.toString().length() - 1)` on the builder | a verified token whose AUTHORITIES claim is `[]` | zero roles give the empty role string | not executed | `JwtUtils.GetRoles`, `JwtUtils.EmptyAuthoritiesTrimFails` | `JwtUtils.Roles` |

## Left out

- `getKey`: not modelled. It decodes the secret as base64url and builds an HMAC-SHA key, all inside library code. Of `getJwtSecret`, only the `body.secret` lookup in the reply is modelled.
- The blocking secret-service GET, its 3-second timeout and its JSON decoding are library and network code. The decoded reply is an input of `GetJwtSecret`.
- JWS signature checking, the compact serialisation and the comparison of `exp`/`nbf` with the clock are done by the JWT library. The model takes their verdict as the `ParseOutcome` input. Because that verdict includes the clock, it is given separately to each call.
- The renewal HTTP transport (`exchangeToMono`, `block`, the absent timeout) is abstracted. Only the response's optional Authorization header list remains, through the `exchange` oracle.
- Logging (`log.error`) is left out. It has no effect on any result.
- `GetRoles`: roles are strings. A `null` element, which Java would append as "null", is not modelled. Neither is a non-string element, which fails the cast to `String`.
- `GetJwtSecret`: `body` and `secret` are assumed to hold a JSON object and a string. A value of another JSON type, which fails a cast in Java, is not modelled.
- `GetEmail`: the library's conversion of a non-string `sub` value is not modelled. The subject is either a string or missing.
- Character counts: a Dafny `char` is one Unicode scalar value, while Java's `substring(7)` and `length() - 1` count UTF-16 code units. The two differ only when a header value or a role contains a character outside the Basic Multilingual Plane; such values are not modelled separately.
