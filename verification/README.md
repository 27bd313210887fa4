# Authentication token lifecycle of `auth-service`

A Dafny model of the token lifecycle in the authentication service of an
e-commerce platform. It has four parts:

- **Refresh-token table** (`TokenRepository`, file `refresh_token_repository.dfy`).
  The `refresh_tokens` table is a class whose rows are a sequence of
  `(token, expiryDate, owner)` records. Its invariant is the unique token
  column. The repository queries are methods on it: save, `findByToken`,
  `findByUser`, `delete`, and the two bulk `DELETE` statements. Both bulk
  deletes are one function, `DeleteWhere`, over a first-order WHERE condition.
- **Refresh-token service** (`RefreshTokens`, file `refresh_token_service.dfy`).
  It creates a row expiring `refreshTokenDurationMs` after `now`. It runs the
  destructive expiry check, invalidates one row, and delegates the bulk deletes.
- **User service** (`Users`, file `user_service.dfy`). This is the users table,
  keyed by a generated id and a unique email. It covers registration and the
  two lookups.
- **Session manager** (`Auth`, file `auth_service.dfy`). It models
  `authenticate`, `refreshToken`, `logout` and `logoutAll` as methods that read
  the user table and change only the refresh-token table.
- **Access tokens** (`Jwt`, file `jwt_service.dfy`). A minted token carries the
  `iss`, `sub`, `iat` and `exp` claims of RFC 7519, section 4.1. The times are
  NumericDate seconds (RFC 7519, section 2). Validity is decided fail-closed.
  Signing and signature verification are an abstract codec: a pair of
  functions between claims records and strings. The parser that `JwtConfig`
  builds is `Jwt.JwtService.Parse`. It verifies the signature with the codec,
  then rejects an expired token (`ExpiredJwtException`) and a foreign issuer
  (`requireIssuer`, `IncorrectClaimException`). Round-trip lemmas assume that
  the codec's check accepts its own signatures.

Time is an explicit `now` parameter in milliseconds. `UUID.randomUUID()` is
the `uuid` parameter. The unique token column rejects a `uuid` already stored
(`DuplicateKey`), so freshness is a proved outcome, not an assumption.
`PasswordEncoder.encode` and `matches` are function-valued constants of the
services.

In four places the code behaves differently from what its interface Javadoc
(`AuthService.java:16-34`) or a refresh scheme with rotation would suggest.
The model follows the code in each:

- `refreshToken` does not rotate. It stores a new row and keeps the presented
  one, so the old string still resolves afterwards (`Auth.AuthService.Refresh`,
  `Auth.AuthService.LoginThenRefreshTwice`).
- Expiry comparisons are strict (`isBefore`, `before`, `<`). A refresh token or
  access token that expires exactly at `now` is still accepted, and the sweep
  keeps it.
- An expired refresh token raises `InvalidTokenException`
  (`RefreshTokenServiceImpl.java:81`). The `ExpiredTokenException` that
  `AuthService.java:32` declares is never thrown.
- Login with an unknown email fails in `Optional.get()`
  (`AuthServiceImpl.java:32`) with `NoSuchElementException`, not with the
  `UserNotFoundException` that `AuthService.java:22` declares.

The services call `JwtServiceImpl` through the `JwtService` interface. The
class does not declare `implements JwtService` (`JwtServiceImpl.java:22`); the
model takes it to be the one `JwtService` bean that both `AuthServiceImpl` and
`RefreshTokenServiceImpl` receive.

`AuthServiceImpl` calls `verifyExpiration` and `invalidate` on its
`RefreshTokenService` (`AuthServiceImpl.java:54`, `:77`). The interface
(`RefreshTokenService.java:12-48`) declares neither method, although
`RefreshTokenServiceImpl.java:76` and `:85` mark both `@Override`. The model
takes both calls to reach `RefreshTokenServiceImpl` through its Spring
transactional proxy, so each runs in its own transaction. The rollback in the
second Findings row rests on this.

## Model

| member | source | states |
|---|---|---|
| `TokenRepository.Select` | auth-service/src/main/java/com/ecommerce/platform/authservice/repository/RefreshTokenRepository.java:25-31 | a row is selected iff it is in the table and matches the WHERE condition; the selection is no longer than the table |
| `TokenRepository.DeleteWhere` | auth-service/src/main/java/com/ecommerce/platform/authservice/repository/RefreshTokenRepository.java:25-31 | after `DELETE ... WHERE w` a row remains iff it was stored and does not match `w`: nothing is added or modified, and the result is a subset of the table |
| `TokenRepository.FindToken` | auth-service/src/main/java/com/ecommerce/platform/authservice/repository/RefreshTokenRepository.java:19 | a found row is stored and carries the token; nothing is found iff no stored row carries it |
| `TokenRepository.UniqueTokensAt` | auth-service/src/main/java/com/ecommerce/platform/authservice/model/RefreshToken.java:21-22 | under the unique token column, no two rows at different positions share a token |
| `TokenRepository.FindTokenUnique` | auth-service/src/main/java/com/ecommerce/platform/authservice/model/RefreshToken.java:21-22 | under the unique column, a stored row is exactly what its token resolves to |
| `TokenRepository.AppendKeepsUnique` | auth-service/src/main/java/com/ecommerce/platform/authservice/model/RefreshToken.java:21-22 | inserting a row with a token not yet stored keeps tokens unique |
| `TokenRepository.SelectKeepsUnique` | auth-service/src/main/java/com/ecommerce/platform/authservice/repository/RefreshTokenRepository.java:25-31 | every selection, and so every bulk delete, of a unique-token table keeps tokens unique |
| `TokenRepository.SelectIdempotent` | auth-service/src/main/java/com/ecommerce/platform/authservice/repository/RefreshTokenRepository.java:25-31 | selecting twice with one condition gives the same rows as selecting once |
| `TokenRepository.DeleteWhereIdempotent` | auth-service/src/main/java/com/ecommerce/platform/authservice/repository/RefreshTokenRepository.java:25-31 | a bulk delete run twice with the same user, or the same `now`, leaves what one run leaves |
| `TokenRepository.DeleteWhereOfUnmatched` | auth-service/src/main/java/com/ecommerce/platform/authservice/service/AuthServiceImpl.java:74-81 | a delete whose condition matches no row leaves the table exactly as it was, so logout of an unknown token changes nothing |
| `TokenRepository.LogoutAllRevokesEveryToken` | auth-service/src/main/java/com/ecommerce/platform/authservice/service/AuthServiceImpl.java:84-90 | after deleting a user's rows, no token that user held resolves, so every later refresh with one of them fails |
| `TokenRepository.SweepKeepsLiveToken` | auth-service/src/main/java/com/ecommerce/platform/authservice/repository/RefreshTokenRepository.java:29-31 | the sweep at `now` keeps every row with `expiryDate >= now`, including one expiring exactly at `now`, and its token still resolves to it |
| `TokenRepository.RefreshTokenRepository.Save` | auth-service/src/main/java/com/ecommerce/platform/authservice/model/RefreshToken.java:17-39 | saving succeeds iff the token is not stored yet, and then the table grows by exactly that row; otherwise it is `DuplicateKey` and the table is unchanged; tokens stay unique |
| `TokenRepository.RefreshTokenRepository.FindByToken` | auth-service/src/main/java/com/ecommerce/platform/authservice/repository/RefreshTokenRepository.java:16-19 | the result is the single stored row with that token, or none exactly when no row has it |
| `TokenRepository.RefreshTokenRepository.FindByUser` | auth-service/src/main/java/com/ecommerce/platform/authservice/repository/RefreshTokenRepository.java:20-23 | empty iff the user owns no row; one row iff it is the user's only row; `NonUniqueResult` only when the user owns two rows with different tokens |
| `TokenRepository.RefreshTokenRepository.Delete` | auth-service/src/main/java/com/ecommerce/platform/authservice/service/RefreshTokenServiceImpl.java:87-88 | removes the row of that token and keeps every other row; the token no longer resolves |
| `TokenRepository.RefreshTokenRepository.DeleteAllByUser` | auth-service/src/main/java/com/ecommerce/platform/authservice/repository/RefreshTokenRepository.java:25-27 | afterwards a row is stored iff it was stored before and is owned by another user |
| `TokenRepository.RefreshTokenRepository.DeleteAllExpired` | auth-service/src/main/java/com/ecommerce/platform/authservice/repository/RefreshTokenRepository.java:29-31 | afterwards a row is stored iff it was stored before and `now <= expiryDate` (strict `<` deletes) |
| `TokenRepository.RefreshTokenRepository.Rollback` | auth-service/src/main/java/com/ecommerce/platform/authservice/service/RefreshTokenServiceImpl.java:76-77 | the transaction's rollback restores the table as it was when the transaction began |
| `Jwt.ToNumericDate` | auth-service/src/main/java/com/ecommerce/platform/authservice/security/JwtServiceImpl.java:62-63 | a Date becomes whole seconds by truncating division: for instants after the epoch the seconds times 1000 are at most the millis and within one second of them |
| `Jwt.ExpiryAsRead` | auth-service/src/main/java/com/ecommerce/platform/authservice/security/JwtServiceImpl.java:63 | for instants after the epoch, the expiration read back from a token is never later than the one set, and less than a second earlier |
| `Jwt.JwtService.BuildClaims` | auth-service/src/main/java/com/ecommerce/platform/authservice/security/JwtServiceImpl.java:58-63 | the claims carry the configured issuer and the user's email as subject; issued-at and expiration are the whole seconds of `now` and of `now + expiration`, and for instants after the epoch never later than those instants and less than a second earlier |
| `Jwt.JwtService.BuildToken` | auth-service/src/main/java/com/ecommerce/platform/authservice/security/JwtServiceImpl.java:58-66 | with a codec whose check accepts its own signatures, the signed token decodes back to exactly those claims and is not blank |
| `Jwt.JwtService.GenerateAccessToken` | auth-service/src/main/java/com/ecommerce/platform/authservice/security/JwtServiceImpl.java:35-39 | with an inverting codec, the token decodes to the configured issuer, the user's email, and an expiration `accessExpiration` after `now` in whole seconds; `Jwt.GeneratedTokensValidForUser` states its validity |
| `Jwt.JwtService.GenerateRefreshToken` | auth-service/src/main/java/com/ecommerce/platform/authservice/security/JwtServiceImpl.java:46-50 | as above with `refreshExpiration`; `Jwt.GeneratedTokensValidForUser` states its validity |
| `Jwt.JwtService.Parse` | auth-service/src/main/java/com/ecommerce/platform/authservice/config/JwtConfig.java:38-44 | the configured parser returns the claims iff the signature verifies, the expiration is not before `now` and the issuer is the configured one; an expired token is `ExpiredJwt`, a foreign issuer `IncorrectClaim`, and a signature or format failure passes through unchanged |
| `Jwt.ParsedClaimsAccepted` | auth-service/src/main/java/com/ecommerce/platform/authservice/security/JwtServiceImpl.java:81-91 | the expiry and issuer tests that `isTokenValid` makes itself never reject claims the configured parser returned |
| `Jwt.JwtService.IsTokenValid` | auth-service/src/main/java/com/ecommerce/platform/authservice/security/JwtServiceImpl.java:73-110 | true iff the token is present, not blank, carries a signature that verifies, has not expired before `now`, and carries the configured issuer; every other case is false and nothing is thrown |
| `Jwt.JwtService.IsTokenValidAsWritten` | auth-service/src/main/java/com/ecommerce/platform/authservice/security/JwtServiceImpl.java:73-110 | throws iff the token is non-blank and its parse failure is not one of the four caught kinds (expired, malformed, java.lang security, illegal argument); whenever it returns, it agrees with `IsTokenValid` |
| `Jwt.JwtService.ExtractUsername` | auth-service/src/main/java/com/ecommerce/platform/authservice/security/JwtServiceImpl.java:118-130 | returns iff the configured parser accepts the token at `now`, and then returns exactly the token's `sub` claim; every parse failure, an expired token included, is rethrown unchanged |
| `Jwt.JwtService.IsTokenValidForUser` | auth-service/src/main/java/com/ecommerce/platform/authservice/security/JwtServiceImpl.java:132-140 | throws exactly when the as-written `isTokenValid` throws, with the same exception; whenever it returns, it answers true iff the token is valid and its `sub` claim equals the username |
| `Jwt.BuildTokenRoundTrip` | auth-service/src/main/java/com/ecommerce/platform/authservice/security/JwtServiceImpl.java:58-66 | with a codec that accepts its own signatures, a built token yields the user's email as subject up to its expiry as read back, and after it extraction throws `ExpiredJwt`; the as-written check never throws on it and answers true exactly until that expiry; it is valid up to a second before issued-at plus TTL and invalid after it |
| `Jwt.GeneratedTokensValidForUser` | auth-service/src/main/java/com/ecommerce/platform/authservice/security/JwtServiceImpl.java:35-50 | the check of an access token against its user's email does not throw and answers true exactly until `accessExpiration` after minting, rounded down to a whole second; a refresh JWT likewise with `refreshExpiration` |
| `Jwt.ForeignIssuerRejected` | auth-service/src/main/java/com/ecommerce/platform/authservice/security/JwtServiceImpl.java:88-91 | a token minted under one issuer, checked by a service with the same key and another issuer, is invalid for the intended check; as written, the parser's `IncorrectClaimException` escapes while the token is unexpired, and the answer is false after that |
| `Jwt.UncaughtParseFailureEscapes` | auth-service/src/main/java/com/ecommerce/platform/authservice/security/JwtServiceImpl.java:97-109 | a non-blank token with a signature failure or an issuer rejected by the parser makes the as-written check throw, where the intended check answers false |
| `RefreshTokens.RefreshTokenService.constructor` | auth-service/src/main/java/com/ecommerce/platform/authservice/service/RefreshTokenServiceImpl.java:27-28 | the refresh duration is the configured `jwt.refresh-expiration` |
| `RefreshTokens.RefreshTokenService.CreateRefreshToken` | auth-service/src/main/java/com/ecommerce/platform/authservice/service/RefreshTokenServiceImpl.java:33-47 | a null user gives `IllegalArgument` and no change; otherwise, with a new token, the table grows by exactly the row `(uuid, now + refreshTokenDurationMs, user.id)`, whose token was not stored before |
| `RefreshTokens.RefreshTokenService.ValidateToken` | auth-service/src/main/java/com/ecommerce/platform/authservice/service/RefreshTokenServiceImpl.java:49-62 | throws `IllegalArgument` iff the token is null or blank; otherwise lets a parse failure escape exactly when `isTokenValid` does not catch it, and whenever it returns, the answer is the intended validity decision |
| `RefreshTokens.RefreshTokenService.FindByToken` | auth-service/src/main/java/com/ecommerce/platform/authservice/service/RefreshTokenServiceImpl.java:64-68 | passes the lookup through to the repository unchanged |
| `RefreshTokens.RefreshTokenService.DeleteAllByUser` | auth-service/src/main/java/com/ecommerce/platform/authservice/service/RefreshTokenServiceImpl.java:70-74 | has exactly the repository's delete-by-user effect, for that user's id |
| `RefreshTokens.RefreshTokenService.VerifyExpiration` | auth-service/src/main/java/com/ecommerce/platform/authservice/service/RefreshTokenServiceImpl.java:76-83 | a row expired before `now` is deleted, no longer resolves, and `InvalidToken` is thrown; a row expiring at or after `now` passes and the table is unchanged |
| `RefreshTokens.RefreshTokenService.VerifyExpirationAsWritten` | auth-service/src/main/java/com/ecommerce/platform/authservice/service/RefreshTokenServiceImpl.java:76-83 | same verdict, but the rollback leaves the table unchanged, so an expired stored row still resolves afterwards |
| `RefreshTokens.RefreshTokenService.Invalidate` | auth-service/src/main/java/com/ecommerce/platform/authservice/service/RefreshTokenServiceImpl.java:85-90 | removes exactly the row of that token and no other |
| `RefreshTokens.RefreshTokenService.DeleteAllExpired` | auth-service/src/main/java/com/ecommerce/platform/authservice/service/RefreshTokenServiceImpl.java:92-96 | has exactly the repository's sweep effect at `now` |
| `Users.FindUser` | auth-service/src/main/java/com/ecommerce/platform/authservice/service/UserServiceImpl.java:42-50 | a found user is stored and has the key; nothing is found iff no stored user has it |
| `Users.FindUserUnique` | auth-service/src/main/java/com/ecommerce/platform/authservice/model/User.java:17-22 | under the id and email keys, a stored user is what both its id and its email find |
| `Users.AppendKeepsUniqueUsers` | auth-service/src/main/java/com/ecommerce/platform/authservice/model/User.java:17-22 | adding a user with a new id and a new email keeps both keys unique |
| `Users.UserService.ExistsByEmail` | auth-service/src/main/java/com/ecommerce/platform/authservice/service/UserServiceImpl.java:52-55 | true iff some stored user has that email |
| `Users.UserService.GetUserById` | auth-service/src/main/java/com/ecommerce/platform/authservice/service/UserServiceImpl.java:42-45 | the stored user with that id, or none exactly when no user has it; read-only |
| `Users.UserService.GetUserByEmail` | auth-service/src/main/java/com/ecommerce/platform/authservice/service/UserServiceImpl.java:47-50 | the stored user with that email, or none exactly when `existsByEmail` is false; read-only |
| `Users.UserService.CreateUser` | auth-service/src/main/java/com/ecommerce/platform/authservice/service/UserServiceImpl.java:25-40 | an email in use gives `UserAlreadyExists` and no change; otherwise exactly one user is added, with the next id, the request email, the encoded password and no role; emails stay unique and `existsByEmail` then holds |
| `Auth.AuthService.constructor` | auth-service/src/main/java/com/ecommerce/platform/authservice/service/AuthServiceImpl.java:18-25 | the session manager holds the injected user service, refresh-token service, password encoder and JWT service, and its JWT service is the same bean the refresh-token service holds |
| `Auth.AuthService.IssueTokens` | auth-service/src/main/java/com/ecommerce/platform/authservice/service/AuthServiceImpl.java:37-44 | the common end of login and refresh: succeeds iff the new token is not stored yet, and then returns the user's access token, the new refresh token and the access TTL and stores exactly the row `(uuid, now + refresh TTL, user.id)`; otherwise `DuplicateKey` and no change |
| `Auth.AuthService.Authenticate` | auth-service/src/main/java/com/ecommerce/platform/authservice/service/AuthServiceImpl.java:27-45 | an unknown email gives `NoSuchElement`, a wrong password `BadCredentials`, and neither stores a row; success (iff user found, password matches, token new) returns the user's access token, the new refresh token and the access TTL, and stores exactly the row `(uuid, now + refresh TTL, user.id)` |
| `Auth.AuthService.Refresh` | auth-service/src/main/java/com/ecommerce/platform/authservice/service/AuthServiceImpl.java:47-69 | an unknown token gives `InvalidToken` with no change; an expired one gives `InvalidToken`, and because `verifyExpiration` rolls its delete back the table is unchanged and the token still resolves; a live one with a missing owner gives `UserNotFound`; otherwise a new row for the same owner is added and the old token still resolves |
| `Auth.AuthService.Logout` | auth-service/src/main/java/com/ecommerce/platform/authservice/service/AuthServiceImpl.java:71-82 | never fails; removes exactly the row of that token if stored, changes nothing otherwise, and afterwards the token does not resolve |
| `Auth.AuthService.LogoutAll` | auth-service/src/main/java/com/ecommerce/platform/authservice/service/AuthServiceImpl.java:84-90 | an unknown user id gives `UserNotFound` with no change; otherwise the user's rows are deleted, other users' rows are kept, and the user owns no row |
| `Auth.AuthService.LoginThenRefreshTwice` | auth-service/src/main/java/com/ecommerce/platform/authservice/service/AuthServiceImpl.java:56-68 | after a login, two refreshes with the login's refresh token both succeed and that token still resolves; the table grows by three rows |
| `Auth.AuthService.RefreshExpiredTwice` | auth-service/src/main/java/com/ecommerce/platform/authservice/service/AuthServiceImpl.java:51-54 | two refreshes with an expired stored token both fail with `InvalidToken`, and the table and that token's row are the same afterwards as before |

## Left out

- Cryptography: JWS compact serialisation, HMAC signing, Base64 decoding of the `jwt.secret` key and the builder calls that assemble the parser (`JwtConfig.java`) are library calls; the checks that parser makes are `Jwt.JwtService.Parse`. A token is a claims record behind an abstract `Codec`, so the secret is not part of `JwtConfig` here.
- The configured parser reads its own clock; `Jwt.JwtService.Parse` takes it to read the same `now` as the service. The parser's allowed clock skew is its default, zero.
- Tokens whose `sub`, `iss` or `exp` claim is missing are not modelled. Every parsed claims record has all three. In the code the three cases differ. A missing `exp` makes `isTokenValid` throw a `NullPointerException` at `JwtServiceImpl.java:83`. A missing `iss` is rejected inside the parser by `requireIssuer` (`JwtConfig.java:42`) with a `MissingClaimException` that `isTokenValid` does not catch. A missing `sub` passes `isTokenValid`, since line 94 discards the subject; only `isTokenValidForUser` then fails, with a `NullPointerException` at line 138.
- `Jwt.JwtService.BuildClaims`: the code reads the clock twice, once for issued-at and once for expiration. The model uses one reading, so expiration minus issued-at is exactly the TTL only up to the gap between the two readings.
- Time is an unbounded integer in milliseconds. The sub-millisecond precision of `Instant`, and overflow of `now + ttl` in `Instant.plusMillis` or `Date.from`, are not modelled. Realistic clocks and TTLs stay far from both limits.
- The database clock read by `CURRENT_TIMESTAMP` is taken to be the same `now` the service reads.
- `Auth.AuthService.Logout`: "never fails" takes the persistence context to be open at the log call of `AuthServiceImpl.java:78`. That call reads the lazily loaded `user` of the row (`RefreshToken.java:27`) after `invalidate`'s transaction has committed, and the row was loaded in `findByToken`'s read-only transaction, which has ended by then. Without an open persistence context, Hibernate would throw `LazyInitializationException` after the delete. The model does not capture that exception.
- `Users.UserService.CreateUser`: states that the stored password is `encode(password)`, but not that it differs from the plain password, because the encoder is an arbitrary function parameter.
- `PasswordEncoder` internals: `encode` and `matches` are uninterpreted function parameters.
- The surrogate `id` of a refresh-token row is not modelled. The unique token identifies the row, which `delete(entity)` removes.
- A schema-level unique constraint that the one-to-one mapping of `RefreshToken.user` may add to `user_id` depends on the persistence framework's DDL generation. It is not modelled, so a user may own several rows.
- Transactions are modelled only where they change an outcome: the rollback in `verifyExpiration` (see Findings). Isolation, and the races between concurrent refreshes and the sweep, lie outside a sequential model.
- `findByToken(null)` and the other null arguments the code does not test are not modelled. Only the null checks the code makes are modelled: `createRefreshToken`, `validateToken` and `isTokenValid`.
- `getAccessTokenExpirationInMillis` is not defined in `JwtServiceImpl.java`. It is the constant `accessTokenExpirationInMillis` of the session manager.
- `register` is declared but has no implementation, so it is not modelled. `AuthController.java`, the application bootstrap, the request validation annotations, `Role` (an opaque optional label here) and logging are not modelled either.
- Periodic scheduling of the sweep is not modelled. `DeleteAllExpired` is one run of it.

## Findings

| source | as written | input that shows it | evidently intended | confidence | as-written member | corrected member |
|---|---|---|---|---|---|---|
| auth-service/src/main/java/com/ecommerce/platform/authservice/security/JwtServiceImpl.java:97-109 | `catch (SecurityException ex)` names `java.lang.SecurityException`, because the on-demand import `io.jsonwebtoken.*` has no type of that name. A signature failure (`io.jsonwebtoken.security.SignatureException`) is not caught and escapes `isTokenValid`. So does the `IncorrectClaimException` that the parser's `requireIssuer` (`JwtConfig.java:42`) raises. | a non-blank token signed with another key, or carrying another issuer | return `false`, as `JwtService.java:26` documents for a bad signature, so the check fails closed without throwing | medium, not executed | `Jwt.JwtService.IsTokenValidAsWritten` | `Jwt.JwtService.IsTokenValid` |
| auth-service/src/main/java/com/ecommerce/platform/authservice/service/RefreshTokenServiceImpl.java:76-83 | `verifyExpiration` is `@Transactional`. The unchecked `InvalidTokenException` thrown at line 81, after the delete at line 80, rolls back the transaction, so the expired row stays stored. | a stored row with `expiryDate < now` passed to `verifyExpiration` | the expired row is removed when the check fails, as the comment at line 80 says. `Auth.AuthService.Refresh` models `refreshToken` as it runs, so it uses the as-written member; `Auth.AuthService.RefreshExpiredTwice` shows the consequence | medium, not executed | `RefreshTokens.RefreshTokenService.VerifyExpirationAsWritten` | `RefreshTokens.RefreshTokenService.VerifyExpiration` |
