/** The refresh-token service: creates rows that expire a fixed time after
    their creation, checks expiry destructively, and deletes rows singly or
    in bulk through the repository. */
module RefreshTokens {
  import opened Domain
  import opened TokenRepository
  import Jwt

  class RefreshTokenService {
    const repository: RefreshTokenRepository
    const jwtService: Jwt.JwtService
    /** The `jwt.refresh-expiration` property, in milliseconds. */
    const refreshTokenDurationMs: Millis

    ghost predicate Valid()
      reads this, repository
    {
      repository.Valid()
    }

    constructor (repository: RefreshTokenRepository, jwtService: Jwt.JwtService)
      ensures this.repository == repository && this.jwtService == jwtService
      ensures refreshTokenDurationMs == jwtService.config.refreshExpiration
    {
      this.repository := repository;
      this.jwtService := jwtService;
      this.refreshTokenDurationMs := jwtService.config.refreshExpiration;
    }

    /** createRefreshToken: a null user is rejected; otherwise a row with token
        `uuid` (the random UUID's string form), expiring `refreshTokenDurationMs`
        after `now` and owned by the user, is saved and returned. */
    method CreateRefreshToken(user: Option<User>, now: Millis, uuid: string) returns (r: Result<RefreshToken>)
      requires Valid()
      modifies repository
      ensures Valid()
      ensures user.None? ==> r == Err(IllegalArgument)
      ensures user.Some? && TokenAbsent(old(repository.rows), uuid) ==>
                r == Ok(RefreshToken(uuid, now + refreshTokenDurationMs, user.value.id))
      ensures user.Some? && !TokenAbsent(old(repository.rows), uuid) ==> r == Err(DuplicateKey)
      ensures r.Ok? ==> TokenAbsent(old(repository.rows), r.value.token)
                        && repository.rows == old(repository.rows) + [r.value]
      ensures r.Err? ==> repository.rows == old(repository.rows)
    {
      if user.None? {
        return Err(IllegalArgument);
      }
      var rec := RefreshToken(uuid, now + refreshTokenDurationMs, user.value.id);
      var saved := repository.Save(rec);
      if saved.Fail? {
        return Err(saved.error);
      }
      r := Ok(rec);
    }

    /** validateToken: a null or blank string is rejected with an exception;
        otherwise the JWT service's validity check as written, including the
        parse failures that escape it. Whenever that check returns, its answer
        is the intended validity decision. */
    function ValidateToken(token: Option<string>, now: Millis): (r: Result<Jwt.Call<bool>>)
      ensures r.Err? <==> token.None? || IsBlank(token.value)
      ensures r.Err? ==> r.error == IllegalArgument
      ensures r.Ok? ==>
                (r.value.Throws? <==> !jwtService.Parse(token.value, now).Parsed?
                                      && !Jwt.Caught(jwtService.Parse(token.value, now)))
      ensures r.Ok? && r.value.Throws? ==> r.value.cause == jwtService.Parse(token.value, now)
      ensures r.Ok? && r.value.Returns? ==> r.value.value == jwtService.IsTokenValid(token, now)
    {
      if token.None? || IsBlank(token.value) then Err(IllegalArgument)
      else Ok(jwtService.IsTokenValidAsWritten(token, now))
    }

    /** findByToken: the repository lookup, unchanged. */
    function FindByToken(token: string): (r: Option<RefreshToken>)
      reads this, repository
      requires Valid()
      ensures r == repository.FindByToken(token)
    {
      repository.FindByToken(token)
    }

    /** deleteAllByUser: the repository's bulk delete of the user's rows. */
    method DeleteAllByUser(user: User)
      requires Valid()
      modifies repository
      ensures Valid()
      ensures repository.rows == DeleteWhere(old(repository.rows), OwnerIs(user.id))
    {
      repository.DeleteAllByUser(user.id);
    }

    /** verifyExpiration, with its delete kept: a row that expired before `now`
        is deleted and the check throws; a row expiring at `now` or later passes
        and nothing changes. */
    method VerifyExpiration(token: RefreshToken, now: Millis) returns (r: Outcome)
      requires Valid()
      modifies repository
      ensures Valid()
      ensures token.expiryDate < now ==>
                && r == Fail(InvalidToken)
                && repository.rows == DeleteWhere(old(repository.rows), TokenIs(token.token))
                && repository.FindByToken(token.token).None?
      ensures now <= token.expiryDate ==> r == Pass && repository.rows == old(repository.rows)
    {
      if token.expiryDate < now {
        repository.Delete(token);
        return Fail(InvalidToken);
      }
      r := Pass;
    }

    /** verifyExpiration as it runs: the method is transactional and the
        exception it throws after the delete rolls the transaction back, so the
        expired row is still stored afterwards. */
    method VerifyExpirationAsWritten(token: RefreshToken, now: Millis) returns (r: Outcome)
      requires Valid()
      modifies repository
      ensures Valid()
      ensures r == (if token.expiryDate < now then Fail(InvalidToken) else Pass)
      ensures repository.rows == old(repository.rows)
      ensures token in repository.rows ==> repository.FindByToken(token.token) == Some(token)
    {
      var snapshot := repository.rows;
      r := VerifyExpiration(token, now);
      if r.Fail? {
        repository.Rollback(snapshot);
      }
    }

    /** invalidate: deletes the row of that token and no other. */
    method Invalidate(token: RefreshToken)
      requires Valid()
      modifies repository
      ensures Valid()
      ensures repository.rows == DeleteWhere(old(repository.rows), TokenIs(token.token))
    {
      repository.Delete(token);
    }

    /** deleteAllExpired: the repository's sweep of rows that expired before `now`. */
    method DeleteAllExpired(now: Millis)
      requires Valid()
      modifies repository
      ensures Valid()
      ensures repository.rows == DeleteWhere(old(repository.rows), ExpiredAt(now))
    {
      repository.DeleteAllExpired(now);
    }
  }
}
