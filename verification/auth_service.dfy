/** The session manager: login, refresh, logout and logout of every session,
    as steps over the users table and the refresh-token table. */
module Auth {
  import opened Domain
  import opened TokenRepository
  import Jwt
  import opened RefreshTokens
  import opened Users

  class AuthService {
    const userService: UserService
    const refreshTokenService: RefreshTokenService
    const jwtService: Jwt.JwtService
    /** PasswordEncoder.matches(plain, encoded). */
    const matches: (string, string) -> bool
    /** The access-token lifetime the responses report. */
    const accessTokenExpirationInMillis: Millis

    ghost predicate Valid()
      reads this, userService, refreshTokenService, refreshTokenService.repository
    {
      userService.Valid() && refreshTokenService.Valid()
    }

    constructor (userService: UserService, refreshTokenService: RefreshTokenService, jwtService: Jwt.JwtService,
                 matches: (string, string) -> bool, accessTokenExpirationInMillis: Millis)
      // one JWT service bean is injected into both services
      requires refreshTokenService.jwtService == jwtService
      ensures this.refreshTokenService.jwtService == this.jwtService
      ensures this.userService == userService && this.refreshTokenService == refreshTokenService
      ensures this.jwtService == jwtService && this.matches == matches
      ensures this.accessTokenExpirationInMillis == accessTokenExpirationInMillis
    {
      this.userService := userService;
      this.refreshTokenService := refreshTokenService;
      this.jwtService := jwtService;
      this.matches := matches;
      this.accessTokenExpirationInMillis := accessTokenExpirationInMillis;
    }

    /** The stored refresh-token rows. */
    ghost function Rows(): (r: seq<RefreshToken>)
      reads this, refreshTokenService, refreshTokenService.repository
    {
      refreshTokenService.repository.rows
    }

    /** The common end of authenticate and refreshToken: an access token is
        minted for the user, a refresh-token row is created for the user, and
        the response carries both with the access-token lifetime. A token value
        already stored is rejected by the unique column and nothing changes. */
    method IssueTokens(user: User, now: Millis, uuid: string) returns (r: Result<AuthResponse>)
      requires Valid()
      modifies refreshTokenService.repository
      ensures Valid()
      ensures r.Ok? <==> TokenAbsent(old(Rows()), uuid)
      ensures r.Ok? ==>
                && r.value == AuthResponse(jwtService.GenerateAccessToken(user, now), uuid, accessTokenExpirationInMillis)
                && Rows() == old(Rows()) + [RefreshToken(uuid, now + refreshTokenService.refreshTokenDurationMs, user.id)]
      ensures r.Err? ==> r.error == DuplicateKey && Rows() == old(Rows())
    {
      var accessToken := jwtService.GenerateAccessToken(user, now);
      var created := refreshTokenService.CreateRefreshToken(Some(user), now, uuid);
      if created.Err? {
        return Err(created.error);
      }
      r := Ok(AuthResponse(accessToken, created.value.token, accessTokenExpirationInMillis));
    }

    /** authenticate: the user is looked up by email with Optional.get(), so an
        unknown email throws NoSuchElementException; a password that does not
        match throws BadCredentialsException. On success an access token is minted
        for the user and a refresh-token row is stored for the user. */
    method Authenticate(request: AuthRequest, now: Millis, uuid: string) returns (r: Result<AuthResponse>)
      requires Valid()
      modifies refreshTokenService.repository
      ensures Valid()
      ensures userService.GetUserByEmail(request.email).None? ==> r == Err(NoSuchElement)
      ensures var found := userService.GetUserByEmail(request.email);
              found.Some? && !matches(request.password, found.value.password) ==> r == Err(BadCredentials)
      ensures r.Err? ==> Rows() == old(Rows())
      ensures r.Ok? <==> && userService.GetUserByEmail(request.email).Some?
                         && matches(request.password, userService.GetUserByEmail(request.email).value.password)
                         && TokenAbsent(old(Rows()), uuid)
      ensures r.Ok? ==>
                var user := userService.GetUserByEmail(request.email).value;
                && user.email == request.email
                && r.value == AuthResponse(jwtService.GenerateAccessToken(user, now), uuid, accessTokenExpirationInMillis)
                && Rows() == old(Rows()) + [RefreshToken(uuid, now + refreshTokenService.refreshTokenDurationMs, user.id)]
                && refreshTokenService.FindByToken(uuid) == Some(RefreshToken(uuid, now + refreshTokenService.refreshTokenDurationMs, user.id))
    {
      var found := userService.GetUserByEmail(request.email);
      if found.None? {
        return Err(NoSuchElement);
      }
      var user := found.value;
      if !matches(request.password, user.password) {
        return Err(BadCredentials);
      }
      r := IssueTokens(user, now, uuid);
    }

    /** refreshToken: an unknown refresh token throws InvalidTokenException. An
        expired one throws InvalidTokenException from verifyExpiration, whose
        transaction rolls its own delete back, so the row stays stored. A live
        one whose owner is gone throws UserNotFoundException. Otherwise a new
        access token and a new refresh-token row are issued for the owner, and
        the presented row is kept: there is no rotation. */
    method Refresh(token: string, now: Millis, uuid: string) returns (r: Result<AuthResponse>)
      requires Valid()
      modifies refreshTokenService.repository
      ensures Valid()
      ensures var found := old(refreshTokenService.FindByToken(token));
              found.None? ==> r == Err(InvalidToken) && Rows() == old(Rows())
      ensures var found := old(refreshTokenService.FindByToken(token));
              found.Some? && found.value.expiryDate < now ==>
                && r == Err(InvalidToken)
                && Rows() == old(Rows())
                && refreshTokenService.FindByToken(token) == found
      ensures var found := old(refreshTokenService.FindByToken(token));
              found.Some? && now <= found.value.expiryDate && userService.GetUserById(found.value.owner).None? ==>
                r == Err(UserNotFound) && Rows() == old(Rows())
      ensures var found := old(refreshTokenService.FindByToken(token));
              found.Some? && now <= found.value.expiryDate && userService.GetUserById(found.value.owner).Some? ==>
                var user := userService.GetUserById(found.value.owner).value;
                var issued := RefreshToken(uuid, now + refreshTokenService.refreshTokenDurationMs, user.id);
                && user.id == found.value.owner
                && (r.Ok? <==> TokenAbsent(old(Rows()), uuid))
                && (r.Ok? ==> && r.value == AuthResponse(jwtService.GenerateAccessToken(user, now), uuid, accessTokenExpirationInMillis)
                              && Rows() == old(Rows()) + [issued]
                              && refreshTokenService.FindByToken(token) == found)
                && (r.Err? ==> r.error == DuplicateKey && Rows() == old(Rows()))
    {
      var found := refreshTokenService.FindByToken(token);
      if found.None? {
        return Err(InvalidToken);
      }
      var current := found.value;
      var verified := refreshTokenService.VerifyExpirationAsWritten(current, now);
      if verified.Fail? {
        assert Rows() == old(Rows()) && refreshTokenService.FindByToken(token) == found;
        return Err(verified.error);
      }
      assert Rows() == old(Rows());
      var owner := userService.GetUserById(current.owner);
      if owner.None? {
        return Err(UserNotFound);
      }
      var user := owner.value;
      r := IssueTokens(user, now, uuid);
      if r.Ok? {
        FindTokenUnique(Rows(), current);
      }
    }

    /** logout: deletes the row of that refresh token if there is one and does
        nothing otherwise; it never fails. */
    method Logout(token: string)
      requires Valid()
      modifies refreshTokenService.repository
      ensures Valid()
      ensures Rows() == DeleteWhere(old(Rows()), TokenIs(token))
      ensures old(refreshTokenService.FindByToken(token)).None? ==> Rows() == old(Rows())
      ensures refreshTokenService.FindByToken(token).None?
    {
      var found := refreshTokenService.FindByToken(token);
      if found.Some? {
        refreshTokenService.Invalidate(found.value);
      } else {
        DeleteWhereOfUnmatched(Rows(), TokenIs(token));
      }
    }

    /** logoutAll: an unknown user id throws UserNotFoundException and changes
        nothing; otherwise every row of that user is deleted and the rows of
        other users are kept. */
    method LogoutAll(userId: UserId) returns (r: Outcome)
      requires Valid()
      modifies refreshTokenService.repository
      ensures Valid()
      ensures userService.GetUserById(userId).None? ==> r == Fail(UserNotFound) && Rows() == old(Rows())
      ensures userService.GetUserById(userId).Some? ==>
                && r == Pass
                && Rows() == DeleteWhere(old(Rows()), OwnerIs(userId))
                && refreshTokenService.repository.FindByUser(userId) == Ok(None)
    {
      var found := userService.GetUserById(userId);
      if found.None? {
        return Fail(UserNotFound);
      }
      refreshTokenService.DeleteAllByUser(found.value);
      r := Pass;
    }

    /** A login followed by two refreshes that both present the login's refresh
        token: both refreshes succeed and the login's token still resolves after
        them, because refreshing does not delete the presented row. */
    method LoginThenRefreshTwice(request: AuthRequest, now: Millis, uuid1: string, uuid2: string, uuid3: string)
      returns (login: Result<AuthResponse>, first: Result<AuthResponse>, second: Result<AuthResponse>)
      requires Valid()
      requires userService.GetUserByEmail(request.email).Some?
      requires matches(request.password, userService.GetUserByEmail(request.email).value.password)
      requires 0 <= refreshTokenService.refreshTokenDurationMs
      requires TokenAbsent(Rows(), uuid1) && TokenAbsent(Rows(), uuid2) && TokenAbsent(Rows(), uuid3)
      requires uuid1 != uuid2 && uuid1 != uuid3 && uuid2 != uuid3
      modifies refreshTokenService.repository
      ensures Valid()
      ensures login.Ok? && first.Ok? && second.Ok?
      ensures login.value.refreshToken == uuid1 && first.value.refreshToken == uuid2 && second.value.refreshToken == uuid3
      ensures refreshTokenService.FindByToken(uuid1).Some?
      ensures |Rows()| == |old(Rows())| + 3
    {
      login := Authenticate(request, now, uuid1);
      var user := userService.GetUserByEmail(request.email).value;
      assert userService.GetUserById(user.id) == Some(user);
      first := Refresh(uuid1, now, uuid2);
      second := Refresh(uuid1, now, uuid3);
    }

    /** Two refreshes with a stored token that has expired: both fail with
        InvalidTokenException, and the expired row is still stored afterwards,
        because each failure rolls back verifyExpiration's delete. */
    method RefreshExpiredTwice(token: string, now: Millis, uuid1: string, uuid2: string)
      returns (first: Result<AuthResponse>, second: Result<AuthResponse>)
      requires Valid()
      requires refreshTokenService.FindByToken(token).Some?
      requires refreshTokenService.FindByToken(token).value.expiryDate < now
      modifies refreshTokenService.repository
      ensures Valid()
      ensures first == Err(InvalidToken) && second == Err(InvalidToken)
      ensures Rows() == old(Rows())
      ensures refreshTokenService.FindByToken(token) == old(refreshTokenService.FindByToken(token))
    {
      first := Refresh(token, now, uuid1);
      second := Refresh(token, now, uuid2);
    }
  }
}
