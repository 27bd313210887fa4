/** The access-token side of the service: which claims a minted JWT carries,
    how the configured parser treats a token, and the fail-closed validity
    decision. Signing and signature verification belong to the JWT library;
    here they are an abstract codec over claims records. */
module Jwt {
  import opened Domain

  /** The registered claims a minted token carries (RFC 7519, section 4.1):
      "iss", "sub", "iat" and "exp". The times are NumericDate values, whole
      seconds since the epoch (RFC 7519, section 2). */
  datatype Claims = Claims(issuer: string, subject: string, issuedAt: int, expiration: int)

  /** What parsing a token string gives: the claims, or one of these
      exceptions. */
  datatype ParseOutcome =
    | Parsed(claims: Claims)
    | ExpiredJwt          // io.jsonwebtoken.ExpiredJwtException
    | MalformedJwt        // io.jsonwebtoken.MalformedJwtException
    | PlatformSecurity    // java.lang.SecurityException
    | IllegalJwtArgument  // IllegalArgumentException, e.g. an empty string
    | SignatureMismatch   // io.jsonwebtoken.security.SignatureException
    | IncorrectClaim      // io.jsonwebtoken.IncorrectClaimException, e.g. from requireIssuer
    | UnsupportedJwt      // io.jsonwebtoken.UnsupportedJwtException

  /** The four exception kinds isTokenValid catches. */
  predicate Caught(p: ParseOutcome) {
    p.ExpiredJwt? || p.MalformedJwt? || p.PlatformSecurity? || p.IllegalJwtArgument?
  }

  /** A call that returns a value or lets a JWT exception escape. */
  datatype Call<+T> = Returns(value: T) | Throws(cause: ParseOutcome)

  /** The key-dependent half of the JWT library: compact serialisation of a
      claims record signed with the key, and decoding of a token string with
      the signature verified against the key. Decoding does not look at the
      claims' values. */
  datatype Codec = Codec(sign: Claims -> string, verify: string -> ParseOutcome)

  /** A codec whose signature check accepts what its signer produced and gives
      back exactly the claims signed, and whose output is a JWS compact
      serialisation, with '.' separators (RFC 7515, section 7.1). */
  ghost predicate Inverts(codec: Codec) {
    forall c :: codec.verify(codec.sign(c)) == Parsed(c) && '.' in codec.sign(c)
  }

  /** The NumericDate of a Date: its milliseconds divided by 1000 with Java's
      long division, which truncates toward zero. */
  function ToNumericDate(ms: Millis): (s: int)
    ensures 0 <= ms ==> s * 1000 <= ms < s * 1000 + 1000
    ensures ms < 0 ==> s * 1000 - 1000 < ms <= s * 1000
  {
    if 0 <= ms then ms / 1000 else -((-ms) / 1000)
  }

  /** The Date a NumericDate claim is read back as. */
  function FromNumericDate(s: int): (ms: Millis) {
    s * 1000
  }

  /** The instant a token built to expire at `ms` is read back to expire at:
      `ms` rounded to whole seconds, never later for instants after the epoch
      and less than a second earlier. */
  function ExpiryAsRead(ms: Millis): (e: Millis)
    ensures 0 <= ms ==> e <= ms < e + 1000
  {
    FromNumericDate(ToNumericDate(ms))
  }

  /** The JWT service: its configuration and the library codec, both fixed
      when the service is created. */
  datatype JwtService = JwtService(config: JwtConfig, codec: Codec) {

    /** The configured parser's parseSignedClaims at instant `now`: the
        signature is verified with the key; then a token whose expiration
        lies before `now` is rejected as expired (no clock skew is allowed),
        and one whose issuer is not the configured one fails requireIssuer. */
    function Parse(token: string, now: Millis): (p: ParseOutcome)
      ensures p.Parsed? <==> && codec.verify(token).Parsed?
                             && now <= FromNumericDate(codec.verify(token).claims.expiration)
                             && codec.verify(token).claims.issuer == config.issuer
      ensures p.Parsed? ==> p == codec.verify(token)
      ensures codec.verify(token).Parsed? && FromNumericDate(codec.verify(token).claims.expiration) < now ==>
                p == ExpiredJwt
      ensures !codec.verify(token).Parsed? ==> p == codec.verify(token)
      ensures && codec.verify(token).Parsed?
              && now <= FromNumericDate(codec.verify(token).claims.expiration)
              && codec.verify(token).claims.issuer != config.issuer ==>
                p == IncorrectClaim
    {
      match codec.verify(token)
      case Parsed(c) =>
        if FromNumericDate(c.expiration) < now then ExpiredJwt
        else if c.issuer != config.issuer then IncorrectClaim
        else Parsed(c)
      case failure => failure
    }

    /** buildToken's claims, with one clock reading `now`: the configured
        issuer, the user's email as subject, and issued-at and expiration as
        the NumericDates of `now` and of `now + expiration`. */
    function BuildClaims(user: User, expiration: Millis, now: Millis): (c: Claims)
      ensures c.issuer == config.issuer && c.subject == user.email
      ensures 0 <= now ==> FromNumericDate(c.issuedAt) <= now < FromNumericDate(c.issuedAt) + 1000
      ensures 0 <= now + expiration ==>
                FromNumericDate(c.expiration) <= now + expiration < FromNumericDate(c.expiration) + 1000
    {
      Claims(config.issuer, user.email, ToNumericDate(now), ToNumericDate(now + expiration))
    }

    /** buildToken: the signed compact token for the claims above. With a
        codec whose check accepts its own signatures, the token decodes back to
        those claims and is not blank. */
    function BuildToken(user: User, expiration: Millis, now: Millis): (r: string)
      ensures Inverts(codec) ==> codec.verify(r) == Parsed(BuildClaims(user, expiration, now)) && !IsBlank(r)
    {
      var token := codec.sign(BuildClaims(user, expiration, now));
      assert Inverts(codec) ==> !IsBlank(token) by {
        if Inverts(codec) {
          assert '.' in token;
          var i :| 0 <= i < |token| && token[i] == '.';
          assert !IsWhitespace(token[i]);
        }
      }
      token
    }

    /** generateAccessToken: a token for the user's email living for the
        configured access expiration. */
    function GenerateAccessToken(user: User, now: Millis): (r: string)
      ensures Inverts(codec) ==>
                codec.verify(r) == Parsed(Claims(config.issuer, user.email, ToNumericDate(now),
                                                 ToNumericDate(now + config.accessExpiration)))
    {
      BuildToken(user, config.accessExpiration, now)
    }

    /** generateRefreshToken: a token for the user's email living for the
        configured refresh expiration. */
    function GenerateRefreshToken(user: User, now: Millis): (r: string)
      ensures Inverts(codec) ==>
                codec.verify(r) == Parsed(Claims(config.issuer, user.email, ToNumericDate(now),
                                                 ToNumericDate(now + config.refreshExpiration)))
    {
      BuildToken(user, config.refreshExpiration, now)
    }

    /** The checks isTokenValid itself makes on parsed claims at instant `now`:
        the expiration is not before `now`, and the issuer is the configured one. */
    predicate Accepts(c: Claims, now: Millis) {
      !(FromNumericDate(c.expiration) < now) && c.issuer == config.issuer
    }

    /** isTokenValid as intended: false for an absent or blank token and for
        every parse failure, otherwise the claim checks. It never throws. */
    function IsTokenValid(token: Option<string>, now: Millis): (r: bool)
      ensures token.None? || IsBlank(token.value) ==> !r
      ensures r <==> && token.Some? && !IsBlank(token.value)
                     && codec.verify(token.value).Parsed?
                     && now <= FromNumericDate(codec.verify(token.value).claims.expiration)
                     && codec.verify(token.value).claims.issuer == config.issuer
    {
      if token.None? || IsBlank(token.value) then false
      else
        match Parse(token.value, now)
        case Parsed(c) => Accepts(c, now)
        case _ => false
    }

    /** isTokenValid as written: only the four caught exception kinds become
        false; a signature failure, an issuer rejected by the parser or an
        unsupported token escape as exceptions. */
    function IsTokenValidAsWritten(token: Option<string>, now: Millis): (r: Call<bool>)
      ensures r.Throws? <==> && token.Some? && !IsBlank(token.value)
                             && !Parse(token.value, now).Parsed? && !Caught(Parse(token.value, now))
      ensures r.Throws? ==> r.cause == Parse(token.value, now)
      ensures r.Returns? ==> r.value == IsTokenValid(token, now)
    {
      if token.None? || IsBlank(token.value) then Returns(false)
      else
        var p := Parse(token.value, now);
        if p.Parsed? then Returns(Accepts(p.claims, now))
        else if Caught(p) then Returns(false)
        else Throws(p)
    }

    /** extractUsername at instant `now`: the subject of the parsed token;
        every parse failure, an expired token included, is rethrown. */
    function ExtractUsername(token: string, now: Millis): (r: Call<string>)
      ensures r.Returns? <==> Parse(token, now).Parsed?
      ensures r.Returns? ==> r.value == codec.verify(token).claims.subject
      ensures r.Throws? ==> r.cause == Parse(token, now)
    {
      match Parse(token, now)
      case Parsed(c) => Returns(c.subject)
      case other => Throws(other)
    }

    /** isTokenValidForUser: the as-written validity check, whose escaping
        exceptions pass through; when it answers true, the subject extracted
        from the token compared with the username. Whenever it returns, its
        answer is the intended validity check together with the subject test. */
    function IsTokenValidForUser(token: Option<string>, username: string, now: Millis): (r: Call<bool>)
      ensures r.Throws? <==> IsTokenValidAsWritten(token, now).Throws?
      ensures r.Throws? ==> r.cause == Parse(token.value, now)
      ensures r.Returns? ==>
                (r.value <==> IsTokenValid(token, now) && codec.verify(token.value).claims.subject == username)
    {
      match IsTokenValidAsWritten(token, now)
      case Throws(cause) => Throws(cause)
      case Returns(valid) =>
        if !valid then Returns(false)
        else
          match ExtractUsername(token.value, now)
          case Returns(name) => Returns(name == username)
          case Throws(cause) => Throws(cause)
    }
  }

  /** The claim checks isTokenValid makes itself never reject a token the
      configured parser returned: the parser has already rejected an expired
      token and a foreign issuer. */
  lemma ParsedClaimsAccepted(svc: JwtService, token: string, now: Millis)
    requires svc.Parse(token, now).Parsed?
    ensures svc.Accepts(svc.Parse(token, now).claims, now)
  {
  }

  /** A built token round-trips. Up to its expiration as read back, the
      subject extracted is the user's email and the token is valid; after it,
      the parser rejects the token as expired, so extraction throws and the
      check answers false. For instants after the epoch the expiration read
      back is the end of the time to live rounded down to a whole second. */
  lemma BuildTokenRoundTrip(svc: JwtService, user: User, ttl: Millis, issuedAt: Millis, now: Millis)
    requires Inverts(svc.codec)
    ensures now <= ExpiryAsRead(issuedAt + ttl) ==>
              svc.ExtractUsername(svc.BuildToken(user, ttl, issuedAt), now) == Returns(user.email)
    ensures ExpiryAsRead(issuedAt + ttl) < now ==>
              svc.ExtractUsername(svc.BuildToken(user, ttl, issuedAt), now) == Throws(ExpiredJwt)
    ensures svc.IsTokenValidAsWritten(Some(svc.BuildToken(user, ttl, issuedAt)), now)
            == Returns(now <= ExpiryAsRead(issuedAt + ttl))
    ensures svc.IsTokenValid(Some(svc.BuildToken(user, ttl, issuedAt)), now) <==> now <= ExpiryAsRead(issuedAt + ttl)
    ensures 0 <= issuedAt + ttl && now <= issuedAt + ttl - 999 ==> svc.IsTokenValid(Some(svc.BuildToken(user, ttl, issuedAt)), now)
    ensures 0 <= issuedAt + ttl && issuedAt + ttl < now ==> !svc.IsTokenValid(Some(svc.BuildToken(user, ttl, issuedAt)), now)
  {
  }

  /** The check of an access token minted for a user, against that user's
      email, returns without throwing and answers true exactly until the
      token's expiration; and generateAccessToken and generateRefreshToken
      differ only in the time to live they use. */
  lemma GeneratedTokensValidForUser(svc: JwtService, user: User, issuedAt: Millis, now: Millis)
    requires Inverts(svc.codec)
    ensures svc.IsTokenValidForUser(Some(svc.GenerateAccessToken(user, issuedAt)), user.email, now)
            == Returns(now <= ExpiryAsRead(issuedAt + svc.config.accessExpiration))
    ensures svc.IsTokenValidForUser(Some(svc.GenerateRefreshToken(user, issuedAt)), user.email, now)
            == Returns(now <= ExpiryAsRead(issuedAt + svc.config.refreshExpiration))
  {
    BuildTokenRoundTrip(svc, user, svc.config.accessExpiration, issuedAt, now);
    BuildTokenRoundTrip(svc, user, svc.config.refreshExpiration, issuedAt, now);
  }

  /** A token minted by a service configured with one issuer, checked by a
      service with the same key but another issuer: the intended check answers
      false. The check as written lets the parser's IncorrectClaimException
      escape while the token is unexpired, and answers false after that. */
  lemma ForeignIssuerRejected(minter: JwtService, checker: JwtService, user: User, ttl: Millis, issuedAt: Millis, now: Millis)
    requires Inverts(minter.codec)
    requires checker.codec == minter.codec
    requires checker.config.issuer != minter.config.issuer
    ensures !checker.IsTokenValid(Some(minter.BuildToken(user, ttl, issuedAt)), now)
    ensures checker.IsTokenValidAsWritten(Some(minter.BuildToken(user, ttl, issuedAt)), now)
            == if now <= ExpiryAsRead(issuedAt + ttl) then Throws(IncorrectClaim) else Returns(false)
  {
  }

  /** The discrepancy in isTokenValid: a non-blank token whose signature does not
      verify, or whose issuer the parser itself rejects, makes the as-written
      check throw, where the intended check answers false. */
  lemma UncaughtParseFailureEscapes(svc: JwtService, token: string, now: Millis)
    requires !IsBlank(token)
    requires svc.Parse(token, now) in {SignatureMismatch, IncorrectClaim}
    ensures svc.IsTokenValidAsWritten(Some(token), now) == Throws(svc.Parse(token, now))
    ensures !svc.IsTokenValid(Some(token), now)
  {
  }
}
