/** Value types shared by the authentication service: users, refresh-token
    rows, the JWT configuration, the request and response records and the
    exceptions the operations raise. */
module Domain {

  datatype Option<+T> = None | Some(value: T)

  /** The exceptions the modelled operations throw, one per Java exception type. */
  datatype Error =
    | IllegalArgument    // IllegalArgumentException
    | InvalidToken       // InvalidTokenException
    | UserNotFound       // UserNotFoundException
    | UserAlreadyExists  // UserAlreadyExistsException
    | BadCredentials     // BadCredentialsException
    | NoSuchElement      // NoSuchElementException, thrown by Optional.get() on an empty Optional
    | DuplicateKey       // unique-constraint violation when a row is saved
    | NonUniqueResult    // a single-result query that matched more than one row

  /** A return value, or the exception thrown instead. */
  datatype Result<+T> = Ok(value: T) | Err(error: Error)

  /** Normal completion of a void operation, or the exception it throws. */
  datatype Outcome = Pass | Fail(error: Error)

  /** Primary key of a user row. */
  type UserId = int

  /** An instant, as milliseconds since the epoch (the unit of Instant.plusMillis and Date). */
  type Millis = int

  /** A row of the users table: the id is generated, the email is unique,
      the password is stored encoded, the role is an opaque label that may be unset. */
  datatype User = User(id: UserId, email: string, password: string, role: Option<string>)

  /** A row of the refresh_tokens table. The token column is unique; the
      owner is the id of the user the row references. */
  datatype RefreshToken = RefreshToken(token: string, expiryDate: Millis, owner: UserId)

  /** The `jwt.*` configuration properties the services read; the expirations
      are in milliseconds. The signing secret is part of the codec. */
  datatype JwtConfig = JwtConfig(accessExpiration: Millis, refreshExpiration: Millis, issuer: string)

  /** The login request: an email and a plain-text password. */
  datatype AuthRequest = AuthRequest(email: string, password: string)

  /** The login and refresh response: both tokens and the access-token lifetime. */
  datatype AuthResponse = AuthResponse(accessToken: string, refreshToken: string, expiresIn: Millis)

  /** Character.isWhitespace: the ASCII controls TAB..CR and FS..US, and the
      Unicode space, line and paragraph separators other than the no-break spaces
      U+00A0, U+2007 and U+202F. */
  predicate IsWhitespace(c: char) {
    || '\t' <= c <= '\r'
    || '\U{1C}' <= c <= ' '
    || c == '\U{1680}'
    || '\U{2000}' <= c <= '\U{2006}'
    || '\U{2008}' <= c <= '\U{200A}'
    || c == '\U{2028}' || c == '\U{2029}' || c == '\U{205F}' || c == '\U{3000}'
  }

  /** String.isBlank: empty, or made of whitespace only. */
  predicate IsBlank(s: string) {
    forall i | 0 <= i < |s| :: IsWhitespace(s[i])
  }
}
