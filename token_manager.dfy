/**
 * The token manager of user/auth/token_manager.go: it mints access/refresh
 * pairs, validates access tokens and rotates a refresh token into a new pair.
 *
 * The manager is an immutable value: its secrets and lifetimes are fixed
 * when it is built and no operation returns a changed manager. Every
 * operation takes the current time `now` (whole seconds) as a parameter.
 */
module TokenManager {
  import opened Wrappers
  import opened GoInt
  import opened Claims
  import opened Jwt
  import Text

  /** The manager's `error` results: a golang-jwt error passed on unchanged, or ErrInvalidToken. */
  datatype Error = Jwt(cause: JwtError) | InvalidToken

  /** Go's `(access, refresh string, err error)`. */
  datatype TokenPair = TokenPair(access: string, refresh: string, err: Option<Error>)

  /** Go's `(userID int32, err error)`. */
  datatype Validation = Validation(userId: int32, err: Option<Error>)

  /** Two secrets and two lifetimes (in seconds), one of each per token kind. */
  datatype Manager = Manager(accessSecret: Key, refreshSecret: Key, accessTokenTtl: int, refreshTokenTtl: int)
  {
    /**
     * One token of kind `ttype` for `userId`, issued at `now` and expiring
     * `ttl` seconds later, signed with `secret`.
     */
    function NewToken(userId: int32, ttype: TokenType, ttl: int, secret: Key, now: int): (token: string)
      ensures token != ""
      ensures forall t :: ParseWithClaims(token, secret, t)
                       == if t < now + ttl then Success(Claims(userId, ttype, now + ttl, now)) else Failure(TokenExpired)
      ensures forall key, t :: key != secret ==> ParseWithClaims(token, key, t) == Failure(TokenSignatureInvalid)
    {
      var c := Claims(userId, ttype, now + ttl, now);
      ParsedUnderAnyKey(c, secret);
      SignedString(c, secret)
    }

    /**
     * A fresh pair for `userId`: an access token signed with the access
     * secret living `accessTokenTtl` seconds, and a refresh token signed with
     * the refresh secret living `refreshTokenTtl` seconds. Signing cannot
     * fail, so there is no error.
     */
    function NewTokens(userId: int32, now: int): (r: TokenPair)
      ensures r.err == None && r.access != "" && r.refresh != ""
      ensures forall t :: ParseWithClaims(r.access, accessSecret, t)
                       == if t < now + accessTokenTtl then Success(Claims(userId, AccessToken, now + accessTokenTtl, now))
                          else Failure(TokenExpired)
      ensures forall t :: ParseWithClaims(r.refresh, refreshSecret, t)
                       == if t < now + refreshTokenTtl then Success(Claims(userId, RefreshToken, now + refreshTokenTtl, now))
                          else Failure(TokenExpired)
    {
      var access := NewToken(userId, AccessToken, accessTokenTtl, accessSecret, now);
      var refresh := NewToken(userId, RefreshToken, refreshTokenTtl, refreshSecret, now);
      TokenPair(access, refresh, None)
    }

    /**
     * Parses `token` under `secret` and checks its kind. A golang-jwt error is
     * returned as it is; ErrInvalidToken is returned only for a token that
     * parsed but carries another `type`.
     */
    function ParseToken(token: string, secret: Key, expectedType: TokenType, now: int): (r: Result<Claims, Error>)
      ensures r.Success? ==> token == SignedString(r.value, secret) && r.value.kind == expectedType && now < r.value.expiresAt
      ensures forall c :: token == SignedString(c, secret) && now < c.expiresAt
                 ==> r == if c.kind == expectedType then Success(c) else Failure(InvalidToken)
      ensures r == Failure(InvalidToken) ==> ParseWithClaims(token, secret, now).Success?
      ensures ParseWithClaims(token, secret, now).Failure? ==> r == Failure(Jwt(ParseWithClaims(token, secret, now).error))
    {
      var parsed := ParseWithClaims(token, secret, now);
      ParsedClaimsUnique(token, secret, now);
      if parsed.Failure? then Failure(Jwt(parsed.error))
      else if parsed.value.kind != expectedType then Failure(InvalidToken)
      else Success(parsed.value)
    }

    /** The user id of a valid access token; 0 and the error otherwise. */
    function ValidateAccessToken(token: string, now: int): (r: Validation)
      ensures r.err.Some? ==> r.userId == 0
      ensures r.err.None? ==> exists exp, iat :: token == SignedString(Claims(r.userId, AccessToken, exp, iat), accessSecret) && now < exp
      ensures forall c :: token == SignedString(c, accessSecret) && now < c.expiresAt
                 ==> r == if c.kind == AccessToken then Validation(c.userId, None) else Validation(0, Some(InvalidToken))
      ensures ParseWithClaims(token, accessSecret, now).Failure? ==>
                r == Validation(0, Some(Jwt(ParseWithClaims(token, accessSecret, now).error)))
    {
      var claims := ParseToken(token, accessSecret, AccessToken, now);
      if claims.Failure? then Validation(0, Some(claims.error))
      else Validation(claims.value.userId, None)
    }

    /** A new pair for the user of a valid refresh token; two empty strings and the error otherwise. */
    function RefreshTokens(token: string, now: int): (r: TokenPair)
      ensures r.err.Some? ==> r.access == "" && r.refresh == ""
      ensures r.err.None? ==> exists u, exp, iat :: token == SignedString(Claims(u, RefreshToken, exp, iat), refreshSecret)
                                                   && now < exp && r == NewTokens(u, now)
      ensures forall c :: token == SignedString(c, refreshSecret) && now < c.expiresAt
                 ==> r == if c.kind == RefreshToken then NewTokens(c.userId, now) else TokenPair("", "", Some(InvalidToken))
      ensures ParseWithClaims(token, refreshSecret, now).Failure? ==>
                r == TokenPair("", "", Some(Jwt(ParseWithClaims(token, refreshSecret, now).error)))
    {
      var claims := ParseToken(token, refreshSecret, RefreshToken, now);
      if claims.Failure? then TokenPair("", "", Some(claims.error))
      else
        var c := claims.value;
        assert token == SignedString(Claims(c.userId, RefreshToken, c.expiresAt, c.issuedAt), refreshSecret);
        NewTokens(c.userId, now)
    }
  }

  /** The manager NewManager builds: the secrets and lifetimes as given, neither derived from the other. */
  function NewManager(accessSecret: string, refreshSecret: string, accessTtl: int, refreshTtl: int): (m: Manager)
    ensures m.accessSecret == accessSecret && m.refreshSecret == refreshSecret
    ensures m.accessTokenTtl == accessTtl && m.refreshTokenTtl == refreshTtl
  {
    Manager(accessSecret, refreshSecret, accessTtl, refreshTtl)
  }

  // ---------------------------------------------------------------------
  // The protocol: issue, validate, rotate
  // ---------------------------------------------------------------------

  /**
   * ValidateAccessToken on any signed token: a token signed with another key
   * fails with golang-jwt's signature error and an expired one with its expiry
   * error, both passed on unchanged; an unexpired token signed with the access
   * secret fails with ErrInvalidToken unless its `type` is "access".
   */
  lemma ValidateSignedToken(m: Manager, c: Claims, signingKey: Key, now: int)
    ensures m.ValidateAccessToken(SignedString(c, signingKey), now)
         == if signingKey != m.accessSecret then Validation(0, Some(Jwt(TokenSignatureInvalid)))
            else if now >= c.expiresAt then Validation(0, Some(Jwt(TokenExpired)))
            else if c.kind != AccessToken then Validation(0, Some(InvalidToken))
            else Validation(c.userId, None)
  {
    ParseSigned(c, signingKey, m.accessSecret, now);
  }

  /** RefreshTokens on any signed token, in the same terms with the refresh secret and kind. */
  lemma RefreshSignedToken(m: Manager, c: Claims, signingKey: Key, now: int)
    ensures m.RefreshTokens(SignedString(c, signingKey), now)
         == if signingKey != m.refreshSecret then TokenPair("", "", Some(Jwt(TokenSignatureInvalid)))
            else if now >= c.expiresAt then TokenPair("", "", Some(Jwt(TokenExpired)))
            else if c.kind != RefreshToken then TokenPair("", "", Some(InvalidToken))
            else m.NewTokens(c.userId, now)
  {
    ParseSigned(c, signingKey, m.refreshSecret, now);
  }

  /**
   * An access token from NewTokens validates to its user at every time
   * before `now + accessTokenTtl` and fails as expired from then on.
   */
  lemma AccessTokenLifetime(m: Manager, userId: int32, now: int, t: int)
    ensures m.ValidateAccessToken(m.NewTokens(userId, now).access, t)
         == if t < now + m.accessTokenTtl then Validation(userId, None) else Validation(0, Some(Jwt(TokenExpired)))
  {
    ValidateSignedToken(m, Claims(userId, AccessToken, now + m.accessTokenTtl, now), m.accessSecret, t);
  }

  /**
   * A refresh token is never accepted as an access token. With two different
   * secrets its signature fails; with equal secrets the kind check rejects it
   * while it is unexpired.
   */
  lemma RefreshTokenIsNoAccessToken(m: Manager, userId: int32, now: int, t: int)
    ensures m.ValidateAccessToken(m.NewTokens(userId, now).refresh, t)
         == if m.accessSecret != m.refreshSecret then Validation(0, Some(Jwt(TokenSignatureInvalid)))
            else if t < now + m.refreshTokenTtl then Validation(0, Some(InvalidToken))
            else Validation(0, Some(Jwt(TokenExpired)))
  {
    ValidateSignedToken(m, Claims(userId, RefreshToken, now + m.refreshTokenTtl, now), m.refreshSecret, t);
  }

  /** An access token is never accepted for rotation, in the same terms. */
  lemma AccessTokenIsNoRefreshToken(m: Manager, userId: int32, now: int, t: int)
    ensures m.RefreshTokens(m.NewTokens(userId, now).access, t)
         == if m.accessSecret != m.refreshSecret then TokenPair("", "", Some(Jwt(TokenSignatureInvalid)))
            else if t < now + m.accessTokenTtl then TokenPair("", "", Some(InvalidToken))
            else TokenPair("", "", Some(Jwt(TokenExpired)))
  {
    RefreshSignedToken(m, Claims(userId, AccessToken, now + m.accessTokenTtl, now), m.accessSecret, t);
  }

  /**
   * Rotation keeps the subject: an unexpired refresh token from NewTokens
   * gives the pair NewTokens would mint for the same user at the time of
   * rotation, and its access token validates to that user for its lifetime.
   */
  lemma RotationKeepsSubject(m: Manager, userId: int32, issuedAt: int, rotatedAt: int, t: int)
    requires rotatedAt < issuedAt + m.refreshTokenTtl
    requires t < rotatedAt + m.accessTokenTtl
    ensures m.RefreshTokens(m.NewTokens(userId, issuedAt).refresh, rotatedAt) == m.NewTokens(userId, rotatedAt)
    ensures m.ValidateAccessToken(m.RefreshTokens(m.NewTokens(userId, issuedAt).refresh, rotatedAt).access, t)
         == Validation(userId, None)
  {
    RefreshSignedToken(m, Claims(userId, RefreshToken, issuedAt + m.refreshTokenTtl, issuedAt), m.refreshSecret, rotatedAt);
    AccessTokenLifetime(m, userId, rotatedAt, t);
  }

  /**
   * Strings that are not three '.'-separated segments are malformed: the
   * empty string and "not.a.valid.token" among them.
   */
  lemma MalformedTokens(m: Manager, now: int)
    ensures m.ValidateAccessToken("", now) == Validation(0, Some(Jwt(TokenMalformed)))
    ensures m.RefreshTokens("", now) == TokenPair("", "", Some(Jwt(TokenMalformed)))
    ensures m.ValidateAccessToken("not.a.valid.token", now) == Validation(0, Some(Jwt(TokenMalformed)))
  {
    FourSegments("not", "a", "valid", "token");
  }

  lemma FourSegments(a: string, b: string, c: string, d: string)
    requires '.' !in a && '.' !in b && '.' !in c && '.' !in d
    ensures |Text.Split(a + "." + b + "." + c + "." + d, '.')| == 4
  {
    assert a + "." + b + "." + c + "." + d == a + ['.'] + b + ['.'] + c + ['.'] + d;
    Text.SplitFour(a, b, c, d, '.');
  }

  /** The outcome of parsing a signed token, at every time and under every key. */
  lemma ParsedUnderAnyKey(c: Claims, secret: Key)
    ensures forall t :: ParseWithClaims(SignedString(c, secret), secret, t)
                     == if t < c.expiresAt then Success(c) else Failure(TokenExpired)
    ensures forall key, t :: key != secret ==> ParseWithClaims(SignedString(c, secret), key, t) == Failure(TokenSignatureInvalid)
  {
    forall t ensures ParseWithClaims(SignedString(c, secret), secret, t)
                  == if t < c.expiresAt then Success(c) else Failure(TokenExpired) {
      ParseSigned(c, secret, secret, t);
    }
    forall key, t | key != secret
      ensures ParseWithClaims(SignedString(c, secret), key, t) == Failure(TokenSignatureInvalid) {
      ParseSigned(c, secret, key, t);
    }
  }

  /** A token that is the signed form of unexpired claims parses to exactly those claims. */
  lemma ParsedClaimsUnique(token: string, secret: Key, now: int)
    ensures forall c :: token == SignedString(c, secret) && now < c.expiresAt ==> ParseWithClaims(token, secret, now) == Success(c)
  {
    forall c | token == SignedString(c, secret) && now < c.expiresAt
      ensures ParseWithClaims(token, secret, now) == Success(c) {
      ParseExactly(token, secret, now, c);
    }
  }
}
