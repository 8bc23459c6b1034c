/** The payload every token carries (user/auth/token_manager.go, TokenType and Claims). */
module Claims {
  import opened GoInt

  /** The `type` claim. It is an open string: a signed token may carry any value. */
  type TokenType = string

  const AccessToken: TokenType := "access"
  const RefreshToken: TokenType := "refresh"

  /**
   * The claims in the order the JSON payload lists them: `user_id`, `type`,
   * then the registered claims `exp` and `iat` in whole seconds since the epoch.
   */
  datatype Claims = Claims(userId: int32, kind: TokenType, expiresAt: int, issuedAt: int)
}
