/**
 * The Bearer-token middleware of shared/middleware/auth.go and its UserID
 * lookup, over a model of the gin request context: the Authorization
 * header, the context's key/value store, the response status and error
 * body, whether the chain was aborted, and whether it went on to the next
 * handler.
 */
module Middleware {
  import opened Wrappers
  import opened GoInt
  import Text
  import opened TokenManager

  const BearerPrefix: string := "Bearer "
  const UserIdKey: string := "user_id"

  const StatusOK: nat := 200
  const StatusUnauthorized: nat := 401

  const BadHeaderMessage: string := "missing or invalid authorization header"
  const BadTokenMessage: string := "invalid or expired token"

  /** A value stored in the context: a Go `uint`, or a value of some other dynamic type. */
  datatype Value = Uint(n: nat) | Other(typeName: string)

  /** strings.HasPrefix: whether `s` is `prefix` followed by some text. */
  function HasPrefix(s: string, prefix: string): (r: bool)
    ensures r ==> |prefix| <= |s| && s == prefix + s[|prefix|..]
    ensures forall rest :: s == prefix + rest ==> r
  {
    |prefix| <= |s| && s[..|prefix|] == prefix
  }

  /** strings.TrimPrefix: removes one leading copy of `prefix`, if there is one. */
  function TrimPrefix(s: string, prefix: string): (r: string)
    ensures HasPrefix(s, prefix) ==> prefix + r == s
    ensures !HasPrefix(s, prefix) ==> r == s
  {
    if HasPrefix(s, prefix) then s[|prefix|..] else s
  }

  /**
   * The token the middleware hands to the manager: the header with its one
   * leading "Bearer " removed. None for an empty header or any other scheme.
   */
  function BearerToken(header: string): (token: Option<string>)
    ensures token.Some? ==> header == BearerPrefix + token.value
  {
    if header == "" || !HasPrefix(header, BearerPrefix) then None
    else Some(TrimPrefix(header, BearerPrefix))
  }

  /** BearerToken undoes prefixing with "Bearer ", for every token, itself "Bearer ..." or not. */
  lemma BearerTokenOf(token: string)
    ensures BearerToken(BearerPrefix + token) == Some(token)
  {
    assert (BearerPrefix + token)[..|BearerPrefix|] == BearerPrefix;
    assert (BearerPrefix + token)[|BearerPrefix|..] == token;
  }

  /** The part of gin.Context the middleware and its handlers use. */
  class Context {
    /** The Authorization request header; "" when it is absent. */
    const authorization: string
    var keys: map<string, Value>
    var status: nat
    /** The "error" field of the JSON body written when the chain is aborted. */
    var errorBody: Option<string>
    var aborted: bool
    /** Whether the chain went on to the next handler. */
    var nextCalled: bool

    constructor (authorization: string)
      ensures this.authorization == authorization && keys == map[] && status == StatusOK
      ensures errorBody == None && !aborted && !nextCalled
    {
      this.authorization := authorization;
      keys := map[];
      status := StatusOK;
      errorBody := None;
      aborted := false;
      nextCalled := false;
    }

    /** Stops the chain and answers `code` with the given error message. */
    method AbortWithStatusJSON(code: nat, message: string)
      modifies this
      ensures aborted && status == code && errorBody == Some(message)
      ensures keys == old(keys) && nextCalled == old(nextCalled)
    {
      aborted, status, errorBody := true, code, Some(message);
    }

    /** c.Set(key, value). */
    method Set(key: string, value: Value)
      modifies this
      ensures keys == old(keys)[key := value]
      ensures status == old(status) && errorBody == old(errorBody)
      ensures aborted == old(aborted) && nextCalled == old(nextCalled)
    {
      keys := keys[key := value];
    }

    /** c.Next(): the rest of the chain runs. */
    method Next()
      modifies this
      ensures nextCalled
      ensures keys == old(keys) && status == old(status) && errorBody == old(errorBody) && aborted == old(aborted)
    {
      nextCalled := true;
    }
  }

  /**
   * The middleware Auth(tokenMgr) returns, run on one request at time `now`.
   * A missing or non-Bearer header and a token the manager rejects both
   * abort with 401 and write nothing to the context; a valid token stores its
   * user id as a `uint` under "user_id" and continues the chain.
   */
  method Auth(tokenMgr: Manager, c: Context, now: int)
    modifies c
    ensures BearerToken(c.authorization).None? ==>
              && c.aborted && c.status == StatusUnauthorized && c.errorBody == Some(BadHeaderMessage)
              && c.keys == old(c.keys) && c.nextCalled == old(c.nextCalled)
    ensures BearerToken(c.authorization).Some? ==>
              var v := tokenMgr.ValidateAccessToken(BearerToken(c.authorization).value, now);
              if v.err.Some? then
                && c.aborted && c.status == StatusUnauthorized && c.errorBody == Some(BadTokenMessage)
                && c.keys == old(c.keys) && c.nextCalled == old(c.nextCalled)
              else
                && c.keys == old(c.keys)[UserIdKey := Uint(UintOf(v.userId))] && c.nextCalled
                && c.aborted == old(c.aborted) && c.status == old(c.status) && c.errorBody == old(c.errorBody)
  {
    var tokenStr := BearerToken(c.authorization);
    if tokenStr.None? {
      c.AbortWithStatusJSON(StatusUnauthorized, BadHeaderMessage);
      return;
    }
    var v := tokenMgr.ValidateAccessToken(tokenStr.value, now);
    if v.err.Some? {
      c.AbortWithStatusJSON(StatusUnauthorized, BadTokenMessage);
      return;
    }
    c.Set(UserIdKey, Uint(UintOf(v.userId)));
    c.Next();
  }

  /**
   * The authenticated user id: the `uint` stored under "user_id", with true;
   * (0, false) when the key is absent or holds a value of another type.
   */
  function UserID(c: Context): (r: (nat, bool))
    reads c
    ensures r.1 <==> UserIdKey in c.keys && c.keys[UserIdKey].Uint?
    ensures r.1 ==> c.keys[UserIdKey] == Uint(r.0)
    ensures !r.1 ==> r.0 == 0
  {
    if UserIdKey !in c.keys then (0, false)
    else match c.keys[UserIdKey]
      case Uint(n) => (n, true)
      case Other(_) => (0, false)
  }

  // -----------------------------------------------------------------------
  // The middleware's tests: a router with Auth in front of a /ping handler
  // -----------------------------------------------------------------------

  /**
   * The response body of the test's /ping handler: "uid=" and the decimal
   * user id when UserID finds one, otherwise "no-uid" written with a
   * non-breaking hyphen (U+2011).
   */
  function PingBody(c: Context): (body: string)
    reads c
    ensures UserID(c).1 ==> |body| > 4 && body[..4] == "uid=" && Text.ParseNat(body[4..]) == Some(UserID(c).0)
    ensures !UserID(c).1 ==> body == "no\U{2011}uid"
  {
    var (uid, ok) := UserID(c);
    if ok then
      Text.ParseNatText(uid);
      assert ("uid=" + Text.NatText(uid))[4..] == Text.NatText(uid);
      "uid=" + Text.NatText(uid)
    else "no\U{2011}uid"
  }

  /**
   * One request through Auth and /ping. It is refused with 401 exactly when
   * the header is no Bearer header or its token does not validate; otherwise
   * /ping answers 200 with the validated user id.
   */
  method ServePing(tokenMgr: Manager, authorization: string, now: int) returns (status: nat, body: string)
    ensures status == StatusUnauthorized <==>
              BearerToken(authorization).None? || tokenMgr.ValidateAccessToken(BearerToken(authorization).value, now).err.Some?
    ensures status != StatusUnauthorized ==>
              status == StatusOK
              && body == "uid=" + Text.NatText(UintOf(tokenMgr.ValidateAccessToken(BearerToken(authorization).value, now).userId))
  {
    var c := new Context(authorization);
    Auth(tokenMgr, c, now);
    if c.aborted {
      status, body := c.status, c.errorBody.value;
    } else {
      status, body := StatusOK, PingBody(c);
    }
  }

  /** A fresh access token for user 42 sent as "Bearer <token>" gets 200 and "uid=42". */
  method SuccessScenario(m: Manager, issuedAt: int, now: int) returns (status: nat, body: string)
    requires now < issuedAt + m.accessTokenTtl
    ensures status == StatusOK && body == "uid=42"
  {
    var access := m.NewTokens(42, issuedAt).access;
    AccessTokenLifetime(m, 42, issuedAt, now);
    BearerTokenOf(access);
    assert UintOf(42) == 42;
    FortyTwoText();
    status, body := ServePing(m, BearerPrefix + access, now);
  }

  lemma FortyTwoText()
    ensures Text.NatText(42) == "42"
  {
    assert Text.NatText(4) == "4";
  }

  /** No Authorization header gets 401. */
  method MissingHeaderScenario(m: Manager, now: int) returns (status: nat)
    ensures status == StatusUnauthorized
  {
    var body;
    status, body := ServePing(m, "", now);
  }

  /** "Bearer not.a.valid.token" gets 401. */
  method InvalidTokenScenario(m: Manager, now: int) returns (status: nat)
    ensures status == StatusUnauthorized
  {
    BearerTokenOf("not.a.valid.token");
    MalformedTokens(m, now);
    var body;
    status, body := ServePing(m, BearerPrefix + "not.a.valid.token", now);
  }
}
