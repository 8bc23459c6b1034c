/**
 * The compact JWT form (RFC 7519 over the compact serialisation of section 7.1
 * of RFC 7515, signed with HS256 of section 3.2 of RFC 7518) as the manager
 * uses it through golang-jwt: `NewWithClaims(SigningMethodHS256, c).SignedString(key)`
 * and `ParseWithClaims(token, &Claims{}, func(*Token) { return key })`.
 *
 * The token keeps the three '.'-separated segments header.payload.signature.
 * The header segment is the one golang-jwt writes for HS256. The payload is a
 * ','-separated text of the four claims in place of base64url JSON. The
 * signature is an idealised HMAC: a tag that determines both the key and the
 * signed text, so two different keys or two different signed texts never
 * give the same tag.
 */
module Jwt {
  import opened Wrappers
  import Text
  import opened GoInt
  import opened Claims

  /** The secret handed to the signer and returned by the key function. */
  type Key = string

  /** base64url of {"alg":"HS256","typ":"JWT"}. */
  const HeaderSegment: string := "eyJhbGciOiJIUzI1NiIsInR5cCI6IkpXVCJ9"

  /** The errors ParseWithClaims can return, named after golang-jwt's sentinel errors. */
  datatype JwtError = TokenMalformed | TokenSignatureInvalid | TokenExpired

  function PayloadSegment(c: Claims): string
  {
    Text.IntText(c.userId as int) + "," + Text.Escape(c.kind) + ","
      + Text.IntText(c.expiresAt) + "," + Text.IntText(c.issuedAt)
  }

  /** Decodes a payload segment; a `user_id` outside the int32 range does not decode. */
  function DecodePayload(p: string): Option<Claims>
  {
    var f := Text.Split(p, ',');
    if |f| != 4 then None
    else
      var userId, kind, exp, iat := Text.ParseInt(f[0]), Text.Unescape(f[1]), Text.ParseInt(f[2]), Text.ParseInt(f[3]);
      if userId.Some? && kind.Some? && exp.Some? && iat.Some? && -0x8000_0000 <= userId.value < 0x8000_0000
      then Some(Claims(userId.value as int32, kind.value, exp.value, iat.value))
      else None
  }

  /** The idealised HMAC-SHA256 of `signingInput` under `key`. */
  function Tag(key: Key, signingInput: string): string
  {
    Text.Escape(key) + "," + Text.Escape(signingInput)
  }

  /**
   * Decodes a signature segment into the key and text a tag names, as
   * golang-jwt base64url-decodes the signature before checking it. Text with
   * any other shape does not decode.
   */
  function DecodeTag(sig: string): Option<(Key, string)>
  {
    var f := Text.Split(sig, ',');
    if |f| != 2 then None
    else
      var key, input := Text.Unescape(f[0]), Text.Unescape(f[1]);
      if key.Some? && input.Some? then Some((key.value, input.value)) else None
  }

  /** DecodeTag undoes Tag. */
  lemma DecodeTagOf(key: Key, input: string)
    ensures DecodeTag(Tag(key, input)) == Some((key, input))
  {
    SplitTag(key, input);
    Text.UnescapeEscape(key);
    Text.UnescapeEscape(input);
  }

  /** DecodeTag accepts only what Tag writes. */
  lemma TagOfDecoded(sig: string, key: Key, input: string)
    requires DecodeTag(sig) == Some((key, input))
    ensures Tag(key, input) == sig
  {
    var f := Text.Split(sig, ',');
    Text.EscapeUnescape(f[0], key);
    Text.EscapeUnescape(f[1], input);
    Text.JoinSplit(sig, ',');
    assert Text.Join(f, ',') == Text.Join(f[..1], ',') + [','] + f[1];
  }

  /** The text the signature covers: header and payload segments joined by '.'. */
  function SigningInput(c: Claims): string
  {
    HeaderSegment + "." + PayloadSegment(c)
  }

  /**
   * The compact token for `c` signed with `key`: exactly three segments, the
   * HS256 header, the payload of `c`, and a signature naming `key` and the
   * text it covers.
   */
  function SignedString(c: Claims, key: Key): (token: string)
    ensures Text.Split(token, '.') == [HeaderSegment, PayloadSegment(c), Tag(key, SigningInput(c))]
    ensures DecodeTag(Tag(key, SigningInput(c))) == Some((key, HeaderSegment + "." + PayloadSegment(c)))
  {
    var input := SigningInput(c);
    SegmentsDotFree(c, key, input);
    Text.SplitThree(HeaderSegment, PayloadSegment(c), Tag(key, input), '.');
    DecodeTagOf(key, input);
    input + "." + Tag(key, input)
  }

  /**
   * Parses `token`, checks its signature against `key`, then validates its
   * claims at time `now`, in golang-jwt v5's order. Only `exp` is validated:
   * the token is valid while `now < exp`.
   */
  function ParseWithClaims(token: string, key: Key, now: int): (r: Result<Claims, JwtError>)
    ensures r.Success? ==> token == SignedString(r.value, key) && now < r.value.expiresAt
  {
    var parts := Text.Split(token, '.');
    if |parts| != 3 || parts[0] != HeaderSegment then Failure(TokenMalformed)
    else
      var decoded := DecodePayload(parts[1]);
      if decoded.None? || DecodeTag(parts[2]).None? then Failure(TokenMalformed)
      else if parts[2] != Tag(key, parts[0] + "." + parts[1]) then Failure(TokenSignatureInvalid)
      else if now >= decoded.value.expiresAt then Failure(TokenExpired)
      else
        PayloadOfDecoded(parts[1], decoded.value);
        Text.JoinSplit(token, '.');
        Text.JoinThree(parts, '.');
        Success(decoded.value)
  }

  /**
   * A token parses under `key` at `now` to the claims `c` exactly when it is
   * the token for `c` signed with `key` and `now` is before `c`'s expiry.
   */
  lemma ParseExactly(token: string, key: Key, now: int, c: Claims)
    ensures ParseWithClaims(token, key, now) == Success(c) <==> token == SignedString(c, key) && now < c.expiresAt
  {
    if token == SignedString(c, key) {
      ParseSigned(c, key, key, now);
    }
  }

  /** No segment the signer writes contains '.'. */
  lemma SegmentsDotFree(c: Claims, key: Key, input: string)
    ensures '.' !in HeaderSegment && '.' !in PayloadSegment(c) && '.' !in Tag(key, input)
  {
    Text.IntTextSeparatorFree(c.userId as int);
    Text.IntTextSeparatorFree(c.expiresAt);
    Text.IntTextSeparatorFree(c.issuedAt);
    Text.EscapeSeparatorFree(c.kind);
    Text.EscapeSeparatorFree(key);
    Text.EscapeSeparatorFree(input);
  }

  /** DecodePayload undoes PayloadSegment. */
  lemma DecodePayloadSegment(c: Claims)
    ensures DecodePayload(PayloadSegment(c)) == Some(c)
  {
    var a, b, d, e := Text.IntText(c.userId as int), Text.Escape(c.kind), Text.IntText(c.expiresAt), Text.IntText(c.issuedAt);
    Text.IntTextSeparatorFree(c.userId as int);
    Text.IntTextSeparatorFree(c.expiresAt);
    Text.IntTextSeparatorFree(c.issuedAt);
    Text.EscapeSeparatorFree(c.kind);
    Text.SplitFour(a, b, d, e, ',');
    Text.ParseIntText(c.userId as int);
    Text.ParseIntText(c.expiresAt);
    Text.ParseIntText(c.issuedAt);
    Text.UnescapeEscape(c.kind);
  }

  /** DecodePayload accepts only what PayloadSegment writes. */
  lemma PayloadOfDecoded(p: string, c: Claims)
    requires DecodePayload(p) == Some(c)
    ensures PayloadSegment(c) == p
  {
    var f := Text.Split(p, ',');
    Text.IntTextParsed(f[0], c.userId as int);
    Text.EscapeUnescape(f[1], c.kind);
    Text.IntTextParsed(f[2], c.expiresAt);
    Text.IntTextParsed(f[3], c.issuedAt);
    Text.JoinSplit(p, ',');
    Text.JoinFour(f, ',');
  }

  /** The tag determines both the key and the signed text. */
  lemma TagInjective(k1: Key, x1: string, k2: Key, x2: string)
    requires Tag(k1, x1) == Tag(k2, x2)
    ensures k1 == k2 && x1 == x2
  {
    var e1, f1, e2, f2 := Text.Escape(k1), Text.Escape(x1), Text.Escape(k2), Text.Escape(x2);
    SplitTag(k1, x1);
    SplitTag(k2, x2);
    assert [e1, f1] == [e2, f2];
    assert e1 == e2 && f1 == f2;
    Text.EscapeInjective(k1, k2);
    Text.EscapeInjective(x1, x2);
  }

  lemma SplitTag(k: Key, x: string)
    ensures Text.Split(Tag(k, x), ',') == [Text.Escape(k), Text.Escape(x)]
  {
    var e, f := Text.Escape(k), Text.Escape(x);
    Text.EscapeSeparatorFree(k);
    Text.EscapeSeparatorFree(x);
    assert Tag(k, x) == e + [','] + f;
    Text.SplitAround(e, f, ',');
    Text.SplitWithout(e, ',');
    Text.SplitWithout(f, ',');
  }

  /** The signed text determines the payload segment. */
  lemma SigningInputInjective(c1: Claims, c2: Claims)
    requires SigningInput(c1) == SigningInput(c2)
    ensures PayloadSegment(c1) == PayloadSegment(c2)
  {
    assert SigningInput(c1)[|HeaderSegment| + 1..] == PayloadSegment(c1);
    assert SigningInput(c2)[|HeaderSegment| + 1..] == PayloadSegment(c2);
  }

  /**
   * What parsing a signed token gives: the claims it was signed with when the
   * key is the signing key and `now` is before `exp`; TokenSignatureInvalid
   * under any other key, whatever the time; TokenExpired otherwise.
   */
  lemma ParseSigned(c: Claims, signingKey: Key, key: Key, now: int)
    ensures ParseWithClaims(SignedString(c, signingKey), key, now)
         == if key != signingKey then Failure(TokenSignatureInvalid)
            else if now < c.expiresAt then Success(c)
            else Failure(TokenExpired)
  {
    DecodePayloadSegment(c);
    if key != signingKey && Tag(signingKey, SigningInput(c)) == Tag(key, SigningInput(c)) {
      TagInjective(signingKey, SigningInput(c), key, SigningInput(c));
    }
  }

  /** The pieces of a token built from the header, any payload text and a tag. */
  lemma SplitForged(payload: string, tag: string)
    requires '.' !in tag
    ensures Text.Split(HeaderSegment + "." + payload + "." + tag, '.')
         == [HeaderSegment] + Text.Split(payload, '.') + [tag]
  {
    SegmentsDotFree(Claims(0, [], 0, 0), [], []);
    assert HeaderSegment + "." + payload + "." + tag == HeaderSegment + ['.'] + payload + ['.'] + tag;
    Text.SplitAround(HeaderSegment + ['.'] + payload, tag, '.');
    Text.SplitAround(HeaderSegment, payload, '.');
    Text.SplitWithout(HeaderSegment, '.');
    Text.SplitWithout(tag, '.');
  }

  /**
   * A signed token whose payload segment is replaced by any other text parses
   * under no key at all.
   */
  lemma TamperedPayloadRejected(c: Claims, signingKey: Key, payload: string, key: Key, now: int)
    requires payload != PayloadSegment(c)
    ensures ParseWithClaims(HeaderSegment + "." + payload + "." + Tag(signingKey, SigningInput(c)), key, now).Failure?
  {
    var tag := Tag(signingKey, SigningInput(c));
    var forged := HeaderSegment + "." + payload + "." + tag;
    var r := ParseWithClaims(forged, key, now);
    if r.Success? {
      var c' := r.value;
      SegmentsDotFree(c, signingKey, SigningInput(c));
      SplitForged(payload, tag);
      assert Text.Split(SignedString(c', key), '.') == [HeaderSegment, PayloadSegment(c'), Tag(key, SigningInput(c'))];
      var pieces := Text.Split(payload, '.');
      assert [HeaderSegment] + pieces + [tag] == [HeaderSegment, PayloadSegment(c'), Tag(key, SigningInput(c'))];
      assert |pieces| == 1;
      assert pieces == [PayloadSegment(c')] && tag == Tag(key, SigningInput(c'));
      Text.JoinSplit(payload, '.');
      TagInjective(signingKey, SigningInput(c), key, SigningInput(c'));
      SigningInputInjective(c, c');
      assert false;
    }
  }

  /**
   * A token whose signature segment does not decode is malformed, whatever
   * the key and the time, before its signature is checked.
   */
  lemma UndecodableSignature(c: Claims, sig: string, key: Key, now: int)
    requires '.' !in sig && DecodeTag(sig).None?
    ensures ParseWithClaims(SigningInput(c) + "." + sig, key, now) == Failure(TokenMalformed)
  {
    SegmentsDotFree(c, key, []);
    assert SigningInput(c) + "." + sig == HeaderSegment + ['.'] + PayloadSegment(c) + ['.'] + sig;
    Text.SplitThree(HeaderSegment, PayloadSegment(c), sig, '.');
  }

  /** For instance "!!!" does not decode as a signature. */
  lemma GarbledSignature(c: Claims, key: Key, now: int)
    ensures ParseWithClaims(SigningInput(c) + ".!!!", key, now) == Failure(TokenMalformed)
  {
    Text.SplitWithout("!!!", ',');
    assert DecodeTag("!!!").None?;
    assert SigningInput(c) + ".!!!" == SigningInput(c) + "." + "!!!";
    UndecodableSignature(c, "!!!", key, now);
  }
}
