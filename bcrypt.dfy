/**
 * The two calls user/use_case/auth_service.go makes into
 * golang.org/x/crypto/bcrypt, as an idealised password hash. GenerateFromPassword
 * refuses passwords longer than 72 bytes; CompareHashAndPassword does not
 * refuse them but, like bcrypt's key schedule, reads only their first 72
 * bytes. Salting, the cost factor and one-wayness are not modelled; the
 * digest is simply the bcrypt marker followed by the password.
 */
module Bcrypt {
  import opened Wrappers

  /** The number of password bytes bcrypt uses; GenerateFromPassword refuses longer passwords. */
  const MaxPasswordLength: nat := 72

  /** The version and default-cost prefix of every digest GenerateFromPassword writes. */
  const DigestPrefix: string := "$2a$10$"

  datatype HashError = PasswordTooLong

  function Digest(password: string): string
  {
    DigestPrefix + password
  }

  /** The part of a password the key schedule reads: at most its first 72 bytes. */
  function KeyBytes(password: string): (key: string)
    ensures |key| <= MaxPasswordLength && key <= password
    ensures |password| <= MaxPasswordLength ==> key == password
  {
    if |password| <= MaxPasswordLength then password else password[..MaxPasswordLength]
  }

  /** bcrypt.GenerateFromPassword(password, DefaultCost). */
  function GenerateFromPassword(password: string): (r: Result<string, HashError>)
    ensures r.Success? <==> |password| <= MaxPasswordLength
    ensures r.Success? ==> r.value != password && CompareHashAndPassword(r.value, password)
  {
    if |password| > MaxPasswordLength then Failure(PasswordTooLong) else Success(Digest(password))
  }

  /**
   * bcrypt.CompareHashAndPassword(hash, password) == nil. A password of at
   * most 72 bytes matches exactly its own digest; a longer one matches
   * whatever its first 72 bytes match.
   */
  function CompareHashAndPassword(hash: string, password: string): (ok: bool)
    ensures |password| <= MaxPasswordLength ==> (ok <==> hash == Digest(password))
    ensures |password| > MaxPasswordLength ==> ok == CompareHashAndPassword(hash, password[..MaxPasswordLength])
    decreases |password|
  {
    hash == Digest(KeyBytes(password))
  }

  /** A digest verifies against no other password of at most 72 bytes. */
  lemma OnlyOwnPassword(password: string, other: string)
    requires |other| <= MaxPasswordLength
    requires CompareHashAndPassword(Digest(password), other)
    ensures other == password
  {
    assert Digest(password)[|DigestPrefix|..] == password;
    assert Digest(other)[|DigestPrefix|..] == other;
  }

  /**
   * The passwords a generated digest verifies against: its own, and, when
   * that one is 72 bytes long, every longer password that starts with it.
   */
  lemma VerifiesExactly(password: string, other: string)
    requires |password| <= MaxPasswordLength
    ensures CompareHashAndPassword(Digest(password), other)
        <==> other == password || (|password| == MaxPasswordLength < |other| && other[..MaxPasswordLength] == password)
  {
    var key := KeyBytes(other);
    assert Digest(password)[|DigestPrefix|..] == password;
    assert Digest(key)[|DigestPrefix|..] == key;
  }

  /** A 72-byte password's digest also verifies against any extension of it. */
  lemma ExtensionVerifies(password: string, extra: string)
    requires |password| == MaxPasswordLength
    ensures CompareHashAndPassword(Digest(password), password + extra)
  {
    assert (password + extra)[..MaxPasswordLength] == password;
  }
}
