/**
 * Go's fixed-width integers where the token code converts between them:
 * the user id is an `int32` inside a token, a `uint` in the user store and in
 * the request context.
 */
module GoInt {

  const Int32Modulus: int := 0x1_0000_0000

  /** The 64-bit platform width of Go's `uint`. */
  const UintModulus: int := 0x1_0000_0000_0000_0000

  newtype int32 = x: int | -0x8000_0000 <= x < 0x8000_0000

  /** Go's `int32(n)` for an unsigned `n`: the low 32 bits read as two's complement. */
  function Int32Of(n: nat): (r: int32)
    ensures (r as int - n) % Int32Modulus == 0
    ensures n < 0x8000_0000 ==> r as int == n
  {
    var low := n % Int32Modulus;
    if low < 0x8000_0000 then low as int32 else (low - Int32Modulus) as int32
  }

  /** Go's `uint(x)` for an `int32` x: negative values wrap around modulo 2^64. */
  function UintOf(x: int32): (r: nat)
    ensures r < UintModulus
    ensures (r - x as int) % UintModulus == 0
    ensures x >= 0 ==> r == x as int
  {
    if x >= 0 then x as int else x as int + UintModulus
  }

  /** An unsigned id below 2^31 survives `uint(int32(id))` unchanged. */
  lemma IdRoundTrip(n: nat)
    requires n < 0x8000_0000
    ensures UintOf(Int32Of(n)) == n
  {
  }

  /** From 2^31 on it does not: the id 2^31 comes back as 2^64 - 2^31. */
  lemma IdRoundTripBreaksAt2To31()
    ensures UintOf(Int32Of(0x8000_0000)) == UintModulus - 0x8000_0000
  {
  }
}
