/** Fixed-width unsigned integers and their byte encodings, as the farmer's
    plot uses them: tags are 8-byte keys read as big-endian `u64`, piece
    indices are stored as 8 little-endian bytes. */
module Bytes {

  type byte = b: int | 0 <= b < 256

  const U64_MODULUS: nat := 0x1_0000_0000_0000_0000

  type u64 = x: int | 0 <= x < U64_MODULUS

  /** Reduction modulo 2^64: what a wrapping `u64` operation keeps. */
  function Wrap(x: int): (r: u64)
    ensures 0 <= x < U64_MODULUS ==> r == x
    ensures (r - x) % U64_MODULUS == 0
  {
    x % U64_MODULUS
  }

  /** `u64::overflowing_sub`: the wrapped difference and whether it wrapped. */
  function OverflowingSub(a: u64, b: u64): (r: (u64, bool))
    ensures r.1 <==> a < b
    ensures r.0 == if a < b then a - b + U64_MODULUS else a - b
  {
    (Wrap(a - b), a < b)
  }

  /** `u64::overflowing_add`: the wrapped sum and whether it wrapped. */
  function OverflowingAdd(a: u64, b: u64): (r: (u64, bool))
    ensures r.1 <==> a + b >= U64_MODULUS
    ensures r.0 == if a + b >= U64_MODULUS then a + b - U64_MODULUS else a + b
  {
    (Wrap(a + b), a + b >= U64_MODULUS)
  }

  function Pow256(n: nat): (r: nat)
    ensures r >= 1
  {
    if n == 0 then 1 else 256 * Pow256(n - 1)
  }

  /** The `n` little-endian bytes of `x`, least significant first. */
  function ToLeN(x: nat, n: nat): (r: seq<byte>)
    ensures |r| == n
  {
    if n == 0 then [] else [x % 256] + ToLeN(x / 256, n - 1)
  }

  /** The number whose little-endian bytes are `b`. */
  function FromLe(b: seq<byte>): (r: nat)
    ensures r < Pow256(|b|)
  {
    if b == [] then 0 else b[0] + 256 * FromLe(b[1..])
  }

  /** `u64::to_le_bytes`. */
  function ToLeBytes(x: u64): (r: seq<byte>)
    ensures |r| == 8
  {
    ToLeN(x, 8)
  }

  /** `u64::from_le_bytes` on an 8-byte array. */
  function FromLeBytes(b: seq<byte>): (r: u64)
    requires |b| == 8
  {
    Pow256Eight();
    FromLe(b)
  }

  lemma Pow256Eight()
    ensures Pow256(8) == U64_MODULUS
  {
  }

  lemma {:induction false} FromLeToLeN(x: nat, n: nat)
    requires x < Pow256(n)
    ensures FromLe(ToLeN(x, n)) == x
  {
    if n > 0 {
      var rest := ToLeN(x / 256, n - 1);
      assert ToLeN(x, n) == [x % 256] + rest;
      assert ToLeN(x, n)[1..] == rest;
      assert x / 256 < Pow256(n - 1);
      FromLeToLeN(x / 256, n - 1);
    }
  }

  /** Reading back a little-endian index returns the written value. */
  lemma LeRoundTrip(x: u64)
    ensures FromLeBytes(ToLeBytes(x)) == x
  {
    Pow256Eight();
    FromLeToLeN(x, 8);
  }

  lemma {:induction false} ToLeNFromLe(b: seq<byte>)
    ensures ToLeN(FromLe(b), |b|) == b
  {
    if b != [] {
      var x := FromLe(b);
      assert x % 256 == b[0] && x / 256 == FromLe(b[1..]);
      ToLeNFromLe(b[1..]);
    }
  }

  /** Every 8-byte value is the encoding of exactly the index it decodes to. */
  lemma LeBytesRoundTrip(b: seq<byte>)
    requires |b| == 8
    ensures ToLeBytes(FromLeBytes(b)) == b
  {
    ToLeNFromLe(b);
  }
}
