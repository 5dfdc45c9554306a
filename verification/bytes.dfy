/**
 Unsigned big-endian byte strings and Java's two's-complement integer widths.
 A byte is the unsigned value 0..255; Java's signed `byte`, `short` and `long`
 are recovered through the explicit conversions below.
 */
module Bytes {

  type Byte = b: int | 0 <= b < 0x100

  /** Java `short` and `long`. */
  type Int16 = x: int | -0x8000 <= x < 0x8000
  type Int64 = x: int | -0x8000_0000_0000_0000 <= x < 0x8000_0000_0000_0000

  const TWO_64: int := 0x1_0000_0000_0000_0000

  function Pow256(k: nat): (p: nat)
    ensures p >= 1
  {
    if k == 0 then 1 else 256 * Pow256(k - 1)
  }

  lemma Pow256Values()
    ensures Pow256(1) == 0x100 && Pow256(2) == 0x1_0000 && Pow256(4) == 0x1_0000_0000
    ensures Pow256(6) == 0x1_0000_0000_0000 && Pow256(8) == TWO_64
  {
    assert Pow256(1) == 0x100;
    assert Pow256(2) == 0x1_0000;
    assert Pow256(3) == 0x100_0000;
    assert Pow256(4) == 0x1_0000_0000;
    assert Pow256(5) == 0x100_0000_0000;
    assert Pow256(6) == 0x1_0000_0000_0000;
    assert Pow256(7) == 0x100_0000_0000_0000;
  }

  /** The value of `bs` read as an unsigned big-endian number. */
  function Unsigned(bs: seq<Byte>): (n: nat)
    ensures n < Pow256(|bs|)
  {
    if |bs| == 0 then 0 else Unsigned(bs[..|bs| - 1]) * 256 + bs[|bs| - 1]
  }

  /** The `k` big-endian bytes of `n`. */
  function ToBytes(n: nat, k: nat): (bs: seq<Byte>)
    requires n < Pow256(k)
    ensures |bs| == k
  {
    if k == 0 then [] else ToBytes(n / 256, k - 1) + [n % 256]
  }

  lemma {:induction false} UnsignedOfToBytes(n: nat, k: nat)
    requires n < Pow256(k)
    ensures Unsigned(ToBytes(n, k)) == n
  {
    if k > 0 {
      var bs := ToBytes(n, k);
      assert bs[..k - 1] == ToBytes(n / 256, k - 1);
      UnsignedOfToBytes(n / 256, k - 1);
    }
  }

  lemma {:induction false} ToBytesOfUnsigned(bs: seq<Byte>)
    ensures ToBytes(Unsigned(bs), |bs|) == bs
  {
    if |bs| > 0 {
      var init := bs[..|bs| - 1];
      ToBytesOfUnsigned(init);
      assert init + [bs[|bs| - 1]] == bs;
    }
  }

  /** The two's-complement reading of a byte, as a Java `byte`. */
  function SignedByte(b: Byte): (x: int)
    ensures -0x80 <= x < 0x80 && x % 0x100 == b
  {
    if b < 0x80 then b else b - 0x100
  }

  /** The two's-complement reading of a 64-bit pattern, as a Java `long`. */
  function Signed64(u: nat): (x: Int64)
    requires u < TWO_64
    ensures x % TWO_64 == u
  {
    if u < 0x8000_0000_0000_0000 then u else u - TWO_64
  }

  /** The 64-bit pattern of a Java `long`. */
  function Unsigned64(x: Int64): (u: nat)
    ensures u < TWO_64
    ensures Signed64(u) == x
  {
    if x >= 0 then x else x + TWO_64
  }

  lemma Unsigned64OfSigned64(u: nat)
    requires u < TWO_64
    ensures Unsigned64(Signed64(u)) == u
  {
  }
}
