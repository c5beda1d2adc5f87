// Bytes and the big-endian integers both on-disk formats are built from.
module Bytes {

  type byte = b: int | 0 <= b < 256

  const TWO_32 := 0x1_0000_0000
  const TWO_64 := 0x1_0000_0000_0000_0000

  // The n low-order bytes of v, most significant first; like the fixed-width
  // put operations it models, it drops what does not fit.
  function BigEndian(n: nat, v: nat): (bs: seq<byte>)
    ensures |bs| == n
  {
    if n == 0 then [] else BigEndian(n - 1, v / 256) + [v % 256]
  }

  function FromBigEndian(bs: seq<byte>): nat {
    if bs == [] then 0 else FromBigEndian(bs[..|bs| - 1]) * 256 + bs[|bs| - 1]
  }

  function Pow256(n: nat): nat {
    if n == 0 then 1 else 256 * Pow256(n - 1)
  }

  lemma {:induction false} BigEndianRoundTrip(n: nat, v: nat)
    requires v < Pow256(n)
    ensures FromBigEndian(BigEndian(n, v)) == v
  {
    if n == 0 {
    } else {
      BigEndianRoundTrip(n - 1, v / 256);
      assert BigEndian(n, v)[..n - 1] == BigEndian(n - 1, v / 256);
    }
  }

  lemma Widths()
    ensures Pow256(4) == TWO_32 && Pow256(8) == TWO_64
  {
    assert Pow256(4) == 256 * (256 * (256 * (256 * Pow256(0))));
    assert Pow256(8) == 256 * (256 * (256 * (256 * Pow256(4))));
  }

  lemma {:induction false} FromBigEndianBelow(bs: seq<byte>)
    ensures FromBigEndian(bs) < Pow256(|bs|)
  {
    if bs == [] {
    } else {
      FromBigEndianBelow(bs[..|bs| - 1]);
    }
  }

  // The words of a file, at a byte position.
  function Word32(file: seq<byte>, at: nat): (v: nat)
    requires at + 4 <= |file|
    ensures v < TWO_32
  {
    FromBigEndianBelow(file[at..at + 4]);
    Widths();
    FromBigEndian(file[at..at + 4])
  }

  function Word64(file: seq<byte>, at: nat): (v: nat)
    requires at + 8 <= |file|
    ensures v < TWO_64
  {
    FromBigEndianBelow(file[at..at + 8]);
    Widths();
    FromBigEndian(file[at..at + 8])
  }

  // A 64-bit signed value stored through an unsigned word, and back.
  function ToUnsigned64(t: int): nat
    requires -TWO_64 / 2 <= t < TWO_64 / 2
  {
    if t < 0 then t + TWO_64 else t
  }

  function ToSigned64(u: nat): int
    requires u < TWO_64
  {
    if u < TWO_64 / 2 then u else u - TWO_64
  }
}
