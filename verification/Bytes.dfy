/** Octets, 32-byte arrays and the little-endian integers every wire format here uses. */
module Bytes {
  type Byte = b: int | 0 <= b < 256
  type ByteSeq = seq<Byte>
  type Bytes32 = b: ByteSeq | |b| == 32 witness seq(32, _ => 0)

  const TWO_16 := 0x1_0000
  const TWO_32 := 0x1_0000_0000
  const I64_MAX := 0x7FFF_FFFF_FFFF_FFFF
  const I64_MIN := -0x8000_0000_0000_0000
  const TWO_64 := 0x1_0000_0000_0000_0000

  type Int64 = i: int | -0x8000_0000_0000_0000 <= i <= 0x7FFF_FFFF_FFFF_FFFF

  datatype Option<+T> = None | Some(value: T)

  datatype Result<+T, +E> = Ok(value: T) | Err(error: E)

  /** An ASCII character: both an octet and a Unicode scalar value. */
  type AsciiChar = c: int | 0 <= c < 128

  function Ascii(s: string): (t: seq<AsciiChar>)
    requires forall i :: 0 <= i < |s| ==> s[i] as int < 128
    ensures |t| == |s| && forall i :: 0 <= i < |s| ==> t[i] == s[i] as int
  {
    seq(|s|, i requires 0 <= i < |s| => s[i] as int)
  }

  function Zeros(n: nat): (z: ByteSeq)
    ensures |z| == n
  {
    seq(n, _ => 0)
  }

  function Pow256(w: nat): (p: nat)
    ensures p >= 1
  {
    if w == 0 then 1 else 256 * Pow256(w - 1)
  }

  /** The `w` least significant octets of `n`, least significant first. */
  function ToLE(n: nat, w: nat): (bs: ByteSeq)
    ensures |bs| == w
  {
    if w == 0 then [] else [n % 256] + ToLE(n / 256, w - 1)
  }

  function FromLE(bs: ByteSeq): (n: nat)
    ensures n < Pow256(|bs|)
  {
    if bs == [] then 0 else bs[0] + 256 * FromLE(bs[1..])
  }

  lemma Digit(low: Byte, high: nat)
    ensures (low + 256 * high) % 256 == low && (low + 256 * high) / 256 == high
  {
  }

  lemma {:induction false} FromToLE(n: nat, w: nat)
    requires n < Pow256(w)
    ensures FromLE(ToLE(n, w)) == n
  {
    if w > 0 {
      FromToLE(n / 256, w - 1);
      assert ToLE(n, w)[1..] == ToLE(n / 256, w - 1);
    }
  }

  lemma {:induction false} ToFromLE(bs: ByteSeq)
    ensures ToLE(FromLE(bs), |bs|) == bs
  {
    if bs != [] {
      ToFromLE(bs[1..]);
      Digit(bs[0], FromLE(bs[1..]));
      assert bs == [bs[0]] + bs[1..];
    }
  }

  lemma Widths()
    ensures Pow256(2) == TWO_16 && Pow256(4) == TWO_32 && Pow256(8) == TWO_64
  {
    assert Pow256(3) == 256 * Pow256(2);
    assert Pow256(5) == 256 * Pow256(4);
    assert Pow256(7) == 256 * Pow256(6);
  }

  /** Two's complement, little endian: Borsh `i64` and `writeBigInt64LE`. */
  function I64ToLE(i: Int64): (bs: ByteSeq)
    ensures |bs| == 8
  {
    ToLE(if i < 0 then i + TWO_64 else i, 8)
  }

  function I64FromLE(bs: ByteSeq): (i: Int64)
    requires |bs| == 8
  {
    Widths();
    var u := FromLE(bs);
    if u > I64_MAX then u - TWO_64 else u
  }

  /** The octets spell the number modulo 2^64. */
  lemma TwosComplement(i: Int64)
    ensures (FromLE(I64ToLE(i)) - i) % TWO_64 == 0
  {
    Widths();
    FromToLE(if i < 0 then i + TWO_64 else i, 8);
  }

  lemma I64RoundTrip(i: Int64)
    ensures I64FromLE(I64ToLE(i)) == i
  {
    Widths();
    FromToLE(if i < 0 then i + TWO_64 else i, 8);
  }

  lemma I64Canonical(bs: ByteSeq)
    requires |bs| == 8
    ensures I64ToLE(I64FromLE(bs)) == bs
  {
    Widths();
    ToFromLE(bs);
  }

  function SaturatingAdd(a: Int64, b: Int64): (r: Int64)
    ensures I64_MIN <= a + b <= I64_MAX ==> r == a + b
    ensures a + b > I64_MAX ==> r == I64_MAX
    ensures a + b < I64_MIN ==> r == I64_MIN
  {
    Clamp(a + b)
  }

  function SaturatingSub(a: Int64, b: Int64): (r: Int64)
    ensures I64_MIN <= a - b <= I64_MAX ==> r == a - b
    ensures a - b > I64_MAX ==> r == I64_MAX
    ensures a - b < I64_MIN ==> r == I64_MIN
  {
    Clamp(a - b)
  }

  function Clamp(x: int): Int64 {
    if x > I64_MAX then I64_MAX else if x < I64_MIN then I64_MIN else x
  }
}
