/**
  UTF-8 as in section 3 of RFC 3629. Text is a sequence of Unicode scalar values; `Decode` is the
  strict reader behind Rust's `String`, `DecodeLossy` is the replacing reader behind
  `Buffer.toString("utf8")`.
  */
module Utf8 {
  import opened Bytes

  type Scalar = s: int | 0 <= s < 0xD800 || 0xE000 <= s <= 0x10FFFF
  type Text = seq<Scalar>

  const REPLACEMENT: Scalar := 0xFFFD

  function EncodeScalar(s: Scalar): (b: ByteSeq)
    ensures 1 <= |b| <= 4
  {
    var q1 := s / 64;
    var q2 := q1 / 64;
    if s < 0x80 then [s]
    else if s < 0x800 then [0xC0 + q1, 0x80 + s % 64]
    else if s < 0x1_0000 then [0xE0 + q2, 0x80 + q1 % 64, 0x80 + s % 64]
    else [0xF0 + q2 / 64, 0x80 + q2 % 64, 0x80 + q1 % 64, 0x80 + s % 64]
  }

  function Encode(t: Text): ByteSeq {
    if t == [] then [] else EncodeScalar(t[0]) + Encode(t[1..])
  }

  /** The number of octets announced by a lead octet; 0 when it cannot start a scalar. */
  function Announced(lead: Byte): (n: nat)
    ensures n <= 4
  {
    if lead < 0x80 then 1
    else if 0xC2 <= lead < 0xE0 then 2
    else if 0xE0 <= lead < 0xF0 then 3
    else if 0xF0 <= lead < 0xF5 then 4
    else 0
  }

  /** May octet `b` stand at position `i` of a sequence that starts with `lead`? */
  predicate Continues(lead: Byte, i: nat, b: Byte) {
    && 0x80 <= b < 0xC0
    && (i == 1 ==>
          && (lead == 0xE0 ==> b >= 0xA0)
          && (lead == 0xED ==> b < 0xA0)
          && (lead == 0xF0 ==> b >= 0x90)
          && (lead == 0xF4 ==> b < 0x90))
  }

  /** Length of the longest prefix of `b` (at most `want`) that could still become a scalar. */
  function ValidRun(b: ByteSeq, want: nat): (n: nat)
    requires |b| > 0 && want > 0
    ensures 1 <= n <= want && n <= |b|
    ensures forall i :: 1 <= i < n ==> Continues(b[0], i, b[i])
    ensures n < want && n < |b| ==> !Continues(b[0], n, b[n])
    decreases want
  {
    if want == 1 then 1
    else
      var n := ValidRun(b, want - 1);
      if n == want - 1 && n < |b| && Continues(b[0], n, b[n]) then n + 1 else n
  }

  datatype One = Good(scalar: Scalar, width: nat) | Bad(width: nat)

  /** The code point spelled by the payload bits of 1 to 4 octets. */
  function Assemble(b: ByteSeq, n: nat): (v: int)
    requires 1 <= n <= 4 && n <= |b|
  {
    var lead: int := b[0];
    if n == 1 then lead
    else if n == 2 then Shift6(lead - 0xC0, b[1])
    else if n == 3 then Shift6(Shift6(lead - 0xE0, b[1]), b[2])
    else Shift6(Shift6(Shift6(lead - 0xF0, b[1]), b[2]), b[3])
  }

  /** Append the six payload bits of a continuation octet. */
  function Shift6(high: int, b: int): int {
    64 * high + (b - 0x80)
  }

  predicate WellFormed(b: ByteSeq, n: nat) {
    && 1 <= n <= |b|
    && n == Announced(b[0])
    && forall i :: 1 <= i < n ==> Continues(b[0], i, b[i])
  }

  lemma Unshift6(high: int, b: int)
    requires 0x80 <= b < 0xC0
    ensures Shift6(high, b) / 64 == high && Shift6(high, b) % 64 == b - 0x80
  {
  }

  lemma Assemble2(b: ByteSeq)
    requires WellFormed(b, 2)
    ensures 0x80 <= Assemble(b, 2) < 0x800 && EncodeScalar(Assemble(b, 2)) == b[..2]
  {
    assert Continues(b[0], 1, b[1]);
    var lead: int := b[0];
    Unshift6(lead - 0xC0, b[1]);
  }

  lemma Assemble3(b: ByteSeq)
    requires WellFormed(b, 3)
    ensures var v := Assemble(b, 3); 0x800 <= v < 0xD800 || 0xE000 <= v <= 0xFFFF
    ensures EncodeScalar(Assemble(b, 3)) == b[..3]
  {
    assert Continues(b[0], 1, b[1]) && Continues(b[0], 2, b[2]);
    var lead: int := b[0];
    Unshift6(lead - 0xE0, b[1]);
    Unshift6(Shift6(lead - 0xE0, b[1]), b[2]);
  }

  /** The four octets of a supplementary scalar, from its base-64 digits. */
  lemma EncodeFour(q: int, d2: int, d1: int, d0: int)
    requires 0 <= d2 < 64 && 0 <= d1 < 64 && 0 <= d0 < 64 && 0x10 <= 64 * q + d2 < 0x110
    ensures var v := 64 * (64 * (64 * q + d2) + d1) + d0;
            0x1_0000 <= v <= 0x10_FFFF && EncodeScalar(v) == [0xF0 + q, 0x80 + d2, 0x80 + d1, 0x80 + d0]
  {
    var h1 := 64 * q + d2;
    var h2 := 64 * h1 + d1;
    var v := 64 * h2 + d0;
    assert v / 64 == h2 && v % 64 == d0;
    assert h2 / 64 == h1 && h2 % 64 == d1;
    assert h1 / 64 == q && h1 % 64 == d2;
  }

  lemma Assemble4(b: ByteSeq)
    requires WellFormed(b, 4)
    ensures 0x1_0000 <= Assemble(b, 4) <= 0x10_FFFF && EncodeScalar(Assemble(b, 4)) == b[..4]
  {
    assert Continues(b[0], 1, b[1]) && Continues(b[0], 2, b[2]) && Continues(b[0], 3, b[3]);
    var b0: int, b1: int, b2: int, b3: int := b[0], b[1], b[2], b[3];
    EncodeFour(b0 - 0xF0, b1 - 0x80, b2 - 0x80, b3 - 0x80);
  }

  lemma AssembleIsScalar(b: ByteSeq, n: nat)
    requires WellFormed(b, n)
    ensures var v := Assemble(b, n); 0 <= v < 0xD800 || 0xE000 <= v <= 0x10FFFF
    ensures EncodeScalar(Assemble(b, n)) == b[..n]
  {
    if n == 2 {
      Assemble2(b);
    } else if n == 3 {
      Assemble3(b);
    } else if n == 4 {
      Assemble4(b);
    }
  }

  function DecodeOne(b: ByteSeq): (r: One)
    requires b != []
    ensures 1 <= r.width <= |b|
    ensures r.Good? <==> WellFormed(b, Announced(b[0]))
  {
    var want := Announced(b[0]);
    if want == 0 then Bad(1)
    else
      var n := ValidRun(b, want);
      if n < want then Bad(n) else AssembleIsScalar(b, n); Good(Assemble(b, n), n)
  }

  function Decode(b: ByteSeq): Option<Text> {
    if b == [] then Some([])
    else
      match DecodeOne(b)
      case Bad(_) => None
      case Good(s, n) =>
        match Decode(b[n..])
        case None => None
        case Some(t) => Some([s] + t)
  }

  function DecodeLossy(b: ByteSeq): Text {
    if b == [] then []
    else
      match DecodeOne(b)
      case Bad(n) => [REPLACEMENT] + DecodeLossy(b[n..])
      case Good(s, n) => [s] + DecodeLossy(b[n..])
  }

  lemma EncodeScalarShape(s: Scalar, rest: ByteSeq)
    ensures var e := EncodeScalar(s); WellFormed(e + rest, |e|) && Assemble(e + rest, |e|) == s
  {
  }

  lemma DecodeEncodeOne(s: Scalar, rest: ByteSeq)
    ensures DecodeOne(EncodeScalar(s) + rest) == Good(s, |EncodeScalar(s)|)
  {
    EncodeScalarShape(s, rest);
  }

  lemma EncodeDecodeOne(b: ByteSeq)
    requires b != [] && DecodeOne(b).Good?
    ensures EncodeScalar(DecodeOne(b).scalar) == b[..DecodeOne(b).width]
  {
    AssembleIsScalar(b, DecodeOne(b).width);
  }

  lemma {:induction false} RoundTrip(t: Text)
    ensures Decode(Encode(t)) == Some(t)
  {
    if t != [] {
      var e := EncodeScalar(t[0]);
      DecodeEncodeOne(t[0], Encode(t[1..]));
      RoundTrip(t[1..]);
      assert Encode(t)[|e|..] == Encode(t[1..]);
      assert [t[0]] + t[1..] == t;
    }
  }

  lemma {:induction false} EncodeCons(s: Scalar, t: Text, b: ByteSeq, n: nat)
    requires n <= |b| && EncodeScalar(s) == b[..n] && Encode(t) == b[n..]
    ensures Encode([s] + t) == b
  {
    assert ([s] + t)[1..] == t;
    assert b == b[..n] + b[n..];
  }

  lemma {:induction false} Canonical(b: ByteSeq)
    requires Decode(b).Some?
    ensures Encode(Decode(b).value) == b
  {
    if b != [] {
      var one := DecodeOne(b);
      EncodeDecodeOne(b);
      Canonical(b[one.width..]);
      EncodeCons(one.scalar, Decode(b[one.width..]).value, b, one.width);
    }
  }

  lemma {:induction false} LossyAgrees(b: ByteSeq)
    requires Decode(b).Some?
    ensures DecodeLossy(b) == Decode(b).value
  {
    if b != [] {
      LossyAgrees(b[DecodeOne(b).width..]);
    }
  }

  /** The replacing reader loses nothing exactly on well-formed UTF-8. */
  lemma LossyFaithful(b: ByteSeq)
    ensures Encode(DecodeLossy(b)) == b <==> Decode(b).Some?
  {
    if Decode(b).Some? {
      LossyAgrees(b);
      Canonical(b);
    }
    RoundTrip(DecodeLossy(b));
  }

  /** `b` begins the encoding of some scalar. */
  ghost predicate Begins(b: ByteSeq) {
    exists s: Scalar :: b <= EncodeScalar(s)
  }

  /** A run of octets that could still become a scalar does become one, with suitable octets after it. */
  lemma {:induction false} RunBegins(b: ByteSeq, n: nat)
    requires 1 <= n <= |b| && n <= Announced(b[0])
    requires forall i :: 1 <= i < n ==> Continues(b[0], i, b[i])
    ensures Begins(b[..n])
  {
    var want := Announced(b[0]);
    var second := if b[0] == 0xE0 then 0xA0 else if b[0] == 0xF0 then 0x90 else 0x80;
    var full := seq(want, i requires 0 <= i < want => if i < n then b[i] else if i == 1 then second else 0x80);
    assert WellFormed(full, want);
    AssembleIsScalar(full, want);
    assert full[..want] == full;
    assert b[..n] <= full;
  }

  lemma {:induction false} BeginsRun(b: ByteSeq)
    requires b != [] && Begins(b)
    ensures |b| <= Announced(b[0]) && forall i :: 1 <= i < |b| ==> Continues(b[0], i, b[i])
  {
    var s: Scalar :| b <= EncodeScalar(s);
    EncodeScalarShape(s, []);
    assert EncodeScalar(s) + [] == EncodeScalar(s);
  }

  /** The first octets of `b` that the replacing reader takes together: as many as begin a scalar, and at least one. */
  ghost predicate MaximalSubpart(b: ByteSeq, n: nat) {
    && 1 <= n <= |b|
    && (n > 1 ==> Begins(b[..n]))
    && (n < |b| ==> !Begins(b[..n + 1]))
  }

  lemma {:induction false} BadIsMaximal(b: ByteSeq)
    requires b != [] && DecodeOne(b).Bad?
    ensures MaximalSubpart(b, DecodeOne(b).width)
  {
    var n := DecodeOne(b).width;
    if n > 1 {
      RunBegins(b, n);
    }
    if n < |b| && Begins(b[..n + 1]) {
      BeginsRun(b[..n + 1]);
    }
  }

  /** The replacing reader reads a scalar that stands at the front. */
  lemma {:induction false} LossyReads(s: Scalar, rest: ByteSeq)
    ensures DecodeLossy(EncodeScalar(s) + rest) == [s] + DecodeLossy(rest)
  {
    DecodeEncodeOne(s, rest);
    assert (EncodeScalar(s) + rest)[|EncodeScalar(s)|..] == rest;
  }

  /** Where no scalar stands, the maximal subpart (section 3.9 of the Unicode standard) becomes one replacement character. */
  lemma {:induction false} LossyReplaces(b: ByteSeq) returns (n: nat)
    requires b != [] && forall s: Scalar :: !(EncodeScalar(s) <= b)
    ensures MaximalSubpart(b, n) && DecodeLossy(b) == [0xFFFD] + DecodeLossy(b[n..])
  {
    if DecodeOne(b).Good? {
      EncodeDecodeOne(b);
    } else {
      BadIsMaximal(b);
    }
    n := DecodeOne(b).width;
  }

  /** Replacing malformed octets never shortens. */
  lemma {:induction false} LossyGrows(b: ByteSeq)
    ensures |Encode(DecodeLossy(b))| >= |b|
  {
    if b != [] {
      var one := DecodeOne(b);
      LossyGrows(b[one.width..]);
      if one.Good? {
        EncodeDecodeOne(b);
      }
      assert DecodeLossy(b)[1..] == DecodeLossy(b[one.width..]);
    }
  }

  /** ASCII text encodes as itself. */
  lemma {:induction false} AsciiEncode(t: seq<AsciiChar>)
    ensures Encode(t) == t
  {
    if t != [] {
      AsciiEncode(t[1..]);
      assert t == [t[0]] + t[1..];
    }
  }

  lemma EmptyLength(t: Text)
    ensures |Encode(t)| == 0 <==> t == []
  {
  }
}
