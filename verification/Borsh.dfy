/**
  Borsh as the derive macros use it: a record is the concatenation of its fields in declaration
  order. A record layout is a list of field kinds; string fields carry their raw octets, so that
  the strict Rust reader and the replacing JavaScript reader share one framing.
  */
module Borsh {
  import opened Bytes

  datatype Kind = U8 | Str | Arr32 | I64

  datatype Value =
    | VU8(u: Byte)
    | VStr(s: ByteSeq)
    | VArr(a: Bytes32)
    | VI64(i: Int64)
  {
    function Kind(): Kind {
      match this
      case VU8(_) => U8
      case VStr(_) => Str
      case VArr(_) => Arr32
      case VI64(_) => I64
    }

    /** A string longer than a `u32` can count is refused by the serialiser. */
    predicate Fits() {
      VStr? ==> |s| < TWO_32
    }
  }

  predicate AllFit(vs: seq<Value>) {
    forall v :: v in vs ==> v.Fits()
  }

  function Kinds(vs: seq<Value>): (ks: seq<Kind>)
    ensures |ks| == |vs|
  {
    seq(|vs|, i requires 0 <= i < |vs| => vs[i].Kind())
  }

  function EncodeValue(v: Value): ByteSeq {
    match v
    case VU8(u) => [u]
    case VStr(s) => ToLE(|s|, 4) + s
    case VArr(a) => a
    case VI64(i) => I64ToLE(i)
  }

  function Encode(vs: seq<Value>): ByteSeq {
    if vs == [] then [] else EncodeValue(vs[0]) + Encode(vs[1..])
  }

  /** A value read, and the octets not yet consumed. */
  datatype Parsed<+T> = Parsed(value: T, rest: ByteSeq)

  function DecodeValue(k: Kind, b: ByteSeq): Option<Parsed<Value>> {
    match k
    case U8 => if |b| < 1 then None else Some(Parsed(VU8(b[0]), b[1..]))
    case Arr32 => if |b| < 32 then None else Some(Parsed(VArr(b[..32]), b[32..]))
    case I64 => if |b| < 8 then None else Some(Parsed(VI64(I64FromLE(b[..8])), b[8..]))
    case Str =>
      if |b| < 4 then None
      else
        var n := FromLE(b[..4]);
        if |b| < 4 + n then None else Some(Parsed(VStr(b[4..4 + n]), b[4 + n..]))
  }

  function Decode(ks: seq<Kind>, b: ByteSeq): Option<Parsed<seq<Value>>> {
    if ks == [] then Some(Parsed([], b))
    else
      match DecodeValue(ks[0], b)
      case None => None
      case Some(first) =>
        match Decode(ks[1..], first.rest)
        case None => None
        case Some(more) => Some(Parsed([first.value] + more.value, more.rest))
  }

  lemma {:induction false} ValueRoundTrip(v: Value, rest: ByteSeq)
    requires v.Fits()
    ensures DecodeValue(v.Kind(), EncodeValue(v) + rest) == Some(Parsed(v, rest))
  {
    var b := EncodeValue(v) + rest;
    assert b[|EncodeValue(v)|..] == rest;
    match v
    case VU8(_) =>
    case VArr(a) => assert b[..32] == a;
    case VI64(i) => assert b[..8] == I64ToLE(i); I64RoundTrip(i);
    case VStr(s) =>
      Widths();
      FromToLE(|s|, 4);
      assert b[..4] == ToLE(|s|, 4);
      assert b[4..4 + |s|] == s;
  }

  lemma {:induction false} ValueCanonical(k: Kind, b: ByteSeq)
    requires DecodeValue(k, b).Some?
    ensures var p := DecodeValue(k, b).value;
            p.value.Kind() == k && p.value.Fits() && EncodeValue(p.value) + p.rest == b
  {
    Widths();
    match k
    case U8 =>
    case Arr32 =>
    case I64 => I64Canonical(b[..8]);
    case Str => ToFromLE(b[..4]);
  }

  lemma {:induction false} Cons(v: Value, vs: seq<Value>, rest: ByteSeq)
    ensures Kinds([v] + vs) == [v.Kind()] + Kinds(vs)
    ensures AllFit([v] + vs) <==> v.Fits() && AllFit(vs)
    ensures Encode([v] + vs) + rest == EncodeValue(v) + (Encode(vs) + rest)
  {
    assert ([v] + vs)[1..] == vs;
    assert forall u :: u in [v] + vs <==> u == v || u in vs;
  }

  lemma {:induction false} DecodeCons(k: Kind, ks: seq<Kind>, b: ByteSeq, first: Parsed<Value>,
      more: Parsed<seq<Value>>)
    requires DecodeValue(k, b) == Some(first) && Decode(ks, first.rest) == Some(more)
    ensures Decode([k] + ks, b) == Some(Parsed([first.value] + more.value, more.rest))
  {
    assert ([k] + ks)[1..] == ks;
  }

  lemma {:induction false} EncodeDrop(vs: seq<Value>, k: nat)
    requires k < |vs|
    ensures Encode(vs[k..]) == EncodeValue(vs[k]) + Encode(vs[k + 1..])
  {
    assert vs[k..][1..] == vs[k + 1..];
  }

  /** Reading back what was written, whatever follows it. */
  lemma {:induction false} RoundTrip(vs: seq<Value>, rest: ByteSeq)
    requires AllFit(vs)
    ensures Decode(Kinds(vs), Encode(vs) + rest) == Some(Parsed(vs, rest))
  {
    if vs == [] {
      assert Encode(vs) + rest == rest;
    } else {
      var v, us := vs[0], vs[1..];
      assert vs == [v] + us;
      RoundTrip(us, rest);
      Cons(v, us, rest);
      ValueRoundTrip(v, Encode(us) + rest);
      DecodeCons(v.Kind(), Kinds(us), Encode(vs) + rest, Parsed(v, Encode(us) + rest), Parsed(us, rest));
    }
  }

  /** Whatever is accepted is exactly what would be written. */
  lemma {:induction false} Canonical(ks: seq<Kind>, b: ByteSeq)
    requires Decode(ks, b).Some?
    ensures var p := Decode(ks, b).value;
            Kinds(p.value) == ks && AllFit(p.value) && Encode(p.value) + p.rest == b
  {
    if ks == [] {
      assert Encode([]) + b == b;
    } else {
      var first := DecodeValue(ks[0], b).value;
      var more := Decode(ks[1..], first.rest).value;
      ValueCanonical(ks[0], b);
      Canonical(ks[1..], first.rest);
      Cons(first.value, more.value, more.rest);
      assert ks == [ks[0]] + ks[1..];
    }
  }

  /** No encoding is a proper prefix of another of the same layout, and none has two readings. */
  lemma {:induction false} PrefixFree(vs: seq<Value>, us: seq<Value>, restV: ByteSeq, restU: ByteSeq)
    requires AllFit(vs) && AllFit(us) && Kinds(vs) == Kinds(us)
    requires Encode(vs) + restV == Encode(us) + restU
    ensures vs == us && restV == restU
  {
    RoundTrip(vs, restV);
    RoundTrip(us, restU);
  }

  /** Reading `vs` in turn, as `ks` says, leads from `data` to `rest`. */
  predicate Consumed(ks: seq<Kind>, data: ByteSeq, vs: seq<Value>, rest: ByteSeq)
    decreases |vs|
  {
    if vs == [] then data == rest
    else
      && ks != []
      && DecodeValue(ks[0], data).Some?
      && DecodeValue(ks[0], data).value.value == vs[0]
      && Consumed(ks[1..], DecodeValue(ks[0], data).value.rest, vs[1..], rest)
  }

  lemma {:induction false} ConsumeNext(ks: seq<Kind>, data: ByteSeq, vs: seq<Value>, rest: ByteSeq)
    requires Consumed(ks, data, vs, rest) && |vs| < |ks| && DecodeValue(ks[|vs|], rest).Some?
    ensures var p := DecodeValue(ks[|vs|], rest).value; Consumed(ks, data, vs + [p.value], p.rest)
    decreases |vs|
  {
    if vs != [] {
      var p := DecodeValue(ks[|vs|], rest).value;
      ConsumeNext(ks[1..], DecodeValue(ks[0], data).value.rest, vs[1..], rest);
      assert (vs + [p.value])[1..] == vs[1..] + [p.value];
    }
  }

  /** A complete sequence of reads is what `Decode` does. */
  lemma {:induction false} ConsumedAll(ks: seq<Kind>, data: ByteSeq, vs: seq<Value>, rest: ByteSeq)
    requires Consumed(ks, data, vs, rest) && |vs| == |ks|
    ensures Decode(ks, data) == Some(Parsed(vs, rest)) && Kinds(vs) == ks
    decreases |vs|
  {
    if vs != [] {
      ConsumedAll(ks[1..], DecodeValue(ks[0], data).value.rest, vs[1..], rest);
      assert [vs[0]] + vs[1..] == vs;
    }
    Canonical(ks, data);
  }

  /** A read that fails after some that succeed makes `Decode` fail. */
  lemma {:induction false} ConsumeStuck(ks: seq<Kind>, data: ByteSeq, vs: seq<Value>, rest: ByteSeq)
    requires Consumed(ks, data, vs, rest) && |vs| < |ks| && DecodeValue(ks[|vs|], rest).None?
    ensures Decode(ks, data).None?
    decreases |vs|
  {
    if vs != [] {
      ConsumeStuck(ks[1..], DecodeValue(ks[0], data).value.rest, vs[1..], rest);
    }
  }

  lemma {:induction false} LongerTotal(us: seq<Value>, vs: seq<Value>)
    requires |us| == |vs|
    requires forall i :: 0 <= i < |vs| ==> |EncodeValue(us[i])| >= |EncodeValue(vs[i])|
    ensures |Encode(us)| >= |Encode(vs)|
  {
    if vs != [] {
      LongerTotal(us[1..], vs[1..]);
    }
  }

  /** Fields that are each at least as long, and together no longer, are each equally long. */
  lemma {:induction false} NoneLonger(us: seq<Value>, vs: seq<Value>, i: nat)
    requires |us| == |vs| && i < |vs|
    requires forall j :: 0 <= j < |vs| ==> |EncodeValue(us[j])| >= |EncodeValue(vs[j])|
    requires |Encode(us)| == |Encode(vs)|
    ensures |EncodeValue(us[i])| == |EncodeValue(vs[i])|
  {
    var ut, vt := us[1..], vs[1..];
    assert forall j :: 0 <= j < |vt| ==> ut[j] == us[j + 1] && vt[j] == vs[j + 1];
    LongerTotal(ut, vt);
    assert |Encode(us)| == |EncodeValue(us[0])| + |Encode(ut)|;
    assert |Encode(vs)| == |EncodeValue(vs[0])| + |Encode(vt)|;
    if i > 0 {
      NoneLonger(ut, vt, i - 1);
    }
  }
}
