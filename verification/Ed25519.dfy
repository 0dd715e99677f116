/**
  Two readers of one Ed25519 instruction: the native program, which decides what is verified, and
  the claim program's introspection, which decides what it believes was verified.
  */
module Ed25519 {
  import opened Bytes

  const SELF := 0xFFFF

  /** One signature check as the native program performs it. */
  datatype Check = Check(key: Bytes32, message: ByteSeq, signature: ByteSeq)

  type Verifier = (Bytes32, ByteSeq, ByteSeq) -> bool

  /** `d.get(from..from + len)` */
  function Get(d: ByteSeq, from: nat, len: nat): (r: Option<ByteSeq>)
    ensures r.Some? <==> from + len <= |d|
    ensures r.Some? ==> |r.value| == len
  {
    if from + len <= |d| then Some(d[from..from + len]) else None
  }

  // ---- The native program ------------------------------------------------------------------

  datatype Offsets = Offsets(
    sigOff: nat, sigIx: nat, keyOff: nat, keyIx: nat, msgOff: nat, msgLen: nat, msgIx: nat)

  /** The 14-octet offsets record that starts at `at`. */
  function OffsetsAt(d: ByteSeq, at: nat): Offsets
    requires at + 14 <= |d|
  {
    Offsets(U16(d, at), U16(d, at + 2), U16(d, at + 4), U16(d, at + 6), U16(d, at + 8), U16(d, at + 10), U16(d, at + 12))
  }

  function U16(d: ByteSeq, at: nat): nat
    requires at + 2 <= |d|
  {
    var low: int, high: int := d[at], d[at + 1];
    low + 256 * high
  }

  /** Octets named by an (instruction index, offset, size) triple; `SELF` means this instruction. */
  function DataSlice(d: ByteSeq, datas: seq<ByteSeq>, ix: nat, off: nat, size: nat): (r: Option<ByteSeq>)
    ensures r.Some? ==> |r.value| == size
  {
    if ix == SELF then Get(d, off, size)
    else if ix >= |datas| then None
    else Get(datas[ix], off, size)
  }

  function NativeCheck(d: ByteSeq, datas: seq<ByteSeq>, o: Offsets): Option<Check> {
    var sig := DataSlice(d, datas, o.sigIx, o.sigOff, 64);
    var key := DataSlice(d, datas, o.keyIx, o.keyOff, 32);
    var msg := DataSlice(d, datas, o.msgIx, o.msgOff, o.msgLen);
    if sig.None? || key.None? || msg.None? then None else Some(Check(key.value, msg.value, sig.value))
  }

  /** The checks from the `i`-th offsets record to the last, or None if one is malformed. */
  function NativeChecksFrom(d: ByteSeq, datas: seq<ByteSeq>, i: nat, count: nat): Option<seq<Check>>
    requires 2 + 14 * count <= |d| && i <= count
    decreases count - i
  {
    if i == count then Some([])
    else
      match NativeCheck(d, datas, OffsetsAt(d, 2 + 14 * i))
      case None => None
      case Some(c) =>
        match NativeChecksFrom(d, datas, i + 1, count)
        case None => None
        case Some(cs) => Some([c] + cs)
  }

  /** Everything the native program checks for instruction data `d` in a transaction with `datas`. */
  function NativeChecks(d: ByteSeq, datas: seq<ByteSeq>): Option<seq<Check>> {
    if |d| < 2 then None
    else
      var count: nat := d[0];
      if count == 0 && |d| > 2 then None
      else if |d| < 2 + 14 * count then None
      else NativeChecksFrom(d, datas, 0, count)
  }

  predicate NativeAccepts(ed: Verifier, d: ByteSeq, datas: seq<ByteSeq>) {
    match NativeChecks(d, datas)
    case None => false
    case Some(cs) => forall c :: c in cs ==> ed(c.key, c.message, c.signature)
  }

  // ---- The claim program's introspection ---------------------------------------------------

  datatype IntrospectError = MissingSignature | MalformedEd25519 | WrongVerifier | MessageMismatch

  function U16At(d: ByteSeq, i: nat): Result<nat, IntrospectError> {
    match Get(d, i, 2)
    case None => Err(MalformedEd25519)
    case Some(b) => Ok(FromLE(b))
  }

  function VerifyPreceding(d: ByteSeq, key: Bytes32, message: ByteSeq): Result<(), IntrospectError> {
    if !(|d| >= 16 && d[0] == 1) then Err(MalformedEd25519)
    else
      var sigOff, sigIx, keyOff, keyIx := U16At(d, 2), U16At(d, 4), U16At(d, 6), U16At(d, 8);
      var msgOff, msgLen, msgIx := U16At(d, 10), U16At(d, 12), U16At(d, 14);
      if sigOff.Err? || sigIx.Err? || keyOff.Err? || keyIx.Err? || msgOff.Err? || msgLen.Err? || msgIx.Err?
      then Err(MalformedEd25519)
      else if !(sigIx.value == SELF && keyIx.value == SELF && msgIx.value == SELF) then Err(MalformedEd25519)
      else if Get(d, keyOff.value, 32) != Some(key) then Err(WrongVerifier)
      else if Get(d, msgOff.value, msgLen.value) != Some(message) then Err(MessageMismatch)
      else if Get(d, sigOff.value, 64).None? then Err(MalformedEd25519)
      else Ok(())
  }

  // ---- Agreement ---------------------------------------------------------------------------

  lemma U16Agrees(d: ByteSeq, i: nat)
    requires i + 2 <= |d|
    ensures U16At(d, i) == Ok(U16(d, i))
  {
    var b := d[i..i + 2];
    assert FromLE(b) == b[0] + 256 * FromLE(b[1..]);
    assert FromLE(b[1..]) == b[1] + 256 * FromLE(b[1..][1..]);
  }

  lemma HeaderAgrees(d: ByteSeq)
    requires |d| >= 16
    ensures var o := OffsetsAt(d, 2);
            && U16At(d, 2) == Ok(o.sigOff) && U16At(d, 4) == Ok(o.sigIx)
            && U16At(d, 6) == Ok(o.keyOff) && U16At(d, 8) == Ok(o.keyIx)
            && U16At(d, 10) == Ok(o.msgOff) && U16At(d, 12) == Ok(o.msgLen) && U16At(d, 14) == Ok(o.msgIx)
  {
    U16Agrees(d, 2);
    U16Agrees(d, 4);
    U16Agrees(d, 6);
    U16Agrees(d, 8);
    U16Agrees(d, 10);
    U16Agrees(d, 12);
    U16Agrees(d, 14);
  }

  /** All three operands live in this very instruction. */
  predicate SelfContained(d: ByteSeq)
    requires |d| >= 16
  {
    var o := OffsetsAt(d, 2);
    o.sigIx == SELF && o.keyIx == SELF && o.msgIx == SELF
  }

  lemma SingleCheck(d: ByteSeq, datas: seq<ByteSeq>)
    requires |d| >= 16 && d[0] == 1
    ensures NativeChecks(d, datas) ==
            match NativeCheck(d, datas, OffsetsAt(d, 2)) case None => None case Some(c) => Some([c])
  {
    var one := NativeCheck(d, datas, OffsetsAt(d, 2));
    assert NativeChecksFrom(d, datas, 1, 1) == Some([]);
    if one.Some? {
      assert [one.value] + [] == [one.value];
    }
  }

  /** The native program performs exactly one check, and it is of `message` under `key`. */
  predicate ChecksExactly(d: ByteSeq, datas: seq<ByteSeq>, key: Bytes32, message: ByteSeq) {
    var cs := NativeChecks(d, datas);
    cs.Some? && |cs.value| == 1 && cs.value[0].key == key && cs.value[0].message == message
  }

  lemma {:induction false} ChecksCount(d: ByteSeq, datas: seq<ByteSeq>, i: nat, count: nat)
    requires 2 + 14 * count <= |d| && i <= count
    ensures var cs := NativeChecksFrom(d, datas, i, count); cs.Some? ==> |cs.value| == count - i
    decreases count - i
  {
    if i < count {
      ChecksCount(d, datas, i + 1, count);
    }
  }

  /**
    The readers agree, for every instruction data and whatever else the transaction contains:
    introspection accepts exactly the self-contained instructions whose one native check is of
    this message under this key.
    */
  lemma ReadersAgree(d: ByteSeq, datas: seq<ByteSeq>, key: Bytes32, message: ByteSeq)
    ensures VerifyPreceding(d, key, message).Ok? <==>
            |d| >= 16 && SelfContained(d) && ChecksExactly(d, datas, key, message)
  {
    if |d| >= 16 && d[0] == 1 {
      HeaderAgrees(d);
      SingleCheck(d, datas);
    } else if |d| >= 16 {
      var count: nat := d[0];
      if NativeChecks(d, datas).Some? {
        ChecksCount(d, datas, 0, count);
      }
    }
  }

  /** What is accepted by introspection and passed natively was verified: key and whole message. */
  lemma IntrospectionSound(ed: Verifier, d: ByteSeq, datas: seq<ByteSeq>, key: Bytes32, message: ByteSeq)
    requires VerifyPreceding(d, key, message).Ok?
    requires NativeAccepts(ed, d, datas)
    ensures exists s :: NativeChecks(d, datas) == Some([Check(key, message, s)]) && ed(key, message, s)
  {
    ReadersAgree(d, datas, key, message);
    var cs := NativeChecks(d, datas).value;
    assert cs[0] in cs;
    assert cs == [Check(key, message, cs[0].signature)];
  }

  /** `bytes` stand at `off` in `d`. */
  predicate Holds(d: ByteSeq, off: nat, bytes: ByteSeq) {
    off + |bytes| <= |d| && d[off..off + |bytes|] == bytes
  }

  /** One signature, all of it announced to lie in this instruction. */
  predicate Headed(d: ByteSeq) {
    |d| >= 16 && d[0] == 1 && SelfContained(d)
  }

  /** Why introspection refuses an instruction: each reason, and exactly when it is given. */
  lemma {:induction false} IntrospectionRefusals(d: ByteSeq, key: Bytes32, message: ByteSeq)
    ensures var r := VerifyPreceding(d, key, message);
            && (!Headed(d) ==> r == Err(MalformedEd25519))
            && (Headed(d) ==>
                  var o := OffsetsAt(d, 2);
                  var keyThere, messageThere := Holds(d, o.keyOff, key), o.msgLen == |message| && Holds(d, o.msgOff, message);
                  && (r == Err(WrongVerifier) <==> !keyThere)
                  && (r == Err(MessageMismatch) <==> keyThere && !messageThere)
                  && (r == Err(MalformedEd25519) <==> keyThere && messageThere && o.sigOff + 64 > |d|))
            && r != Err(MissingSignature)
  {
    if |d| >= 16 && d[0] == 1 {
      HeaderAgrees(d);
    }
  }

  /** An (instruction index, offset) pair points at `bytes`. */
  predicate PointsAt(d: ByteSeq, datas: seq<ByteSeq>, ix: nat, off: nat, bytes: ByteSeq) {
    if ix == 0xFFFF then Holds(d, off, bytes) else ix < |datas| && Holds(datas[ix], off, bytes)
  }

  /** The offsets record at `at` names a key, a message and a signature that verify. */
  ghost predicate Verifies(ed: Verifier, d: ByteSeq, datas: seq<ByteSeq>, at: nat)
    requires at + 14 <= |d|
  {
    var o := OffsetsAt(d, at);
    exists c: Check ::
      && |c.signature| == 64 && |c.message| == o.msgLen
      && PointsAt(d, datas, o.sigIx, o.sigOff, c.signature)
      && PointsAt(d, datas, o.keyIx, o.keyOff, c.key)
      && PointsAt(d, datas, o.msgIx, o.msgOff, c.message)
      && ed(c.key, c.message, c.signature)
  }

  lemma {:induction false} SliceExact(d: ByteSeq, datas: seq<ByteSeq>, ix: nat, off: nat, bytes: ByteSeq)
    ensures DataSlice(d, datas, ix, off, |bytes|) == Some(bytes) <==> PointsAt(d, datas, ix, off, bytes)
  {
  }

  lemma {:induction false} CheckExact(d: ByteSeq, datas: seq<ByteSeq>, o: Offsets, c: Check)
    ensures NativeCheck(d, datas, o) == Some(c) <==>
            && |c.signature| == 64 && |c.message| == o.msgLen
            && PointsAt(d, datas, o.sigIx, o.sigOff, c.signature)
            && PointsAt(d, datas, o.keyIx, o.keyOff, c.key)
            && PointsAt(d, datas, o.msgIx, o.msgOff, c.message)
  {
    SliceExact(d, datas, o.sigIx, o.sigOff, c.signature);
    SliceExact(d, datas, o.keyIx, o.keyOff, c.key);
    SliceExact(d, datas, o.msgIx, o.msgOff, c.message);
  }

  lemma {:induction false} VerifiesExact(ed: Verifier, d: ByteSeq, datas: seq<ByteSeq>, at: nat)
    requires at + 14 <= |d|
    ensures var c := NativeCheck(d, datas, OffsetsAt(d, at));
            Verifies(ed, d, datas, at) <==> c.Some? && ed(c.value.key, c.value.message, c.value.signature)
  {
    var o := OffsetsAt(d, at);
    var n := NativeCheck(d, datas, o);
    if n.Some? {
      CheckExact(d, datas, o, n.value);
    }
    forall c: Check
      ensures n == Some(c) <==>
              && |c.signature| == 64 && |c.message| == o.msgLen
              && PointsAt(d, datas, o.sigIx, o.sigOff, c.signature)
              && PointsAt(d, datas, o.keyIx, o.keyOff, c.key)
              && PointsAt(d, datas, o.msgIx, o.msgOff, c.message)
    {
      CheckExact(d, datas, o, c);
    }
  }

  ghost predicate AllVerify(ed: Verifier, d: ByteSeq, datas: seq<ByteSeq>, count: nat)
    requires 2 + 14 * count <= |d|
  {
    forall j: nat :: j < count ==> Verifies(ed, d, datas, 2 + 14 * j)
  }

  predicate AllPass(ed: Verifier, cs: seq<Check>) {
    forall c :: c in cs ==> ed(c.key, c.message, c.signature)
  }

  lemma {:induction false} AllPassCons(ed: Verifier, c: Check, cs: seq<Check>)
    ensures AllPass(ed, [c] + cs) <==> ed(c.key, c.message, c.signature) && AllPass(ed, cs)
  {
    assert c in [c] + cs;
    assert forall x :: x in cs ==> x in [c] + cs;
  }

  predicate PassFrom(ed: Verifier, d: ByteSeq, datas: seq<ByteSeq>, i: nat, count: nat)
    requires 2 + 14 * count <= |d| && i <= count
  {
    var cs := NativeChecksFrom(d, datas, i, count);
    cs.Some? && AllPass(ed, cs.value)
  }

  /** Adding one record in front of those that follow. */
  lemma {:induction false} ChecksCons(ed: Verifier, d: ByteSeq, datas: seq<ByteSeq>, i: nat, count: nat)
    requires 2 + 14 * count <= |d| && i < count
    ensures PassFrom(ed, d, datas, i, count) <==>
            Verifies(ed, d, datas, 2 + 14 * i) && PassFrom(ed, d, datas, i + 1, count)
  {
    VerifiesExact(ed, d, datas, 2 + 14 * i);
    var c, rest := NativeCheck(d, datas, OffsetsAt(d, 2 + 14 * i)), NativeChecksFrom(d, datas, i + 1, count);
    if c.Some? && rest.Some? {
      AllPassCons(ed, c.value, rest.value);
    }
  }

  lemma {:induction false} PassVerifies(ed: Verifier, d: ByteSeq, datas: seq<ByteSeq>, i: nat, j: nat, count: nat)
    requires 2 + 14 * count <= |d| && i <= j < count && PassFrom(ed, d, datas, i, count)
    ensures Verifies(ed, d, datas, 2 + 14 * j)
    decreases j - i
  {
    ChecksCons(ed, d, datas, i, count);
    if i < j {
      PassVerifies(ed, d, datas, i + 1, j, count);
    }
  }

  lemma {:induction false} FirstFailure(ed: Verifier, d: ByteSeq, datas: seq<ByteSeq>, i: nat, count: nat)
    returns (j: nat)
    requires 2 + 14 * count <= |d| && i <= count && !PassFrom(ed, d, datas, i, count)
    ensures i <= j < count && !Verifies(ed, d, datas, 2 + 14 * j)
    decreases count - i
  {
    j := i;
    if i < count {
      ChecksCons(ed, d, datas, i, count);
      if !PassFrom(ed, d, datas, i + 1, count) {
        j := FirstFailure(ed, d, datas, i + 1, count);
      }
    }
  }

  lemma {:induction false} ChecksExact(ed: Verifier, d: ByteSeq, datas: seq<ByteSeq>, count: nat)
    requires 2 + 14 * count <= |d|
    ensures AllVerify(ed, d, datas, count) <==> PassFrom(ed, d, datas, 0, count)
  {
    if PassFrom(ed, d, datas, 0, count) {
      forall j: nat | j < count
        ensures Verifies(ed, d, datas, 2 + 14 * j)
      {
        PassVerifies(ed, d, datas, 0, j, count);
      }
    } else {
      var j := FirstFailure(ed, d, datas, 0, count);
    }
  }

  /** The native program accepts exactly when every announced record names operands that verify. */
  lemma {:induction false} NativeExact(ed: Verifier, d: ByteSeq, datas: seq<ByteSeq>)
    ensures NativeAccepts(ed, d, datas) <==>
            |d| >= 2 && (d[0] == 0 ==> |d| == 2) && 2 + 14 * d[0] <= |d| && AllVerify(ed, d, datas, d[0])
  {
    if |d| >= 2 && 2 + 14 * d[0] <= |d| {
      ChecksExact(ed, d, datas, d[0]);
    }
  }

  /** One instruction vouches for one key and one message. */
  lemma AcceptsOneMessage(d: ByteSeq, key1: Bytes32, message1: ByteSeq, key2: Bytes32, message2: ByteSeq)
    requires VerifyPreceding(d, key1, message1).Ok? && VerifyPreceding(d, key2, message2).Ok?
    ensures key1 == key2 && message1 == message2
  {
    ReadersAgree(d, [], key1, message1);
    ReadersAgree(d, [], key2, message2);
  }

  // ---- Building the instruction ------------------------------------------------------------

  /** The layout `Ed25519Program.createInstructionWithPublicKey` emits. */
  function BuildInstruction(key: Bytes32, message: ByteSeq, signature: ByteSeq): (d: ByteSeq)
    requires |signature| == 64 && |message| < TWO_16
  {
    Header(|message|) + key + signature + message
  }

  function Header(len: nat): (h: ByteSeq)
    requires len < TWO_16
    ensures |h| == 16
  {
    [1, 0, 48, 0, 255, 255, 16, 0, 255, 255, 112, 0, len % 256, len / 256, 255, 255]
  }

  /** Both readers find the operands in the built instruction. */
  lemma BuiltInstructionReads(key: Bytes32, message: ByteSeq, signature: ByteSeq, datas: seq<ByteSeq>)
    requires |signature| == 64 && |message| < TWO_16
    ensures var d := BuildInstruction(key, message, signature);
            && NativeChecks(d, datas) == Some([Check(key, message, signature)])
            && VerifyPreceding(d, key, message).Ok?
  {
    var d := BuildInstruction(key, message, signature);
    assert d[..16] == Header(|message|);
    assert forall i :: 0 <= i < 16 ==> d[i] == Header(|message|)[i];
    assert OffsetsAt(d, 2) == Offsets(48, SELF, 16, SELF, 112, |message|, SELF);
    assert d[16..48] == key;
    assert d[48..112] == signature;
    assert d[112..112 + |message|] == message;
    SingleCheck(d, datas);
    ReadersAgree(d, datas, key, message);
  }

  /** With a signature that verifies, the native program accepts the built instruction. */
  lemma BuiltInstructionPasses(ed: Verifier, key: Bytes32, message: ByteSeq, signature: ByteSeq, datas: seq<ByteSeq>)
    requires |signature| == 64 && |message| < TWO_16 && ed(key, message, signature)
    ensures NativeAccepts(ed, BuildInstruction(key, message, signature), datas)
  {
    BuiltInstructionReads(key, message, signature, datas);
  }
}
