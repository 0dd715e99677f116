/** webproof-core: the claim record, its canonical bytes, its signing message and its validation. */
module Core {
  import opened Bytes
  import Utf8
  import Borsh

  type Text = Utf8.Text

  const VERSION: Byte := 1
  const MAX_SOURCE_HOST := 128
  const MAX_CLAIM_KEY := 128
  const MAX_CLAIM_VALUE := 256
  const FUTURE_SKEW := 30

  const DOMAIN: ByteSeq := Ascii("WEBPROOF_SOLANA_CLAIM_V1")

  datatype ClaimV1 = ClaimV1(
    version: Byte,
    sourceHost: Text,
    requestPathHash: Bytes32,
    claimKey: Text,
    claimValue: Text,
    issuedAt: Int64,
    expiresAt: Int64,
    nonce: Bytes32,
    provenanceHash: Bytes32)

  /** `str::len`: octets, not characters. */
  function Len(t: Text): nat { |Utf8.Encode(t)| }

  // ---- Canonical (Borsh) bytes -------------------------------------------------------------

  const CLAIM_LAYOUT: seq<Borsh.Kind> :=
    [Borsh.U8, Borsh.Str, Borsh.Arr32, Borsh.Str, Borsh.Str, Borsh.I64, Borsh.I64, Borsh.Arr32, Borsh.Arr32]

  function Fields(c: ClaimV1): (vs: seq<Borsh.Value>) {
    [Borsh.VU8(c.version),
     Borsh.VStr(Utf8.Encode(c.sourceHost)),
     Borsh.VArr(c.requestPathHash),
     Borsh.VStr(Utf8.Encode(c.claimKey)),
     Borsh.VStr(Utf8.Encode(c.claimValue)),
     Borsh.VI64(c.issuedAt),
     Borsh.VI64(c.expiresAt),
     Borsh.VArr(c.nonce),
     Borsh.VArr(c.provenanceHash)]
  }

  /** Borsh refuses strings whose length a `u32` cannot hold; nothing else can fail. */
  predicate Serializable(c: ClaimV1) {
    Len(c.sourceHost) < TWO_32 && Len(c.claimKey) < TWO_32 && Len(c.claimValue) < TWO_32
  }

  function TryToVec(c: ClaimV1): Option<ByteSeq> {
    if Serializable(c) then Some(CanonicalBytes(c)) else None
  }

  function CanonicalBytes(c: ClaimV1): ByteSeq
    requires Serializable(c)
  {
    Borsh.Encode(Fields(c))
  }

  function SigningMessage(c: ClaimV1): ByteSeq
    requires Serializable(c)
  {
    DOMAIN + CanonicalBytes(c)
  }

  lemma {:induction false} ClaimKinds(vs: seq<Borsh.Value>)
    requires Borsh.Kinds(vs) == CLAIM_LAYOUT
    ensures |vs| == 9 && vs[0].VU8? && vs[1].VStr? && vs[2].VArr? && vs[3].VStr? && vs[4].VStr?
    ensures vs[5].VI64? && vs[6].VI64? && vs[7].VArr? && vs[8].VArr?
  {
    assert forall i :: 0 <= i < |vs| ==> vs[i].Kind() == CLAIM_LAYOUT[i];
  }

  function FromFields(vs: seq<Borsh.Value>): Option<ClaimV1>
    requires Borsh.Kinds(vs) == CLAIM_LAYOUT
  {
    ClaimKinds(vs);
    var host, key, value := Utf8.Decode(vs[1].s), Utf8.Decode(vs[3].s), Utf8.Decode(vs[4].s);
    if host.None? || key.None? || value.None? then None
    else Some(ClaimV1(vs[0].u, host.value, vs[2].a, key.value, value.value, vs[5].i, vs[6].i, vs[7].a, vs[8].a))
  }

  /** Borsh deserialisation from the front of a buffer; the unread octets come back too. */
  function Deserialize(b: ByteSeq): Option<Borsh.Parsed<ClaimV1>> {
    match Borsh.Decode(CLAIM_LAYOUT, b)
    case None => None
    case Some(p) =>
      Borsh.Canonical(CLAIM_LAYOUT, b);
      match FromFields(p.value)
      case None => None
      case Some(c) => Some(Borsh.Parsed(c, p.rest))
  }

  lemma FieldsShape(c: ClaimV1)
    requires Serializable(c)
    ensures Borsh.Kinds(Fields(c)) == CLAIM_LAYOUT && Borsh.AllFit(Fields(c))
  {
    var vs := Fields(c);
    assert forall i :: 0 <= i < |vs| ==> vs[i].Fits();
  }

  lemma FieldsRoundTrip(c: ClaimV1)
    requires Serializable(c)
    ensures Borsh.Kinds(Fields(c)) == CLAIM_LAYOUT && FromFields(Fields(c)) == Some(c)
  {
    FieldsShape(c);
    Utf8.RoundTrip(c.sourceHost);
    Utf8.RoundTrip(c.claimKey);
    Utf8.RoundTrip(c.claimValue);
  }

  /** Decoding what was encoded gives the claim back, and leaves exactly what followed it. */
  lemma ClaimRoundTrip(c: ClaimV1, rest: ByteSeq)
    requires Serializable(c)
    ensures Deserialize(CanonicalBytes(c) + rest) == Some(Borsh.Parsed(c, rest))
  {
    FieldsShape(c);
    Borsh.RoundTrip(Fields(c), rest);
    FieldsRoundTrip(c);
  }

  lemma StringCanonical(v: Borsh.Value)
    requires v.VStr? && Utf8.Decode(v.s).Some?
    ensures Borsh.VStr(Utf8.Encode(Utf8.Decode(v.s).value)) == v
  {
    Utf8.Canonical(v.s);
  }

  lemma FieldsCanonical(vs: seq<Borsh.Value>)
    requires Borsh.Kinds(vs) == CLAIM_LAYOUT && FromFields(vs).Some?
    ensures Fields(FromFields(vs).value) == vs
  {
    ClaimKinds(vs);
    StringCanonical(vs[1]);
    StringCanonical(vs[3]);
    StringCanonical(vs[4]);
  }

  /** Every accepted byte string is the canonical one: it re-encodes to exactly what was consumed. */
  lemma ClaimCanonical(b: ByteSeq)
    requires Deserialize(b).Some?
    ensures var p := Deserialize(b).value;
            Serializable(p.value) && CanonicalBytes(p.value) + p.rest == b
  {
    Borsh.Canonical(CLAIM_LAYOUT, b);
    var vs := Borsh.Decode(CLAIM_LAYOUT, b).value.value;
    FieldsCanonical(vs);
    var c := FromFields(vs).value;
    assert Fields(c)[1] in vs && Fields(c)[3] in vs && Fields(c)[4] in vs;
  }

  /** Injective and prefix-free. */
  lemma ClaimPrefixFree(c: ClaimV1, d: ClaimV1, restC: ByteSeq, restD: ByteSeq)
    requires Serializable(c) && Serializable(d)
    requires CanonicalBytes(c) + restC == CanonicalBytes(d) + restD
    ensures c == d && restC == restD
  {
    ClaimRoundTrip(c, restC);
    ClaimRoundTrip(d, restD);
  }

  lemma CanonicalInjective(c: ClaimV1, d: ClaimV1)
    requires Serializable(c) && Serializable(d)
    requires CanonicalBytes(c) == CanonicalBytes(d)
    ensures c == d
  {
    ClaimPrefixFree(c, d, [], []);
  }

  /** Changing any field of a claim changes the message that must be signed, and only then. */
  lemma SigningMessageInjective(c: ClaimV1, d: ClaimV1)
    requires Serializable(c) && Serializable(d)
    ensures SigningMessage(c) == SigningMessage(d) <==> c == d
  {
    if SigningMessage(c) == SigningMessage(d) {
      assert CanonicalBytes(c) == SigningMessage(c)[|DOMAIN|..];
      assert CanonicalBytes(d) == SigningMessage(d)[|DOMAIN|..];
      CanonicalInjective(c, d);
    }
  }

  /** The accumulating form of `signing_message`. */
  method BuildSigningMessage(c: ClaimV1) returns (message: ByteSeq)
    requires Serializable(c)
    ensures message == SigningMessage(c) == Ascii("WEBPROOF_SOLANA_CLAIM_V1") + CanonicalBytes(c)
  {
    var bytes := CanonicalBytes(c);
    message := [];
    message := message + DOMAIN;
    message := message + bytes;
  }

  // ---- Sizes -------------------------------------------------------------------------------

  /** A string as it stands in the canonical bytes. */
  function Framed(t: Text): ByteSeq { ToLE(Len(t), 4) + Utf8.Encode(t) }

  /** The canonical layout, spelled out. */
  lemma CanonicalLayout(c: ClaimV1)
    requires Serializable(c)
    ensures CanonicalBytes(c) ==
            [c.version] + (Framed(c.sourceHost) + (c.requestPathHash + (Framed(c.claimKey) + (Framed(c.claimValue) +
            (I64ToLE(c.issuedAt) + (I64ToLE(c.expiresAt) + (c.nonce + c.provenanceHash)))))))
  {
    var vs := Fields(c);
    assert vs[0..] == vs;
    Borsh.EncodeDrop(vs, 0);
    Borsh.EncodeDrop(vs, 1);
    Borsh.EncodeDrop(vs, 2);
    Borsh.EncodeDrop(vs, 3);
    Borsh.EncodeDrop(vs, 4);
    Borsh.EncodeDrop(vs, 5);
    Borsh.EncodeDrop(vs, 6);
    Borsh.EncodeDrop(vs, 7);
    Borsh.EncodeDrop(vs, 8);
    assert c.provenanceHash + [] == c.provenanceHash;
  }

  lemma CanonicalLength(c: ClaimV1)
    requires Serializable(c)
    ensures |CanonicalBytes(c)| == 125 + Len(c.sourceHost) + Len(c.claimKey) + Len(c.claimValue)
  {
    CanonicalLayout(c);
  }

  // ---- Validation --------------------------------------------------------------------------

  datatype Field = SourceHost | ClaimKey | ClaimValue

  datatype ClaimError = Version | Length(field: Field) | TimeWindow | Expired | Future | TooOld

  function Bounded(value: Text, max: nat, name: Field): Result<(), ClaimError> {
    if value == [] || Len(value) > max then Err(Length(name)) else Ok(())
  }

  function Validate(c: ClaimV1, now: Int64, maxAge: Int64): Result<(), ClaimError> {
    if c.version != VERSION then Err(Version)
    else if Bounded(c.sourceHost, MAX_SOURCE_HOST, SourceHost).Err? then Bounded(c.sourceHost, MAX_SOURCE_HOST, SourceHost)
    else if Bounded(c.claimKey, MAX_CLAIM_KEY, ClaimKey).Err? then Bounded(c.claimKey, MAX_CLAIM_KEY, ClaimKey)
    else if Bounded(c.claimValue, MAX_CLAIM_VALUE, ClaimValue).Err? then Bounded(c.claimValue, MAX_CLAIM_VALUE, ClaimValue)
    else if c.expiresAt <= c.issuedAt then Err(TimeWindow)
    else if now > c.expiresAt then Err(Expired)
    else if c.issuedAt > SaturatingAdd(now, FUTURE_SKEW) then Err(Future)
    else if SaturatingSub(now, c.issuedAt) > maxAge then Err(TooOld)
    else Ok(())
  }

  /** Version and lengths, as `validate` demands them. */
  predicate WellSized(c: ClaimV1) {
    && c.version == 1
    && 0 < Len(c.sourceHost) <= 128
    && 0 < Len(c.claimKey) <= 128
    && 0 < Len(c.claimValue) <= 256
  }

  /** The freshness window in unbounded integers. */
  predicate Fresh(c: ClaimV1, now: int, maxAge: int) {
    && c.issuedAt < c.expiresAt
    && c.issuedAt - 30 <= now <= c.expiresAt
    && now - c.issuedAt <= maxAge
  }

  /** Age computations that leave the `i64` range saturate to `i64::MAX`. */
  predicate AgeSaturates(c: ClaimV1, now: int, maxAge: int) {
    maxAge == I64_MAX && now - c.issuedAt > I64_MAX && now <= c.expiresAt && WellSized(c)
  }

  /**
    The saturating checks decide the exact-integer window on every input except the ones where a
    maximal `max_age` meets an age beyond `i64::MAX`; those are accepted although they are too old.
    */
  lemma ValidateExact(c: ClaimV1, now: Int64, maxAge: Int64)
    ensures Validate(c, now, maxAge).Ok? <==> WellSized(c) && (Fresh(c, now, maxAge) || AgeSaturates(c, now, maxAge))
    ensures (Validate(c, now, maxAge).Ok? <==> WellSized(c) && Fresh(c, now, maxAge)) <==> !AgeSaturates(c, now, maxAge)
  {
    Utf8.EmptyLength(c.sourceHost);
    Utf8.EmptyLength(c.claimKey);
    Utf8.EmptyLength(c.claimValue);
  }

  /** Such an input exists: a claim issued at the start of time, submitted at its end. */
  lemma AgeSaturationHappens() returns (c: ClaimV1, now: Int64)
    ensures Validate(c, now, I64_MAX).Ok? && !Fresh(c, now, I64_MAX)
  {
    c := ClaimV1(1, [104], Zeros(32), [107], [118], I64_MIN, I64_MAX, Zeros(32), Zeros(32));
    now := I64_MAX;
    Utf8.AsciiEncode([104]);
    Utf8.AsciiEncode([107]);
    Utf8.AsciiEncode([118]);
    ValidateExact(c, now, I64_MAX);
  }

  /** A validated claim serialises, and its signing message fits in 661 octets. */
  lemma ValidatedSize(c: ClaimV1, now: Int64, maxAge: Int64)
    requires Validate(c, now, maxAge).Ok?
    ensures WellSized(c) && Serializable(c) && |SigningMessage(c)| <= 661
  {
    ValidateExact(c, now, maxAge);
    CanonicalLength(c);
  }

  /** The bound is reached. */
  lemma ValidatedSizeTight() returns (c: ClaimV1)
    ensures Validate(c, 0, 1).Ok? && Serializable(c) && |SigningMessage(c)| == 661
    ensures Len(c.sourceHost) == 128 && Len(c.claimKey) == 128 && Len(c.claimValue) == 256
  {
    var host: seq<AsciiChar>, key: seq<AsciiChar>, value: seq<AsciiChar> := seq(128, _ => 104), seq(128, _ => 107), seq(256, _ => 118);
    c := ClaimV1(1, host, Zeros(32), key, value, 0, 1, Zeros(32), Zeros(32));
    Utf8.AsciiEncode(host);
    Utf8.AsciiEncode(key);
    Utf8.AsciiEncode(value);
    ValidateExact(c, 0, 1);
    CanonicalLength(c);
  }
}
