/** The TypeScript SDK's account reader: a cursor over raw account data, replacing malformed UTF-8. */
module AccountReader {
  import opened Bytes
  import Utf8
  import Borsh
  import opened Core
  import opened Records
  import opened Sdk

  /** A cursor over an account's octets. */
  class Reader {
    const buf: ByteSeq
    var offset: nat

    predicate Valid()
      reads this
    {
      offset <= |buf|
    }

    function Rest(): ByteSeq
      reads this
      requires Valid()
    {
      buf[offset..]
    }

    constructor (data: ByteSeq)
      ensures Valid() && buf == data && offset == 0 && Rest() == data
    {
      buf, offset := data, 0;
    }

    method Bytes(n: nat) returns (r: Result<ByteSeq, SdkError>)
      requires Valid()
      modifies this`offset
      ensures Valid()
      ensures if n <= |old(Rest())| then r == Ok(old(Rest())[..n]) && Rest() == old(Rest())[n..]
              else r == Err(Truncated) && Rest() == old(Rest())
    {
      var end := if offset + n <= |buf| then offset + n else |buf|;
      var out := buf[offset..end];
      if |out| != n {
        return Err(Truncated);
      }
      assert out == Rest()[..n] && buf[offset + n..] == Rest()[n..];
      offset := offset + n;
      r := Ok(out);
    }

    method String() returns (r: Result<Text, SdkError>)
      requires Valid()
      modifies this`offset
      ensures Valid()
      ensures match Borsh.DecodeValue(Borsh.Str, old(Rest()))
              case None => r == Err(Truncated)
              case Some(p) => r == Ok(Utf8.DecodeLossy(p.value.s)) && Rest() == p.rest
    {
      ghost var start := Rest();
      var len := Bytes(4);
      if len.Err? {
        return Err(len.error);
      }
      ghost var n := FromLE(len.value);
      assert 4 + n <= |start| ==> start[4..][..n] == start[4..4 + n] && start[4..][n..] == start[4 + n..];
      var out := Bytes(FromLE(len.value));
      if out.Err? {
        return Err(out.error);
      }
      r := Ok(Utf8.DecodeLossy(out.value));
    }

    method I64() returns (r: Result<Int64, SdkError>)
      requires Valid()
      modifies this`offset
      ensures Valid()
      ensures match Borsh.DecodeValue(Borsh.I64, old(Rest()))
              case None => r == Err(Truncated)
              case Some(p) => r == Ok(p.value.i) && Rest() == p.rest
    {
      var b := Bytes(8);
      if b.Err? {
        return Err(b.error);
      }
      r := Ok(I64FromLE(b.value));
    }

    method Array32() returns (r: Result<Bytes32, SdkError>)
      requires Valid()
      modifies this`offset
      ensures Valid()
      ensures match Borsh.DecodeValue(Borsh.Arr32, old(Rest()))
              case None => r == Err(Truncated)
              case Some(p) => r == Ok(p.value.a) && Rest() == p.rest
    {
      var b := Bytes(32);
      if b.Err? {
        return Err(b.error);
      }
      r := Ok(b.value);
    }

    method U8() returns (r: Result<Byte, SdkError>)
      requires Valid()
      modifies this`offset
      ensures Valid()
      ensures match Borsh.DecodeValue(Borsh.U8, old(Rest()))
              case None => r == Err(Truncated)
              case Some(p) => r == Ok(p.value.u) && Rest() == p.rest
    {
      var b := Bytes(1);
      if b.Err? {
        return Err(b.error);
      }
      r := Ok(b.value[0]);
    }
  }

  lemma {:induction false} RecordKinds(vs: seq<Borsh.Value>)
    requires Borsh.Kinds(vs) == RECORD_LAYOUT
    ensures |vs| == 11 && vs[0].VArr? && vs[1].VStr? && vs[2].VArr? && vs[3].VStr? && vs[4].VStr? && vs[5].VI64?
    ensures vs[6].VI64? && vs[7].VArr? && vs[8].VArr? && vs[9].VI64? && vs[10].VU8?
  {
    assert forall i :: 0 <= i < |vs| ==> vs[i].Kind() == RECORD_LAYOUT[i];
  }

  function FromValues(vs: seq<Borsh.Value>): VerifiedClaim
    requires Borsh.Kinds(vs) == RECORD_LAYOUT
  {
    RecordKinds(vs);
    VerifiedClaim(vs[0].a, Utf8.DecodeLossy(vs[1].s), vs[2].a, Utf8.DecodeLossy(vs[3].s), Utf8.DecodeLossy(vs[4].s),
                  vs[5].i, vs[6].i, vs[7].a, vs[8].a, vs[9].i, vs[10].u)
  }

  /** What `decodeVerifiedClaim` returns or throws. */
  function DecodeVerifiedClaim(data: ByteSeq): Result<VerifiedClaim, SdkError> {
    if |data| < 8 then Err(Truncated)
    else if data[..8] != DISCRIMINATOR then Err(NotAVerifiedClaim)
    else
      match Borsh.Decode(RECORD_LAYOUT, data[8..])
      case None => Err(Truncated)
      case Some(p) =>
        Borsh.Canonical(RECORD_LAYOUT, data[8..]);
        Ok(FromValues(p.value))
  }

  /** `decodeVerifiedClaim`, field by field through the reader. */
  method DecodeAccount(data: ByteSeq) returns (r: Result<VerifiedClaim, SdkError>)
    ensures r == DecodeVerifiedClaim(data)
  {
    var rd := new Reader(data);
    var discriminator := rd.Bytes(8);
    if discriminator.Err? {
      return Err(discriminator.error);
    }
    if discriminator.value != DISCRIMINATOR {
      return Err(NotAVerifiedClaim);
    }
    r := DecodeBody(rd);
  }

  /** One more field read, or none and the whole record is truncated. */
  lemma {:induction false} Advance(body: ByteSeq, vs: seq<Borsh.Value>, rest: ByteSeq)
    requires Borsh.Consumed(RECORD_LAYOUT, body, vs, rest) && |vs| < |RECORD_LAYOUT|
    ensures match Borsh.DecodeValue(RECORD_LAYOUT[|vs|], rest)
            case None => Borsh.Decode(RECORD_LAYOUT, body).None?
            case Some(p) => Borsh.Consumed(RECORD_LAYOUT, body, vs + [p.value], p.rest)
  {
    if Borsh.DecodeValue(RECORD_LAYOUT[|vs|], rest).Some? {
      Borsh.ConsumeNext(RECORD_LAYOUT, body, vs, rest);
    } else {
      Borsh.ConsumeStuck(RECORD_LAYOUT, body, vs, rest);
    }
  }

  method DecodeBody(rd: Reader) returns (r: Result<VerifiedClaim, SdkError>)
    requires rd.Valid()
    modifies rd`offset
    ensures rd.Valid()
    ensures match Borsh.Decode(RECORD_LAYOUT, old(rd.Rest()))
            case None => r == Err(Truncated)
            case Some(p) => Borsh.Kinds(p.value) == RECORD_LAYOUT && r == Ok(FromValues(p.value)) && rd.Rest() == p.rest
  {
    ghost var body := rd.Rest();
    var identity, vs0 := DecodeIdentity(rd, body);
    if identity.Err? { return Err(identity.error); }
    var content, vs1 := DecodeContent(rd, body, vs0);
    if content.Err? { return Err(content.error); }
    var times, vs2 := DecodeTimes(rd, body, vs1);
    if times.Err? { return Err(times.error); }
    var trailer, all := DecodeTrailer(rd, body, vs2);
    if trailer.Err? { return Err(trailer.error); }
    Borsh.ConsumedAll(RECORD_LAYOUT, body, all, rd.Rest());
    var (claimId, sourceHost, requestPathHash) := identity.value;
    var (claimKey, claimValue) := content.value;
    var (issuedAt, expiresAt, provenanceHash) := times.value;
    var (submittedBy, createdAt, bump) := trailer.value;
    r := Ok(VerifiedClaim(claimId, sourceHost, requestPathHash, claimKey, claimValue, issuedAt, expiresAt,
                          provenanceHash, submittedBy, createdAt, bump));
  }

  /** The value that stands next, if one does. */
  ghost function NextValue(k: Borsh.Kind, rest: ByteSeq): Borsh.Value {
    var p := Borsh.DecodeValue(k, rest);
    if p.Some? then p.value.value else Borsh.VU8(0)
  }

  // One field, and what reading it means for the record as a whole.

  method ArrayField(rd: Reader, ghost body: ByteSeq, ghost vs: seq<Borsh.Value>)
    returns (r: Result<Bytes32, SdkError>, ghost v: Borsh.Value)
    requires rd.Valid() && Borsh.Consumed(RECORD_LAYOUT, body, vs, rd.Rest())
    requires |vs| < |RECORD_LAYOUT| && RECORD_LAYOUT[|vs|] == Borsh.Arr32
    modifies rd`offset
    ensures rd.Valid()
    ensures r.Err? ==> r.error == Truncated && Borsh.Decode(RECORD_LAYOUT, body).None?
    ensures r.Ok? ==> v.VArr? && r.value == v.a && Borsh.Consumed(RECORD_LAYOUT, body, vs + [v], rd.Rest())
  {
    Advance(body, vs, rd.Rest());
    v := NextValue(Borsh.Arr32, rd.Rest());
    r := rd.Array32();
  }

  method StringField(rd: Reader, ghost body: ByteSeq, ghost vs: seq<Borsh.Value>)
    returns (r: Result<Text, SdkError>, ghost v: Borsh.Value)
    requires rd.Valid() && Borsh.Consumed(RECORD_LAYOUT, body, vs, rd.Rest())
    requires |vs| < |RECORD_LAYOUT| && RECORD_LAYOUT[|vs|] == Borsh.Str
    modifies rd`offset
    ensures rd.Valid()
    ensures r.Err? ==> r.error == Truncated && Borsh.Decode(RECORD_LAYOUT, body).None?
    ensures r.Ok? ==> v.VStr? && r.value == Utf8.DecodeLossy(v.s) && Borsh.Consumed(RECORD_LAYOUT, body, vs + [v], rd.Rest())
  {
    Advance(body, vs, rd.Rest());
    v := NextValue(Borsh.Str, rd.Rest());
    r := rd.String();
  }

  method I64Field(rd: Reader, ghost body: ByteSeq, ghost vs: seq<Borsh.Value>)
    returns (r: Result<Int64, SdkError>, ghost v: Borsh.Value)
    requires rd.Valid() && Borsh.Consumed(RECORD_LAYOUT, body, vs, rd.Rest())
    requires |vs| < |RECORD_LAYOUT| && RECORD_LAYOUT[|vs|] == Borsh.I64
    modifies rd`offset
    ensures rd.Valid()
    ensures r.Err? ==> r.error == Truncated && Borsh.Decode(RECORD_LAYOUT, body).None?
    ensures r.Ok? ==> v.VI64? && r.value == v.i && Borsh.Consumed(RECORD_LAYOUT, body, vs + [v], rd.Rest())
  {
    Advance(body, vs, rd.Rest());
    v := NextValue(Borsh.I64, rd.Rest());
    r := rd.I64();
  }

  method U8Field(rd: Reader, ghost body: ByteSeq, ghost vs: seq<Borsh.Value>)
    returns (r: Result<Byte, SdkError>, ghost v: Borsh.Value)
    requires rd.Valid() && Borsh.Consumed(RECORD_LAYOUT, body, vs, rd.Rest())
    requires |vs| < |RECORD_LAYOUT| && RECORD_LAYOUT[|vs|] == Borsh.U8
    modifies rd`offset
    ensures rd.Valid()
    ensures r.Err? ==> r.error == Truncated && Borsh.Decode(RECORD_LAYOUT, body).None?
    ensures r.Ok? ==> v.VU8? && r.value == v.u && Borsh.Consumed(RECORD_LAYOUT, body, vs + [v], rd.Rest())
  {
    Advance(body, vs, rd.Rest());
    v := NextValue(Borsh.U8, rd.Rest());
    r := rd.U8();
  }

  method DecodeIdentity(rd: Reader, ghost body: ByteSeq)
    returns (r: Result<(Bytes32, Text, Bytes32), SdkError>, ghost vs: seq<Borsh.Value>)
    requires rd.Valid() && rd.Rest() == body
    modifies rd`offset
    ensures rd.Valid()
    ensures r.Err? ==> r.error == Truncated && Borsh.Decode(RECORD_LAYOUT, body).None?
    ensures r.Ok? ==> |vs| == 3 && Borsh.Consumed(RECORD_LAYOUT, body, vs, rd.Rest())
    ensures r.Ok? ==> vs[0] == Borsh.VArr(r.value.0)
    ensures r.Ok? ==> vs[1].VStr? && r.value.1 == Utf8.DecodeLossy(vs[1].s)
    ensures r.Ok? ==> vs[2] == Borsh.VArr(r.value.2)
  {
    vs := [];
    var claimId, v0 := ArrayField(rd, body, vs);
    if claimId.Err? { return Err(claimId.error), vs; }
    vs := vs + [v0];
    var sourceHost, v1 := StringField(rd, body, vs);
    if sourceHost.Err? { return Err(sourceHost.error), vs; }
    vs := vs + [v1];
    var requestPathHash, v2 := ArrayField(rd, body, vs);
    if requestPathHash.Err? { return Err(requestPathHash.error), vs; }
    vs := vs + [v2];
    r := Ok((claimId.value, sourceHost.value, requestPathHash.value));
  }

  method DecodeContent(rd: Reader, ghost body: ByteSeq, ghost front: seq<Borsh.Value>)
    returns (r: Result<(Text, Text), SdkError>, ghost vs: seq<Borsh.Value>)
    requires rd.Valid() && |front| == 3 && Borsh.Consumed(RECORD_LAYOUT, body, front, rd.Rest())
    modifies rd`offset
    ensures rd.Valid()
    ensures r.Err? ==> r.error == Truncated && Borsh.Decode(RECORD_LAYOUT, body).None?
    ensures r.Ok? ==> |vs| == 5 && front <= vs && Borsh.Consumed(RECORD_LAYOUT, body, vs, rd.Rest())
    ensures r.Ok? ==> vs[3].VStr? && r.value.0 == Utf8.DecodeLossy(vs[3].s)
    ensures r.Ok? ==> vs[4].VStr? && r.value.1 == Utf8.DecodeLossy(vs[4].s)
  {
    vs := front;
    var claimKey, v3 := StringField(rd, body, vs);
    if claimKey.Err? { return Err(claimKey.error), vs; }
    vs := vs + [v3];
    var claimValue, v4 := StringField(rd, body, vs);
    if claimValue.Err? { return Err(claimValue.error), vs; }
    vs := vs + [v4];
    r := Ok((claimKey.value, claimValue.value));
  }

  method DecodeTimes(rd: Reader, ghost body: ByteSeq, ghost front: seq<Borsh.Value>)
    returns (r: Result<(Int64, Int64, Bytes32), SdkError>, ghost vs: seq<Borsh.Value>)
    requires rd.Valid() && |front| == 5 && Borsh.Consumed(RECORD_LAYOUT, body, front, rd.Rest())
    modifies rd`offset
    ensures rd.Valid()
    ensures r.Err? ==> r.error == Truncated && Borsh.Decode(RECORD_LAYOUT, body).None?
    ensures r.Ok? ==> |vs| == 8 && front <= vs && Borsh.Consumed(RECORD_LAYOUT, body, vs, rd.Rest())
    ensures r.Ok? ==> vs[5] == Borsh.VI64(r.value.0)
    ensures r.Ok? ==> vs[6] == Borsh.VI64(r.value.1)
    ensures r.Ok? ==> vs[7] == Borsh.VArr(r.value.2)
  {
    vs := front;
    var issuedAt, v5 := I64Field(rd, body, vs);
    if issuedAt.Err? { return Err(issuedAt.error), vs; }
    vs := vs + [v5];
    var expiresAt, v6 := I64Field(rd, body, vs);
    if expiresAt.Err? { return Err(expiresAt.error), vs; }
    vs := vs + [v6];
    var provenanceHash, v7 := ArrayField(rd, body, vs);
    if provenanceHash.Err? { return Err(provenanceHash.error), vs; }
    vs := vs + [v7];
    r := Ok((issuedAt.value, expiresAt.value, provenanceHash.value));
  }

  method DecodeTrailer(rd: Reader, ghost body: ByteSeq, ghost front: seq<Borsh.Value>)
    returns (r: Result<(Bytes32, Int64, Byte), SdkError>, ghost vs: seq<Borsh.Value>)
    requires rd.Valid() && |front| == 8 && Borsh.Consumed(RECORD_LAYOUT, body, front, rd.Rest())
    modifies rd`offset
    ensures rd.Valid()
    ensures r.Err? ==> r.error == Truncated && Borsh.Decode(RECORD_LAYOUT, body).None?
    ensures r.Ok? ==> |vs| == 11 && front <= vs && Borsh.Consumed(RECORD_LAYOUT, body, vs, rd.Rest())
    ensures r.Ok? ==> vs[8] == Borsh.VArr(r.value.0)
    ensures r.Ok? ==> vs[9] == Borsh.VI64(r.value.1)
    ensures r.Ok? ==> vs[10] == Borsh.VU8(r.value.2)
  {
    vs := front;
    var submittedBy, v8 := ArrayField(rd, body, vs);
    if submittedBy.Err? { return Err(submittedBy.error), vs; }
    vs := vs + [v8];
    var createdAt, v9 := I64Field(rd, body, vs);
    if createdAt.Err? { return Err(createdAt.error), vs; }
    vs := vs + [v9];
    var bump, v10 := U8Field(rd, body, vs);
    if bump.Err? { return Err(bump.error), vs; }
    vs := vs + [v10];
    r := Ok((submittedBy.value, createdAt.value, bump.value));
  }

  // ---- What reading means ------------------------------------------------------------------

  lemma {:induction false} FromValuesRoundTrip(r: VerifiedClaim)
    requires RecordSerializable(r)
    ensures Borsh.Kinds(RecordFields(r)) == RECORD_LAYOUT && FromValues(RecordFields(r)) == r
  {
    RecordShape(r);
    Utf8.RoundTrip(r.sourceHost);
    Utf8.LossyAgrees(Utf8.Encode(r.sourceHost));
    Utf8.RoundTrip(r.claimKey);
    Utf8.LossyAgrees(Utf8.Encode(r.claimKey));
    Utf8.RoundTrip(r.claimValue);
    Utf8.LossyAgrees(Utf8.Encode(r.claimValue));
  }

  /** Reading a flushed record, whatever padding follows it, gives the record back. */
  lemma {:induction false} RecordRoundTrip(r: VerifiedClaim, padding: ByteSeq)
    requires RecordSerializable(r)
    ensures DecodeVerifiedClaim(RecordBytes(r) + padding) == Ok(r)
  {
    var data := RecordBytes(r) + padding;
    var body := Borsh.Encode(RecordFields(r)) + padding;
    assert data[..8] == DISCRIMINATOR && data[8..] == body;
    RecordShape(r);
    Borsh.RoundTrip(RecordFields(r), padding);
    FromValuesRoundTrip(r);
  }

  /** A stored account reads back as the record it holds. */
  lemma {:induction false} AccountReads(r: VerifiedClaim)
    requires RecordSerializable(r) && |RecordBytes(r)| <= ACCOUNT_SPACE
    ensures DecodeVerifiedClaim(AccountData(r)) == Ok(r)
  {
    RecordRoundTrip(r, Zeros(ACCOUNT_SPACE - |RecordBytes(r)|));
  }

  /** Raw field values of the record layout, any octets in the strings, stand at the front of `data`. */
  predicate StandsIn(vs: seq<Borsh.Value>, data: ByteSeq) {
    && Borsh.Kinds(vs) == RECORD_LAYOUT && Borsh.AllFit(vs)
    && [47, 180, 71, 141, 92, 143, 181, 56] + Borsh.Encode(vs) <= data
  }

  lemma {:induction false} StandingReads(vs: seq<Borsh.Value>, data: ByteSeq)
    requires StandsIn(vs, data)
    ensures DecodeVerifiedClaim(data) == Ok(FromValues(vs))
  {
    var front := DISCRIMINATOR + Borsh.Encode(vs);
    var rest := data[|front|..];
    assert data == DISCRIMINATOR + (Borsh.Encode(vs) + rest);
    Borsh.RoundTrip(vs, rest);
  }

  lemma {:induction false} ReadStands(data: ByteSeq) returns (vs: seq<Borsh.Value>)
    requires DecodeVerifiedClaim(data).Ok?
    ensures StandsIn(vs, data) && DecodeVerifiedClaim(data) == Ok(FromValues(vs))
  {
    Borsh.Canonical(RECORD_LAYOUT, data[8..]);
    var p := Borsh.Decode(RECORD_LAYOUT, data[8..]).value;
    vs := p.value;
    assert data == DISCRIMINATOR + (Borsh.Encode(vs) + p.rest);
    assert data == DISCRIMINATOR + Borsh.Encode(vs) + p.rest;
  }

  /** Which buffers the reader accepts, and why it throws on all others. */
  lemma {:induction false} ReadExact(data: ByteSeq)
    ensures var r := DecodeVerifiedClaim(data);
            && (r.Ok? <==> exists vs :: StandsIn(vs, data))
            && (forall vs :: StandsIn(vs, data) ==> r == Ok(FromValues(vs)))
            && (r == Err(NotAVerifiedClaim) <==> |data| >= 8 && data[..8] != [47, 180, 71, 141, 92, 143, 181, 56])
            && (r.Err? && r != Err(NotAVerifiedClaim) ==> r == Err(Truncated))
  {
    forall vs | StandsIn(vs, data)
      ensures DecodeVerifiedClaim(data) == Ok(FromValues(vs))
    {
      StandingReads(vs, data);
    }
    if DecodeVerifiedClaim(data).Ok? {
      var vs := ReadStands(data);
    }
  }

  /** The raw string fields are well-formed UTF-8. */
  predicate WellFormedStrings(vs: seq<Borsh.Value>)
    requires Borsh.Kinds(vs) == RECORD_LAYOUT
  {
    RecordKinds(vs);
    Utf8.Decode(vs[1].s).Some? && Utf8.Decode(vs[3].s).Some? && Utf8.Decode(vs[4].s).Some?
  }

  /** A field as it comes back after reading and writing again. */
  function Reread(v: Borsh.Value): Borsh.Value {
    if v.VStr? then Borsh.VStr(Utf8.Encode(Utf8.DecodeLossy(v.s))) else v
  }

  lemma {:induction false} FieldsReread(vs: seq<Borsh.Value>)
    requires Borsh.Kinds(vs) == RECORD_LAYOUT
    ensures |vs| == 11
    ensures forall i :: 0 <= i < 11 ==> RecordFields(FromValues(vs))[i] == Reread(vs[i])
  {
    RecordKinds(vs);
  }

  lemma {:induction false} RereadFixes(v: Borsh.Value)
    ensures Reread(v) == v <==> v.VStr? ==> Utf8.Decode(v.s).Some?
  {
    if v.VStr? {
      Utf8.LossyFaithful(v.s);
    }
  }

  lemma {:induction false} FieldsFaithful(vs: seq<Borsh.Value>)
    requires Borsh.Kinds(vs) == RECORD_LAYOUT
    ensures RecordFields(FromValues(vs)) == vs <==> WellFormedStrings(vs)
  {
    RecordKinds(vs);
    FieldsReread(vs);
    RereadFixes(vs[1]);
    RereadFixes(vs[3]);
    RereadFixes(vs[4]);
    var us := RecordFields(FromValues(vs));
    if us == vs {
      assert us[1] == vs[1] && us[3] == vs[3] && us[4] == vs[4];
    }
  }

  lemma {:induction false} RereadLonger(v: Borsh.Value)
    ensures |Borsh.EncodeValue(Reread(v))| >= |Borsh.EncodeValue(v)|
  {
    if v.VStr? {
      Utf8.LossyGrows(v.s);
    }
  }

  lemma {:induction false} StringFits(u: Borsh.Value, v: Borsh.Value, vs: seq<Borsh.Value>)
    requires u.VStr? && v.VStr? && v in vs && Borsh.AllFit(vs) && |Borsh.EncodeValue(u)| == |Borsh.EncodeValue(v)|
    ensures |u.s| < TWO_32
  {
  }

  /** Replacement never shortens, so a record that re-encodes to the same length still fits. */
  lemma {:induction false} LossyFits(vs: seq<Borsh.Value>)
    requires Borsh.Kinds(vs) == RECORD_LAYOUT && Borsh.AllFit(vs)
    requires Borsh.Encode(RecordFields(FromValues(vs))) == Borsh.Encode(vs)
    ensures RecordSerializable(FromValues(vs))
  {
    RecordKinds(vs);
    var us := RecordFields(FromValues(vs));
    FieldsReread(vs);
    forall i | 0 <= i < |vs|
      ensures |Borsh.EncodeValue(us[i])| >= |Borsh.EncodeValue(vs[i])|
    {
      RereadLonger(vs[i]);
    }
    Borsh.NoneLonger(us, vs, 1);
    Borsh.NoneLonger(us, vs, 3);
    Borsh.NoneLonger(us, vs, 4);
    StringFits(us[1], vs[1], vs);
    StringFits(us[3], vs[3], vs);
    StringFits(us[4], vs[4], vs);
  }

  /**
    Reading is faithful exactly on well-formed UTF-8: what was read re-encodes to precisely the
    octets consumed if and only if no string field needed replacement.
    */
  lemma {:induction false} ReadFaithful(data: ByteSeq)
    requires DecodeVerifiedClaim(data).Ok?
    ensures var p := Borsh.Decode(RECORD_LAYOUT, data[8..]);
            && p.Some? && Borsh.Kinds(p.value.value) == RECORD_LAYOUT
            && DISCRIMINATOR + Borsh.Encode(p.value.value) + p.value.rest == data
            && (RecordBytes(DecodeVerifiedClaim(data).value) + p.value.rest == data <==> WellFormedStrings(p.value.value))
  {
    Borsh.Canonical(RECORD_LAYOUT, data[8..]);
    var p := Borsh.Decode(RECORD_LAYOUT, data[8..]).value;
    var vs, v := p.value, FromValues(p.value);
    assert data == DISCRIMINATOR + (Borsh.Encode(vs) + p.rest);
    FieldsFaithful(vs);
    if RecordBytes(v) + p.rest == data {
      Cancel(DISCRIMINATOR, Borsh.Encode(RecordFields(v)), Borsh.Encode(vs), p.rest);
      LossyFits(vs);
      RecordShape(v);
      Borsh.PrefixFree(RecordFields(v), vs, [], []);
    }
  }

  lemma {:induction false} Cancel(d: ByteSeq, x: ByteSeq, y: ByteSeq, rest: ByteSeq)
    requires d + x + rest == d + (y + rest)
    ensures x == y
  {
    assert |x| == |y|;
    assert x == (d + x + rest)[|d|..|d| + |x|];
    assert y == (d + (y + rest))[|d|..|d| + |y|];
  }
}
