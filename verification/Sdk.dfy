/** The TypeScript SDK's encoder: claims as JavaScript holds them, written octet by octet. */
module Sdk {
  import opened Bytes
  import Utf8
  import Borsh
  import opened Core

  datatype SdkError =
    | Expected32Bytes
    | RangeError
    | Truncated
    | NotAVerifiedClaim
    | ClaimIdDiffers
    | BadKeyOrSignatureLength

  /** SDK claims: byte arrays of any length, times of any size. */
  datatype TsClaim = TsClaim(
    version: Byte,
    sourceHost: Text,
    requestPathHash: ByteSeq,
    claimKey: Text,
    claimValue: Text,
    issuedAt: int,
    expiresAt: int,
    nonce: ByteSeq,
    provenanceHash: ByteSeq)

  predicate InI64(i: int) { I64_MIN <= i <= I64_MAX }

  /** The claim an SDK claim denotes, when it denotes one. */
  function ToCore(c: TsClaim): Option<ClaimV1> {
    if |c.requestPathHash| == 32 && |c.nonce| == 32 && |c.provenanceHash| == 32 && InI64(c.issuedAt) && InI64(c.expiresAt)
    then Some(ClaimV1(c.version, c.sourceHost, c.requestPathHash, c.claimKey, c.claimValue, c.issuedAt, c.expiresAt,
                      c.nonce, c.provenanceHash))
    else None
  }

  function FromCore(c: ClaimV1): (t: TsClaim)
    ensures ToCore(t) == Some(c)
  {
    TsClaim(c.version, c.sourceHost, c.requestPathHash, c.claimKey, c.claimValue, c.issuedAt, c.expiresAt, c.nonce,
            c.provenanceHash)
  }

  // ---- Encoder -----------------------------------------------------------------------------

  function StringPart(value: Text): Result<ByteSeq, SdkError> {
    var b := Utf8.Encode(value);
    if |b| < TWO_32 then Ok(ToLE(|b|, 4) + b) else Err(RangeError)
  }

  function I64Part(value: int): Result<ByteSeq, SdkError> {
    if InI64(value) then Ok(I64ToLE(value)) else Err(RangeError)
  }

  function Bytes32Part(value: ByteSeq): Result<ByteSeq, SdkError> {
    if |value| != 32 then Err(Expected32Bytes) else Ok(value)
  }

  /** `Buffer.concat`; the first part that throws decides. */
  function Concat(parts: seq<Result<ByteSeq, SdkError>>): Result<ByteSeq, SdkError> {
    if parts == [] then Ok([])
    else
      match parts[0]
      case Err(e) => Err(e)
      case Ok(b) =>
        match Concat(parts[1..])
        case Err(e) => Err(e)
        case Ok(bs) => Ok(b + bs)
  }

  function Parts(c: TsClaim): seq<Result<ByteSeq, SdkError>> {
    [Ok([c.version]),
     StringPart(c.sourceHost),
     Bytes32Part(c.requestPathHash),
     StringPart(c.claimKey),
     StringPart(c.claimValue),
     I64Part(c.issuedAt),
     I64Part(c.expiresAt),
     Bytes32Part(c.nonce),
     Bytes32Part(c.provenanceHash)]
  }

  function SerializeClaim(c: TsClaim): Result<ByteSeq, SdkError> {
    Concat(Parts(c))
  }

  /** Little-endian integers written into a buffer in place. */
  method WriteLE(buf: array<Byte>, value: nat)
    modifies buf
    ensures buf[..] == ToLE(value, buf.Length)
  {
    var rest := value;
    var i := 0;
    while i < buf.Length
      invariant 0 <= i <= buf.Length
      invariant buf[..i] + ToLE(rest, buf.Length - i) == ToLE(value, buf.Length)
    {
      ghost var before := buf[..i];
      buf[i] := rest % 256;
      assert buf[..i + 1] == before + [rest % 256];
      assert before + ToLE(rest, buf.Length - i) == buf[..i + 1] + ToLE(rest / 256, buf.Length - i - 1);
      rest := rest / 256;
      i := i + 1;
    }
    assert buf[..i] + [] == buf[..];
  }

  method StringBuffer(value: Text) returns (r: Result<ByteSeq, SdkError>)
    ensures r == StringPart(value)
  {
    var b := Utf8.Encode(value);
    var n := new Byte[4];
    if |b| >= TWO_32 {
      return Err(RangeError);
    }
    WriteLE(n, |b|);
    r := Ok(n[..] + b);
  }

  method I64Buffer(value: int) returns (r: Result<ByteSeq, SdkError>)
    ensures r == I64Part(value)
  {
    var b := new Byte[8];
    if !InI64(value) {
      return Err(RangeError);
    }
    WriteLE(b, if value < 0 then value + TWO_64 else value);
    r := Ok(b[..]);
  }

  lemma {:induction false} ConcatIsEncode(parts: seq<Result<ByteSeq, SdkError>>, vs: seq<Borsh.Value>)
    requires |parts| == |vs|
    requires forall i :: 0 <= i < |vs| ==> parts[i] == Ok(Borsh.EncodeValue(vs[i]))
    ensures Concat(parts) == Ok(Borsh.Encode(vs))
  {
    if parts != [] {
      ConcatIsEncode(parts[1..], vs[1..]);
    }
  }

  lemma {:induction false} ConcatThrows(parts: seq<Result<ByteSeq, SdkError>>, i: nat)
    requires i < |parts| && parts[i].Err?
    ensures Concat(parts).Err?
  {
    if i > 0 {
      ConcatThrows(parts[1..], i - 1);
    }
  }

  /** The hand-rolled encoder throws exactly when Rust has no such claim or refuses it, else agrees octet for octet. */
  lemma EncodersAgree(c: TsClaim)
    ensures SerializeClaim(c).Ok? <==> ToCore(c).Some? && Serializable(ToCore(c).value)
    ensures SerializeClaim(c).Ok? ==> SerializeClaim(c).value == CanonicalBytes(ToCore(c).value)
  {
    var parts := Parts(c);
    if ToCore(c).Some? && Serializable(ToCore(c).value) {
      ConcatIsEncode(parts, Fields(ToCore(c).value));
    } else {
      var i := if parts[1].Err? then 1 else if parts[2].Err? then 2 else if parts[3].Err? then 3 else
               if parts[4].Err? then 4 else if parts[5].Err? then 5 else if parts[6].Err? then 6 else
               if parts[7].Err? then 7 else 8;
      ConcatThrows(parts, i);
    }
  }

  lemma {:induction false} ConcatFirst(parts: seq<Result<ByteSeq, SdkError>>, i: nat)
    requires i < |parts| && parts[i].Err? && forall j :: 0 <= j < i ==> parts[j].Ok?
    ensures Concat(parts) == parts[i]
  {
    if i > 0 {
      ConcatFirst(parts[1..], i - 1);
    }
  }

  predicate Short(t: Text) { |Utf8.Encode(t)| < TWO_32 }

  /** Which error the encoder throws: that of the first field, in order, that cannot be written. */
  lemma {:induction false} EncoderErrors(c: TsClaim)
    ensures var r := SerializeClaim(c);
            var middle := Short(c.claimKey) && Short(c.claimValue) && InI64(c.issuedAt) && InI64(c.expiresAt);
            && (r == Err(RangeError) <==> !Short(c.sourceHost) || (|c.requestPathHash| == 32 && !middle))
            && (r == Err(Expected32Bytes) <==>
                  Short(c.sourceHost) &&
                  (|c.requestPathHash| != 32 || (middle && (|c.nonce| != 32 || |c.provenanceHash| != 32))))
            && (r.Err? ==> r == Err(RangeError) || r == Err(Expected32Bytes))
  {
    var parts := Parts(c);
    EncodersAgree(c);
    if SerializeClaim(c).Err? {
      var i := if parts[1].Err? then 1 else if parts[2].Err? then 2 else if parts[3].Err? then 3 else
               if parts[4].Err? then 4 else if parts[5].Err? then 5 else if parts[6].Err? then 6 else
               if parts[7].Err? then 7 else 8;
      ConcatFirst(parts, i);
    }
  }

  function ClaimId(sha: ByteSeq -> Bytes32, c: TsClaim): Result<Bytes32, SdkError> {
    match SerializeClaim(c)
    case Err(e) => Err(e)
    case Ok(b) => Ok(sha(b))
  }
}
