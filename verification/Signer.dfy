/** webproof-verifier: from a verified presentation to a signed claim. */
module Signer {
  import opened Bytes
  import Utf8
  import opened Core
  import Json
  import opened Presentations
  import Program

  datatype Url = Url(scheme: Text, host: Option<Text>)

  const HTTPS: Text := Ascii("https")

  /** A signing key: its public half and the signatures it makes. */
  datatype SigningKey = SigningKey(publicKey: Bytes32, sign: ByteSeq -> ByteSeq)

  datatype SignError = Tlsn | Host | Field | Claim(why: ClaimError)

  datatype SignedClaim = SignedClaim(
    claim: ClaimV1, claimId: Bytes32, signature: ByteSeq, verifierPublicKey: Bytes32, tlsnArtifactHash: Bytes32)

  /** The claim `sign_verified` builds, before it is validated. */
  function ClaimFor(sha: ByteSeq -> Bytes32, d: TlsData, field: Text, value: Text, now: Int64, ttl: Int64,
      nonce: Bytes32): ClaimV1
  {
    ClaimV1(VERSION, d.host, sha(Utf8.Encode(d.path)), field, value, now, SaturatingAdd(now, ttl), nonce, sha(d.artifact))
  }

  function SignVerified(sha: ByteSeq -> Bytes32, key: SigningKey, d: TlsData, url: Url, field: Text, now: Int64,
      ttl: Int64, nonce: Bytes32): Result<SignedClaim, SignError>
  {
    if url.scheme != HTTPS || url.host != Some(d.host) then Err(Host)
    else
      match Json.Pointer(d.response, field)
      case None => Err(Field)
      case Some(found) =>
        match Json.Render(found)
        case None => Err(Field)
        case Some(value) =>
          var c := ClaimFor(sha, d, field, value, now, ttl, nonce);
          match Validate(c, now, ttl)
          case Err(e) => Err(Claim(e))
          case Ok(_) =>
            ValidatedSize(c, now, ttl);
            Ok(SignedClaim(c, sha(CanonicalBytes(c)), key.sign(SigningMessage(c)), key.publicKey, sha(d.artifact)))
  }

  function VerifyAndSign(sha: ByteSeq -> Bytes32, key: SigningKey, t: Presentations.Tlsn, artifact: ByteSeq,
      url: Url, field: Text, now: Int64, ttl: Int64, nonce: Bytes32): Result<SignedClaim, SignError>
  {
    match VerifyPresentation(t, artifact)
    case Err(_) => Err(SignError.Tlsn)
    case Ok(d) => SignVerified(sha, key, d, url, field, now, ttl, nonce)
  }

  /** The pointer leads to a scalar that says `value`. */
  ghost predicate ValueAt(j: Json.Json, field: Text, value: Text) {
    exists found :: Json.At(j, field, found) && Json.Spells(found, value)
  }

  /** What the pointer leads to, if it leads to a scalar. */
  function ScalarAt(j: Json.Json, field: Text): Option<Text> {
    match Json.Pointer(j, field)
    case None => None
    case Some(found) => Json.Render(found)
  }

  lemma {:induction false} ScalarExact(j: Json.Json, field: Text, value: Text)
    ensures ScalarAt(j, field) == Some(value) <==> ValueAt(j, field, value)
  {
    if ScalarAt(j, field) == Some(value) {
      var found := Json.Pointer(j, field).value;
      Json.PointerExact(j, field, found);
      Json.RenderSpells(found, value);
    }
    if ValueAt(j, field, value) {
      var found :| Json.At(j, field, found) && Json.Spells(found, value);
      Json.PointerExact(j, field, found);
      Json.RenderSpells(found, value);
    }
  }

  /** The URL the caller expects is an https one for the host that was verified. */
  predicate HostMatches(d: TlsData, url: Url) {
    url.scheme == [104, 116, 116, 112, 115] && url.host == Some(d.host)
  }

  lemma {:induction false} HostGate(sha: ByteSeq -> Bytes32, key: SigningKey, d: TlsData, url: Url, field: Text,
      now: Int64, ttl: Int64, nonce: Bytes32)
    ensures var r := SignVerified(sha, key, d, url, field, now, ttl, nonce);
            r == Err(Host) <==> !HostMatches(d, url)
  {
    assert HTTPS == [104, 116, 116, 112, 115];
  }

  lemma {:induction false} SignHasValue(sha: ByteSeq -> Bytes32, key: SigningKey, d: TlsData, url: Url,
      field: Text, now: Int64, ttl: Int64, nonce: Bytes32)
    requires HostMatches(d, url)
    ensures var r := SignVerified(sha, key, d, url, field, now, ttl, nonce);
            r == Err(Field) <==> forall value :: !ValueAt(d.response, field, value)
  {
    assert HTTPS == [104, 116, 116, 112, 115];
    forall value
      ensures ScalarAt(d.response, field) == Some(value) <==> ValueAt(d.response, field, value)
    {
      ScalarExact(d.response, field, value);
    }
    if ScalarAt(d.response, field).Some? {
      assert ValueAt(d.response, field, ScalarAt(d.response, field).value);
    }
  }

  /** Host, pointer and value have the lengths a claim allows. */
  predicate Sized(d: TlsData, field: Text, value: Text) {
    0 < Len(d.host) <= 128 && 0 < Len(field) <= 128 && 0 < Len(value) <= 256
  }

  /**
    Once host and value are found, the reason why a claim is refused, if it is. The version, the
    expiry, the future and the age never are a reason.
    */
  lemma {:induction false} ClaimRefusals(sha: ByteSeq -> Bytes32, key: SigningKey, d: TlsData, url: Url,
      field: Text, now: Int64, ttl: Int64, nonce: Bytes32, value: Text)
    requires HostMatches(d, url) && ValueAt(d.response, field, value)
    ensures var r := SignVerified(sha, key, d, url, field, now, ttl, nonce);
            if !(0 < Len(d.host) <= 128) then r == Err(Claim(Length(SourceHost)))
            else if !(0 < Len(field) <= 128) then r == Err(Claim(Length(ClaimKey)))
            else if !(0 < Len(value) <= 256) then r == Err(Claim(Length(ClaimValue)))
            else if ttl <= 0 || now == I64_MAX then r == Err(Claim(TimeWindow))
            else r.Ok? && r.value.claim == ClaimFor(sha, d, field, value, now, ttl, nonce)
  {
    assert HTTPS == [104, 116, 116, 112, 115];
    ScalarExact(d.response, field, value);
    ClaimVerdict(sha, d, field, value, now, ttl, nonce);
  }

  lemma {:induction false} ClaimVerdict(sha: ByteSeq -> Bytes32, d: TlsData, field: Text, value: Text, now: Int64,
      ttl: Int64, nonce: Bytes32)
    ensures Validate(ClaimFor(sha, d, field, value, now, ttl, nonce), now, ttl) ==
            if !(0 < Len(d.host) <= 128) then Err(Length(SourceHost))
            else if !(0 < Len(field) <= 128) then Err(Length(ClaimKey))
            else if !(0 < Len(value) <= 256) then Err(Length(ClaimValue))
            else if ttl <= 0 || now == I64_MAX then Err(TimeWindow)
            else Ok(())
  {
    Utf8.EmptyLength(d.host);
    Utf8.EmptyLength(field);
    Utf8.EmptyLength(value);
  }

  /**
    Exactly when a claim is signed, and exactly what it then says: the value is what the JSON scalar
    at the pointer spells. Three saturating operations come down to a positive time to live and a
    clock short of its end; the signed key is a proper pointer, never the empty one.
    */
  lemma {:induction false} SignExact(sha: ByteSeq -> Bytes32, key: SigningKey, d: TlsData, url: Url, field: Text,
      now: Int64, ttl: Int64, nonce: Bytes32)
    ensures var r := SignVerified(sha, key, d, url, field, now, ttl, nonce);
            && (r.Ok? <==>
                  && HostMatches(d, url) && ttl > 0 && now < I64_MAX
                  && exists value :: ValueAt(d.response, field, value) && Sized(d, field, value))
            && (r.Ok? ==>
                  var c := r.value.claim;
                  && ValueAt(d.response, field, c.claimValue)
                  && field != [] && field[0] == Json.SLASH
                  && c == ClaimV1(1, d.host, sha(Utf8.Encode(d.path)), field, c.claimValue, now,
                                  if now + ttl <= I64_MAX then now + ttl else I64_MAX, nonce, sha(d.artifact))
                  && WellSized(c)
                  && r.value.claimId == sha(CanonicalBytes(c))
                  && r.value.signature == key.sign(SigningMessage(c))
                  && r.value.verifierPublicKey == key.publicKey
                  && r.value.tlsnArtifactHash == c.provenanceHash)
  {
    HostGate(sha, key, d, url, field, now, ttl, nonce);
    if HostMatches(d, url) {
      SignHasValue(sha, key, d, url, field, now, ttl, nonce);
      if value :| ValueAt(d.response, field, value) {
        ClaimRefusals(sha, key, d, url, field, now, ttl, nonce, value);
        Utf8.EmptyLength(field);
        OneValue(d.response, field, value);
      }
    }
  }

  /** A pointer leads to one value at most. */
  lemma {:induction false} OneValue(j: Json.Json, field: Text, value: Text)
    requires ValueAt(j, field, value)
    ensures forall other :: ValueAt(j, field, other) ==> other == value
    ensures field != [] ==> field[0] == Json.SLASH
  {
    ScalarExact(j, field, value);
    forall other | ValueAt(j, field, other)
      ensures other == value
    {
      ScalarExact(j, field, other);
    }
  }

  /** Why nothing is signed: the host, the field, or else what is wrong with the claim. */
  lemma {:induction false} SignRefusals(sha: ByteSeq -> Bytes32, key: SigningKey, d: TlsData, url: Url, field: Text,
      now: Int64, ttl: Int64, nonce: Bytes32)
    ensures var r := SignVerified(sha, key, d, url, field, now, ttl, nonce);
            && (r == Err(Host) <==> !HostMatches(d, url))
            && (r == Err(Field) <==> HostMatches(d, url) && forall value :: !ValueAt(d.response, field, value))
            && r != Err(SignError.Tlsn)
  {
    HostGate(sha, key, d, url, field, now, ttl, nonce);
    if HostMatches(d, url) {
      SignHasValue(sha, key, d, url, field, now, ttl, nonce);
    }
  }

  /** Nothing is signed unless the artifact proves something. */
  lemma {:induction false} TlsnRefusal(sha: ByteSeq -> Bytes32, key: SigningKey, t: Presentations.Tlsn,
      artifact: ByteSeq, url: Url, field: Text, now: Int64, ttl: Int64, nonce: Bytes32)
    ensures VerifyAndSign(sha, key, t, artifact, url, field, now, ttl, nonce) == Err(SignError.Tlsn) <==>
            forall d :: !Proves(t, artifact, d)
    ensures forall d :: Proves(t, artifact, d) ==>
              VerifyAndSign(sha, key, t, artifact, url, field, now, ttl, nonce) ==
              SignVerified(sha, key, d, url, field, now, ttl, nonce)
  {
    forall d
      ensures VerifyPresentation(t, artifact) == Ok(d) <==> Proves(t, artifact, d)
    {
      VerifyExact(t, artifact, d);
    }
    if VerifyPresentation(t, artifact).Ok? {
      var d := VerifyPresentation(t, artifact).value;
      assert Proves(t, artifact, d);
      SignRefusals(sha, key, d, url, field, now, ttl, nonce);
    }
  }

  /**
    The acceptance window of a signed claim, in unbounded integers: the chain's checks pass at
    `later` exactly from 30 seconds before signing until the time to live or the configured
    maximum age runs out, whichever is first. No saturation shows.
    */
  lemma AcceptanceWindow(sha: ByteSeq -> Bytes32, key: SigningKey, d: TlsData, url: Url, field: Text,
      now: Int64, ttl: Int64, nonce: Bytes32, later: Int64, maxAge: Int64)
    requires SignVerified(sha, key, d, url, field, now, ttl, nonce).Ok?
    ensures var c := SignVerified(sha, key, d, url, field, now, ttl, nonce).value.claim;
            Program.ValidateClaim(c, later, maxAge).Ok? <==>
            now - 30 <= later <= now + (if ttl < maxAge then ttl else maxAge)
  {
    SignExact(sha, key, d, url, field, now, ttl, nonce);
    var c := SignVerified(sha, key, d, url, field, now, ttl, nonce).value.claim;
    Program.ValidatorsAgree(c, later, maxAge);
    ValidateExact(c, later, maxAge);
  }
}
