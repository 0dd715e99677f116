/** `signed-claim.json`: written by the Rust signer, read by the SDK through JavaScript numbers. */
module SignedFile {
  import opened Bytes
  import opened Core
  import opened Sdk
  import Signer
  import opened Doubles

  // ---- The file ----------------------------------------------------------------------------

  /** The JSON document; integers as written, before any parsing. */
  datatype File = File(
    version: Byte, sourceHost: Text, requestPathHash: ByteSeq, claimKey: Text, claimValue: Text,
    issuedAt: int, expiresAt: int, nonce: ByteSeq, provenanceHash: ByteSeq,
    claimId: ByteSeq, signature: ByteSeq, verifierPublicKey: ByteSeq)

  /** What the signer writes. */
  function FileOf(s: Signer.SignedClaim): File {
    var c := s.claim;
    File(c.version, c.sourceHost, c.requestPathHash, c.claimKey, c.claimValue, c.issuedAt, c.expiresAt, c.nonce,
         c.provenanceHash, s.claimId, s.signature, s.verifierPublicKey)
  }

  datatype ParsedClaim = ParsedClaim(claim: TsClaim, signature: ByteSeq, verifierPublicKey: ByteSeq, claimId: Bytes32)

  /** The claim as it stands after `JSON.parse` and `BigInt`. */
  function Reread(f: File): TsClaim {
    TsClaim(f.version, f.sourceHost, f.requestPathHash, f.claimKey, f.claimValue, ToDouble(f.issuedAt),
            ToDouble(f.expiresAt), f.nonce, f.provenanceHash)
  }

  function ParseSignedClaim(sha: ByteSeq -> Bytes32, f: File): Result<ParsedClaim, SdkError> {
    var claim := Reread(f);
    match ClaimId(sha, claim)
    case Err(e) => Err(e)
    case Ok(id) =>
      if id != f.claimId then Err(ClaimIdDiffers)
      else Ok(ParsedClaim(claim, f.signature, f.verifierPublicKey, id))
  }

  /** SHA-256 does not collide on these two inputs. */
  predicate NoCollision(sha: ByteSeq -> Bytes32, a: ByteSeq, b: ByteSeq) {
    sha(a) == sha(b) ==> a == b
  }

  /** The claim that a file spells, its times rounded. */
  predicate Carries(f: File, c: ClaimV1) {
    && f.version == c.version
    && f.sourceHost == c.sourceHost
    && f.requestPathHash == c.requestPathHash
    && f.claimKey == c.claimKey
    && f.claimValue == c.claimValue
    && ToDouble(f.issuedAt) == c.issuedAt
    && ToDouble(f.expiresAt) == c.expiresAt
    && f.nonce == c.nonce
    && f.provenanceHash == c.provenanceHash
  }

  lemma {:induction false} CarriesReread(f: File, c: ClaimV1)
    ensures ToCore(Reread(f)) == Some(c) <==> Carries(f, c)
  {
  }

  /**
    On every file, whoever wrote it: parsing returns a claim exactly when the file spells one, in
    full, and states the hash of its canonical bytes; signature and key are passed on as they are.
    */
  lemma {:induction false} ParseExact(sha: ByteSeq -> Bytes32, f: File, c: ClaimV1)
    ensures var r := ParseSignedClaim(sha, f);
            && (r.Ok? && r.value.claim == FromCore(c) <==>
                  Serializable(c) && Carries(f, c) && f.claimId == sha(CanonicalBytes(c)))
            && (r.Ok? ==> r.value.signature == f.signature && r.value.verifierPublicKey == f.verifierPublicKey
                          && r.value.claimId == f.claimId)
            && (r == Err(ClaimIdDiffers) <== Serializable(c) && Carries(f, c) && f.claimId != sha(CanonicalBytes(c)))
  {
    CarriesReread(f, c);
    EncodersAgree(Reread(f));
  }

  /** Whatever parsing returns denotes a claim that Rust can serialise. */
  lemma {:induction false} ParsedDenotes(sha: ByteSeq -> Bytes32, f: File) returns (c: ClaimV1)
    requires ParseSignedClaim(sha, f).Ok?
    ensures ParseSignedClaim(sha, f).value.claim == FromCore(c)
    ensures Serializable(c) && Carries(f, c) && f.claimId == sha(CanonicalBytes(c))
  {
    EncodersAgree(Reread(f));
    c := ToCore(Reread(f)).value;
    CarriesReread(f, c);
  }

  /**
    Tampering shows. If a file states the id of some claim, then, whatever else was changed in it,
    parsing throws or returns exactly that claim, unless SHA-256 collides on it and the claim the
    file spells.
    */
  lemma {:induction false} TamperingShows(sha: ByteSeq -> Bytes32, f: File, c: ClaimV1)
    requires Serializable(c) && f.claimId == sha(CanonicalBytes(c))
    requires forall d :: Serializable(d) && Carries(f, d) ==> NoCollision(sha, CanonicalBytes(d), CanonicalBytes(c))
    ensures var r := ParseSignedClaim(sha, f);
            && (r.Ok? ==> r.value.claim == FromCore(c))
            && (r.Ok? <==> Carries(f, c))
  {
    ParseExact(sha, f, c);
    if ParseSignedClaim(sha, f).Ok? {
      var d := ParsedDenotes(sha, f);
      CanonicalInjective(d, c);
    }
  }

  /** Hypothesis for one file: the claim written and the claim reread, if there is one, do not collide. */
  predicate RereadDoesNotCollide(sha: ByteSeq -> Bytes32, s: Signer.SignedClaim)
    requires Serializable(s.claim)
  {
    var again := ToCore(Reread(FileOf(s)));
    again.Some? ==> NoCollision(sha, CanonicalBytes(again.value), CanonicalBytes(s.claim))
  }

  /**
    No silent substitution: on a file the signer wrote, parsing throws or returns exactly the signed
    claim; and it returns exactly when both times survive as JavaScript numbers.
    */
  lemma NoSilentSubstitution(sha: ByteSeq -> Bytes32, s: Signer.SignedClaim)
    requires Serializable(s.claim) && s.claimId == sha(CanonicalBytes(s.claim))
    requires RereadDoesNotCollide(sha, s)
    ensures var r := ParseSignedClaim(sha, FileOf(s));
            && (r.Ok? ==> r.value == ParsedClaim(FromCore(s.claim), s.signature, s.verifierPublicKey, s.claimId))
            && (r.Ok? <==> Representable(s.claim.issuedAt) && Representable(s.claim.expiresAt))
  {
    var again := Reread(FileOf(s));
    EncodersAgree(again);
    ToDoubleFixes(s.claim.issuedAt);
    ToDoubleFixes(s.claim.expiresAt);
    if SerializeClaim(again).Ok? && sha(SerializeClaim(again).value) == s.claimId {
      CanonicalInjective(ToCore(again).value, s.claim);
    }
  }

  /**
    Every file `verify_and_sign` can lead to is such a file: it parses exactly when the signing time
    and the saturated expiry survive, and then to everything that was signed.
    */
  lemma SignerFilesParse(sha: ByteSeq -> Bytes32, key: Signer.SigningKey, d: Signer.Presentations.TlsData,
      url: Signer.Url, field: Text, now: Int64, ttl: Int64, nonce: Bytes32)
    requires Signer.SignVerified(sha, key, d, url, field, now, ttl, nonce).Ok?
    ensures var s := Signer.SignVerified(sha, key, d, url, field, now, ttl, nonce).value;
            && Serializable(s.claim)
            && (RereadDoesNotCollide(sha, s) ==>
                  var r := ParseSignedClaim(sha, FileOf(s));
                  && (r.Ok? <==> Representable(now) && Representable(SaturatingAdd(now, ttl)))
                  && (r.Ok? ==> r.value == ParsedClaim(FromCore(s.claim), s.signature, key.publicKey, s.claimId)))
  {
    Signer.SignExact(sha, key, d, url, field, now, ttl, nonce);
    var s := Signer.SignVerified(sha, key, d, url, field, now, ttl, nonce).value;
    if RereadDoesNotCollide(sha, s) {
      NoSilentSubstitution(sha, s);
    }
  }
}
