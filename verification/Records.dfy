/** The stored account: the VerifiedClaim record, its Anchor layout and its allocation. */
module Records {
  import opened Bytes
  import Utf8
  import Borsh
  import opened Core

  datatype VerifiedClaim = VerifiedClaim(
    claimId: Bytes32,
    sourceHost: Text,
    requestPathHash: Bytes32,
    claimKey: Text,
    claimValue: Text,
    issuedAt: Int64,
    expiresAt: Int64,
    provenanceHash: Bytes32,
    submittedBy: Bytes32,
    createdAt: Int64,
    bump: Byte)

  /** sha256("account:VerifiedClaim")[..8] */
  const DISCRIMINATOR: ByteSeq := [47, 180, 71, 141, 92, 143, 181, 56]

  /** `VerifiedClaim::INIT_SPACE`, plus the discriminator. */
  const INIT_SPACE := 32 + (4 + 128) + 32 + (4 + 128) + (4 + 256) + 8 + 8 + 32 + 32 + 8 + 1
  const ACCOUNT_SPACE := 8 + INIT_SPACE

  const RECORD_LAYOUT: seq<Borsh.Kind> :=
    [Borsh.Arr32, Borsh.Str, Borsh.Arr32, Borsh.Str, Borsh.Str, Borsh.I64, Borsh.I64,
     Borsh.Arr32, Borsh.Arr32, Borsh.I64, Borsh.U8]

  function RecordFields(r: VerifiedClaim): seq<Borsh.Value> {
    [Borsh.VArr(r.claimId),
     Borsh.VStr(Utf8.Encode(r.sourceHost)),
     Borsh.VArr(r.requestPathHash),
     Borsh.VStr(Utf8.Encode(r.claimKey)),
     Borsh.VStr(Utf8.Encode(r.claimValue)),
     Borsh.VI64(r.issuedAt),
     Borsh.VI64(r.expiresAt),
     Borsh.VArr(r.provenanceHash),
     Borsh.VArr(r.submittedBy),
     Borsh.VI64(r.createdAt),
     Borsh.VU8(r.bump)]
  }

  predicate RecordSerializable(r: VerifiedClaim) {
    Len(r.sourceHost) < TWO_32 && Len(r.claimKey) < TWO_32 && Len(r.claimValue) < TWO_32
  }

  /** What Anchor writes when the account is flushed. */
  function RecordBytes(r: VerifiedClaim): ByteSeq {
    DISCRIMINATOR + Borsh.Encode(RecordFields(r))
  }

  /** Flushing into the zeroed account: a prefix is overwritten, the padding stays. */
  function Flush(account: ByteSeq, r: VerifiedClaim): Option<ByteSeq> {
    var b := RecordBytes(r);
    if !RecordSerializable(r) || |b| > |account| then None else Some(b + account[|b|..])
  }

  lemma RecordShape(r: VerifiedClaim)
    requires RecordSerializable(r)
    ensures Borsh.Kinds(RecordFields(r)) == RECORD_LAYOUT && Borsh.AllFit(RecordFields(r))
  {
    RecordKindsOf(r);
    RecordAllFit(r);
  }

  lemma RecordKindsOf(r: VerifiedClaim)
    ensures Borsh.Kinds(RecordFields(r)) == RECORD_LAYOUT
  {
  }

  lemma RecordAllFit(r: VerifiedClaim)
    requires RecordSerializable(r)
    ensures Borsh.AllFit(RecordFields(r))
  {
    var vs := RecordFields(r);
    assert forall i :: 0 <= i < |vs| ==> vs[i].Fits();
  }

  /** The account layout, spelled out. */
  lemma RecordLayout(r: VerifiedClaim)
    ensures RecordBytes(r) ==
            DISCRIMINATOR + (r.claimId + (Framed(r.sourceHost) + (r.requestPathHash + (Framed(r.claimKey) + (Framed(r.claimValue) +
            (I64ToLE(r.issuedAt) + (I64ToLE(r.expiresAt) + (r.provenanceHash + (r.submittedBy + (I64ToLE(r.createdAt) + [r.bump]))))))))))
  {
    var vs := RecordFields(r);
    assert vs[0..] == vs;
    Borsh.EncodeDrop(vs, 0);
    Borsh.EncodeDrop(vs, 1);
    Borsh.EncodeDrop(vs, 2);
    Borsh.EncodeDrop(vs, 3);
    Borsh.EncodeDrop(vs, 4);
    Borsh.EncodeDrop(vs, 5);
    Borsh.EncodeDrop(vs, 6);
    Borsh.EncodeDrop(vs, 7);
    Borsh.EncodeDrop(vs, 8);
    Borsh.EncodeDrop(vs, 9);
    Borsh.EncodeDrop(vs, 10);
    assert [r.bump] + [] == [r.bump];
  }

  lemma RecordLength(r: VerifiedClaim)
    ensures |RecordBytes(r)| == 8 + 165 + Len(r.sourceHost) + Len(r.claimKey) + Len(r.claimValue)
  {
    RecordLayout(r);
  }

  /** The record a submission of `c` leaves behind. */
  function RecordOf(c: ClaimV1, id: Bytes32, submitter: Bytes32, now: Int64, bump: Byte): VerifiedClaim {
    VerifiedClaim(id, c.sourceHost, c.requestPathHash, c.claimKey, c.claimValue, c.issuedAt, c.expiresAt,
                  c.provenanceHash, submitter, now, bump)
  }

  /** The record of a well-sized claim always fits its allocation. */
  lemma RecordFits(c: ClaimV1, id: Bytes32, submitter: Bytes32, now: Int64, bump: Byte)
    requires WellSized(c)
    ensures var r := RecordOf(c, id, submitter, now, bump);
            RecordSerializable(r) && |RecordBytes(r)| <= 8 + 677 == ACCOUNT_SPACE && Flush(Zeros(ACCOUNT_SPACE), r).Some?
  {
    RecordLength(RecordOf(c, id, submitter, now, bump));
  }

  /** The allocation is not one octet too large. */
  lemma RecordFitsTight() returns (c: ClaimV1)
    ensures Validate(c, 0, 1).Ok?
    ensures forall id: Bytes32, submitter: Bytes32, now: Int64, bump: Byte ::
              |RecordBytes(RecordOf(c, id, submitter, now, bump))| == ACCOUNT_SPACE
  {
    c := ValidatedSizeTight();
    forall id: Bytes32, submitter: Bytes32, now: Int64, bump: Byte
      ensures |RecordBytes(RecordOf(c, id, submitter, now, bump))| == ACCOUNT_SPACE
    {
      RecordLength(RecordOf(c, id, submitter, now, bump));
    }
  }

  /** Account octets of a stored record, padding included. */
  function AccountData(r: VerifiedClaim): ByteSeq
    requires |RecordBytes(r)| <= ACCOUNT_SPACE
  {
    RecordBytes(r) + Zeros(ACCOUNT_SPACE - |RecordBytes(r)|)
  }

  lemma FlushIsAccountData(r: VerifiedClaim)
    requires RecordSerializable(r) && |RecordBytes(r)| <= ACCOUNT_SPACE
    ensures Flush(Zeros(ACCOUNT_SPACE), r) == Some(AccountData(r))
  {
    assert Zeros(ACCOUNT_SPACE)[|RecordBytes(r)|..] == Zeros(ACCOUNT_SPACE - |RecordBytes(r)|);
  }
}
