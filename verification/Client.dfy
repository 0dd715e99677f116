/** The SDK client: the [Ed25519 verify, submit_claim] pair, and reading claims back. */
module Client {
  import opened Bytes
  import Borsh
  import opened Core
  import opened Records
  import Ed25519
  import opened Program
  import opened History
  import opened Sdk
  import opened AccountReader

  datatype SubmitPair = SubmitPair(verify: Instruction, submit: Instruction, claimId: Bytes32)

  function SubmitClaimInstructions(sha: ByteSeq -> Bytes32, claim: TsClaim, signature: ByteSeq,
      verifierKey: ByteSeq, submitter: Bytes32): Result<SubmitPair, SdkError>
  {
    match SerializeClaim(claim)
    case Err(e) => Err(e)
    case Ok(bytes) =>
      var id := sha(bytes);
      var message := DOMAIN + bytes;
      if |verifierKey| != 32 || |signature| != 64 then Err(BadKeyOrSignatureLength)
      else if |message| >= TWO_16 then Err(RangeError)
      else Ok(SubmitPair(
                Native(Ed25519.BuildInstruction(verifierKey, message, signature)),
                WebProof(Call(submitter, SUBMIT_DISCRIMINATOR + bytes + id)),
                id))
  }

  lemma {:induction false} Dispatched(d: ByteSeq, x: ByteSeq, y: ByteSeq)
    requires |d| == 8
    ensures (d + x + y)[..8] == d && (d + x + y)[8..] == x + y
  {
  }

  /** The on-chain decoder reads back the claim and id the SDK wrote. */
  lemma {:induction false} DispatchReads(c: ClaimV1, id: Bytes32)
    requires Serializable(c)
    ensures ParseArgs(SUBMIT_DISCRIMINATOR + CanonicalBytes(c) + id) == Ok(SubmitClaim(c, id))
  {
    Dispatched(SUBMIT_DISCRIMINATOR, CanonicalBytes(c), id);
    assert SUBMIT_DISCRIMINATOR[0] != INIT_DISCRIMINATOR[0];
    ClaimRoundTrip(c, id);
    assert id[..32] == id;
  }

  /** `initializeConfigInstruction` */
  function InitializeConfigInstruction(verifierKey: Bytes32, maxAge: Int64, authority: Bytes32): Instruction {
    WebProof(Call(authority, INIT_DISCRIMINATOR + verifierKey + I64ToLE(maxAge)))
  }

  lemma {:induction false} EncodeTwo(a: Bytes32, i: Int64)
    ensures Borsh.Encode([Borsh.VArr(a), Borsh.VI64(i)]) == a + I64ToLE(i)
  {
    var vs := [Borsh.VArr(a), Borsh.VI64(i)];
    assert vs[0..] == vs && vs[2..] == [];
    Borsh.EncodeDrop(vs, 0);
    Borsh.EncodeDrop(vs, 1);
  }

  lemma {:induction false} DecodeTwo(a: Bytes32, i: Int64)
    ensures Borsh.Decode([Borsh.Arr32, Borsh.I64], a + I64ToLE(i)) ==
            Some(Borsh.Parsed([Borsh.VArr(a), Borsh.VI64(i)], []))
  {
    var vs := [Borsh.VArr(a), Borsh.VI64(i)];
    EncodeTwo(a, i);
    assert Borsh.Encode(vs) + [] == Borsh.Encode(vs);
    assert Borsh.Kinds(vs) == [Borsh.Arr32, Borsh.I64];
    Borsh.RoundTrip(vs, []);
  }

  lemma {:induction false} InitReads(verifierKey: Bytes32, maxAge: Int64)
    ensures ParseArgs(INIT_DISCRIMINATOR + verifierKey + I64ToLE(maxAge)) == Ok(InitializeConfig(verifierKey, maxAge))
  {
    Dispatched(INIT_DISCRIMINATOR, verifierKey, I64ToLE(maxAge));
    DecodeTwo(verifierKey, maxAge);
  }

  /** For every claim the chain would validate, the SDK builds the pair. */
  lemma {:induction false} PairBuilds(env: Env, c: ClaimV1, signature: ByteSeq, key: Bytes32, submitter: Bytes32)
    requires WellSized(c) && |signature| == 64
    ensures |SigningMessage(c)| < TWO_16
    ensures SubmitClaimInstructions(env.sha, FromCore(c), signature, key, submitter) ==
            Ok(SubmitPair(Native(Ed25519.BuildInstruction(key, SigningMessage(c), signature)),
                          WebProof(Call(submitter, SUBMIT_DISCRIMINATOR + CanonicalBytes(c) + env.sha(CanonicalBytes(c)))),
                          env.sha(CanonicalBytes(c))))
  {
    EncodersAgree(FromCore(c));
    CanonicalLength(c);
  }

  /** On any arguments: when the SDK builds the pair, what it then is, and which error it throws otherwise. */
  lemma {:induction false} PairExact(sha: ByteSeq -> Bytes32, claim: TsClaim, signature: ByteSeq, key: ByteSeq,
      submitter: Bytes32)
    ensures var r, bytes := SubmitClaimInstructions(sha, claim, signature, key, submitter), SerializeClaim(claim);
            && (bytes.Err? ==> r == Err(bytes.error))
            && (bytes.Ok? && !(|key| == 32 && |signature| == 64) ==> r == Err(BadKeyOrSignatureLength))
            && (bytes.Ok? && |key| == 32 && |signature| == 64 ==>
                  && ToCore(claim).Some? && Serializable(ToCore(claim).value)
                  && var c := ToCore(claim).value;
                  && (r == Err(RangeError) <==> |SigningMessage(c)| >= TWO_16)
                  && (|SigningMessage(c)| < TWO_16 ==>
                        && r.Ok? && r.value.claimId == sha(CanonicalBytes(c))
                        && r.value.verify == Native(Ed25519.BuildInstruction(key, SigningMessage(c), signature))
                        && r.value.submit ==
                           WebProof(Call(submitter, SUBMIT_DISCRIMINATOR + CanonicalBytes(c) + sha(CanonicalBytes(c))))))
  {
    EncodersAgree(claim);
  }

  /** The account a submission of `c` creates. */
  function Stored(env: Env, c: ClaimV1, id: Bytes32, submitter: Bytes32, now: Int64): ByteSeq
    requires WellSized(c)
  {
    RecordFits(c, id, submitter, now, env.claimBump(id));
    AccountData(RecordOf(c, id, submitter, now, env.claimBump(id)))
  }

  lemma {:induction false} VerifyRuns(env: Env, st: ChainState, ixs: seq<Instruction>, p: nat, now: Int64,
      c: ClaimV1, signature: ByteSeq, key: Bytes32)
    requires WellSized(c) && |signature| == 64 && |SigningMessage(c)| < TWO_16
    requires p < |ixs| && ixs[p] == Native(Ed25519.BuildInstruction(key, SigningMessage(c), signature))
    requires env.ed(key, SigningMessage(c), signature)
    ensures ExecOne(env, st, ixs, p, now) == Ok(st)
  {
    Ed25519.BuiltInstructionPasses(env.ed, key, SigningMessage(c), signature, Datas(ixs));
  }

  lemma {:induction false} SubmitRuns(env: Env, st: ChainState, ixs: seq<Instruction>, at: nat, now: Int64,
      c: ClaimV1, submitter: Bytes32, id: Bytes32)
    requires WellSized(c) && id == env.sha(CanonicalBytes(c)) && at < |ixs|
    requires ixs[at] == WebProof(Call(submitter, SUBMIT_DISCRIMINATOR + CanonicalBytes(c) + id))
    requires st.config.Some? && id !in st.accounts
    requires Validated(env, st.config.value, c, id, now) && Vouched(st.config.value, c, ixs, at)
    ensures ExecOne(env, st, ixs, at, now) == Ok(With(st, id, Stored(env, c, id, submitter, now)))
  {
    var call := ixs[at].call;
    DispatchReads(c, id);
    SubmitExact(env, st, c, id, submitter, ixs, at, now);
    OneCall(env, st, call, ixs, at, now);
  }

  lemma {:induction false} OneCall(env: Env, st: ChainState, call: Call, ixs: seq<Instruction>, at: nat, now: Int64)
    requires at < |ixs|
    ensures Steps(env, st, [call], ixs, at, now) == Step(env, st, call, ixs, at, now)
  {
    assert [call][1..] == [];
  }

  /**
    Completeness. Take any transaction that contains, at some position, the SDK's pair for a claim
    the chain would validate, with a signature that verifies natively and an id not yet stored when
    the pair is reached. If the instructions before the pair succeed, and those after it succeed
    without submitting that id, then the whole transaction commits, and it does what the others do
    plus storing the claim.
    */
  lemma {:induction false} SubmissionComplete(env: Env, st: ChainState, ixs: seq<Instruction>, p: nat,
      now: Int64, c: ClaimV1, signature: ByteSeq, submitter: Bytes32, id: Bytes32, mid: ChainState,
      end: ChainState)
    requires p + 2 <= |ixs| && mid.config.Some?
    requires SubmitClaimInstructions(env.sha, FromCore(c), signature, mid.config.value.verifierKey, submitter) ==
             Ok(SubmitPair(ixs[p], ixs[p + 1], id))
    requires ValidateClaim(c, now, mid.config.value.maxClaimAge).Ok? && id !in mid.accounts
    requires Serializable(c) && env.ed(mid.config.value.verifierKey, SigningMessage(c), signature)
    requires Exec(env, st, ixs, 0, p, now) == Ok(mid)
    requires Exec(env, mid, ixs, p + 2, |ixs|, now) == Ok(end) && id !in ExecIds(ixs, p + 2, |ixs|)
    ensures Committed(env, st, Transaction(ixs, now)) && WellSized(c)
    ensures Apply(env, st, Transaction(ixs, now)) == With(end, id, Stored(env, c, id, submitter, now))
  {
    PairParts(env, c, signature, mid.config.value, submitter, now);
    PairRuns(env, mid, ixs, p, now, c, signature, submitter, id);
    ExecFrame(env, mid, ixs, p + 2, |ixs|, now, id, Stored(env, c, id, submitter, now));
    ExecSplit(env, st, ixs, 0, p, |ixs|, now);
    ExecSplit(env, mid, ixs, p, p + 2, |ixs|, now);
  }

  lemma {:induction false} PairParts(env: Env, c: ClaimV1, signature: ByteSeq, cfg: Config, submitter: Bytes32,
      now: Int64)
    requires SubmitClaimInstructions(env.sha, FromCore(c), signature, cfg.verifierKey, submitter).Ok?
    requires ValidateClaim(c, now, cfg.maxClaimAge).Ok?
    ensures WellSized(c) && |signature| == 64 && |SigningMessage(c)| < TWO_16
    ensures SubmitClaimInstructions(env.sha, FromCore(c), signature, cfg.verifierKey, submitter) ==
            Ok(SubmitPair(Native(Ed25519.BuildInstruction(cfg.verifierKey, SigningMessage(c), signature)),
                          WebProof(Call(submitter, SUBMIT_DISCRIMINATOR + CanonicalBytes(c) + env.sha(CanonicalBytes(c)))),
                          env.sha(CanonicalBytes(c))))
  {
    ValidatorsAgree(c, now, cfg.maxClaimAge);
    ValidateExact(c, now, cfg.maxClaimAge);
    PairBuilds(env, c, signature, cfg.verifierKey, submitter);
  }

  lemma {:induction false} PairRuns(env: Env, st: ChainState, ixs: seq<Instruction>, p: nat, now: Int64,
      c: ClaimV1, signature: ByteSeq, submitter: Bytes32, id: Bytes32)
    requires WellSized(c) && |signature| == 64 && |SigningMessage(c)| < TWO_16 && p + 2 <= |ixs|
    requires st.config.Some? && ValidateClaim(c, now, st.config.value.maxClaimAge).Ok?
    requires id == env.sha(CanonicalBytes(c)) && id !in st.accounts
    requires env.ed(st.config.value.verifierKey, SigningMessage(c), signature)
    requires ixs[p] == Native(Ed25519.BuildInstruction(st.config.value.verifierKey, SigningMessage(c), signature))
    requires ixs[p + 1] == WebProof(Call(submitter, SUBMIT_DISCRIMINATOR + CanonicalBytes(c) + id))
    ensures Exec(env, st, ixs, p, p + 2, now) == Ok(With(st, id, Stored(env, c, id, submitter, now)))
  {
    var cfg := st.config.value;
    PairVouches(env, cfg, ixs, p, now, c, signature, id);
    VerifyRuns(env, st, ixs, p, now, c, signature, cfg.verifierKey);
    SubmitRuns(env, st, ixs, p + 1, now, c, submitter, id);
    var done := With(st, id, Stored(env, c, id, submitter, now));
    assert Exec(env, done, ixs, p + 2, p + 2, now) == Ok(done);
    assert Exec(env, st, ixs, p + 1, p + 2, now) == Ok(done);
  }

  lemma {:induction false} PairVouches(env: Env, cfg: Config, ixs: seq<Instruction>, p: nat, now: Int64,
      c: ClaimV1, signature: ByteSeq, id: Bytes32)
    requires WellSized(c) && |signature| == 64 && |SigningMessage(c)| < TWO_16 && p + 2 <= |ixs|
    requires ValidateClaim(c, now, cfg.maxClaimAge).Ok? && id == env.sha(CanonicalBytes(c))
    requires ixs[p] == Native(Ed25519.BuildInstruction(cfg.verifierKey, SigningMessage(c), signature))
    ensures Validated(env, cfg, c, id, now) && Vouched(cfg, c, ixs, p + 1)
  {
    ValidatorsAgree(c, now, cfg.maxClaimAge);
    ValidateExact(c, now, cfg.maxClaimAge);
    Ed25519.BuiltInstructionReads(cfg.verifierKey, SigningMessage(c), signature, []);
  }

  // ---- Reading back ------------------------------------------------------------------------

  /** `getClaim` on a stored account, padding and all, returns exactly what was submitted. */
  lemma {:induction false} StoredReadsBack(env: Env, c: ClaimV1, id: Bytes32, submitter: Bytes32, now: Int64)
    requires WellSized(c)
    ensures DecodeVerifiedClaim(Stored(env, c, id, submitter, now)) ==
            Ok(RecordOf(c, id, submitter, now, env.claimBump(id)))
  {
    RecordFits(c, id, submitter, now, env.claimBump(id));
    AccountReads(RecordOf(c, id, submitter, now, env.claimBump(id)));
  }

  /** In every reachable state every stored account decodes, field by field, to the submission it was born from. */
  lemma {:induction false} EveryAccountReads(env: Env, txs: seq<Transaction>, id: Bytes32) returns (b: Birth)
    requires id in Run(env, txs).accounts
    ensures Born(env, txs, b, id)
    ensures DecodeVerifiedClaim(Run(env, txs).accounts[id]) ==
            Ok(VerifiedClaim(id, b.origin.claim.sourceHost, b.origin.claim.requestPathHash, b.origin.claim.claimKey,
                             b.origin.claim.claimValue, b.origin.claim.issuedAt, b.origin.claim.expiresAt,
                             b.origin.claim.provenanceHash, b.origin.call.signer, txs[b.tx].now, env.claimBump(id)))
  {
    b := EveryAccountIsBorn(env, txs, id);
    StoredReadsBack(env, b.origin.claim, id, b.origin.call.signer, txs[b.tx].now);
  }
}
