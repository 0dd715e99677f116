/** The whole system: signings off chain and transactions on chain, in any interleaving. */
module Pipeline {
  import opened Bytes
  import Utf8
  import opened Core
  import opened Records
  import Ed25519
  import opened Program
  import opened History
  import opened Presentations
  import opened Signer
  import Json
  import Client
  import AccountReader
  import opened Sdk
  import Doubles
  import SignedFile

  /** One call of `verify_and_sign`. */
  datatype Signing = Signing(artifact: ByteSeq, url: Url, field: Text, now: Int64, ttl: Int64, nonce: Bytes32)

  datatype Event = Sign(request: Signing) | Submit(tx: Transaction)

  /** What the parties share: the chain's environment, the TLSNotary verifier and the signer's key. */
  datatype World = World(env: Env, tlsn: Presentations.Tlsn, key: SigningKey)

  function Outcome(w: World, s: Signing): Result<SignedClaim, SignError> {
    VerifyAndSign(w.env.sha, w.key, w.tlsn, s.artifact, s.url, s.field, s.now, s.ttl, s.nonce)
  }

  /** The message a signing puts its signature on, if it signs at all. */
  function SignedMessage(w: World, s: Signing): Option<ByteSeq> {
    match Outcome(w, s)
    case Err(_) => None
    case Ok(signed) => if Serializable(signed.claim) then Some(SigningMessage(signed.claim)) else None
  }

  function Txs(events: seq<Event>): seq<Transaction> {
    if events == [] then []
    else
      var n := |events| - 1;
      Txs(events[..n]) + if events[n].Submit? then [events[n].tx] else []
  }

  /** The chain after a history of events. */
  function Chain(w: World, events: seq<Event>): ChainState {
    Run(w.env, Txs(events))
  }

  /** Some signing among `events` signed `message`. */
  ghost predicate WasSigned(w: World, events: seq<Event>, message: ByteSeq) {
    exists i :: 0 <= i < |events| && events[i].Sign? && SignedMessage(w, events[i].request) == Some(message)
  }

  /** Instruction `i` of `tx` makes the native program perform `check`. */
  predicate Performs(tx: Transaction, i: nat, check: Ed25519.Check) {
    && i < |tx.ixs| && tx.ixs[i].Native?
    && Ed25519.NativeChecks(tx.ixs[i].data, Datas(tx.ixs)).Some?
    && check in Ed25519.NativeChecks(tx.ixs[i].data, Datas(tx.ixs)).value
  }

  /** No native check in `tx` under the signer's key passes for a message that is not in the log. */
  ghost predicate NoForgeryIn(w: World, events: seq<Event>, tx: Transaction) {
    forall i: nat, check ::
      (Performs(tx, i, check) && check.key == w.key.publicKey && w.env.ed(check.key, check.message, check.signature))
      ==> WasSigned(w, events, check.message)
  }

  /** Unforgeability over a history: signatures that pass on chain were made by earlier signings. */
  ghost predicate Unforged(w: World, events: seq<Event>) {
    forall k :: 0 <= k < |events| && events[k].Submit? ==> NoForgeryIn(w, events[..k], events[k].tx)
  }

  /** Signing `s` produced the claim stored in `r`: every field traced to one verified presentation. */
  ghost predicate Traced(w: World, s: Signing, d: TlsData, r: VerifiedClaim) {
    && Proves(w.tlsn, s.artifact, d)
    && HostMatches(d, s.url)
    && r.sourceHost == d.host
    && r.requestPathHash == w.env.sha(Utf8.Encode(d.path))
    && r.claimKey == s.field && s.field != [] && s.field[0] == Json.SLASH
    && ValueAt(d.response, s.field, r.claimValue)
    && r.provenanceHash == w.env.sha(s.artifact)
    && r.issuedAt == s.now
    && s.now - 30 <= r.createdAt <= s.now + s.ttl
  }

  lemma {:induction false} SubmitEvents(events: seq<Event>, k: nat) returns (e: nat)
    requires k < |Txs(events)|
    ensures e < |events| && events[e] == Submit(Txs(events)[k])
  {
    var n := |events| - 1;
    if k < |Txs(events[..n])| {
      e := SubmitEvents(events[..n], k);
    } else {
      e := n;
    }
  }

  /** A passing, introspected instruction under the signer's key carries a logged message. */
  lemma {:induction false} VouchedWasSigned(w: World, events: seq<Event>, tx: Transaction, o: Origin,
      cfg: Config, id: Bytes32, data: ByteSeq)
    requires cfg.verifierKey == w.key.publicKey && NoForgeryIn(w, events, tx)
    requires Verified(w.env, cfg, tx, o, id, data)
    ensures Serializable(o.claim) && WasSigned(w, events, SigningMessage(o.claim))
  {
    var ix := tx.ixs[o.at - 1];
    Ed25519.IntrospectionSound(w.env.ed, ix.data, Datas(tx.ixs), cfg.verifierKey, SigningMessage(o.claim));
    var s :| Ed25519.NativeChecks(ix.data, Datas(tx.ixs)) == Some([Ed25519.Check(cfg.verifierKey, SigningMessage(o.claim), s)])
             && w.env.ed(cfg.verifierKey, SigningMessage(o.claim), s);
    assert Performs(tx, o.at - 1, Ed25519.Check(cfg.verifierKey, SigningMessage(o.claim), s));
  }

  /** The signing whose message equals a claim's message signed that very claim. */
  lemma {:induction false} SignedIsClaim(w: World, s: Signing, c: ClaimV1)
    requires Serializable(c) && SignedMessage(w, s) == Some(SigningMessage(c))
    ensures Outcome(w, s).Ok? && Outcome(w, s).value.claim == c
  {
    SigningMessageInjective(Outcome(w, s).value.claim, c);
  }

  lemma {:induction false} TraceSigning(w: World, s: Signing, c: ClaimV1, cfg: Config, id: Bytes32,
      submitter: Bytes32, now: Int64)
    returns (d: TlsData)
    requires Outcome(w, s).Ok? && Outcome(w, s).value.claim == c && Validated(w.env, cfg, c, id, now)
    ensures Traced(w, s, d, RecordOf(c, id, submitter, now, w.env.claimBump(id)))
  {
    d := VerifyPresentation(w.tlsn, s.artifact).value;
    VerifyExact(w.tlsn, s.artifact, d);
    SignExact(w.env.sha, w.key, d, s.url, s.field, s.now, s.ttl, s.nonce);
  }

  /**
    End-to-end provenance. In every interleaving of signings and transactions in which the
    configured key is the signer's and no signature is forged, each stored account reads back, through
    the SDK's reader, as a record whose host, path hash, key, value and provenance hash all come from
    one presentation that verified, by way of one signing made before
    the transaction that created the account.
    */
  lemma {:induction false} EndToEndProvenance(w: World, events: seq<Event>, id: Bytes32)
    returns (s: Signing, d: TlsData, e: nat, k: nat)
    requires Unforged(w, events)
    requires Chain(w, events).config.Some? && Chain(w, events).config.value.verifierKey == w.key.publicKey
    requires id in Chain(w, events).accounts
    ensures e < k < |events| && events[e] == Sign(s) && events[k].Submit?
    ensures var r := AccountReader.DecodeVerifiedClaim(Chain(w, events).accounts[id]);
            r.Ok? && r.value.claimId == id && r.value.createdAt == events[k].tx.now && Traced(w, s, d, r.value)
  {
    var cfg := Chain(w, events).config.value;
    var b := Client.EveryAccountReads(w.env, Txs(events), id);
    var tx, c := Txs(events)[b.tx], b.origin.claim;
    k := SubmitEvents(events, b.tx);
    VouchedWasSigned(w, events[..k], tx, b.origin, cfg, id, Chain(w, events).accounts[id]);
    e :| 0 <= e < |events[..k]| && events[..k][e].Sign? && SignedMessage(w, events[..k][e].request) == Some(SigningMessage(c));
    s := events[e].request;
    SignedIsClaim(w, s, c);
    d := TraceSigning(w, s, c, cfg, id, b.origin.call.signer, tx.now);
  }

  // ---- Delivery ----------------------------------------------------------------------------

  /** `submitClaim`: the transaction the SDK sends. */
  function SdkTransaction(w: World, claim: TsClaim, signature: ByteSeq, verifierKey: ByteSeq,
      submitter: Bytes32, later: Int64): Result<Transaction, SdkError>
  {
    match Client.SubmitClaimInstructions(w.env.sha, claim, signature, verifierKey, submitter)
    case Err(e) => Err(e)
    case Ok(pair) => Ok(Transaction([pair.verify, pair.submit], later))
  }

  /** Submission by a caller that holds the signed claim itself. */
  function DirectSubmission(w: World, signed: SignedClaim, submitter: Bytes32, later: Int64)
      : Result<Transaction, SdkError>
  {
    SdkTransaction(w, FromCore(signed.claim), signed.signature, signed.verifierPublicKey, submitter, later)
  }

  /** Submission by way of `signed-claim.json`: the signer writes it, the SDK parses it and submits. */
  function FileSubmission(w: World, signed: SignedClaim, submitter: Bytes32, later: Int64)
      : Result<Transaction, SdkError>
  {
    match SignedFile.ParseSignedClaim(w.env.sha, SignedFile.FileOf(signed))
    case Err(e) => Err(e)
    case Ok(p) => SdkTransaction(w, p.claim, p.signature, p.verifierPublicKey, submitter, later)
  }

  /** The signer's own signatures have 64 octets and pass the native check. */
  predicate SignatureWorks(w: World, message: ByteSeq) {
    |w.key.sign(message)| == 64 && w.env.ed(w.key.publicKey, message, w.key.sign(message))
  }

  /** The chain is configured for the signer, does not hold the claim, and its clock is in the window. */
  predicate Ready(w: World, st: ChainState, s: Signing, id: Bytes32, later: int) {
    && st.config.Some? && st.config.value.verifierKey == w.key.publicKey
    && id !in st.accounts
    && InWindow(s, st.config.value.maxClaimAge, later)
  }

  predicate InWindow(s: Signing, maxAge: int, later: int) {
    s.now - 30 <= later <= s.now + (if s.ttl < maxAge then s.ttl else maxAge)
  }

  /** What `verify_and_sign` returns is complete and signed by the key. */
  predicate WellSigned(w: World, signed: SignedClaim) {
    && WellSized(signed.claim)
    && signed.claimId == w.env.sha(CanonicalBytes(signed.claim))
    && signed.verifierPublicKey == w.key.publicKey
    && signed.signature == w.key.sign(SigningMessage(signed.claim))
  }

  lemma {:induction false} SigningFacts(w: World, s: Signing)
    requires Outcome(w, s).Ok?
    ensures var c := Outcome(w, s).value.claim;
            && WellSigned(w, Outcome(w, s).value)
            && c.issuedAt == s.now && c.expiresAt == SaturatingAdd(s.now, s.ttl)
            && (forall later: Int64, maxAge: Int64 :: ValidateClaim(c, later, maxAge).Ok? <==> InWindow(s, maxAge, later))
  {
    var d := VerifyPresentation(w.tlsn, s.artifact).value;
    SignExact(w.env.sha, w.key, d, s.url, s.field, s.now, s.ttl, s.nonce);
    forall later: Int64, maxAge: Int64
      ensures ValidateClaim(Outcome(w, s).value.claim, later, maxAge).Ok? <==> InWindow(s, maxAge, later)
    {
      AcceptanceWindow(w.env.sha, w.key, d, s.url, s.field, s.now, s.ttl, s.nonce, later, maxAge);
    }
  }

  /** The two instructions of a submission. */
  predicate IsSubmission(tx: Transaction, signed: SignedClaim, submitter: Bytes32, later: Int64) {
    && Serializable(signed.claim) && |SigningMessage(signed.claim)| < TWO_16 && |signed.signature| == 64
    && tx.now == later && |tx.ixs| == 2
    && tx.ixs[0] == Native(Ed25519.BuildInstruction(signed.verifierPublicKey, SigningMessage(signed.claim), signed.signature))
    && tx.ixs[1] == WebProof(Call(submitter, SUBMIT_DISCRIMINATOR + CanonicalBytes(signed.claim) + signed.claimId))
  }

  lemma {:induction false} SubmissionShape(w: World, signed: SignedClaim, submitter: Bytes32, later: Int64)
    requires WellSigned(w, signed) && |signed.signature| == 64
    ensures var tx := DirectSubmission(w, signed, submitter, later);
            tx.Ok? && IsSubmission(tx.value, signed, submitter, later)
  {
    Client.PairBuilds(w.env, signed.claim, signed.signature, signed.verifierPublicKey, submitter);
  }

  lemma {:induction false} SecondInstruction(env: Env, st: ChainState, ixs: seq<Instruction>, later: Int64)
    requires |ixs| == 2 && ixs[0].Native? && ixs[1].WebProof? && Exec(env, st, ixs, 0, 2, later).Ok?
    ensures Step(env, st, ixs[1].call, ixs, 1, later).Ok?
  {
    assert ExecOne(env, st, ixs, 0, later) == Ok(st);
    assert ExecOne(env, st, ixs, 1, later).Ok?;
    Client.OneCall(env, st, ixs[1].call, ixs, 1, later);
  }

  /** A submission that commits was admitted by every check, on the state it met. */
  lemma {:induction false} CommittedAdmits(w: World, st: ChainState, tx: Transaction, signed: SignedClaim,
      submitter: Bytes32, later: Int64)
    requires IsSubmission(tx, signed, submitter, later) && Committed(w.env, st, tx)
    ensures st.config.Some? && signed.claimId !in st.accounts
    ensures Validated(w.env, st.config.value, signed.claim, signed.claimId, later)
    ensures Vouched(st.config.value, signed.claim, tx.ixs, 1)
  {
    SecondInstruction(w.env, st, tx.ixs, later);
    Client.DispatchReads(signed.claim, signed.claimId);
    SubmitExact(w.env, st, signed.claim, signed.claimId, submitter, tx.ixs, 1, later);
  }

  lemma {:induction false} CommittedReady(w: World, st: ChainState, tx: Transaction, signed: SignedClaim,
      submitter: Bytes32, later: Int64)
    requires IsSubmission(tx, signed, submitter, later) && Committed(w.env, st, tx)
    ensures st.config.Some? && signed.claimId !in st.accounts
    ensures st.config.value.verifierKey == signed.verifierPublicKey
    ensures ValidateClaim(signed.claim, later, st.config.value.maxClaimAge).Ok?
  {
    var c := signed.claim;
    CommittedAdmits(w, st, tx, signed, submitter, later);
    var cfg := st.config.value;
    ValidatorsAgree(c, later, cfg.maxClaimAge);
    ValidateExact(c, later, cfg.maxClaimAge);
    Ed25519.BuiltInstructionReads(signed.verifierPublicKey, SigningMessage(c), signed.signature, []);
    Ed25519.AcceptsOneMessage(tx.ixs[0].data, cfg.verifierKey, SigningMessage(c), signed.verifierPublicKey, SigningMessage(c));
  }

  lemma {:induction false} ReadyCommits(w: World, st: ChainState, tx: Transaction, signed: SignedClaim,
      submitter: Bytes32, later: Int64)
    requires WellSigned(w, signed) && SignatureWorks(w, SigningMessage(signed.claim))
    requires DirectSubmission(w, signed, submitter, later) == Ok(tx)
    requires st.config.Some? && st.config.value.verifierKey == w.key.publicKey && signed.claimId !in st.accounts
    requires ValidateClaim(signed.claim, later, st.config.value.maxClaimAge).Ok?
    ensures Committed(w.env, st, tx)
    ensures Apply(w.env, st, tx) ==
            With(st, signed.claimId, Client.Stored(w.env, signed.claim, signed.claimId, submitter, later))
  {
    SubmissionShape(w, signed, submitter, later);
    Client.PairBuilds(w.env, signed.claim, signed.signature, w.key.publicKey, submitter);
    Client.SubmissionComplete(w.env, st, tx.ixs, 0, later, signed.claim, signed.signature, submitter, signed.claimId, st, st);
  }

  lemma {:induction false} ReadyReads(w: World, st: ChainState, tx: Transaction, signed: SignedClaim,
      submitter: Bytes32, later: Int64)
    requires WellSigned(w, signed) && SignatureWorks(w, SigningMessage(signed.claim))
    requires DirectSubmission(w, signed, submitter, later) == Ok(tx)
    requires st.config.Some? && st.config.value.verifierKey == w.key.publicKey && signed.claimId !in st.accounts
    requires ValidateClaim(signed.claim, later, st.config.value.maxClaimAge).Ok?
    ensures Committed(w.env, st, tx) && signed.claimId in Apply(w.env, st, tx).accounts
    ensures AccountReader.DecodeVerifiedClaim(Apply(w.env, st, tx).accounts[signed.claimId]) ==
            Ok(RecordOf(signed.claim, signed.claimId, submitter, later, w.env.claimBump(signed.claimId)))
  {
    ReadyCommits(w, st, tx, signed, submitter, later);
    Client.StoredReadsBack(w.env, signed.claim, signed.claimId, submitter, later);
  }

  /** `tx` commits on `st` exactly when the chain is ready, and then the claim reads back as signed. */
  ghost predicate Delivers(w: World, s: Signing, st: ChainState, tx: Transaction, submitter: Bytes32, later: Int64)
    requires Outcome(w, s).Ok?
  {
    var signed := Outcome(w, s).value;
    var after := Apply(w.env, st, tx);
    && (Committed(w.env, st, tx) <==> Ready(w, st, s, signed.claimId, later))
    && (Committed(w.env, st, tx) ==>
          && signed.claimId in after.accounts
          && AccountReader.DecodeVerifiedClaim(after.accounts[signed.claimId]) ==
             Ok(RecordOf(signed.claim, signed.claimId, submitter, later, w.env.claimBump(signed.claimId))))
  }

  /**
    Delivery by a caller that holds the signed claim: for every state of the chain, the transaction
    the SDK builds commits exactly when the chain is configured for the signer, does not hold the
    claim yet, and its clock is in the acceptance window; `getClaim` then returns the signed claim,
    the submitter and the time of submission.
    */
  lemma {:induction false} DirectDelivery(w: World, s: Signing, st: ChainState, submitter: Bytes32, later: Int64)
    requires Outcome(w, s).Ok? && Serializable(Outcome(w, s).value.claim)
    requires SignatureWorks(w, SigningMessage(Outcome(w, s).value.claim))
    ensures var tx := DirectSubmission(w, Outcome(w, s).value, submitter, later);
            tx.Ok? && Delivers(w, s, st, tx.value, submitter, later)
  {
    var signed := Outcome(w, s).value;
    SigningFacts(w, s);
    SubmissionShape(w, signed, submitter, later);
    var tx := DirectSubmission(w, signed, submitter, later).value;
    if Committed(w.env, st, tx) {
      CommittedReady(w, st, tx, signed, submitter, later);
    }
    if Ready(w, st, s, signed.claimId, later) {
      ReadyReads(w, st, tx, signed, submitter, later);
    }
  }

  /**
    Delivery by way of `signed-claim.json`, the channel between signer and SDK. A signed claim gets
    through the file exactly when the signing time and the expiry survive as JavaScript numbers; the
    transaction then built commits exactly when the chain is ready, and reads back as signed.
    */
  lemma {:induction false} SignedClaimDelivers(w: World, s: Signing, st: ChainState, submitter: Bytes32, later: Int64)
    requires Outcome(w, s).Ok? && Serializable(Outcome(w, s).value.claim)
    requires SignatureWorks(w, SigningMessage(Outcome(w, s).value.claim))
    requires SignedFile.RereadDoesNotCollide(w.env.sha, Outcome(w, s).value)
    ensures var tx := FileSubmission(w, Outcome(w, s).value, submitter, later);
            && (tx.Ok? <==> Doubles.Representable(s.now) && Doubles.Representable(SaturatingAdd(s.now, s.ttl)))
            && (tx.Ok? ==> Delivers(w, s, st, tx.value, submitter, later))
  {
    var signed := Outcome(w, s).value;
    SigningFacts(w, s);
    SignedFile.NoSilentSubstitution(w.env.sha, signed);
    FileIsDirect(w, signed, submitter, later);
    DirectDelivery(w, s, st, submitter, later);
  }

  lemma {:induction false} FileIsDirect(w: World, signed: SignedClaim, submitter: Bytes32, later: Int64)
    requires var r := SignedFile.ParseSignedClaim(w.env.sha, SignedFile.FileOf(signed));
             r.Ok? ==> r.value == SignedFile.ParsedClaim(FromCore(signed.claim), signed.signature, signed.verifierPublicKey, signed.claimId)
    ensures var r := SignedFile.ParseSignedClaim(w.env.sha, SignedFile.FileOf(signed));
            && (r.Ok? ==> FileSubmission(w, signed, submitter, later) == DirectSubmission(w, signed, submitter, later))
            && (r.Err? ==> FileSubmission(w, signed, submitter, later).Err?)
  {
  }

  /**
    Nobody can squat an id. If a reachable chain already holds the id of a signed claim, then, unless
    SHA-256 collides on the claim stored there and the signed one, what is stored is the signed
    claim's own record.
    */
  lemma {:induction false} IdNotSquatted(w: World, s: Signing, txs: seq<Transaction>) returns (b: Birth)
    requires Outcome(w, s).Ok? && Outcome(w, s).value.claimId in Run(w.env, txs).accounts
    ensures var signed := Outcome(w, s).value;
            && Born(w.env, txs, b, signed.claimId) && Serializable(b.origin.claim) && Serializable(signed.claim)
            && (SignedFile.NoCollision(w.env.sha, CanonicalBytes(b.origin.claim), CanonicalBytes(signed.claim)) ==>
                  AccountReader.DecodeVerifiedClaim(Run(w.env, txs).accounts[signed.claimId]) ==
                  Ok(RecordOf(signed.claim, signed.claimId, b.origin.call.signer, txs[b.tx].now, w.env.claimBump(signed.claimId))))
  {
    var signed := Outcome(w, s).value;
    SigningFacts(w, s);
    b := Client.EveryAccountReads(w.env, txs, signed.claimId);
    if CanonicalBytes(b.origin.claim) == CanonicalBytes(signed.claim) {
      CanonicalInjective(b.origin.claim, signed.claim);
    }
  }

  // ---- An honest history -------------------------------------------------------------------

  function InitTx(w: World, authority: Bytes32, maxAge: Int64, start: Int64): Transaction {
    Transaction([Client.InitializeConfigInstruction(w.key.publicKey, maxAge, authority)], start)
  }

  lemma {:induction false} InitRuns(w: World, authority: Bytes32, maxAge: Int64, start: Int64)
    requires maxAge > 0
    ensures Apply(w.env, EMPTY, InitTx(w, authority, maxAge, start)) ==
            ChainState(Some(Config(authority, w.key.publicKey, maxAge, w.env.configBump)), map[])
  {
    var tx := InitTx(w, authority, maxAge, start);
    Client.InitReads(w.key.publicKey, maxAge);
    Client.OneCall(w.env, EMPTY, tx.ixs[0].call, tx.ixs, 0, start);
    var done := ChainState(Some(Config(authority, w.key.publicKey, maxAge, w.env.configBump)), map[]);
    assert ExecOne(w.env, EMPTY, tx.ixs, 0, start) == Ok(done);
    assert Exec(w.env, done, tx.ixs, 1, 1, start) == Ok(done);
  }

  lemma {:induction false} SigningLogged(w: World, s: Signing, signed: SignedClaim, events: seq<Event>)
    requires Outcome(w, s) == Ok(signed) && Serializable(signed.claim) && Sign(s) in events
    ensures WasSigned(w, events, SigningMessage(signed.claim))
  {
    var i :| 0 <= i < |events| && events[i] == Sign(s);
    assert SignedMessage(w, events[i].request) == Some(SigningMessage(signed.claim));
  }

  lemma {:induction false} OwnSubmissionUnforged(w: World, tx: Transaction, signed: SignedClaim,
      submitter: Bytes32, later: Int64, events: seq<Event>)
    requires IsSubmission(tx, signed, submitter, later) && WasSigned(w, events, SigningMessage(signed.claim))
    ensures NoForgeryIn(w, events, tx)
  {
    var c := signed.claim;
    Ed25519.BuiltInstructionReads(signed.verifierPublicKey, SigningMessage(c), signed.signature, Datas(tx.ixs));
    OneCheckUnforged(w, events, tx, Ed25519.Check(signed.verifierPublicKey, SigningMessage(c), signed.signature));
  }

  lemma {:induction false} OneCheckUnforged(w: World, events: seq<Event>, tx: Transaction, only: Ed25519.Check)
    requires |tx.ixs| == 2 && tx.ixs[0].Native? && tx.ixs[1].WebProof?
    requires Ed25519.NativeChecks(tx.ixs[0].data, Datas(tx.ixs)) == Some([only])
    requires WasSigned(w, events, only.message)
    ensures NoForgeryIn(w, events, tx)
  {
    forall i: nat, check | Performs(tx, i, check)
      ensures check == only
    {
      PerformsOnly(tx, i, check, only);
    }
  }

  lemma {:induction false} PerformsOnly(tx: Transaction, i: nat, check: Ed25519.Check, only: Ed25519.Check)
    requires |tx.ixs| == 2 && tx.ixs[1].WebProof? && Performs(tx, i, check)
    requires tx.ixs[0].Native? && Ed25519.NativeChecks(tx.ixs[0].data, Datas(tx.ixs)) == Some([only])
    ensures check == only
  {
    assert i == 0;
    Sole(Ed25519.NativeChecks(tx.ixs[i].data, Datas(tx.ixs)), check, only);
  }

  lemma {:induction false} Sole(cs: Option<seq<Ed25519.Check>>, check: Ed25519.Check, only: Ed25519.Check)
    requires cs == Some([only]) && check in cs.value
    ensures check == only
  {
  }

  lemma {:induction false} ThreeUnforged(w: World, init: Transaction, s: Signing, tx: Transaction)
    requires forall i :: 0 <= i < |init.ixs| ==> !init.ixs[i].Native?
    requires NoForgeryIn(w, [Submit(init), Sign(s)], tx)
    ensures Unforged(w, [Submit(init), Sign(s), Submit(tx)])
  {
    var events := [Submit(init), Sign(s), Submit(tx)];
    assert events[..2] == [Submit(init), Sign(s)];
    forall k | 0 <= k < |events| && events[k].Submit?
      ensures NoForgeryIn(w, events[..k], events[k].tx)
    {
      assert k == 0 || k == 2;
    }
  }

  /** Signing after configuring, then submitting, forges nothing. */
  lemma {:induction false} HonestUnforged(w: World, s: Signing, init: Transaction, tx: Transaction,
      submitter: Bytes32, later: Int64)
    requires forall i :: 0 <= i < |init.ixs| ==> !init.ixs[i].Native?
    requires Outcome(w, s).Ok? && IsSubmission(tx, Outcome(w, s).value, submitter, later)
    ensures Unforged(w, [Submit(init), Sign(s), Submit(tx)])
  {
    var signed := Outcome(w, s).value;
    SigningLogged(w, s, signed, [Submit(init), Sign(s)]);
    OwnSubmissionUnforged(w, tx, signed, submitter, later, [Submit(init), Sign(s)]);
    ThreeUnforged(w, init, s, tx);
  }

  /**
    The hypotheses of provenance are met by honest use: configuring the signer's key, signing and
    submitting in time is an unforged history after which the claim is stored.
    */
  lemma {:induction false} HonestHistory(w: World, s: Signing, authority: Bytes32, submitter: Bytes32,
      maxAge: Int64, start: Int64, later: Int64)
    returns (events: seq<Event>)
    requires Outcome(w, s).Ok? && Serializable(Outcome(w, s).value.claim)
    requires SignatureWorks(w, SigningMessage(Outcome(w, s).value.claim))
    requires maxAge > 0 && InWindow(s, maxAge, later)
    ensures Unforged(w, events) && Sign(s) in events
    ensures var st := Chain(w, events);
            && st.config.Some? && st.config.value.verifierKey == w.key.publicKey
            && Outcome(w, s).value.claimId in st.accounts
  {
    var signed := Outcome(w, s).value;
    SigningFacts(w, s);
    SubmissionShape(w, signed, submitter, later);
    var init, tx := InitTx(w, authority, maxAge, start), DirectSubmission(w, signed, submitter, later).value;
    events := [Submit(init), Sign(s), Submit(tx)];
    HonestUnforged(w, s, init, tx, submitter, later);
    ThreeEvents(w, init, s, tx);
    InitRuns(w, authority, maxAge, start);
    ReadyCommits(w, Apply(w.env, EMPTY, init), tx, signed, submitter, later);
  }

  lemma {:induction false} ThreeEvents(w: World, init: Transaction, s: Signing, tx: Transaction)
    ensures Chain(w, [Submit(init), Sign(s), Submit(tx)]) == Apply(w.env, Apply(w.env, EMPTY, init), tx)
  {
    var one, two := [Submit(init)], [Submit(init), Sign(s)];
    var events := [Submit(init), Sign(s), Submit(tx)];
    assert one[..0] == [] && two[..1] == one && events[..2] == two;
    assert Txs(one) == [] + [init];
    assert Txs(two) == [init] + [];
    assert Txs(events) == [init] + [tx];
    RunSnoc(w.env, [], init);
    RunSnoc(w.env, [init], tx);
    assert [] + [init] == [init] + [];
  }
}
