/** What holds of every run of the program: invariants, append-only history, provenance of accounts. */
module History {
  import opened Bytes
  import opened Core
  import opened Records
  import opened Program
  import Ed25519

  /** The state after a list of transactions, failed ones included. */
  function Run(env: Env, txs: seq<Transaction>): ChainState {
    if txs == [] then EMPTY else Apply(env, Run(env, txs[..|txs| - 1]), txs[|txs| - 1])
  }

  lemma {:induction false} RunSnoc(env: Env, txs: seq<Transaction>, tx: Transaction)
    ensures Run(env, txs + [tx]) == Apply(env, Run(env, txs), tx)
  {
    assert (txs + [tx])[..|txs|] == txs;
  }

  predicate Committed(env: Env, st: ChainState, tx: Transaction) {
    Exec(env, st, tx.ixs, 0, |tx.ixs|, tx.now).Ok?
  }

  function With(st: ChainState, id: Bytes32, data: ByteSeq): ChainState {
    st.(accounts := st.accounts[id := data])
  }

  // ---- Justified growth --------------------------------------------------------------------

  /** Nothing is altered or removed. */
  ghost predicate Grows(a: ChainState, b: ChainState) {
    && (a.config.Some? ==> b.config == a.config)
    && (forall id :: id in a.accounts ==> id in b.accounts && b.accounts[id] == a.accounts[id])
  }

  /** A submission: the call, the claim it carries, and the top-level instruction it ran under. */
  datatype Origin = Origin(call: Call, claim: ClaimV1, at: nat)

  /** `o` is a call of these instructions, passes every check of `submit_claim` and produces exactly `data` at `id`. */
  ghost predicate Admitted(env: Env, cfg: Config, ixs: seq<Instruction>, now: Int64, o: Origin, id: Bytes32,
      data: ByteSeq)
  {
    var r := RecordOf(o.claim, id, o.call.signer, now, env.claimBump(id));
    && o.at < |ixs| && o.call in ixs[o.at].Calls()
    && ParseArgs(o.call.data) == Ok(SubmitClaim(o.claim, id))
    && Validated(env, cfg, o.claim, id, now)
    && Vouched(cfg, o.claim, ixs, o.at)
    && RecordSerializable(r)
    && |RecordBytes(r)| <= ACCOUNT_SPACE
    && data == AccountData(r)
  }

  ghost predicate Explained(env: Env, st: ChainState, ixs: seq<Instruction>, now: Int64, id: Bytes32)
    requires id in st.accounts
  {
    st.config.Some? && exists o :: Admitted(env, st.config.value, ixs, now, o, id, st.accounts[id])
  }

  /** `b` grows from `a`, only by explained accounts, and a config that appears is a sound one. */
  ghost predicate Justified(env: Env, a: ChainState, b: ChainState, ixs: seq<Instruction>, now: Int64) {
    && Grows(a, b)
    && (b.config.Some? && a.config.None? ==> b.config.value.maxClaimAge > 0)
    && (forall id :: id in b.accounts && id !in a.accounts ==> Explained(env, b, ixs, now, id))
  }

  lemma {:induction false} StepJustified(env: Env, st: ChainState, call: Call, ixs: seq<Instruction>, at: nat,
      now: Int64)
    requires at < |ixs| && call in ixs[at].Calls() && Step(env, st, call, ixs, at, now).Ok?
    ensures Justified(env, st, Step(env, st, call, ixs, at, now).value, ixs, now)
  {
    var next := Step(env, st, call, ixs, at, now).value;
    match ParseArgs(call.data).value
    case InitializeConfig(_, _) =>
    case SubmitClaim(c, id) =>
      SubmitExact(env, st, c, id, call.signer, ixs, at, now);
      assert Admitted(env, next.config.value, ixs, now, Origin(call, c, at), id, next.accounts[id]);
  }

  lemma {:induction false} JustifiedTrans(env: Env, a: ChainState, b: ChainState, c: ChainState,
      ixs: seq<Instruction>, now: Int64)
    requires Justified(env, a, b, ixs, now) && Justified(env, b, c, ixs, now)
    ensures Justified(env, a, c, ixs, now)
  {
    forall id | id in c.accounts && id !in a.accounts
      ensures Explained(env, c, ixs, now, id)
    {
      if id in b.accounts {
        assert Explained(env, b, ixs, now, id);
      }
    }
  }

  lemma {:induction false} StepsJustified(env: Env, st: ChainState, calls: seq<Call>, ixs: seq<Instruction>,
      at: nat, now: Int64)
    requires at < |ixs| && Steps(env, st, calls, ixs, at, now).Ok?
    requires forall call :: call in calls ==> call in ixs[at].Calls()
    ensures Justified(env, st, Steps(env, st, calls, ixs, at, now).value, ixs, now)
    decreases |calls|
  {
    if calls != [] {
      var next := Step(env, st, calls[0], ixs, at, now).value;
      StepJustified(env, st, calls[0], ixs, at, now);
      StepsJustified(env, next, calls[1..], ixs, at, now);
      JustifiedTrans(env, st, next, Steps(env, st, calls, ixs, at, now).value, ixs, now);
    }
  }

  lemma {:induction false} ExecJustified(env: Env, st: ChainState, ixs: seq<Instruction>, from: nat, to: nat,
      now: Int64)
    requires from <= to <= |ixs| && Exec(env, st, ixs, from, to, now).Ok?
    ensures Justified(env, st, Exec(env, st, ixs, from, to, now).value, ixs, now)
    decreases |ixs| - from
  {
    if from < to {
      var next := ExecOne(env, st, ixs, from, now).value;
      StepsJustified(env, st, ixs[from].Calls(), ixs, from, now);
      ExecJustified(env, next, ixs, from + 1, to, now);
      JustifiedTrans(env, st, next, Exec(env, st, ixs, from, to, now).value, ixs, now);
    }
  }

  lemma {:induction false} NativesPass(env: Env, st: ChainState, ixs: seq<Instruction>, from: nat, to: nat,
      now: Int64, i: nat)
    requires from <= i < to <= |ixs| && Exec(env, st, ixs, from, to, now).Ok? && ixs[i].Native?
    ensures Ed25519.NativeAccepts(env.ed, ixs[i].data, Datas(ixs))
    decreases |ixs| - from
  {
    if from < i {
      NativesPass(env, ExecOne(env, st, ixs, from, now).value, ixs, from + 1, to, now, i);
    }
  }

  lemma {:induction false} ApplyJustified(env: Env, st: ChainState, tx: Transaction)
    ensures Justified(env, st, Apply(env, st, tx), tx.ixs, tx.now)
  {
    if Committed(env, st, tx) {
      ExecJustified(env, st, tx.ixs, 0, |tx.ixs|, tx.now);
    }
  }

  // ---- Append-only history -----------------------------------------------------------------

  /** Every account and the config, once there, stay as they are through the rest of the run. */
  lemma {:induction false} AppendOnly(env: Env, txs: seq<Transaction>, k: nat)
    requires k <= |txs|
    ensures Grows(Run(env, txs[..k]), Run(env, txs))
  {
    if k == |txs| {
      assert txs[..k] == txs;
    } else {
      var n := |txs| - 1;
      AppendOnly(env, txs[..n], k);
      assert txs[..n][..k] == txs[..k];
      ApplyJustified(env, Run(env, txs[..n]), txs[n]);
    }
  }

  /** Nothing is stored without a config, and the configured maximum age is positive. */
  lemma {:induction false} ConfigInvariant(env: Env, txs: seq<Transaction>)
    ensures var st := Run(env, txs);
            && (st.config.None? ==> st.accounts == map[])
            && (st.config.Some? ==> st.config.value.maxClaimAge > 0)
  {
    if txs != [] {
      var n := |txs| - 1;
      ConfigInvariant(env, txs[..n]);
      ApplyJustified(env, Run(env, txs[..n]), txs[n]);
    }
  }

  // ---- Where accounts come from ------------------------------------------------------------

  /** Transaction `tx` of the run, and the submission in it. */
  datatype Birth = Birth(tx: nat, origin: Origin)

  /** The account at `id` appears with transaction `k` of the run, which committed. */
  ghost predicate AppearsAt(env: Env, txs: seq<Transaction>, k: nat, id: Bytes32) {
    && k < |txs|
    && Committed(env, Run(env, txs[..k]), txs[k])
    && id !in Run(env, txs[..k]).accounts
    && id in Run(env, txs[..k + 1]).accounts
  }

  /**
    The account at `id` was created by submission `b.origin` of transaction `b.tx`; the Ed25519
    instruction it relied on passed natively.
    */
  ghost predicate Born(env: Env, txs: seq<Transaction>, b: Birth, id: Bytes32) {
    var st := Run(env, txs);
    && st.config.Some?
    && id in st.accounts
    && AppearsAt(env, txs, b.tx, id)
    && Verified(env, st.config.value, txs[b.tx], b.origin, id, st.accounts[id])
  }

  ghost predicate Verified(env: Env, cfg: Config, tx: Transaction, o: Origin, id: Bytes32, data: ByteSeq) {
    Admitted(env, cfg, tx.ixs, tx.now, o, id, data) && PassedNatively(env, tx, o.at)
  }

  /** The instruction before `at` is an Ed25519 one, and the native program accepted it. */
  predicate PassedNatively(env: Env, tx: Transaction, at: nat) {
    0 < at <= |tx.ixs| && tx.ixs[at - 1].Native? && Ed25519.NativeAccepts(env.ed, tx.ixs[at - 1].data, Datas(tx.ixs))
  }

  /** Data of the instruction before the submission. */
  function VouchedBy(txs: seq<Transaction>, b: Birth): ByteSeq
    requires b.tx < |txs| && 0 < b.origin.at < |txs[b.tx].ixs|
  {
    txs[b.tx].ixs[b.origin.at - 1].Data()
  }

  lemma {:induction false} PickOrigin(env: Env, st: ChainState, ixs: seq<Instruction>, now: Int64, id: Bytes32)
    returns (o: Origin)
    requires id in st.accounts && Explained(env, st, ixs, now, id)
    ensures Admitted(env, st.config.value, ixs, now, o, id, st.accounts[id])
    ensures 0 < o.at < |ixs| && ixs[o.at - 1].Native?
  {
    o :| Admitted(env, st.config.value, ixs, now, o, id, st.accounts[id]);
  }

  lemma {:induction false} NewAccountExplained(env: Env, st: ChainState, tx: Transaction, id: Bytes32)
    requires id in Apply(env, st, tx).accounts && id !in st.accounts
    ensures Committed(env, st, tx) && Explained(env, Apply(env, st, tx), tx.ixs, tx.now, id)
  {
    ApplyJustified(env, st, tx);
  }

  lemma {:induction false} CommittedNative(env: Env, st: ChainState, tx: Transaction, at: nat)
    requires Committed(env, st, tx) && 0 < at <= |tx.ixs| && tx.ixs[at - 1].Native?
    ensures PassedNatively(env, tx, at)
  {
    NativesPass(env, st, tx.ixs, 0, |tx.ixs|, tx.now, at - 1);
  }

  lemma {:induction false} PickVerified(env: Env, st: ChainState, next: ChainState, tx: Transaction,
      id: Bytes32)
    returns (o: Origin)
    requires id in next.accounts && Explained(env, next, tx.ixs, tx.now, id) && Committed(env, st, tx)
    ensures Verified(env, next.config.value, tx, o, id, next.accounts[id])
  {
    o := PickOrigin(env, next, tx.ixs, tx.now, id);
    CommittedNative(env, st, tx, o.at);
  }

  lemma {:induction false} AppearsLast(env: Env, txs: seq<Transaction>, id: Bytes32)
    requires txs != [] && id in Run(env, txs).accounts && id !in Run(env, txs[..|txs| - 1]).accounts
    ensures AppearsAt(env, txs, |txs| - 1, id)
    ensures Explained(env, Run(env, txs), txs[|txs| - 1].ixs, txs[|txs| - 1].now, id)
  {
    var n := |txs| - 1;
    NewAccountExplained(env, Run(env, txs[..n]), txs[n], id);
    assert txs[..n + 1] == txs;
  }

  lemma {:induction false} BornNow(env: Env, txs: seq<Transaction>, id: Bytes32) returns (b: Birth)
    requires txs != [] && id in Run(env, txs).accounts && id !in Run(env, txs[..|txs| - 1]).accounts
    ensures Born(env, txs, b, id)
  {
    var n := |txs| - 1;
    AppearsLast(env, txs, id);
    var o := PickVerified(env, Run(env, txs[..n]), Run(env, txs), txs[n], id);
    b := Birth(n, o);
  }

  lemma {:induction false} AppearsEarlier(env: Env, txs: seq<Transaction>, k: nat, id: Bytes32, n: nat)
    requires n <= |txs| && AppearsAt(env, txs[..n], k, id)
    ensures AppearsAt(env, txs, k, id)
  {
    assert txs[..n][..k] == txs[..k] && txs[..n][..k + 1] == txs[..k + 1];
  }

  lemma {:induction false} BornEarlier(env: Env, txs: seq<Transaction>, id: Bytes32, b: Birth)
    requires txs != [] && Born(env, txs[..|txs| - 1], b, id)
    ensures Born(env, txs, b, id)
  {
    var n := |txs| - 1;
    AppearsEarlier(env, txs, b.tx, id, n);
    AppendOnly(env, txs, n);
  }

  /** Every stored account of every reachable state has a birth. */
  lemma {:induction false} EveryAccountIsBorn(env: Env, txs: seq<Transaction>, id: Bytes32) returns (b: Birth)
    requires id in Run(env, txs).accounts
    ensures Born(env, txs, b, id)
  {
    var n := |txs| - 1;
    if id in Run(env, txs[..n]).accounts {
      b := EveryAccountIsBorn(env, txs[..n], id);
      BornEarlier(env, txs, id, b);
    } else {
      b := BornNow(env, txs, id);
    }
  }

  lemma {:induction false} BornStays(env: Env, txs: seq<Transaction>, t: nat, id: Bytes32, k: nat)
    requires AppearsAt(env, txs, t, id) && t < k <= |txs|
    ensures id in Run(env, txs[..k]).accounts
  {
    AppendOnly(env, txs[..k], t + 1);
    assert txs[..k][..t + 1] == txs[..t + 1];
  }

  /** And it appears in one transaction only. */
  lemma {:induction false} BornOnce(env: Env, txs: seq<Transaction>, j: nat, k: nat, id: Bytes32)
    requires AppearsAt(env, txs, j, id) && AppearsAt(env, txs, k, id)
    ensures j == k
  {
    if j < k {
      BornStays(env, txs, j, id, k);
    } else if k < j {
      BornStays(env, txs, k, id, j);
    }
  }

  /**
    The invariant of reachable states: each account sits at its own id, holds exactly the record
    of a claim hashing to that id, and was created at a time at which that claim validated, hence
    inside its window or, with a maximal maximum age, past an age that saturates.
    */
  lemma {:induction false} ReachableInvariant(env: Env, txs: seq<Transaction>, id: Bytes32)
    returns (c: ClaimV1, r: VerifiedClaim)
    requires id in Run(env, txs).accounts
    ensures var st := Run(env, txs);
            && st.config.Some?
            && RecordSerializable(r) && |RecordBytes(r)| <= ACCOUNT_SPACE
            && st.accounts[id] == AccountData(r)
            && r.claimId == id
            && WellSized(c) && id == env.sha(CanonicalBytes(c))
            && r == RecordOf(c, id, r.submittedBy, r.createdAt, env.claimBump(id))
            && Validate(c, r.createdAt, st.config.value.maxClaimAge).Ok?
            && r.issuedAt < r.expiresAt
            && r.issuedAt - 30 <= r.createdAt <= r.expiresAt
            && (r.createdAt - r.issuedAt <= st.config.value.maxClaimAge || AgeSaturates(c, r.createdAt, st.config.value.maxClaimAge))
  {
    var b := EveryAccountIsBorn(env, txs, id);
    c := b.origin.claim;
    r := RecordOf(c, id, b.origin.call.signer, txs[b.tx].now, env.claimBump(id));
    ValidateExact(c, r.createdAt, Run(env, txs).config.value.maxClaimAge);
  }

  lemma {:induction false} SameInstructionSameClaim(d: ByteSeq, key: Bytes32, c1: ClaimV1, c2: ClaimV1)
    requires Serializable(c1) && Serializable(c2)
    requires Ed25519.VerifyPreceding(d, key, SigningMessage(c1)).Ok?
    requires Ed25519.VerifyPreceding(d, key, SigningMessage(c2)).Ok?
    ensures c1 == c2
  {
    Ed25519.AcceptsOneMessage(d, key, SigningMessage(c1), key, SigningMessage(c2));
    SigningMessageInjective(c1, c2);
  }

  lemma {:induction false} BornVouched(env: Env, txs: seq<Transaction>, b: Birth, id: Bytes32)
    requires Born(env, txs, b, id)
    ensures Run(env, txs).config.Some? && Serializable(b.origin.claim) && AppearsAt(env, txs, b.tx, id)
    ensures b.tx < |txs| && 0 < b.origin.at < |txs[b.tx].ixs|
    ensures Ed25519.VerifyPreceding(VouchedBy(txs, b), Run(env, txs).config.value.verifierKey, SigningMessage(b.origin.claim)).Ok?
    ensures id == env.sha(CanonicalBytes(b.origin.claim))
  {
  }

  /** Two submissions that relied on equal Ed25519 instructions carried the same claim. */
  lemma {:induction false} OneInstructionOneClaim(env: Env, txs: seq<Transaction>, b1: Birth, id1: Bytes32,
      b2: Birth, id2: Bytes32)
    requires Born(env, txs, b1, id1) && Born(env, txs, b2, id2)
    requires VouchedBy(txs, b1) == VouchedBy(txs, b2)
    ensures b1.origin.claim == b2.origin.claim && id1 == id2 && b1.tx == b2.tx
  {
    BornVouched(env, txs, b1, id1);
    BornVouched(env, txs, b2, id2);
    SameInstructionSameClaim(VouchedBy(txs, b1), Run(env, txs).config.value.verifierKey, b1.origin.claim, b2.origin.claim);
    BornOnce(env, txs, b1.tx, b2.tx, id1);
  }

  // ---- One account per accepted submission -------------------------------------------------

  /** Ids of the submissions among a list of calls. */
  function CallIds(calls: seq<Call>): seq<Bytes32> {
    if calls == [] then [] else CallId(calls[0]) + CallIds(calls[1..])
  }

  function CallId(call: Call): seq<Bytes32> {
    match ParseArgs(call.data)
    case Ok(SubmitClaim(_, id)) => [id]
    case _ => []
  }

  function ExecIds(ixs: seq<Instruction>, from: nat, to: nat): seq<Bytes32>
    requires from <= to <= |ixs|
    decreases |ixs| - from
  {
    if from == to then [] else CallIds(ixs[from].Calls()) + ExecIds(ixs, from + 1, to)
  }

  /** Ids accepted over a run: those submitted in its committed transactions, in order. */
  function AcceptedIds(env: Env, txs: seq<Transaction>): seq<Bytes32> {
    if txs == [] then []
    else
      var n := |txs| - 1;
      AcceptedIds(env, txs[..n]) +
      if Committed(env, Run(env, txs[..n]), txs[n]) then ExecIds(txs[n].ixs, 0, |txs[n].ixs|) else []
  }

  function Elems(ids: seq<Bytes32>): set<Bytes32> {
    set id | id in ids
  }

  predicate Distinct(ids: seq<Bytes32>) {
    forall i, j :: 0 <= i < j < |ids| ==> ids[i] != ids[j]
  }

  /** `ids` lists the stored claims, each once. */
  predicate Lists(st: ChainState, ids: seq<Bytes32>) {
    st.accounts.Keys == Elems(ids) && Distinct(ids)
  }

  lemma {:induction false} ListsSnoc(st: ChainState, ids: seq<Bytes32>, id: Bytes32, data: ByteSeq)
    requires Lists(st, ids) && id !in st.accounts
    ensures Lists(With(st, id, data), ids + [id])
  {
    assert Elems(ids + [id]) == Elems(ids) + {id};
    assert With(st, id, data).accounts.Keys == st.accounts.Keys + {id};
  }

  lemma {:induction false} StepLists(env: Env, st: ChainState, call: Call, ixs: seq<Instruction>, at: nat,
      now: Int64, ids: seq<Bytes32>)
    requires at < |ixs| && Step(env, st, call, ixs, at, now).Ok? && Lists(st, ids)
    ensures Lists(Step(env, st, call, ixs, at, now).value, ids + CallId(call))
  {
    match ParseArgs(call.data).value
    case InitializeConfig(_, _) => assert ids + [] == ids;
    case SubmitClaim(c, id) =>
      ListsSnoc(st, ids, id, SubmitVerdict(env, st, c, id, call.signer, ixs, at, now).value);
  }

  lemma {:induction false} Assoc(a: seq<Bytes32>, b: seq<Bytes32>, c: seq<Bytes32>)
    ensures (a + b) + c == a + (b + c)
  {
  }

  lemma {:induction false} StepsLists(env: Env, st: ChainState, calls: seq<Call>, ixs: seq<Instruction>,
      at: nat, now: Int64, ids: seq<Bytes32>)
    requires at < |ixs| && Steps(env, st, calls, ixs, at, now).Ok? && Lists(st, ids)
    ensures Lists(Steps(env, st, calls, ixs, at, now).value, ids + CallIds(calls))
    decreases |calls|
  {
    if calls == [] {
      assert ids + [] == ids;
    } else {
      StepLists(env, st, calls[0], ixs, at, now, ids);
      StepsLists(env, Step(env, st, calls[0], ixs, at, now).value, calls[1..], ixs, at, now, ids + CallId(calls[0]));
      Assoc(ids, CallId(calls[0]), CallIds(calls[1..]));
    }
  }

  lemma {:induction false} ExecOneLists(env: Env, st: ChainState, ixs: seq<Instruction>, at: nat, now: Int64,
      ids: seq<Bytes32>)
    requires at < |ixs| && ExecOne(env, st, ixs, at, now).Ok? && Lists(st, ids)
    ensures Lists(ExecOne(env, st, ixs, at, now).value, ids + CallIds(ixs[at].Calls()))
  {
    StepsLists(env, st, ixs[at].Calls(), ixs, at, now, ids);
  }

  lemma {:induction false} ListsRegrouped(st: ChainState, a: seq<Bytes32>, b: seq<Bytes32>, c: seq<Bytes32>)
    requires Lists(st, (a + b) + c)
    ensures Lists(st, a + (b + c))
  {
    Assoc(a, b, c);
  }

  lemma {:induction false} ExecLists(env: Env, st: ChainState, ixs: seq<Instruction>, from: nat, to: nat,
      now: Int64, ids: seq<Bytes32>, end: ChainState)
    requires from <= to <= |ixs| && Exec(env, st, ixs, from, to, now) == Ok(end) && Lists(st, ids)
    ensures Lists(end, ids + ExecIds(ixs, from, to))
    decreases |ixs| - from
  {
    if from == to {
      assert ids + [] == ids;
    } else {
      var next, created := ExecOne(env, st, ixs, from, now).value, CallIds(ixs[from].Calls());
      ExecOneLists(env, st, ixs, from, now, ids);
      ExecLists(env, next, ixs, from + 1, to, now, ids + created, end);
      ListsRegrouped(end, ids, created, ExecIds(ixs, from + 1, to));
    }
  }

  lemma {:induction false} DistinctCount(ids: seq<Bytes32>)
    requires Distinct(ids)
    ensures |Elems(ids)| == |ids|
  {
    if ids != [] {
      var n := |ids| - 1;
      DistinctCount(ids[..n]);
      assert ids == ids[..n] + [ids[n]];
      assert Elems(ids) == Elems(ids[..n]) + {ids[n]};
    }
  }

  /** Stored accounts and accepted submissions correspond one to one: as many of each, no id twice. */
  lemma {:induction false} OneAccountPerSubmission(env: Env, txs: seq<Transaction>)
    ensures var ids := AcceptedIds(env, txs);
            Lists(Run(env, txs), ids) && |Run(env, txs).accounts| == |ids|
  {
    RunLists(env, txs);
    DistinctCount(AcceptedIds(env, txs));
    assert |Run(env, txs).accounts.Keys| == |Run(env, txs).accounts|;
  }

  lemma {:induction false} RunLists(env: Env, txs: seq<Transaction>)
    ensures Lists(Run(env, txs), AcceptedIds(env, txs))
  {
    if txs != [] {
      var n := |txs| - 1;
      var before := Run(env, txs[..n]);
      var ids := AcceptedIds(env, txs[..n]);
      RunLists(env, txs[..n]);
      if Committed(env, before, txs[n]) {
        ExecLists(env, before, txs[n].ixs, 0, |txs[n].ixs|, txs[n].now, ids, Run(env, txs));
      } else {
        assert ids + [] == ids;
      }
    }
  }

  // ---- Independence ------------------------------------------------------------------------

  lemma {:induction false} SubmitFrame(env: Env, st: ChainState, c: ClaimV1, other: Bytes32, submitter: Bytes32,
      ixs: seq<Instruction>, at: nat, now: Int64, id: Bytes32, data: ByteSeq)
    requires at < |ixs| && other != id
    ensures SubmitVerdict(env, With(st, id, data), c, other, submitter, ixs, at, now) ==
            SubmitVerdict(env, st, c, other, submitter, ixs, at, now)
  {
  }

  lemma {:induction false} WithCommutes(st: ChainState, id: Bytes32, data: ByteSeq, other: Bytes32, written: ByteSeq)
    requires id != other
    ensures With(With(st, id, data), other, written) == With(With(st, other, written), id, data)
  {
    assert st.accounts[id := data][other := written] == st.accounts[other := written][id := data];
  }

  lemma {:induction false} StepFrame(env: Env, st: ChainState, call: Call, ixs: seq<Instruction>, at: nat,
      now: Int64, id: Bytes32, data: ByteSeq)
    requires at < |ixs| && Step(env, st, call, ixs, at, now).Ok? && id !in CallId(call)
    ensures Step(env, With(st, id, data), call, ixs, at, now) == Ok(With(Step(env, st, call, ixs, at, now).value, id, data))
  {
    match ParseArgs(call.data).value
    case InitializeConfig(_, _) =>
    case SubmitClaim(c, other) =>
      assert other in CallId(call);
      SubmitFrame(env, st, c, other, call.signer, ixs, at, now, id, data);
      WithCommutes(st, id, data, other, SubmitVerdict(env, st, c, other, call.signer, ixs, at, now).value);
  }

  lemma {:induction false} StepsFrame(env: Env, st: ChainState, calls: seq<Call>, ixs: seq<Instruction>,
      at: nat, now: Int64, id: Bytes32, data: ByteSeq)
    requires at < |ixs| && Steps(env, st, calls, ixs, at, now).Ok? && id !in CallIds(calls)
    ensures Steps(env, With(st, id, data), calls, ixs, at, now) == Ok(With(Steps(env, st, calls, ixs, at, now).value, id, data))
    decreases |calls|
  {
    if calls != [] {
      StepFrame(env, st, calls[0], ixs, at, now, id, data);
      StepsFrame(env, Step(env, st, calls[0], ixs, at, now).value, calls[1..], ixs, at, now, id, data);
    }
  }

  lemma {:induction false} ExecOneFrame(env: Env, st: ChainState, ixs: seq<Instruction>, at: nat, now: Int64,
      id: Bytes32, data: ByteSeq)
    requires at < |ixs| && ExecOne(env, st, ixs, at, now).Ok? && id !in CallIds(ixs[at].Calls())
    ensures ExecOne(env, With(st, id, data), ixs, at, now) == Ok(With(ExecOne(env, st, ixs, at, now).value, id, data))
  {
    StepsFrame(env, st, ixs[at].Calls(), ixs, at, now, id, data);
  }

  /** Instructions that do not submit `id` neither notice nor disturb an account stored there. */
  lemma {:induction false} ExecFrame(env: Env, st: ChainState, ixs: seq<Instruction>, from: nat, to: nat,
      now: Int64, id: Bytes32, data: ByteSeq)
    requires from <= to <= |ixs| && Exec(env, st, ixs, from, to, now).Ok? && id !in ExecIds(ixs, from, to)
    ensures Exec(env, With(st, id, data), ixs, from, to, now) == Ok(With(Exec(env, st, ixs, from, to, now).value, id, data))
    decreases |ixs| - from
  {
    if from < to {
      ExecOneFrame(env, st, ixs, from, now, id, data);
      ExecFrame(env, ExecOne(env, st, ixs, from, now).value, ixs, from + 1, to, now, id, data);
    }
  }

  /** Running a transaction in two parts. */
  lemma {:induction false} ExecSplit(env: Env, st: ChainState, ixs: seq<Instruction>, from: nat, mid: nat,
      to: nat, now: Int64)
    requires from <= mid <= to <= |ixs| && Exec(env, st, ixs, from, mid, now).Ok?
    ensures Exec(env, st, ixs, from, to, now) == Exec(env, Exec(env, st, ixs, from, mid, now).value, ixs, mid, to, now)
    decreases |ixs| - from
  {
    if from < mid {
      ExecSplit(env, ExecOne(env, st, ixs, from, now).value, ixs, from + 1, mid, to, now);
    }
  }
}
