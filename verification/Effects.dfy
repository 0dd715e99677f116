/**
  What calls and transactions do, said without the program: which octets on the wire have which
  effect on the chain, and that nothing else has any.
  */
module Effects {
  import opened Bytes
  import Borsh
  import opened Core
  import Ed25519
  import opened Program
  import opened History
  import Client

  // ---- On the wire -------------------------------------------------------------------------

  const INIT: ByteSeq := [208, 127, 21, 1, 194, 190, 196, 70]
  const SUBMIT: ByteSeq := [163, 108, 111, 46, 220, 82, 77, 212]

  /** Instruction data that says `initialize_config(key, maxAge)`; what follows is ignored. */
  predicate SaysInit(data: ByteSeq, key: Bytes32, maxAge: Int64) {
    INIT + key + I64ToLE(maxAge) <= data
  }

  /** Instruction data that says `submit_claim(c, id)`; what follows is ignored. */
  predicate SaysSubmit(data: ByteSeq, c: ClaimV1, id: Bytes32) {
    Serializable(c) && SUBMIT + CanonicalBytes(c) + id <= data
  }

  lemma {:induction false} Tail(a: ByteSeq, b: ByteSeq, c: ByteSeq, data: ByteSeq) returns (rest: ByteSeq)
    requires |a| == 8 && a + b + c <= data
    ensures data[..8] == a && data[8..] == b + c + rest == b + (c + rest)
  {
    rest := data[|a + b + c|..];
    assert data == a + b + c + rest;
    assert data == a + (b + c + rest);
  }

  lemma {:induction false} InitReads(data: ByteSeq, key: Bytes32, maxAge: Int64)
    requires SaysInit(data, key, maxAge)
    ensures ParseArgs(data) == Ok(InitializeConfig(key, maxAge))
  {
    var vs := [Borsh.VArr(key), Borsh.VI64(maxAge)];
    var ignored := Tail(INIT, key, I64ToLE(maxAge), data);
    Client.EncodeTwo(key, maxAge);
    assert Borsh.Kinds(vs) == [Borsh.Arr32, Borsh.I64];
    Borsh.RoundTrip(vs, ignored);
  }

  lemma {:induction false} InitSays(data: ByteSeq, key: Bytes32, maxAge: Int64)
    requires ParseArgs(data) == Ok(InitializeConfig(key, maxAge))
    ensures SaysInit(data, key, maxAge)
  {
    var kinds := [Borsh.Arr32, Borsh.I64];
    Borsh.Canonical(kinds, data[8..]);
    var p := Borsh.Decode(kinds, data[8..]).value;
    assert p.value[0].Kind() == Borsh.Kinds(p.value)[0] && p.value[1].Kind() == Borsh.Kinds(p.value)[1];
    assert p.value == [Borsh.VArr(key), Borsh.VI64(maxAge)];
    Client.EncodeTwo(key, maxAge);
    assert data == data[..8] + data[8..];
    Prefix(INIT, key, I64ToLE(maxAge), p.rest);
  }

  lemma {:induction false} Prefix(a: ByteSeq, b: ByteSeq, c: ByteSeq, rest: ByteSeq)
    ensures a + b + c <= a + (b + c + rest)
  {
    Regroup(a, b, c, rest);
    assert b + (c + rest) == b + c + rest;
  }

  lemma {:induction false} SubmitReads(data: ByteSeq, c: ClaimV1, id: Bytes32)
    requires SaysSubmit(data, c, id)
    ensures ParseArgs(data) == Ok(SubmitClaim(c, id))
  {
    var ignored := Tail(SUBMIT, CanonicalBytes(c), id, data);
    assert SUBMIT_DISCRIMINATOR[0] != INIT_DISCRIMINATOR[0];
    ClaimRoundTrip(c, id + ignored);
    assert (id + ignored)[..32] == id;
  }

  lemma {:induction false} SubmitSays(data: ByteSeq, c: ClaimV1, id: Bytes32)
    requires ParseArgs(data) == Ok(SubmitClaim(c, id))
    ensures SaysSubmit(data, c, id)
  {
    var ignored := WireIsCanonical(data);
  }

  /** The dispatcher reads a call exactly as it stands on the wire, and refuses all else with these reasons. */
  lemma {:induction false} ParseExact(data: ByteSeq)
    ensures forall key: Bytes32, maxAge: Int64 ::
              ParseArgs(data) == Ok(InitializeConfig(key, maxAge)) <==> SaysInit(data, key, maxAge)
    ensures forall c: ClaimV1, id: Bytes32 ::
              ParseArgs(data) == Ok(SubmitClaim(c, id)) <==> SaysSubmit(data, c, id)
    ensures ParseArgs(data) == Err(UnknownInstruction) <==> !(INIT <= data) && !(SUBMIT <= data)
    ensures ParseArgs(data).Err? && ParseArgs(data) != Err(UnknownInstruction) ==> ParseArgs(data) == Err(DidNotDeserialize)
  {
    forall key: Bytes32, maxAge: Int64
      ensures ParseArgs(data) == Ok(InitializeConfig(key, maxAge)) <==> SaysInit(data, key, maxAge)
    {
      if SaysInit(data, key, maxAge) {
        InitReads(data, key, maxAge);
      } else if ParseArgs(data) == Ok(InitializeConfig(key, maxAge)) {
        InitSays(data, key, maxAge);
      }
    }
    forall c: ClaimV1, id: Bytes32
      ensures ParseArgs(data) == Ok(SubmitClaim(c, id)) <==> SaysSubmit(data, c, id)
    {
      if SaysSubmit(data, c, id) {
        SubmitReads(data, c, id);
      } else if ParseArgs(data) == Ok(SubmitClaim(c, id)) {
        SubmitSays(data, c, id);
      }
    }
    Discriminated(data);
  }

  lemma {:induction false} Discriminated(data: ByteSeq)
    ensures ParseArgs(data) == Err(UnknownInstruction) <==> !(INIT <= data) && !(SUBMIT <= data)
    ensures ParseArgs(data).Err? && ParseArgs(data) != Err(UnknownInstruction) ==> ParseArgs(data) == Err(DidNotDeserialize)
  {
  }

  // ---- Calls -------------------------------------------------------------------------------

  /** The call sets the config, for the first time, to what it says. */
  ghost predicate Configures(env: Env, st: ChainState, call: Call, next: ChainState) {
    exists key: Bytes32, maxAge: Int64 ::
      && SaysInit(call.data, key, maxAge)
      && st.config.None? && maxAge > 0
      && next == ChainState(Some(Config(call.signer, key, maxAge, env.configBump)), st.accounts)
  }

  /** The call adds one account, the record of the claim it says, vouched for by the instruction before. */
  ghost predicate Stores(env: Env, st: ChainState, call: Call, ixs: seq<Instruction>, at: nat, now: Int64,
      next: ChainState)
  {
    exists c: ClaimV1, id: Bytes32 ::
      && SaysSubmit(call.data, c, id)
      && Open(st, id)
      && Validated(env, st.config.value, c, id, now)
      && Vouched(st.config.value, c, ixs, at)
      && next == ChainState(st.config, st.accounts[id := Client.Stored(env, c, id, call.signer, now)])
  }

  ghost predicate Takes(env: Env, st: ChainState, call: Call, ixs: seq<Instruction>, at: nat, now: Int64,
      next: ChainState)
  {
    Configures(env, st, call, next) || Stores(env, st, call, ixs, at, now, next)
  }

  /** A call succeeds exactly by configuring the program or storing a claim. */
  lemma {:induction false} CallExact(env: Env, st: ChainState, call: Call, ixs: seq<Instruction>, at: nat, now: Int64,
      next: ChainState)
    requires at < |ixs|
    ensures Step(env, st, call, ixs, at, now) == Ok(next) <==> Takes(env, st, call, ixs, at, now, next)
  {
    ParseExact(call.data);
    if Configures(env, st, call, next) {
      var key: Bytes32, maxAge: Int64 :| SaysInit(call.data, key, maxAge) && st.config.None? && maxAge > 0
        && next == ChainState(Some(Config(call.signer, key, maxAge, env.configBump)), st.accounts);
    }
    if Stores(env, st, call, ixs, at, now, next) {
      StoresSteps(env, st, call, ixs, at, now, next);
    }
    if Step(env, st, call, ixs, at, now) == Ok(next) {
      StepTakes(env, st, call, ixs, at, now, next);
    }
  }

  lemma {:induction false} StoresSteps(env: Env, st: ChainState, call: Call, ixs: seq<Instruction>, at: nat,
      now: Int64, next: ChainState)
    requires at < |ixs| && Stores(env, st, call, ixs, at, now, next)
    ensures Step(env, st, call, ixs, at, now) == Ok(next)
  {
    var c: ClaimV1, id: Bytes32 :|
      && SaysSubmit(call.data, c, id)
      && Open(st, id)
      && Validated(env, st.config.value, c, id, now)
      && Vouched(st.config.value, c, ixs, at)
      && next == ChainState(st.config, st.accounts[id := Client.Stored(env, c, id, call.signer, now)]);
    SubmitReads(call.data, c, id);
    SubmitExact(env, st, c, id, call.signer, ixs, at, now);
  }

  lemma {:induction false} StepTakes(env: Env, st: ChainState, call: Call, ixs: seq<Instruction>, at: nat,
      now: Int64, next: ChainState)
    requires at < |ixs| && Step(env, st, call, ixs, at, now) == Ok(next)
    ensures Takes(env, st, call, ixs, at, now, next)
  {
    match ParseArgs(call.data).value
    case InitializeConfig(key, maxAge) => InitSays(call.data, key, maxAge);
    case SubmitClaim(c, id) =>
      SubmitSays(call.data, c, id);
      SubmitExact(env, st, c, id, call.signer, ixs, at, now);
  }

  // ---- Transactions ------------------------------------------------------------------------

  /** The calls lead from `st` to `next` through these states, one taking effect after another. */
  ghost predicate Chained(env: Env, calls: seq<Call>, ixs: seq<Instruction>, at: nat, now: Int64, st: ChainState,
      next: ChainState, states: seq<ChainState>)
  {
    && |states| == |calls| + 1 && states[0] == st && states[|calls|] == next
    && forall i :: 0 <= i < |calls| ==> Takes(env, states[i], calls[i], ixs, at, now, states[i + 1])
  }

  lemma {:induction false} StepsChain(env: Env, calls: seq<Call>, ixs: seq<Instruction>, at: nat, now: Int64,
      st: ChainState, next: ChainState)
    returns (states: seq<ChainState>)
    requires at < |ixs| && Steps(env, st, calls, ixs, at, now) == Ok(next)
    ensures Chained(env, calls, ixs, at, now, st, next, states)
    decreases |calls|
  {
    states := [st];
    if calls != [] {
      var mid := Step(env, st, calls[0], ixs, at, now).value;
      CallExact(env, st, calls[0], ixs, at, now, mid);
      var rest := StepsChain(env, calls[1..], ixs, at, now, mid, next);
      states := [st] + rest;
      forall i | 0 <= i < |calls|
        ensures Takes(env, states[i], calls[i], ixs, at, now, states[i + 1])
      {
        if i > 0 {
          assert Takes(env, rest[i - 1], calls[1..][i - 1], ixs, at, now, rest[i - 1 + 1]);
        }
      }
    }
  }

  lemma {:induction false} ChainSteps(env: Env, calls: seq<Call>, ixs: seq<Instruction>, at: nat, now: Int64,
      st: ChainState, next: ChainState, states: seq<ChainState>)
    requires at < |ixs| && Chained(env, calls, ixs, at, now, st, next, states)
    ensures Steps(env, st, calls, ixs, at, now) == Ok(next)
    decreases |calls|
  {
    if calls != [] {
      assert Takes(env, states[0], calls[0], ixs, at, now, states[0 + 1]);
      CallExact(env, st, calls[0], ixs, at, now, states[1]);
      forall i | 0 <= i < |calls[1..]|
        ensures Takes(env, states[1..][i], calls[1..][i], ixs, at, now, states[1..][i + 1])
      {
        assert Takes(env, states[i + 1], calls[i + 1], ixs, at, now, states[i + 1 + 1]);
      }
      ChainSteps(env, calls[1..], ixs, at, now, states[1], next, states[1..]);
    }
  }

  /** Instruction `at` succeeds by itself, and each call it makes takes effect in turn. */
  ghost predicate Runs(env: Env, ixs: seq<Instruction>, at: nat, now: Int64, st: ChainState, next: ChainState)
    requires at < |ixs|
  {
    && (ixs[at].Native? ==> Ed25519.NativeAccepts(env.ed, ixs[at].data, Datas(ixs)))
    && (ixs[at].Foreign? ==> ixs[at].succeeds)
    && exists states :: Chained(env, ixs[at].Calls(), ixs, at, now, st, next, states)
  }

  lemma {:induction false} InstructionExact(env: Env, ixs: seq<Instruction>, at: nat, now: Int64, st: ChainState,
      next: ChainState)
    requires at < |ixs|
    ensures ExecOne(env, st, ixs, at, now) == Ok(next) <==> Runs(env, ixs, at, now, st, next)
  {
    var calls := ixs[at].Calls();
    if Steps(env, st, calls, ixs, at, now) == Ok(next) {
      var states := StepsChain(env, calls, ixs, at, now, st, next);
    }
    if states :| Chained(env, calls, ixs, at, now, st, next, states) {
      ChainSteps(env, calls, ixs, at, now, st, next, states);
    }
  }

  /** The instructions from `from` on lead from the first of these states to the last. */
  ghost predicate Sequenced(env: Env, ixs: seq<Instruction>, from: nat, now: Int64, states: seq<ChainState>) {
    && |states| > 0 && from + |states| - 1 == |ixs|
    && forall i :: 0 <= i < |states| - 1 ==> Runs(env, ixs, from + i, now, states[i], states[i + 1])
  }

  lemma {:induction false} SequencedCons(env: Env, ixs: seq<Instruction>, from: nat, now: Int64, st: ChainState,
      rest: seq<ChainState>)
    requires from < |ixs| && Sequenced(env, ixs, from + 1, now, rest) && Runs(env, ixs, from, now, st, rest[0])
    ensures Sequenced(env, ixs, from, now, [st] + rest)
  {
    var states := [st] + rest;
    forall i | 0 <= i < |states| - 1
      ensures Runs(env, ixs, from + i, now, states[i], states[i + 1])
    {
      if i > 0 {
        assert Runs(env, ixs, from + 1 + (i - 1), now, rest[i - 1], rest[i - 1 + 1]);
      }
    }
  }

  lemma {:induction false} SequencedTail(env: Env, ixs: seq<Instruction>, from: nat, now: Int64,
      states: seq<ChainState>)
    requires from < |ixs| && Sequenced(env, ixs, from, now, states)
    ensures |states| > 1 && Sequenced(env, ixs, from + 1, now, states[1..])
  {
    var rest := states[1..];
    forall i | 0 <= i < |rest| - 1
      ensures Runs(env, ixs, from + 1 + i, now, rest[i], rest[i + 1])
    {
      assert Runs(env, ixs, from + (i + 1), now, states[i + 1], states[i + 1 + 1]);
    }
  }

  lemma {:induction false} SequencedHead(env: Env, ixs: seq<Instruction>, from: nat, now: Int64,
      states: seq<ChainState>)
    requires from < |ixs| && Sequenced(env, ixs, from, now, states)
    ensures |states| > 1 && ExecOne(env, states[0], ixs, from, now) == Ok(states[1])
  {
    assert Runs(env, ixs, from + 0, now, states[0], states[0 + 1]);
    InstructionExact(env, ixs, from, now, states[0], states[1]);
  }

  lemma {:induction false} ExecSequence(env: Env, ixs: seq<Instruction>, from: nat, now: Int64, st: ChainState,
      next: ChainState)
    returns (states: seq<ChainState>)
    requires from <= |ixs| && Exec(env, st, ixs, from, |ixs|, now) == Ok(next)
    ensures Sequenced(env, ixs, from, now, states) && states[0] == st && states[|states| - 1] == next
    decreases |ixs| - from
  {
    states := [st];
    if from < |ixs| {
      var mid := ExecOne(env, st, ixs, from, now).value;
      InstructionExact(env, ixs, from, now, st, mid);
      var rest := ExecSequence(env, ixs, from + 1, now, mid, next);
      SequencedCons(env, ixs, from, now, st, rest);
      states := [st] + rest;
    }
  }

  lemma {:induction false} SequenceExec(env: Env, ixs: seq<Instruction>, from: nat, now: Int64,
      states: seq<ChainState>)
    requires from <= |ixs| && Sequenced(env, ixs, from, now, states)
    ensures Exec(env, states[0], ixs, from, |ixs|, now) == Ok(states[|states| - 1])
    decreases |ixs| - from
  {
    if from < |ixs| {
      SequencedHead(env, ixs, from, now, states);
      SequencedTail(env, ixs, from, now, states);
      SequenceExec(env, ixs, from + 1, now, states[1..]);
    }
  }

  /**
    A transaction commits with state `next` exactly when its instructions lead there, every native
    check passing, every foreign program succeeding and every call of this program taking effect;
    otherwise it leaves no trace.
    */
  lemma {:induction false} CommitExact(env: Env, st: ChainState, tx: Transaction, next: ChainState)
    ensures Committed(env, st, tx) && Apply(env, st, tx) == next <==>
            exists states :: Sequenced(env, tx.ixs, 0, tx.now, states) && states[0] == st && states[|states| - 1] == next
    ensures !Committed(env, st, tx) ==> Apply(env, st, tx) == st
  {
    if Committed(env, st, tx) && Apply(env, st, tx) == next {
      var states := ExecSequence(env, tx.ixs, 0, tx.now, st, next);
    }
    if states :| Sequenced(env, tx.ixs, 0, tx.now, states) && states[0] == st && states[|states| - 1] == next {
      SequenceExec(env, tx.ixs, 0, tx.now, states);
    }
  }

  /** `initializeConfig` on any chain: refused when there is a config, refused without a positive age, else done. */
  lemma {:induction false} InitializeExact(env: Env, st: ChainState, key: Bytes32, maxAge: Int64, authority: Bytes32,
      now: Int64)
    ensures Exec(env, st, [Client.InitializeConfigInstruction(key, maxAge, authority)], 0, 1, now) ==
            if st.config.Some? then Err(AlreadyInUse)
            else if maxAge <= 0 then Err(InvalidMaxAge)
            else Ok(ChainState(Some(Config(authority, key, maxAge, env.configBump)), st.accounts))
  {
    var ixs := [Client.InitializeConfigInstruction(key, maxAge, authority)];
    Client.InitReads(key, maxAge);
    Client.OneCall(env, st, ixs[0].call, ixs, 0, now);
    if Step(env, st, ixs[0].call, ixs, 0, now).Ok? {
      var next := Step(env, st, ixs[0].call, ixs, 0, now).value;
      assert Exec(env, next, ixs, 1, 1, now) == Ok(next);
    }
  }

  /**
    A submission behind an Ed25519 instruction that passes natively, on any chain: it stores what
    `submit_claim` decides to store, or is refused with that verdict's reason.
    */
  lemma {:induction false} SubmissionOutcome(env: Env, st: ChainState, ixs: seq<Instruction>, now: Int64, c: ClaimV1,
      id: Bytes32)
    requires |ixs| == 2 && ixs[0].Native? && Ed25519.NativeAccepts(env.ed, ixs[0].data, Datas(ixs))
    requires ixs[1].WebProof? && SaysSubmit(ixs[1].call.data, c, id)
    ensures Exec(env, st, ixs, 0, 2, now) ==
            match SubmitVerdict(env, st, c, id, ixs[1].call.signer, ixs, 1, now)
            case Ok(data) => Ok(With(st, id, data))
            case Err(e) => Err(e)
  {
    assert ExecOne(env, st, ixs, 0, now) == Ok(st);
    SubmitReads(ixs[1].call.data, c, id);
    Client.OneCall(env, st, ixs[1].call, ixs, 1, now);
    var v := SubmitVerdict(env, st, c, id, ixs[1].call.signer, ixs, 1, now);
    if v.Ok? {
      assert Exec(env, With(st, id, v.value), ixs, 2, 2, now) == Ok(With(st, id, v.value));
    }
    assert Exec(env, st, ixs, 0, 2, now) == Exec(env, st, ixs, 1, 2, now);
  }
}
