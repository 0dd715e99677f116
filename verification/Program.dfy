/**
  The on-chain program. `Verdict` functions say what a handler decides, `Exec` what the
  instructions of one transaction do in turn; the `Ledger` class is the program as it runs, with
  accounts created before they are checked and a transaction undone when any part of it fails.
  */
module Program {
  import opened Bytes
  import Utf8
  import Borsh
  import opened Core
  import opened Records
  import Ed25519

  /** Everything the program relies on but does not define. */
  datatype Env = Env(
    sha: ByteSeq -> Bytes32,
    ed: Ed25519.Verifier,
    claimBump: Bytes32 -> Byte,
    configBump: Byte)

  datatype Config = Config(authority: Bytes32, verifierKey: Bytes32, maxClaimAge: Int64, bump: Byte)

  /** The program's accounts: the singleton config, and one account per claim id. */
  datatype ChainState = ChainState(config: Option<Config>, accounts: map<Bytes32, ByteSeq>)

  const EMPTY := ChainState(None, map[])

  /** An invocation of this program: who signed it, and its instruction data. */
  datatype Call = Call(signer: Bytes32, data: ByteSeq)

  /**
    Top-level instructions. A foreign program may itself invoke this program any number of times;
    the instructions sysvar then still shows the top-level instructions.
    */
  datatype Instruction =
    | Native(data: ByteSeq)
    | WebProof(call: Call)
    | Foreign(input: ByteSeq, calls: seq<Call>, succeeds: bool)
  {
    function Data(): ByteSeq {
      match this
      case Native(d) => d
      case WebProof(c) => c.data
      case Foreign(d, _, _) => d
    }

    function Calls(): seq<Call> {
      match this
      case Native(_) => []
      case WebProof(c) => [c]
      case Foreign(_, cs, _) => cs
    }
  }

  datatype Transaction = Transaction(ixs: seq<Instruction>, now: Int64)

  function Datas(ixs: seq<Instruction>): seq<ByteSeq> {
    seq(|ixs|, i requires 0 <= i < |ixs| => ixs[i].Data())
  }

  datatype ProgramError =
    | InvalidMaxAge
    | InvalidVersion
    | InvalidLength
    | InvalidTimeWindow
    | ClaimExpired
    | ClaimFuture
    | ClaimTooOld
    | ClaimIdMismatch
    | Introspection(why: Ed25519.IntrospectError)
    | Serialization
    | AccountNotInitialized
    | AlreadyInUse
    | DidNotSerialize
    | DidNotDeserialize
    | UnknownInstruction
    | SignatureVerificationFailed
    | ForeignFailed

  // ---- validate_claim ----------------------------------------------------------------------

  function ValidateClaim(c: ClaimV1, now: Int64, maxAge: Int64): Result<(), ProgramError> {
    if !(c.version == 1) then Err(InvalidVersion)
    else if !(c.sourceHost != [] && Len(c.sourceHost) <= 128) then Err(InvalidLength)
    else if !(c.claimKey != [] && Len(c.claimKey) <= 128) then Err(InvalidLength)
    else if !(c.claimValue != [] && Len(c.claimValue) <= 256) then Err(InvalidLength)
    else if !(c.expiresAt > c.issuedAt) then Err(InvalidTimeWindow)
    else if !(now <= c.expiresAt) then Err(ClaimExpired)
    else if !(c.issuedAt <= SaturatingAdd(now, 30)) then Err(ClaimFuture)
    else if !(SaturatingSub(now, c.issuedAt) <= maxAge) then Err(ClaimTooOld)
    else Ok(())
  }

  function OnChainError(e: ClaimError): ProgramError {
    match e
    case Version => InvalidVersion
    case Length(_) => InvalidLength
    case TimeWindow => InvalidTimeWindow
    case Expired => ClaimExpired
    case Future => ClaimFuture
    case TooOld => ClaimTooOld
  }

  /** The two validators, written independently, reach the same verdict with the same reason. */
  lemma ValidatorsAgree(c: ClaimV1, now: Int64, maxAge: Int64)
    ensures ValidateClaim(c, now, maxAge) ==
            match Validate(c, now, maxAge) case Ok(u) => Ok(u) case Err(e) => Err(OnChainError(e))
  {
  }

  // ---- Handlers ----------------------------------------------------------------------------

  function InitVerdict(env: Env, st: ChainState, authority: Bytes32, key: Bytes32, maxAge: Int64)
      : Result<Config, ProgramError>
  {
    if st.config.Some? then Err(AlreadyInUse)
    else if !(maxAge > 0) then Err(InvalidMaxAge)
    else Ok(Config(authority, key, maxAge, env.configBump))
  }

  /** Introspection of the instruction before top-level instruction `at`. */
  function Introspect(ixs: seq<Instruction>, at: nat, key: Bytes32, message: ByteSeq): Result<(), ProgramError>
    requires at < |ixs|
  {
    if at == 0 || !ixs[at - 1].Native? then Err(Introspection(Ed25519.MissingSignature))
    else
      match Ed25519.VerifyPreceding(ixs[at - 1].data, key, message)
      case Ok(_) => Ok(())
      case Err(e) => Err(Introspection(e))
  }

  /** The checks of `submit_claim` in program order, ending in the octets of the new account. */
  function SubmitVerdict(env: Env, st: ChainState, c: ClaimV1, id: Bytes32, submitter: Bytes32,
      ixs: seq<Instruction>, at: nat, now: Int64): Result<ByteSeq, ProgramError>
    requires at < |ixs|
  {
    if st.config.None? then Err(AccountNotInitialized)
    else if id in st.accounts then Err(AlreadyInUse)
    else if ValidateClaim(c, now, st.config.value.maxClaimAge).Err?
    then Err(ValidateClaim(c, now, st.config.value.maxClaimAge).error)
    else if TryToVec(c).None? then Err(Serialization)
    else if id != env.sha(TryToVec(c).value) then Err(ClaimIdMismatch)
    else if Introspect(ixs, at, st.config.value.verifierKey, DOMAIN + TryToVec(c).value).Err?
    then Err(Introspect(ixs, at, st.config.value.verifierKey, DOMAIN + TryToVec(c).value).error)
    else
      match Flush(Zeros(ACCOUNT_SPACE), RecordOf(c, id, submitter, now, env.claimBump(id)))
      case None => Err(DidNotSerialize)
      case Some(data) => Ok(data)
  }

  /** `id` names exactly this claim, and the claim passed validation under `cfg` at `now`. */
  predicate Validated(env: Env, cfg: Config, c: ClaimV1, id: Bytes32, now: Int64) {
    && WellSized(c)
    && (Fresh(c, now, cfg.maxClaimAge) || AgeSaturates(c, now, cfg.maxClaimAge))
    && id == env.sha(CanonicalBytes(c))
  }

  /** The instruction before `at` is an Ed25519 one that vouches for `c` under the configured key. */
  predicate Vouched(cfg: Config, c: ClaimV1, ixs: seq<Instruction>, at: nat)
    requires Serializable(c)
  {
    && 0 < at < |ixs|
    && ixs[at - 1].Native?
    && Ed25519.VerifyPreceding(ixs[at - 1].data, cfg.verifierKey, SigningMessage(c)).Ok?
  }

  /** A submission succeeds exactly under these conditions, and nothing it stores can overflow. */
  lemma SubmitExact(env: Env, st: ChainState, c: ClaimV1, id: Bytes32, submitter: Bytes32,
      ixs: seq<Instruction>, at: nat, now: Int64)
    requires at < |ixs|
    ensures var v := SubmitVerdict(env, st, c, id, submitter, ixs, at, now);
            var r := RecordOf(c, id, submitter, now, env.claimBump(id));
            && (v.Ok? <==>
                  && st.config.Some?
                  && id !in st.accounts
                  && Validated(env, st.config.value, c, id, now)
                  && Vouched(st.config.value, c, ixs, at))
            && (v.Ok? ==> RecordSerializable(r) && |RecordBytes(r)| <= ACCOUNT_SPACE && v.value == AccountData(r))
            && v != Err(Serialization) && v != Err(DidNotSerialize)
  {
    if st.config.Some? {
      var age := st.config.value.maxClaimAge;
      ValidatorsAgree(c, now, age);
      ValidateExact(c, now, age);
      if ValidateClaim(c, now, age).Ok? {
        ValidatedSize(c, now, age);
        RecordFits(c, id, submitter, now, env.claimBump(id));
        FlushIsAccountData(RecordOf(c, id, submitter, now, env.claimBump(id)));
      }
    }
  }

  /** Room for the claim: a config, and no account at its id. */
  predicate Open(st: ChainState, id: Bytes32) {
    st.config.Some? && id !in st.accounts
  }

  /** Why a claim does not validate: each reason in unbounded integers, and exactly when it is given. */
  lemma {:induction false} ValidateRefusals(c: ClaimV1, now: Int64, maxAge: Int64)
    ensures var v := ValidateClaim(c, now, maxAge);
            var ordered := WellSized(c) && c.issuedAt < c.expiresAt;
            && (v == Err(InvalidVersion) <==> c.version != 1)
            && (v == Err(InvalidLength) <==> c.version == 1 && !WellSized(c))
            && (v == Err(InvalidTimeWindow) <==> WellSized(c) && c.expiresAt <= c.issuedAt)
            && (v == Err(ClaimExpired) <==> ordered && now > c.expiresAt)
            && (v == Err(ClaimFuture) <==> ordered && now <= c.expiresAt && now < c.issuedAt - 30)
            && (v == Err(ClaimTooOld) <==>
                  ordered && c.issuedAt - 30 <= now <= c.expiresAt && maxAge < now - c.issuedAt && maxAge < I64_MAX)
  {
    Utf8.EmptyLength(c.sourceHost);
    Utf8.EmptyLength(c.claimKey);
    Utf8.EmptyLength(c.claimValue);
  }

  /** Why a submission is refused: each reason, and exactly when it is given. */
  lemma {:induction false} SubmitRefusals(env: Env, st: ChainState, c: ClaimV1, id: Bytes32, submitter: Bytes32,
      ixs: seq<Instruction>, at: nat, now: Int64)
    requires at < |ixs|
    ensures var v := SubmitVerdict(env, st, c, id, submitter, ixs, at, now);
            && (v == Err(AccountNotInitialized) <==> st.config.None?)
            && (v == Err(AlreadyInUse) <==> st.config.Some? && id in st.accounts)
            && (Open(st, id) ==>
                  var cfg := st.config.value;
                  var valid := ValidateClaim(c, now, cfg.maxClaimAge);
                  var named := Validated(env, cfg, c, id, now);
                  var preceded := at > 0 && ixs[at - 1].Native?;
                  && (valid.Err? ==> v == Err(valid.error))
                  && (v == Err(ClaimIdMismatch) <==> valid.Ok? && !named)
                  && (v == Err(Introspection(Ed25519.MissingSignature)) <==> named && !preceded)
                  && (forall why :: why != Ed25519.MissingSignature ==>
                        (v == Err(Introspection(why)) <==>
                           named && preceded &&
                           Ed25519.VerifyPreceding(ixs[at - 1].data, cfg.verifierKey, SigningMessage(c)) == Err(why))))
  {
    SubmitExact(env, st, c, id, submitter, ixs, at, now);
    if Open(st, id) {
      var age := st.config.value.maxClaimAge;
      ValidatorsAgree(c, now, age);
      ValidateExact(c, now, age);
      if at > 0 && ixs[at - 1].Native? && Serializable(c) {
        Ed25519.IntrospectionRefusals(ixs[at - 1].data, st.config.value.verifierKey, SigningMessage(c));
      }
    }
  }

  // ---- Dispatch ----------------------------------------------------------------------------

  /** sha256("global:initialize_config")[..8] and sha256("global:submit_claim")[..8] */
  const INIT_DISCRIMINATOR: ByteSeq := [208, 127, 21, 1, 194, 190, 196, 70]
  const SUBMIT_DISCRIMINATOR: ByteSeq := [163, 108, 111, 46, 220, 82, 77, 212]

  datatype Args =
    | InitializeConfig(key: Bytes32, maxAge: Int64)
    | SubmitClaim(claim: ClaimV1, id: Bytes32)

  /** Anchor's dispatch; octets after the last argument are ignored. */
  function ParseArgs(data: ByteSeq): Result<Args, ProgramError> {
    if |data| < 8 then Err(UnknownInstruction)
    else if data[..8] == INIT_DISCRIMINATOR then
      match Borsh.Decode([Borsh.Arr32, Borsh.I64], data[8..])
      case None => Err(DidNotDeserialize)
      case Some(p) =>
        Borsh.Canonical([Borsh.Arr32, Borsh.I64], data[8..]);
        assert p.value[0].Kind() == Borsh.Kinds(p.value)[0] && p.value[1].Kind() == Borsh.Kinds(p.value)[1];
        Ok(InitializeConfig(p.value[0].a, p.value[1].i))
    else if data[..8] == SUBMIT_DISCRIMINATOR then
      match Core.Deserialize(data[8..])
      case None => Err(DidNotDeserialize)
      case Some(p) =>
        if |p.rest| < 32 then Err(DidNotDeserialize) else Ok(SubmitClaim(p.value, p.rest[..32]))
    else Err(UnknownInstruction)
  }

  /** The claim bytes on the wire are the canonical ones, so the message rebuilt from them is the one they spell. */
  lemma {:induction false} WireIsCanonical(data: ByteSeq) returns (ignored: ByteSeq)
    requires ParseArgs(data).Ok? && ParseArgs(data).value.SubmitClaim?
    ensures var SubmitClaim(c, id) := ParseArgs(data).value;
            Serializable(c) && data == SUBMIT_DISCRIMINATOR + CanonicalBytes(c) + id + ignored
  {
    ClaimCanonical(data[8..]);
    var p := Core.Deserialize(data[8..]).value;
    ignored := p.rest[32..];
    assert p.rest == p.rest[..32] + ignored;
    assert data == data[..8] + data[8..];
    Regroup(data[..8], CanonicalBytes(p.value), p.rest[..32], ignored);
  }

  lemma {:induction false} Regroup(a: ByteSeq, b: ByteSeq, c: ByteSeq, d: ByteSeq)
    ensures a + (b + (c + d)) == a + b + c + d
  {
  }

  function Step(env: Env, st: ChainState, call: Call, ixs: seq<Instruction>, at: nat, now: Int64)
      : Result<ChainState, ProgramError>
    requires at < |ixs|
  {
    match ParseArgs(call.data)
    case Err(e) => Err(e)
    case Ok(InitializeConfig(key, maxAge)) =>
      (match InitVerdict(env, st, call.signer, key, maxAge)
       case Err(e) => Err(e)
       case Ok(cfg) => Ok(st.(config := Some(cfg))))
    case Ok(SubmitClaim(c, id)) =>
      (match SubmitVerdict(env, st, c, id, call.signer, ixs, at, now)
       case Err(e) => Err(e)
       case Ok(data) => Ok(st.(accounts := st.accounts[id := data])))
  }

  function Steps(env: Env, st: ChainState, calls: seq<Call>, ixs: seq<Instruction>, at: nat, now: Int64)
      : Result<ChainState, ProgramError>
    requires at < |ixs|
    decreases |calls|
  {
    if calls == [] then Ok(st)
    else
      match Step(env, st, calls[0], ixs, at, now)
      case Err(e) => Err(e)
      case Ok(next) => Steps(env, next, calls[1..], ixs, at, now)
  }

  /** What, besides its calls into this program, an instruction needs in order to succeed. */
  function Outside(env: Env, ixs: seq<Instruction>, at: nat): Result<(), ProgramError>
    requires at < |ixs|
  {
    match ixs[at]
    case Native(d) =>
      if Ed25519.NativeAccepts(env.ed, d, Datas(ixs)) then Ok(()) else Err(SignatureVerificationFailed)
    case WebProof(_) => Ok(())
    case Foreign(_, _, succeeds) => if succeeds then Ok(()) else Err(ForeignFailed)
  }

  function ExecOne(env: Env, st: ChainState, ixs: seq<Instruction>, at: nat, now: Int64)
      : Result<ChainState, ProgramError>
    requires at < |ixs|
  {
    match Steps(env, st, ixs[at].Calls(), ixs, at, now)
    case Err(e) => Err(e)
    case Ok(next) =>
      match Outside(env, ixs, at)
      case Err(e) => Err(e)
      case Ok(_) => Ok(next)
  }

  /** Instructions `from` up to `to` of the transaction `ixs`, in order. */
  function Exec(env: Env, st: ChainState, ixs: seq<Instruction>, from: nat, to: nat, now: Int64)
      : Result<ChainState, ProgramError>
    requires from <= to <= |ixs|
    decreases |ixs| - from
  {
    if from == to then Ok(st)
    else
      match ExecOne(env, st, ixs, from, now)
      case Err(e) => Err(e)
      case Ok(next) => Exec(env, next, ixs, from + 1, to, now)
  }

  /** A transaction is atomic. */
  function Apply(env: Env, st: ChainState, tx: Transaction): ChainState {
    match Exec(env, st, tx.ixs, 0, |tx.ixs|, tx.now)
    case Err(_) => st
    case Ok(next) => next
  }

  // ---- The program as it runs --------------------------------------------------------------

  /** The `verified_claim` account object a handler fills in before it is flushed. */
  class ClaimAccount {
    var claimId: Bytes32
    var sourceHost: Text
    var requestPathHash: Bytes32
    var claimKey: Text
    var claimValue: Text
    var issuedAt: Int64
    var expiresAt: Int64
    var provenanceHash: Bytes32
    var submittedBy: Bytes32
    var createdAt: Int64
    var bump: Byte

    constructor ()
      ensures Record() == VerifiedClaim(Zeros(32), [], Zeros(32), [], [], 0, 0, Zeros(32), Zeros(32), 0, 0)
    {
      claimId, sourceHost, requestPathHash, claimKey, claimValue := Zeros(32), [], Zeros(32), [], [];
      issuedAt, expiresAt, provenanceHash, submittedBy, createdAt, bump := 0, 0, Zeros(32), Zeros(32), 0, 0;
    }

    /** The handler's assignments, one field at a time. */
    method Fill(claim: ClaimV1, id: Bytes32, submitter: Bytes32, now: Int64, claimBump: Byte)
      modifies this
      ensures Record() == RecordOf(claim, id, submitter, now, claimBump)
    {
      claimId := id;
      sourceHost := claim.sourceHost;
      requestPathHash := claim.requestPathHash;
      claimKey := claim.claimKey;
      claimValue := claim.claimValue;
      issuedAt := claim.issuedAt;
      expiresAt := claim.expiresAt;
      provenanceHash := claim.provenanceHash;
      submittedBy := submitter;
      createdAt := now;
      bump := claimBump;
    }

    function Record(): VerifiedClaim
      reads this
    {
      VerifiedClaim(claimId, sourceHost, requestPathHash, claimKey, claimValue, issuedAt, expiresAt,
                    provenanceHash, submittedBy, createdAt, bump)
    }
  }

  class Ledger {
    var config: Option<Config>
    var accounts: map<Bytes32, ByteSeq>

    function State(): ChainState
      reads this
    {
      ChainState(config, accounts)
    }

    constructor ()
      ensures State() == EMPTY
    {
      config, accounts := None, map[];
    }

    /** The account exists, zeroed, before the maximum age is looked at. */
    method InitializeConfig(env: Env, authority: Bytes32, key: Bytes32, maxAge: Int64)
      returns (r: Result<(), ProgramError>)
      modifies this`config
      ensures var v := old(InitVerdict(env, State(), authority, key, maxAge));
              && r == (match v case Ok(_) => Ok(()) case Err(e) => Err(e))
              && (v.Ok? ==> config == Some(v.value))
              && (v.Err? ==> config == if old(config).Some? then old(config) else Some(Config(Zeros(32), Zeros(32), 0, 0)))
    {
      if config.Some? {
        return Err(AlreadyInUse);
      }
      var c := Config(Zeros(32), Zeros(32), 0, 0);
      config := Some(c);
      if !(maxAge > 0) {
        return Err(InvalidMaxAge);
      }
      c := c.(authority := authority);
      c := c.(verifierKey := key);
      c := c.(maxClaimAge := maxAge);
      c := c.(bump := env.configBump);
      config := Some(c);
      return Ok(());
    }

    /** The account exists, zeroed, before the claim is looked at; a refusal leaves it behind. */
    method SubmitClaim(env: Env, claim: ClaimV1, claimId: Bytes32, submitter: Bytes32, ixs: seq<Instruction>,
        at: nat, now: Int64)
      returns (r: Result<(), ProgramError>)
      requires at < |ixs|
      modifies this`accounts
      ensures var v := old(SubmitVerdict(env, State(), claim, claimId, submitter, ixs, at, now));
              && r == (match v case Ok(_) => Ok(()) case Err(e) => Err(e))
              && (v.Ok? ==> accounts == old(accounts)[claimId := v.value])
              && (v.Err? ==> accounts == if config.None? || claimId in old(accounts) then old(accounts)
                                         else old(accounts)[claimId := Zeros(ACCOUNT_SPACE)])
    {
      if config.None? {
        return Err(AccountNotInitialized);
      }
      if claimId in accounts {
        return Err(AlreadyInUse);
      }
      accounts := accounts[claimId := Zeros(ACCOUNT_SPACE)];
      var valid := ValidateClaim(claim, now, config.value.maxClaimAge);
      if valid.Err? {
        return Err(valid.error);
      }
      var bytes := TryToVec(claim);
      if bytes.None? {
        return Err(Serialization);
      }
      if claimId != env.sha(bytes.value) {
        return Err(ClaimIdMismatch);
      }
      var seen := Introspect(ixs, at, config.value.verifierKey, DOMAIN + bytes.value);
      if seen.Err? {
        return Err(seen.error);
      }
      var out := new ClaimAccount();
      out.Fill(claim, claimId, submitter, now, env.claimBump(claimId));
      var flushed := Flush(accounts[claimId], out.Record());
      if flushed.None? {
        return Err(DidNotSerialize);
      }
      accounts := accounts[claimId := flushed.value];
      return Ok(());
    }

    method Invoke(env: Env, call: Call, ixs: seq<Instruction>, at: nat, now: Int64)
      returns (r: Result<(), ProgramError>)
      requires at < |ixs|
      modifies this
      ensures var v := old(Step(env, State(), call, ixs, at, now));
              match v case Ok(next) => r == Ok(()) && State() == next case Err(e) => r == Err(e)
    {
      var args := ParseArgs(call.data);
      match args
      case Err(e) => r := Err(e);
      case Ok(InitializeConfig(key, maxAge)) => r := this.InitializeConfig(env, call.signer, key, maxAge);
      case Ok(SubmitClaim(c, id)) => r := this.SubmitClaim(env, c, id, call.signer, ixs, at, now);
    }

    method ExecuteInstruction(env: Env, ixs: seq<Instruction>, at: nat, now: Int64)
      returns (r: Result<(), ProgramError>)
      requires at < |ixs|
      modifies this
      ensures var v := old(ExecOne(env, State(), ixs, at, now));
              match v case Ok(next) => r == Ok(()) && State() == next case Err(e) => r == Err(e)
    {
      var calls := ixs[at].Calls();
      while calls != []
        invariant old(Steps(env, State(), ixs[at].Calls(), ixs, at, now)) == Steps(env, State(), calls, ixs, at, now)
        decreases |calls|
      {
        r := Invoke(env, calls[0], ixs, at, now);
        if r.Err? {
          return;
        }
        calls := calls[1..];
      }
      r := Outside(env, ixs, at);
    }

    /** One atomic transaction: on any failure every account is as it was. */
    method Execute(env: Env, tx: Transaction) returns (r: Result<(), ProgramError>)
      modifies this
      ensures State() == old(Apply(env, State(), tx))
      ensures r == match old(Exec(env, State(), tx.ixs, 0, |tx.ixs|, tx.now)) case Ok(_) => Ok(()) case Err(e) => Err(e)
      ensures r.Err? ==> State() == old(State())
    {
      var config0, accounts0 := config, accounts;
      var n := |tx.ixs|;
      var i := 0;
      while i < n
        invariant 0 <= i <= n
        invariant old(Exec(env, State(), tx.ixs, 0, n, tx.now)) == Exec(env, State(), tx.ixs, i, n, tx.now)
      {
        r := ExecuteInstruction(env, tx.ixs, i, tx.now);
        if r.Err? {
          config, accounts := config0, accounts0;
          return;
        }
        i := i + 1;
      }
      r := Ok(());
    }
  }
}
