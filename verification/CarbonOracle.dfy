/**
  The oracle contract: signed submissions under a nonce, benchmark prices, and
  the index that decides whether a project's monitoring is current.
 */
module CarbonOracleContract {
  import opened Platform
  import Calendar

  const FRESHNESS_SECS := 365 * 24 * 60 * 60

  type PublicKey = string

  datatype MonitoringData = MonitoringData(
    projectId: string,
    period: string,
    tonnes: i128,
    score: u32,
    cid: string,
    submittedBy: Address,
    submittedAt: u64)

  /** `accepted` is history: every submission ever accepted.  `epoch` holds the nonces accepted since the last rotation. */
  datatype Oracle = Oracle(
    admin: Option<Address>,
    oracle: Option<Address>,
    publicKey: Option<PublicKey>,
    nonce: u64,
    monitoring: map<(string, string), MonitoringData>,
    latest: map<string, u64>,
    prices: map<(string, u32), i128>,
    flagged: map<string, string>,
    accepted: seq<MonitoringData>,
    epoch: seq<u64>)

  const EMPTY_ORACLE := Oracle(None, None, None, 0, map[], map[], map[], map[], [], [])

  datatype Submission = Submission(projectId: string, period: string, tonnes: i128, score: u32, cid: string)

  /** What a signature covers: the arguments of the call, and no nonce. */
  datatype Payload =
    | Monitoring(d: Submission)
    | Price(methodology: string, vintage: u32, price: i128)
    | Flagging(project: string, reason: string)

  /** The rest of a signed call: who submits it, under which nonce, with which signature. */
  datatype Signed = Signed(signer: Address, nonce: u64, signature: string)

  /** Whether a signature of a payload verifies under a key. */
  type Verifier = (PublicKey, Payload, string) -> bool

  function Initialize(s: Oracle, env: Env, admin: Address, oracle: Address, key: PublicKey): Result<Oracle> {
    var _ :- Need(s.admin.None?, AlreadyInitialized);
    var _ :- RequireAuth(env, admin);
    Ok(s.(admin := Some(admin), oracle := Some(oracle), publicKey := Some(key), nonce := 0, epoch := []))
  }

  function Rotate(s: Oracle, env: Env, caller: Address, oracle: Address, key: PublicKey): Result<Oracle> {
    var _ :- RequireAuth(env, caller);
    var _ :- Need(s.admin == Some(caller), UnauthorizedVerifier);
    Ok(s.(oracle := Some(oracle), publicKey := Some(key), nonce := 0, epoch := []))
  }

  /** The checks every signed call starts with; they advance the nonce. */
  function Authenticate(verify: Verifier, s: Oracle, env: Env, m: Signed, p: Payload): Result<Oracle> {
    var _ :- RequireAuth(env, m.signer);
    var _ :- Need(s.oracle == Some(m.signer), UnauthorizedOracle);
    var _ :- Need(m.nonce == s.nonce, InvalidNonce);
    var _ :- Need(s.publicKey.Some?, UnauthorizedOracle);
    if !verify(s.publicKey.value, p, m.signature) || s.nonce == U64_MAX then Trap else
    Ok(s.(nonce := s.nonce + 1, epoch := s.epoch + [m.nonce]))
  }

  function Submit(verify: Verifier, s: Oracle, env: Env, m: Signed, d: Submission): Result<Oracle> {
    var t :- Authenticate(verify, s, env, m, Monitoring(d));
    var _ :- Need(d.tonnes > 0, ZeroAmountNotAllowed);
    var data := MonitoringData(d.projectId, d.period, d.tonnes, d.score, d.cid, m.signer, env.now);
    Ok(t.(monitoring := t.monitoring[(d.projectId, d.period) := data],
          latest := t.latest[d.projectId := env.now],
          accepted := t.accepted + [data]))
  }

  ghost function UpdatePrice(verify: Verifier, s: Oracle, env: Env, m: Signed,
                             methodology: string, vintage: u32, price: i128): Result<Oracle>
  {
    var t :- Authenticate(verify, s, env, m, Price(methodology, vintage, price));
    var _ :- Need(price > 0, ZeroAmountNotAllowed);
    var _ :- VintageGate(vintage, Calendar.CurrentYear(env.now));
    Ok(t.(prices := t.prices[(methodology, vintage) := price]))
  }

  function Flag(verify: Verifier, s: Oracle, env: Env, m: Signed, project: string, reason: string): Result<Oracle> {
    var t :- Authenticate(verify, s, env, m, Flagging(project, reason));
    Ok(t.(flagged := t.flagged[project := reason]))
  }

  function SaturatingSub(a: u64, b: u64): u64 {
    if a >= b then a - b else 0
  }

  predicate MonitoringCurrent(s: Oracle, now: u64, project: string) {
    project in s.latest && SaturatingSub(now, s.latest[project]) <= FRESHNESS_SECS
  }

  class CarbonOracle {
    const verify: Verifier
    var admin: Option<Address>
    var oracle: Option<Address>
    var publicKey: Option<PublicKey>
    var nonce: u64
    var monitoring: map<(string, string), MonitoringData>
    var latest: map<string, u64>
    var prices: map<(string, u32), i128>
    var flagged: map<string, string>
    ghost var accepted: seq<MonitoringData>
    ghost var epoch: seq<u64>

    ghost function State(): Oracle
      reads this
    {
      Oracle(admin, oracle, publicKey, nonce, monitoring, latest, prices, flagged, accepted, epoch)
    }

    constructor (verify: Verifier)
      ensures State() == EMPTY_ORACLE && this.verify == verify
    {
      this.verify := verify;
      admin, oracle, publicKey, nonce := None, None, None, 0;
      monitoring, latest, prices, flagged := map[], map[], map[], map[];
      accepted, epoch := [], [];
    }

    method InitializeOracle(env: Env, caller: Address, signer: Address, key: PublicKey) returns (r: Result<()>)
      modifies this
      ensures r == Initialize(old(State()), env, caller, signer, key).Outcome()
      ensures State() == Commit(old(State()), Initialize(old(State()), env, caller, signer, key))
    {
      if admin.Some? { return Err(AlreadyInitialized); }
      if caller !in env.auth { return Trap; }
      admin, oracle, publicKey, nonce, epoch := Some(caller), Some(signer), Some(key), 0, [];
      return Ok(());
    }

    method RotateOracle(env: Env, caller: Address, signer: Address, key: PublicKey) returns (r: Result<()>)
      modifies this
      ensures r == Rotate(old(State()), env, caller, signer, key).Outcome()
      ensures State() == Commit(old(State()), Rotate(old(State()), env, caller, signer, key))
    {
      if caller !in env.auth { return Trap; }
      if admin != Some(caller) { return Err(UnauthorizedVerifier); }
      oracle, publicKey, nonce, epoch := Some(signer), Some(key), 0, [];
      return Ok(());
    }

    /** Verifies a signed call and advances the nonce. */
    method VerifyOracleSignature(env: Env, m: Signed, p: Payload) returns (r: Result<()>)
      modifies this`nonce, this`epoch
      ensures r == Authenticate(verify, old(State()), env, m, p).Outcome()
      ensures State() == Commit(old(State()), Authenticate(verify, old(State()), env, m, p))
    {
      if m.signer !in env.auth { return Trap; }
      if oracle != Some(m.signer) { return Err(UnauthorizedOracle); }
      if m.nonce != nonce { return Err(InvalidNonce); }
      if publicKey.None? { return Err(UnauthorizedOracle); }
      if !verify(publicKey.value, p, m.signature) || nonce == U64_MAX { return Trap; }
      nonce := nonce + 1;
      epoch := epoch + [m.nonce];
      return Ok(());
    }

    method SubmitMonitoringData(env: Env, m: Signed, d: Submission) returns (r: Result<()>)
      modifies this
      ensures r == Submit(verify, old(State()), env, m, d).Outcome()
      ensures State() == Commit(old(State()), Submit(verify, old(State()), env, m, d))
    {
      var savedNonce := nonce;
      ghost var savedEpoch := epoch;
      r := VerifyOracleSignature(env, m, Monitoring(d));
      if r.IsFailure() { return; }
      if d.tonnes <= 0 {
        nonce, epoch := savedNonce, savedEpoch;
        return Err(ZeroAmountNotAllowed);
      }
      var data := MonitoringData(d.projectId, d.period, d.tonnes, d.score, d.cid, m.signer, env.now);
      monitoring := monitoring[(d.projectId, d.period) := data];
      latest := latest[d.projectId := env.now];
      accepted := accepted + [data];
    }

    method UpdateCreditPrice(env: Env, m: Signed, methodology: string, vintage: u32, price: i128) returns (r: Result<()>)
      modifies this
      ensures r == UpdatePrice(verify, old(State()), env, m, methodology, vintage, price).Outcome()
      ensures State() == Commit(old(State()), UpdatePrice(verify, old(State()), env, m, methodology, vintage, price))
    {
      var savedNonce := nonce;
      ghost var savedEpoch := epoch;
      r := VerifyOracleSignature(env, m, Price(methodology, vintage, price));
      if r.IsFailure() { return; }
      if price <= 0 {
        nonce, epoch := savedNonce, savedEpoch;
        return Err(ZeroAmountNotAllowed);
      }
      var currentYear := Calendar.GetCurrentYear(env.now);
      r := VintageGate(vintage, currentYear);
      if r.IsFailure() {
        nonce, epoch := savedNonce, savedEpoch;
        return;
      }
      prices := prices[(methodology, vintage) := price];
    }

    method FlagProject(env: Env, m: Signed, project: string, reason: string) returns (r: Result<()>)
      modifies this
      ensures r == Flag(verify, old(State()), env, m, project, reason).Outcome()
      ensures State() == Commit(old(State()), Flag(verify, old(State()), env, m, project, reason))
    {
      r := VerifyOracleSignature(env, m, Flagging(project, reason));
      if r.IsFailure() { return; }
      flagged := flagged[project := reason];
    }

    method IsMonitoringCurrent(env: Env, project: string) returns (current: bool)
      ensures current <==> MonitoringCurrent(State(), env.now, project)
    {
      if project !in latest { return false; }
      var age := if env.now >= latest[project] then env.now - latest[project] else 0;
      return age <= FRESHNESS_SECS;
    }
  }
}
