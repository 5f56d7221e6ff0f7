/**
  What the oracle contract answers to every call, and where everything it stores
  came from: an accepted call whose signature verified under the key of its time.
 */
module OracleOutcomes {
  import opened Platform
  import opened CarbonOracleContract
  import opened OracleTheorems
  import Calendar

  // ---- Answers ----

  lemma InitializeOutcome(s: Oracle, env: Env, admin: Address, oracle: Address, key: PublicKey)
    ensures var r := Initialize(s, env, admin, oracle, key);
            if s.admin.Some? then r == Err(AlreadyInitialized)
            else if admin !in env.auth then r == Trap
            else r == Ok(s.(admin := Some(admin), oracle := Some(oracle), publicKey := Some(key), nonce := 0, epoch := []))
  {
  }

  /** Only the admin rotates; records, prices and flags stay. */
  lemma RotateOutcome(s: Oracle, env: Env, caller: Address, oracle: Address, key: PublicKey)
    ensures var r := Rotate(s, env, caller, oracle, key);
            if caller !in env.auth then r == Trap
            else if s.admin != Some(caller) then r == Err(UnauthorizedVerifier)
            else r == Ok(s.(oracle := Some(oracle), publicKey := Some(key), nonce := 0, epoch := []))
  {
  }

  /** The Gregorian year of a timestamp. */
  ghost function YearOf(now: u64): int {
    Calendar.GregorianYear(now / 86_400)
  }

  lemma YearOutcome(now: u64)
    ensures Calendar.CurrentYear(now) == if YearOf(now) <= 2_147_483_647 then Ok(YearOf(now)) else Trap
  {
  }

  /** What a signed payload says is refused for; None if nothing. */
  ghost function Refusal(p: Payload, now: u64): Option<Result<()>> {
    match p
    case Monitoring(d) => if d.tonnes <= 0 then Some(Err(ZeroAmountNotAllowed)) else None
    case Price(_, vintage, price) =>
      if price <= 0 then Some(Err(ZeroAmountNotAllowed))
      else if YearOf(now) > 2_147_483_647 then Some(Trap)
      else if vintage < 1990 || vintage > YearOf(now) + 1 then Some(Err(InvalidVintageYear))
      else None
    case Flagging(_, _) => None
  }

  /** The refusal as an answer of any type. */
  function Answer<T>(refusal: Result<()>): Result<T>
    requires !refusal.Ok?
  {
    if refusal.Err? then Err(refusal.error) else Trap
  }

  /** A signed call is answered by the first of these that applies; a signature that does not verify traps. */
  lemma AcceptOutcome(verify: Verifier, s: Oracle, env: Env, m: Signed, p: Payload)
    ensures var r := Accept(verify, s, env, m, p);
            if m.signer !in env.auth then r == Trap
            else if s.oracle != Some(m.signer) then r == Err(UnauthorizedOracle)
            else if m.nonce != s.nonce then r == Err(InvalidNonce)
            else if s.publicKey.None? then r == Err(UnauthorizedOracle)
            else if !verify(s.publicKey.value, p, m.signature) || m.nonce == 18_446_744_073_709_551_615 then r == Trap
            else match Refusal(p, env.now)
              case Some(refusal) => !refusal.Ok? && r == Answer(refusal)
              case None => r.Ok?
  {
    YearOutcome(env.now);
    hide YearOf, Calendar.CurrentYear;
  }

  /** A signed call is accepted exactly under these conditions, a verifying signature among them. */
  lemma AcceptExactly(verify: Verifier, s: Oracle, env: Env, m: Signed, p: Payload)
    ensures Accept(verify, s, env, m, p).Ok? <==>
            && m.signer in env.auth && s.oracle == Some(m.signer)
            && m.nonce == s.nonce < 18_446_744_073_709_551_615
            && s.publicKey.Some? && verify(s.publicKey.value, p, m.signature)
            && Refusal(p, env.now).None?
  {
    AcceptOutcome(verify, s, env, m, p);
    hide Accept, Refusal;
  }

  /** What an accepted signed call stores. */
  lemma AcceptLeaves(verify: Verifier, s: Oracle, env: Env, m: Signed, p: Payload)
    requires Accept(verify, s, env, m, p).Ok?
    ensures m.nonce == s.nonce < U64_MAX
    ensures var t := Accept(verify, s, env, m, p).value;
            var used := s.(nonce := s.nonce + 1, epoch := s.epoch + [s.nonce]);
            match p
            case Monitoring(d) =>
              var data := MonitoringData(d.projectId, d.period, d.tonnes, d.score, d.cid, m.signer, env.now);
              t == used.(monitoring := s.monitoring[(d.projectId, d.period) := data],
                         latest := s.latest[d.projectId := env.now], accepted := s.accepted + [data])
            case Price(methodology, vintage, price) => t == used.(prices := s.prices[(methodology, vintage) := price])
            case Flagging(project, reason) => t == used.(flagged := s.flagged[project := reason])
  {
    hide VintageGate, Calendar.CurrentYear;
  }

  // ---- Signatures over a run ----

  /** Every signed call that a run accepts verified under the key stored before it, from the oracle stored before it. */
  lemma SignaturesVerified(verify: Verifier, calls: seq<(Env, Call)>, i: nat)
    requires i < |calls| && calls[i].1.SignedCall? && AcceptedAt(verify, calls, i)
    ensures var s, m := Run(verify, calls[..i]), calls[i].1.m;
            && s.publicKey.Some? && verify(s.publicKey.value, calls[i].1.p, m.signature)
            && s.oracle == Some(m.signer) && m.signer in calls[i].0.auth && m.nonce == s.nonce
  {
    AcceptExactly(verify, Run(verify, calls[..i]), calls[i].0, calls[i].1.m, calls[i].1.p);
  }

  /** Call `i` is an accepted initialisation or rotation. */
  ghost predicate KeysAt(verify: Verifier, calls: seq<(Env, Call)>, i: nat)
    requires i < |calls|
  {
    !calls[i].1.SignedCall? && AcceptedAt(verify, calls, i)
  }

  /** The number of accepted signed calls from call `i` on, before call `n`. */
  ghost function SignedBetween(verify: Verifier, calls: seq<(Env, Call)>, i: nat, n: nat): nat
    requires i <= n <= |calls|
  {
    if i == n then 0
    else SignedBetween(verify, calls, i, n - 1) + if calls[n - 1].1.SignedCall? && AcceptedAt(verify, calls, n - 1) then 1 else 0
  }

  lemma StepKeys(verify: Verifier, s: Oracle, env: Env, call: Call)
    requires CountersSound(s)
    ensures var r := Attempt(verify, s, env, call);
            var t := Commit(s, r);
            if r.Ok? && !call.SignedCall? then t.oracle == Some(call.oracle) && t.publicKey == Some(call.key) && t.nonce == 0
            else t.oracle == s.oracle && t.publicKey == s.publicKey &&
                 t.nonce == s.nonce + if r.Ok? then 1 else 0
  {
    hide Accept;
    if call.SignedCall? && Attempt(verify, s, env, call).Ok? {
      SignedStep(verify, s, env, call.m, call.p);
    }
  }

  /**
    Signer and key are those that the last accepted initialisation or rotation named,
    and the nonce counts the signed calls accepted since.
   */
  lemma {:induction false} KeysExactly(verify: Verifier, calls: seq<(Env, Call)>, i: nat, n: nat)
    requires i < n <= |calls| && KeysAt(verify, calls, i)
    requires forall j :: i < j < n ==> !KeysAt(verify, calls, j)
    ensures var s := Run(verify, calls[..n]);
            && s.oracle == Some(calls[i].1.oracle) && s.publicKey == Some(calls[i].1.key)
            && s.nonce == SignedBetween(verify, calls, i + 1, n)
  {
    hide Run, Attempt;
    PrefixStep(verify, calls, n - 1);
    RunCounters(verify, calls[..n - 1]);
    StepKeys(verify, Run(verify, calls[..n - 1]), calls[n - 1].0, calls[n - 1].1);
    if i < n - 1 {
      KeysExactly(verify, calls, i, n - 1);
      assert !KeysAt(verify, calls, n - 1);
    }
  }

  // ---- Where records come from ----

  /** Call `i` is an accepted submission for the project and period. */
  ghost predicate SubmitsAt(verify: Verifier, calls: seq<(Env, Call)>, i: nat, project: string, period: string)
    requires i < |calls|
  {
    && calls[i].1.SignedCall? && calls[i].1.p.Monitoring?
    && calls[i].1.p.d.projectId == project && calls[i].1.p.d.period == period && AcceptedAt(verify, calls, i)
  }

  lemma StepRecords(verify: Verifier, calls: seq<(Env, Call)>, n: nat, project: string, period: string)
    requires n < |calls|
    ensures var s, t := Run(verify, calls[..n]), Run(verify, calls[..n + 1]);
            var k := (project, period);
            if SubmitsAt(verify, calls, n, project, period) then
              var d := calls[n].1.p.d;
              k in t.monitoring && t.monitoring[k] ==
                MonitoringData(project, period, d.tonnes, d.score, d.cid, calls[n].1.m.signer, calls[n].0.now)
            else (k in t.monitoring <==> k in s.monitoring) && (k in s.monitoring ==> t.monitoring[k] == s.monitoring[k])
  {
    hide Run, Accept;
    PrefixStep(verify, calls, n);
    var (env, call) := calls[n];
    if call.SignedCall? && AcceptedAt(verify, calls, n) {
      AcceptLeaves(verify, Run(verify, calls[..n]), env, call.m, call.p);
    }
  }

  /** Call `i` is the last of the first `n` that submits for the project and period. */
  ghost predicate LastSubmit(verify: Verifier, calls: seq<(Env, Call)>, i: nat, n: nat, project: string, period: string)
    requires i < n <= |calls|
  {
    SubmitsAt(verify, calls, i, project, period) && forall j :: i < j < n ==> !SubmitsAt(verify, calls, j, project, period)
  }

  /** The stored record of a project and period is the last accepted submission of it, and there is one exactly if there was one. */
  lemma {:induction false} RecordExactly(verify: Verifier, calls: seq<(Env, Call)>, n: nat, project: string, period: string)
    requires n <= |calls|
    ensures var s, k := Run(verify, calls[..n]), (project, period);
            && (k in s.monitoring <==> exists i :: 0 <= i < n && SubmitsAt(verify, calls, i, project, period))
            && (forall i :: 0 <= i < n && LastSubmit(verify, calls, i, n, project, period) ==>
                  var d := calls[i].1.p.d;
                  k in s.monitoring && s.monitoring[k] ==
                    MonitoringData(project, period, d.tonnes, d.score, d.cid, calls[i].1.m.signer, calls[i].0.now))
  {
    hide Run, SubmitsAt;
    if n == 0 {
      NothingRun(verify, calls);
    } else {
      RecordExactly(verify, calls, n - 1, project, period);
      StepRecords(verify, calls, n - 1, project, period);
      if SubmitsAt(verify, calls, n - 1, project, period) {
        assert forall i :: 0 <= i < n - 1 ==> !LastSubmit(verify, calls, i, n, project, period);
        assert calls[n - 1].1.SignedCall? && calls[n - 1].1.p.Monitoring? by { SubmitIsSigned(verify, calls, n - 1, project, period); }
      } else {
        assert forall i :: 0 <= i < n - 1 && LastSubmit(verify, calls, i, n, project, period) ==>
                             LastSubmit(verify, calls, i, n - 1, project, period);
      }
    }
  }

  lemma SubmitIsSigned(verify: Verifier, calls: seq<(Env, Call)>, i: nat, project: string, period: string)
    requires i < |calls| && SubmitsAt(verify, calls, i, project, period)
    ensures calls[i].1.SignedCall? && calls[i].1.p.Monitoring?
  {
  }

  // ---- Where prices come from ----

  /** Call `i` is an accepted price for the methodology and vintage. */
  ghost predicate PricesAt(verify: Verifier, calls: seq<(Env, Call)>, i: nat, methodology: string, vintage: u32)
    requires i < |calls|
  {
    && calls[i].1.SignedCall? && calls[i].1.p.Price?
    && calls[i].1.p.methodology == methodology && calls[i].1.p.vintage == vintage && AcceptedAt(verify, calls, i)
  }

  lemma StepPrices(verify: Verifier, calls: seq<(Env, Call)>, n: nat, methodology: string, vintage: u32)
    requires n < |calls|
    ensures var s, t := Run(verify, calls[..n]), Run(verify, calls[..n + 1]);
            var k := (methodology, vintage);
            if PricesAt(verify, calls, n, methodology, vintage) then k in t.prices && t.prices[k] == calls[n].1.p.price
            else (k in t.prices <==> k in s.prices) && (k in s.prices ==> t.prices[k] == s.prices[k])
  {
    hide Run, Accept;
    PrefixStep(verify, calls, n);
    var (env, call) := calls[n];
    if call.SignedCall? && AcceptedAt(verify, calls, n) {
      AcceptLeaves(verify, Run(verify, calls[..n]), env, call.m, call.p);
    }
  }

  /** Call `i` is the last of the first `n` that prices the methodology and vintage. */
  ghost predicate LastPrice(verify: Verifier, calls: seq<(Env, Call)>, i: nat, n: nat, methodology: string, vintage: u32)
    requires i < n <= |calls|
  {
    PricesAt(verify, calls, i, methodology, vintage) && forall j :: i < j < n ==> !PricesAt(verify, calls, j, methodology, vintage)
  }

  /** The benchmark price of a methodology and vintage is the one accepted last, and there is one exactly if one was accepted. */
  lemma {:induction false} PriceExactly(verify: Verifier, calls: seq<(Env, Call)>, n: nat, methodology: string, vintage: u32)
    requires n <= |calls|
    ensures var s, k := Run(verify, calls[..n]), (methodology, vintage);
            && (k in s.prices <==> exists i :: 0 <= i < n && PricesAt(verify, calls, i, methodology, vintage))
            && (k in s.prices ==>
                  exists i :: 0 <= i < n && LastPrice(verify, calls, i, n, methodology, vintage) &&
                              s.prices[k] == calls[i].1.p.price)
  {
    hide Run, Attempt;
    if n == 0 {
      NothingRun(verify, calls);
    } else {
      PriceExactly(verify, calls, n - 1, methodology, vintage);
      StepPrices(verify, calls, n - 1, methodology, vintage);
      if PricesAt(verify, calls, n - 1, methodology, vintage) {
        assert LastPrice(verify, calls, n - 1, n, methodology, vintage);
      } else {
        assert forall i :: 0 <= i < n - 1 && LastPrice(verify, calls, i, n - 1, methodology, vintage) ==>
                             LastPrice(verify, calls, i, n, methodology, vintage);
      }
    }
  }

  // ---- Freshness, from the calls ----

  /** Call `i` is an accepted submission for the project. */
  ghost predicate ReportsAt(verify: Verifier, calls: seq<(Env, Call)>, i: nat, project: string)
    requires i < |calls|
  {
    && calls[i].1.SignedCall? && calls[i].1.p.Monitoring? && calls[i].1.p.d.projectId == project
    && AcceptedAt(verify, calls, i)
  }

  lemma StepLatest(verify: Verifier, calls: seq<(Env, Call)>, n: nat, project: string)
    requires n < |calls|
    ensures var s, t := Run(verify, calls[..n]), Run(verify, calls[..n + 1]);
            if ReportsAt(verify, calls, n, project) then project in t.latest && t.latest[project] == calls[n].0.now
            else (project in t.latest <==> project in s.latest) && (project in s.latest ==> t.latest[project] == s.latest[project])
  {
    hide Run, Accept;
    PrefixStep(verify, calls, n);
    var (env, call) := calls[n];
    if call.SignedCall? && AcceptedAt(verify, calls, n) {
      AcceptLeaves(verify, Run(verify, calls[..n]), env, call.m, call.p);
    }
  }

  /** Call `i` is the last of the first `n` that submits for the project. */
  ghost predicate LastReport(verify: Verifier, calls: seq<(Env, Call)>, i: nat, n: nat, project: string)
    requires i < n <= |calls|
  {
    ReportsAt(verify, calls, i, project) && forall j :: i < j < n ==> !ReportsAt(verify, calls, j, project)
  }

  /** The latest time of a project is that of its last accepted submission. */
  lemma {:induction false} LatestExactly(verify: Verifier, calls: seq<(Env, Call)>, n: nat, project: string)
    requires n <= |calls|
    ensures var s := Run(verify, calls[..n]);
            && (project in s.latest <==> exists i :: 0 <= i < n && ReportsAt(verify, calls, i, project))
            && (project in s.latest ==>
                  exists i :: 0 <= i < n && LastReport(verify, calls, i, n, project) && s.latest[project] == calls[i].0.now)
  {
    hide Run, ReportsAt;
    if n == 0 {
      NothingRun(verify, calls);
    } else {
      LatestExactly(verify, calls, n - 1, project);
      StepLatest(verify, calls, n - 1, project);
      if ReportsAt(verify, calls, n - 1, project) {
        assert LastReport(verify, calls, n - 1, n, project);
      } else {
        assert forall i :: 0 <= i < n - 1 && LastReport(verify, calls, i, n - 1, project) ==>
                             LastReport(verify, calls, i, n, project);
      }
    }
  }

  /** Whatever the clock does, monitoring is current if and only if the last accepted submission is at most 31 536 000 seconds old. */
  lemma CurrentByLast(verify: Verifier, calls: seq<(Env, Call)>, now: u64, project: string)
    ensures MonitoringCurrent(Run(verify, calls), now, project) <==>
            exists i :: 0 <= i < |calls| && LastReport(verify, calls, i, |calls|, project) && now - calls[i].0.now <= 31_536_000
  {
    hide Run, ReportsAt;
    LatestExactly(verify, calls, |calls|, project);
    assert calls[..|calls|] == calls;
    forall i, j | 0 <= i < |calls| && 0 <= j < |calls| && LastReport(verify, calls, i, |calls|, project) &&
                  LastReport(verify, calls, j, |calls|, project)
      ensures i == j
    {
    }
  }

  /** Monitoring is current if and only if some call of the last 31 536 000 seconds was an accepted submission of the project. */
  lemma CurrentFromCalls(verify: Verifier, calls: seq<(Env, Call)>, now: u64, project: string)
    requires ClockUpTo(calls, now)
    ensures MonitoringCurrent(Run(verify, calls), now, project) <==>
            exists i :: 0 <= i < |calls| && ReportsAt(verify, calls, i, project) && now - calls[i].0.now <= 31_536_000
  {
    hide Run, ReportsAt;
    LatestExactly(verify, calls, |calls|, project);
    assert calls[..|calls|] == calls;
    var s := Run(verify, calls);
    if project in s.latest {
      var i :| 0 <= i < |calls| && LastReport(verify, calls, i, |calls|, project) && s.latest[project] == calls[i].0.now;
      assert forall j :: 0 <= j < |calls| && ReportsAt(verify, calls, j, project) ==> calls[j].0.now <= calls[i].0.now;
    }
  }
}
