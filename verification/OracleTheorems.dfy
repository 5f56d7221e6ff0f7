/**
  Runs of the oracle contract: freshness means a recent accepted submission,
  nonces are used in order and once between rotations, prices are positive.
 */
module OracleTheorems {
  import opened Platform
  import opened CarbonOracleContract
  import Calendar

  datatype Call =
    | InitializeCall(admin: Address, oracle: Address, key: PublicKey)
    | RotateCall(caller: Address, oracle: Address, key: PublicKey)
    | SignedCall(m: Signed, p: Payload)

  ghost function Accept(verify: Verifier, s: Oracle, env: Env, m: Signed, p: Payload): Result<Oracle> {
    match p
    case Monitoring(d) => Submit(verify, s, env, m, d)
    case Price(methodology, vintage, price) => UpdatePrice(verify, s, env, m, methodology, vintage, price)
    case Flagging(project, reason) => Flag(verify, s, env, m, project, reason)
  }

  ghost function Attempt(verify: Verifier, s: Oracle, env: Env, call: Call): Result<Oracle> {
    match call
    case InitializeCall(admin, oracle, key) => Initialize(s, env, admin, oracle, key)
    case RotateCall(caller, oracle, key) => Rotate(s, env, caller, oracle, key)
    case SignedCall(m, p) => Accept(verify, s, env, m, p)
  }

  ghost function Run(verify: Verifier, calls: seq<(Env, Call)>): Oracle {
    if calls == [] then EMPTY_ORACLE
    else
      var before := Run(verify, calls[..|calls| - 1]);
      var (env, call) := calls[|calls| - 1];
      Commit(before, Attempt(verify, before, env, call))
  }

  /** Ledger time does not go backwards, and has reached at most `now`. */
  predicate ClockUpTo(calls: seq<(Env, Call)>, now: u64) {
    && (forall i, j :: 0 <= i < j < |calls| ==> calls[i].0.now <= calls[j].0.now)
    && (forall i :: 0 <= i < |calls| ==> calls[i].0.now <= now)
  }

  /** The index holds the latest time among the project's accepted submissions, and that record is still stored. */
  ghost predicate LatestSound(s: Oracle, project: string) {
    && (project in s.latest <==> exists i :: 0 <= i < |s.accepted| && s.accepted[i].projectId == project)
    && (project in s.latest ==>
          && (forall i :: 0 <= i < |s.accepted| && s.accepted[i].projectId == project ==>
                s.accepted[i].submittedAt <= s.latest[project])
          && (exists k :: k in s.monitoring && k.0 == project && s.monitoring[k].submittedAt == s.latest[project]))
  }

  /** Stored records are accepted submissions, filed under their own project and period. */
  ghost predicate RecordsSound(s: Oracle) {
    forall k :: k in s.monitoring ==> s.monitoring[k] in s.accepted && k == (s.monitoring[k].projectId, s.monitoring[k].period)
  }

  ghost predicate Inv(s: Oracle, now: int) {
    && RecordsSound(s)
    && (forall p :: LatestSound(s, p))
    && (forall i :: 0 <= i < |s.accepted| ==> s.accepted[i].submittedAt <= now)
  }

  /** What an accepted submission adds. */
  lemma SubmitKeepsLatest(s: Oracle, t: Oracle, data: MonitoringData, now: u64, p: string)
    requires Inv(s, now) && data.submittedAt == now
    requires t.accepted == s.accepted + [data]
    requires t.latest == s.latest[data.projectId := now]
    requires t.monitoring == s.monitoring[(data.projectId, data.period) := data]
    ensures LatestSound(t, p)
  {
    assert LatestSound(s, p);
    if p == data.projectId {
      assert t.accepted[|s.accepted|].projectId == p;
      assert (data.projectId, data.period) in t.monitoring;
    } else {
      forall i | 0 <= i < |t.accepted| && t.accepted[i].projectId == p ensures t.accepted[i] == s.accepted[i] {
      }
      if p in s.latest {
        var k :| k in s.monitoring && k.0 == p && s.monitoring[k].submittedAt == s.latest[p];
        assert k in t.monitoring && t.monitoring[k] == s.monitoring[k];
        var i :| 0 <= i < |s.accepted| && s.accepted[i].projectId == p;
        assert t.accepted[i].projectId == p;
      }
    }
  }

  lemma SubmitSound(verify: Verifier, s: Oracle, env: Env, m: Signed, d: Submission)
    requires Inv(s, env.now) && Submit(verify, s, env, m, d).Ok?
    ensures Inv(Submit(verify, s, env, m, d).value, env.now)
  {
    var t := Submit(verify, s, env, m, d).value;
    var data := t.accepted[|s.accepted|];
    forall p ensures LatestSound(t, p) {
      SubmitKeepsLatest(s, t, data, env.now, p);
    }
    forall k | k in t.monitoring ensures t.monitoring[k] in t.accepted {
      if k != (data.projectId, data.period) {
        assert s.monitoring[k] in s.accepted;
      }
    }
  }

  /** Calls other than submissions leave records, index and history alone. */
  lemma OtherSound(s: Oracle, t: Oracle, now: int)
    requires Inv(s, now)
    requires t.accepted == s.accepted && t.latest == s.latest && t.monitoring == s.monitoring
    ensures Inv(t, now)
  {
    forall p ensures LatestSound(t, p) {
      assert LatestSound(s, p);
    }
  }

  lemma OtherStep(verify: Verifier, s: Oracle, env: Env, call: Call)
    requires !(call.SignedCall? && call.p.Monitoring?)
    ensures var t := Commit(s, Attempt(verify, s, env, call));
            t.accepted == s.accepted && t.latest == s.latest && t.monitoring == s.monitoring
  {
    hide VintageGate, Calendar.CurrentYear, Submit;
  }

  lemma StepSound(verify: Verifier, s: Oracle, env: Env, call: Call, before: int)
    requires Inv(s, before) && before <= env.now
    ensures Inv(Commit(s, Attempt(verify, s, env, call)), env.now)
  {
    hide Inv, Submit, UpdatePrice, Flag, Initialize, Rotate;
    LaterStillSound(s, before, env.now);
    if call.SignedCall? && call.p.Monitoring? {
      if Submit(verify, s, env, call.m, call.p.d).Ok? {
        SubmitSound(verify, s, env, call.m, call.p.d);
      }
    } else {
      OtherStep(verify, s, env, call);
      OtherSound(s, Commit(s, Attempt(verify, s, env, call)), env.now);
    }
  }

  lemma {:induction false} RunSound(verify: Verifier, calls: seq<(Env, Call)>, now: u64)
    requires ClockUpTo(calls, now)
    ensures Inv(Run(verify, calls), now)
  {
    hide Inv, Attempt;
    if calls == [] {
      NothingAccepted(now);
    } else {
      var n := |calls| - 1;
      var init := calls[..n];
      assert ClockUpTo(init, calls[n].0.now) by {
        assert forall i :: 0 <= i < n ==> init[i] == calls[i];
      }
      RunSound(verify, init, calls[n].0.now);
      StepSound(verify, Run(verify, init), calls[n].0, calls[n].1, calls[n].0.now);
      LaterStillSound(Run(verify, calls), calls[n].0.now, now);
    }
  }

  lemma NothingAccepted(now: u64)
    ensures Inv(EMPTY_ORACLE, now)
  {
  }

  lemma LaterStillSound(s: Oracle, now: int, later: int)
    requires Inv(s, now) && now <= later
    ensures Inv(s, later)
  {
  }

  /** Some accepted submission of the project is at most 365 days old. */
  ghost predicate RecentlySubmitted(s: Oracle, now: int, project: string) {
    exists i :: 0 <= i < |s.accepted| && s.accepted[i].projectId == project &&
                now - s.accepted[i].submittedAt <= FRESHNESS_SECS
  }

  /** Some stored record of the project is at most 365 days old. */
  ghost predicate RecentlyStored(s: Oracle, now: int, project: string) {
    exists k :: k in s.monitoring && k.0 == project && now - s.monitoring[k].submittedAt <= FRESHNESS_SECS
  }

  /**
    Monitoring is current if and only if some submission ever accepted for the
    project lies in the last 365 days, and if and only if some record still
    stored does: overwriting the record of a period never hides a fresh one.
   */
  lemma CurrentExactly(verify: Verifier, calls: seq<(Env, Call)>, now: u64, project: string)
    requires ClockUpTo(calls, now)
    ensures var s := Run(verify, calls);
            && (MonitoringCurrent(s, now, project) <==> RecentlySubmitted(s, now, project))
            && (MonitoringCurrent(s, now, project) <==> RecentlyStored(s, now, project))
  {
    var s := Run(verify, calls);
    RunSound(verify, calls, now);
    assert LatestSound(s, project);
    if MonitoringCurrent(s, now, project) {
      var k :| k in s.monitoring && k.0 == project && s.monitoring[k].submittedAt == s.latest[project];
      var i :| 0 <= i < |s.accepted| && s.accepted[i] == s.monitoring[k];
      assert s.accepted[i].submittedAt <= now;
    }
    if RecentlyStored(s, now, project) {
      var k :| k in s.monitoring && k.0 == project && now - s.monitoring[k].submittedAt <= FRESHNESS_SECS;
      assert s.monitoring[k] in s.accepted;
    }
  }

  // ---- Nonces and prices, whatever the clock does ----

  ghost predicate CountersSound(s: Oracle) {
    && (s.admin.None? ==> s.oracle.None?)
    && (forall k :: k in s.prices ==> s.prices[k] > 0 && k.1 >= 1990)
    && |s.epoch| == s.nonce
    && (forall i :: 0 <= i < |s.epoch| ==> s.epoch[i] == i)
  }

  /** An accepted signed call uses the stored nonce up, and leaves the admin in place. */
  lemma SignedStep(verify: Verifier, s: Oracle, env: Env, m: Signed, p: Payload)
    requires Accept(verify, s, env, m, p).Ok?
    ensures var t := Accept(verify, s, env, m, p).value;
            && m.nonce == s.nonce && t.nonce == s.nonce + 1 && t.oracle == Some(m.signer) == s.oracle
            && t.admin == s.admin && t.publicKey == s.publicKey && t.epoch == s.epoch + [m.nonce]
  {
    hide Calendar.CurrentYear, VintageGate;
  }

  lemma PricesStep(verify: Verifier, s: Oracle, env: Env, m: Signed, p: Payload)
    requires Accept(verify, s, env, m, p).Ok?
    ensures var t := Accept(verify, s, env, m, p).value;
            if p.Price? then p.price > 0 && p.vintage >= 1990 && t.prices == s.prices[(p.methodology, p.vintage) := p.price]
            else t.prices == s.prices
  {
    hide Calendar.CurrentYear;
  }

  lemma StepCounters(verify: Verifier, s: Oracle, env: Env, call: Call)
    requires CountersSound(s)
    ensures CountersSound(Commit(s, Attempt(verify, s, env, call)))
  {
    hide Accept;
    if call.SignedCall? && Attempt(verify, s, env, call).Ok? {
      SignedStep(verify, s, env, call.m, call.p);
      PricesStep(verify, s, env, call.m, call.p);
    }
  }

  lemma {:induction false} RunCounters(verify: Verifier, calls: seq<(Env, Call)>)
    ensures CountersSound(Run(verify, calls))
  {
    hide Attempt;
    if calls != [] {
      var n := |calls| - 1;
      RunCounters(verify, calls[..n]);
      StepCounters(verify, Run(verify, calls[..n]), calls[n].0, calls[n].1);
    }
  }

  /** Since the last rotation the accepted nonces are 0, 1, 2, ...: none is accepted twice, none is skipped. */
  lemma NoncesInOrder(verify: Verifier, calls: seq<(Env, Call)>)
    ensures |Run(verify, calls).epoch| == Run(verify, calls).nonce
    ensures forall i :: 0 <= i < |Run(verify, calls).epoch| ==> Run(verify, calls).epoch[i] == i
  {
    RunCounters(verify, calls);
  }

  /** Every benchmark price ever stored is positive and of a vintage from 1990 on. */
  lemma PricesPositive(verify: Verifier, calls: seq<(Env, Call)>, k: (string, u32))
    requires k in Run(verify, calls).prices
    ensures Run(verify, calls).prices[k] > 0 && k.1 >= 1990
  {
    RunCounters(verify, calls);
  }

  // ---- Signed calls presented again ----

  /** The call after `calls[..i]` is accepted. */
  ghost predicate AcceptedAt(verify: Verifier, calls: seq<(Env, Call)>, i: nat)
    requires i < |calls|
  {
    Attempt(verify, Run(verify, calls[..i]), calls[i].0, calls[i].1).Ok?
  }

  lemma PrefixStep(verify: Verifier, calls: seq<(Env, Call)>, n: nat)
    requires n < |calls|
    ensures Run(verify, calls[..n + 1]) ==
            Commit(Run(verify, calls[..n]), Attempt(verify, Run(verify, calls[..n]), calls[n].0, calls[n].1))
  {
    assert calls[..n + 1][..n] == calls[..n];
  }

  /** Only a rotation takes an initialised oracle's nonce back. */
  lemma NonceGrows(verify: Verifier, s: Oracle, env: Env, call: Call)
    requires s.admin.Some? && !(call.RotateCall? && Attempt(verify, s, env, call).Ok?)
    ensures var t := Commit(s, Attempt(verify, s, env, call));
            t.admin.Some? && t.nonce >= s.nonce && t.oracle == s.oracle && t.publicKey == s.publicKey
  {
    hide Accept;
    if call.SignedCall? && Attempt(verify, s, env, call).Ok? {
      SignedStep(verify, s, env, call.m, call.p);
    }
  }

  /** No rotation is accepted after call `i` and before call `n`. */
  ghost predicate NoRotation(verify: Verifier, calls: seq<(Env, Call)>, i: nat, n: nat)
    requires n <= |calls|
  {
    forall k :: i < k < n && calls[k].1.RotateCall? ==> !AcceptedAt(verify, calls, k)
  }

  /** Once call `i` is accepted its nonce is used up, under the same key, until the next rotation. */
  lemma {:induction false} NonceUsedUp(verify: Verifier, calls: seq<(Env, Call)>, i: nat, n: nat)
    requires i < n <= |calls| && calls[i].1.SignedCall? && AcceptedAt(verify, calls, i)
    requires NoRotation(verify, calls, i, n)
    ensures var s, t := Run(verify, calls[..i]), Run(verify, calls[..n]);
            t.admin.Some? && t.nonce > calls[i].1.m.nonce && t.oracle == s.oracle && t.publicKey == s.publicKey
  {
    hide Run, Accept;
    PrefixStep(verify, calls, n - 1);
    if n == i + 1 {
      RunCounters(verify, calls[..i]);
      SignedStep(verify, Run(verify, calls[..i]), calls[i].0, calls[i].1.m, calls[i].1.p);
    } else {
      NonceUsedUp(verify, calls, i, n - 1);
      NonceGrows(verify, Run(verify, calls[..n - 1]), calls[n - 1].0, calls[n - 1].1);
    }
  }

  /** Until the next rotation an accepted signed call, and any other with its nonce, is refused at every later point. */
  lemma ReplayRefused(verify: Verifier, calls: seq<(Env, Call)>, i: nat, n: nat, env: Env, m: Signed, p: Payload)
    requires i < n <= |calls| && calls[i].1.SignedCall? && AcceptedAt(verify, calls, i)
    requires NoRotation(verify, calls, i, n)
    requires m.nonce == calls[i].1.m.nonce
    ensures Accept(verify, Run(verify, calls[..n]), env, m, p).IsFailure()
  {
    hide Run;
    NonceUsedUp(verify, calls, i, n);
  }

  /**
    No signature covers the nonce: until the next rotation the payload and signature
    of an accepted call are accepted again exactly under the nonce then stored, from
    the authorised signer, and for a price while its vintage is allowed.
   */
  lemma RepresentedExactly(verify: Verifier, calls: seq<(Env, Call)>, i: nat, n: nat, env: Env, nonce: u64)
    requires i < n <= |calls| && calls[i].1.SignedCall? && AcceptedAt(verify, calls, i)
    requires NoRotation(verify, calls, i, n)
    ensures var t, m, p := Run(verify, calls[..n]), calls[i].1.m, calls[i].1.p;
            Accept(verify, t, env, m.(nonce := nonce), p).Ok? <==>
            && nonce == t.nonce < U64_MAX
            && m.signer in env.auth
            && (p.Price? ==> VintageGate(p.vintage, Calendar.CurrentYear(env.now)).Ok?)
  {
    hide Run, VintageGate, Calendar.CurrentYear;
    NonceUsedUp(verify, calls, i, n);
  }

  /**
    A submission accepted once is accepted again under the next nonce, and after a
    rotation to the same signer and key the very same call is accepted again.
   */
  lemma ReplayAccepted(verify: Verifier, env: Env, key: PublicKey, d: Submission, signature: string)
      returns (calls: seq<(Env, Call)>)
    requires verify(key, Monitoring(d), signature) && d.tonnes > 0 && {"admin", "oracle"} <= env.auth
    ensures var m := Signed("oracle", 0, signature);
            calls == [(env, InitializeCall("admin", "oracle", key)),
                      (env, SignedCall(m, Monitoring(d))),
                      (env, SignedCall(m.(nonce := 1), Monitoring(d))),
                      (env, RotateCall("admin", "oracle", key)),
                      (env, SignedCall(m, Monitoring(d)))]
    ensures forall i :: 0 <= i < 5 ==> AcceptedAt(verify, calls, i)
    ensures |Run(verify, calls).accepted| == 3
  {
    var m := Signed("oracle", 0, signature);
    calls := [(env, InitializeCall("admin", "oracle", key)),
              (env, SignedCall(m, Monitoring(d))),
              (env, SignedCall(m.(nonce := 1), Monitoring(d))),
              (env, RotateCall("admin", "oracle", key)),
              (env, SignedCall(m, Monitoring(d)))];
    hide Run;
    NothingRun(verify, calls);
    PrefixStep(verify, calls, 0);
    PrefixStep(verify, calls, 1);
    PrefixStep(verify, calls, 2);
    PrefixStep(verify, calls, 3);
    PrefixStep(verify, calls, 4);
    assert calls[..5] == calls;
  }

  lemma NothingRun(verify: Verifier, calls: seq<(Env, Call)>)
    ensures Run(verify, calls[..0]) == EMPTY_ORACLE
  {
  }

  // ---- Flags ----

  /** Call `i` is an accepted flag on the project. */
  ghost predicate FlagsAt(verify: Verifier, calls: seq<(Env, Call)>, i: nat, project: string)
    requires i < |calls|
  {
    calls[i].1.SignedCall? && calls[i].1.p.Flagging? && calls[i].1.p.project == project && AcceptedAt(verify, calls, i)
  }

  lemma FlagStep(verify: Verifier, s: Oracle, env: Env, m: Signed, p: Payload)
    requires Accept(verify, s, env, m, p).Ok?
    ensures Accept(verify, s, env, m, p).value.flagged == if p.Flagging? then s.flagged[p.project := p.reason] else s.flagged
  {
    hide VintageGate, Calendar.CurrentYear;
  }

  lemma StepFlags(verify: Verifier, calls: seq<(Env, Call)>, n: nat, project: string)
    requires n < |calls|
    ensures var s, t := Run(verify, calls[..n]), Run(verify, calls[..n + 1]);
            if FlagsAt(verify, calls, n, project)
            then project in t.flagged && t.flagged[project] == calls[n].1.p.reason
            else (project in t.flagged <==> project in s.flagged)
                 && (project in s.flagged ==> t.flagged[project] == s.flagged[project])
  {
    hide Run, Accept;
    PrefixStep(verify, calls, n);
    var (env, call) := calls[n];
    if call.SignedCall? && AcceptedAt(verify, calls, n) {
      FlagStep(verify, Run(verify, calls[..n]), env, call.m, call.p);
    }
  }

  /** Call `i` is the last of the first `n` that flags the project. */
  ghost predicate LastFlag(verify: Verifier, calls: seq<(Env, Call)>, i: nat, n: nat, project: string)
    requires i < n <= |calls|
  {
    FlagsAt(verify, calls, i, project) && forall j :: i < j < n ==> !FlagsAt(verify, calls, j, project)
  }

  /**
    After any run a project is flagged if and only if some call flagged it, and the
    stored reason is that of the last such call: no call takes a flag back.
   */
  lemma {:induction false} FlaggedExactly(verify: Verifier, calls: seq<(Env, Call)>, n: nat, project: string)
    requires n <= |calls|
    ensures var s := Run(verify, calls[..n]);
            && (project in s.flagged <==> exists i :: 0 <= i < n && FlagsAt(verify, calls, i, project))
            && (forall i :: 0 <= i < n && LastFlag(verify, calls, i, n, project) ==>
                  project in s.flagged && s.flagged[project] == calls[i].1.p.reason)
  {
    hide Run, FlagsAt;
    if n == 0 {
      NothingRun(verify, calls);
    } else {
      FlaggedExactly(verify, calls, n - 1, project);
      StepFlags(verify, calls, n - 1, project);
      if FlagsAt(verify, calls, n - 1, project) {
        assert forall i :: 0 <= i < n - 1 ==> !LastFlag(verify, calls, i, n, project);
      } else {
        assert forall i :: 0 <= i < n - 1 && LastFlag(verify, calls, i, n, project) ==>
                             LastFlag(verify, calls, i, n - 1, project);
      }
    }
  }
}
