/**
  What the credit ledger answers to every call, read on a sound ledger in terms of
  credits and serials, and who owns and administers what after a run.
 */
module LedgerOutcomes {
  import opened Platform
  import opened CreditLedger
  import opened LedgerInvariant
  import LedgerTheorems

  // ---- Answers ----

  /** The first call to authorise itself becomes the admin's; nothing can have been minted before. */
  lemma InitializeOutcome(s: Ledger, env: Env, admin: Address)
    ensures var r := Initialize(s, env, admin);
            if s.admin.Some? then r == Err(AlreadyInitialized)
            else if admin !in env.auth then r == Trap
            else r == Ok(s.(admin := Some(admin), registry := []))
  {
  }

  /** The vintage guard: from 1990 to next year, by years of 31 557 600 seconds. */
  lemma VintageOutcome(vintage: u32, now: u64)
    ensures var r := VintageGate(vintage, ApproximateYear(now));
            var year := 1970 + (now / 31_557_600) % 4_294_967_296;
            if year > 4_294_967_295 then r == Trap
            else if vintage < 1990 then r == Err(InvalidVintageYear)
            else if year == 4_294_967_295 then r == Trap
            else if vintage > year + 1 then r == Err(InvalidVintageYear)
            else r == Ok(())
  {
  }

  /** The texts that a mint may carry. */
  predicate LengthsFit(m: MintArgs) {
    1 <= |m.projectId| <= 64 && 1 <= |m.batchId| <= 64 && 1 <= |m.metadataCid| <= 128
  }

  /** A mint is answered by the first of these that applies. */
  lemma MintOutcome(s: Ledger, env: Env, m: MintArgs)
    requires Inv(s)
    ensures var r := Mint(s, env, m);
            var vintage := VintageGate(m.vintageYear, ApproximateYear(env.now));
            if m.admin !in env.auth then r == Trap
            else if s.admin != Some(m.admin) then r == Err(UnauthorizedVerifier)
            else if !LengthsFit(m) then r == Err(ProjectNotFound)
            else if m.amount <= 0 then r == Err(ZeroAmountNotAllowed)
            else if m.amount > 1_000_000_000 then r == Err(BatchTooLarge)
            else if !(0 < m.serialStart < m.serialEnd) then r == Err(InvalidSerialRange)
            else if vintage == Trap then r == Trap
            else if vintage == Err(InvalidVintageYear) then r == Err(InvalidVintageYear)
            else if m.batchId in s.batches then r == Err(SerialNumberConflict)
            else if !LedgerTheorems.SharesNoSerial(s, m.serialStart, m.serialEnd) then r == Err(DoubleCountingDetected)
            else r.Ok?
  {
    VintageOutcome(m.vintageYear, env.now);
    if 0 < m.serialStart < m.serialEnd {
      LedgerTheorems.VerifyRangeExact(s, m.serialStart, m.serialEnd);
    }
    hide Inv, LedgerTheorems.SharesNoSerial, VintageGate, ApproximateYear, FreeRange, Minted;
  }

  /** What a mint adds: its range, its batch, active and unretired, and its place in the project's index. */
  lemma MintAdds(s: Ledger, env: Env, m: MintArgs)
    requires Mint(s, env, m).Ok?
    ensures var t := Mint(s, env, m).value;
            var index := if m.projectId in s.projectBatches then s.projectBatches[m.projectId] else [];
            && t.admin == s.admin && t.retired == s.retired && t.certificates == s.certificates && t.issued == s.issued
            && t.registry == s.registry + [SerialRange(m.serialStart, m.serialEnd)]
            && t.minted == s.minted + [m.batchId]
            && t.projectBatches == s.projectBatches[m.projectId := index + [m.batchId]]
            && t.batches.Keys == s.batches.Keys + {m.batchId}
            && (forall id :: id in s.batches ==> t.batches[id] == s.batches[id])
            && t.batches[m.batchId] ==
               CreditBatch(m.batchId, m.projectId, m.vintageYear, m.amount, m.serialStart, m.serialEnd,
                           env.now, Active, m.metadataCid, m.owner)
  {
    assert m.batchId !in s.batches;
    hide MintGate;
  }

  /** Credits of a batch retired so far. */
  function Gone(s: Ledger, id: string): int {
    if id in s.retired then s.retired[id] else 0
  }

  /** What is active of a sound batch is what is not retired. */
  lemma ActiveExactly(s: Ledger, id: string)
    requires BatchesSound(s) && id in s.batches
    ensures ActiveAmount(s, s.batches[id]) == s.batches[id].amount - Gone(s, id)
  {
    assert BatchSound(s, id);
  }

  /** A retirement is answered by the counter and the last serial it needs. */
  lemma RetireOutcome(s: Ledger, env: Env, a: RetireArgs)
    requires BatchesSound(s)
    ensures var r := Retire(s, env, a);
            if a.holder !in env.auth then r == Trap
            else if a.amount <= 0 then r == Err(ZeroAmountNotAllowed)
            else if a.batchId !in s.batches then r == Err(ProjectNotFound)
            else
              var left := s.batches[a.batchId].amount - Gone(s, a.batchId);
              var last := s.batches[a.batchId].serialStart + Gone(s, a.batchId) + a.amount - 1;
              if left == 0 then r == Err(AlreadyRetired)
              else if a.amount > left then r == Err(InsufficientCredits)
              else if last > 18_446_744_073_709_551_615 then r == Err(Arithmetic)
              else if last == 18_446_744_073_709_551_615 then r == Trap
              else r.Ok?
  {
    if a.batchId in s.batches {
      assert BatchSound(s, a.batchId);
    }
  }

  /** A transfer is answered by owner and counter. */
  lemma TransferOutcome(s: Ledger, env: Env, a: TransferArgs)
    requires BatchesSound(s)
    ensures var r := Transfer(s, env, a);
            if a.from !in env.auth then r == Trap
            else if a.amount <= 0 then r == Err(ZeroAmountNotAllowed)
            else if a.batchId !in s.batches then r == Err(ProjectNotFound)
            else if s.batches[a.batchId].owner != a.from then r == Err(UnauthorizedVerifier)
            else
              var left := s.batches[a.batchId].amount - Gone(s, a.batchId);
              if left == 0 then r == Err(AlreadyRetired)
              else if a.amount > left then r == Err(InsufficientCredits)
              else r.Ok?
  {
    if a.batchId in s.batches {
      assert BatchSound(s, a.batchId);
    }
  }

  // ---- Owners and admin over a run ----

  /** The call after `calls[..i]` is accepted. */
  predicate AcceptedAt(calls: seq<(Env, Call)>, i: nat)
    requires i < |calls|
  {
    Attempt(Run(calls[..i]), calls[i].0, calls[i].1).Ok?
  }

  lemma PrefixStep(calls: seq<(Env, Call)>, n: nat)
    requires n < |calls|
    ensures Run(calls[..n + 1]) == Step(Run(calls[..n]), calls[n].0, calls[n].1)
  {
    assert calls[..n + 1][..n] == calls[..n];
  }

  /** The receiver that an accepted call names for a batch, if it names one. */
  function Receiver(call: Call, id: string): Option<Address> {
    if call.MintCall? && call.m.batchId == id then Some(call.m.owner)
    else if call.TransferCall? && call.t.batchId == id then Some(call.t.to)
    else None
  }

  lemma StepOwner(s: Ledger, env: Env, call: Call, id: string)
    ensures var r := Attempt(s, env, call);
            var t := Step(s, env, call);
            && (r.Ok? && Receiver(call, id).Some? ==> id in t.batches && t.batches[id].owner == Receiver(call, id).value)
            && (!(r.Ok? && Receiver(call, id).Some?) ==>
                  (id in t.batches <==> id in s.batches) && (id in s.batches ==> t.batches[id].owner == s.batches[id].owner))
  {
    hide MintGate, VintageGate, ActiveAmount;
  }

  /** Call `i` names a receiver of the batch and no later accepted call before `n` does. */
  ghost predicate LastReceived(calls: seq<(Env, Call)>, i: nat, n: nat, id: string)
    requires i < n <= |calls|
  {
    && AcceptedAt(calls, i) && Receiver(calls[i].1, id).Some?
    && forall j :: i < j < n && AcceptedAt(calls, j) ==> Receiver(calls[j].1, id).None?
  }

  /** After any run a batch is owned by whom the last accepted mint or transfer of it named. */
  lemma {:induction false} OwnerExactly(calls: seq<(Env, Call)>, n: nat, i: nat, id: string)
    requires i < n <= |calls| && LastReceived(calls, i, n, id)
    ensures var s := Run(calls[..n]);
            id in s.batches && s.batches[id].owner == Receiver(calls[i].1, id).value
  {
    hide Run, Attempt, Receiver;
    PrefixStep(calls, n - 1);
    StepOwner(Run(calls[..n - 1]), calls[n - 1].0, calls[n - 1].1, id);
    if i < n - 1 {
      assert LastReceived(calls, i, n - 1, id);
      OwnerExactly(calls, n - 1, i, id);
    }
  }

  /** The admin is whom the one accepted initialisation of the run named. */
  lemma {:induction false} AdminExactly(calls: seq<(Env, Call)>, n: nat)
    requires n <= |calls|
    ensures var s := Run(calls[..n]);
            && (s.admin.Some? <==> exists i :: 0 <= i < n && calls[i].1.InitializeCall? && AcceptedAt(calls, i))
            && (forall i :: 0 <= i < n && calls[i].1.InitializeCall? && AcceptedAt(calls, i) ==>
                  s.admin == Some(calls[i].1.admin))
  {
    hide Run;
    if n == 0 {
      NothingRun(calls);
    } else {
      AdminExactly(calls, n - 1);
      PrefixStep(calls, n - 1);
      StepAdmin(Run(calls[..n - 1]), calls[n - 1].0, calls[n - 1].1);
      hide Attempt, Step;
      if calls[n - 1].1.InitializeCall? && AcceptedAt(calls, n - 1) {
        assert forall i :: 0 <= i < n - 1 && calls[i].1.InitializeCall? ==> !AcceptedAt(calls, i);
      }
    }
  }

  lemma StepAdmin(s: Ledger, env: Env, call: Call)
    ensures var r := Attempt(s, env, call);
            if call.InitializeCall? && r.Ok? then s.admin.None? && Step(s, env, call).admin == Some(call.admin)
            else Step(s, env, call).admin == s.admin
  {
    hide MintGate, RetireGate, VintageGate;
  }

  lemma NothingRun(calls: seq<(Env, Call)>)
    ensures Run(calls[..0]) == EMPTY_LEDGER
  {
  }
}
