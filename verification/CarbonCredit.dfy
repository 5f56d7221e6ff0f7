/**
  The carbon credit contract as an object over its storage, each entry point
  proved to do what the ledger functions say.
 */
module CarbonCreditContract {
  import opened Platform
  import opened CreditLedger

  class CarbonCredit {
    var admin: Option<Address>
    var batches: map<string, CreditBatch>
    var retired: map<string, i128>
    var certificates: map<string, Certificate>
    var projectBatches: map<string, seq<string>>
    var registry: seq<SerialRange>
    ghost var minted: seq<string>
    ghost var issued: seq<Certificate>

    ghost function State(): Ledger
      reads this
    {
      Ledger(admin, batches, retired, certificates, projectBatches, registry, minted, issued)
    }

    constructor ()
      ensures State() == EMPTY_LEDGER
    {
      admin := None;
      batches, retired, certificates, projectBatches, registry := map[], map[], map[], map[], [];
      minted, issued := [], [];
    }

    method Initialize(env: Env, caller: Address) returns (r: Result<()>)
      modifies this
      ensures r == CreditLedger.Initialize(old(State()), env, caller).Outcome()
      ensures State() == Commit(old(State()), CreditLedger.Initialize(old(State()), env, caller))
    {
      if admin.Some? { return Err(AlreadyInitialized); }
      if caller !in env.auth { return Trap; }
      admin, registry := Some(caller), [];
      return Ok(());
    }

    /** Scans the registered ranges and stops at the first overlap. */
    method VerifySerialRange(start: u64, end: u64) returns (free: bool)
      ensures free <==> FreeRange(registry, start, end)
    {
      for i := 0 to |registry|
        invariant forall k :: 0 <= k < i ==> Apart(registry[k], start, end)
      {
        if start <= registry[i].end && end >= registry[i].start {
          return false;
        }
      }
      return true;
    }

    method MintCredits(env: Env, m: MintArgs) returns (r: Result<()>)
      modifies this
      ensures r == Mint(old(State()), env, m).Outcome()
      ensures State() == Commit(old(State()), Mint(old(State()), env, m))
    {
      if m.admin !in env.auth { return Trap; }
      if admin != Some(m.admin) { return Err(UnauthorizedVerifier); }
      if |m.projectId| == 0 || |m.projectId| > 64 { return Err(ProjectNotFound); }
      if |m.batchId| == 0 || |m.batchId| > 64 { return Err(ProjectNotFound); }
      if |m.metadataCid| == 0 || |m.metadataCid| > 128 { return Err(ProjectNotFound); }
      if m.amount <= 0 { return Err(ZeroAmountNotAllowed); }
      if m.amount > MAX_BATCH_SIZE { return Err(BatchTooLarge); }
      if m.serialStart == 0 || m.serialEnd <= m.serialStart { return Err(InvalidSerialRange); }
      var vintage := VintageGate(m.vintageYear, ApproximateYear(env.now));
      if vintage.IsFailure() { return vintage; }
      if m.batchId in batches { return Err(SerialNumberConflict); }
      var free := VerifySerialRange(m.serialStart, m.serialEnd);
      if !free { return Err(DoubleCountingDetected); }

      registry := registry + [SerialRange(m.serialStart, m.serialEnd)];
      batches := batches[m.batchId := CreditBatch(m.batchId, m.projectId, m.vintageYear, m.amount,
                                                  m.serialStart, m.serialEnd, env.now, Active, m.metadataCid, m.owner)];
      var ids := if m.projectId in projectBatches then projectBatches[m.projectId] else [];
      projectBatches := projectBatches[m.projectId := ids + [m.batchId]];
      minted := minted + [m.batchId];
      return Ok(());
    }

    /** The stored counter of a batch, 0 if there is none. */
    method RetiredSoFar(batchId: string) returns (gone: i128)
      ensures gone == Retired(State(), batchId)
    {
      gone := if batchId in retired then retired[batchId] else 0;
    }

    method ActiveCredits(batch: CreditBatch) returns (left: i128)
      ensures left == ActiveAmount(State(), batch)
    {
      if batch.status == FullyRetired { return 0; }
      var gone := RetiredSoFar(batch.batchId);
      return if FitsI128(batch.amount - gone) then batch.amount - gone else 0;
    }

    /** Collects the serials first..last one by one; the counter steps once past the last serial. */
    method CollectSerials(first: u64, last: u64) returns (r: Result<seq<int>>)
      requires first <= last
      ensures r == if last == U64_MAX then Trap else Ok(Interval(first, last - first + 1))
    {
      var serials: seq<int> := [];
      var s: u64 := first;
      while s <= last
        invariant first <= s <= last + 1
        invariant serials == Interval(first, s - first)
        decreases last + 1 - s
      {
        serials := serials + [s];
        if s == U64_MAX { return Trap; }
        s := s + 1;
      }
      return Ok(serials);
    }

    /** The guards of a retirement up to and including the serial loop. */
    method RetirementSerials(env: Env, a: RetireArgs) returns (r: Result<seq<int>>)
      ensures var gate := RetireGate(State(), env, a);
              if gate.Ok? then r == Ok(Interval(gate.value, a.amount)) else r == gate.PropagateFailure<seq<int>>()
      ensures r.Ok? ==> a.batchId in batches && FitsI128(Retired(State(), a.batchId) + a.amount)
    {
      if a.holder !in env.auth { return Trap; }
      if a.amount <= 0 { return Err(ZeroAmountNotAllowed); }
      if a.batchId !in batches { return Err(ProjectNotFound); }
      var batch := batches[a.batchId];
      if batch.status == FullyRetired { return Err(AlreadyRetired); }
      if batch.status == Suspended { return Err(ProjectSuspended); }
      var left := ActiveCredits(batch);
      if a.amount > left { return Err(InsufficientCredits); }
      var already := RetiredSoFar(a.batchId);
      if !(0 <= already <= U64_MAX) { return Err(Arithmetic); }
      if batch.serialStart + already > U64_MAX { return Err(Arithmetic); }
      var first: u64 := batch.serialStart + already;
      if a.amount > U64_MAX { return Err(Arithmetic); }
      if first + (a.amount - 1) > U64_MAX { return Err(Arithmetic); }
      r := CollectSerials(first, first + (a.amount - 1));
      if r.IsFailure() { return; }
      if !FitsI128(already + a.amount) { return Err(Arithmetic); }
      if !FitsI128(batch.amount - (already + a.amount)) { return Err(Arithmetic); }
    }

    method RetireCredits(env: Env, a: RetireArgs) returns (r: Result<Certificate>)
      modifies this
      ensures r.Outcome() == Retire(old(State()), env, a).Outcome()
      ensures State() == Commit(old(State()), Retire(old(State()), env, a))
      ensures r.Ok? ==> issued == old(issued) + [r.value]
    {
      hide RetireGate;
      var serials := RetirementSerials(env, a);
      if serials.IsFailure() { return serials.PropagateFailure(); }
      var batch := batches[a.batchId];
      var already := RetiredSoFar(a.batchId);
      var newRetired: i128 := already + a.amount;
      retired := retired[a.batchId := newRetired];
      var newActive := batch.amount - newRetired;
      batch := batch.(status := if newActive == 0 then FullyRetired else PartiallyRetired);
      batches := batches[a.batchId := batch];
      var cert := Certificate(a.retireId, a.batchId, batch.projectId, a.amount, a.holder, a.beneficiary, a.reason,
                              batch.vintageYear, serials.value, env.now, a.txHash, a.certificateCid);
      certificates := certificates[a.retireId := cert];
      issued := issued + [cert];
      return Ok(cert);
    }

    method TransferCredits(env: Env, a: TransferArgs) returns (r: Result<()>)
      modifies this
      ensures r == Transfer(old(State()), env, a).Outcome()
      ensures State() == Commit(old(State()), Transfer(old(State()), env, a))
    {
      if a.from !in env.auth { return Trap; }
      if a.amount <= 0 { return Err(ZeroAmountNotAllowed); }
      if a.batchId !in batches { return Err(ProjectNotFound); }
      var batch := batches[a.batchId];
      if batch.owner != a.from { return Err(UnauthorizedVerifier); }
      if batch.status == FullyRetired { return Err(AlreadyRetired); }
      if batch.status == Suspended { return Err(ProjectSuspended); }
      var left := ActiveCredits(batch);
      if a.amount > left { return Err(InsufficientCredits); }
      batches := batches[a.batchId := batch.(owner := a.to)];
      return Ok(());
    }

    method GetProjectCredits(project: string) returns (result: seq<CreditBatch>)
      ensures result == ProjectCredits(State(), project)
    {
      var ids := if project in projectBatches then projectBatches[project] else [];
      result := [];
      for i := 0 to |ids|
        invariant result == Present(batches, ids[..i])
      {
        assert ids[..i + 1][..i] == ids[..i];
        if ids[i] in batches {
          result := result + [batches[ids[i]]];
        }
      }
      assert ids[..|ids|] == ids;
    }
  }
}
