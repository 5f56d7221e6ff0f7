/**
  The entry points of the carbon credit contract as functions on its storage.
  `minted` and `issued` are history: the batch ids in mint order and every
  certificate ever returned.
 */
module CreditLedger {
  import opened Platform

  const MAX_BATCH_SIZE := 1_000_000_000

  datatype CreditStatus = Active | PartiallyRetired | FullyRetired | Suspended

  datatype CreditBatch = CreditBatch(
    batchId: string,
    projectId: string,
    vintageYear: u32,
    amount: i128,
    serialStart: u64,
    serialEnd: u64,
    issuedAt: u64,
    status: CreditStatus,
    metadataCid: string,
    owner: Address)

  datatype SerialRange = SerialRange(start: u64, end: u64)

  datatype Certificate = Certificate(
    retirementId: string,
    batchId: string,
    projectId: string,
    amount: i128,
    retiredBy: Address,
    beneficiary: string,
    reason: string,
    vintageYear: u32,
    serials: seq<int>,
    retiredAt: u64,
    txHash: string,
    certificateCid: string)

  datatype Ledger = Ledger(
    admin: Option<Address>,
    batches: map<string, CreditBatch>,
    retired: map<string, i128>,
    certificates: map<string, Certificate>,
    projectBatches: map<string, seq<string>>,
    registry: seq<SerialRange>,
    minted: seq<string>,
    issued: seq<Certificate>)

  const EMPTY_LEDGER := Ledger(None, map[], map[], map[], map[], [], [], [])

  datatype MintArgs = MintArgs(
    admin: Address,
    projectId: string,
    amount: i128,
    vintageYear: u32,
    batchId: string,
    serialStart: u64,
    serialEnd: u64,
    metadataCid: string,
    owner: Address)

  datatype RetireArgs = RetireArgs(
    holder: Address,
    batchId: string,
    amount: i128,
    reason: string,
    beneficiary: string,
    retireId: string,
    txHash: string,
    certificateCid: string)

  datatype TransferArgs = TransferArgs(from: Address, to: Address, batchId: string, amount: i128)

  function RequireAdmin(admin: Option<Address>, caller: Address): Result<()> {
    Need(admin == Some(caller), UnauthorizedVerifier)
  }

  function Initialize(s: Ledger, env: Env, admin: Address): Result<Ledger> {
    var _ :- Need(s.admin.None?, AlreadyInitialized);
    var _ :- RequireAuth(env, admin);
    Ok(s.(admin := Some(admin), registry := []))
  }

  /** The inclusive ranges share no element by the two end-point comparisons of the scan. */
  predicate Apart(r: SerialRange, start: u64, end: u64) {
    !(start <= r.end && end >= r.start)
  }

  /** What the registry scan answers. */
  predicate FreeRange(registry: seq<SerialRange>, start: u64, end: u64) {
    forall i :: 0 <= i < |registry| ==> Apart(registry[i], start, end)
  }

  function MintGate(s: Ledger, env: Env, m: MintArgs): Result<()> {
    var _ :- RequireAuth(env, m.admin);
    var _ :- RequireAdmin(s.admin, m.admin);
    var _ :- Need(0 < |m.projectId| <= 64, ProjectNotFound);
    var _ :- Need(0 < |m.batchId| <= 64, ProjectNotFound);
    var _ :- Need(0 < |m.metadataCid| <= 128, ProjectNotFound);
    var _ :- Need(m.amount > 0, ZeroAmountNotAllowed);
    var _ :- Need(m.amount <= MAX_BATCH_SIZE, BatchTooLarge);
    var _ :- Need(m.serialStart != 0 && m.serialEnd > m.serialStart, InvalidSerialRange);
    var _ :- VintageGate(m.vintageYear, ApproximateYear(env.now));
    var _ :- Need(m.batchId !in s.batches, SerialNumberConflict);
    var _ :- Need(FreeRange(s.registry, m.serialStart, m.serialEnd), DoubleCountingDetected);
    Ok(())
  }

  function Minted(s: Ledger, env: Env, m: MintArgs): Ledger {
    var batch := CreditBatch(m.batchId, m.projectId, m.vintageYear, m.amount, m.serialStart, m.serialEnd,
                             env.now, Active, m.metadataCid, m.owner);
    s.(registry := s.registry + [SerialRange(m.serialStart, m.serialEnd)],
       batches := s.batches[m.batchId := batch],
       projectBatches := s.projectBatches[m.projectId := Lookup(s.projectBatches, m.projectId, []) + [m.batchId]],
       minted := s.minted + [m.batchId])
  }

  function Mint(s: Ledger, env: Env, m: MintArgs): Result<Ledger> {
    var _ :- MintGate(s, env, m);
    Ok(Minted(s, env, m))
  }

  function Retired(s: Ledger, id: string): i128 {
    Lookup(s.retired, id, 0)
  }

  /** What can still be retired or moved; an overflowing subtraction reads as 0. */
  function ActiveAmount(s: Ledger, batch: CreditBatch): i128 {
    if batch.status == FullyRetired then 0
    else
      var left := batch.amount - Retired(s, batch.batchId);
      if FitsI128(left) then left else 0
  }

  /** The guards that retirement and transfer share once the batch is loaded. */
  function StatusGate(batch: CreditBatch): Result<()> {
    if batch.status == FullyRetired then Err(AlreadyRetired)
    else if batch.status == Suspended then Err(ProjectSuspended)
    else Ok(())
  }

  /** The consecutive integers start, start + 1, ..., start + n - 1. */
  function Interval(start: int, n: nat): (r: seq<int>)
    ensures |r| == n
    ensures forall i :: 0 <= i < n ==> r[i] == start + i
  {
    seq(n, i => start + i)
  }

  /** The first serial a retirement takes; the last must be below 2^64 - 1, or the serial loop overflows. */
  function RetireGate(s: Ledger, env: Env, a: RetireArgs): Result<u64> {
    var _ :- RequireAuth(env, a.holder);
    var _ :- Need(a.amount > 0, ZeroAmountNotAllowed);
    var _ :- Need(a.batchId in s.batches, ProjectNotFound);
    var batch := s.batches[a.batchId];
    var _ :- StatusGate(batch);
    var _ :- Need(a.amount <= ActiveAmount(s, batch), InsufficientCredits);
    var already :- CheckedU64(Retired(s, a.batchId));
    var first :- CheckedU64(batch.serialStart + already);
    var amount :- CheckedU64(a.amount);
    var last :- CheckedU64(first + (amount - 1));
    if last == U64_MAX then Trap else
    var newRetired :- CheckedI128(Retired(s, a.batchId) + a.amount);
    var _ :- CheckedI128(batch.amount - newRetired);
    Ok(first)
  }

  function CertificateFor(batch: CreditBatch, env: Env, a: RetireArgs, first: u64): Certificate
    requires a.amount >= 0
  {
    Certificate(a.retireId, a.batchId, batch.projectId, a.amount, a.holder, a.beneficiary, a.reason,
                batch.vintageYear, Interval(first, a.amount), env.now, a.txHash, a.certificateCid)
  }

  function Retire(s: Ledger, env: Env, a: RetireArgs): Result<Ledger> {
    var first :- RetireGate(s, env, a);
    var batch := s.batches[a.batchId];
    var newRetired: i128 := Retired(s, a.batchId) + a.amount;
    var cert := CertificateFor(batch, env, a, first);
    var status := if batch.amount - newRetired == 0 then FullyRetired else PartiallyRetired;
    Ok(s.(retired := s.retired[a.batchId := newRetired],
          batches := s.batches[a.batchId := batch.(status := status)],
          certificates := s.certificates[a.retireId := cert],
          issued := s.issued + [cert]))
  }

  function TransferGate(s: Ledger, env: Env, a: TransferArgs): Result<()> {
    var _ :- RequireAuth(env, a.from);
    var _ :- Need(a.amount > 0, ZeroAmountNotAllowed);
    var _ :- Need(a.batchId in s.batches, ProjectNotFound);
    var batch := s.batches[a.batchId];
    var _ :- Need(batch.owner == a.from, UnauthorizedVerifier);
    var _ :- StatusGate(batch);
    var _ :- Need(a.amount <= ActiveAmount(s, batch), InsufficientCredits);
    Ok(())
  }

  /** The whole batch changes hands, whatever amount was named. */
  function Moved(s: Ledger, id: string, to: Address): Ledger
    requires id in s.batches
  {
    s.(batches := s.batches[id := s.batches[id].(owner := to)])
  }

  function Transfer(s: Ledger, env: Env, a: TransferArgs): Result<Ledger> {
    var _ :- TransferGate(s, env, a);
    Ok(Moved(s, a.batchId, a.to))
  }

  /** The stored batches of the listed ids, ids without a batch skipped. */
  function Present(batches: map<string, CreditBatch>, ids: seq<string>): seq<CreditBatch> {
    if ids == [] then []
    else
      var init := Present(batches, ids[..|ids| - 1]);
      var id := ids[|ids| - 1];
      if id in batches then init + [batches[id]] else init
  }

  function ProjectCredits(s: Ledger, project: string): seq<CreditBatch> {
    Present(s.batches, Lookup(s.projectBatches, project, []))
  }
}
