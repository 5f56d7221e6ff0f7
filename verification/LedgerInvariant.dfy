/**
  What every call on the credit ledger keeps: how batches, counters, the serial
  registry, the project index and the certificates fit together.
 */
module LedgerInvariant {
  import opened Platform
  import opened CreditLedger

  datatype Call =
    | InitializeCall(admin: Address)
    | MintCall(m: MintArgs)
    | RetireCall(r: RetireArgs)
    | TransferCall(t: TransferArgs)

  function Attempt(s: Ledger, env: Env, call: Call): Result<Ledger> {
    match call
    case InitializeCall(admin) => Initialize(s, env, admin)
    case MintCall(m) => Mint(s, env, m)
    case RetireCall(r) => Retire(s, env, r)
    case TransferCall(t) => Transfer(s, env, t)
  }

  function Step(s: Ledger, env: Env, call: Call): Ledger {
    Commit(s, Attempt(s, env, call))
  }

  function Run(calls: seq<(Env, Call)>): Ledger {
    if calls == [] then EMPTY_LEDGER
    else
      var (env, call) := calls[|calls| - 1];
      Step(Run(calls[..|calls| - 1]), env, call)
  }

  /** Credits of one batch over a list of certificates. */
  function AmountOf(certs: seq<Certificate>, id: string): int {
    if certs == [] then 0
    else
      var last := certs[|certs| - 1];
      AmountOf(certs[..|certs| - 1], id) + if last.batchId == id then last.amount else 0
  }

  function StatusFor(gone: int, amount: int): CreditStatus {
    if gone == 0 then Active else if gone == amount then FullyRetired else PartiallyRetired
  }

  /** The counter is the total of the batch's certificates and determines the status. */
  predicate BatchSound(s: Ledger, id: string)
    requires id in s.batches
  {
    var b := s.batches[id];
    var gone := Retired(s, id);
    && b.batchId == id
    && 0 < b.amount <= MAX_BATCH_SIZE
    && 0 < b.serialStart < b.serialEnd
    && 0 <= gone <= b.amount
    && b.serialStart + gone <= U64_MAX
    && b.status == StatusFor(gone, b.amount)
    && gone == AmountOf(s.issued, id)
  }

  ghost predicate BatchesSound(s: Ledger) {
    && (forall id :: id in s.batches ==> BatchSound(s, id))
    && s.retired.Keys <= s.batches.Keys
  }

  /** The registry lists the batch ranges one to one, in mint order. */
  ghost predicate RegistryMatches(s: Ledger) {
    && |s.registry| == |s.minted|
    && (forall i :: 0 <= i < |s.minted| ==>
          s.minted[i] in s.batches &&
          s.registry[i] == SerialRange(s.batches[s.minted[i]].serialStart, s.batches[s.minted[i]].serialEnd))
    && (forall id :: id in s.batches ==> id in s.minted)
    && (forall i, j :: 0 <= i < j < |s.minted| ==> s.minted[i] != s.minted[j])
    && (s.admin.None? ==> s.minted == [])
  }

  predicate PairwiseApart(registry: seq<SerialRange>) {
    forall i, j :: 0 <= i < j < |registry| ==> Apart(registry[i], registry[j].start, registry[j].end)
  }

  /** The ids of a project's batches among `ids`, in order. */
  function OfProject(batches: map<string, CreditBatch>, ids: seq<string>, project: string): seq<string> {
    if ids == [] then []
    else
      var init := OfProject(batches, ids[..|ids| - 1], project);
      var id := ids[|ids| - 1];
      if id in batches && batches[id].projectId == project then init + [id] else init
  }

  ghost predicate IndexMatches(s: Ledger) {
    forall p :: Lookup(s.projectBatches, p, []) == OfProject(s.batches, s.minted, p)
  }

  /** A certificate starts where the earlier certificates of its batch stopped. */
  predicate CertificatePlaced(batches: map<string, CreditBatch>, issued: seq<Certificate>, i: nat)
    requires i < |issued|
  {
    var c := issued[i];
    && c.batchId in batches
    && c.amount > 0
    && c.serials == Interval(batches[c.batchId].serialStart + AmountOf(issued[..i], c.batchId), c.amount)
  }

  ghost predicate CertificatesPlaced(s: Ledger) {
    && (forall i :: 0 <= i < |s.issued| ==> CertificatePlaced(s.batches, s.issued, i))
    && (forall r :: r in s.certificates ==> s.certificates[r] in s.issued && s.certificates[r].retirementId == r)
  }

  ghost predicate Inv(s: Ledger) {
    && BatchesSound(s)
    && RegistryMatches(s)
    && PairwiseApart(s.registry)
    && IndexMatches(s)
    && CertificatesPlaced(s)
  }

  // ---- Frame facts about the helper functions ----

  /** Batches that were there are still there, with every field but status and owner unchanged. */
  ghost predicate Extends(before: map<string, CreditBatch>, after: map<string, CreditBatch>) {
    forall id :: id in before ==>
      id in after && after[id] == before[id].(status := after[id].status, owner := after[id].owner)
  }

  lemma {:induction false} OfProjectFrame(before: map<string, CreditBatch>, after: map<string, CreditBatch>,
                                         ids: seq<string>, project: string)
    requires Extends(before, after)
    requires forall i :: 0 <= i < |ids| ==> ids[i] in before
    ensures OfProject(after, ids, project) == OfProject(before, ids, project)
  {
    if ids != [] {
      assert ids[|ids| - 1] in before;
      OfProjectFrame(before, after, ids[..|ids| - 1], project);
    }
  }

  lemma {:induction false} AmountOfNone(certs: seq<Certificate>, id: string)
    requires forall i :: 0 <= i < |certs| ==> certs[i].batchId != id
    ensures AmountOf(certs, id) == 0
  {
    if certs != [] {
      AmountOfNone(certs[..|certs| - 1], id);
    }
  }

  lemma AmountOfSnoc(certs: seq<Certificate>, c: Certificate, id: string)
    ensures AmountOf(certs + [c], id) == AmountOf(certs, id) + if c.batchId == id then c.amount else 0
  {
    assert (certs + [c])[..|certs|] == certs;
  }

  // ---- Each entry point keeps the invariant ----

  lemma EmptyLedgerSound()
    ensures Inv(EMPTY_LEDGER)
  {
  }

  lemma MintKeepsBatches(s: Ledger, env: Env, m: MintArgs)
    requires Inv(s) && MintGate(s, env, m).Ok?
    ensures BatchesSound(Minted(s, env, m))
  {
    var t := Minted(s, env, m);
    AmountOfNone(s.issued, m.batchId) by {
      forall i | 0 <= i < |s.issued| ensures s.issued[i].batchId != m.batchId {
        assert CertificatePlaced(s.batches, s.issued, i);
      }
    }
    forall id | id in t.batches ensures BatchSound(t, id) {
      if id != m.batchId {
        assert BatchSound(s, id);
      }
    }
  }

  lemma MintKeepsProject(s: Ledger, env: Env, m: MintArgs, p: string)
    requires RegistryMatches(s) && m.batchId !in s.batches
    requires Lookup(s.projectBatches, p, []) == OfProject(s.batches, s.minted, p)
    ensures var t := Minted(s, env, m);
            Lookup(t.projectBatches, p, []) == OfProject(t.batches, t.minted, p)
  {
    var t := Minted(s, env, m);
    assert t.minted[..|s.minted|] == s.minted;
    OfProjectFrame(s.batches, t.batches, s.minted, p);
    hide RegistryMatches;
  }

  lemma MintKeepsIndex(s: Ledger, env: Env, m: MintArgs)
    requires RegistryMatches(s) && IndexMatches(s) && m.batchId !in s.batches
    ensures IndexMatches(Minted(s, env, m))
  {
    hide RegistryMatches, OfProject, Minted;
    var t := Minted(s, env, m);
    forall p ensures Lookup(t.projectBatches, p, []) == OfProject(t.batches, t.minted, p) {
      MintKeepsProject(s, env, m, p);
    }
  }

  lemma MintKeepsRegistry(s: Ledger, env: Env, m: MintArgs)
    requires RegistryMatches(s) && s.admin.Some? && m.batchId !in s.batches
    ensures RegistryMatches(Minted(s, env, m))
  {
    var t := Minted(s, env, m);
    var n := |s.minted|;
    forall i | 0 <= i <= n
      ensures t.minted[i] in t.batches
      ensures t.registry[i] == SerialRange(t.batches[t.minted[i]].serialStart, t.batches[t.minted[i]].serialEnd)
    {
      if i < n {
        assert t.minted[i] == s.minted[i] && t.registry[i] == s.registry[i];
      }
    }
    forall id | id in t.batches ensures id in t.minted {
      assert t.minted[n] == m.batchId;
      assert id != m.batchId ==> id in s.minted;
    }
    forall i, j | 0 <= i < j <= n ensures t.minted[i] != t.minted[j] {
      assert t.minted[i] == s.minted[i];
      assert j < n ==> t.minted[j] == s.minted[j];
    }
  }

  lemma MintKeepsApart(s: Ledger, env: Env, m: MintArgs)
    requires PairwiseApart(s.registry) && FreeRange(s.registry, m.serialStart, m.serialEnd)
    ensures PairwiseApart(Minted(s, env, m).registry)
  {
    var t := Minted(s, env, m);
    forall i, j | 0 <= i < j < |t.registry| ensures Apart(t.registry[i], t.registry[j].start, t.registry[j].end) {
      if j < |s.registry| {
        assert Apart(s.registry[i], s.registry[j].start, s.registry[j].end);
      }
    }
  }

  lemma MintKeepsCertificates(s: Ledger, env: Env, m: MintArgs)
    requires Inv(s) && m.batchId !in s.batches
    ensures CertificatesPlaced(Minted(s, env, m))
  {
    var t := Minted(s, env, m);
    forall i | 0 <= i < |t.issued| ensures CertificatePlaced(t.batches, t.issued, i) {
      assert CertificatePlaced(s.batches, s.issued, i);
    }
  }

  lemma MintSound(s: Ledger, env: Env, m: MintArgs)
    requires Inv(s) && Mint(s, env, m).Ok?
    ensures Inv(Mint(s, env, m).value)
  {
    hide BatchesSound, IndexMatches, CertificatesPlaced, PairwiseApart, Minted;
    MintKeepsBatches(s, env, m);
    MintKeepsRegistry(s, env, m);
    MintKeepsApart(s, env, m);
    MintKeepsIndex(s, env, m);
    MintKeepsCertificates(s, env, m);
  }

  /** What is left of a retirement's guards on a sound ledger. */
  predicate Retirable(s: Ledger, env: Env, a: RetireArgs) {
    && a.holder in env.auth
    && a.batchId in s.batches
    && 0 < a.amount <= s.batches[a.batchId].amount - Retired(s, a.batchId)
    && s.batches[a.batchId].serialStart + Retired(s, a.batchId) + a.amount <= U64_MAX
  }

  /** A retirement succeeds exactly when it is retirable, and takes the next serials of the batch. */
  lemma RetireExact(s: Ledger, env: Env, a: RetireArgs)
    requires BatchesSound(s)
    ensures Retire(s, env, a).Ok? <==> Retirable(s, env, a)
    ensures Retire(s, env, a).Ok? ==>
              RetireGate(s, env, a) == Ok(s.batches[a.batchId].serialStart + Retired(s, a.batchId))
  {
    if a.batchId in s.batches {
      assert BatchSound(s, a.batchId);
    }
  }

  /** The effect of a retirement, one storage entry at a time. */
  ghost predicate Retires(s: Ledger, t: Ledger, a: RetireArgs, cert: Certificate) {
    && a.batchId in s.batches
    && 0 < a.amount <= s.batches[a.batchId].amount - Retired(s, a.batchId)
    && s.batches[a.batchId].serialStart + Retired(s, a.batchId) + a.amount <= U64_MAX
    && cert.batchId == a.batchId && cert.amount == a.amount && cert.retirementId == a.retireId
    && cert.serials == Interval(s.batches[a.batchId].serialStart + Retired(s, a.batchId), a.amount)
    && t.admin == s.admin && t.projectBatches == s.projectBatches && t.registry == s.registry && t.minted == s.minted
    && t.retired == s.retired[a.batchId := Retired(s, a.batchId) + a.amount]
    && t.batches == s.batches[a.batchId := s.batches[a.batchId].(
                                status := StatusFor(Retired(t, a.batchId), s.batches[a.batchId].amount))]
    && t.issued == s.issued + [cert]
    && t.certificates == s.certificates[a.retireId := cert]
  }

  lemma RetireRetires(s: Ledger, env: Env, a: RetireArgs) returns (cert: Certificate)
    requires BatchesSound(s) && Retire(s, env, a).Ok?
    ensures Retires(s, Retire(s, env, a).value, a, cert)
    ensures var b := s.batches[a.batchId];
            cert == Certificate(a.retireId, b.batchId, b.projectId, a.amount, a.holder, a.beneficiary, a.reason,
                                b.vintageYear, cert.serials, env.now, a.txHash, a.certificateCid)
  {
    assert BatchSound(s, a.batchId);
    RetireExact(s, env, a);
    cert := CertificateFor(s.batches[a.batchId], env, a, RetireGate(s, env, a).value);
  }

  lemma RetireKeepsBatches(s: Ledger, t: Ledger, a: RetireArgs, cert: Certificate)
    requires BatchesSound(s) && Retires(s, t, a, cert)
    ensures BatchesSound(t)
  {
    forall id | id in t.batches ensures BatchSound(t, id) {
      assert BatchSound(s, id);
      AmountOfSnoc(s.issued, cert, id);
    }
  }

  lemma RetireKeepsIndex(s: Ledger, t: Ledger, a: RetireArgs, cert: Certificate)
    requires Inv(s) && Retires(s, t, a, cert)
    ensures RegistryMatches(t) && PairwiseApart(t.registry) && IndexMatches(t)
  {
    forall p ensures Lookup(t.projectBatches, p, []) == OfProject(t.batches, t.minted, p) {
      OfProjectFrame(s.batches, t.batches, s.minted, p);
    }
  }

  lemma RetireKeepsCertificates(s: Ledger, t: Ledger, a: RetireArgs, cert: Certificate)
    requires CertificatesPlaced(s) && Retires(s, t, a, cert)
    requires Retired(s, a.batchId) == AmountOf(s.issued, a.batchId)
    ensures CertificatesPlaced(t)
  {
    forall i | 0 <= i < |t.issued| ensures CertificatePlaced(t.batches, t.issued, i) {
      if i < |s.issued| {
        assert CertificatePlaced(s.batches, s.issued, i);
        assert t.issued[..i] == s.issued[..i];
      } else {
        assert t.issued[..i] == s.issued;
      }
    }
    forall r | r in t.certificates ensures t.certificates[r] in t.issued && t.certificates[r].retirementId == r {
      if r == a.retireId {
        assert t.issued[|s.issued|] == cert;
      } else {
        assert s.certificates[r] in s.issued;
      }
    }
  }

  lemma RetireSound(s: Ledger, env: Env, a: RetireArgs)
    requires Inv(s) && Retire(s, env, a).Ok?
    ensures Inv(Retire(s, env, a).value)
  {
    var cert := RetireRetires(s, env, a);
    var t := Retire(s, env, a).value;
    RetireKeepsBatches(s, t, a, cert);
    RetireKeepsIndex(s, t, a, cert);
    assert BatchSound(s, a.batchId);
    RetireKeepsCertificates(s, t, a, cert);
  }

  /** What is left of a transfer's guards on a sound ledger. */
  predicate Transferable(s: Ledger, env: Env, a: TransferArgs) {
    && a.from in env.auth
    && a.batchId in s.batches
    && s.batches[a.batchId].owner == a.from
    && 0 < a.amount <= s.batches[a.batchId].amount - Retired(s, a.batchId)
  }

  lemma TransferExact(s: Ledger, env: Env, a: TransferArgs)
    requires BatchesSound(s)
    ensures Transfer(s, env, a).Ok? <==> Transferable(s, env, a)
    ensures Transfer(s, env, a).Ok? ==> Transfer(s, env, a).value == Moved(s, a.batchId, a.to)
  {
    if a.batchId in s.batches {
      assert BatchSound(s, a.batchId);
    }
  }

  lemma MovedKeepsBatches(s: Ledger, id: string, to: Address)
    requires BatchesSound(s) && id in s.batches
    ensures BatchesSound(Moved(s, id, to))
  {
    var t := Moved(s, id, to);
    forall k | k in t.batches ensures BatchSound(t, k) {
      assert BatchSound(s, k);
    }
  }

  lemma MovedKeepsCertificates(s: Ledger, id: string, to: Address)
    requires CertificatesPlaced(s) && id in s.batches
    ensures CertificatesPlaced(Moved(s, id, to))
  {
    var t := Moved(s, id, to);
    forall i | 0 <= i < |t.issued| ensures CertificatePlaced(t.batches, t.issued, i) {
      assert CertificatePlaced(s.batches, s.issued, i);
    }
  }

  lemma MovedKeepsIndex(s: Ledger, id: string, to: Address)
    requires RegistryMatches(s) && IndexMatches(s) && id in s.batches
    ensures RegistryMatches(Moved(s, id, to)) && IndexMatches(Moved(s, id, to))
  {
    var t := Moved(s, id, to);
    forall p ensures Lookup(t.projectBatches, p, []) == OfProject(t.batches, t.minted, p) {
      OfProjectFrame(s.batches, t.batches, s.minted, p);
    }
  }

  lemma MovedSound(s: Ledger, id: string, to: Address)
    requires Inv(s) && id in s.batches
    ensures Inv(Moved(s, id, to))
  {
    MovedKeepsBatches(s, id, to);
    MovedKeepsCertificates(s, id, to);
    MovedKeepsIndex(s, id, to);
  }

  lemma InitializeSound(s: Ledger, env: Env, admin: Address)
    requires Inv(s) && Initialize(s, env, admin).Ok?
    ensures Inv(Initialize(s, env, admin).value)
  {
    assert s.registry == [];
  }

  lemma StepSound(s: Ledger, env: Env, call: Call)
    requires Inv(s)
    ensures Inv(Step(s, env, call))
  {
    if Attempt(s, env, call).Ok? {
      match call
      case InitializeCall(admin) => InitializeSound(s, env, admin);
      case MintCall(m) => MintSound(s, env, m);
      case RetireCall(r) => RetireSound(s, env, r);
      case TransferCall(t) => MovedSound(s, t.batchId, t.to);
    }
  }

  lemma {:induction false} RunSound(calls: seq<(Env, Call)>)
    ensures Inv(Run(calls))
  {
    if calls == [] {
      EmptyLedgerSound();
    } else {
      RunSound(calls[..|calls| - 1]);
      StepSound(Run(calls[..|calls| - 1]), calls[|calls| - 1].0, calls[|calls| - 1].1);
    }
  }
}
