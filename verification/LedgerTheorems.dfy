/**
  What users of the credit ledger may rely on: exact acceptance of ranges and
  mints, complete project queries, conservation, and a history that only grows.
 */
module LedgerTheorems {
  import opened Platform
  import opened CreditLedger
  import opened LedgerInvariant
  import SerialNumbers

  // ---- Range verification ----

  predicate Covers(b: CreditBatch, x: int) {
    b.serialStart <= x <= b.serialEnd
  }

  /** No integer of start..end lies in the range of a minted batch. */
  ghost predicate SharesNoSerial(s: Ledger, start: int, end: int) {
    forall id, x :: id in s.batches && start <= x <= end ==> !Covers(s.batches[id], x)
  }

  /** Some batch contains both ends of a reversed pair start > end. */
  ghost predicate Straddled(s: Ledger, start: int, end: int) {
    exists id :: id in s.batches && s.batches[id].serialStart <= end && start <= s.batches[id].serialEnd
  }

  lemma FreeRangeByBatch(s: Ledger, start: u64, end: u64)
    requires Inv(s)
    ensures FreeRange(s.registry, start, end) <==>
            forall id :: id in s.batches ==> Apart(SerialRange(s.batches[id].serialStart, s.batches[id].serialEnd), start, end)
  {
    if FreeRange(s.registry, start, end) {
      forall id | id in s.batches
        ensures Apart(SerialRange(s.batches[id].serialStart, s.batches[id].serialEnd), start, end)
      {
        var i :| 0 <= i < |s.minted| && s.minted[i] == id;
        assert Apart(s.registry[i], start, end);
      }
    } else {
      var i :| 0 <= i < |s.registry| && !Apart(s.registry[i], start, end);
      assert s.minted[i] in s.batches;
    }
  }

  /** The scan accepts a non-empty range if and only if it shares no integer with any minted batch. */
  lemma VerifyRangeExact(s: Ledger, start: u64, end: u64)
    requires Inv(s) && start <= end
    ensures FreeRange(s.registry, start, end) <==> SharesNoSerial(s, start, end)
  {
    FreeRangeByBatch(s, start, end);
    if SharesNoSerial(s, start, end) {
      forall id | id in s.batches
        ensures Apart(SerialRange(s.batches[id].serialStart, s.batches[id].serialEnd), start, end)
      {
        var b := s.batches[id];
        assert BatchSound(s, id);
        if start <= b.serialEnd && end >= b.serialStart {
          var x := if start >= b.serialStart then start else b.serialStart;
          assert start <= x <= end && Covers(b, x);
        }
      }
    }
  }

  /** On a reversed pair, which holds no integer at all, the scan still refuses exactly the straddled ones. */
  lemma VerifyReversedExact(s: Ledger, start: u64, end: u64)
    requires Inv(s) && start > end
    ensures SharesNoSerial(s, start, end)
    ensures FreeRange(s.registry, start, end) <==> !Straddled(s, start, end)
  {
    FreeRangeByBatch(s, start, end);
  }

  // ---- Minting ----

  /** The guards of a mint, read on a sound ledger. */
  ghost predicate Mintable(s: Ledger, env: Env, m: MintArgs) {
    && m.admin in env.auth && s.admin == Some(m.admin)
    && 0 < |m.projectId| <= 64 && 0 < |m.batchId| <= 64 && 0 < |m.metadataCid| <= 128
    && 0 < m.amount <= MAX_BATCH_SIZE
    && 0 < m.serialStart < m.serialEnd
    && 1990 <= m.vintageYear <= 1971 + (env.now / SECONDS_PER_YEAR) % (U32_MAX + 1)
    && (env.now / SECONDS_PER_YEAR) % (U32_MAX + 1) < U32_MAX - 1970
    && m.batchId !in s.batches
    && SharesNoSerial(s, m.serialStart, m.serialEnd)
  }

  lemma MintEffect(s: Ledger, env: Env, m: MintArgs)
    requires BatchesSound(s) && m.batchId !in s.batches
    ensures var t := Minted(s, env, m);
            && t.minted == s.minted + [m.batchId]
            && t.batches.Keys == s.batches.Keys + {m.batchId}
            && t.batches[m.batchId] ==
               CreditBatch(m.batchId, m.projectId, m.vintageYear, m.amount, m.serialStart, m.serialEnd,
                           env.now, Active, m.metadataCid, m.owner)
            && Retired(t, m.batchId) == 0
            && (forall id :: id in s.batches ==> t.batches[id] == s.batches[id])
            && t.issued == s.issued && t.certificates == s.certificates
  {
  }

  /** A mint succeeds exactly when it is mintable; the new batch is then the last one, active and unretired. */
  lemma MintExact(s: Ledger, env: Env, m: MintArgs)
    requires Inv(s)
    ensures Mint(s, env, m).Ok? <==> Mintable(s, env, m)
    ensures Mint(s, env, m).Ok? ==>
              var t := Mint(s, env, m).value;
              && t.minted == s.minted + [m.batchId]
              && t.batches.Keys == s.batches.Keys + {m.batchId}
              && t.batches[m.batchId] ==
                 CreditBatch(m.batchId, m.projectId, m.vintageYear, m.amount, m.serialStart, m.serialEnd,
                             env.now, Active, m.metadataCid, m.owner)
              && Retired(t, m.batchId) == 0
              && (forall id :: id in s.batches ==> t.batches[id] == s.batches[id])
              && t.issued == s.issued && t.certificates == s.certificates
  {
    if 0 < m.serialStart < m.serialEnd {
      VerifyRangeExact(s, m.serialStart, m.serialEnd);
    }
    hide Minted;
    if Mint(s, env, m).Ok? {
      MintEffect(s, env, m);
    }
  }

  // ---- The project query ----

  lemma {:induction false} PresentAt(batches: map<string, CreditBatch>, ids: seq<string>)
    requires forall i :: 0 <= i < |ids| ==> ids[i] in batches
    ensures |Present(batches, ids)| == |ids|
    ensures forall i :: 0 <= i < |ids| ==> Present(batches, ids)[i] == batches[ids[i]]
  {
    if ids != [] {
      PresentAt(batches, ids[..|ids| - 1]);
      assert ids[|ids| - 1] in batches;
    }
  }

  /** `picked` lists, in order, the places of `ids` that hold a batch of the project. */
  lemma {:induction false} OfProjectPlaces(batches: map<string, CreditBatch>, ids: seq<string>, project: string)
      returns (picked: seq<int>)
    requires forall i :: 0 <= i < |ids| ==> ids[i] in batches
    ensures |picked| == |OfProject(batches, ids, project)|
    ensures forall k :: 0 <= k < |picked| ==>
              0 <= picked[k] < |ids| && ids[picked[k]] == OfProject(batches, ids, project)[k]
    ensures forall k, l :: 0 <= k < l < |picked| ==> picked[k] < picked[l]
    ensures forall i :: 0 <= i < |ids| ==> (i in picked <==> batches[ids[i]].projectId == project)
  {
    picked := [];
    if ids != [] {
      var n := |ids| - 1;
      var init := OfProjectPlaces(batches, ids[..n], project);
      assert forall i :: 0 <= i < n ==> ids[..n][i] == ids[i];
      assert ids[n] in batches;
      picked := if batches[ids[n]].projectId == project then init + [n] else init;
    }
  }

  /**
    The query returns exactly the batches of the project, each once, in mint
    order: result `k` is the batch minted at place `picked[k]`, the places
    increase, and a place is picked if and only if its batch is the project's.
   */
  lemma ProjectCreditsExact(s: Ledger, project: string) returns (picked: seq<int>)
    requires Inv(s)
    ensures |picked| == |ProjectCredits(s, project)|
    ensures forall k :: 0 <= k < |picked| ==>
              0 <= picked[k] < |s.minted| && s.minted[picked[k]] in s.batches &&
              ProjectCredits(s, project)[k] == s.batches[s.minted[picked[k]]]
    ensures forall k, l :: 0 <= k < l < |picked| ==> picked[k] < picked[l]
    ensures forall i :: 0 <= i < |s.minted| ==>
              s.minted[i] in s.batches && (i in picked <==> s.batches[s.minted[i]].projectId == project)
  {
    picked := OfProjectPlaces(s.batches, s.minted, project);
    var ids := OfProject(s.batches, s.minted, project);
    assert Lookup(s.projectBatches, project, []) == ids;
    forall k | 0 <= k < |ids| ensures ids[k] in s.batches {
      assert s.minted[picked[k]] in s.batches;
    }
    PresentAt(s.batches, ids);
  }

  // ---- Conservation ----

  function TotalRetired(certs: seq<Certificate>): int {
    if certs == [] then 0 else TotalRetired(certs[..|certs| - 1]) + certs[|certs| - 1].amount
  }

  function TotalIssued(batches: map<string, CreditBatch>, ids: seq<string>): int
    requires forall i :: 0 <= i < |ids| ==> ids[i] in batches
  {
    if ids == [] then 0
    else
      assert forall i :: 0 <= i < |ids| - 1 ==> ids[..|ids| - 1][i] == ids[i];
      TotalIssued(batches, ids[..|ids| - 1]) + batches[ids[|ids| - 1]].amount
  }

  function SumOver(certs: seq<Certificate>, ids: seq<string>): int {
    if ids == [] then 0 else SumOver(certs, ids[..|ids| - 1]) + AmountOf(certs, ids[|ids| - 1])
  }

  lemma {:induction false} SumOverSnoc(certs: seq<Certificate>, c: Certificate, ids: seq<string>)
    requires forall i, j :: 0 <= i < j < |ids| ==> ids[i] != ids[j]
    ensures SumOver(certs + [c], ids) == SumOver(certs, ids) + if c.batchId in ids then c.amount else 0
  {
    if ids != [] {
      SumOverSnoc(certs, c, ids[..|ids| - 1]);
      AmountOfSnoc(certs, c, ids[|ids| - 1]);
      assert ids == ids[..|ids| - 1] + [ids[|ids| - 1]];
    }
  }

  lemma {:induction false} SumOverEmpty(ids: seq<string>)
    ensures SumOver([], ids) == 0
  {
    if ids != [] {
      SumOverEmpty(ids[..|ids| - 1]);
    }
  }

  lemma {:induction false} RetiredByBatch(certs: seq<Certificate>, ids: seq<string>)
    requires forall i, j :: 0 <= i < j < |ids| ==> ids[i] != ids[j]
    requires forall i :: 0 <= i < |certs| ==> certs[i].batchId in ids
    ensures TotalRetired(certs) == SumOver(certs, ids)
  {
    if certs == [] {
      SumOverEmpty(ids);
    } else {
      var n := |certs| - 1;
      RetiredByBatch(certs[..n], ids);
      assert certs[n].batchId in ids;
      SumOverSnoc(certs[..n], certs[n], ids);
      assert certs == certs[..n] + [certs[n]];
    }
  }

  lemma {:induction false} SumWithinIssued(s: Ledger, ids: seq<string>)
    requires BatchesSound(s)
    requires forall i :: 0 <= i < |ids| ==> ids[i] in s.batches
    ensures SumOver(s.issued, ids) <= TotalIssued(s.batches, ids)
  {
    if ids != [] {
      var n := |ids| - 1;
      assert forall i :: 0 <= i < n ==> ids[..n][i] == ids[i];
      SumWithinIssued(s, ids[..n]);
      assert BatchSound(s, ids[n]);
    }
  }

  /** Over all batches together, the credits on certificates never exceed the credits minted. */
  lemma Conservation(s: Ledger)
    requires Inv(s)
    ensures TotalRetired(s.issued) <= TotalIssued(s.batches, s.minted)
  {
    forall i | 0 <= i < |s.issued| ensures s.issued[i].batchId in s.minted {
      assert CertificatePlaced(s.batches, s.issued, i);
    }
    RetiredByBatch(s.issued, s.minted);
    SumWithinIssued(s, s.minted);
  }

  // ---- History only grows ----

  function Rank(status: CreditStatus): int {
    match status
    case Active => 0
    case PartiallyRetired => 1
    case FullyRetired => 2
    case Suspended => 3
  }

  /** From `s` to `t` nothing recorded is lost, no counter falls and no status moves back. */
  ghost predicate Later(s: Ledger, t: Ledger) {
    && s.minted <= t.minted
    && s.issued <= t.issued
    && Extends(s.batches, t.batches)
    && (forall id :: id in s.batches ==>
          Retired(s, id) <= Retired(t, id) && Rank(s.batches[id].status) <= Rank(t.batches[id].status))
  }

  lemma MintLater(s: Ledger, env: Env, m: MintArgs)
    requires Mint(s, env, m).Ok?
    ensures Later(s, Mint(s, env, m).value)
  {
  }

  lemma RetiresLater(s: Ledger, t: Ledger, a: RetireArgs, cert: Certificate)
    requires BatchesSound(s) && Retires(s, t, a, cert)
    ensures Later(s, t)
  {
    assert BatchSound(s, a.batchId);
    hide BatchesSound;
  }

  lemma RetireLater(s: Ledger, env: Env, a: RetireArgs)
    requires BatchesSound(s) && Retire(s, env, a).Ok?
    ensures Later(s, Retire(s, env, a).value)
  {
    var cert := RetireRetires(s, env, a);
    hide Retire, BatchesSound;
    RetiresLater(s, Retire(s, env, a).value, a, cert);
  }

  lemma InitializeLater(s: Ledger, env: Env, admin: Address)
    requires Initialize(s, env, admin).Ok?
    ensures Later(s, Initialize(s, env, admin).value)
  {
  }

  lemma TransferLater(s: Ledger, env: Env, a: TransferArgs)
    requires BatchesSound(s) && Transfer(s, env, a).Ok?
    ensures Later(s, Transfer(s, env, a).value)
  {
    TransferExact(s, env, a);
    hide Transfer, BatchesSound;
  }

  lemma StepLater(s: Ledger, env: Env, call: Call)
    requires Inv(s)
    ensures Later(s, Step(s, env, call))
  {
    hide Initialize, Mint, Retire, Transfer, BatchesSound;
    if Attempt(s, env, call).Ok? {
      match call
      case InitializeCall(admin) => InitializeLater(s, env, admin);
      case MintCall(m) => MintLater(s, env, m);
      case RetireCall(r) => RetireLater(s, env, r);
      case TransferCall(t) => TransferLater(s, env, t);
    }
  }

  // ---- Certificates in storage ----

  /**
    A retirement returns the certificate it stores under the given id, and an
    earlier certificate stays in storage if and only if the new retirement
    carries another id: reusing an id replaces the stored certificate.
   */
  lemma CertificateKeptExactly(s: Ledger, env: Env, a: RetireArgs, r: string)
    requires Inv(s) && Retire(s, env, a).Ok? && r in s.certificates
    ensures var t := Retire(s, env, a).value;
            && t.issued == s.issued + [t.certificates[a.retireId]]
            && r in t.certificates
            && (t.certificates[r] == s.certificates[r] <==> r != a.retireId)
  {
    var cert := RetireRetires(s, env, a);
    var t := Retire(s, env, a).value;
    RetireSound(s, env, a);
    var i :| 0 <= i < |s.issued| && s.issued[i] == s.certificates[r];
    if cert == s.certificates[r] {
      assert t.issued[i] == t.issued[|s.issued|] == cert;
      SerialNumbers.SameBatchDistinct(t, i, |s.issued|, 0, 0);
      assert false;
    }
  }
}
