/**
  Where retired serial numbers come from: they run through each batch from its
  first serial, never twice, and stay in the batch's own range in every run
  whose mints fit their ranges.  The fit condition is exact.
 */
module SerialNumbers {
  import opened Platform
  import opened CreditLedger
  import opened LedgerInvariant

  /** The serials of one batch over a list of certificates, in order. */
  function SerialsOf(certs: seq<Certificate>, id: string): seq<int> {
    if certs == [] then []
    else
      var last := certs[|certs| - 1];
      SerialsOf(certs[..|certs| - 1], id) + if last.batchId == id then last.serials else []
  }

  /** No serial appears at two places of two certificates, or twice in one. */
  ghost predicate SerialsUnique(certs: seq<Certificate>) {
    forall i, j, a, b ::
      && 0 <= i < |certs| && 0 <= j < |certs|
      && 0 <= a < |certs[i].serials| && 0 <= b < |certs[j].serials|
      && certs[i].serials[a] == certs[j].serials[b]
      ==> i == j && a == b
  }

  predicate InRange(b: CreditBatch, serials: seq<int>) {
    forall a :: 0 <= a < |serials| ==> b.serialStart <= serials[a] <= b.serialEnd
  }

  /** Every certificate's serials lie in the range of its own batch. */
  ghost predicate SerialsInOwnRange(s: Ledger) {
    forall i :: 0 <= i < |s.issued| ==>
      s.issued[i].batchId in s.batches && InRange(s.batches[s.issued[i].batchId], s.issued[i].serials)
  }

  // ---- Per batch: one contiguous run ----

  lemma {:induction false} PlacedSerials(batches: map<string, CreditBatch>, issued: seq<Certificate>, id: string, n: nat)
    requires n <= |issued| && id in batches
    requires forall i :: 0 <= i < |issued| ==> CertificatePlaced(batches, issued, i)
    ensures AmountOf(issued[..n], id) >= 0
    ensures SerialsOf(issued[..n], id) == Interval(batches[id].serialStart, AmountOf(issued[..n], id))
  {
    if n > 0 {
      PlacedSerials(batches, issued, id, n - 1);
      assert issued[..n][..n - 1] == issued[..n - 1];
      assert CertificatePlaced(batches, issued, n - 1);
    }
  }

  /** The certificates of a batch, read in order, retire exactly the first `retired` serials of the batch. */
  lemma BatchSerialsContiguous(s: Ledger, id: string)
    requires Inv(s) && id in s.batches
    ensures Retired(s, id) >= 0
    ensures SerialsOf(s.issued, id) == Interval(s.batches[id].serialStart, Retired(s, id))
  {
    assert BatchSound(s, id);
    assert s.issued[..|s.issued|] == s.issued;
    PlacedSerials(s.batches, s.issued, id, |s.issued|);
  }

  // ---- Where one certificate sits ----

  lemma {:induction false} AmountMonotone(certs: seq<Certificate>, id: string, i: nat, j: nat)
    requires i <= j <= |certs|
    requires forall k :: 0 <= k < |certs| ==> certs[k].amount > 0
    ensures AmountOf(certs[..i], id) <= AmountOf(certs[..j], id)
  {
    if i < j {
      AmountMonotone(certs, id, i, j - 1);
      assert certs[..j][..j - 1] == certs[..j - 1];
    }
  }

  /** The serials of certificate `i` start after `i`'s predecessors of the batch and end within the counter. */
  lemma CertificateWindow(s: Ledger, i: nat, a: nat)
    requires Inv(s) && i < |s.issued| && a < |s.issued[i].serials|
    ensures s.issued[i].batchId in s.batches
    ensures var c := s.issued[i];
            var start := s.batches[c.batchId].serialStart;
            && c.serials[a] == start + AmountOf(s.issued[..i], c.batchId) + a
            && a < c.amount
            && 0 <= AmountOf(s.issued[..i], c.batchId)
            && AmountOf(s.issued[..i], c.batchId) + c.amount <= Retired(s, c.batchId)
  {
    var c := s.issued[i];
    assert CertificatePlaced(s.batches, s.issued, i);
    forall k | 0 <= k < |s.issued| ensures s.issued[k].amount > 0 {
      assert CertificatePlaced(s.batches, s.issued, k);
    }
    assert s.issued[..|s.issued|] == s.issued;
    assert s.issued[..i + 1][..i] == s.issued[..i];
    AmountMonotone(s.issued, c.batchId, 0, i);
    AmountMonotone(s.issued, c.batchId, i + 1, |s.issued|);
    assert BatchSound(s, c.batchId);
  }

  lemma SameBatchDistinct(s: Ledger, i: nat, j: nat, a: nat, b: nat)
    requires Inv(s) && i < j < |s.issued| && s.issued[i].batchId == s.issued[j].batchId
    requires a < |s.issued[i].serials| && b < |s.issued[j].serials|
    ensures s.issued[i].serials[a] < s.issued[j].serials[b]
  {
    CertificateWindow(s, i, a);
    CertificateWindow(s, j, b);
    forall k | 0 <= k < |s.issued| ensures s.issued[k].amount > 0 {
      assert CertificatePlaced(s.batches, s.issued, k);
    }
    assert s.issued[..i + 1][..i] == s.issued[..i];
    AmountMonotone(s.issued, s.issued[i].batchId, i + 1, j);
  }

  lemma RangesDisjoint(s: Ledger, id1: string, id2: string)
    requires Inv(s) && id1 in s.batches && id2 in s.batches && id1 != id2
    ensures var b, c := s.batches[id1], s.batches[id2];
            b.serialEnd < c.serialStart || c.serialEnd < b.serialStart
  {
    assert BatchSound(s, id1) && BatchSound(s, id2);
    var i :| 0 <= i < |s.minted| && s.minted[i] == id1;
    var j :| 0 <= j < |s.minted| && s.minted[j] == id2;
    if i < j {
      assert Apart(s.registry[i], s.registry[j].start, s.registry[j].end);
    } else {
      assert Apart(s.registry[j], s.registry[i].start, s.registry[i].end);
    }
  }

  // ---- Staying in range, exactly ----

  /** Serials stay in their own ranges exactly while no counter has passed its range's length. */
  lemma InOwnRangeExactly(s: Ledger)
    requires Inv(s)
    ensures SerialsInOwnRange(s) <==>
            (forall id :: id in s.batches ==> Retired(s, id) <= s.batches[id].serialEnd - s.batches[id].serialStart + 1)
  {
    if forall id :: id in s.batches ==> Retired(s, id) <= s.batches[id].serialEnd - s.batches[id].serialStart + 1 {
      forall i | 0 <= i < |s.issued|
        ensures s.issued[i].batchId in s.batches && InRange(s.batches[s.issued[i].batchId], s.issued[i].serials)
      {
        assert CertificatePlaced(s.batches, s.issued, i);
        forall a | 0 <= a < |s.issued[i].serials|
          ensures s.batches[s.issued[i].batchId].serialStart <= s.issued[i].serials[a] <= s.batches[s.issued[i].batchId].serialEnd
        {
          CertificateWindow(s, i, a);
        }
      }
    }
    if SerialsInOwnRange(s) {
      forall id | id in s.batches
        ensures Retired(s, id) <= s.batches[id].serialEnd - s.batches[id].serialStart + 1
      {
        RunStaysInRange(s, id, |s.issued|);
        assert s.issued[..|s.issued|] == s.issued;
        BatchSerialsContiguous(s, id);
        if Retired(s, id) > 0 {
          assert SerialsOf(s.issued, id)[Retired(s, id) - 1] == s.batches[id].serialStart + Retired(s, id) - 1;
        } else {
          assert BatchSound(s, id);
        }
      }
    }
  }

  lemma {:induction false} RunStaysInRange(s: Ledger, id: string, n: nat)
    requires SerialsInOwnRange(s) && id in s.batches && n <= |s.issued|
    ensures InRange(s.batches[id], SerialsOf(s.issued[..n], id))
  {
    if n > 0 {
      RunStaysInRange(s, id, n - 1);
      assert s.issued[..n][..n - 1] == s.issued[..n - 1];
    }
  }

  // ---- The fit condition ----

  /** The batch holds no more credits than serials, or no serial past its range can ever be issued. */
  predicate Fits(m: MintArgs) {
    m.amount <= m.serialEnd - m.serialStart + 1 || m.serialEnd >= U64_MAX - 1
  }

  predicate BatchFits(b: CreditBatch) {
    b.amount <= b.serialEnd - b.serialStart + 1 || b.serialEnd >= U64_MAX - 1
  }

  ghost predicate BatchesFit(s: Ledger) {
    forall id :: id in s.batches ==> BatchFits(s.batches[id])
  }

  predicate MintsFit(calls: seq<(Env, Call)>) {
    forall i :: 0 <= i < |calls| && calls[i].1.MintCall? ==> Fits(calls[i].1.m)
  }

  lemma FittingSerialsInRange(s: Ledger)
    requires Inv(s) && BatchesFit(s)
    ensures SerialsInOwnRange(s)
  {
    forall id | id in s.batches
      ensures Retired(s, id) <= s.batches[id].serialEnd - s.batches[id].serialStart + 1
    {
      assert BatchSound(s, id) && BatchFits(s.batches[id]);
    }
    InOwnRangeExactly(s);
  }

  lemma InRangeSerialsUnique(s: Ledger)
    requires Inv(s) && SerialsInOwnRange(s)
    ensures SerialsUnique(s.issued)
  {
    forall i, j, a, b |
      0 <= i < |s.issued| && 0 <= j < |s.issued| && 0 <= a < |s.issued[i].serials| && 0 <= b < |s.issued[j].serials| &&
      s.issued[i].serials[a] == s.issued[j].serials[b]
      ensures i == j && a == b
    {
      if s.issued[i].batchId != s.issued[j].batchId {
        RangesDisjoint(s, s.issued[i].batchId, s.issued[j].batchId);
      } else if i < j {
        SameBatchDistinct(s, i, j, a, b);
      } else if j < i {
        SameBatchDistinct(s, j, i, b, a);
      } else {
        CertificateWindow(s, i, a);
        CertificateWindow(s, i, b);
      }
    }
  }

  lemma StepKeepsFit(s: Ledger, env: Env, call: Call)
    requires Inv(s) && BatchesFit(s)
    requires call.MintCall? ==> Fits(call.m)
    ensures BatchesFit(Step(s, env, call))
  {
    hide Inv;
    var t := Step(s, env, call);
    forall id | id in t.batches ensures BatchFits(t.batches[id]) {
      if id in s.batches {
        assert BatchFits(s.batches[id]);
      }
    }
  }

  lemma {:induction false} RunKeepsFit(calls: seq<(Env, Call)>)
    requires MintsFit(calls)
    ensures BatchesFit(Run(calls))
  {
    if calls != [] {
      var init := calls[..|calls| - 1];
      assert MintsFit(init);
      RunKeepsFit(init);
      RunSound(init);
      StepKeepsFit(Run(init), calls[|calls| - 1].0, calls[|calls| - 1].1);
    }
  }

  /** In every run whose mints fit, no serial is certified twice and each lies in its own batch's range. */
  lemma RunSerialsUnique(calls: seq<(Env, Call)>)
    requires MintsFit(calls)
    ensures SerialsUnique(Run(calls).issued)
    ensures SerialsInOwnRange(Run(calls))
  {
    RunSound(calls);
    RunKeepsFit(calls);
    FittingSerialsInRange(Run(calls));
    InRangeSerialsUnique(Run(calls));
  }

  // ---- ... and the condition is needed ----

  lemma RunSnoc(calls: seq<(Env, Call)>, env: Env, call: Call)
    ensures Run(calls + [(env, call)]) == Step(Run(calls), env, call)
  {
    assert (calls + [(env, call)])[..|calls|] == calls;
  }

  /** The ledger right after `initialize`. */
  function Opened(admin: Address): Ledger {
    EMPTY_LEDGER.(admin := Some(admin))
  }

  /** A second, fitting batch directly above the range of `m`. */
  function Neighbour(m: MintArgs): MintArgs
    requires m.serialEnd + 2 <= U64_MAX
  {
    MintArgs(m.admin, m.projectId, 1, m.vintageYear, if m.batchId == "N" then "M" else "N",
             m.serialEnd + 1, m.serialEnd + 2, m.metadataCid, m.owner)
  }

  function WholeRangePlusOne(m: MintArgs): RetireArgs
    requires m.serialStart <= m.serialEnd && !Fits(m)
  {
    RetireArgs(m.admin, m.batchId, m.serialEnd - m.serialStart + 2, "", "", "R1", "", "")
  }

  lemma InitializeStep(env: Env, admin: Address)
    requires admin in env.auth
    ensures Run([(env, InitializeCall(admin))]) == Opened(admin)
  {
    RunSnoc([], env, InitializeCall(admin));
    assert [] + [(env, InitializeCall(admin))] == [(env, InitializeCall(admin))];
  }

  lemma MintStep(calls: seq<(Env, Call)>, env: Env, m: MintArgs)
    requires MintGate(Run(calls), env, m).Ok?
    ensures Run(calls + [(env, MintCall(m))]) == Minted(Run(calls), env, m)
  {
    RunSnoc(calls, env, MintCall(m));
    hide Run, Minted;
  }

  lemma NeighbourMintable(env: Env, m: MintArgs)
    requires MintGate(Opened(m.admin), env, m).Ok? && !Fits(m)
    ensures MintGate(Minted(Opened(m.admin), env, m), env, Neighbour(m)).Ok?
    ensures m.admin in env.auth && 0 < m.serialStart < m.serialEnd
  {
    var first := Minted(Opened(m.admin), env, m);
    assert first.registry == [SerialRange(m.serialStart, m.serialEnd)];
  }

  lemma MintBoth(env: Env, m: MintArgs) returns (calls: seq<(Env, Call)>)
    requires Mint(Opened(m.admin), env, m).Ok? && !Fits(m)
    ensures m.admin in env.auth && 0 < m.serialStart < m.serialEnd
    ensures calls == [(env, InitializeCall(m.admin)), (env, MintCall(m)), (env, MintCall(Neighbour(m)))]
    ensures Run(calls) == Minted(Minted(Opened(m.admin), env, m), env, Neighbour(m))
  {
    NeighbourMintable(env, m);
    hide Run, Minted, MintGate, Opened;
    InitializeStep(env, m.admin);
    calls := [(env, InitializeCall(m.admin))];
    MintStep(calls, env, m);
    calls := calls + [(env, MintCall(m))];
    MintStep(calls, env, Neighbour(m));
    calls := calls + [(env, MintCall(Neighbour(m)))];
  }

  /** A retirement on a batch with nothing retired takes its first serials. */
  lemma RetireFresh(s: Ledger, env: Env, a: RetireArgs) returns (t: Ledger, cert: Certificate)
    requires BatchesSound(s) && a.holder in env.auth && a.batchId in s.batches
    requires Retired(s, a.batchId) == 0
    requires 0 < a.amount <= s.batches[a.batchId].amount
    requires s.batches[a.batchId].serialStart + a.amount <= U64_MAX
    ensures Retire(s, env, a) == Ok(t)
    ensures BatchesSound(t) && Retires(s, t, a, cert)
  {
    RetireExact(s, env, a);
    cert := RetireRetires(s, env, a);
    t := Retire(s, env, a).value;
    RetireKeepsBatches(s, t, a, cert);
  }

  function RetireOne(m: MintArgs): RetireArgs
    requires m.serialEnd + 2 <= U64_MAX
  {
    RetireArgs(m.admin, Neighbour(m).batchId, 1, "", "", "R2", "", "")
  }

  lemma RetireBoth(s: Ledger, env: Env, m: MintArgs) returns (t: Ledger, u: Ledger)
    requires m.admin in env.auth && 0 < m.serialStart < m.serialEnd && !Fits(m)
    requires s == Minted(Minted(Opened(m.admin), env, m), env, Neighbour(m)) && BatchesSound(s)
    ensures Retire(s, env, WholeRangePlusOne(m)) == Ok(t)
    ensures Retire(t, env, RetireOne(m)) == Ok(u)
    ensures !SerialsUnique(u.issued)
  {
    var r1, r2 := WholeRangePlusOne(m), RetireOne(m);
    var cert1, cert2;
    t, cert1 := RetireFresh(s, env, r1);
    assert t.batches[r2.batchId] == s.batches[r2.batchId];
    u, cert2 := RetireFresh(t, env, r2);
    assert u.issued == [cert1, cert2];
    assert u.issued[0].serials[m.serialEnd - m.serialStart + 1] == u.issued[1].serials[0];
  }

  lemma RetireStep(calls: seq<(Env, Call)>, env: Env, a: RetireArgs, t: Ledger)
    requires Retire(Run(calls), env, a) == Ok(t)
    ensures Run(calls + [(env, RetireCall(a))]) == t
  {
    RunSnoc(calls, env, RetireCall(a));
  }

  /** An unfit mint has a run, every other mint of which fits, that certifies a serial twice. */
  lemma UnfitMintDuplicates(env: Env, m: MintArgs) returns (calls: seq<(Env, Call)>)
    requires Mint(Opened(m.admin), env, m).Ok? && !Fits(m)
    ensures OthersFit(calls, m)
    ensures !SerialsUnique(Run(calls).issued)
  {
    hide Mint, Retire, Run, Minted, SerialsUnique;
    var mints := MintBoth(env, m);
    RunSound(mints);
    var t, u := RetireBoth(Run(mints), env, m);
    RetireStep(mints, env, WholeRangePlusOne(m), t);
    calls := mints + [(env, RetireCall(WholeRangePlusOne(m)))];
    RetireStep(calls, env, RetireOne(m), u);
    calls := calls + [(env, RetireCall(RetireOne(m)))];
  }

  /** Every mint of the run other than `m` fits. */
  predicate OthersFit(calls: seq<(Env, Call)>, m: MintArgs) {
    forall i :: 0 <= i < |calls| && calls[i].1.MintCall? && calls[i].1.m != m ==> Fits(calls[i].1.m)
  }

  /** `Fits` is exact: a mint is harmless in all runs whose other mints fit if and only if it fits. */
  lemma FitIsExact(env: Env, m: MintArgs)
    requires Mint(Opened(m.admin), env, m).Ok?
    ensures Fits(m) <==> forall calls :: OthersFit(calls, m) ==> SerialsUnique(Run(calls).issued)
  {
    if Fits(m) {
      forall calls | OthersFit(calls, m) ensures SerialsUnique(Run(calls).issued) {
        assert MintsFit(calls);
        RunSerialsUnique(calls);
      }
    } else {
      var calls := UnfitMintDuplicates(env, m);
    }
  }
}
