/**
  Validate-all-then-apply against buying one by one: they agree on every bulk
  purchase of pairwise distinct listings, and on no accepted one that repeats an id.
 */
module BulkEquivalence {
  import opened Platform
  import opened Marketplace
  import CreditLedger
  import MarketInvariant

  predicate Distinct(ids: seq<string>) {
    forall i, j :: 0 <= i < j < |ids| ==> ids[i] != ids[j]
  }

  predicate Agree(r: Result<Trade>, q: Result<Trade>) {
    (r.Ok? <==> q.Ok?) && (r.Ok? ==> r.value == q.value)
  }

  /** The three phases on the first `n` lines. */
  function PhasesUpTo(t: Trade, env: Env, buyer: Address, ids: seq<string>, amounts: seq<i128>, n: nat): Result<Trade>
    requires n <= |ids| == |amounts|
  {
    var snapshots :- ValidateUpTo(t.market, ids, amounts, n);
    var (market, settled) :- SettleUpTo(t.market, snapshots, amounts, n);
    var ledger :- DeliverUpTo(t.ledger, env, buyer, settled, amounts, n);
    Ok(Trade(market, ledger))
  }

  /** One line bought from the listing as it was in `start`. */
  function SnapshotLine(start: Market, u: Trade, env: Env, buyer: Address, id: string, amount: i128): Result<Trade> {
    var l :- CheckLine(start, id, amount);
    var settled :- SettleLine(l, amount);
    var ledger :- Deliver(u.ledger, env, buyer, settled, amount);
    Ok(Trade(StoreLine(u.market, settled, amount), ledger))
  }

  /** The phases interleaved line by line; every line still sees the initial listings. */
  function SnapshotUpTo(t: Trade, env: Env, buyer: Address, ids: seq<string>, amounts: seq<i128>, n: nat): Result<Trade>
    requires n <= |ids| == |amounts|
  {
    if n == 0 then Ok(t)
    else
      var u :- SnapshotUpTo(t, env, buyer, ids, amounts, n - 1);
      SnapshotLine(t.market, u, env, buyer, ids[n - 1], amounts[n - 1])
  }

  // ---- Phases equal interleaved snapshots, on all inputs ----

  lemma {:induction false} SettlePrefix(m: Market, s1: seq<MarketListing>, s2: seq<MarketListing>, amounts: seq<i128>, n: nat)
    requires n <= |s1| && n <= |s2| && n <= |amounts| && s1[..n] == s2[..n]
    ensures SettleUpTo(m, s1, amounts, n) == SettleUpTo(m, s2, amounts, n)
  {
    if n > 0 {
      assert s1[..n - 1] == s1[..n][..n - 1] == s2[..n][..n - 1] == s2[..n - 1];
      SettlePrefix(m, s1, s2, amounts, n - 1);
      assert s1[n - 1] == s1[..n][n - 1] == s2[n - 1];
    }
  }

  lemma {:induction false} DeliverPrefix(ledger: CreditLedger.Ledger, env: Env, buyer: Address,
                                         s1: seq<MarketListing>, s2: seq<MarketListing>, amounts: seq<i128>, n: nat)
    requires n <= |s1| && n <= |s2| && n <= |amounts| && s1[..n] == s2[..n]
    ensures DeliverUpTo(ledger, env, buyer, s1, amounts, n) == DeliverUpTo(ledger, env, buyer, s2, amounts, n)
  {
    if n > 0 {
      assert s1[..n - 1] == s1[..n][..n - 1] == s2[..n][..n - 1] == s2[..n - 1];
      DeliverPrefix(ledger, env, buyer, s1, s2, amounts, n - 1);
      assert s1[n - 1] == s1[..n][n - 1] == s2[n - 1];
    }
  }

  /** The phases on `n` lines, in terms of the phases on `n - 1`. */
  lemma PhasesStep(t: Trade, env: Env, buyer: Address, ids: seq<string>, amounts: seq<i128>, n: nat)
    requires 0 < n <= |ids| == |amounts|
    ensures var before := PhasesUpTo(t, env, buyer, ids, amounts, n - 1);
            Agree(PhasesUpTo(t, env, buyer, ids, amounts, n),
                  if before.Ok? then SnapshotLine(t.market, before.value, env, buyer, ids[n - 1], amounts[n - 1])
                  else before)
  {
    hide CheckLine, SettleLine, StoreLine, Deliver;
    var head := ValidateUpTo(t.market, ids, amounts, n - 1);
    var all := ValidateUpTo(t.market, ids, amounts, n);
    if all.Ok? {
      assert all.value[..n - 1] == head.value;
      SettlePrefix(t.market, head.value, all.value, amounts, n - 1);
      var settled := SettleUpTo(t.market, all.value, amounts, n);
      if settled.Ok? {
        var some := SettleUpTo(t.market, all.value, amounts, n - 1);
        assert settled.value.1[..n - 1] == some.value.1;
        DeliverPrefix(t.ledger, env, buyer, some.value.1, settled.value.1, amounts, n - 1);
      }
    }
  }

  lemma NoPhases(t: Trade, env: Env, buyer: Address, ids: seq<string>, amounts: seq<i128>)
    requires |ids| == |amounts|
    ensures PhasesUpTo(t, env, buyer, ids, amounts, 0) == Ok(t)
  {
  }

  lemma {:induction false} PhasesAreSnapshots(t: Trade, env: Env, buyer: Address,
                                              ids: seq<string>, amounts: seq<i128>, n: nat)
    requires n <= |ids| == |amounts|
    ensures Agree(PhasesUpTo(t, env, buyer, ids, amounts, n), SnapshotUpTo(t, env, buyer, ids, amounts, n))
  {
    hide PhasesUpTo, SnapshotLine;
    if n == 0 {
      NoPhases(t, env, buyer, ids, amounts);
    } else {
      PhasesAreSnapshots(t, env, buyer, ids, amounts, n - 1);
      PhasesStep(t, env, buyer, ids, amounts, n);
    }
  }

  // ---- Distinct ids: a later line does not see an earlier one ----

  predicate KeyedById(m: Market) {
    forall id :: id in m.listings ==> m.listings[id].listingId == id
  }

  /** Everything a line on an id outside ids[..n] looks at is as in the initial market. */
  ghost predicate Untouched(m: Market, u: Market, ids: seq<string>, n: nat)
    requires n <= |ids|
  {
    && u.suspended == m.suspended && u.admin == m.admin
    && u.listings.Keys == m.listings.Keys
    && forall id :: id in m.listings && id !in ids[..n] ==> u.listings[id] == m.listings[id]
  }

  /** What one snapshot line makes of the market. */
  ghost predicate LineStored(start: Market, u: Market, v: Market, id: string, amount: int) {
    && amount > 0 && id in start.listings
    && v.suspended == u.suspended && v.admin == u.admin && v.listed == u.listed
    && v.listings.Keys == u.listings.Keys + {id}
    && v.listings[id].amountAvailable == start.listings[id].amountAvailable - amount
    && (forall k :: k in u.listings && k != id ==> v.listings[k] == u.listings[k])
    && v.sold == u.sold[id := Lookup(u.sold, id, 0) + amount]
  }

  /** `ms` are the markets between lines: ms[i] before line i, ms[i + 1] after it. */
  ghost predicate Trail(start: Market, ms: seq<Market>, ids: seq<string>, amounts: seq<i128>, n: nat)
    requires n <= |ids| == |amounts|
  {
    && |ms| == n + 1 && ms[0] == start
    && forall i :: 0 <= i < n ==> LineStored(start, ms[i], ms[i + 1], ids[i], amounts[i])
  }

  lemma SnapshotStored(start: Market, u: Trade, env: Env, buyer: Address, id: string, amount: i128)
    requires KeyedById(start) && SnapshotLine(start, u, env, buyer, id, amount).Ok?
    ensures LineStored(start, u.market, SnapshotLine(start, u, env, buyer, id, amount).value.market, id, amount)
  {
  }

  lemma {:induction false} SnapshotTrail(t: Trade, env: Env, buyer: Address,
                                         ids: seq<string>, amounts: seq<i128>, n: nat) returns (ms: seq<Market>)
    requires n <= |ids| == |amounts| && KeyedById(t.market)
    requires SnapshotUpTo(t, env, buyer, ids, amounts, n).Ok?
    ensures Trail(t.market, ms, ids, amounts, n)
    ensures ms[n] == SnapshotUpTo(t, env, buyer, ids, amounts, n).value.market
  {
    if n == 0 {
      ms := [t.market];
    } else {
      var init := SnapshotTrail(t, env, buyer, ids, amounts, n - 1);
      var u := SnapshotUpTo(t, env, buyer, ids, amounts, n - 1).value;
      SnapshotStored(t.market, u, env, buyer, ids[n - 1], amounts[n - 1]);
      ms := init + [SnapshotUpTo(t, env, buyer, ids, amounts, n).value.market];
    }
  }

  lemma {:induction false} TrailUntouched(start: Market, ms: seq<Market>, ids: seq<string>, amounts: seq<i128>, n: nat)
    requires n <= |ids| == |amounts| && Trail(start, ms, ids, amounts, n)
    ensures Untouched(start, ms[n], ids, n)
  {
    if n > 0 {
      assert LineStored(start, ms[n - 1], ms[n], ids[n - 1], amounts[n - 1]);
      TrailUntouched(start, ms[..n], ids, amounts, n - 1);
      assert ids[..n] == ids[..n - 1] + [ids[n - 1]];
    }
  }

  /** A line on an untouched listing comes out the same from the initial and from the current market. */
  lemma UntouchedLine(start: Market, u: Trade, env: Env, buyer: Address, ids: seq<string>, n: nat, amount: i128)
    requires n < |ids| && Untouched(start, u.market, ids, n) && ids[n] !in ids[..n]
    requires buyer in env.auth && start.admin.Some?
    ensures Agree(SnapshotLine(start, u, env, buyer, ids[n], amount), PurchaseLine(u, env, buyer, ids[n], amount))
  {
    assert CheckLine(start, ids[n], amount) == CheckLine(u.market, ids[n], amount);
  }

  lemma {:induction false} SnapshotsAreSequence(t: Trade, env: Env, buyer: Address,
                                                ids: seq<string>, amounts: seq<i128>, n: nat)
    requires n <= |ids| == |amounts| && KeyedById(t.market) && Distinct(ids)
    requires buyer in env.auth && t.market.admin.Some?
    ensures Agree(SnapshotUpTo(t, env, buyer, ids, amounts, n), SequenceUpTo(t, env, buyer, ids, amounts, n))
  {
    hide SnapshotLine, PurchaseLine;
    if n > 0 {
      SnapshotsAreSequence(t, env, buyer, ids, amounts, n - 1);
      if SnapshotUpTo(t, env, buyer, ids, amounts, n - 1).Ok? {
        var ms := SnapshotTrail(t, env, buyer, ids, amounts, n - 1);
        TrailUntouched(t.market, ms, ids, amounts, n - 1);
        UntouchedLine(t.market, SnapshotUpTo(t, env, buyer, ids, amounts, n - 1).value, env, buyer, ids, n - 1, amounts[n - 1]);
      }
    }
  }

  // ---- Any ids: the sequence never accepts more ----

  /** `now` is what some sales can make of `before`: less available, perhaps sold out, the rest equal. */
  predicate Reduced(before: MarketListing, now: MarketListing) {
    && now.amountAvailable <= before.amountAvailable
    && now == before.(amountAvailable := now.amountAvailable, status := now.status)
    && (before.status == Delisted || before.status == Sold ==> now.status == before.status)
  }

  ghost predicate AllReduced(m: Market, u: Market) {
    && u.suspended == m.suspended && u.admin == m.admin
    && u.listings.Keys == m.listings.Keys
    && forall id :: id in m.listings ==> Reduced(m.listings[id], u.listings[id])
  }

  lemma LineReduced(m: Market, u: Market, id: string, amount: i128)
    requires KeyedById(m) && AllReduced(m, u)
    requires CheckLine(u, id, amount).Ok? && SettleLine(u.listings[id], amount).Ok?
    ensures CheckLine(m, id, amount).Ok? && SettleLine(m.listings[id], amount).Ok?
    ensures m.listings[id].seller == u.listings[id].seller && m.listings[id].batchId == u.listings[id].batchId
    ensures AllReduced(m, StoreLine(u, SettleLine(u.listings[id], amount).value, amount))
  {
    assert Reduced(m.listings[id], u.listings[id]);
    var v := StoreLine(u, SettleLine(u.listings[id], amount).value, amount);
    assert u.listings[id].listingId == id;
    forall k | k in m.listings ensures Reduced(m.listings[k], v.listings[k]) {
      assert Reduced(m.listings[k], u.listings[k]);
    }
  }

  /** A line the sequence accepts is accepted from the initial listings too, with the same delivery. */
  lemma LineWithinSnapshot(start: Market, u: Trade, v: Trade, env: Env, buyer: Address, id: string, amount: i128)
    requires KeyedById(start) && AllReduced(start, u.market) && u.ledger == v.ledger
    requires PurchaseLine(u, env, buyer, id, amount).Ok?
    ensures SnapshotLine(start, v, env, buyer, id, amount).Ok?
    ensures SnapshotLine(start, v, env, buyer, id, amount).value.ledger == PurchaseLine(u, env, buyer, id, amount).value.ledger
    ensures AllReduced(start, PurchaseLine(u, env, buyer, id, amount).value.market)
    ensures buyer in env.auth && start.admin.Some?
  {
    hide CreditLedger.Transfer;
    LineReduced(start, u.market, id, amount);
  }

  /** Whatever the sequence accepts, the snapshots accept too, with the same deliveries. */
  lemma {:induction false} SequenceWithinSnapshots(t: Trade, env: Env, buyer: Address,
                                                   ids: seq<string>, amounts: seq<i128>, n: nat)
    requires n <= |ids| == |amounts| && KeyedById(t.market)
    requires SequenceUpTo(t, env, buyer, ids, amounts, n).Ok?
    ensures SnapshotUpTo(t, env, buyer, ids, amounts, n).Ok?
    ensures AllReduced(t.market, SequenceUpTo(t, env, buyer, ids, amounts, n).value.market)
    ensures SequenceUpTo(t, env, buyer, ids, amounts, n).value.ledger ==
            SnapshotUpTo(t, env, buyer, ids, amounts, n).value.ledger
    ensures n > 0 ==> buyer in env.auth && t.market.admin.Some?
  {
    hide SnapshotLine, PurchaseLine;
    if n > 0 {
      SequenceWithinSnapshots(t, env, buyer, ids, amounts, n - 1);
      LineWithinSnapshot(t.market, SequenceUpTo(t, env, buyer, ids, amounts, n - 1).value,
                         SnapshotUpTo(t, env, buyer, ids, amounts, n - 1).value, env, buyer, ids[n - 1], amounts[n - 1]);
    }
  }

  // ---- A repeated id: the snapshots forget all but its last line ----

  /** Credits that the first `n` lines take from one listing. */
  function TakenBy(ids: seq<string>, amounts: seq<i128>, id: string, n: nat): int
    requires n <= |ids| == |amounts|
  {
    if n == 0 then 0 else TakenBy(ids, amounts, id, n - 1) + if ids[n - 1] == id then amounts[n - 1] else 0
  }

  lemma LineTakes(u: Trade, env: Env, buyer: Address, line: string, amount: i128, id: string)
    requires KeyedById(u.market) && id in u.market.listings && PurchaseLine(u, env, buyer, line, amount).Ok?
    ensures var v := PurchaseLine(u, env, buyer, line, amount).value.market;
            && KeyedById(v) && id in v.listings
            && v.listings[id].amountAvailable == u.market.listings[id].amountAvailable - if line == id then amount else 0
  {
    hide Deliver;
  }

  lemma {:induction false} SequenceTakes(t: Trade, env: Env, buyer: Address,
                                         ids: seq<string>, amounts: seq<i128>, n: nat, id: string)
    requires n <= |ids| == |amounts| && KeyedById(t.market) && id in t.market.listings
    requires SequenceUpTo(t, env, buyer, ids, amounts, n).Ok?
    ensures var u := SequenceUpTo(t, env, buyer, ids, amounts, n).value.market;
            && KeyedById(u) && id in u.listings
            && u.listings[id].amountAvailable == t.market.listings[id].amountAvailable - TakenBy(ids, amounts, id, n)
  {
    hide PurchaseLine, KeyedById;
    if n > 0 {
      SequenceTakes(t, env, buyer, ids, amounts, n - 1, id);
      LineTakes(SequenceUpTo(t, env, buyer, ids, amounts, n - 1).value, env, buyer, ids[n - 1], amounts[n - 1], id);
    }
  }

  /** `k` is the last of the first `n` lines on `id`. */
  predicate LastLine(ids: seq<string>, id: string, k: int, n: nat)
    requires n <= |ids|
  {
    0 <= k < n && ids[k] == id && forall j :: k < j < n ==> ids[j] != id
  }

  /** After the snapshots the sales history counts every line of a listing ... */
  lemma {:induction false} TrailHistory(start: Market, ms: seq<Market>, ids: seq<string>, amounts: seq<i128>,
                                        n: nat, id: string)
    requires n <= |ids| == |amounts| && Trail(start, ms, ids, amounts, n)
    ensures ms[n].listed == start.listed
    ensures Lookup(ms[n].sold, id, 0) == Lookup(start.sold, id, 0) + TakenBy(ids, amounts, id, n)
  {
    if n > 0 {
      assert LineStored(start, ms[n - 1], ms[n], ids[n - 1], amounts[n - 1]);
      TrailHistory(start, ms[..n], ids, amounts, n - 1, id);
    }
  }

  /** ... but the listing itself shows only its last line. */
  lemma {:induction false} TrailLast(start: Market, ms: seq<Market>, ids: seq<string>, amounts: seq<i128>,
                                     n: nat, id: string) returns (k: int)
    requires n <= |ids| == |amounts| && Trail(start, ms, ids, amounts, n) && id in ids[..n]
    ensures LastLine(ids, id, k, n)
    ensures id in start.listings && id in ms[n].listings
    ensures ms[n].listings[id].amountAvailable == start.listings[id].amountAvailable - amounts[k]
  {
    assert LineStored(start, ms[n - 1], ms[n], ids[n - 1], amounts[n - 1]);
    if ids[n - 1] == id {
      k := n - 1;
    } else {
      assert ids[..n] == ids[..n - 1] + [ids[n - 1]];
      k := TrailLast(start, ms[..n], ids, amounts, n - 1, id);
    }
  }

  lemma {:induction false} TakenAtLeast(ids: seq<string>, amounts: seq<i128>, id: string, i: int, k: int, n: nat)
    requires n <= |ids| == |amounts|
    requires forall j :: 0 <= j < n ==> amounts[j] > 0
    ensures TakenBy(ids, amounts, id, n) >= 0
    ensures 0 <= i < n && ids[i] == id ==> TakenBy(ids, amounts, id, n) >= amounts[i]
    ensures 0 <= i < k < n && ids[i] == id && ids[k] == id ==> TakenBy(ids, amounts, id, n) - amounts[i] >= amounts[k]
  {
    if n > 0 {
      TakenAtLeast(ids, amounts, id, i, k, n - 1);
    }
  }

  /** For a repeated id the snapshots leave more available than was sold from the listing. */
  lemma RepeatedIdOversold(t: Trade, env: Env, buyer: Address, ids: seq<string>, amounts: seq<i128>) returns (id: string)
    requires |ids| == |amounts| && KeyedById(t.market) && !Distinct(ids)
    requires SnapshotUpTo(t, env, buyer, ids, amounts, |ids|).Ok?
    ensures id in t.market.listings
    ensures var u := SnapshotUpTo(t, env, buyer, ids, amounts, |ids|).value.market;
            && id in u.listings
            && u.listings[id].amountAvailable > t.market.listings[id].amountAvailable - TakenBy(ids, amounts, id, |ids|)
            && u.listed == t.market.listed
            && Lookup(u.sold, id, 0) == Lookup(t.market.sold, id, 0) + TakenBy(ids, amounts, id, |ids|)
  {
    var i, j :| 0 <= i < j < |ids| && ids[i] == ids[j];
    id := ids[i];
    var n := |ids|;
    var ms := SnapshotTrail(t, env, buyer, ids, amounts, n);
    TrailHistory(t.market, ms, ids, amounts, n, id);
    assert ids[..n][i] == id;
    var k := TrailLast(t.market, ms, ids, amounts, n, id);
    assert k >= j;
    forall l | 0 <= l < n ensures amounts[l] > 0 {
      assert LineStored(t.market, ms[l], ms[l + 1], ids[l], amounts[l]);
    }
    TakenAtLeast(ids, amounts, id, i, k, n);
  }

  // ---- The theorems ----

  lemma BulkIsPhases(t: Trade, env: Env, buyer: Address, ids: seq<string>, amounts: seq<i128>)
    requires |ids| == |amounts| <= MAX_BATCH_SIZE && buyer in env.auth && t.market.admin.Some?
    ensures Agree(BulkPurchase(t, env, buyer, ids, amounts), SnapshotUpTo(t, env, buyer, ids, amounts, |ids|))
  {
    PhasesAreSnapshots(t, env, buyer, ids, amounts, |ids|);
  }

  /**
    A bulk purchase that is refused would also be refused line by line.  One that
    is accepted has the outcome of the line-by-line purchases if and only if no
    listing id is repeated.
   */
  lemma BulkVersusSequence(t: Trade, env: Env, buyer: Address, ids: seq<string>, amounts: seq<i128>)
    requires |ids| == |amounts| <= MAX_BATCH_SIZE && KeyedById(t.market)
    requires ids != [] || (buyer in env.auth && t.market.admin.Some?)
    ensures var bulk := BulkPurchase(t, env, buyer, ids, amounts);
            var single := SequenceUpTo(t, env, buyer, ids, amounts, |ids|);
            && (bulk.IsFailure() ==> single.IsFailure())
            && (bulk.Ok? ==> (single == bulk <==> Distinct(ids)))
  {
    var single := SequenceUpTo(t, env, buyer, ids, amounts, |ids|);
    if single.Ok? {
      SequenceWithinSnapshots(t, env, buyer, ids, amounts, |ids|);
    }
    if buyer in env.auth && t.market.admin.Some? {
      BulkIsPhases(t, env, buyer, ids, amounts);
      var bulk := BulkPurchase(t, env, buyer, ids, amounts);
      if Distinct(ids) {
        SnapshotsAreSequence(t, env, buyer, ids, amounts, |ids|);
      } else if bulk.Ok? && single.Ok? {
        var id := RepeatedIdOversold(t, env, buyer, ids, amounts);
        SequenceTakes(t, env, buyer, ids, amounts, |ids|, id);
      }
    }
  }

  // ---- Who can repeat a batch ----

  lemma {:induction false} SnapshotPrefix(t: Trade, env: Env, buyer: Address,
                                          ids: seq<string>, amounts: seq<i128>, k: nat, n: nat)
    requires k <= n <= |ids| == |amounts| && SnapshotUpTo(t, env, buyer, ids, amounts, n).Ok?
    ensures SnapshotUpTo(t, env, buyer, ids, amounts, k).Ok?
  {
    hide SnapshotLine;
    if k < n {
      SnapshotPrefix(t, env, buyer, ids, amounts, k, n - 1);
    }
  }

  /** An accepted line takes the seller's batch and makes the buyer its owner; other owners stay. */
  lemma LineOwner(start: Market, u: Trade, env: Env, buyer: Address, id: string, amount: i128)
    requires SnapshotLine(start, u, env, buyer, id, amount).Ok?
    ensures id in start.listings
    ensures var l := start.listings[id];
            var ledger := SnapshotLine(start, u, env, buyer, id, amount).value.ledger;
            && l.batchId in u.ledger.batches && u.ledger.batches[l.batchId].owner == l.seller
            && ledger.batches.Keys == u.ledger.batches.Keys
            && forall b :: b in ledger.batches ==>
                 ledger.batches[b].owner == if b == l.batchId then buyer else u.ledger.batches[b].owner
  {
  }

  /** The buyer owns every batch that was delivered so far. */
  lemma {:induction false} DeliveredOwner(t: Trade, env: Env, buyer: Address,
                                          ids: seq<string>, amounts: seq<i128>, i: nat, n: nat)
    requires i < n <= |ids| == |amounts| && SnapshotUpTo(t, env, buyer, ids, amounts, n).Ok?
    ensures ids[i] in t.market.listings
    ensures var b := t.market.listings[ids[i]].batchId;
            var ledger := SnapshotUpTo(t, env, buyer, ids, amounts, n).value.ledger;
            b in ledger.batches && ledger.batches[b].owner == buyer
  {
    hide SnapshotLine;
    LineOwner(t.market, SnapshotUpTo(t, env, buyer, ids, amounts, n - 1).value, env, buyer, ids[n - 1], amounts[n - 1]);
    if i < n - 1 {
      DeliveredOwner(t, env, buyer, ids, amounts, i, n - 1);
    }
  }

  /** Two lines of an accepted bulk purchase are on one batch only if the buyer sells the later one to itself. */
  lemma SameBatchSelfPurchase(t: Trade, env: Env, buyer: Address, ids: seq<string>, amounts: seq<i128>, i: nat, j: nat)
    requires BulkPurchase(t, env, buyer, ids, amounts).Ok? && i < j < |ids|
    ensures ids[i] in t.market.listings && ids[j] in t.market.listings
    ensures t.market.listings[ids[i]].batchId == t.market.listings[ids[j]].batchId ==>
              t.market.listings[ids[j]].seller == buyer
  {
    hide SnapshotLine, ValidateUpTo, SettleUpTo, DeliverUpTo;
    BulkIsPhases(t, env, buyer, ids, amounts);
    SnapshotPrefix(t, env, buyer, ids, amounts, j + 1, |ids|);
    SnapshotPrefix(t, env, buyer, ids, amounts, j, |ids|);
    DeliveredOwner(t, env, buyer, ids, amounts, i, j);
    LineOwner(t.market, SnapshotUpTo(t, env, buyer, ids, amounts, j).value, env, buyer, ids[j], amounts[j]);
  }

  /** The purchase repeats an id of a listing that its buyer sells. */
  predicate SelfRepeat(m: Market, buyer: Address, ids: seq<string>) {
    exists i, j :: 0 <= i < j < |ids| && ids[i] == ids[j] && ids[i] in m.listings && m.listings[ids[i]].seller == buyer
  }

  /** An accepted bulk purchase repeats an id only of its buyer's own listing. */
  lemma RepeatIsSelfRepeat(t: Trade, env: Env, buyer: Address, ids: seq<string>, amounts: seq<i128>)
    requires BulkPurchase(t, env, buyer, ids, amounts).Ok?
    ensures Distinct(ids) <==> !SelfRepeat(t.market, buyer, ids)
  {
    hide BulkPurchase;
    if !Distinct(ids) {
      var i, j :| 0 <= i < j < |ids| && ids[i] == ids[j];
      SameBatchSelfPurchase(t, env, buyer, ids, amounts, i, j);
    }
  }

  /** For a buyer who sells none of the listed ids, a bulk purchase and the lines one by one always agree. */
  lemma OutsiderBulk(t: Trade, env: Env, buyer: Address, ids: seq<string>, amounts: seq<i128>)
    requires |ids| == |amounts| <= MAX_BATCH_SIZE && KeyedById(t.market)
    requires ids != [] || (buyer in env.auth && t.market.admin.Some?)
    requires forall i :: 0 <= i < |ids| && ids[i] in t.market.listings ==> t.market.listings[ids[i]].seller != buyer
    ensures Agree(BulkPurchase(t, env, buyer, ids, amounts), SequenceUpTo(t, env, buyer, ids, amounts, |ids|))
    ensures BulkPurchase(t, env, buyer, ids, amounts).Ok? ==> Distinct(ids)
  {
    hide BulkPurchase, SequenceUpTo;
    BulkVersusSequence(t, env, buyer, ids, amounts);
    if BulkPurchase(t, env, buyer, ids, amounts).Ok? {
      RepeatIsSelfRepeat(t, env, buyer, ids, amounts);
    }
  }

  // ---- Conservation under bulk purchases ----

  lemma LineSound(t: Trade, env: Env, buyer: Address, id: string, amount: i128)
    requires MarketInvariant.Inv(t.market) && PurchaseLine(t, env, buyer, id, amount).Ok?
    ensures MarketInvariant.Inv(PurchaseLine(t, env, buyer, id, amount).value.market)
  {
    MarketInvariant.LineExact(t.market, id, amount);
    MarketInvariant.StoreSound(t.market, id, amount);
  }

  lemma {:induction false} SequenceSound(t: Trade, env: Env, buyer: Address,
                                         ids: seq<string>, amounts: seq<i128>, n: nat)
    requires n <= |ids| == |amounts| && MarketInvariant.Inv(t.market)
    requires SequenceUpTo(t, env, buyer, ids, amounts, n).Ok?
    ensures MarketInvariant.Inv(SequenceUpTo(t, env, buyer, ids, amounts, n).value.market)
  {
    hide PurchaseLine, MarketInvariant.Inv;
    if n > 0 {
      SequenceSound(t, env, buyer, ids, amounts, n - 1);
      LineSound(SequenceUpTo(t, env, buyer, ids, amounts, n - 1).value, env, buyer, ids[n - 1], amounts[n - 1]);
    }
  }

  lemma SoundIsKeyed(m: Market)
    requires MarketInvariant.Inv(m)
    ensures KeyedById(m)
  {
    forall id | id in m.listings ensures m.listings[id].listingId == id {
      assert MarketInvariant.ListingSound(m, id);
    }
  }

  /** An accepted bulk purchase keeps listed = available + sold if and only if no listing id is repeated. */
  lemma BulkSoundExactly(t: Trade, env: Env, buyer: Address, ids: seq<string>, amounts: seq<i128>)
    requires MarketInvariant.Inv(t.market) && BulkPurchase(t, env, buyer, ids, amounts).Ok?
    ensures MarketInvariant.Inv(BulkPurchase(t, env, buyer, ids, amounts).value.market) <==> Distinct(ids)
  {
    SoundIsKeyed(t.market);
    BulkVersusSequence(t, env, buyer, ids, amounts);
    BulkIsPhases(t, env, buyer, ids, amounts);
    if Distinct(ids) {
      SequenceSound(t, env, buyer, ids, amounts, |ids|);
    } else {
      var id := RepeatedIdOversold(t, env, buyer, ids, amounts);
      var u := BulkPurchase(t, env, buyer, ids, amounts).value.market;
      assert MarketInvariant.ListingSound(t.market, id);
      assert !MarketInvariant.ListingSound(u, id);
    }
  }
}
