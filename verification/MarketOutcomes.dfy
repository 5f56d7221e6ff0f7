/**
  What the marketplace answers to every call, and what an accepted call leaves,
  in terms of listings, balances and owners before it.
 */
module MarketOutcomes {
  import opened Platform
  import opened UsdcToken
  import opened Marketplace
  import opened MarketInvariant
  import opened BulkEquivalence
  import CreditLedger
  import LedgerInvariant
  import LedgerOutcomes

  // ---- Administration ----

  lemma InitializeOutcome(m: Market, env: Env, admin: Address, treasury: Address)
    ensures var r := Initialize(m, env, admin, treasury);
            if m.admin.Some? then r == Err(AlreadyInitialized)
            else if admin !in env.auth then r == Trap
            else r == Ok(m.(admin := Some(admin), treasury := Some(treasury), allListings := []))
  {
  }

  /** Only the stored admin replaces the treasury, and changes nothing else with it. */
  lemma TreasuryOutcome(m: Market, env: Env, caller: Address, treasury: Address)
    ensures var r := UpdateTreasury(m, env, caller, treasury);
            if caller !in env.auth || m.admin == None then r == Trap
            else if m.admin != Some(caller) then r == Err(UnauthorizedVerifier)
            else r == Ok(m.(treasury := Some(treasury)))
  {
  }

  /** Only the stored admin suspends a project, and that project alone. */
  lemma SuspendOutcome(m: Market, env: Env, caller: Address, project: string)
    ensures var r := SuspendProject(m, env, caller, project);
            if caller !in env.auth || m.admin == None then r == Trap
            else if m.admin != Some(caller) then r == Err(UnauthorizedVerifier)
            else
              && r.Ok? && r.value == m.(suspended := r.value.suspended)
              && forall p :: p in r.value.suspended <==> p == project || p in m.suspended
  {
  }

  // ---- Listings ----

  lemma ListOutcome(m: Market, env: Env, a: ListArgs)
    ensures var r := List(m, env, a);
            var vintage := VintageGate(a.vintageYear, ApproximateYear(env.now));
            if a.seller !in env.auth then r == Trap
            else if a.amount <= 0 || a.price <= 0 then r == Err(ZeroAmountNotAllowed)
            else if vintage == Trap then r == Trap
            else if vintage == Err(InvalidVintageYear) then r == Err(InvalidVintageYear)
            else if a.projectId in m.suspended then r == Err(ProjectSuspended)
            else r.Ok? && r.value.allListings == m.allListings + [a.listingId]
                 && r.value.admin == m.admin && r.value.treasury == m.treasury
  {
    LedgerOutcomes.VintageOutcome(a.vintageYear, env.now);
    hide VintageGate, ApproximateYear;
  }

  /** Only the seller delists; the listing keeps everything but its status, other listings keep everything. */
  lemma DelistOutcome(m: Market, env: Env, seller: Address, id: string)
    ensures var r := Delist(m, env, seller, id);
            if seller !in env.auth then r == Trap
            else if id !in m.listings then r == Err(ListingNotFound)
            else if m.listings[id].seller != seller then r == Err(UnauthorizedVerifier)
            else
              && r.Ok? && r.value == m.(listings := r.value.listings)
              && r.value.listings.Keys == m.listings.Keys
              && r.value.listings[id].status == Delisted
              && r.value.listings[id].(status := m.listings[id].status) == m.listings[id]
              && forall k :: k in m.listings && k != id ==> r.value.listings[k] == m.listings[k]
  {
  }

  // ---- One line ----

  /** The guards of a line on sound listings: a sold-out listing has nothing left. */
  lemma LineOutcome(m: Market, id: string, amount: i128)
    requires Inv(m)
    ensures var r := CheckLine(m, id, amount);
            if amount <= 0 then r == Err(ZeroAmountNotAllowed)
            else if id !in m.listings || m.listings[id].status == Delisted || m.listings[id].amountAvailable == 0
            then r == Err(ListingNotFound)
            else if m.listings[id].projectId in m.suspended then r == Err(ProjectSuspended)
            else if amount > m.listings[id].amountAvailable then r == Err(InsufficientLiquidity)
            else r == Ok(m.listings[id])
  {
    if id in m.listings {
      assert ListingSound(m, id);
    }
  }

  /** A listing after `amount` is bought from it. */
  function Reduce(l: MarketListing, amount: int): MarketListing
    requires FitsI128(l.amountAvailable - amount)
  {
    l.(amountAvailable := l.amountAvailable - amount,
       status := if amount == l.amountAvailable then Sold else PartiallyFilled)
  }

  /** The price of a line is at most 2^127 - 1. */
  predicate PriceFits(m: Market, id: string, amount: int) {
    id in m.listings && m.listings[id].pricePerCredit * amount <= 170_141_183_460_469_231_731_687_303_715_884_105_727
  }

  /** The arithmetic of a line that passed its guards fails exactly when the price leaves i128. */
  lemma SettleOutcome(m: Market, id: string, amount: i128)
    requires Inv(m) && CheckLine(m, id, amount).Ok?
    ensures id in m.listings && 0 < amount <= m.listings[id].amountAvailable
    ensures var l := m.listings[id];
            var r := SettleLine(l, amount);
            if PriceFits(m, id, amount) then r == Ok(Reduce(l, amount)) else r == Err(Arithmetic)
  {
    LineOutcome(m, id, amount);
    assert ListingSound(m, id);
    MulPositive(m.listings[id].pricePerCredit, amount);
  }

  // ---- A purchase ----

  /** A purchase is answered by its line's guards, then its price; what then fails is a trap. */
  lemma PurchaseOutcome(w: World, env: Env, buyer: Address, id: string, amount: i128)
    requires Inv(w.market) && LedgerInvariant.BatchesSound(w.ledger)
    ensures var r := Purchase(w, env, buyer, id, amount);
            var line := CheckLine(w.market, id, amount);
            if buyer !in env.auth then r == Trap
            else if line.Err? then r == Err(line.error)
            else if !PriceFits(w.market, id, amount) then r == Err(Arithmetic)
            else r.Ok? || r == Trap
  {
    LineOutcome(w.market, id, amount);
    if CheckLine(w.market, id, amount).Ok? {
      SettleOutcome(w.market, id, amount);
    }
    PaysOrTraps(w, env, buyer, id, amount);
    hide *;
  }

  lemma PaysOrTraps(w: World, env: Env, buyer: Address, id: string, amount: i128)
    ensures var r := Purchase(w, env, buyer, id, amount);
            var line := CheckLine(w.market, id, amount);
            if buyer !in env.auth then r == Trap
            else if line.Err? then r == Err(line.error)
            else if line.Ok? then
              var settled := SettleLine(line.value, amount);
              if settled.Err? then r == Err(settled.error) else r.Ok? || r == Trap
            else true
  {
  }

  lemma StoreLeaves(m: Market, id: string, amount: i128)
    requires Inv(m) && Buyable(m, id, amount) && SettleLine(m.listings[id], amount).Ok?
    ensures 0 < amount <= m.listings[id].amountAvailable && id in m.sold && (m.admin.Some? <==> m.treasury.Some?)
    ensures StoreLine(m, SettleLine(m.listings[id], amount).value, amount) ==
            m.(listings := m.listings[id := Reduce(m.listings[id], amount)], sold := m.sold[id := m.sold[id] + amount])
  {
    assert ListingSound(m, id);
  }

  /** What a successful purchase leaves of listing, history, batch and balances. */
  lemma PurchaseLeaves(w: World, env: Env, buyer: Address, id: string, amount: i128)
    requires Inv(w.market) && LedgerInvariant.BatchesSound(w.ledger)
    requires Purchase(w, env, buyer, id, amount).Ok?
    ensures id in w.market.listings && w.market.treasury.Some?
    ensures var l, v := w.market.listings[id], Purchase(w, env, buyer, id, amount).value;
            var cost, treasury := l.pricePerCredit * amount, w.market.treasury.value;
            && 0 < amount <= l.amountAvailable && id in w.market.sold && l.batchId in w.ledger.batches
            && v.market == w.market.(listings := w.market.listings[id := Reduce(l, amount)],
                                     sold := w.market.sold[id := w.market.sold[id] + amount])
            && v.ledger == w.ledger.(batches := w.ledger.batches[
                                       l.batchId := w.ledger.batches[l.batchId].(owner := buyer)])
            && forall a :: BalanceOf(v.usdc, a) ==
                           BalanceOf(w.usdc, a) - (if a == buyer then cost else 0)
                           + (if a == l.seller then cost - cost / 100 else 0) + (if a == treasury then cost / 100 else 0)
  {
    PurchaseEffect(w, env, buyer, id, amount);
    StoreLeaves(w.market, id, amount);
    hide Purchase, PayLine, BalanceOf, LedgerInvariant.BatchesSound, Inv, StoreLine, SettleLine;
  }

  /** A purchase is its line without money and both payments, accepted together. */
  lemma PurchaseIsLine(w: World, env: Env, buyer: Address, id: string, amount: i128)
    ensures var line := PurchaseLine(Trade(w.market, w.ledger), env, buyer, id, amount);
            var r := Purchase(w, env, buyer, id, amount);
            && (r.Ok? ==> line == Ok(Trade(r.value.market, r.value.ledger)))
            && (line.Ok? ==>
                  id in w.market.listings && FitsI128(w.market.listings[id].pricePerCredit * amount) &&
                  (r.Ok? <==> w.market.treasury.Some? &&
                              PayLine(w.usdc, env, buyer, w.market.listings[id].seller, w.market.treasury.value,
                                      w.market.listings[id].pricePerCredit * amount).Ok?))
  {
    hide PayLine, Deliver;
  }

  // ---- A bulk purchase ----

  /** Line `j` can be delivered once the lines before it are: a batch already delivered is the buyer's. */
  predicate DeliverableAt(t: Trade, env: Env, buyer: Address, ids: seq<string>, amounts: seq<i128>, j: nat)
    requires j < |ids| == |amounts| && forall i :: 0 <= i <= j ==> ids[i] in t.market.listings
  {
    var l := t.market.listings[ids[j]];
    && l.seller in env.auth
    && l.batchId in t.ledger.batches
    && 0 < amounts[j] <= t.ledger.batches[l.batchId].amount - LedgerOutcomes.Gone(t.ledger, l.batchId)
    && l.seller == OwnerAfter(t, buyer, ids, j, l.batchId)
  }

  /** The owner of a batch once the first `n` lines are delivered. */
  function OwnerAfter(t: Trade, buyer: Address, ids: seq<string>, n: nat, batch: string): Address
    requires n <= |ids| && batch in t.ledger.batches && forall i :: 0 <= i < n ==> ids[i] in t.market.listings
  {
    if exists i :: 0 <= i < n && t.market.listings[ids[i]].batchId == batch then buyer else t.ledger.batches[batch].owner
  }

  /** Every one of the first `n` lines can be bought from the initial listings and delivered in its turn. */
  predicate LinesGood(t: Trade, env: Env, buyer: Address, ids: seq<string>, amounts: seq<i128>, n: nat)
    requires n <= |ids| == |amounts|
  {
    && (forall j :: 0 <= j < n ==> Buyable(t.market, ids[j], amounts[j]))
    && (forall j :: 0 <= j < n ==> DeliverableAt(t, env, buyer, ids, amounts, j))
  }

  /** The ledger once the first `n` lines are delivered. */
  ghost predicate DeliveredUpTo(t: Trade, ledger: CreditLedger.Ledger, buyer: Address, ids: seq<string>, n: nat)
    requires n <= |ids| && forall i :: 0 <= i < n ==> ids[i] in t.market.listings
  {
    && ledger == t.ledger.(batches := ledger.batches)
    && ledger.batches.Keys == t.ledger.batches.Keys
    && forall b :: b in ledger.batches ==>
         ledger.batches[b] == t.ledger.batches[b].(owner := OwnerAfter(t, buyer, ids, n, b))
  }

  lemma LineExactly(t: Trade, u: Trade, env: Env, buyer: Address, ids: seq<string>, amounts: seq<i128>, j: nat)
    requires j < |ids| == |amounts| && Inv(t.market) && LedgerInvariant.BatchesSound(u.ledger)
    requires forall i :: 0 <= i < j ==> ids[i] in t.market.listings
    requires DeliveredUpTo(t, u.ledger, buyer, ids, j)
    ensures SnapshotLine(t.market, u, env, buyer, ids[j], amounts[j]).Ok? <==>
            Buyable(t.market, ids[j], amounts[j]) && DeliverableAt(t, env, buyer, ids, amounts, j)
    ensures SnapshotLine(t.market, u, env, buyer, ids[j], amounts[j]).Ok? ==>
              ids[j] in t.market.listings && t.market.listings[ids[j]].batchId in u.ledger.batches &&
              SnapshotLine(t.market, u, env, buyer, ids[j], amounts[j]).value.ledger ==
              CreditLedger.Moved(u.ledger, t.market.listings[ids[j]].batchId, buyer)
  {
    LineExact(t.market, ids[j], amounts[j]);
    if Buyable(t.market, ids[j], amounts[j]) {
      var l := t.market.listings[ids[j]];
      DeliverExact(u.ledger, env, buyer, SettleLine(l, amounts[j]).value, amounts[j]);
      hide Inv, LedgerInvariant.BatchesSound, Deliver;
    }
  }

  lemma DeliveredStep(t: Trade, ledger: CreditLedger.Ledger, buyer: Address, ids: seq<string>, j: nat)
    requires j < |ids| && forall i :: 0 <= i <= j ==> ids[i] in t.market.listings
    requires DeliveredUpTo(t, ledger, buyer, ids, j) && t.market.listings[ids[j]].batchId in ledger.batches
    ensures DeliveredUpTo(t, CreditLedger.Moved(ledger, t.market.listings[ids[j]].batchId, buyer), buyer, ids, j + 1)
  {
  }

  lemma {:induction false} SnapshotsExactly(t: Trade, env: Env, buyer: Address, ids: seq<string>, amounts: seq<i128>, n: nat)
    requires n <= |ids| == |amounts| && Inv(t.market) && LedgerInvariant.BatchesSound(t.ledger)
    ensures var r := SnapshotUpTo(t, env, buyer, ids, amounts, n);
            && (r.Ok? <==> LinesGood(t, env, buyer, ids, amounts, n))
            && (r.Ok? ==> LedgerInvariant.BatchesSound(r.value.ledger) && DeliveredUpTo(t, r.value.ledger, buyer, ids, n))
  {
    hide Inv, LedgerInvariant.BatchesSound, SnapshotLine, DeliverableAt, DeliveredUpTo, CreditLedger.Moved;
    if n == 0 {
      NoneDelivered(t, buyer, ids);
    } else {
      SnapshotsExactly(t, env, buyer, ids, amounts, n - 1);
      var r := SnapshotUpTo(t, env, buyer, ids, amounts, n - 1);
      if r.Ok? {
        LineExactly(t, r.value, env, buyer, ids, amounts, n - 1);
        var line := SnapshotLine(t.market, r.value, env, buyer, ids[n - 1], amounts[n - 1]);
        if line.Ok? {
          LedgerInvariant.MovedKeepsBatches(r.value.ledger, t.market.listings[ids[n - 1]].batchId, buyer);
          DeliveredStep(t, r.value.ledger, buyer, ids, n - 1);
        }
      }
    }
  }

  lemma NoneDelivered(t: Trade, buyer: Address, ids: seq<string>)
    ensures DeliveredUpTo(t, t.ledger, buyer, ids, 0)
  {
  }

  /**
    A bulk purchase of at most ten lines succeeds exactly when each line could be
    bought from the initial listings and delivered after the lines before it.
   */
  lemma BulkExactly(t: Trade, env: Env, buyer: Address, ids: seq<string>, amounts: seq<i128>)
    requires Inv(t.market) && LedgerInvariant.BatchesSound(t.ledger)
    ensures BulkPurchase(t, env, buyer, ids, amounts).Ok? <==>
            && buyer in env.auth && t.market.admin.Some? && |ids| == |amounts| <= 10
            && LinesGood(t, env, buyer, ids, amounts, |ids|)
  {
    hide Inv, LedgerInvariant.BatchesSound, LinesGood, ValidateUpTo, SettleUpTo, DeliverUpTo;
    if buyer in env.auth && t.market.admin.Some? && |ids| == |amounts| <= 10 {
      BulkIsPhases(t, env, buyer, ids, amounts);
      SnapshotsExactly(t, env, buyer, ids, amounts, |ids|);
    }
  }

  /** The last of the first `n` lines on a listing, or -1. */
  function LastOn(ids: seq<string>, id: string, n: nat): (k: int)
    requires n <= |ids|
    ensures -1 <= k < n
  {
    if n == 0 then -1 else if ids[n - 1] == id then n - 1 else LastOn(ids, id, n - 1)
  }

  /** The market after the first `n` lines: a listing shows its last line only, its history all of them. */
  ghost predicate StoredUpTo(m: Market, u: Market, ids: seq<string>, amounts: seq<i128>, n: nat)
    requires n <= |ids| == |amounts|
  {
    && u == m.(listings := u.listings, sold := u.sold)
    && u.listings.Keys == m.listings.Keys
    && (forall id :: id in m.listings ==>
          var k := LastOn(ids, id, n);
          if k < 0 then u.listings[id] == m.listings[id]
          else 0 < amounts[k] <= m.listings[id].amountAvailable && u.listings[id] == Reduce(m.listings[id], amounts[k]))
    && (forall id :: Lookup(u.sold, id, 0) == Lookup(m.sold, id, 0) + TakenBy(ids, amounts, id, n))
  }

  lemma LineStores(m: Market, u: Trade, env: Env, buyer: Address, id: string, amount: i128)
    requires Inv(m) && SnapshotLine(m, u, env, buyer, id, amount).Ok?
    ensures id in m.listings && 0 < amount <= m.listings[id].amountAvailable
    ensures SnapshotLine(m, u, env, buyer, id, amount).value.market ==
            u.market.(listings := u.market.listings[id := Reduce(m.listings[id], amount)],
                      sold := u.market.sold[id := Lookup(u.market.sold, id, 0) + amount])
  {
    LineOutcome(m, id, amount);
    SettleOutcome(m, id, amount);
    SoundIsKeyed(m);
    hide Inv, Deliver, CheckLine, SettleLine;
  }

  lemma NothingStored(m: Market, ids: seq<string>, amounts: seq<i128>)
    requires |ids| == |amounts|
    ensures StoredUpTo(m, m, ids, amounts, 0)
  {
  }

  lemma StoredStep(m: Market, u: Market, ids: seq<string>, amounts: seq<i128>, n: nat)
    requires n < |ids| == |amounts| && StoredUpTo(m, u, ids, amounts, n)
    requires ids[n] in m.listings && 0 < amounts[n] <= m.listings[ids[n]].amountAvailable
    ensures StoredUpTo(m, u.(listings := u.listings[ids[n] := Reduce(m.listings[ids[n]], amounts[n])],
                             sold := u.sold[ids[n] := Lookup(u.sold, ids[n], 0) + amounts[n]]), ids, amounts, n + 1)
  {
  }

  lemma {:induction false} SnapshotsStore(t: Trade, env: Env, buyer: Address, ids: seq<string>, amounts: seq<i128>, n: nat)
    requires n <= |ids| == |amounts| && Inv(t.market) && SnapshotUpTo(t, env, buyer, ids, amounts, n).Ok?
    ensures StoredUpTo(t.market, SnapshotUpTo(t, env, buyer, ids, amounts, n).value.market, ids, amounts, n)
  {
    hide Inv, SnapshotLine, StoredUpTo, Lookup;
    if n == 0 {
      NothingStored(t.market, ids, amounts);
    } else {
      SnapshotsStore(t, env, buyer, ids, amounts, n - 1);
      var u := SnapshotUpTo(t, env, buyer, ids, amounts, n - 1).value;
      LineStores(t.market, u, env, buyer, ids[n - 1], amounts[n - 1]);
      StoredStep(t.market, u.market, ids, amounts, n - 1);
    }
  }

  /** What an accepted bulk purchase leaves of listings, histories and owners, repeated ids included. */
  lemma BulkLeaves(t: Trade, env: Env, buyer: Address, ids: seq<string>, amounts: seq<i128>)
    requires Inv(t.market) && LedgerInvariant.BatchesSound(t.ledger) && BulkPurchase(t, env, buyer, ids, amounts).Ok?
    ensures |ids| == |amounts| && forall i :: 0 <= i < |ids| ==> ids[i] in t.market.listings
    ensures var u := BulkPurchase(t, env, buyer, ids, amounts).value;
            && StoredUpTo(t.market, u.market, ids, amounts, |ids|)
            && DeliveredUpTo(t, u.ledger, buyer, ids, |ids|)
  {
    hide Inv, LedgerInvariant.BatchesSound, ValidateUpTo, SettleUpTo, DeliverUpTo, StoredUpTo, DeliveredUpTo, DeliverableAt;
    BulkExactly(t, env, buyer, ids, amounts);
    assert forall i :: 0 <= i < |ids| ==> Buyable(t.market, ids[i], amounts[i]);
    BulkIsPhases(t, env, buyer, ids, amounts);
    SnapshotsExactly(t, env, buyer, ids, amounts, |ids|);
    SnapshotsStore(t, env, buyer, ids, amounts, |ids|);
  }

  // ---- Refused bulk purchases ----

  /** Line `i` is the first that fails its guards. */
  predicate FirstRefused(m: Market, ids: seq<string>, amounts: seq<i128>, i: nat)
    requires i < |ids| == |amounts|
  {
    CheckLine(m, ids[i], amounts[i]).Err? && forall k :: 0 <= k < i ==> CheckLine(m, ids[k], amounts[k]).Ok?
  }

  lemma {:induction false} ValidateOutcome(m: Market, ids: seq<string>, amounts: seq<i128>, n: nat)
    requires n <= |ids| == |amounts|
    ensures var r := ValidateUpTo(m, ids, amounts, n);
            && (forall i :: 0 <= i < n && FirstRefused(m, ids, amounts, i) ==>
                  r == Err(CheckLine(m, ids[i], amounts[i]).error))
            && (r.Ok? <==> forall k :: 0 <= k < n ==> CheckLine(m, ids[k], amounts[k]).Ok?)
            && (r.Ok? ==> forall k :: 0 <= k < n ==> r.value[k] == CheckLine(m, ids[k], amounts[k]).value)
  {
    hide CheckLine;
    if n > 0 {
      ValidateOutcome(m, ids, amounts, n - 1);
    }
  }

  lemma {:induction false} SettleAllOutcome(m: Market, snapshots: seq<MarketListing>, amounts: seq<i128>, n: nat)
    requires n <= |snapshots| && n <= |amounts|
    requires forall k :: 0 <= k < n ==> !SettleLine(snapshots[k], amounts[k]).Trap?
    requires forall k :: 0 <= k < n && SettleLine(snapshots[k], amounts[k]).Err? ==>
               SettleLine(snapshots[k], amounts[k]).error == Arithmetic
    ensures var r := SettleUpTo(m, snapshots, amounts, n);
            if forall k :: 0 <= k < n ==> SettleLine(snapshots[k], amounts[k]).Ok? then r.Ok? else r == Err(Arithmetic)
  {
    hide SettleLine, StoreLine;
    if n > 0 {
      SettleAllOutcome(m, snapshots, amounts, n - 1);
    }
  }

  lemma {:induction false} DeliverTraps(ledger: CreditLedger.Ledger, env: Env, buyer: Address,
                                        settled: seq<MarketListing>, amounts: seq<i128>, n: nat)
    requires n <= |settled| && n <= |amounts|
    ensures !DeliverUpTo(ledger, env, buyer, settled, amounts, n).Err?
  {
    hide CreditLedger.Transfer;
    if n > 0 {
      DeliverTraps(ledger, env, buyer, settled, amounts, n - 1);
    }
  }

  /** A bulk purchase is answered by the first line its guards refuse, then by any price that leaves i128. */
  lemma BulkOutcome(t: Trade, env: Env, buyer: Address, ids: seq<string>, amounts: seq<i128>)
    requires Inv(t.market)
    ensures var r := BulkPurchase(t, env, buyer, ids, amounts);
            if buyer !in env.auth then r == Trap
            else if |ids| != |amounts| || |ids| > 10 then r == Err(InvalidSerialRange)
            else
              && (forall i :: 0 <= i < |ids| && FirstRefused(t.market, ids, amounts, i) ==>
                    r == Err(CheckLine(t.market, ids[i], amounts[i]).error))
              && ((forall i :: 0 <= i < |ids| ==> CheckLine(t.market, ids[i], amounts[i]).Ok?) ==>
                    if forall i :: 0 <= i < |ids| ==> PriceFits(t.market, ids[i], amounts[i])
                    then r.Ok? || r == Trap else r == Err(Arithmetic))
  {
    if buyer in env.auth && |ids| == |amounts| <= 10 {
      ValidateOutcome(t.market, ids, amounts, |ids|);
      var snapshots := ValidateUpTo(t.market, ids, amounts, |ids|);
      if snapshots.Ok? {
        forall i | 0 <= i < |ids|
          ensures ids[i] in t.market.listings && snapshots.value[i] == t.market.listings[ids[i]]
          ensures SettleLine(snapshots.value[i], amounts[i]).Ok? || SettleLine(snapshots.value[i], amounts[i]) == Err(Arithmetic)
          ensures SettleLine(snapshots.value[i], amounts[i]).Ok? <==> PriceFits(t.market, ids[i], amounts[i])
        {
          LineOutcome(t.market, ids[i], amounts[i]);
          SettleOutcome(t.market, ids[i], amounts[i]);
        }
        SettleAllOutcome(t.market, snapshots.value, amounts, |ids|);
        var settled := SettleUpTo(t.market, snapshots.value, amounts, |ids|);
        if settled.Ok? {
          DeliverTraps(t.ledger, env, buyer, settled.value.1, amounts, |ids|);
        }
      }
    }
  }
}
