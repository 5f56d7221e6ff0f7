/**
  What every listing keeps, what one purchase does, and what it costs.
 */
module MarketInvariant {
  import opened Platform
  import opened UsdcToken
  import opened Marketplace
  import CreditLedger
  import LedgerInvariant

  function StatusFor(left: int, listed: int): ListingStatus {
    if left == 0 then Sold else if left == listed then Active else PartiallyFilled
  }

  /** Listed = available + sold since, and the status says which of the two parts is empty, unless delisted. */
  predicate ListingSound(m: Market, id: string)
    requires id in m.listings
  {
    var l := m.listings[id];
    && l.listingId == id
    && l.pricePerCredit > 0
    && id in m.listed && id in m.sold
    && 0 < m.listed[id] && 0 <= m.sold[id] && 0 <= l.amountAvailable
    && m.listed[id] == l.amountAvailable + m.sold[id]
    && (l.status != Delisted ==> l.status == StatusFor(l.amountAvailable, m.listed[id]))
  }

  ghost predicate Inv(m: Market) {
    && (forall id :: id in m.listings ==> ListingSound(m, id))
    && (forall i :: 0 <= i < |m.allListings| ==> m.allListings[i] in m.listings)
    && (m.admin.Some? <==> m.treasury.Some?)
  }

  lemma EmptyMarketSound()
    ensures Inv(EMPTY_MARKET)
  {
  }

  /** Calls that change the administrative entries only, the index cleared or kept. */
  lemma AdministrationSound(m: Market, t: Market)
    requires Inv(m)
    requires t.listings == m.listings && t.listed == m.listed && t.sold == m.sold
    requires t.allListings == m.allListings || t.allListings == []
    requires t.admin.Some? <==> t.treasury.Some?
    ensures Inv(t)
  {
    forall id | id in t.listings ensures ListingSound(t, id) {
      assert ListingSound(m, id);
    }
  }

  lemma ListSound(m: Market, env: Env, a: ListArgs)
    requires Inv(m) && List(m, env, a).Ok?
    ensures Inv(List(m, env, a).value)
  {
    var t := List(m, env, a).value;
    forall id | id in t.listings ensures ListingSound(t, id) {
      if id != a.listingId {
        assert ListingSound(m, id);
      }
    }
  }

  /** A listing is accepted exactly under these conditions, starts full and active, and touches no other listing. */
  lemma ListExact(m: Market, env: Env, a: ListArgs)
    ensures List(m, env, a).Ok? <==>
            && a.seller in env.auth && a.amount > 0 && a.price > 0
            && VintageGate(a.vintageYear, ApproximateYear(env.now)).Ok?
            && a.projectId !in m.suspended
    ensures List(m, env, a).Ok? ==>
              var t := List(m, env, a).value;
              && t.listings.Keys == m.listings.Keys + {a.listingId}
              && (forall k :: k in m.listings && k != a.listingId ==> t.listings[k] == m.listings[k])
              && t.listings[a.listingId] ==
                 MarketListing(a.listingId, a.seller, a.batchId, a.projectId, a.amount, a.price, a.vintageYear,
                               a.methodology, a.country, env.now, Active)
              && t.listed[a.listingId] == a.amount && t.sold[a.listingId] == 0
              && t.suspended == m.suspended
  {
  }

  lemma DelistSound(m: Market, env: Env, seller: Address, id: string)
    requires Inv(m) && Delist(m, env, seller, id).Ok?
    ensures Inv(Delist(m, env, seller, id).value)
  {
    var t := Delist(m, env, seller, id).value;
    forall k | k in t.listings ensures ListingSound(t, k) {
      assert ListingSound(m, k);
    }
  }

  /** What is left of a line's guards on sound listings. */
  predicate Buyable(m: Market, id: string, amount: int) {
    && id in m.listings
    && m.listings[id].status != Delisted
    && m.listings[id].projectId !in m.suspended
    && 0 < amount <= m.listings[id].amountAvailable
    && m.listings[id].pricePerCredit * amount <= I128_MAX
  }

  lemma MulPositive(x: int, y: int)
    requires x > 0 && y > 0
    ensures x * y > 0
  {
  }

  /** A line passes its guards and its arithmetic exactly when it is buyable. */
  lemma LineExact(m: Market, id: string, amount: i128)
    requires Inv(m)
    ensures Buyable(m, id, amount) <==>
            CheckLine(m, id, amount).Ok? && SettleLine(CheckLine(m, id, amount).value, amount).Ok?
    ensures Buyable(m, id, amount) ==> CheckLine(m, id, amount).value == m.listings[id]
  {
    if id in m.listings {
      assert ListingSound(m, id);
      if amount > 0 {
        MulPositive(m.listings[id].pricePerCredit, amount);
      }
    }
  }

  /** A settled line moves `amount` from available to sold and touches no other listing. */
  lemma StoreSound(m: Market, id: string, amount: i128)
    requires Inv(m) && Buyable(m, id, amount)
    ensures SettleLine(m.listings[id], amount).Ok?
    ensures var t := StoreLine(m, SettleLine(m.listings[id], amount).value, amount);
            && Inv(t)
            && t.listings.Keys == m.listings.Keys
            && t.listings[id].amountAvailable == m.listings[id].amountAvailable - amount
            && t.sold[id] == m.sold[id] + amount && t.listed == m.listed
            && (t.listings[id].status == Sold <==> amount == m.listings[id].amountAvailable)
            && forall k :: k in m.listings && k != id ==> t.listings[k] == m.listings[k]
  {
    LineExact(m, id, amount);
    assert ListingSound(m, id);
    var t := StoreLine(m, SettleLine(m.listings[id], amount).value, amount);
    forall k | k in t.listings ensures ListingSound(t, k) {
      assert ListingSound(m, k);
    }
  }

  // ---- Money ----

  /** The fee is one percent of the cost, rounded down. */
  lemma FeeBounds(cost: int)
    requires cost >= 0
    ensures 0 <= Fee(cost) <= cost
    ensures 100 * Fee(cost) <= cost <= 100 * Fee(cost) + 99
  {
  }

  /** Each account's change in one paid line, also when buyer, seller and treasury coincide. */
  lemma PayLineExact(b: Balances, env: Env, buyer: Address, seller: Address, treasury: Address, cost: i128)
    requires PayLine(b, env, buyer, seller, treasury, cost).Ok?
    ensures var c := PayLine(b, env, buyer, seller, treasury, cost).value;
            && Supply(c) == Supply(b)
            && forall a :: BalanceOf(c, a) ==
                           BalanceOf(b, a) - (if a == buyer then cost else 0)
                           + (if a == seller then cost - Fee(cost) else 0) + (if a == treasury then Fee(cost) else 0)
  {
    var proceeds := CheckedI128(cost - Fee(cost)).value;
    var paid := Pay(b, env, buyer, seller, proceeds).value;
    PayConserves(b, env, buyer, seller, proceeds);
    PayConserves(paid, env, buyer, treasury, Fee(cost));
  }

  /** The buyer can cover the line, and neither receiver's balance leaves the range of i128. */
  predicate Affordable(b: Balances, env: Env, buyer: Address, seller: Address, treasury: Address, cost: int) {
    && buyer in env.auth
    && BalanceOf(b, buyer) >= (if buyer == seller then cost - Fee(cost) else cost)
    && (seller != buyer ==>
          BalanceOf(b, seller) + (if seller == treasury then cost else cost - Fee(cost)) <= I128_MAX)
    && (treasury != buyer && treasury != seller ==> BalanceOf(b, treasury) + Fee(cost) <= I128_MAX)
  }

  /** When one transfer goes through. */
  lemma PayExact(b: Balances, env: Env, from: Address, to: Address, amount: i128)
    requires amount >= 0
    ensures Pay(b, env, from, to, amount).Ok? <==>
            && from in env.auth && BalanceOf(b, from) >= amount
            && (from != to ==> BalanceOf(b, to) + amount <= I128_MAX)
  {
    var left := BalanceOf(b, from) - amount;
    if FitsI128(left) {
      var debited := b[from := left];
      assert BalanceOf(debited, to) == if from == to then left else BalanceOf(b, to);
    }
  }

  /** Both payments of a line go through exactly when the line is affordable. */
  lemma PayLineSucceedsExactly(b: Balances, env: Env, buyer: Address, seller: Address, treasury: Address, cost: i128)
    requires cost > 0
    ensures PayLine(b, env, buyer, seller, treasury, cost).Ok? <==> Affordable(b, env, buyer, seller, treasury, cost)
  {
    FeeBounds(cost);
    var fee := Fee(cost);
    var proceeds: i128 := cost - fee;
    PayExact(b, env, buyer, seller, proceeds);
    if Pay(b, env, buyer, seller, proceeds).Ok? {
      var paid := Pay(b, env, buyer, seller, proceeds).value;
      PayConserves(b, env, buyer, seller, proceeds);
      PayExact(paid, env, buyer, treasury, fee);
      hide Pay, BalanceOf, Fee;
      assert BalanceOf(paid, treasury) ==
             BalanceOf(b, treasury) - (if treasury == buyer then proceeds else 0) + (if treasury == seller then proceeds else 0);
      assert BalanceOf(paid, buyer) ==
             BalanceOf(b, buyer) - proceeds + (if buyer == seller then proceeds else 0);
    }
  }

  // ---- One purchase ----

  /** The delivery's guards, read on a sound ledger. */
  predicate Deliverable(ledger: CreditLedger.Ledger, env: Env, l: MarketListing, amount: int) {
    && l.seller in env.auth
    && l.batchId in ledger.batches
    && ledger.batches[l.batchId].owner == l.seller
    && 0 < amount <= ledger.batches[l.batchId].amount - CreditLedger.Retired(ledger, l.batchId)
  }

  lemma DeliverExact(ledger: CreditLedger.Ledger, env: Env, buyer: Address, l: MarketListing, amount: i128)
    requires LedgerInvariant.BatchesSound(ledger)
    ensures Deliver(ledger, env, buyer, l, amount).Ok? <==> Deliverable(ledger, env, l, amount)
    ensures Deliver(ledger, env, buyer, l, amount).Ok? ==>
              Deliver(ledger, env, buyer, l, amount).value == CreditLedger.Moved(ledger, l.batchId, buyer)
  {
    LedgerInvariant.TransferExact(ledger, env, CreditLedger.TransferArgs(l.seller, buyer, l.batchId, amount));
  }

  /** A purchase succeeds exactly when its line is buyable, affordable and deliverable. */
  lemma PurchaseExact(w: World, env: Env, buyer: Address, id: string, amount: i128)
    requires Inv(w.market) && LedgerInvariant.BatchesSound(w.ledger)
    ensures Purchase(w, env, buyer, id, amount).Ok? <==>
            && w.market.admin.Some?
            && Buyable(w.market, id, amount)
            && Affordable(w.usdc, env, buyer, w.market.listings[id].seller, w.market.treasury.value,
                          w.market.listings[id].pricePerCredit * amount)
            && Deliverable(w.ledger, env, w.market.listings[id], amount)
  {
    LineExact(w.market, id, amount);
    if Buyable(w.market, id, amount) && w.market.admin.Some? {
      var l := w.market.listings[id];
      var settled := SettleLine(l, amount).value;
      assert ListingSound(w.market, id);
      MulPositive(l.pricePerCredit, amount);
      PayLineSucceedsExactly(w.usdc, env, buyer, l.seller, w.market.treasury.value, l.pricePerCredit * amount);
      DeliverExact(w.ledger, env, buyer, settled, amount);
      hide PayLine, Affordable, Deliver, LedgerInvariant.BatchesSound;
    }
  }

  /** What a successful purchase does to listing, batch and money, all at once. */
  lemma PurchaseEffect(w: World, env: Env, buyer: Address, id: string, amount: i128)
    requires Inv(w.market) && LedgerInvariant.BatchesSound(w.ledger)
    requires Purchase(w, env, buyer, id, amount).Ok?
    ensures Buyable(w.market, id, amount)
    ensures var l := w.market.listings[id];
            var cost := l.pricePerCredit * amount;
            var v := Purchase(w, env, buyer, id, amount).value;
            && l.batchId in w.ledger.batches
            && v.ledger == CreditLedger.Moved(w.ledger, l.batchId, buyer)
            && SettleLine(l, amount).Ok? && v.market == StoreLine(w.market, SettleLine(l, amount).value, amount)
            && Inv(v.market)
            && 0 < cost <= I128_MAX
            && Supply(v.usdc) == Supply(w.usdc)
            && forall a :: BalanceOf(v.usdc, a) ==
                           BalanceOf(w.usdc, a) - (if a == buyer then cost else 0)
                           + (if a == l.seller then cost - Fee(cost) else 0)
                           + (if a == w.market.treasury.value then Fee(cost) else 0)
  {
    PurchaseExact(w, env, buyer, id, amount);
    var l := w.market.listings[id];
    LineExact(w.market, id, amount);
    assert ListingSound(w.market, id);
    MulPositive(l.pricePerCredit, amount);
    StoreSound(w.market, id, amount);
    DeliverExact(w.ledger, env, buyer, SettleLine(l, amount).value, amount);
    PayLineExact(w.usdc, env, buyer, l.seller, w.market.treasury.value, l.pricePerCredit * amount);
  }

  /**
    A purchase needs the seller to own the batch, and moves the whole batch.  So
    right after a purchase another line of that seller and batch can be bought only
    if the buyer was the seller; then its delivery is guarded as it was before.
   */
  lemma SecondFill(w: World, env: Env, buyer: Address, id: string, amount: i128,
                   env2: Env, buyer2: Address, id2: string, amount2: i128)
    requires Inv(w.market) && LedgerInvariant.BatchesSound(w.ledger)
    requires Purchase(w, env, buyer, id, amount).Ok?
    requires id2 in w.market.listings && id in w.market.listings
    requires w.market.listings[id2].batchId == w.market.listings[id].batchId
    requires w.market.listings[id2].seller == w.market.listings[id].seller
    ensures var v := Purchase(w, env, buyer, id, amount).value;
            var l := w.market.listings[id2];
            && (Purchase(v, env2, buyer2, id2, amount2).Ok? ==> buyer == l.seller)
            && (buyer == l.seller ==> (Deliverable(v.ledger, env2, l, amount2) <==> Deliverable(w.ledger, env2, l, amount2)))
  {
    hide *;
    var v := Purchase(w, env, buyer, id, amount).value;
    var l := w.market.listings[id2];
    AfterPurchase(w, env, buyer, id, amount, id2);
    OwnerDecides(w.ledger, v.ledger, env2, w.market.listings[id], l, buyer, amount2);
    if Purchase(v, env2, buyer2, id2, amount2).Ok? {
      PurchaseDeliverable(v, env2, buyer2, id2, amount2);
      DeliverableSame(v.ledger, env2, l, v.market.listings[id2], amount2);
    }
  }

  /** The part of a purchase that later purchases see: sound parts, the batch with the buyer, sellers and batches kept. */
  lemma AfterPurchase(w: World, env: Env, buyer: Address, id: string, amount: i128, other: string)
    requires Inv(w.market) && LedgerInvariant.BatchesSound(w.ledger)
    requires Purchase(w, env, buyer, id, amount).Ok? && id in w.market.listings && other in w.market.listings
    ensures var v := Purchase(w, env, buyer, id, amount).value;
            && Inv(v.market) && LedgerInvariant.BatchesSound(v.ledger)
            && w.market.listings[id].batchId in w.ledger.batches
            && w.ledger.batches[w.market.listings[id].batchId].owner == w.market.listings[id].seller
            && v.ledger == CreditLedger.Moved(w.ledger, w.market.listings[id].batchId, buyer)
            && other in v.market.listings
            && v.market.listings[other].seller == w.market.listings[other].seller
            && v.market.listings[other].batchId == w.market.listings[other].batchId
  {
    PurchaseEffect(w, env, buyer, id, amount);
    PurchaseDeliverable(w, env, buyer, id, amount);
    LedgerInvariant.MovedKeepsBatches(w.ledger, w.market.listings[id].batchId, buyer);
    hide Purchase, PayLine, Inv, LedgerInvariant.BatchesSound, Buyable;
  }

  lemma PurchaseDeliverable(w: World, env: Env, buyer: Address, id: string, amount: i128)
    requires Inv(w.market) && LedgerInvariant.BatchesSound(w.ledger)
    requires Purchase(w, env, buyer, id, amount).Ok?
    ensures id in w.market.listings && Deliverable(w.ledger, env, w.market.listings[id], amount)
  {
    PurchaseExact(w, env, buyer, id, amount);
    hide Purchase, PayLine, Inv, LedgerInvariant.BatchesSound, Deliverable;
  }

  lemma DeliverableSame(ledger: CreditLedger.Ledger, env: Env, l: MarketListing, k: MarketListing, amount: int)
    requires k.seller == l.seller && k.batchId == l.batchId
    ensures Deliverable(ledger, env, k, amount) <==> Deliverable(ledger, env, l, amount)
  {
  }

  lemma OwnerDecides(before: CreditLedger.Ledger, after: CreditLedger.Ledger, env: Env,
                     bought: MarketListing, l: MarketListing, buyer: Address, amount: int)
    requires bought.batchId in before.batches && after == CreditLedger.Moved(before, bought.batchId, buyer)
    requires before.batches[bought.batchId].owner == bought.seller
    requires l.batchId == bought.batchId && l.seller == bought.seller
    ensures Deliverable(after, env, l, amount) ==> buyer == l.seller
    ensures buyer == l.seller ==> (Deliverable(after, env, l, amount) <==> Deliverable(before, env, l, amount))
  {
  }
}
