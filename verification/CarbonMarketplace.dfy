/**
  The marketplace contract as an object over its storage, holding the USDC token
  and the credit contract it calls.  Where a call fails after the first write,
  the method puts back what the host would roll back.
 */
module CarbonMarketplaceContract {
  import opened Platform
  import opened Marketplace
  import CreditLedger
  import UsdcToken
  import CarbonCreditContract

  lemma {:induction false} DeliverKeepsRest(ledger: CreditLedger.Ledger, env: Env, buyer: Address,
                                            settled: seq<MarketListing>, amounts: seq<i128>, n: nat)
    requires n <= |settled| && n <= |amounts| && DeliverUpTo(ledger, env, buyer, settled, amounts, n).Ok?
    ensures var l := DeliverUpTo(ledger, env, buyer, settled, amounts, n).value;
            l == ledger.(batches := l.batches)
  {
    if n > 0 {
      DeliverKeepsRest(ledger, env, buyer, settled, amounts, n - 1);
    }
  }

  // A phase that fails on some lines fails on more of them, with the same failure.

  lemma {:induction false} ValidateFails(m: Market, ids: seq<string>, amounts: seq<i128>, i: nat, n: nat)
    requires i <= n <= |ids| == |amounts| && ValidateUpTo(m, ids, amounts, i).IsFailure()
    ensures ValidateUpTo(m, ids, amounts, n) == ValidateUpTo(m, ids, amounts, i)
  {
    if i < n {
      ValidateFails(m, ids, amounts, i, n - 1);
    }
  }

  lemma {:induction false} SettleFails(m: Market, snapshots: seq<MarketListing>, amounts: seq<i128>, i: nat, n: nat)
    requires i <= n <= |snapshots| == |amounts| && SettleUpTo(m, snapshots, amounts, i).IsFailure()
    ensures SettleUpTo(m, snapshots, amounts, n) == SettleUpTo(m, snapshots, amounts, i)
  {
    if i < n {
      SettleFails(m, snapshots, amounts, i, n - 1);
    }
  }

  lemma SettleNone(m: Market, snapshots: seq<MarketListing>, amounts: seq<i128>)
    ensures SettleUpTo(m, snapshots, amounts, 0) == Ok((m, []))
  {
  }

  /** One more line of the second phase. */
  lemma SettleNext(m: Market, snapshots: seq<MarketListing>, amounts: seq<i128>, i: nat)
    requires i < |snapshots| == |amounts| && SettleUpTo(m, snapshots, amounts, i).Ok?
    ensures var (stored, settled) := SettleUpTo(m, snapshots, amounts, i).value;
            var l := SettleLine(snapshots[i], amounts[i]);
            SettleUpTo(m, snapshots, amounts, i + 1) ==
            if l.Ok? then Ok((StoreLine(stored, l.value, amounts[i]), settled + [l.value]))
            else l.PropagateFailure<(Market, seq<MarketListing>)>()
  {
  }

  lemma {:induction false} DeliverFails(ledger: CreditLedger.Ledger, env: Env, buyer: Address,
                                        settled: seq<MarketListing>, amounts: seq<i128>, i: nat, n: nat)
    requires i <= n <= |settled| == |amounts| && DeliverUpTo(ledger, env, buyer, settled, amounts, i).IsFailure()
    ensures DeliverUpTo(ledger, env, buyer, settled, amounts, n) == DeliverUpTo(ledger, env, buyer, settled, amounts, i)
  {
    if i < n {
      DeliverFails(ledger, env, buyer, settled, amounts, i, n - 1);
    }
  }

  lemma {:induction false} FilteredSame(listings: map<string, MarketListing>, ids: seq<string>,
                                        keep: MarketListing -> bool, same: MarketListing -> bool)
    requires forall l :: keep(l) == same(l)
    ensures Filtered(listings, ids, keep) == Filtered(listings, ids, same)
  {
    if ids != [] {
      FilteredSame(listings, ids[..|ids| - 1], keep, same);
    }
  }

  class CarbonMarketplace {
    const credit: CarbonCreditContract.CarbonCredit
    const usdc: UsdcToken.Token

    var admin: Option<Address>
    var treasury: Option<Address>
    var listings: map<string, MarketListing>
    var allListings: seq<string>
    var suspended: set<string>
    ghost var listed: map<string, int>
    ghost var sold: map<string, int>

    ghost function State(): Market
      reads this
    {
      Market(admin, treasury, listings, allListings, suspended, listed, sold)
    }

    ghost function WorldState(): World
      reads this, credit, usdc
    {
      World(credit.State(), State(), usdc.balances)
    }

    ghost function TradeState(): Trade
      reads this, credit
    {
      Trade(State(), credit.State())
    }

    constructor (credit: CarbonCreditContract.CarbonCredit, usdc: UsdcToken.Token)
      ensures this.credit == credit && this.usdc == usdc && State() == EMPTY_MARKET
    {
      this.credit, this.usdc := credit, usdc;
      admin, treasury := None, None;
      listings, allListings, suspended := map[], [], {};
      listed, sold := map[], map[];
    }

    method Initialize(env: Env, caller: Address, account: Address) returns (r: Result<()>)
      modifies this
      ensures r == Marketplace.Initialize(old(State()), env, caller, account).Outcome()
      ensures State() == Commit(old(State()), Marketplace.Initialize(old(State()), env, caller, account))
    {
      if admin.Some? { return Err(AlreadyInitialized); }
      if caller !in env.auth { return Trap; }
      admin, treasury, allListings := Some(caller), Some(account), [];
      return Ok(());
    }

    method UpdateTreasury(env: Env, caller: Address, account: Address) returns (r: Result<()>)
      modifies this
      ensures r == Marketplace.UpdateTreasury(old(State()), env, caller, account).Outcome()
      ensures State() == Commit(old(State()), Marketplace.UpdateTreasury(old(State()), env, caller, account))
    {
      if caller !in env.auth || admin.None? { return Trap; }
      if admin.value != caller { return Err(UnauthorizedVerifier); }
      treasury := Some(account);
      return Ok(());
    }

    method SuspendProject(env: Env, caller: Address, project: string) returns (r: Result<()>)
      modifies this
      ensures r == Marketplace.SuspendProject(old(State()), env, caller, project).Outcome()
      ensures State() == Commit(old(State()), Marketplace.SuspendProject(old(State()), env, caller, project))
    {
      if caller !in env.auth || admin.None? { return Trap; }
      if admin.value != caller { return Err(UnauthorizedVerifier); }
      suspended := suspended + {project};
      return Ok(());
    }

    method ListCredits(env: Env, a: ListArgs) returns (r: Result<()>)
      modifies this
      ensures r == List(old(State()), env, a).Outcome()
      ensures State() == Commit(old(State()), List(old(State()), env, a))
    {
      if a.seller !in env.auth { return Trap; }
      if a.amount <= 0 || a.price <= 0 { return Err(ZeroAmountNotAllowed); }
      var vintage := VintageGate(a.vintageYear, ApproximateYear(env.now));
      if vintage.IsFailure() { return vintage; }
      if a.projectId in suspended { return Err(ProjectSuspended); }
      listings := listings[a.listingId := MarketListing(a.listingId, a.seller, a.batchId, a.projectId, a.amount, a.price,
                                                        a.vintageYear, a.methodology, a.country, env.now, Active)];
      allListings := allListings + [a.listingId];
      listed, sold := listed[a.listingId := a.amount], sold[a.listingId := 0];
      return Ok(());
    }

    method DelistCredits(env: Env, seller: Address, id: string) returns (r: Result<()>)
      modifies this
      ensures r == Delist(old(State()), env, seller, id).Outcome()
      ensures State() == Commit(old(State()), Delist(old(State()), env, seller, id))
    {
      if seller !in env.auth { return Trap; }
      if id !in listings { return Err(ListingNotFound); }
      if listings[id].seller != seller { return Err(UnauthorizedVerifier); }
      listings := listings[id := listings[id].(status := Delisted)];
      return Ok(());
    }

    /** Loads a listing and runs the guards of one purchase line. */
    method LoadForPurchase(id: string, amount: i128) returns (r: Result<MarketListing>)
      ensures r == CheckLine(State(), id, amount)
    {
      if amount <= 0 { return Err(ZeroAmountNotAllowed); }
      if id !in listings { return Err(ListingNotFound); }
      var listing := listings[id];
      if listing.status == Delisted || listing.status == Sold { return Err(ListingNotFound); }
      if listing.projectId in suspended { return Err(ProjectSuspended); }
      if amount > listing.amountAvailable { return Err(InsufficientLiquidity); }
      return Ok(listing);
    }

    /** Writes a settled listing back under its own id. */
    method Store(l: MarketListing, amount: i128)
      modifies this
      ensures State() == StoreLine(old(State()), l, amount)
    {
      listings := listings[l.listingId := l];
      sold := sold[l.listingId := Lookup(sold, l.listingId, 0) + amount];
    }

    /** Both token transfers; on failure the token is as before the first. */
    method Collect(env: Env, buyer: Address, seller: Address, account: Address, cost: i128) returns (r: Result<()>)
      modifies usdc
      ensures r == PayLine(old(usdc.balances), env, buyer, seller, account, cost).Outcome()
      ensures usdc.balances == Commit(old(usdc.balances), PayLine(old(usdc.balances), env, buyer, seller, account, cost))
    {
      var fee: i128 := Fee(cost);
      if !FitsI128(cost - fee) { return Err(Arithmetic); }
      var saved := usdc.balances;
      r := usdc.Transfer(env, buyer, seller, cost - fee);
      if r.IsFailure() { return; }
      r := usdc.Transfer(env, buyer, account, fee);
      if r.IsFailure() { usdc.balances := saved; }
    }

    method PurchaseCredits(env: Env, buyer: Address, id: string, amount: i128) returns (r: Result<()>)
      modifies this, credit, usdc
      ensures r == Purchase(old(WorldState()), env, buyer, id, amount).Outcome()
      ensures WorldState() == Commit(old(WorldState()), Purchase(old(WorldState()), env, buyer, id, amount))
    {
      if buyer !in env.auth { return Trap; }
      var loaded := LoadForPurchase(id, amount);
      if loaded.IsFailure() { return loaded.PropagateFailure(); }
      var settled := SettleLine(loaded.value, amount);
      if settled.IsFailure() { return settled.PropagateFailure(); }
      var savedListings, savedBalances := listings, usdc.balances;
      ghost var savedSold := sold;
      var listing := settled.value;
      Store(listing, amount);
      if admin.None? || treasury.None? {
        listings, sold := savedListings, savedSold;
        return Trap;
      }
      var paid := Collect(env, buyer, listing.seller, treasury.value, listing.pricePerCredit * amount);
      if paid.IsFailure() {
        listings, sold := savedListings, savedSold;
        return paid;
      }
      var moved := credit.TransferCredits(env, CreditLedger.TransferArgs(listing.seller, buyer, listing.batchId, amount));
      if moved.IsFailure() {
        listings, sold := savedListings, savedSold;
        usdc.balances := savedBalances;
        return Trap;
      }
      return Ok(());
    }

    /** Phase 1: every line is checked against the storage as it is before any update. */
    method ValidateAll(ids: seq<string>, amounts: seq<i128>) returns (r: Result<seq<MarketListing>>)
      requires |ids| == |amounts|
      ensures r == ValidateUpTo(State(), ids, amounts, |ids|)
    {
      var validated: seq<MarketListing> := [];
      for i := 0 to |ids|
        invariant ValidateUpTo(State(), ids, amounts, i) == Ok(validated)
      {
        var listing := LoadForPurchase(ids[i], amounts[i]);
        if listing.IsFailure() {
          ValidateFails(State(), ids, amounts, i + 1, |ids|);
          return listing.PropagateFailure();
        }
        validated := validated + [listing.value];
      }
      return Ok(validated);
    }

    /** Phase 2: every snapshot is settled and written back; a failure leaves the writes made so far. */
    method SettleAll(snapshots: seq<MarketListing>, amounts: seq<i128>) returns (r: Result<seq<MarketListing>>)
      requires |snapshots| == |amounts|
      modifies this
      ensures var spec := SettleUpTo(old(State()), snapshots, amounts, |snapshots|);
              if spec.Ok? then r == Ok(spec.value.1) && State() == spec.value.0
              else r == spec.PropagateFailure<seq<MarketListing>>()
      ensures State() == old(State()).(listings := listings, sold := sold)
    {
      var validated := snapshots;
      ghost var done: seq<MarketListing> := [];
      hide SettleUpTo, SettleLine;
      SettleNone(State(), snapshots, amounts);
      for i := 0 to |snapshots|
        invariant |validated| == |snapshots| && validated == done + snapshots[i..]
        invariant SettleUpTo(old(State()), snapshots, amounts, i) == Ok((State(), done))
        invariant State() == old(State()).(listings := listings, sold := sold)
      {
        var settled := SettleLine(validated[i], amounts[i]);
        SettleNext(old(State()), snapshots, amounts, i);
        if settled.IsFailure() {
          SettleFails(old(State()), snapshots, amounts, i + 1, |snapshots|);
          return settled.PropagateFailure();
        }
        Store(settled.value, amounts[i]);
        validated := validated[i := settled.value];
        done := done + [settled.value];
      }
      assert validated == done;
      return Ok(validated);
    }

    /** Phase 3 without its payments: the batches change hands in order. */
    method DeliverAll(env: Env, buyer: Address, settled: seq<MarketListing>, amounts: seq<i128>) returns (r: Result<()>)
      requires |settled| == |amounts|
      modifies credit
      ensures r == DeliverUpTo(old(credit.State()), env, buyer, settled, amounts, |settled|).Outcome()
      ensures credit.State() ==
              Commit(old(credit.State()), DeliverUpTo(old(credit.State()), env, buyer, settled, amounts, |settled|))
    {
      hide CreditLedger.Transfer;
      var saved := credit.batches;
      for i := 0 to |settled|
        invariant DeliverUpTo(old(credit.State()), env, buyer, settled, amounts, i) == Ok(credit.State())
      {
        DeliverKeepsRest(old(credit.State()), env, buyer, settled, amounts, i);
        var moved := credit.TransferCredits(
          env, CreditLedger.TransferArgs(settled[i].seller, buyer, settled[i].batchId, amounts[i]));
        if moved.IsFailure() {
          credit.batches := saved;
          DeliverFails(old(credit.State()), env, buyer, settled, amounts, i + 1, |settled|);
          return Trap;
        }
      }
      return Ok(());
    }

    method BulkPurchaseCredits(env: Env, buyer: Address, ids: seq<string>, amounts: seq<i128>) returns (r: Result<()>)
      modifies this, credit
      ensures r == BulkPurchase(old(TradeState()), env, buyer, ids, amounts).Outcome()
      ensures TradeState() == Commit(old(TradeState()), BulkPurchase(old(TradeState()), env, buyer, ids, amounts))
    {
      if buyer !in env.auth { return Trap; }
      if |ids| != |amounts| || |ids| > MAX_BATCH_SIZE { return Err(InvalidSerialRange); }
      var snapshots := ValidateAll(ids, amounts);
      if snapshots.IsFailure() { return snapshots.PropagateFailure(); }
      var savedListings := listings;
      ghost var savedSold := sold;
      var settled := SettleAll(snapshots.value, amounts);
      if settled.IsFailure() {
        listings, sold := savedListings, savedSold;
        return settled.PropagateFailure();
      }
      if admin.None? {
        listings, sold := savedListings, savedSold;
        return Trap;
      }
      r := DeliverAll(env, buyer, settled.value, amounts);
      if r.IsFailure() { listings, sold := savedListings, savedSold; }
    }

    method FilterListings(keep: MarketListing -> bool) returns (result: seq<MarketListing>)
      ensures result == Filtered(listings, allListings, keep)
    {
      result := [];
      for i := 0 to |allListings|
        invariant result == Filtered(listings, allListings[..i], keep)
      {
        assert allListings[..i + 1][..i] == allListings[..i];
        if allListings[i] in listings && keep(listings[allListings[i]]) {
          result := result + [listings[allListings[i]]];
        }
      }
      assert allListings[..|allListings|] == allListings;
    }

    method GetActiveListings() returns (result: seq<MarketListing>)
      ensures result == Filtered(listings, allListings, IsActive)
    {
      var keep := (l: MarketListing) => l.status == Active || l.status == PartiallyFilled;
      result := FilterListings(keep);
      FilteredSame(listings, allListings, keep, IsActive);
    }
  }
}
