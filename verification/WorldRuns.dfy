/**
  Runs of the credit ledger, the marketplace and the token together.
 */
module WorldRuns {
  import opened Platform
  import opened UsdcToken
  import opened Marketplace
  import CreditLedger
  import LedgerInvariant
  import LedgerTheorems
  import SerialNumbers
  import MarketInvariant
  import BulkEquivalence

  /** `payments` of a bulk call is the token state its unmodelled payments leave, None if they fail. */
  datatype Call =
    | CreditCall(c: LedgerInvariant.Call)
    | InitializeCall(admin: Address, treasury: Address)
    | TreasuryCall(caller: Address, treasury: Address)
    | SuspendCall(caller: Address, project: string)
    | ListCall(a: ListArgs)
    | DelistCall(seller: Address, id: string)
    | PurchaseCall(buyer: Address, id: string, amount: i128)
    | BulkCall(buyer: Address, ids: seq<string>, amounts: seq<i128>, payments: Option<Balances>)

  function WithMarket(w: World, r: Result<Market>): World {
    w.(market := Commit(w.market, r))
  }

  function Step(w: World, env: Env, call: Call): World {
    match call
    case CreditCall(c) => w.(ledger := LedgerInvariant.Step(w.ledger, env, c))
    case InitializeCall(admin, treasury) => WithMarket(w, Initialize(w.market, env, admin, treasury))
    case TreasuryCall(caller, treasury) => WithMarket(w, UpdateTreasury(w.market, env, caller, treasury))
    case SuspendCall(caller, project) => WithMarket(w, SuspendProject(w.market, env, caller, project))
    case ListCall(a) => WithMarket(w, List(w.market, env, a))
    case DelistCall(seller, id) => WithMarket(w, Delist(w.market, env, seller, id))
    case PurchaseCall(buyer, id, amount) => Commit(w, Purchase(w, env, buyer, id, amount))
    case BulkCall(buyer, ids, amounts, payments) =>
      var r := BulkPurchase(Trade(w.market, w.ledger), env, buyer, ids, amounts);
      if r.Ok? && payments.Some? then World(r.value.ledger, r.value.market, payments.value) else w
  }

  /** A run from empty contracts and some token balances. */
  function Run(initial: Balances, calls: seq<(Env, Call)>): World {
    if calls == [] then World(CreditLedger.EMPTY_LEDGER, EMPTY_MARKET, initial)
    else
      var (env, call) := calls[|calls| - 1];
      Step(Run(initial, calls[..|calls| - 1]), env, call)
  }

  // ---- The ledger's part of a step ----

  /** The ledgers that differ from `s` only in batch owners. */
  ghost predicate OwnersOnly(s: CreditLedger.Ledger, t: CreditLedger.Ledger) {
    && t == s.(batches := t.batches)
    && t.batches.Keys == s.batches.Keys
    && forall id :: id in s.batches ==> t.batches[id] == s.batches[id].(owner := t.batches[id].owner)
  }

  lemma {:induction false} DeliveriesSound(s: CreditLedger.Ledger, env: Env, buyer: Address,
                                           settled: seq<MarketListing>, amounts: seq<i128>, n: nat)
    requires n <= |settled| && n <= |amounts| && LedgerInvariant.Inv(s)
    requires DeliverUpTo(s, env, buyer, settled, amounts, n).Ok?
    ensures LedgerInvariant.Inv(DeliverUpTo(s, env, buyer, settled, amounts, n).value)
    ensures OwnersOnly(s, DeliverUpTo(s, env, buyer, settled, amounts, n).value)
  {
    hide LedgerInvariant.Inv, Deliver;
    if n > 0 {
      DeliveriesSound(s, env, buyer, settled, amounts, n - 1);
      DeliverySound(DeliverUpTo(s, env, buyer, settled, amounts, n - 1).value, env, buyer, settled[n - 1], amounts[n - 1]);
    }
  }

  lemma DeliverySound(s: CreditLedger.Ledger, env: Env, buyer: Address, l: MarketListing, amount: i128)
    requires LedgerInvariant.Inv(s) && Deliver(s, env, buyer, l, amount).Ok?
    ensures LedgerInvariant.Inv(Deliver(s, env, buyer, l, amount).value)
    ensures OwnersOnly(s, Deliver(s, env, buyer, l, amount).value)
  {
    hide LedgerInvariant.IndexMatches, LedgerInvariant.RegistryMatches, LedgerInvariant.CertificatesPlaced;
    MarketInvariant.DeliverExact(s, env, buyer, l, amount);
    LedgerInvariant.MovedSound(s, l.batchId, buyer);
  }

  lemma PurchaseOwners(w: World, env: Env, buyer: Address, id: string, amount: i128)
    requires LedgerInvariant.Inv(w.ledger) && Purchase(w, env, buyer, id, amount).Ok?
    ensures LedgerInvariant.Inv(Purchase(w, env, buyer, id, amount).value.ledger)
    ensures OwnersOnly(w.ledger, Purchase(w, env, buyer, id, amount).value.ledger)
  {
    hide LedgerInvariant.Inv, Deliver;
    var l := CheckLine(w.market, id, amount).value;
    DeliverySound(w.ledger, env, buyer, SettleLine(l, amount).value, amount);
  }

  lemma BulkOwners(t: Trade, env: Env, buyer: Address, ids: seq<string>, amounts: seq<i128>)
    requires LedgerInvariant.Inv(t.ledger) && BulkPurchase(t, env, buyer, ids, amounts).Ok?
    ensures LedgerInvariant.Inv(BulkPurchase(t, env, buyer, ids, amounts).value.ledger)
    ensures OwnersOnly(t.ledger, BulkPurchase(t, env, buyer, ids, amounts).value.ledger)
  {
    hide LedgerInvariant.Inv, Deliver;
    var snapshots := ValidateUpTo(t.market, ids, amounts, |ids|).value;
    var settled := SettleUpTo(t.market, snapshots, amounts, |ids|).value.1;
    DeliveriesSound(t.ledger, env, buyer, settled, amounts, |ids|);
  }

  lemma StepLedgerSound(w: World, env: Env, call: Call)
    requires LedgerInvariant.Inv(w.ledger)
    ensures LedgerInvariant.Inv(Step(w, env, call).ledger)
    ensures !call.CreditCall? ==> OwnersOnly(w.ledger, Step(w, env, call).ledger)
  {
    hide LedgerInvariant.Inv, LedgerInvariant.Step, Purchase, BulkPurchase;
    match call
    case CreditCall(c) => LedgerInvariant.StepSound(w.ledger, env, c);
    case PurchaseCall(buyer, id, amount) =>
      if Purchase(w, env, buyer, id, amount).Ok? { PurchaseOwners(w, env, buyer, id, amount); }
    case BulkCall(buyer, ids, amounts, payments) =>
      if BulkPurchase(Trade(w.market, w.ledger), env, buyer, ids, amounts).Ok? {
        BulkOwners(Trade(w.market, w.ledger), env, buyer, ids, amounts);
      }
    case _ =>
  }

  /** Every run of all contracts together, bulk purchases of any ids included, keeps the ledger sound. */
  lemma {:induction false} RunLedgerSound(initial: Balances, calls: seq<(Env, Call)>)
    ensures LedgerInvariant.Inv(Run(initial, calls).ledger)
  {
    hide LedgerInvariant.Inv, Step;
    if calls == [] {
      LedgerInvariant.EmptyLedgerSound();
    } else {
      var init := calls[..|calls| - 1];
      RunLedgerSound(initial, init);
      StepLedgerSound(Run(initial, init), calls[|calls| - 1].0, calls[|calls| - 1].1);
    }
  }

  predicate MintsFit(calls: seq<(Env, Call)>) {
    forall i :: 0 <= i < |calls| && calls[i].1.CreditCall? && calls[i].1.c.MintCall? ==>
      SerialNumbers.Fits(calls[i].1.c.m)
  }

  lemma OwnersKeepFit(s: CreditLedger.Ledger, t: CreditLedger.Ledger)
    requires SerialNumbers.BatchesFit(s) && OwnersOnly(s, t)
    ensures SerialNumbers.BatchesFit(t)
  {
    forall id | id in t.batches ensures SerialNumbers.BatchFits(t.batches[id]) {
      assert SerialNumbers.BatchFits(s.batches[id]);
    }
  }

  lemma {:induction false} RunFits(initial: Balances, calls: seq<(Env, Call)>)
    requires MintsFit(calls)
    ensures SerialNumbers.BatchesFit(Run(initial, calls).ledger)
  {
    hide LedgerInvariant.Inv, LedgerInvariant.Step, Purchase, BulkPurchase;
    if calls != [] {
      var init := calls[..|calls| - 1];
      assert MintsFit(init) by {
        forall i | 0 <= i < |init| && init[i].1.CreditCall? && init[i].1.c.MintCall?
          ensures SerialNumbers.Fits(init[i].1.c.m)
        {
          assert calls[i] == init[i];
        }
      }
      RunFits(initial, init);
      RunLedgerSound(initial, init);
      var w := Run(initial, init);
      var (env, call) := calls[|calls| - 1];
      if call.CreditCall? {
        SerialNumbers.StepKeepsFit(w.ledger, env, call.c);
      } else {
        StepLedgerSound(w, env, call);
        OwnersKeepFit(w.ledger, Step(w, env, call).ledger);
      }
    }
  }

  /** Trading never endangers serial uniqueness: it holds in every run of all contracts whose mints fit. */
  lemma RunSerialsUnique(initial: Balances, calls: seq<(Env, Call)>)
    requires MintsFit(calls)
    ensures SerialNumbers.SerialsUnique(Run(initial, calls).ledger.issued)
    ensures SerialNumbers.SerialsInOwnRange(Run(initial, calls).ledger)
  {
    hide LedgerInvariant.Inv, Run;
    RunLedgerSound(initial, calls);
    RunFits(initial, calls);
    SerialNumbers.FittingSerialsInRange(Run(initial, calls).ledger);
    SerialNumbers.InRangeSerialsUnique(Run(initial, calls).ledger);
  }

  /** No call of any contract loses a certificate, lowers a counter or moves a status back. */
  lemma StepLater(w: World, env: Env, call: Call)
    requires LedgerInvariant.Inv(w.ledger)
    ensures LedgerTheorems.Later(w.ledger, Step(w, env, call).ledger)
  {
    hide LedgerInvariant.Inv, LedgerInvariant.Step, Purchase, BulkPurchase;
    if call.CreditCall? {
      LedgerTheorems.StepLater(w.ledger, env, call.c);
    } else {
      StepLedgerSound(w, env, call);
    }
  }

  /** Over any run of all contracts the ledger only moves on: nothing undoes a retirement. */
  lemma {:induction false} RunLater(initial: Balances, calls: seq<(Env, Call)>, n: nat)
    requires n <= |calls|
    ensures LedgerTheorems.Later(Run(initial, calls[..n]).ledger, Run(initial, calls).ledger)
    decreases |calls|
  {
    hide LedgerInvariant.Inv, Step;
    if n == |calls| {
      assert calls[..n] == calls;
    } else {
      var init := calls[..|calls| - 1];
      RunLater(initial, init, n);
      assert init[..n] == calls[..n];
      RunLedgerSound(initial, init);
      StepLater(Run(initial, init), calls[|calls| - 1].0, calls[|calls| - 1].1);
    }
  }

  // ---- The listings' part of a step ----

  /** An accepted bulk purchase that repeats an id, necessarily of its buyer's own listing. */
  predicate Oversells(w: World, env: Env, call: Call) {
    && call.BulkCall? && call.payments.Some?
    && BulkPurchase(Trade(w.market, w.ledger), env, call.buyer, call.ids, call.amounts).Ok?
    && BulkEquivalence.SelfRepeat(w.market, call.buyer, call.ids)
  }

  lemma StepMarketExactly(w: World, env: Env, call: Call)
    requires LedgerInvariant.Inv(w.ledger) && MarketInvariant.Inv(w.market)
    ensures MarketInvariant.Inv(Step(w, env, call).market) <==> !Oversells(w, env, call)
  {
    hide LedgerInvariant.BatchesSound, LedgerInvariant.Step, BulkPurchase, Purchase, List, Delist, BulkEquivalence.SelfRepeat;
    match call
    case CreditCall(c) =>
    case InitializeCall(admin, treasury) => MarketInvariant.AdministrationSound(w.market, Step(w, env, call).market);
    case TreasuryCall(caller, treasury) => MarketInvariant.AdministrationSound(w.market, Step(w, env, call).market);
    case SuspendCall(caller, project) => MarketInvariant.AdministrationSound(w.market, Step(w, env, call).market);
    case ListCall(a) => if List(w.market, env, a).Ok? { MarketInvariant.ListSound(w.market, env, a); }
    case DelistCall(seller, id) =>
      if Delist(w.market, env, seller, id).Ok? { MarketInvariant.DelistSound(w.market, env, seller, id); }
    case PurchaseCall(buyer, id, amount) =>
      if Purchase(w, env, buyer, id, amount).Ok? { MarketInvariant.PurchaseEffect(w, env, buyer, id, amount); }
    case BulkCall(buyer, ids, amounts, payments) =>
      var t := Trade(w.market, w.ledger);
      if BulkPurchase(t, env, buyer, ids, amounts).Ok? {
        BulkEquivalence.BulkSoundExactly(t, env, buyer, ids, amounts);
        BulkEquivalence.RepeatIsSelfRepeat(t, env, buyer, ids, amounts);
      }
  }

  /** None of the first `n` calls oversells. */
  ghost predicate NoneOversells(initial: Balances, calls: seq<(Env, Call)>, n: nat)
    requires n <= |calls|
  {
    forall i :: 0 <= i < n ==> !Oversells(Run(initial, calls[..i]), calls[i].0, calls[i].1)
  }

  /** Every listing balances listed, available and sold after each of the first `n` calls. */
  ghost predicate BalancedThroughout(initial: Balances, calls: seq<(Env, Call)>, n: nat)
    requires n <= |calls|
  {
    forall i :: 0 <= i <= n ==> MarketInvariant.Inv(Run(initial, calls[..i]).market)
  }

  lemma PrefixStep(initial: Balances, calls: seq<(Env, Call)>, n: nat)
    requires n < |calls|
    ensures Run(initial, calls[..n + 1]) == Step(Run(initial, calls[..n]), calls[n].0, calls[n].1)
  {
    assert calls[..n + 1][..n] == calls[..n];
  }

  /**
    The listings balance throughout a run if and only if no accepted bulk purchase
    of the run repeats an id of its own buyer's listing.
   */
  lemma {:induction false} RunMarketExactly(initial: Balances, calls: seq<(Env, Call)>, n: nat)
    requires n <= |calls|
    ensures BalancedThroughout(initial, calls, n) <==> NoneOversells(initial, calls, n)
  {
    hide LedgerInvariant.Inv, MarketInvariant.Inv, Step, Oversells, Run;
    if n == 0 {
      EmptyRunSound(initial);
      assert calls[..0] == [];
    } else {
      RunMarketExactly(initial, calls, n - 1);
      if BalancedThroughout(initial, calls, n - 1) {
        RunLedgerSound(initial, calls[..n - 1]);
        PrefixStep(initial, calls, n - 1);
        StepMarketExactly(Run(initial, calls[..n - 1]), calls[n - 1].0, calls[n - 1].1);
      }
    }
  }

  lemma EmptyRunSound(initial: Balances)
    ensures MarketInvariant.Inv(Run(initial, []).market)
  {
    MarketInvariant.EmptyMarketSound();
  }

  /** No bulk purchase of the run names a listing of its own buyer twice. */
  ghost predicate NoSelfRepeats(initial: Balances, calls: seq<(Env, Call)>) {
    forall i :: 0 <= i < |calls| && calls[i].1.BulkCall? ==>
      !BulkEquivalence.SelfRepeat(Run(initial, calls[..i]).market, calls[i].1.buyer, calls[i].1.ids)
  }

  /** In such a run every listing balances listed, available and sold. */
  lemma RunMarketSound(initial: Balances, calls: seq<(Env, Call)>)
    requires NoSelfRepeats(initial, calls)
    ensures MarketInvariant.Inv(Run(initial, calls).market)
  {
    hide MarketInvariant.Inv, Run, BulkPurchase, BulkEquivalence.SelfRepeat;
    RunMarketExactly(initial, calls, |calls|);
    assert calls[..|calls|] == calls;
  }

  // ---- Money over a run ----

  predicate NoBulk(calls: seq<(Env, Call)>) {
    forall i :: 0 <= i < |calls| ==> !calls[i].1.BulkCall?
  }

  /** A completed single purchase: who paid whom, and what. */
  datatype Sale = Sale(buyer: Address, seller: Address, treasury: Address, cost: int)

  /** The completed single purchases of a run, in order. */
  function Sales(initial: Balances, calls: seq<(Env, Call)>): seq<Sale> {
    if calls == [] then []
    else
      var init := calls[..|calls| - 1];
      var (env, call) := calls[|calls| - 1];
      Sales(initial, init) + SaleOf(Run(initial, init), env, call)
  }

  function SaleOf(w: World, env: Env, call: Call): seq<Sale> {
    if call.PurchaseCall? && Purchase(w, env, call.buyer, call.id, call.amount).Ok? &&
       call.id in w.market.listings && w.market.treasury.Some?
    then
      var l := w.market.listings[call.id];
      [Sale(call.buyer, l.seller, w.market.treasury.value, l.pricePerCredit * call.amount)]
    else []
  }

  /** What a sale does to one account. */
  function NetOf(sale: Sale, who: Address): int {
    (if who == sale.seller then sale.cost - Fee(sale.cost) else 0)
    + (if who == sale.treasury then Fee(sale.cost) else 0)
    - (if who == sale.buyer then sale.cost else 0)
  }

  function Net(sales: seq<Sale>, who: Address): int {
    if sales == [] then 0 else Net(sales[..|sales| - 1], who) + NetOf(sales[|sales| - 1], who)
  }

  function CostSum(sales: seq<Sale>): int {
    if sales == [] then 0 else CostSum(sales[..|sales| - 1]) + sales[|sales| - 1].cost
  }

  function FeeSum(sales: seq<Sale>): int {
    if sales == [] then 0 else FeeSum(sales[..|sales| - 1]) + Fee(sales[|sales| - 1].cost)
  }

  predicate CostsInRange(sales: seq<Sale>) {
    forall i :: 0 <= i < |sales| ==> 0 < sales[i].cost <= I128_MAX
  }

  /** What one more sale, or none, adds. */
  lemma SumsSnoc(before: seq<Sale>, sale: seq<Sale>, who: Address)
    requires |sale| <= 1
    ensures Net(before + sale, who) == Net(before, who) + if sale == [] then 0 else NetOf(sale[0], who)
    ensures FeeSum(before + sale) == FeeSum(before) + if sale == [] then 0 else Fee(sale[0].cost)
  {
    if sale == [] {
      assert before + sale == before;
    } else {
      assert (before + sale)[..|before|] == before;
    }
  }

  lemma StepMoney(w: World, env: Env, call: Call, who: Address)
    requires LedgerInvariant.Inv(w.ledger) && MarketInvariant.Inv(w.market) && !call.BulkCall?
    ensures Supply(Step(w, env, call).usdc) == Supply(w.usdc)
    ensures CostsInRange(SaleOf(w, env, call))
    ensures SaleOf(w, env, call) == [] ==> Step(w, env, call).usdc == w.usdc
    ensures SaleOf(w, env, call) != [] ==>
              BalanceOf(Step(w, env, call).usdc, who) == BalanceOf(w.usdc, who) + NetOf(SaleOf(w, env, call)[0], who)
  {
    hide LedgerInvariant.BatchesSound, LedgerInvariant.Step, BulkPurchase, Purchase, Supply, BalanceOf;
    if call.PurchaseCall? && Purchase(w, env, call.buyer, call.id, call.amount).Ok? {
      MarketInvariant.PurchaseEffect(w, env, call.buyer, call.id, call.amount);
      MarketInvariant.PurchaseExact(w, env, call.buyer, call.id, call.amount);
    }
  }

  lemma {:induction false} RunBalance(initial: Balances, calls: seq<(Env, Call)>, who: Address)
    requires NoBulk(calls)
    ensures Supply(Run(initial, calls).usdc) == Supply(initial)
    ensures CostsInRange(Sales(initial, calls))
    ensures BalanceOf(Run(initial, calls).usdc, who) == BalanceOf(initial, who) + Net(Sales(initial, calls), who)
  {
    hide LedgerInvariant.Inv, MarketInvariant.Inv, Step, Purchase, Supply, BalanceOf, SaleOf, NetOf;
    if calls != [] {
      var init := calls[..|calls| - 1];
      var (env, call) := calls[|calls| - 1];
      RunBalance(initial, init, who);
      RunLedgerSound(initial, init);
      assert NoSelfRepeats(initial, init);
      RunMarketSound(initial, init);
      StepMoney(Run(initial, init), env, call, who);
      SaleAtMostOne(Run(initial, init), env, call);
      SumsSnoc(Sales(initial, init), SaleOf(Run(initial, init), env, call), who);
    }
  }

  lemma SaleAtMostOne(w: World, env: Env, call: Call)
    ensures |SaleOf(w, env, call)| <= 1
  {
  }

  lemma {:induction false} FeesBound(sales: seq<Sale>)
    requires CostsInRange(sales)
    ensures 100 * FeeSum(sales) <= CostSum(sales) <= 100 * FeeSum(sales) + 99 * |sales|
  {
    hide Fee;
    if sales != [] {
      var n := |sales| - 1;
      FeesBound(sales[..n]);
      MarketInvariant.FeeBounds(sales[n].cost);
    }
  }

  /**
    Over every run of single purchases: the USDC supply is constant, every cost is
    positive and in range, each account holds its initial balance plus what the
    completed sales net it, and the n fees F satisfy 100 F <= costs <= 100 F + 99 n.
   */
  lemma RunMoney(initial: Balances, calls: seq<(Env, Call)>)
    requires NoBulk(calls)
    ensures Supply(Run(initial, calls).usdc) == Supply(initial)
    ensures var sales := Sales(initial, calls);
            && CostsInRange(sales)
            && (forall who :: BalanceOf(Run(initial, calls).usdc, who) == BalanceOf(initial, who) + Net(sales, who))
            && 100 * FeeSum(sales) <= CostSum(sales) <= 100 * FeeSum(sales) + 99 * |sales|
  {
    hide Run, Supply, BalanceOf, Sales, Net;
    forall who
      ensures BalanceOf(Run(initial, calls).usdc, who) == BalanceOf(initial, who) + Net(Sales(initial, calls), who)
    {
      RunBalance(initial, calls, who);
    }
    RunBalance(initial, calls, "");
    FeesBound(Sales(initial, calls));
  }

  // ---- What the treasury earns ----

  /** The market pays fees to `who` only, and `who` sells nothing on it. */
  ghost predicate CollectsFor(m: Market, who: Address) {
    && (m.treasury.Some? ==> m.treasury.value == who)
    && forall id :: id in m.listings ==> m.listings[id].seller != who
  }

  /** The call names `who` as the treasury, if it names one, and neither as a seller nor as a buyer. */
  predicate OnlyCollects(call: Call, who: Address) {
    match call
    case InitializeCall(_, treasury) => treasury == who
    case TreasuryCall(_, treasury) => treasury == who
    case ListCall(a) => a.seller != who
    case PurchaseCall(buyer, _, _) => buyer != who
    case BulkCall(_, _, _, _) => false
    case _ => true
  }

  lemma StepCollects(w: World, env: Env, call: Call, who: Address)
    requires CollectsFor(w.market, who) && OnlyCollects(call, who)
    ensures CollectsFor(Step(w, env, call).market, who)
    ensures forall i :: 0 <= i < |SaleOf(w, env, call)| ==>
              NetOf(SaleOf(w, env, call)[i], who) == Fee(SaleOf(w, env, call)[i].cost)
  {
    hide LedgerInvariant.Step, PayLine, Deliver, VintageGate, Fee;
  }

  lemma {:induction false} RunCollects(initial: Balances, calls: seq<(Env, Call)>, who: Address)
    requires forall i :: 0 <= i < |calls| ==> OnlyCollects(calls[i].1, who)
    ensures CollectsFor(Run(initial, calls).market, who)
    ensures Net(Sales(initial, calls), who) == FeeSum(Sales(initial, calls))
  {
    hide Step, SaleOf, NetOf, Fee, OnlyCollects, CollectsFor, Net, FeeSum;
    if calls == [] {
      NothingSells(who);
    } else {
      assert OnlyCollects(calls[|calls| - 1].1, who);
      var init := calls[..|calls| - 1];
      var (env, call) := calls[|calls| - 1];
      RunCollects(initial, init, who);
      StepCollects(Run(initial, init), env, call, who);
      SaleAtMostOne(Run(initial, init), env, call);
      SumsSnoc(Sales(initial, init), SaleOf(Run(initial, init), env, call), who);
    }
  }

  lemma NothingSells(who: Address)
    ensures CollectsFor(EMPTY_MARKET, who) && Net([], who) == FeeSum([])
  {
  }

  /** A treasury that only collects holds, after any run of single purchases, its initial balance and all the fees. */
  lemma TreasuryIncome(initial: Balances, calls: seq<(Env, Call)>, treasury: Address)
    requires forall i :: 0 <= i < |calls| ==> OnlyCollects(calls[i].1, treasury)
    ensures BalanceOf(Run(initial, calls).usdc, treasury) ==
            BalanceOf(initial, treasury) + FeeSum(Sales(initial, calls))
  {
    hide Run, Sales, Net, FeeSum, BalanceOf;
    RunCollects(initial, calls, treasury);
    assert NoBulk(calls) by {
      forall i | 0 <= i < |calls| ensures !calls[i].1.BulkCall? {
        assert OnlyCollects(calls[i].1, treasury);
      }
    }
    RunBalance(initial, calls, treasury);
  }

  // ---- Suspension ----

  lemma {:induction false} SettleKeepsSuspended(m: Market, snapshots: seq<MarketListing>, amounts: seq<i128>, n: nat)
    requires n <= |snapshots| && n <= |amounts| && SettleUpTo(m, snapshots, amounts, n).Ok?
    ensures SettleUpTo(m, snapshots, amounts, n).value.0.suspended == m.suspended
  {
    if n > 0 {
      SettleKeepsSuspended(m, snapshots, amounts, n - 1);
    }
  }

  lemma StepSuspended(w: World, env: Env, call: Call)
    ensures w.market.suspended <= Step(w, env, call).market.suspended
  {
    hide Deliver, PayLine, LedgerInvariant.Step, ListGate, SettleLine;
    if call.BulkCall? {
      var t := Trade(w.market, w.ledger);
      if BulkPurchase(t, env, call.buyer, call.ids, call.amounts).Ok? {
        var snapshots := ValidateUpTo(w.market, call.ids, call.amounts, |call.ids|).value;
        SettleKeepsSuspended(w.market, snapshots, call.amounts, |call.ids|);
      }
    }
  }

  lemma {:induction false} RunSuspended(initial: Balances, calls: seq<(Env, Call)>, n: nat)
    requires n <= |calls|
    ensures Run(initial, calls[..n]).market.suspended <= Run(initial, calls).market.suspended
    decreases |calls|
  {
    hide Step;
    if n == |calls| {
      assert calls[..n] == calls;
    } else {
      var init := calls[..|calls| - 1];
      RunSuspended(initial, init, n);
      assert init[..n] == calls[..n];
      StepSuspended(Run(initial, init), calls[|calls| - 1].0, calls[|calls| - 1].1);
    }
  }

  lemma {:induction false} ValidateNeedsActive(m: Market, ids: seq<string>, amounts: seq<i128>, n: nat, i: nat)
    requires i < n <= |ids| == |amounts| && ValidateUpTo(m, ids, amounts, n).Ok?
    ensures ids[i] in m.listings && m.listings[ids[i]].projectId !in m.suspended
  {
    if i < n - 1 {
      ValidateNeedsActive(m, ids, amounts, n - 1, i);
    }
  }

  /**
    A suspension is for good: whatever calls follow it, the project's credits can
    no longer be listed, bought, or bought in bulk.
   */
  lemma SuspendedForGood(initial: Balances, calls: seq<(Env, Call)>, n: nat, project: string, env: Env)
    requires n <= |calls| && project in Run(initial, calls[..n]).market.suspended
    ensures var w := Run(initial, calls);
            && (forall a: ListArgs :: a.projectId == project ==> List(w.market, env, a).IsFailure())
            && (forall buyer, id, amount ::
                  id in w.market.listings && w.market.listings[id].projectId == project ==>
                    Purchase(w, env, buyer, id, amount).IsFailure())
            && (forall buyer, ids, amounts, i ::
                  0 <= i < |ids| && ids[i] in w.market.listings && w.market.listings[ids[i]].projectId == project ==>
                    BulkPurchase(Trade(w.market, w.ledger), env, buyer, ids, amounts).IsFailure())
  {
    hide Run;
    RunSuspended(initial, calls, n);
    var w := Run(initial, calls);
    forall buyer, ids, amounts, i |
      0 <= i < |ids| && ids[i] in w.market.listings && w.market.listings[ids[i]].projectId == project
      ensures BulkPurchase(Trade(w.market, w.ledger), env, buyer, ids, amounts).IsFailure()
    {
      if |ids| == |amounts| && ValidateUpTo(w.market, ids, amounts, |ids|).Ok? {
        ValidateNeedsActive(w.market, ids, amounts, |ids|, i);
      }
    }
  }
}
