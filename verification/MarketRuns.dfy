/**
  Administration and closed listings over runs of all contracts: who administers and
  collects, what stays suspended, and what can no longer be bought.
 */
module MarketRuns {
  import opened Platform
  import opened UsdcToken
  import opened Marketplace
  import opened WorldRuns
  import LedgerInvariant
  import BulkEquivalence
  import MarketQueries

  /** The call after `calls[..i]` is an accepted call of the marketplace's administration. */
  predicate AdministersAt(initial: Balances, calls: seq<(Env, Call)>, i: nat)
    requires i < |calls|
  {
    Administers(Run(initial, calls[..i]).market, calls[i].0, calls[i].1)
  }

  predicate Administers(m: Market, env: Env, call: Call) {
    match call
    case InitializeCall(admin, treasury) => Initialize(m, env, admin, treasury).Ok?
    case TreasuryCall(caller, treasury) => UpdateTreasury(m, env, caller, treasury).Ok?
    case SuspendCall(caller, project) => SuspendProject(m, env, caller, project).Ok?
    case _ => false
  }

  /** What one call makes of admin, treasury and suspended projects. */
  lemma StepAdministration(w: World, env: Env, call: Call)
    ensures var m, t := w.market, Step(w, env, call).market;
            if !Administers(m, env, call) then t.admin == m.admin && t.treasury == m.treasury && t.suspended == m.suspended
            else match call
              case InitializeCall(admin, treasury) =>
                m.admin.None? && t.admin == Some(admin) && t.treasury == Some(treasury) && t.suspended == m.suspended
              case TreasuryCall(caller, treasury) =>
                m.admin == t.admin == Some(caller) && t.treasury == Some(treasury) && t.suspended == m.suspended
              case SuspendCall(caller, project) =>
                m.admin == t.admin == Some(caller) && t.treasury == m.treasury && t.suspended == m.suspended + {project}
              case _ => true
  {
    hide LedgerInvariant.Step, VintageGate, PayLine, Deliver, BulkPurchase;
    if call.BulkCall? && BulkPurchase(Trade(w.market, w.ledger), env, call.buyer, call.ids, call.amounts).Ok? {
      BulkKeepsAdministration(Trade(w.market, w.ledger), env, call.buyer, call.ids, call.amounts);
    }
  }

  lemma {:induction false} SettleKeepsAdministration(m: Market, snapshots: seq<MarketListing>, amounts: seq<i128>, n: nat)
    requires n <= |snapshots| && n <= |amounts| && SettleUpTo(m, snapshots, amounts, n).Ok?
    ensures var t := SettleUpTo(m, snapshots, amounts, n).value.0;
            t == m.(listings := t.listings, sold := t.sold)
  {
    hide SettleLine;
    if n > 0 {
      SettleKeepsAdministration(m, snapshots, amounts, n - 1);
    }
  }

  lemma BulkKeepsAdministration(t: Trade, env: Env, buyer: Address, ids: seq<string>, amounts: seq<i128>)
    requires BulkPurchase(t, env, buyer, ids, amounts).Ok?
    ensures var m := BulkPurchase(t, env, buyer, ids, amounts).value.market;
            m == t.market.(listings := m.listings, sold := m.sold)
  {
    SettleKeepsAdministration(t.market, ValidateUpTo(t.market, ids, amounts, |ids|).value, amounts, |ids|);
  }

  // ---- Admin and treasury ----

  /** The admin is whom the one accepted initialisation of the run named. */
  lemma {:induction false} AdminExactly(initial: Balances, calls: seq<(Env, Call)>, n: nat)
    requires n <= |calls|
    ensures var m := Run(initial, calls[..n]).market;
            && (m.admin.Some? <==> exists i :: 0 <= i < n && calls[i].1.InitializeCall? && AdministersAt(initial, calls, i))
            && (forall i :: 0 <= i < n && calls[i].1.InitializeCall? && AdministersAt(initial, calls, i) ==>
                  m.admin == Some(calls[i].1.admin))
  {
    hide Run, Step, Initialize, UpdateTreasury, SuspendProject;
    if n == 0 {
      MarketQueries.NothingListed(initial);
      assert calls[..0] == [];
    } else {
      AdminExactly(initial, calls, n - 1);
      PrefixStep(initial, calls, n - 1);
      StepAdministration(Run(initial, calls[..n - 1]), calls[n - 1].0, calls[n - 1].1);
      if calls[n - 1].1.InitializeCall? && AdministersAt(initial, calls, n - 1) {
        assert forall i :: 0 <= i < n - 1 && calls[i].1.InitializeCall? ==> !AdministersAt(initial, calls, i);
      }
    }
  }

  /** The treasury that a call names. */
  function TreasuryIn(call: Call): Option<Address> {
    if call.InitializeCall? || call.TreasuryCall? then Some(call.treasury) else None
  }

  /** The treasury is the one that the last accepted call about it named. */
  lemma {:induction false} TreasuryExactly(initial: Balances, calls: seq<(Env, Call)>, i: nat, n: nat)
    requires i < n <= |calls| && AdministersAt(initial, calls, i) && TreasuryIn(calls[i].1).Some?
    requires forall j :: i < j < n && AdministersAt(initial, calls, j) ==> TreasuryIn(calls[j].1).None?
    ensures Run(initial, calls[..n]).market.treasury == TreasuryIn(calls[i].1)
  {
    hide Run, Step, Initialize, UpdateTreasury, SuspendProject;
    PrefixStep(initial, calls, n - 1);
    StepAdministration(Run(initial, calls[..n - 1]), calls[n - 1].0, calls[n - 1].1);
    if i < n - 1 {
      TreasuryExactly(initial, calls, i, n - 1);
    }
  }

  // ---- Suspension ----

  /** Call `i` is an accepted suspension of the project. */
  predicate SuspendsAt(initial: Balances, calls: seq<(Env, Call)>, i: nat, project: string)
    requires i < |calls|
  {
    calls[i].1.SuspendCall? && calls[i].1.project == project && AdministersAt(initial, calls, i)
  }

  /** After any run a project is suspended if and only if some accepted call suspended it. */
  lemma {:induction false} SuspendedExactly(initial: Balances, calls: seq<(Env, Call)>, n: nat, project: string)
    requires n <= |calls|
    ensures project in Run(initial, calls[..n]).market.suspended <==>
            exists i :: 0 <= i < n && SuspendsAt(initial, calls, i, project)
  {
    hide Run, Step, Initialize, UpdateTreasury, SuspendProject;
    if n == 0 {
      MarketQueries.NothingListed(initial);
      assert calls[..0] == [];
    } else {
      SuspendedExactly(initial, calls, n - 1, project);
      PrefixStep(initial, calls, n - 1);
      StepAdministration(Run(initial, calls[..n - 1]), calls[n - 1].0, calls[n - 1].1);
      if SuspendsAt(initial, calls, n - 1, project) {
        assert project in Run(initial, calls[..n]).market.suspended;
      }
    }
  }

  // ---- Closed listings ----

  /** Delisted or sold out. */
  predicate Closed(m: Market, id: string) {
    id in m.listings && (m.listings[id].status == Delisted || m.listings[id].status == Sold)
  }

  lemma {:induction false} SettleKeepsOthers(m: Market, snapshots: seq<MarketListing>, amounts: seq<i128>, n: nat, id: string)
    requires n <= |snapshots| && n <= |amounts| && SettleUpTo(m, snapshots, amounts, n).Ok?
    requires id in m.listings && forall k :: 0 <= k < n ==> snapshots[k].listingId != id
    ensures var t := SettleUpTo(m, snapshots, amounts, n).value.0;
            id in t.listings && t.listings[id] == m.listings[id]
  {
    if n > 0 {
      SettleKeepsOthers(m, snapshots, amounts, n - 1, id);
    }
  }

  lemma {:induction false} ValidatedOpen(m: Market, ids: seq<string>, amounts: seq<i128>, n: nat, id: string)
    requires n <= |ids| == |amounts| && BulkEquivalence.KeyedById(m) && Closed(m, id)
    requires ValidateUpTo(m, ids, amounts, n).Ok?
    ensures forall k :: 0 <= k < n ==> ids[k] != id && ValidateUpTo(m, ids, amounts, n).value[k].listingId != id
  {
    if n > 0 {
      ValidatedOpen(m, ids, amounts, n - 1, id);
    }
  }

  /** A bulk purchase with a line on a closed listing is refused, and one without leaves the listing alone. */
  lemma BulkOnClosed(t: Trade, env: Env, buyer: Address, ids: seq<string>, amounts: seq<i128>, id: string)
    requires BulkEquivalence.KeyedById(t.market) && Closed(t.market, id)
    ensures var r := BulkPurchase(t, env, buyer, ids, amounts);
            r.Ok? ==> id !in ids && id in r.value.market.listings && r.value.market.listings[id] == t.market.listings[id]
  {
    var r := BulkPurchase(t, env, buyer, ids, amounts);
    if r.Ok? {
      var snapshots := ValidateUpTo(t.market, ids, amounts, |ids|).value;
      ValidatedOpen(t.market, ids, amounts, |ids|, id);
      SettleKeepsOthers(t.market, snapshots, amounts, |ids|, id);
    }
  }

  lemma StepStaysClosed(w: World, env: Env, call: Call, id: string)
    requires BulkEquivalence.KeyedById(w.market) && Closed(w.market, id) && !MarketQueries.Lists(w, env, call, id)
    ensures var t := Step(w, env, call).market;
            Closed(t, id) && (w.market.listings[id].status == Delisted ==> t.listings[id].status == Delisted)
  {
    hide LedgerInvariant.Step, VintageGate, PayLine, Deliver, BulkPurchase;
    if call.BulkCall? {
      BulkOnClosed(Trade(w.market, w.ledger), env, call.buyer, call.ids, call.amounts, id);
    }
  }

  /** A closed listing stays closed until its id is listed again; a delisted one stays delisted. */
  lemma {:induction false} ClosedUntilListed(initial: Balances, calls: seq<(Env, Call)>, i: nat, n: nat, id: string)
    requires i <= n <= |calls| && Closed(Run(initial, calls[..i]).market, id)
    requires forall j :: i <= j < n ==> !MarketQueries.ListsAt(initial, calls, j, id)
    ensures var m, t := Run(initial, calls[..i]).market, Run(initial, calls[..n]).market;
            Closed(t, id) && (m.listings[id].status == Delisted ==> t.listings[id].status == Delisted)
  {
    hide Run, Step, MarketQueries.Lists;
    if i < n {
      ClosedUntilListed(initial, calls, i, n - 1, id);
      MarketQueries.RunKeyed(initial, calls, n - 1);
      PrefixStep(initial, calls, n - 1);
      assert !MarketQueries.ListsAt(initial, calls, n - 1, id);
      StepStaysClosed(Run(initial, calls[..n - 1]), calls[n - 1].0, calls[n - 1].1, id);
    }
  }

  /** No purchase of a closed listing and no bulk purchase with a line on it is accepted. */
  lemma ClosedRefused(w: World, env: Env, buyer: Address, id: string, amount: i128, ids: seq<string>, amounts: seq<i128>)
    requires BulkEquivalence.KeyedById(w.market) && Closed(w.market, id)
    ensures Purchase(w, env, buyer, id, amount).IsFailure()
    ensures buyer in env.auth && amount > 0 ==> Purchase(w, env, buyer, id, amount) == Err(ListingNotFound)
    ensures id in ids ==> BulkPurchase(Trade(w.market, w.ledger), env, buyer, ids, amounts).IsFailure()
  {
    BulkOnClosed(Trade(w.market, w.ledger), env, buyer, ids, amounts, id);
  }

  lemma DelistCloses(w: World, env: Env, seller: Address, id: string)
    requires Delist(w.market, env, seller, id).Ok?
    ensures var t := Step(w, env, DelistCall(seller, id)).market;
            Closed(t, id) && t.listings[id].status == Delisted
  {
  }

  /** After an accepted delisting nothing of the listing can be bought until its id is listed again. */
  lemma DelistedUntilListed(initial: Balances, calls: seq<(Env, Call)>, i: nat, n: nat, env: Env, buyer: Address,
                            amount: i128, ids: seq<string>, amounts: seq<i128>)
    requires i < n <= |calls| && calls[i].1.DelistCall?
    requires Delist(Run(initial, calls[..i]).market, calls[i].0, calls[i].1.seller, calls[i].1.id).Ok?
    requires forall j :: i < j < n ==> !MarketQueries.ListsAt(initial, calls, j, calls[i].1.id)
    ensures var w, id := Run(initial, calls[..n]), calls[i].1.id;
            && id in w.market.listings && w.market.listings[id].status == Delisted
            && Purchase(w, env, buyer, id, amount).IsFailure()
            && (buyer in env.auth && amount > 0 ==> Purchase(w, env, buyer, id, amount) == Err(ListingNotFound))
            && (id in ids ==> BulkPurchase(Trade(w.market, w.ledger), env, buyer, ids, amounts).IsFailure())
  {
    hide Run, Step, Delist, Purchase, BulkPurchase, MarketQueries.Lists;
    var id := calls[i].1.id;
    PrefixStep(initial, calls, i);
    DelistCloses(Run(initial, calls[..i]), calls[i].0, calls[i].1.seller, id);
    ClosedUntilListed(initial, calls, i + 1, n, id);
    MarketQueries.RunKeyed(initial, calls, n);
    ClosedRefused(Run(initial, calls[..n]), env, buyer, id, amount, ids, amounts);
  }
}
