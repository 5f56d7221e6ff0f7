/**
  What the listing queries return: the matching listings of the index, complete
  unless the contract was initialised late, single unless an id was listed again.
 */
module MarketQueries {
  import opened Platform
  import opened Marketplace
  import MarketInvariant
  import BulkEquivalence
  import UsdcToken
  import LedgerInvariant
  import WorldRuns

  /** `picked` are the places of the ids whose listing matches, in order; their listings are the result. */
  ghost predicate PickedFrom(picked: seq<int>, listings: map<string, MarketListing>, ids: seq<string>,
                             keep: MarketListing -> bool, result: seq<MarketListing>)
    requires forall i :: 0 <= i < |ids| ==> ids[i] in listings
  {
    && |picked| == |result|
    && (forall k :: 0 <= k < |picked| ==>
          0 <= picked[k] < |ids| && keep(listings[ids[picked[k]]]) && result[k] == listings[ids[picked[k]]])
    && (forall k, l :: 0 <= k < l < |picked| ==> picked[k] < picked[l])
    && (forall i :: 0 <= i < |ids| && keep(listings[ids[i]]) ==> i in picked)
  }

  lemma PickedSnoc(picked: seq<int>, listings: map<string, MarketListing>, ids: seq<string>,
                   keep: MarketListing -> bool, result: seq<MarketListing>, id: string)
    requires (forall i :: 0 <= i < |ids| ==> ids[i] in listings) && id in listings
    requires PickedFrom(picked, listings, ids, keep, result)
    ensures forall i :: 0 <= i < |ids + [id]| ==> (ids + [id])[i] in listings
    ensures if keep(listings[id]) then PickedFrom(picked + [|ids|], listings, ids + [id], keep, result + [listings[id]])
            else PickedFrom(picked, listings, ids + [id], keep, result)
  {
    var more := ids + [id];
    assert forall i :: 0 <= i < |ids| ==> more[i] == ids[i];
    if keep(listings[id]) {
      var all := picked + [|ids|];
      assert all[|picked|] == |ids|;
      forall i | 0 <= i < |more| && keep(listings[more[i]]) ensures i in all {
        if i < |ids| {
          assert i in picked;
        }
      }
    }
  }

  lemma {:induction false} FilteredPicks(listings: map<string, MarketListing>, ids: seq<string>, keep: MarketListing -> bool)
      returns (picked: seq<int>)
    requires forall i :: 0 <= i < |ids| ==> ids[i] in listings
    ensures PickedFrom(picked, listings, ids, keep, Filtered(listings, ids, keep))
  {
    hide PickedFrom;
    if ids == [] {
      picked := NonePicked(listings, keep);
    } else {
      var n := |ids| - 1;
      var init := FilteredPicks(listings, ids[..n], keep);
      assert ids[n] in listings;
      PickedSnoc(init, listings, ids[..n], keep, Filtered(listings, ids[..n], keep), ids[n]);
      assert ids[..n] + [ids[n]] == ids;
      picked := if keep(listings[ids[n]]) then init + [n] else init;
    }
  }

  lemma NonePicked(listings: map<string, MarketListing>, keep: MarketListing -> bool) returns (picked: seq<int>)
    ensures picked == [] && PickedFrom(picked, listings, [], keep, [])
  {
    picked := [];
  }

  lemma FilteredPlaces(listings: map<string, MarketListing>, ids: seq<string>, keep: MarketListing -> bool)
      returns (picked: seq<int>)
    requires forall i :: 0 <= i < |ids| ==> ids[i] in listings
    ensures |picked| == |Filtered(listings, ids, keep)|
    ensures forall k :: 0 <= k < |picked| ==>
              0 <= picked[k] < |ids| && Filtered(listings, ids, keep)[k] == listings[ids[picked[k]]]
    ensures forall k, l :: 0 <= k < l < |picked| ==> picked[k] < picked[l]
    ensures forall i :: 0 <= i < |ids| ==> (i in picked <==> keep(listings[ids[i]]))
  {
    picked := FilteredPicks(listings, ids, keep);
    hide Filtered;
  }

  /** Every stored listing is in the index. */
  ghost predicate IndexComplete(m: Market) {
    forall id :: id in m.listings ==> id in m.allListings
  }

  /** No id whose listing matches is indexed twice. */
  ghost predicate IndexedOnce(m: Market, keep: MarketListing -> bool) {
    forall i, j :: 0 <= i < j < |m.allListings| && m.allListings[i] in m.listings && keep(m.listings[m.allListings[i]]) ==>
      m.allListings[i] != m.allListings[j]
  }

  /** A query returns, in index order, the listings that match, all of them when the index is complete. */
  lemma FilteredExact(m: Market, keep: MarketListing -> bool) returns (picked: seq<int>)
    requires MarketInvariant.Inv(m)
    ensures var result := Filtered(m.listings, m.allListings, keep);
            && |picked| == |result|
            && (forall k :: 0 <= k < |picked| ==>
                  0 <= picked[k] < |m.allListings| && m.allListings[picked[k]] in m.listings &&
                  result[k] == m.listings[m.allListings[picked[k]]])
            && (forall k, l :: 0 <= k < l < |picked| ==> picked[k] < picked[l])
    ensures forall i :: 0 <= i < |m.allListings| ==>
              m.allListings[i] in m.listings && (i in picked <==> keep(m.listings[m.allListings[i]]))
    ensures var result := Filtered(m.listings, m.allListings, keep);
            && (forall l :: l in result ==> l.listingId in m.listings && m.listings[l.listingId] == l && keep(l))
            && (IndexComplete(m) ==> forall id :: id in m.listings && keep(m.listings[id]) ==> m.listings[id] in result)
  {
    var ids := m.allListings;
    var result := Filtered(m.listings, ids, keep);
    picked := FilteredPlaces(m.listings, ids, keep);
    BulkEquivalence.SoundIsKeyed(m);
    hide MarketInvariant.Inv, Filtered;
    forall l | l in result ensures l.listingId in m.listings && m.listings[l.listingId] == l && keep(l) {
      var k :| 0 <= k < |result| && result[k] == l;
      assert picked[k] in picked;
      assert m.listings[ids[picked[k]]].listingId == ids[picked[k]];
    }
    if IndexComplete(m) {
      forall id | id in m.listings && keep(m.listings[id]) ensures m.listings[id] in result {
        var i :| 0 <= i < |ids| && ids[i] == id;
        var k :| 0 <= k < |picked| && picked[k] == i;
        assert result[k] == m.listings[id];
      }
    }
  }

  /** An id that is picked at two places is returned twice. */
  lemma FilteredTwice(listings: map<string, MarketListing>, ids: seq<string>, keep: MarketListing -> bool, i: nat, j: nat)
    requires forall k :: 0 <= k < |ids| ==> ids[k] in listings
    requires i < j < |ids| && ids[i] == ids[j] && keep(listings[ids[i]])
    ensures var result := Filtered(listings, ids, keep);
            exists k, l :: 0 <= k < l < |result| && result[k] == result[l]
  {
    var result := Filtered(listings, ids, keep);
    var picked := FilteredPlaces(listings, ids, keep);
    hide Filtered;
    var k :| 0 <= k < |picked| && picked[k] == i;
    var l :| 0 <= l < |picked| && picked[l] == j;
    assert k < l;
    assert result[k] == result[l];
  }

  /** It returns no listing twice if and only if no matching id is indexed twice. */
  lemma FilteredOnceExactly(m: Market, keep: MarketListing -> bool)
    requires MarketInvariant.Inv(m)
    ensures var result := Filtered(m.listings, m.allListings, keep);
            (forall k, l :: 0 <= k < l < |result| ==> result[k] != result[l]) <==> IndexedOnce(m, keep)
  {
    var ids := m.allListings;
    var result := Filtered(m.listings, ids, keep);
    BulkEquivalence.SoundIsKeyed(m);
    hide Filtered;
    if IndexedOnce(m, keep) {
      var picked := FilteredPlaces(m.listings, ids, keep);
      hide MarketInvariant.Inv;
      forall k, l | 0 <= k < l < |result| ensures result[k] != result[l] {
        assert picked[k] in picked && picked[l] in picked;
        assert m.listings[ids[picked[k]]].listingId == ids[picked[k]];
        assert m.listings[ids[picked[l]]].listingId == ids[picked[l]];
      }
    } else {
      var i, j :| 0 <= i < j < |ids| && ids[i] in m.listings && keep(m.listings[ids[i]]) && ids[i] == ids[j];
      FilteredTwice(m.listings, ids, keep, i, j);
    }
  }

  /** On a complete index the active listings are exactly those that are not delisted and have credits left. */
  lemma ActiveExactly(m: Market, l: MarketListing)
    requires MarketInvariant.Inv(m) && IndexComplete(m)
    ensures l in Filtered(m.listings, m.allListings, IsActive) <==>
            l.listingId in m.listings && m.listings[l.listingId] == l && l.status != Delisted && l.amountAvailable > 0
  {
    var picked := FilteredExact(m, IsActive);
    if l.listingId in m.listings {
      assert MarketInvariant.ListingSound(m, l.listingId);
    }
    hide Filtered;
  }

  /** Initialising clears the index: it stays complete if and only if nothing had been listed before. */
  lemma InitializeIndexExactly(m: Market, env: Env, admin: Address, treasury: Address)
    requires Initialize(m, env, admin, treasury).Ok?
    ensures IndexComplete(Initialize(m, env, admin, treasury).value) <==> m.listings == map[]
  {
    var t := Initialize(m, env, admin, treasury).value;
    if IndexComplete(t) {
      assert forall id :: id !in m.listings;
    }
  }

  lemma {:induction false} SettleKeepsIndex(m: Market, snapshots: seq<MarketListing>, amounts: seq<i128>, n: nat)
    requires n <= |snapshots| && n <= |amounts| && SettleUpTo(m, snapshots, amounts, n).Ok?
    requires BulkEquivalence.KeyedById(m) && forall i :: 0 <= i < |snapshots| ==> snapshots[i].listingId in m.listings
    ensures var t := SettleUpTo(m, snapshots, amounts, n).value.0;
            t.listings.Keys == m.listings.Keys && t.allListings == m.allListings && t.admin == m.admin && BulkEquivalence.KeyedById(t)
  {
    if n > 0 {
      SettleKeepsIndex(m, snapshots, amounts, n - 1);
    }
  }

  lemma {:induction false} ValidatedStored(m: Market, ids: seq<string>, amounts: seq<i128>, n: nat)
    requires n <= |ids| == |amounts| && BulkEquivalence.KeyedById(m) && ValidateUpTo(m, ids, amounts, n).Ok?
    ensures forall i :: 0 <= i < n ==> ValidateUpTo(m, ids, amounts, n).value[i].listingId in m.listings
  {
    if n > 0 {
      ValidatedStored(m, ids, amounts, n - 1);
    }
  }

  lemma BulkKeepsIndex(t: Trade, env: Env, buyer: Address, ids: seq<string>, amounts: seq<i128>)
    requires BulkEquivalence.KeyedById(t.market) && BulkPurchase(t, env, buyer, ids, amounts).Ok?
    ensures var m := BulkPurchase(t, env, buyer, ids, amounts).value.market;
            && m.listings.Keys == t.market.listings.Keys && m.allListings == t.market.allListings
            && m.admin == t.market.admin && BulkEquivalence.KeyedById(m)
  {
    ValidatedStored(t.market, ids, amounts, |ids|);
    SettleKeepsIndex(t.market, ValidateUpTo(t.market, ids, amounts, |ids|).value, amounts, |ids|);
  }

  // ---- The index over a run ----

  /** The call is an accepted listing of `id`. */
  predicate Lists(w: World, env: Env, call: WorldRuns.Call, id: string) {
    call.ListCall? && call.a.listingId == id && List(w.market, env, call.a).Ok?
  }

  /** What one call makes of the stored ids and of the index: only the first initialisation removes. */
  lemma StepIndex(w: World, env: Env, call: WorldRuns.Call, id: string)
    requires BulkEquivalence.KeyedById(w.market)
    ensures var t := WorldRuns.Step(w, env, call).market;
            && BulkEquivalence.KeyedById(t)
            && (w.market.admin.Some? ==> t.admin.Some?)
            && (id in t.listings <==> id in w.market.listings || Lists(w, env, call, id))
            && (id in t.allListings <==>
                (id in w.market.allListings && w.market.admin.Some? == t.admin.Some?) || Lists(w, env, call, id))
            && (Lists(w, env, call, id) ==> t.admin == w.market.admin)
  {
    hide Deliver, PayLine, LedgerInvariant.Step, VintageGate, BulkPurchase;
    match call
    case ListCall(a) =>
      var t := WorldRuns.Step(w, env, call).market;
      if t.allListings != w.market.allListings {
        assert t.allListings[|w.market.allListings|] == a.listingId;
      }
    case BulkCall(buyer, ids, amounts, payments) =>
      if BulkPurchase(Trade(w.market, w.ledger), env, buyer, ids, amounts).Ok? {
        BulkKeepsIndex(Trade(w.market, w.ledger), env, buyer, ids, amounts);
      }
    case _ =>
  }

  /** The call after `calls[..i]` is an accepted listing of `id`. */
  predicate ListsAt(initial: UsdcToken.Balances, calls: seq<(Env, WorldRuns.Call)>, i: nat, id: string)
    requires i < |calls|
  {
    Lists(WorldRuns.Run(initial, calls[..i]), calls[i].0, calls[i].1, id)
  }

  /** The contract has been initialised within `calls[..i]`. */
  predicate InitializedBy(initial: UsdcToken.Balances, calls: seq<(Env, WorldRuns.Call)>, i: nat)
    requires i <= |calls|
  {
    WorldRuns.Run(initial, calls[..i]).market.admin.Some?
  }

  lemma {:induction false} RunKeyed(initial: UsdcToken.Balances, calls: seq<(Env, WorldRuns.Call)>, n: nat)
    requires n <= |calls|
    ensures BulkEquivalence.KeyedById(WorldRuns.Run(initial, calls[..n]).market)
  {
    hide WorldRuns.Run, WorldRuns.Step;
    if n == 0 {
      NothingListed(initial);
      assert calls[..0] == [];
    } else {
      RunKeyed(initial, calls, n - 1);
      WorldRuns.PrefixStep(initial, calls, n - 1);
      StepIndex(WorldRuns.Run(initial, calls[..n - 1]), calls[n - 1].0, calls[n - 1].1, "");
    }
  }

  lemma {:induction false} StaysInitialized(initial: UsdcToken.Balances, calls: seq<(Env, WorldRuns.Call)>, i: nat, n: nat)
    requires i <= n <= |calls| && InitializedBy(initial, calls, i)
    ensures InitializedBy(initial, calls, n)
  {
    hide WorldRuns.Run, WorldRuns.Step;
    if i < n {
      StaysInitialized(initial, calls, i, n - 1);
      RunKeyed(initial, calls, n - 1);
      WorldRuns.PrefixStep(initial, calls, n - 1);
      StepIndex(WorldRuns.Run(initial, calls[..n - 1]), calls[n - 1].0, calls[n - 1].1, "");
    }
  }

  /**
    After any run the stored ids are those of its accepted listings, and the index
    holds those listed after the first initialisation, or ever if there was none.
   */
  lemma {:induction false} RunIndex(initial: UsdcToken.Balances, calls: seq<(Env, WorldRuns.Call)>, n: nat, id: string)
    requires n <= |calls|
    ensures var m := WorldRuns.Run(initial, calls[..n]).market;
            && (id in m.listings <==> exists i :: 0 <= i < n && ListsAt(initial, calls, i, id))
            && (id in m.allListings <==>
                exists i :: 0 <= i < n && ListsAt(initial, calls, i, id) &&
                            (InitializedBy(initial, calls, i) || !InitializedBy(initial, calls, n)))
  {
    hide WorldRuns.Run, WorldRuns.Step, Lists;
    if n == 0 {
      NothingListed(initial);
      assert calls[..0] == [];
    } else {
      RunIndex(initial, calls, n - 1, id);
      RunKeyed(initial, calls, n - 1);
      WorldRuns.PrefixStep(initial, calls, n - 1);
      StepIndex(WorldRuns.Run(initial, calls[..n - 1]), calls[n - 1].0, calls[n - 1].1, id);
      forall i | 0 <= i < n && InitializedBy(initial, calls, i) ensures InitializedBy(initial, calls, n - 1) {
        StaysInitialized(initial, calls, i, n - 1);
      }
      if ListsAt(initial, calls, n - 1, id) {
        assert InitializedBy(initial, calls, n - 1) || !InitializedBy(initial, calls, n);
      }
    }
  }

  lemma NothingListed(initial: UsdcToken.Balances)
    ensures WorldRuns.Run(initial, []).market == EMPTY_MARKET
  {
  }

  /** Everything listed before the first initialisation of the run was listed again after it. */
  ghost predicate ListedInTime(initial: UsdcToken.Balances, calls: seq<(Env, WorldRuns.Call)>) {
    forall i, id :: 0 <= i < |calls| && ListsAt(initial, calls, i, id) && !InitializedBy(initial, calls, i) ==>
      !InitializedBy(initial, calls, |calls|) ||
      exists j :: 0 <= j < |calls| && ListsAt(initial, calls, j, id) && InitializedBy(initial, calls, j)
  }

  /** After any run the index is complete if and only if nothing was listed only before the first initialisation. */
  lemma RunIndexExactly(initial: UsdcToken.Balances, calls: seq<(Env, WorldRuns.Call)>)
    ensures IndexComplete(WorldRuns.Run(initial, calls).market) <==> ListedInTime(initial, calls)
  {
    hide WorldRuns.Run, ListsAt, InitializedBy;
    var m := WorldRuns.Run(initial, calls).market;
    var n := |calls|;
    assert calls[..n] == calls;
    if IndexComplete(m) {
      forall i, id | 0 <= i < n && ListsAt(initial, calls, i, id) && !InitializedBy(initial, calls, i)
        ensures !InitializedBy(initial, calls, n) ||
                exists j :: 0 <= j < n && ListsAt(initial, calls, j, id) && InitializedBy(initial, calls, j)
      {
        RunIndex(initial, calls, n, id);
      }
    }
    if ListedInTime(initial, calls) {
      forall id | id in m.listings ensures id in m.allListings {
        RunIndex(initial, calls, n, id);
      }
    }
  }
}
