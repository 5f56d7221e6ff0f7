/**
  The price feed: volume-weighted averages of two sources, and the hold rule
  that limits how far one push may move a price.  Prices are exact rationals.
 */
module PriceOracle {
  import opened Platform

  const USDC_STROOPS := 10_000_000

  type Key = (string, int)

  /** One benchmark as fetched; absent properties take the feed's defaults. */
  datatype Quote = Quote(methodology: Option<string>, vintage: Option<int>, price: Option<real>, volume: Option<real>)

  function KeyOf(q: Quote): Key {
    (if q.methodology.Some? then q.methodology.value else "VCS", if q.vintage.Some? then q.vintage.value else 2023)
  }

  function PriceOf(q: Quote): real {
    if q.price.Some? then q.price.value else 0.0
  }

  function VolumeOf(q: Quote): real {
    if q.volume.Some? then q.volume.value else 1.0
  }

  // ---- Aggregation ----

  /** Price and volume of the positive quotes for a key, in order. */
  function Entries(quotes: seq<Quote>, key: Key): seq<(real, real)> {
    if quotes == [] then []
    else
      var q := quotes[|quotes| - 1];
      Entries(quotes[..|quotes| - 1], key) +
      if PriceOf(q) > 0.0 && KeyOf(q) == key then [(PriceOf(q), VolumeOf(q))] else []
  }

  function TotalVolume(entries: seq<(real, real)>): real {
    if entries == [] then 0.0 else TotalVolume(entries[..|entries| - 1]) + entries[|entries| - 1].1
  }

  function WeightedSum(entries: seq<(real, real)>): real {
    if entries == [] then 0.0
    else WeightedSum(entries[..|entries| - 1]) + entries[|entries| - 1].0 * entries[|entries| - 1].1
  }

  lemma {:induction false} EntriesConcat(a: seq<Quote>, b: seq<Quote>, key: Key)
    ensures Entries(a + b, key) == Entries(a, key) + Entries(b, key)
  {
    if b == [] {
      assert a + b == a;
    } else {
      assert (a + b)[..|a + b| - 1] == a + b[..|b| - 1];
      EntriesConcat(a, b[..|b| - 1], key);
    }
  }

  type Buckets = map<Key, seq<(real, real)>>

  /** The buckets hold exactly the entries of the quotes read so far, empty ones absent. */
  ghost predicate Holds(buckets: Buckets, quotes: seq<Quote>) {
    forall key :: if Entries(quotes, key) == [] then key !in buckets
                  else key in buckets && buckets[key] == Entries(quotes, key)
  }

  lemma EntriesSnoc(quotes: seq<Quote>, q: Quote, key: Key)
    ensures Entries(quotes + [q], key) ==
            Entries(quotes, key) + if PriceOf(q) > 0.0 && KeyOf(q) == key then [(PriceOf(q), VolumeOf(q))] else []
  {
    assert (quotes + [q])[..|quotes|] == quotes;
  }

  /** One more quote: the empty bucket counts as absent. */
  lemma HoldsStep(buckets: Buckets, quotes: seq<Quote>, q: Quote, result: Buckets)
    requires Holds(buckets, quotes)
    requires if PriceOf(q) > 0.0 then result == buckets[KeyOf(q) := Bucket(buckets, KeyOf(q)) + [(PriceOf(q), VolumeOf(q))]]
             else result == buckets
    ensures Holds(result, quotes + [q])
  {
    hide Entries, KeyOf, PriceOf, VolumeOf;
    forall key
      ensures if Entries(quotes + [q], key) == [] then key !in result
              else key in result && result[key] == Entries(quotes + [q], key)
    {
      EntriesSnoc(quotes, q, key);
      assert Bucket(buckets, key) == Entries(quotes, key);
    }
  }

  function Bucket(buckets: Buckets, key: Key): seq<(real, real)> {
    if key in buckets then buckets[key] else []
  }

  /** Adds one feed's quotes to the buckets. */
  method Collect(buckets: Buckets, ghost before: seq<Quote>, quotes: seq<Quote>) returns (result: Buckets)
    requires Holds(buckets, before)
    ensures Holds(result, before + quotes)
  {
    hide Holds, Entries, KeyOf;
    result := buckets;
    assert before + quotes[..0] == before;
    for i := 0 to |quotes|
      invariant Holds(result, before + quotes[..i])
    {
      var q := quotes[i];
      ghost var earlier := result;
      if PriceOf(q) > 0.0 {
        result := result[KeyOf(q) := Bucket(result, KeyOf(q)) + [(PriceOf(q), VolumeOf(q))]];
      }
      HoldsStep(earlier, before + quotes[..i], q, result);
      assert before + quotes[..i] + [q] == before + quotes[..i + 1];
    }
    assert before + quotes[..|quotes|] == before + quotes;
  }

  // ---- The sums on the quotes' own fields ----

  /** A quote for the methodology and vintage with a positive price; absent fields are read as VCS and 2023. */
  predicate Counts(q: Quote, methodology: string, vintage: int) {
    && (q.methodology == Some(methodology) || (q.methodology == None && methodology == "VCS"))
    && (q.vintage == Some(vintage) || (q.vintage == None && vintage == 2023))
    && q.price.Some? && q.price.value > 0.0
  }

  /** The volume that a quote reports, 1 if it reports none. */
  function Reported(q: Quote): real {
    match q.volume
    case Some(volume) => volume
    case None => 1.0
  }

  function VolumeSum(quotes: seq<Quote>, methodology: string, vintage: int): real {
    if quotes == [] then 0.0
    else
      var q := quotes[|quotes| - 1];
      VolumeSum(quotes[..|quotes| - 1], methodology, vintage) + if Counts(q, methodology, vintage) then Reported(q) else 0.0
  }

  function PricedSum(quotes: seq<Quote>, methodology: string, vintage: int): real {
    if quotes == [] then 0.0
    else
      var q := quotes[|quotes| - 1];
      PricedSum(quotes[..|quotes| - 1], methodology, vintage) +
      if Counts(q, methodology, vintage) then q.price.value * Reported(q) else 0.0
  }

  lemma SumsSnoc(entries: seq<(real, real)>, e: (real, real))
    ensures TotalVolume(entries + [e]) == TotalVolume(entries) + e.1
    ensures WeightedSum(entries + [e]) == WeightedSum(entries) + e.0 * e.1
  {
    assert (entries + [e])[..|entries|] == entries;
  }

  /** The entries of a key add up to the sums on the quotes. */
  lemma {:induction false} SumsAgree(quotes: seq<Quote>, methodology: string, vintage: int)
    ensures TotalVolume(Entries(quotes, (methodology, vintage))) == VolumeSum(quotes, methodology, vintage)
    ensures WeightedSum(Entries(quotes, (methodology, vintage))) == PricedSum(quotes, methodology, vintage)
  {
    hide KeyOf, PriceOf, VolumeOf, Counts, Reported, TotalVolume, WeightedSum;
    NoVolume();
    if quotes != [] {
      var init, q := quotes[..|quotes| - 1], quotes[|quotes| - 1];
      var entries := Entries(init, (methodology, vintage));
      SumsAgree(init, methodology, vintage);
      EntryIs(q, methodology, vintage);
      SumsSnoc(entries, (PriceOf(q), VolumeOf(q)));
      assert entries + [] == entries;
    }
  }

  lemma EntryIs(q: Quote, methodology: string, vintage: int)
    ensures PriceOf(q) > 0.0 && KeyOf(q) == (methodology, vintage) <==> Counts(q, methodology, vintage)
    ensures Counts(q, methodology, vintage) ==> q.price.Some? && PriceOf(q) == q.price.value
    ensures VolumeOf(q) == Reported(q)
  {
  }

  /** A quotient times its divisor. */
  lemma QuotientTimes(s: real, v: real)
    requires v != 0.0
    ensures s / v * v == s
  {
  }

  /** The result holds the average of a methodology and vintage, or nothing if its volumes sum to zero. */
  predicate AverageFor(result: map<Key, real>, quotes: seq<Quote>, methodology: string, vintage: int) {
    var volume := VolumeSum(quotes, methodology, vintage);
    if volume == 0.0 then (methodology, vintage) !in result
    else (methodology, vintage) in result && result[(methodology, vintage)] * volume == PricedSum(quotes, methodology, vintage)
  }

  function Average(entries: seq<(real, real)>): real
    requires TotalVolume(entries) != 0.0
  {
    WeightedSum(entries) / TotalVolume(entries)
  }

  /** The same on the entries of a key. */
  predicate EntriesAverage(result: map<Key, real>, entries: seq<(real, real)>, key: Key) {
    if TotalVolume(entries) == 0.0 then key !in result
    else key in result && result[key] == Average(entries)
  }

  lemma AverageIs(result: map<Key, real>, quotes: seq<Quote>, methodology: string, vintage: int)
    requires EntriesAverage(result, Entries(quotes, (methodology, vintage)), (methodology, vintage))
    ensures AverageFor(result, quotes, methodology, vintage)
  {
    var entries := Entries(quotes, (methodology, vintage));
    var s, v := WeightedSum(entries), TotalVolume(entries);
    SumsAgree(quotes, methodology, vintage);
    hide WeightedSum, TotalVolume, VolumeSum, PricedSum, Entries;
    if v != 0.0 {
      QuotientTimes(s, v);
    }
  }

  /** The volume-weighted average per methodology and vintage; one whose volumes sum to zero is skipped. */
  method AggregatePrices(xpansiv: seq<Quote>, toucan: seq<Quote>) returns (result: map<Key, real>)
    ensures forall methodology, vintage :: AverageFor(result, xpansiv + toucan, methodology, vintage)
    ensures forall key :: EntriesAverage(result, Entries(xpansiv + toucan, key), key)
  {
    var buckets := Collect(map[], [], xpansiv);
    assert [] + xpansiv == xpansiv;
    buckets := Collect(buckets, xpansiv, toucan);
    NoVolume();
    hide KeyOf, PriceOf, VolumeOf, TotalVolume, Entries, AverageFor, Average;
    result := map[];
    var keys := buckets.Keys;
    while keys != {}
      invariant keys <= buckets.Keys
      invariant forall key ::
                  if key !in buckets || key in keys || TotalVolume(buckets[key]) == 0.0 then key !in result
                  else key in result && result[key] == Average(buckets[key])
      decreases keys
    {
      var key :| key in keys;
      keys := keys - {key};
      if TotalVolume(buckets[key]) != 0.0 {
        result := result[key := Average(buckets[key])];
      }
    }
    assert forall key :: EntriesAverage(result, Entries(xpansiv + toucan, key), key);
    hide EntriesAverage;
    forall methodology, vintage ensures AverageFor(result, xpansiv + toucan, methodology, vintage) {
      AverageIs(result, xpansiv + toucan, methodology, vintage);
    }
  }

  lemma NoVolume()
    ensures TotalVolume([]) == 0.0 && WeightedSum([]) == 0.0
  {
  }

  function Least(entries: seq<(real, real)>): real
    requires entries != []
  {
    var p := entries[|entries| - 1].0;
    if |entries| == 1 then p
    else
      var rest := Least(entries[..|entries| - 1]);
      if p < rest then p else rest
  }

  function Greatest(entries: seq<(real, real)>): real
    requires entries != []
  {
    var p := entries[|entries| - 1].0;
    if |entries| == 1 then p
    else
      var rest := Greatest(entries[..|entries| - 1]);
      if p > rest then p else rest
  }

  lemma {:induction false} EntriesPositive(quotes: seq<Quote>, key: Key)
    ensures forall i :: 0 <= i < |Entries(quotes, key)| ==> Entries(quotes, key)[i].0 > 0.0
  {
    if quotes != [] {
      EntriesPositive(quotes[..|quotes| - 1], key);
    }
  }

  lemma {:induction false} LeastPositive(entries: seq<(real, real)>)
    requires entries != [] && forall i :: 0 <= i < |entries| ==> entries[i].0 > 0.0
    ensures Least(entries) > 0.0
  {
    if |entries| > 1 {
      LeastPositive(entries[..|entries| - 1]);
    }
  }

  lemma ScaleMonotone(x: real, y: real, v: real)
    requires x <= y && v >= 0.0
    ensures x * v <= y * v
  {
    var d := y - x;
    assert d * v >= 0.0;
    assert y * v == (x + d) * v == x * v + d * v;
  }

  lemma Distribute(x: real, a: real, b: real)
    ensures x * (a + b) == x * a + x * b
  {
  }

  /** One more entry of price `p` and volume `v` under a lower bound that covers the old one and `p`. */
  lemma LowerStep(lo: real, s: real, volume: real, p: real, v: real, newLo: real)
    requires lo * volume <= s && volume >= 0.0 && v >= 0.0 && newLo <= lo && newLo <= p
    ensures newLo * (volume + v) <= s + p * v
  {
    var a, b, c, d := newLo * volume, lo * volume, newLo * v, p * v;
    assert a <= b by { ScaleMonotone(newLo, lo, volume); }
    assert c <= d by { ScaleMonotone(newLo, p, v); }
    Distribute(newLo, volume, v);
  }

  /** The same for an upper bound. */
  lemma UpperStep(hi: real, s: real, volume: real, p: real, v: real, newHi: real)
    requires s <= hi * volume && volume >= 0.0 && v >= 0.0 && hi <= newHi && p <= newHi
    ensures s + p * v <= newHi * (volume + v)
  {
    var a, b, c, d := newHi * volume, hi * volume, newHi * v, p * v;
    assert b <= a by { ScaleMonotone(hi, newHi, volume); }
    assert d <= c by { ScaleMonotone(p, newHi, v); }
    Distribute(newHi, volume, v);
  }

  /** The four summaries of a list, in terms of its last entry. */
  lemma Unfold(entries: seq<(real, real)>)
    requires |entries| > 1
    ensures var n := |entries| - 1;
            var init := entries[..n];
            var (p, v) := entries[n];
            && TotalVolume(entries) == TotalVolume(init) + v
            && WeightedSum(entries) == WeightedSum(init) + p * v
            && Least(entries) <= Least(init) && Least(entries) <= p
            && Greatest(init) <= Greatest(entries) && p <= Greatest(entries)
  {
  }

  lemma UnfoldOne(entries: seq<(real, real)>)
    requires |entries| == 1
    ensures TotalVolume(entries) == entries[0].1 && WeightedSum(entries) == entries[0].0 * entries[0].1
    ensures Least(entries) == Greatest(entries) == entries[0].0
  {
    assert entries[..0] == [];
  }

  lemma {:induction false} SumBetween(entries: seq<(real, real)>)
    requires entries != [] && forall i :: 0 <= i < |entries| ==> entries[i].1 >= 0.0
    ensures TotalVolume(entries) >= 0.0
    ensures Least(entries) * TotalVolume(entries) <= WeightedSum(entries) <= Greatest(entries) * TotalVolume(entries)
  {
    hide *;
    var n := |entries| - 1;
    if n == 0 {
      UnfoldOne(entries);
    } else {
      var init := entries[..n];
      var (p, v) := entries[n];
      SumBetween(init);
      Unfold(entries);
      LowerStep(Least(init), WeightedSum(init), TotalVolume(init), p, v, Least(entries));
      UpperStep(Greatest(init), WeightedSum(init), TotalVolume(init), p, v, Greatest(entries));
    }
  }

  /** A quotient keeps the order of the products it comes from. */
  lemma QuotientAtLeast(lo: real, s: real, v: real)
    requires v > 0.0 && lo * v <= s
    ensures lo <= s / v
  {
    var q := s / v;
    assert q * v == s;
    if q < lo {
      ScaleStrict(q, lo, v);
      assert false;
    }
  }

  lemma QuotientAtMost(s: real, hi: real, v: real)
    requires v > 0.0 && s <= hi * v
    ensures s / v <= hi
  {
    var q := s / v;
    assert q * v == s;
    if q > hi {
      ScaleStrict(hi, q, v);
      assert false;
    }
  }

  lemma ScaleStrict(x: real, y: real, v: real)
    requires x < y && v > 0.0
    ensures x * v < y * v
  {
    var d := y - x;
    assert d * v > 0.0;
    assert y * v == (x + d) * v == x * v + d * v;
  }

  /** With non-negative volumes an average lies between the least and the greatest positive quote of its key. */
  lemma AverageBetween(quotes: seq<Quote>, key: Key)
    requires Entries(quotes, key) != [] && TotalVolume(Entries(quotes, key)) != 0.0
    requires forall i :: 0 <= i < |Entries(quotes, key)| ==> Entries(quotes, key)[i].1 >= 0.0
    ensures var entries := Entries(quotes, key);
            0.0 < Least(entries) <= WeightedSum(entries) / TotalVolume(entries) <= Greatest(entries)
  {
    hide *;
    var entries := Entries(quotes, key);
    EntriesPositive(quotes, key);
    LeastPositive(entries);
    SumBetween(entries);
    QuotientAtLeast(Least(entries), WeightedSum(entries), TotalVolume(entries));
    QuotientAtMost(WeightedSum(entries), Greatest(entries), TotalVolume(entries));
  }

  /** Every entry is a counted quote's price and volume. */
  lemma {:induction false} EntryFrom(quotes: seq<Quote>, methodology: string, vintage: int, k: nat) returns (i: nat)
    requires k < |Entries(quotes, (methodology, vintage))|
    ensures i < |quotes| && Counts(quotes[i], methodology, vintage)
    ensures Entries(quotes, (methodology, vintage))[k] == (quotes[i].price.value, Reported(quotes[i]))
  {
    var n := |quotes| - 1;
    if k < |Entries(quotes[..n], (methodology, vintage))| {
      i := EntryFrom(quotes[..n], methodology, vintage, k);
    } else {
      i := n;
    }
  }

  lemma {:induction false} BoundsReached(entries: seq<(real, real)>) returns (k: nat, l: nat)
    requires entries != []
    ensures k < |entries| && entries[k].0 == Least(entries)
    ensures l < |entries| && entries[l].0 == Greatest(entries)
  {
    var n := |entries| - 1;
    if n == 0 {
      k, l := 0, 0;
    } else {
      k, l := BoundsReached(entries[..n]);
      if Least(entries) == entries[n].0 { k := n; }
      if Greatest(entries) == entries[n].0 { l := n; }
    }
  }

  /** With non-negative volumes some counted quote is priced at most, and some at least, the average. */
  lemma AverageWithinQuotes(quotes: seq<Quote>, methodology: string, vintage: int) returns (i: nat, j: nat)
    requires VolumeSum(quotes, methodology, vintage) != 0.0
    requires forall k :: 0 <= k < |quotes| && Counts(quotes[k], methodology, vintage) ==> Reported(quotes[k]) >= 0.0
    ensures i < |quotes| && Counts(quotes[i], methodology, vintage)
    ensures j < |quotes| && Counts(quotes[j], methodology, vintage)
    ensures var average := PricedSum(quotes, methodology, vintage) / VolumeSum(quotes, methodology, vintage);
            0.0 < quotes[i].price.value <= average <= quotes[j].price.value
  {
    hide *;
    var key := (methodology, vintage);
    var entries := Entries(quotes, key);
    SumsAgree(quotes, methodology, vintage);
    NoVolume();
    forall k | 0 <= k < |entries| ensures entries[k].1 >= 0.0 {
      var q := EntryFrom(quotes, methodology, vintage, k);
    }
    AverageBetween(quotes, key);
    var k, l := BoundsReached(entries);
    i := EntryFrom(quotes, methodology, vintage, k);
    j := EntryFrom(quotes, methodology, vintage, l);
  }

  // ---- Pushing ----

  /** Conversion to stroops, truncated toward zero. */
  function ToStroops(usd: real): int {
    var x := usd * (USDC_STROOPS as real);
    if x >= 0.0 then x.Floor else -((-x).Floor)
  }

  /** Truncation toward zero of the price in units of a ten-millionth. */
  lemma ToStroopsExactly(usd: real)
    ensures usd >= 0.0 ==> ToStroops(usd) >= 0 && ToStroops(usd) as real <= usd * 10000000.0 < ToStroops(usd) as real + 1.0
    ensures usd <= 0.0 ==> ToStroops(usd) <= 0 && ToStroops(usd) as real - 1.0 < usd * 10000000.0 <= ToStroops(usd) as real
  {
  }

  function Abs(x: int): int {
    if x < 0 then -x else x
  }

  /** The quote moves by more than 15% of the last push; a last price that is not positive holds nothing. */
  predicate Held(last: int, stroops: int) {
    last > 0 && 100 * Abs(stroops - last) > 15 * last
  }

  /** The last pushed price of a key after one quote; a submission succeeds if it is confirmed and the contract takes the price. */
  function AfterQuote(last: Option<int>, stroops: int, confirmed: bool): Option<int> {
    if last.Some? && Held(last.value, stroops) then last
    else if confirmed && stroops > 0 then Some(stroops)
    else last
  }

  type Prices = map<Key, int>

  function LastOf(last: Prices, key: Key): Option<int> {
    if key in last then Some(last[key]) else None
  }

  /** The remembered prices after one cycle: each aggregated key sees one quote, other keys none. */
  ghost predicate CycleStep(before: Prices, after: Prices, prices: map<Key, real>, confirmed: set<Key>) {
    forall key ::
      LastOf(after, key) ==
      if key in prices then AfterQuote(LastOf(before, key), ToStroops(prices[key]), key in confirmed)
      else LastOf(before, key)
  }

  class PriceFeed {
    var lastPrices: Prices

    constructor ()
      ensures lastPrices == map[]
    {
      lastPrices := map[];
    }

    /** One cycle over the aggregated prices; `confirmed` says which submissions the network confirms. */
    method UpdatePrices(prices: map<Key, real>, confirmed: set<Key>)
      modifies this
      ensures CycleStep(old(lastPrices), lastPrices, prices, confirmed)
    {
      var keys := prices.Keys;
      while keys != {}
        invariant keys <= prices.Keys
        invariant forall key ::
                    LastOf(lastPrices, key) ==
                    if key in prices && key !in keys
                    then AfterQuote(LastOf(old(lastPrices), key), ToStroops(prices[key]), key in confirmed)
                    else LastOf(old(lastPrices), key)
        decreases keys
      {
        var key :| key in keys;
        assert LastOf(lastPrices, key) == LastOf(old(lastPrices), key);
        keys := keys - {key};
        var stroops := ToStroops(prices[key]);
        var hold := key in lastPrices && lastPrices[key] > 0 &&
                    100 * Abs(stroops - lastPrices[key]) > 15 * lastPrices[key];
        if !hold && key in confirmed && stroops > 0 {
          lastPrices := lastPrices[key := stroops];
        }
      }
    }
  }

  /** What happens to one key over the cycles: the quote, and whether a submission of it would be confirmed. */
  datatype Event = Event(stroops: int, confirmed: bool)

  function LastAfter(events: seq<Event>): Option<int> {
    if events == [] then None
    else
      var e := events[|events| - 1];
      AfterQuote(LastAfter(events[..|events| - 1]), e.stroops, e.confirmed)
  }

  /** The price that one quote pushes, if any. */
  function Push(last: Option<int>, e: Event): seq<int> {
    if !(last.Some? && Held(last.value, e.stroops)) && e.confirmed && e.stroops > 0 then [e.stroops] else []
  }

  /** The prices pushed for a key, in order. */
  function Pushes(events: seq<Event>): seq<int> {
    if events == [] then []
    else
      var n := |events| - 1;
      Pushes(events[..n]) + Push(LastAfter(events[..n]), events[n])
  }

  datatype Cycle = Cycle(prices: map<Key, real>, confirmed: set<Key>)

  /** The events of one key over a run of cycles. */
  function EventsOf(cycles: seq<Cycle>, key: Key): seq<Event> {
    if cycles == [] then []
    else
      var c := cycles[|cycles| - 1];
      EventsOf(cycles[..|cycles| - 1], key) +
      if key in c.prices then [Event(ToStroops(c.prices[key]), key in c.confirmed)] else []
  }

  /** What is remembered after a run of cycles is what the key's own events leave. */
  lemma {:induction false} CyclesPerKey(states: seq<Prices>, cycles: seq<Cycle>, n: nat, key: Key)
    requires |states| == |cycles| + 1 && states[0] == map[] && n <= |cycles|
    requires forall i :: 0 <= i < |cycles| ==> CycleStep(states[i], states[i + 1], cycles[i].prices, cycles[i].confirmed)
    ensures LastOf(states[n], key) == LastAfter(EventsOf(cycles[..n], key))
  {
    if n > 0 {
      CyclesPerKey(states, cycles, n - 1, key);
      assert cycles[..n][..n - 1] == cycles[..n - 1];
      assert CycleStep(states[n - 1], states[n - 1 + 1], cycles[n - 1].prices, cycles[n - 1].confirmed);
      var before := EventsOf(cycles[..n - 1], key);
      var events := EventsOf(cycles[..n], key);
      if key in cycles[n - 1].prices {
        assert events[..|events| - 1] == before;
      } else {
        assert events == before;
      }
    }
  }

  /** `after` is within 15% of `before`. */
  predicate Close(before: int, after: int) {
    85 * before <= 100 * after <= 115 * before
  }

  /** Each price is within 15% of the one before. */
  ghost predicate Chain(p: seq<int>) {
    forall i, j :: 0 <= i < j < |p| && j == i + 1 ==> Close(p[i], p[j])
  }

  /** A push is remembered, positive, and within 15% of a positive price before it. */
  lemma PushFacts(last: Option<int>, e: Event)
    ensures Push(last, e) == [] || Push(last, e) == [e.stroops]
    ensures AfterQuote(last, e.stroops, e.confirmed) == if Push(last, e) == [] then last else Some(e.stroops)
    ensures Push(last, e) != [] ==> e.stroops > 0
    ensures Push(last, e) != [] && last.Some? && last.value > 0 ==> Close(last.value, e.stroops)
  {
  }

  lemma ChainSnoc(p: seq<int>, x: int)
    requires Chain(p) && (p != [] ==> Close(p[|p| - 1], x))
    ensures Chain(p + [x])
  {
    var q := p + [x];
    hide Close;
    forall i, j | 0 <= i < j < |q| && j == i + 1 ensures Close(q[i], q[j]) {
      if j < |p| {
        assert Close(p[i], p[j]);
      }
    }
  }

  /** `p` are the pushes behind the remembered price: positive, a chain, the last one remembered. */
  ghost predicate PushedTo(p: seq<int>, last: Option<int>) {
    && (forall i :: 0 <= i < |p| ==> p[i] > 0)
    && Chain(p)
    && last == if p == [] then None else Some(p[|p| - 1])
  }

  lemma PushKeeps(p: seq<int>, last: Option<int>, e: Event)
    requires PushedTo(p, last)
    ensures PushedTo(p + Push(last, e), AfterQuote(last, e.stroops, e.confirmed))
  {
    PushFacts(last, e);
    hide Push, AfterQuote, Close, Chain;
    if Push(last, e) == [] {
      assert p + [] == p;
    } else {
      ChainSnoc(p, e.stroops);
    }
  }

  /** Every push is positive and within 15% of the one before; the last one is what is remembered. */
  lemma {:induction false} PushesClose(events: seq<Event>)
    ensures PushedTo(Pushes(events), LastAfter(events))
  {
    hide Push, AfterQuote, PushedTo;
    if events == [] {
      NothingPushed();
    } else {
      var init := events[..|events| - 1];
      PushesClose(init);
      PushKeeps(Pushes(init), LastAfter(init), events[|events| - 1]);
    }
  }

  lemma NothingPushed()
    ensures PushedTo([], None)
  {
  }

  function Pow(b: nat, k: nat): nat {
    if k == 0 then 1 else b * Pow(b, k - 1)
  }

  lemma CompoundStep(a: nat, b: nat, c: nat, p: int, x: int, y: int)
    requires a * p <= b * x <= c * p && Close(x, y)
    ensures (85 * a) * p <= (100 * b) * y <= (115 * c) * p
  {
    MulMonotone(b, 85 * x, 100 * y);
    MulMonotone(b, 100 * y, 115 * x);
    assert b * (85 * x) == 85 * (b * x);
    assert b * (115 * x) == 115 * (b * x);
    assert b * (100 * y) == (100 * b) * y;
    assert (85 * a) * p == 85 * (a * p);
    assert (115 * c) * p == 115 * (c * p);
  }

  lemma {:induction false} Compound(p: seq<int>, i: nat, k: nat)
    requires i + k < |p| && Chain(p)
    ensures Pow(85, k) * p[i] <= Pow(100, k) * p[i + k] <= Pow(115, k) * p[i]
  {
    if k > 0 {
      Compound(p, i, k - 1);
      var h, j := i + (k - 1), i + k;
      assert Close(p[h], p[j]);
      CompoundStep(Pow(85, k - 1), Pow(100, k - 1), Pow(115, k - 1), p[i], p[h], p[j]);
    }
  }

  /** After `k` further pushes a price is between 0.85^k and 1.15^k of where it was. */
  lemma DriftBound(events: seq<Event>, i: nat, k: nat)
    requires i + k < |Pushes(events)|
    ensures var p := Pushes(events);
            && p[i] > 0 && p[i + k] > 0
            && Pow(85, k) * p[i] <= Pow(100, k) * p[i + k] <= Pow(115, k) * p[i]
  {
    PushesClose(events);
    Compound(Pushes(events), i, k);
  }

  lemma {:induction false} PushesExtend(events: seq<Event>, n: nat)
    requires n <= |events|
    ensures Pushes(events[..n]) <= Pushes(events)
    decreases |events|
  {
    if n == |events| {
      assert events[..n] == events;
    } else {
      PushesExtend(events[..|events| - 1], n);
      assert events[..|events| - 1][..n] == events[..n];
    }
  }

  lemma {:induction false} EventsExtend(cycles: seq<Cycle>, n: nat, key: Key)
    requires n <= |cycles|
    ensures EventsOf(cycles[..n], key) <= EventsOf(cycles, key)
    decreases |cycles|
  {
    if n == |cycles| {
      assert cycles[..n] == cycles;
    } else {
      EventsExtend(cycles[..|cycles| - 1], n, key);
      assert cycles[..|cycles| - 1][..n] == cycles[..n];
    }
  }

  /**
    Over a run of cycles: if a key's price is remembered after cycle `n` and `k`
    pushes follow, the price remembered at the end is between 0.85^k and 1.15^k of it.
   */
  lemma CyclesDrift(states: seq<Prices>, cycles: seq<Cycle>, n: nat, key: Key, k: nat)
    requires |states| == |cycles| + 1 && states[0] == map[] && n <= |cycles|
    requires forall i :: 0 <= i < |cycles| ==> CycleStep(states[i], states[i + 1], cycles[i].prices, cycles[i].confirmed)
    requires key in states[n]
    requires k == |Pushes(EventsOf(cycles, key))| - |Pushes(EventsOf(cycles[..n], key))|
    ensures key in states[|cycles|]
    ensures var was, now := states[n][key], states[|cycles|][key];
            was > 0 && now > 0 && Pow(85, k) * was <= Pow(100, k) * now <= Pow(115, k) * was
  {
    hide Pow, Pushes, Push, EventsOf, CycleStep, LastAfter, Chain, Close, AfterQuote;
    var early, all := EventsOf(cycles[..n], key), EventsOf(cycles, key);
    assert cycles[..|cycles|] == cycles;
    CyclesPerKey(states, cycles, n, key);
    CyclesPerKey(states, cycles, |cycles|, key);
    EventsExtend(cycles, n, key);
    assert all[..|early|] == early;
    PushesExtend(all, |early|);
    PushesClose(early);
    PushesClose(all);
    assert Pushes(early)[|Pushes(early)| - 1] == Pushes(all)[|Pushes(early)| - 1];
    DriftBound(all, |Pushes(early)| - 1, k);
  }

  /** A quote changes a positive remembered price exactly when it is confirmed, different and within 15% of it. */
  lemma QuoteMovesExactly(last: int, stroops: int, confirmed: bool)
    requires last > 0
    ensures AfterQuote(Some(last), stroops, confirmed) != Some(last) <==>
            confirmed && stroops != last && 85 * last <= 100 * stroops <= 115 * last
    ensures AfterQuote(Some(last), stroops, confirmed) == Some(last) || AfterQuote(Some(last), stroops, confirmed) == Some(stroops)
  {
  }

  /** Nothing holds a first quote, or one after a price that is not positive: it is remembered if confirmed and positive. */
  lemma FirstQuoteExactly(last: Option<int>, stroops: int, confirmed: bool)
    requires last.None? || last.value <= 0
    ensures AfterQuote(last, stroops, confirmed) == if confirmed && stroops > 0 then Some(stroops) else last
  {
  }
}
