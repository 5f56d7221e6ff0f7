/**
  Concrete runs on which the contracts do not keep what is said about them.
 */
module Witnesses {
  import opened Platform
  import opened CreditLedger
  import LedgerInvariant
  import SerialNumbers
  import UsdcToken
  import Marketplace
  import MarketInvariant
  import BulkEquivalence
  import WorldRuns

  const ENV := Env({"admin", "owner", "stranger"}, 1_735_689_600)

  /** A mint of `amount` credits to "owner" with the serials 1 to `last`. */
  function BatchOf(amount: i128, last: u64): MintArgs {
    MintArgs("admin", "P", amount, 2024, "B", 1, last, "cid", "owner")
  }

  function RetireOne(holder: Address): RetireArgs {
    RetireArgs(holder, "B", 1, "", "", "R", "", "")
  }

  lemma BatchMintable(amount: i128, last: u64)
    requires 0 < amount <= MAX_BATCH_SIZE && 1 < last
    ensures MintGate(SerialNumbers.Opened("admin"), ENV, BatchOf(amount, last)).Ok?
  {
    assert ApproximateYear(ENV.now) == Ok(2025);
  }

  // ---- Serial numbers ----

  /** Five credits on two serials can be minted, and then a serial is certified twice. */
  lemma FiveCreditsOnTwoSerials() returns (calls: seq<(Env, LedgerInvariant.Call)>)
    ensures Mint(SerialNumbers.Opened("admin"), ENV, BatchOf(5, 2)).Ok?
    ensures SerialNumbers.OthersFit(calls, BatchOf(5, 2))
    ensures !SerialNumbers.SerialsUnique(LedgerInvariant.Run(calls).issued)
  {
    hide SerialNumbers.SerialsUnique, LedgerInvariant.Run, MintGate, Minted;
    BatchMintable(5, 2);
    calls := SerialNumbers.UnfitMintDuplicates(ENV, BatchOf(5, 2));
  }

  // ---- Retirement ----

  /** The two calls after which ten credits with the serials 1 to 10 exist. */
  function Minting(): seq<(Env, LedgerInvariant.Call)> {
    [(ENV, LedgerInvariant.InitializeCall("admin")), (ENV, LedgerInvariant.MintCall(BatchOf(10, 10)))]
  }

  function TenCredits(): Ledger {
    Minted(SerialNumbers.Opened("admin"), ENV, BatchOf(10, 10))
  }

  lemma MintingRun()
    ensures LedgerInvariant.Run(Minting()) == TenCredits()
    ensures LedgerInvariant.Inv(TenCredits())
  {
    hide LedgerInvariant.Run, MintGate, Minted, LedgerInvariant.Inv;
    BatchMintable(10, 10);
    SerialNumbers.InitializeStep(ENV, "admin");
    var calls := [(ENV, LedgerInvariant.InitializeCall("admin"))];
    SerialNumbers.MintStep(calls, ENV, BatchOf(10, 10));
    assert Minting() == calls + [(ENV, LedgerInvariant.MintCall(BatchOf(10, 10)))];
    LedgerInvariant.RunSound(Minting());
  }

  /** One more credit of "B" retired under the id "R", by whoever signs. */
  lemma RetireStep(calls: seq<(Env, LedgerInvariant.Call)>, holder: Address) returns (cert: Certificate)
    requires holder in ENV.auth
    requires var s := LedgerInvariant.Run(calls);
             "B" in s.batches && s.batches["B"].serialStart == 1 && 0 <= Retired(s, "B") < s.batches["B"].amount == 10
    ensures var s, t := LedgerInvariant.Run(calls), LedgerInvariant.Run(calls + [(ENV, LedgerInvariant.RetireCall(RetireOne(holder)))]);
            && LedgerInvariant.Retires(s, t, RetireOne(holder), cert)
            && cert.retiredBy == holder && cert.serials == [1 + Retired(s, "B")]
  {
    hide LedgerInvariant.Run;
    LedgerInvariant.RunSound(calls);
    var s := LedgerInvariant.Run(calls);
    LedgerInvariant.RetireExact(s, ENV, RetireOne(holder));
    cert := LedgerInvariant.RetireRetires(s, ENV, RetireOne(holder));
    SerialNumbers.RetireStep(calls, ENV, RetireOne(holder), Retire(s, ENV, RetireOne(holder)).value);
  }

  /** A stranger retires a credit of a batch that "owner" owns. */
  lemma StrangerRetires() returns (calls: seq<(Env, LedgerInvariant.Call)>)
    ensures |calls| == 3 && calls[..2] == Minting()
    ensures var s, t := LedgerInvariant.Run(calls[..2]), LedgerInvariant.Run(calls);
            && "B" in s.batches && s.batches["B"].owner == "owner"
            && "R" in t.certificates && t.certificates["R"].batchId == "B" && t.certificates["R"].retiredBy == "stranger"
  {
    hide LedgerInvariant.Run, LedgerInvariant.Inv;
    MintingRun();
    var cert := RetireStep(Minting(), "stranger");
    calls := Minting() + [(ENV, LedgerInvariant.RetireCall(RetireOne("stranger")))];
  }

  /** Two retirements under one id: the stored certificate names the second serial only. */
  lemma CertificateOverwritten() returns (calls: seq<(Env, LedgerInvariant.Call)>)
    ensures |calls| == 4
    ensures var s, t := LedgerInvariant.Run(calls[..3]), LedgerInvariant.Run(calls);
            && "R" in s.certificates && s.certificates["R"].serials == [1]
            && "R" in t.certificates && t.certificates["R"].serials == [2]
            && |t.issued| == 2
  {
    hide LedgerInvariant.Run, LedgerInvariant.Inv;
    MintingRun();
    var cert1 := RetireStep(Minting(), "owner");
    var once := Minting() + [(ENV, LedgerInvariant.RetireCall(RetireOne("owner")))];
    var cert2 := RetireStep(once, "owner");
    calls := once + [(ENV, LedgerInvariant.RetireCall(RetireOne("owner")))];
    assert calls[..3] == once;
  }

  // ---- A bulk purchase of one's own listing ----

  function Offer(): Marketplace.ListArgs {
    Marketplace.ListArgs("owner", "x", "B", "P", 10, 1, 2024, "m", "c")
  }

  function Offered(): Marketplace.MarketListing {
    Marketplace.MarketListing("x", "owner", "B", "P", 10, 1, 2024, "m", "c", ENV.now, Marketplace.Active)
  }

  function Listed(): Marketplace.Market {
    Marketplace.Market(Some("admin"), Some("treasury"), map["x" := Offered()], ["x"], {}, map["x" := 10], map["x" := 0])
  }

  function Selling(): seq<(Env, WorldRuns.Call)> {
    [(ENV, WorldRuns.CreditCall(LedgerInvariant.InitializeCall("admin"))),
     (ENV, WorldRuns.CreditCall(LedgerInvariant.MintCall(BatchOf(10, 10)))),
     (ENV, WorldRuns.InitializeCall("admin", "treasury")),
     (ENV, WorldRuns.ListCall(Offer()))]
  }

  lemma MarketOpened()
    ensures var m := Marketplace.Initialize(Marketplace.EMPTY_MARKET, ENV, "admin", "treasury");
            m.Ok? && Marketplace.List(m.value, ENV, Offer()) == Ok(Listed())
  {
    assert ApproximateYear(ENV.now) == Ok(2025);
    var m := Marketplace.Initialize(Marketplace.EMPTY_MARKET, ENV, "admin", "treasury").value;
    var t := Marketplace.List(m, ENV, Offer()).value;
    assert t.listings == Listed().listings && t.listed == Listed().listed && t.sold == Listed().sold;
    assert t.allListings == ["x"];
  }

  /** The last call of a run of all contracts is a step from the run before it. */
  lemma WorldSnoc(initial: UsdcToken.Balances, calls: seq<(Env, WorldRuns.Call)>, env: Env, call: WorldRuns.Call)
    ensures WorldRuns.Run(initial, calls + [(env, call)]) == WorldRuns.Step(WorldRuns.Run(initial, calls), env, call)
  {
    assert (calls + [(env, call)])[..|calls|] == calls;
  }

  lemma FourSteps(initial: UsdcToken.Balances, a: (Env, WorldRuns.Call), b: (Env, WorldRuns.Call),
                  c: (Env, WorldRuns.Call), d: (Env, WorldRuns.Call))
    ensures var w := WorldRuns.Step(WorldRuns.Step(WorldRuns.Run(initial, []), a.0, a.1), b.0, b.1);
            WorldRuns.Run(initial, [a, b, c, d]) == WorldRuns.Step(WorldRuns.Step(w, c.0, c.1), d.0, d.1)
  {
    hide WorldRuns.Step, WorldRuns.Run;
    WorldSnoc(initial, [], a.0, a.1);
    WorldSnoc(initial, [a], b.0, b.1);
    WorldSnoc(initial, [a, b], c.0, c.1);
    WorldSnoc(initial, [a, b, c], d.0, d.1);
    assert [] + [a] == [a] && [a] + [b] == [a, b] && [a, b] + [c] == [a, b, c] && [a, b, c] + [d] == [a, b, c, d];
  }

  lemma SellingRun(initial: UsdcToken.Balances)
    ensures WorldRuns.Run(initial, Selling()) == Marketplace.World(TenCredits(), Listed(), initial)
  {
    var w := WorldRuns.Run(initial, []);
    assert w == Marketplace.World(EMPTY_LEDGER, Marketplace.EMPTY_MARKET, initial);
    hide MintGate, Minted, Marketplace.List, Marketplace.Initialize, WorldRuns.Run;
    BatchMintable(10, 10);
    MarketOpened();
    var calls := Selling();
    FourSteps(initial, calls[0], calls[1], calls[2], calls[3]);
    var w1 := WorldRuns.Step(w, ENV, calls[0].1);
    assert w1 == w.(ledger := SerialNumbers.Opened("admin"));
    var w2 := WorldRuns.Step(w1, ENV, calls[1].1);
    assert w2 == w.(ledger := TenCredits());
  }

  /** A delivery from "owner" to itself changes nothing. */
  lemma SelfDelivery(l: Marketplace.MarketListing)
    requires l.seller == "owner" && l.batchId == "B"
    ensures Marketplace.Deliver(TenCredits(), ENV, "owner", l, 7) == Ok(TenCredits())
  {
    hide LedgerInvariant.Run;
    MintingRun();
    MarketInvariant.DeliverExact(TenCredits(), ENV, "owner", l, 7);
    assert Moved(TenCredits(), "B", "owner").batches == TenCredits().batches;
  }

  /** The offer after 7 of its 10 credits are taken. */
  function Rest(): Marketplace.MarketListing {
    Offered().(amountAvailable := 3, status := Marketplace.PartiallyFilled)
  }

  function Trading(): Marketplace.Trade {
    Marketplace.Trade(Listed(), TenCredits())
  }

  lemma BulkPhases()
    ensures Marketplace.ValidateUpTo(Listed(), ["x", "x"], [7, 7], 2) == Ok([Offered(), Offered()])
    ensures Marketplace.SettleUpTo(Listed(), [Offered(), Offered()], [7, 7], 2) ==
            Ok((Marketplace.StoreLine(Marketplace.StoreLine(Listed(), Rest(), 7), Rest(), 7), [Rest(), Rest()]))
    ensures Marketplace.DeliverUpTo(TenCredits(), ENV, "owner", [Rest(), Rest()], [7, 7], 2) == Ok(TenCredits())
  {
    hide Marketplace.Deliver, Marketplace.StoreLine, Minted;
    assert [] + [Offered()] == [Offered()] && [Offered()] + [Offered()] == [Offered(), Offered()];
    assert [] + [Rest()] == [Rest()] && [Rest()] + [Rest()] == [Rest(), Rest()];
    assert Marketplace.CheckLine(Listed(), "x", 7) == Ok(Offered());
    assert Marketplace.ValidateUpTo(Listed(), ["x", "x"], [7, 7], 1) == Ok([Offered()]);
    assert Marketplace.SettleLine(Offered(), 7) == Ok(Rest());
    assert Marketplace.SettleUpTo(Listed(), [Offered(), Offered()], [7, 7], 1) ==
           Ok((Marketplace.StoreLine(Listed(), Rest(), 7), [Rest()]));
    SelfDelivery(Rest());
    assert Marketplace.DeliverUpTo(TenCredits(), ENV, "owner", [Rest(), Rest()], [7, 7], 1) == Ok(TenCredits());
  }

  /** "owner" buys 7 of its 10 listed credits twice in one bulk call; 3 remain available, 14 are sold. */
  lemma SelfBulk()
    ensures Marketplace.BulkPurchase(Trading(), ENV, "owner", ["x", "x"], [7, 7]) ==
            Ok(Marketplace.Trade(Marketplace.StoreLine(Marketplace.StoreLine(Listed(), Rest(), 7), Rest(), 7), TenCredits()))
    ensures var m := Marketplace.StoreLine(Marketplace.StoreLine(Listed(), Rest(), 7), Rest(), 7);
            m.listings == map["x" := Rest()] && m.listed == map["x" := 10] && m.sold == map["x" := 14]
  {
    hide Marketplace.ValidateUpTo, Marketplace.SettleUpTo, Marketplace.DeliverUpTo, Minted;
    BulkPhases();
  }

  /** Bought one after the other, the second line of the same call is refused. */
  lemma SelfSequence()
    ensures Marketplace.SequenceUpTo(Trading(), ENV, "owner", ["x", "x"], [7, 7], 2) == Err(InsufficientLiquidity)
  {
    hide Marketplace.Deliver, Minted;
    SelfDelivery(Rest());
    var once := Marketplace.Trade(Marketplace.StoreLine(Listed(), Rest(), 7), TenCredits());
    assert Marketplace.SettleLine(Offered(), 7) == Ok(Rest());
    assert Marketplace.PurchaseLine(Trading(), ENV, "owner", "x", 7) == Ok(once);
    assert Marketplace.PurchaseLine(once, ENV, "owner", "x", 7) == Err(InsufficientLiquidity);
    assert Marketplace.SequenceUpTo(Trading(), ENV, "owner", ["x", "x"], [7, 7], 1) == Ok(once);
  }

  /**
    A run of all contracts after which one bulk purchase, of the buyer's own
    listing twice, sells 14 of 10 credits and leaves 3; line by line it is refused.
   */
  lemma SelfPurchaseOversells(initial: UsdcToken.Balances, payments: UsdcToken.Balances)
    returns (calls: seq<(Env, WorldRuns.Call)>)
    ensures calls == Selling() + [(ENV, WorldRuns.BulkCall("owner", ["x", "x"], [7, 7], Some(payments)))]
    ensures var w, m := WorldRuns.Run(initial, Selling()), WorldRuns.Run(initial, calls).market;
            && Marketplace.SequenceUpTo(Marketplace.Trade(w.market, w.ledger), ENV, "owner", ["x", "x"], [7, 7], 2).IsFailure()
            && m.listings == map["x" := Rest()] && Rest().amountAvailable == 3
            && m.listed == map["x" := 10] && m.sold == map["x" := 14]
            && !MarketInvariant.Inv(m)
  {
    hide WorldRuns.Run, Marketplace.BulkPurchase, Marketplace.SequenceUpTo, Minted, Marketplace.StoreLine;
    SellingRun(initial);
    SelfBulk();
    SelfSequence();
    var call := WorldRuns.BulkCall("owner", ["x", "x"], [7, 7], Some(payments));
    calls := Selling() + [(ENV, call)];
    WorldSnoc(initial, Selling(), ENV, call);
    assert !MarketInvariant.ListingSound(WorldRuns.Run(initial, calls).market, "x");
  }
}
