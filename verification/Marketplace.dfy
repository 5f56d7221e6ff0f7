/**
  The entry points of the marketplace contract as functions on its storage and
  on the contracts it calls.  `listed` and `sold` are history: the amount at the
  latest listing of an id and what was sold from it since.
 */
module Marketplace {
  import opened Platform
  import opened UsdcToken
  import CreditLedger

  const MAX_BATCH_SIZE := 10

  datatype ListingStatus = Active | Sold | PartiallyFilled | Delisted

  datatype MarketListing = MarketListing(
    listingId: string,
    seller: Address,
    batchId: string,
    projectId: string,
    amountAvailable: i128,
    pricePerCredit: i128,
    vintageYear: u32,
    methodology: string,
    country: string,
    createdAt: u64,
    status: ListingStatus)

  /** `admin` is set together with the token and credit contract addresses. */
  datatype Market = Market(
    admin: Option<Address>,
    treasury: Option<Address>,
    listings: map<string, MarketListing>,
    allListings: seq<string>,
    suspended: set<string>,
    listed: map<string, int>,
    sold: map<string, int>)

  const EMPTY_MARKET := Market(None, None, map[], [], {}, map[], map[])

  /** The marketplace together with the two contracts it calls. */
  datatype World = World(ledger: CreditLedger.Ledger, market: Market, usdc: Balances)

  /** The part of the world that a purchase changes besides money. */
  datatype Trade = Trade(market: Market, ledger: CreditLedger.Ledger)

  datatype ListArgs = ListArgs(
    seller: Address,
    listingId: string,
    batchId: string,
    projectId: string,
    amount: i128,
    price: i128,
    vintageYear: u32,
    methodology: string,
    country: string)

  // ---- Administration ----

  function Initialize(m: Market, env: Env, admin: Address, treasury: Address): Result<Market> {
    var _ :- Need(m.admin.None?, AlreadyInitialized);
    var _ :- RequireAuth(env, admin);
    Ok(m.(admin := Some(admin), treasury := Some(treasury), allListings := []))
  }

  /** The stored admin is unwrapped, so an uninitialised contract traps. */
  function AdminGate(m: Market, env: Env, caller: Address): Result<()> {
    if caller !in env.auth || m.admin.None? then Trap
    else Need(m.admin.value == caller, UnauthorizedVerifier)
  }

  function UpdateTreasury(m: Market, env: Env, caller: Address, treasury: Address): Result<Market> {
    var _ :- AdminGate(m, env, caller);
    Ok(m.(treasury := Some(treasury)))
  }

  function SuspendProject(m: Market, env: Env, caller: Address, project: string): Result<Market> {
    var _ :- AdminGate(m, env, caller);
    Ok(m.(suspended := m.suspended + {project}))
  }

  // ---- Listing ----

  function ListGate(m: Market, env: Env, a: ListArgs): Result<()> {
    var _ :- RequireAuth(env, a.seller);
    var _ :- Need(a.amount > 0 && a.price > 0, ZeroAmountNotAllowed);
    var _ :- VintageGate(a.vintageYear, ApproximateYear(env.now));
    var _ :- Need(a.projectId !in m.suspended, ProjectSuspended);
    Ok(())
  }

  /** A listing replaces any listing of the same id; the index gets the id again. */
  function List(m: Market, env: Env, a: ListArgs): Result<Market> {
    var _ :- ListGate(m, env, a);
    var l := MarketListing(a.listingId, a.seller, a.batchId, a.projectId, a.amount, a.price, a.vintageYear,
                           a.methodology, a.country, env.now, Active);
    Ok(m.(listings := m.listings[a.listingId := l],
          allListings := m.allListings + [a.listingId],
          listed := m.listed[a.listingId := a.amount],
          sold := m.sold[a.listingId := 0]))
  }

  function Delist(m: Market, env: Env, seller: Address, id: string): Result<Market> {
    var _ :- RequireAuth(env, seller);
    var _ :- Need(id in m.listings, ListingNotFound);
    var _ :- Need(m.listings[id].seller == seller, UnauthorizedVerifier);
    Ok(m.(listings := m.listings[id := m.listings[id].(status := Delisted)]))
  }

  // ---- One line of a purchase ----

  /** The guards of one purchase line; the listing as loaded. */
  function CheckLine(m: Market, id: string, amount: i128): Result<MarketListing> {
    var _ :- Need(amount > 0, ZeroAmountNotAllowed);
    var _ :- Need(id in m.listings, ListingNotFound);
    var l := m.listings[id];
    var _ :- Need(l.status != Delisted && l.status != Sold, ListingNotFound);
    var _ :- Need(l.projectId !in m.suspended, ProjectSuspended);
    var _ :- Need(amount <= l.amountAvailable, InsufficientLiquidity);
    Ok(l)
  }

  function Fee(cost: int): int {
    TruncDiv(cost, 100)
  }

  /** The listing after `amount` is taken from it, if all of the line's arithmetic stays in range. */
  function SettleLine(l: MarketListing, amount: i128): Result<MarketListing> {
    var cost :- CheckedI128(l.pricePerCredit * amount);
    var _ :- CheckedI128(cost - Fee(cost));
    var left :- CheckedI128(l.amountAvailable - amount);
    Ok(l.(amountAvailable := left, status := if left == 0 then Sold else PartiallyFilled))
  }

  /** Stores a settled listing under its own id. */
  function StoreLine(m: Market, l: MarketListing, amount: i128): Market {
    m.(listings := m.listings[l.listingId := l],
       sold := m.sold[l.listingId := Lookup(m.sold, l.listingId, 0) + amount])
  }

  /** The cross-contract call; any failure of the callee traps. */
  function Deliver(ledger: CreditLedger.Ledger, env: Env, buyer: Address, l: MarketListing, amount: i128)
    : Result<CreditLedger.Ledger>
  {
    var r := CreditLedger.Transfer(ledger, env, CreditLedger.TransferArgs(l.seller, buyer, l.batchId, amount));
    if r.Ok? then r else Trap
  }

  // ---- Purchases ----

  /** Proceeds to the seller, then the fee to the treasury. */
  function PayLine(b: Balances, env: Env, buyer: Address, seller: Address, treasury: Address, cost: i128): Result<Balances> {
    var proceeds :- CheckedI128(cost - Fee(cost));
    var paid :- Pay(b, env, buyer, seller, proceeds);
    Pay(paid, env, buyer, treasury, Fee(cost))
  }

  function Purchase(w: World, env: Env, buyer: Address, id: string, amount: i128): Result<World> {
    var _ :- RequireAuth(env, buyer);
    var l :- CheckLine(w.market, id, amount);
    var settled :- SettleLine(l, amount);
    if w.market.admin.None? || w.market.treasury.None? then Trap else
    var usdc :- PayLine(w.usdc, env, buyer, l.seller, w.market.treasury.value, l.pricePerCredit * amount);
    var ledger :- Deliver(w.ledger, env, buyer, settled, amount);
    Ok(World(ledger, StoreLine(w.market, settled, amount), usdc))
  }

  /** `Purchase` without its two payments. */
  function PurchaseLine(t: Trade, env: Env, buyer: Address, id: string, amount: i128): Result<Trade> {
    var _ :- RequireAuth(env, buyer);
    var l :- CheckLine(t.market, id, amount);
    var settled :- SettleLine(l, amount);
    if t.market.admin.None? then Trap else
    var ledger :- Deliver(t.ledger, env, buyer, settled, amount);
    Ok(Trade(StoreLine(t.market, settled, amount), ledger))
  }

  /** The first `n` lines bought one by one. */
  function SequenceUpTo(t: Trade, env: Env, buyer: Address, ids: seq<string>, amounts: seq<i128>, n: nat): Result<Trade>
    requires n <= |ids| == |amounts|
  {
    if n == 0 then Ok(t)
    else
      var u :- SequenceUpTo(t, env, buyer, ids, amounts, n - 1);
      PurchaseLine(u, env, buyer, ids[n - 1], amounts[n - 1])
  }

  // ---- Bulk purchase: validate all, settle all, deliver all ----

  function ValidateUpTo(m: Market, ids: seq<string>, amounts: seq<i128>, n: nat): (r: Result<seq<MarketListing>>)
    requires n <= |ids| == |amounts|
    ensures r.Ok? ==> |r.value| == n
  {
    if n == 0 then Ok([])
    else
      var checked :- ValidateUpTo(m, ids, amounts, n - 1);
      var l :- CheckLine(m, ids[n - 1], amounts[n - 1]);
      Ok(checked + [l])
  }

  /** Settles the snapshots, whatever has been stored under their ids in the meantime. */
  function SettleUpTo(m: Market, snapshots: seq<MarketListing>, amounts: seq<i128>, n: nat)
    : (r: Result<(Market, seq<MarketListing>)>)
    requires n <= |snapshots| && n <= |amounts|
    ensures r.Ok? ==> |r.value.1| == n
  {
    if n == 0 then Ok((m, []))
    else
      var (stored, settled) :- SettleUpTo(m, snapshots, amounts, n - 1);
      var l :- SettleLine(snapshots[n - 1], amounts[n - 1]);
      Ok((StoreLine(stored, l, amounts[n - 1]), settled + [l]))
  }

  function DeliverUpTo(ledger: CreditLedger.Ledger, env: Env, buyer: Address, settled: seq<MarketListing>,
                       amounts: seq<i128>, n: nat): Result<CreditLedger.Ledger>
    requires n <= |settled| && n <= |amounts|
  {
    if n == 0 then Ok(ledger)
    else
      var l :- DeliverUpTo(ledger, env, buyer, settled, amounts, n - 1);
      Deliver(l, env, buyer, settled[n - 1], amounts[n - 1])
  }

  function BulkPurchase(t: Trade, env: Env, buyer: Address, ids: seq<string>, amounts: seq<i128>): Result<Trade> {
    var _ :- RequireAuth(env, buyer);
    var _ :- Need(|ids| == |amounts| && |ids| <= MAX_BATCH_SIZE, InvalidSerialRange);
    var snapshots :- ValidateUpTo(t.market, ids, amounts, |ids|);
    var (market, settled) :- SettleUpTo(t.market, snapshots, amounts, |ids|);
    if t.market.admin.None? then Trap else
    var ledger :- DeliverUpTo(t.ledger, env, buyer, settled, amounts, |ids|);
    Ok(Trade(market, ledger))
  }

  // ---- Queries ----

  predicate IsActive(l: MarketListing) {
    l.status == Active || l.status == PartiallyFilled
  }

  /** The stored listings of the indexed ids that satisfy `keep`, in index order. */
  function Filtered(listings: map<string, MarketListing>, ids: seq<string>, keep: MarketListing -> bool): seq<MarketListing> {
    if ids == [] then []
    else
      var init := Filtered(listings, ids[..|ids| - 1], keep);
      var id := ids[|ids| - 1];
      if id in listings && keep(listings[id]) then init + [listings[id]] else init
  }
}
