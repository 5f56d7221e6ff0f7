/**
  The front end's cart: its updates and totals, against what the contract charges.
 */
module Cart {
  import opened Platform
  import Marketplace

  /** The listing is the snapshot taken when it was first added. */
  datatype Listing = Listing(listingId: string, pricePerCredit: int)
  datatype CartItem = CartItem(listing: Listing, amount: int)

  /** The first place that holds the listing id, or -1. */
  function FindIndex(items: seq<CartItem>, id: string): (idx: int)
    ensures -1 <= idx < |items|
    ensures idx >= 0 ==> items[idx].listing.listingId == id
    ensures forall i :: 0 <= i < (if idx < 0 then |items| else idx) ==> items[i].listing.listingId != id
  {
    if items == [] then -1
    else if items[0].listing.listingId == id then 0
    else
      var rest := FindIndex(items[1..], id);
      assert forall i :: 0 < i < |items| ==> items[i] == items[1..][i - 1];
      if rest < 0 then -1 else rest + 1
  }

  function AddItem(items: seq<CartItem>, listing: Listing, amount: int): seq<CartItem> {
    var idx := FindIndex(items, listing.listingId);
    if idx >= 0 then
      seq(|items|, i requires 0 <= i < |items| => if i == idx then items[i].(amount := amount) else items[i])
    else items + [CartItem(listing, amount)]
  }

  function RemoveItem(items: seq<CartItem>, id: string): seq<CartItem> {
    if items == [] then []
    else
      var n := |items| - 1;
      RemoveItem(items[..n], id) + if items[n].listing.listingId != id then [items[n]] else []
  }

  predicate UniqueIds(items: seq<CartItem>) {
    forall i, j :: 0 <= i < j < |items| ==> items[i].listing.listingId != items[j].listing.listingId
  }

  /** The cart as a map from listing id to its item. */
  function AmountFor(items: seq<CartItem>, id: string): Option<int> {
    var idx := FindIndex(items, id);
    if idx < 0 then None else Some(items[idx].amount)
  }

  /** Adding keeps ids unique and sets the amount of that listing alone. */
  lemma AddItemExact(items: seq<CartItem>, listing: Listing, amount: int, id: string)
    requires UniqueIds(items)
    ensures UniqueIds(AddItem(items, listing, amount))
    ensures AmountFor(AddItem(items, listing, amount), id) ==
            if id == listing.listingId then Some(amount) else AmountFor(items, id)
  {
    var added := AddItem(items, listing, amount);
    var was, now := FindIndex(items, id), FindIndex(added, id);
    if id != listing.listingId {
      assert was >= 0 ==> added[was].listing.listingId == id;
      assert 0 <= now < |items| ==> items[now].listing.listingId == id;
    } else {
      var at := if was >= 0 then was else |items|;
      assert added[at].listing.listingId == id;
    }
  }

  /** An item in the cart keeps its place and its listing snapshot and gets the new amount; another is put at the end. */
  lemma AddItemKeepsPlaces(items: seq<CartItem>, listing: Listing, amount: int)
    requires UniqueIds(items)
    ensures forall i :: 0 <= i < |items| && items[i].listing.listingId == listing.listingId ==>
              AddItem(items, listing, amount) == items[i := CartItem(items[i].listing, amount)]
    ensures (forall i :: 0 <= i < |items| ==> items[i].listing.listingId != listing.listingId) ==>
              AddItem(items, listing, amount) == items + [CartItem(listing, amount)]
  {
  }

  lemma {:induction false} RemoveAbsent(items: seq<CartItem>, id: string)
    requires forall i :: 0 <= i < |items| ==> items[i].listing.listingId != id
    ensures RemoveItem(items, id) == items
  {
    if items != [] {
      var n := |items| - 1;
      RemoveAbsent(items[..n], id);
      assert items == items[..n] + [items[n]];
    }
  }

  /** Removing takes out one place and keeps the order of the others. */
  lemma {:induction false} RemoveItemKeepsOrder(items: seq<CartItem>, id: string, i: nat)
    requires UniqueIds(items) && i < |items| && items[i].listing.listingId == id
    ensures RemoveItem(items, id) == items[..i] + items[i + 1..]
  {
    var n := |items| - 1;
    if i == n {
      RemoveAbsent(items[..n], id);
      assert items[i + 1..] == [];
    } else {
      RemoveItemKeepsOrder(items[..n], id, i);
      assert items[..n][..i] == items[..i];
      assert items[i + 1..] == items[..n][i + 1..] + [items[n]];
    }
  }

  lemma {:induction false} RemovedFrom(items: seq<CartItem>, id: string)
    requires UniqueIds(items)
    ensures UniqueIds(RemoveItem(items, id))
    ensures forall item :: item in RemoveItem(items, id) <==> item in items && item.listing.listingId != id
  {
    if items != [] {
      var n := |items| - 1;
      RemovedFrom(items[..n], id);
      var kept := RemoveItem(items[..n], id);
      assert forall i :: 0 <= i < |kept| ==> kept[i] in kept;
      assert items == items[..n] + [items[n]];
    }
  }

  /** Removing keeps ids unique and drops that listing alone. */
  lemma RemoveItemExact(items: seq<CartItem>, id: string)
    requires UniqueIds(items)
    ensures UniqueIds(RemoveItem(items, id)) && AmountFor(RemoveItem(items, id), id) == None
    ensures forall item :: item in RemoveItem(items, id) <==> item in items && item.listing.listingId != id
  {
    RemovedFrom(items, id);
    var kept := RemoveItem(items, id);
    assert forall i :: 0 <= i < |kept| ==> kept[i] in kept;
  }

  // ---- Totals ----

  function LineCost(item: CartItem): int {
    item.listing.pricePerCredit * item.amount
  }

  function Subtotal(items: seq<CartItem>): int {
    if items == [] then 0 else Subtotal(items[..|items| - 1]) + LineCost(items[|items| - 1])
  }

  function ProtocolFee(items: seq<CartItem>): int {
    TruncDiv(Subtotal(items), 100)
  }

  function Total(items: seq<CartItem>): int {
    Subtotal(items) + ProtocolFee(items)
  }

  lemma {:induction false} SubtotalSet(items: seq<CartItem>, i: nat, item: CartItem)
    requires i < |items|
    ensures Subtotal(items[i := item]) == Subtotal(items) - LineCost(items[i]) + LineCost(item)
  {
    var n := |items| - 1;
    var changed := items[i := item];
    if i == n {
      assert changed[..n] == items[..n];
    } else {
      SubtotalSet(items[..n], i, item);
      assert changed[..n] == items[..n][i := item];
    }
  }

  /** Adding an item changes the subtotal by its price, as remembered, times the change of its amount. */
  lemma AddItemCosts(items: seq<CartItem>, listing: Listing, amount: int)
    requires UniqueIds(items)
    ensures Subtotal([]) == 0
    ensures forall i :: 0 <= i < |items| && items[i].listing.listingId == listing.listingId ==>
              Subtotal(AddItem(items, listing, amount)) ==
              Subtotal(items) - items[i].listing.pricePerCredit * items[i].amount + items[i].listing.pricePerCredit * amount
    ensures (forall i :: 0 <= i < |items| ==> items[i].listing.listingId != listing.listingId) ==>
              Subtotal(AddItem(items, listing, amount)) == Subtotal(items) + listing.pricePerCredit * amount
  {
    AddItemKeepsPlaces(items, listing, amount);
    hide AddItem;
    forall i | 0 <= i < |items| && items[i].listing.listingId == listing.listingId
      ensures Subtotal(AddItem(items, listing, amount)) ==
              Subtotal(items) - items[i].listing.pricePerCredit * items[i].amount + items[i].listing.pricePerCredit * amount
    {
      SubtotalSet(items, i, CartItem(items[i].listing, amount));
    }
    var added := items + [CartItem(listing, amount)];
    assert added[..|items|] == items;
  }

  /** The fees the contract takes, line by line. */
  function ContractFees(items: seq<CartItem>): int {
    if items == [] then 0
    else ContractFees(items[..|items| - 1]) + Marketplace.Fee(LineCost(items[|items| - 1]))
  }

  /** What the contract debits the buyer, line by line: proceeds and fee. */
  function ContractDebit(items: seq<CartItem>): int {
    if items == [] then 0
    else
      var cost := LineCost(items[|items| - 1]);
      ContractDebit(items[..|items| - 1]) + (cost - Marketplace.Fee(cost)) + Marketplace.Fee(cost)
  }

  lemma {:induction false} FeeRemainders(items: seq<CartItem>)
    requires forall i :: 0 <= i < |items| ==> LineCost(items[i]) >= 0
    ensures Subtotal(items) >= 0
    ensures 0 <= Subtotal(items) - 100 * ContractFees(items) <= 99 * |items|
  {
    if items != [] {
      FeeRemainders(items[..|items| - 1]);
    }
  }

  /** The cart's fee is at least the contract's and exceeds it by at most n - 1 stroops. */
  lemma FeeGap(items: seq<CartItem>)
    requires items != [] && forall i :: 0 <= i < |items| ==> LineCost(items[i]) >= 0
    ensures ContractFees(items) <= ProtocolFee(items) <= ContractFees(items) + |items| - 1
  {
    FeeRemainders(items);
  }

  lemma {:induction false} DebitIsSubtotal(items: seq<CartItem>)
    ensures ContractDebit(items) == Subtotal(items)
  {
    if items != [] {
      DebitIsSubtotal(items[..|items| - 1]);
    }
  }

  /** The contract takes its fee out of the price: the cart's total is what the buyer pays only while its fee is 0. */
  lemma TotalIsDebitExactly(items: seq<CartItem>)
    requires forall i :: 0 <= i < |items| ==> LineCost(items[i]) >= 0
    ensures Total(items) == ContractDebit(items) <==> Subtotal(items) < 100
    ensures Total(items) - ContractDebit(items) == ProtocolFee(items)
  {
    DebitIsSubtotal(items);
    FeeRemainders(items);
  }
}
