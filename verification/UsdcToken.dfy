/**
  The USDC token the marketplace pays with: balances, one transfer operation and
  the total supply.  A failing token call traps its caller.
 */
module UsdcToken {
  import opened Platform

  type Balances = map<Address, i128>

  function BalanceOf(b: Balances, who: Address): i128 {
    Lookup(b, who, 0)
  }

  function Pay(b: Balances, env: Env, from: Address, to: Address, amount: i128): Result<Balances> {
    var _ :- RequireAuth(env, from);
    if amount < 0 || BalanceOf(b, from) < amount || !FitsI128(BalanceOf(b, from) - amount) then Trap else
    var debited := b[from := BalanceOf(b, from) - amount];
    if !FitsI128(BalanceOf(debited, to) + amount) then Trap else
    Ok(debited[to := BalanceOf(debited, to) + amount])
  }

  ghost function Supply(b: Balances): int
    decreases |b|
  {
    if b == map[] then 0
    else
      var who :| who in b;
      b[who] + Supply(b - {who})
  }

  /** The supply does not depend on the order of summation. */
  lemma {:induction false} SupplySplit(b: Balances, who: Address)
    requires who in b
    ensures Supply(b) == b[who] + Supply(b - {who})
    decreases |b|
  {
    var first :| first in b && Supply(b) == b[first] + Supply(b - {first});
    if first != who {
      SupplySplit(b - {first}, who);
      SupplySplit(b - {who}, first);
      assert b - {first} - {who} == b - {who} - {first};
    }
  }

  lemma SupplySet(b: Balances, who: Address, v: i128)
    ensures Supply(b[who := v]) == Supply(b) - BalanceOf(b, who) + v
  {
    var c := b[who := v];
    SupplySplit(c, who);
    if who in b {
      SupplySplit(b, who);
      assert c - {who} == b - {who};
    } else {
      assert c - {who} == b;
    }
  }

  /** A transfer moves `amount` from one account to the other and creates or destroys nothing. */
  lemma PayConserves(b: Balances, env: Env, from: Address, to: Address, amount: i128)
    requires Pay(b, env, from, to, amount).Ok?
    ensures var c := Pay(b, env, from, to, amount).value;
            && Supply(c) == Supply(b)
            && forall a :: BalanceOf(c, a) ==
                           BalanceOf(b, a) - (if a == from then amount else 0) + (if a == to then amount else 0)
  {
    var debited := b[from := BalanceOf(b, from) - amount];
    SupplySet(b, from, BalanceOf(b, from) - amount);
    SupplySet(debited, to, BalanceOf(debited, to) + amount);
  }

  class Token {
    var balances: Balances

    constructor (initial: Balances)
      ensures balances == initial
    {
      balances := initial;
    }

    method Transfer(env: Env, from: Address, to: Address, amount: i128) returns (r: Result<()>)
      modifies this
      ensures r == Pay(old(balances), env, from, to, amount).Outcome()
      ensures balances == Commit(old(balances), Pay(old(balances), env, from, to, amount))
    {
      if from !in env.auth || amount < 0 { return Trap; }
      var available := if from in balances then balances[from] else 0;
      if available < amount || !FitsI128(available - amount) { return Trap; }
      var debited := balances[from := available - amount];
      var held := if to in debited then debited[to] else 0;
      if !FitsI128(held + amount) { return Trap; }
      balances := debited[to := held + amount];
      return Ok(());
    }
  }
}
