/**
 * Lamport balances of accounts, and the three ways the escrow program moves
 * them: a checked debit, a checked credit, and a system-program transfer.
 * Every successful move conserves the total supply.
 */
module Lamports {
  import opened Types
  import opened Addressing

  type Balances = map<Address, U64>

  /** The lamports held at `a`; an address the map does not mention holds none. */
  function Balance(m: Balances, a: Address): U64
  {
    if a in m then m[a] else 0
  }

  /** The lamports held by the addresses in `keys`, together. */
  ghost function Sum(m: Balances, keys: set<Address>): nat
    decreases keys
  {
    if keys == {} then 0
    else var a :| a in keys; Balance(m, a) + Sum(m, keys - {a})
  }

  /** The lamports held by all accounts. */
  ghost function Total(m: Balances): nat
  {
    Sum(m, m.Keys)
  }

  /** `Sum` may peel off any member of `keys`, not only the one it picks. */
  lemma {:induction false} SumRemove(m: Balances, keys: set<Address>, a: Address)
    requires a in keys
    ensures Sum(m, keys) == Balance(m, a) + Sum(m, keys - {a})
    decreases keys
  {
    var b :| b in keys && Sum(m, keys) == Balance(m, b) + Sum(m, keys - {b});
    if b != a {
      SumRemove(m, keys - {b}, a);
      SumRemove(m, keys - {a}, b);
      assert keys - {b} - {a} == keys - {a} - {b};
    }
  }

  /** Two balance maps that agree on `keys` have the same sum over `keys`. */
  lemma {:induction false} SumAgree(m1: Balances, m2: Balances, keys: set<Address>)
    requires forall a :: a in keys ==> Balance(m1, a) == Balance(m2, a)
    ensures Sum(m1, keys) == Sum(m2, keys)
    decreases keys
  {
    if keys != {} {
      var a :| a in keys;
      SumRemove(m1, keys, a);
      SumRemove(m2, keys, a);
      SumAgree(m1, m2, keys - {a});
    }
  }

  /** Setting one balance changes the total by exactly the difference. */
  lemma TotalUpdate(m: Balances, a: Address, v: U64)
    ensures Total(m[a := v]) + Balance(m, a) == Total(m) + v
  {
    var m' := m[a := v];
    SumRemove(m', m'.Keys, a);
    assert m'.Keys - {a} == m.Keys - {a};
    SumAgree(m', m, m.Keys - {a});
    if a in m {
      SumRemove(m, m.Keys, a);
    } else {
      assert m.Keys - {a} == m.Keys;
    }
  }

  /** No single account holds more than the total supply, nor do two together. */
  lemma BalancesWithinTotal(m: Balances, a: Address, b: Address)
    requires a != b
    ensures Balance(m, a) + Balance(m, b) <= Total(m)
  {
    var keys := m.Keys;
    if a in keys {
      SumRemove(m, keys, a);
      if b in keys {
        SumRemove(m, keys - {a}, b);
      }
    } else if b in keys {
      SumRemove(m, keys, b);
    }
  }

  /**
   * A u64 subtraction from the lamports of `a`: None when it would underflow.
   * On success the total falls by exactly `amount` and only `a` changes.
   */
  function Debit(m: Balances, a: Address, amount: U64): (r: Option<Balances>)
    ensures r.Some? <==> amount <= Balance(m, a)
    ensures r.Some? ==> Balance(r.value, a) == Balance(m, a) - amount
    ensures r.Some? ==> forall b :: b != a ==> Balance(r.value, b) == Balance(m, b)
    ensures r.Some? ==> Total(r.value) + amount == Total(m)
  {
    if amount <= Balance(m, a) then
      TotalUpdate(m, a, Balance(m, a) - amount);
      Some(m[a := Balance(m, a) - amount])
    else
      None
  }

  /**
   * A checked u64 addition to the lamports of `a`: None when it would overflow.
   * On success the total grows by exactly `amount` and only `a` changes.
   */
  function Credit(m: Balances, a: Address, amount: U64): (r: Option<Balances>)
    ensures r.Some? <==> Balance(m, a) + amount <= U64_MAX
    ensures r.Some? ==> Balance(r.value, a) == Balance(m, a) + amount
    ensures r.Some? ==> forall b :: b != a ==> Balance(r.value, b) == Balance(m, b)
    ensures r.Some? ==> Total(r.value) == Total(m) + amount
  {
    if Balance(m, a) + amount <= U64_MAX then
      TotalUpdate(m, a, Balance(m, a) + amount);
      Some(m[a := Balance(m, a) + amount])
    else
      None
  }

  /**
   * The system program's transfer between two distinct accounts: the payer
   * must hold `amount`, and the recipient's balance must not overflow.
   * A successful transfer conserves the total supply.
   */
  function Transfer(m: Balances, from: Address, to: Address, amount: U64): (r: Result<Balances>)
    requires from != to
    ensures r == Err(InsufficientFunds) <==> Balance(m, from) < amount
    ensures r == Err(ArithmeticOverflow) <==> amount <= Balance(m, from) && Balance(m, to) + amount > U64_MAX
    ensures r.Ok? <==> amount <= Balance(m, from) && Balance(m, to) + amount <= U64_MAX
    ensures r.Ok? ==> Balance(r.value, from) == Balance(m, from) - amount
    ensures r.Ok? ==> Balance(r.value, to) == Balance(m, to) + amount
    ensures r.Ok? ==> forall b :: b != from && b != to ==> Balance(r.value, b) == Balance(m, b)
    ensures r.Ok? ==> Total(r.value) == Total(m)
  {
    match Debit(m, from, amount)
    case None => Err(InsufficientFunds)
    case Some(debited) =>
      match Credit(debited, to, amount)
      case None => Err(ArithmeticOverflow)
      case Some(credited) => Ok(credited)
  }
}
