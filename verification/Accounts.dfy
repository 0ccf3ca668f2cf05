/** Account balances: lookups, the total supply, and lists of payments. */
module Accounts {
  import opened Words

  type Balances = map<Address, Word>

  datatype Payment = Payment(to: Address, amount: Word)

  // A missing account has balance zero (ZeroAccountInfo).
  function BalanceOf(m: Balances, a: Address): Word {
    if a in m then m[a] else 0
  }

  function Credited(m: Balances, a: Address, amount: Word): Balances {
    m[a := Add(BalanceOf(m, a), amount)]
  }

  // Remove `amount` in total from b, whatever the order of the single subtractions.
  function Minus(b: Word, amount: nat): (r: Word)
    ensures amount <= b ==> r == b - amount
  {
    (b - amount) % WORD
  }

  lemma MinusStep(b: Word, amount: nat, more: Word)
    ensures Sub(Minus(b, amount), more) == Minus(b, amount + more)
  {
    var r := Minus(b, amount);
    var q := (b - amount) / WORD;
    assert b - amount == q * WORD + r;
    if more <= r {
      assert b - (amount + more) == q * WORD + (r - more);
    } else {
      assert b - (amount + more) == (q - 1) * WORD + (r - more + WORD);
    }
  }

  lemma AddStep(a: nat, b: nat)
    ensures (a % WORD + b) % WORD == (a + b) % WORD
  {
  }

  // ----- Payments -----

  function PayAll(m: Balances, ps: seq<Payment>): Balances {
    if ps == [] then m
    else Credited(PayAll(m, ps[..|ps| - 1]), ps[|ps| - 1].to, ps[|ps| - 1].amount)
  }

  function PaidTo(ps: seq<Payment>, a: Address): nat {
    if ps == [] then 0
    else PaidTo(ps[..|ps| - 1], a) + if ps[|ps| - 1].to == a then ps[|ps| - 1].amount else 0
  }

  function Total(ps: seq<Payment>): nat {
    if ps == [] then 0 else Total(ps[..|ps| - 1]) + ps[|ps| - 1].amount
  }

  function Payees(ps: seq<Payment>): set<Address> {
    set p | p in ps :: p.to
  }

  lemma PayeesStep(ps: seq<Payment>)
    requires ps != []
    ensures Payees(ps) == Payees(ps[..|ps| - 1]) + {ps[|ps| - 1].to}
  {
    assert ps == ps[..|ps| - 1] + [ps[|ps| - 1]];
  }

  lemma {:induction false} NotPaid(ps: seq<Payment>, a: Address)
    requires a !in Payees(ps)
    ensures PaidTo(ps, a) == 0
  {
    if ps != [] {
      PayeesStep(ps);
      NotPaid(ps[..|ps| - 1], a);
    }
  }

  /** The balances after a list of payments depend only on what each account is paid in
      total, so any order and any grouping of the payments gives the same balances. */
  lemma {:induction false} PayAllPointwise(m: Balances, ps: seq<Payment>)
    ensures PayAll(m, ps).Keys == m.Keys + Payees(ps)
    ensures forall a: Address :: BalanceOf(PayAll(m, ps), a) == (BalanceOf(m, a) + PaidTo(ps, a)) % WORD
  {
    if ps != [] {
      var init, last := ps[..|ps| - 1], ps[|ps| - 1];
      PayAllPointwise(m, init);
      PayeesStep(ps);
      var m' := PayAll(m, init);
      forall a: Address
        ensures BalanceOf(PayAll(m, ps), a) == (BalanceOf(m, a) + PaidTo(ps, a)) % WORD
      {
        if a == last.to {
          AddStep(BalanceOf(m, a) + PaidTo(init, a), last.amount);
        }
      }
    }
  }

  lemma {:induction false} PaidToConcat(p: seq<Payment>, q: seq<Payment>, a: Address)
    ensures PaidTo(p + q, a) == PaidTo(p, a) + PaidTo(q, a)
    ensures Total(p + q) == Total(p) + Total(q)
  {
    if q == [] {
      assert p + q == p;
    } else {
      assert (p + q)[..|p + q| - 1] == p + q[..|q| - 1];
      PaidToConcat(p, q[..|q| - 1], a);
    }
  }

  // ----- Supply -----

  ghost function Supply(m: Balances): nat {
    if m == map[] then 0
    else
      var a :| a in m;
      m[a] + Supply(m - {a})
  }

  lemma {:induction false} SupplyWithout(m: Balances, a: Address)
    requires a in m
    ensures Supply(m) == m[a] + Supply(m - {a})
    decreases |m|
  {
    var b :| b in m && Supply(m) == m[b] + Supply(m - {b});
    if b != a {
      SupplyWithout(m - {b}, a);
      SupplyWithout(m - {a}, b);
      assert m - {b} - {a} == m - {a} - {b};
    }
  }

  lemma SupplyUpdated(m: Balances, a: Address, v: Word)
    ensures Supply(m[a := v]) == Supply(m) - BalanceOf(m, a) + v
  {
    var m' := m[a := v];
    SupplyWithout(m', a);
    if a in m {
      SupplyWithout(m, a);
      assert m' - {a} == m - {a};
    } else {
      assert m' - {a} == m;
    }
  }

  lemma BalanceWithinSupply(m: Balances, a: Address)
    ensures BalanceOf(m, a) <= Supply(m)
  {
    if a in m {
      SupplyWithout(m, a);
    }
  }

  lemma TwoBalancesWithinSupply(m: Balances, a: Address, b: Address)
    requires a != b
    ensures BalanceOf(m, a) + BalanceOf(m, b) <= Supply(m)
  {
    if a in m {
      SupplyWithout(m, a);
      BalanceWithinSupply(m - {a}, b);
    } else {
      BalanceWithinSupply(m, b);
    }
  }

  lemma {:induction false} PayAllSupply(m: Balances, ps: seq<Payment>)
    requires Supply(m) + Total(ps) < WORD
    ensures Supply(PayAll(m, ps)) == Supply(m) + Total(ps)
  {
    if ps != [] {
      var init, last := ps[..|ps| - 1], ps[|ps| - 1];
      PayAllSupply(m, init);
      BalanceWithinSupply(PayAll(m, init), last.to);
      SupplyUpdated(PayAll(m, init), last.to, Add(BalanceOf(PayAll(m, init), last.to), last.amount));
    }
  }
}
