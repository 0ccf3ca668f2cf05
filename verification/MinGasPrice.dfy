/** The minimum gas price: validators move it in small steps, and a block can move it by no more
    than 16% (staking/staking.go:285-322, app/app.go:631-634). */
module MinGasPrice {
  import opened Words
  import opened StakingTypes
  import opened ActiveValidators
  import S = Staking

  const MAX_DELTA_RATE: nat := 16
  const DELTA_RATE: nat := 5
  const MAX_MIN_GAS_PRICE: nat := 500
  const MIN_MIN_GAS_PRICE: nat := 0

  type Price = x: nat | x < TWO64

  // The stored price and the price at the end of the last block.
  datatype Prices = Prices(price: Price, last: Price)

  datatype Outcome = NotValidator | TooSmall | TooBig | ExceedsBlockDelta | Saved

  predicate IsOperator(vals: seq<Validator>, sender: Address) {
    exists i :: 0 <= i < |Active(vals, S.MINIMUM_STAKING_AMOUNT)| &&
      (Active(vals, S.MINIMUM_STAKING_AMOUNT)[i].address == sender
       || Active(vals, S.MINIMUM_STAKING_AMOUNT)[i].rewardTo == sender)
  }

  // Products of 64-bit words wrap around.
  function Product(a: nat, price: Price): Price {
    a * price % TWO64
  }

  function Moved(price: Price, increase: bool): Price {
    var delta := Product(DELTA_RATE, price) / 100;
    if increase then (price + delta) % TWO64 else DeltaFits(price); price - delta
  }

  lemma DeltaFits(price: Price)
    ensures Product(DELTA_RATE, price) / 100 <= price
  {
    assert Product(DELTA_RATE, price) <= DELTA_RATE * price;
  }

  lemma PlainProduct(a: nat, price: Price)
    requires a <= 100 && price <= 105_000_000_000_000_000
    ensures Product(a, price) == a * price
  {
    MulMono(a, 100, price);
    BelowTwo64(a * price);
  }

  lemma BelowTwo64(x: nat)
    requires x < TWO64
    ensures x % TWO64 == x
  {
  }

  predicate ExceedsDelta(price: Price, last: Price) {
    (price > last && Product(100, price - last) > Product(MAX_DELTA_RATE, last))
    || (price < last && Product(100, last - price) > Product(MAX_DELTA_RATE, last))
  }

  function Adjust(p: Prices, operator: bool, increase: bool): (Prices, Outcome) {
    var price := Moved(p.price, increase);
    if !operator then (p, NotValidator)
    else if price < MIN_MIN_GAS_PRICE then (p, TooSmall)
    else if price > MAX_MIN_GAS_PRICE then (p, TooBig)
    else if ExceedsDelta(price, p.last) then (p, ExceedsBlockDelta)
    else (p.(price := price), Saved)
  }

  function RollOver(p: Prices): Prices {
    p.(last := p.price)
  }

  class PriceSlots {
    var price: Price
    var last: Price

    ghost function Stored(): Prices
      reads this
    {
      Prices(price, last)
    }

    constructor (start: Price)
      ensures Stored() == Prices(start, start)
    {
      price, last := start, start;
    }

    // Every active validator is looked at.
    method FindOperator(vals: seq<Validator>, sender: Address) returns (found: bool)
      ensures found <==> IsOperator(vals, sender)
    {
      var active := GetActiveValidators(vals, S.MINIMUM_STAKING_AMOUNT);
      found := false;
      for i := 0 to |active|
        invariant found <==> exists k :: 0 <= k < i && (active[k].address == sender || active[k].rewardTo == sender)
      {
        if active[i].address == sender || active[i].rewardTo == sender {
          found := true;
        }
      }
    }

    method HandleMinGasPrice(vals: seq<Validator>, sender: Address, increase: bool) returns (outcome: Outcome)
      modifies this
      ensures (Stored(), outcome) == Adjust(old(Stored()), IsOperator(vals, sender), increase)
    {
      var operator := FindOperator(vals, sender);
      if !operator {
        return NotValidator;
      }
      var mGP := price;
      if increase {
        mGP := (mGP + Product(DELTA_RATE, mGP) / 100) % TWO64;
      } else {
        DeltaFits(mGP);
        mGP := mGP - Product(DELTA_RATE, mGP) / 100;
      }
      if mGP < MIN_MIN_GAS_PRICE {
        return TooSmall;
      }
      if mGP > MAX_MIN_GAS_PRICE {
        return TooBig;
      }
      if (mGP > last && Product(100, mGP - last) > Product(MAX_DELTA_RATE, last))
         || (mGP < last && Product(100, last - mGP) > Product(MAX_DELTA_RATE, last)) {
        return ExceedsBlockDelta;
      }
      price := mGP;
      return Saved;
    }
  }

  // ----- One call -----

  // Small enough that no product of a call wraps around.
  ghost predicate Small(price: Price) {
    price <= 100_000_000_000_000_000
  }

  // Five percent, rounded down.
  ghost predicate IsDelta(delta: int, price: Price) {
    100 * delta <= 5 * price < 100 * (delta + 1)
  }

  lemma MovesBy(price: Price) returns (delta: nat)
    requires Small(price)
    ensures IsDelta(delta, price) && delta <= price
    ensures Moved(price, true) == price + delta && Moved(price, false) == price - delta
  {
    PlainProduct(5, price);
    delta := Product(5, price) / 100;
  }

  /** A call moves the price up or down by five percent, rounded down, and only by that: it is saved if
      and only if an operator sends it, the new price is at most 500, and that is within 16% of the
      price of the last block; otherwise nothing changes.  It is never too small. */
  lemma AdjustExactly(p: Prices, operator: bool, increase: bool) returns (price: Price)
    requires Small(p.price) && Small(p.last)
    ensures if increase then IsDelta(price - p.price, p.price) else IsDelta(p.price - price, p.price)
    ensures Adjust(p, operator, increase) ==
      if !operator then (p, NotValidator)
      else if price > 500 then (p, TooBig)
      else if 84 * p.last <= 100 * price <= 116 * p.last then (Prices(price, p.last), Saved)
      else (p, ExceedsBlockDelta)
  {
    var delta := MovesBy(p.price);
    price := Moved(p.price, increase);
    PlainProduct(16, p.last);
    PlainProduct(100, if price > p.last then price - p.last else p.last - price);
  }

  // ----- Runs -----

  datatype Move = Call(operator: bool, increase: bool) | NextBlock

  function Step(p: Prices, m: Move): Prices {
    match m
    case Call(operator, increase) => Adjust(p, operator, increase).0
    case NextBlock => RollOver(p)
  }

  function Run(p: Prices, moves: seq<Move>): Prices {
    if moves == [] then p else Step(Run(p, moves[..|moves| - 1]), moves[|moves| - 1])
  }

  function Blocks(moves: seq<Move>): nat {
    if moves == [] then 0 else Blocks(moves[..|moves| - 1]) + if moves[|moves| - 1].NextBlock? then 1 else 0
  }

  /** The price of the last block is the price at the moment a block ends, and calls leave it alone. */
  lemma {:induction false} LastIsPriceOfLastBlock(p: Prices, moves: seq<Move>, calls: seq<Move>)
    requires forall i :: 0 <= i < |calls| ==> calls[i].Call?
    ensures Run(p, moves + [NextBlock] + calls).last == Run(p, moves).price
    ensures Run(p, calls).last == p.last && Run(p, moves + [NextBlock]).price == Run(p, moves).price
  {
    var all := moves + [NextBlock];
    assert all[..|moves|] == moves;
    if calls == [] {
      assert all + calls == all;
    } else {
      var n := |calls| - 1;
      LastIsPriceOfLastBlock(p, moves, calls[..n]);
      assert (all + calls)[..|all| + n] == all + calls[..n];
    }
  }

  // In range, and within 16% of the last block's price.
  ghost predicate Bounded(p: Prices) {
    && MIN_MIN_GAS_PRICE <= p.price <= MAX_MIN_GAS_PRICE
    && 84 * p.last <= 100 * p.price <= 116 * p.last
  }

  lemma AdjustStaysBounded(p: Prices, operator: bool, increase: bool)
    requires Bounded(p)
    ensures Bounded(Adjust(p, operator, increase).0)
  {
    var price := Moved(p.price, increase);
    PlainProduct(DELTA_RATE, p.price);
    PlainProduct(MAX_DELTA_RATE, p.last);
    if price <= MAX_MIN_GAS_PRICE {
      PlainProduct(100, if price > p.last then price - p.last else p.last - price);
    }
  }

  lemma {:induction false} RunsStayBounded(p: Prices, moves: seq<Move>)
    requires Bounded(p)
    ensures Bounded(Run(p, moves))
  {
    if moves != [] {
      var init, m := moves[..|moves| - 1], moves[|moves| - 1];
      RunsStayBounded(p, init);
      if m.Call? {
        AdjustStaysBounded(Run(p, init), m.operator, m.increase);
      }
    }
  }

  function Pow(b: nat, k: nat): nat {
    if k == 0 then 1 else b * Pow(b, k - 1)
  }

  // x is start after k factors between 84/100 and 116/100.
  ghost predicate Drifted(start: nat, x: nat, k: nat) {
    start * Pow(84, k) <= x * Pow(100, k) && x * Pow(100, k) <= start * Pow(116, k)
  }

  lemma DriftStep(start: nat, last: nat, price: nat, k: nat)
    requires Drifted(start, last, k) && 84 * last <= 100 * price <= 116 * last
    ensures Drifted(start, price, k + 1)
  {
    Chain(start * Pow(84, k), last * Pow(100, k), start * Pow(116, k), last, price, Pow(100, k));
    assert Pow(84, k + 1) == 84 * Pow(84, k) && Pow(116, k + 1) == 116 * Pow(116, k);
    assert Pow(100, k + 1) == 100 * Pow(100, k);
    Regroup(start, 84, Pow(84, k));
    Regroup(start, 116, Pow(116, k));
    Regroup(price, 100, Pow(100, k));
  }

  lemma Regroup(a: nat, b: nat, c: nat)
    ensures a * (b * c) == b * (a * c)
  {
  }

  lemma Chain(lo: nat, mid: nat, hi: nat, last: nat, price: nat, c: nat)
    requires lo <= mid <= hi && mid == last * c && 84 * last <= 100 * price <= 116 * last
    ensures 84 * lo <= 100 * (price * c) <= 116 * hi
  {
    Scale(84 * last, 100 * price, c);
    Scale(100 * price, 116 * last, c);
    assert 84 * last * c == 84 * (last * c);
    assert 116 * last * c == 116 * (last * c);
    assert 100 * price * c == 100 * (price * c);
  }

  lemma Scale(a: nat, b: nat, c: nat)
    requires a <= b
    ensures a * c <= b * c
  {
  }

  /** After k blocks the price at the last block's end is within a factor of 84^k/100^k and
      116^k/100^k of the start, whatever calls were made in between. */
  lemma {:induction false} PriceDrift(start: Price, moves: seq<Move>)
    requires MIN_MIN_GAS_PRICE <= start <= MAX_MIN_GAS_PRICE
    ensures Drifted(start, Run(Prices(start, start), moves).last, Blocks(moves))
    ensures Drifted(start, Run(Prices(start, start), moves).price, Blocks(moves) + 1)
  {
    var p := Run(Prices(start, start), moves);
    RunsStayBounded(Prices(start, start), moves);
    if moves == [] {
      DriftStep(start, start, start, 0);
    } else {
      PriceDrift(start, moves[..|moves| - 1]);
      DriftStep(start, p.last, p.price, Blocks(moves));
    }
  }
}
