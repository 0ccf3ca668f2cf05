/** The arithmetic of DistributeFee: how a block's fee is cut into the proposer's base fee,
    its extra fee, the voters' shares and the remainder (staking/staking.go:443-476). */
module FeeSplit {
  import opened Words
  import opened StakingTypes

  const BASE_PROPOSER_PERCENTAGE: Word := 15
  const EXTRA_PROPOSER_PERCENTAGE: Word := 15

  datatype Split = Split(base: Word, extra: Word, shared: Word)

  function BaseFee(fee: Word): (r: Word)
    ensures r <= fee
  {
    var r := Div(Mul(fee, BASE_PROPOSER_PERCENTAGE), 100);
    BaseFeeBound(fee);
    r
  }

  lemma BaseFeeBound(fee: Word)
    ensures Div(Mul(fee, BASE_PROPOSER_PERCENTAGE), 100) <= fee
  {
    MulIs(fee, BASE_PROPOSER_PERCENTAGE);
    DivIs(Mul(fee, BASE_PROPOSER_PERCENTAGE), 100);
  }

  function ExtraFee(rest: Word, voted: int, total: int): Word {
    Div(Mul(Mul(rest, EXTRA_PROPOSER_PERCENTAGE), Uint64(voted)), Uint64(100 * total))
  }

  function SplitFee(fee: Word, voted: int, total: int): Split {
    var base := BaseFee(fee);
    var rest := Sub(fee, base);
    var extra := ExtraFee(rest, voted, total);
    Split(base, extra, Sub(rest, extra))
  }

  function Share(shared: Word, voted: int, power: int): Word {
    Div(Mul(shared, Uint64(power)), Uint64(voted))
  }

  function PowerSum(vals: seq<Validator>): int {
    if vals == [] then 0 else PowerSum(vals[..|vals| - 1]) + vals[|vals| - 1].votingPower
  }

  function ShareSum(shared: Word, voted: int, vals: seq<Validator>): nat {
    if vals == [] then 0
    else ShareSum(shared, voted, vals[..|vals| - 1]) + Share(shared, voted, vals[|vals| - 1].votingPower)
  }

  // remainedFee after the shares of `vals` have been subtracted one by one.
  function Remainder(shared: Word, voted: int, vals: seq<Validator>): Word {
    if vals == [] then shared
    else Sub(Remainder(shared, voted, vals[..|vals| - 1]), Share(shared, voted, vals[|vals| - 1].votingPower))
  }

  // ----- The extra fee -----

  lemma MulStrict(a: nat, b: nat, c: nat)
    requires a < b && c > 0
    ensures a * c < b * c
  {
    assert b * c == a * c + (b - a) * c;
    assert (b - a) * c > 0;
  }

  // The quotient of a division is at most f exactly when the dividend is below (f + 1) * d.
  lemma QuotientAtMost(a: nat, d: nat, f: nat)
    requires d > 0
    ensures a / d <= f <==> a < (f + 1) * d
  {
    var q, r := a / d, a % d;
    assert a == q * d + r;
    if q <= f {
      MulMono(q + 1, f + 1, d);
      assert (q + 1) * d == q * d + d;
    } else {
      MulMono(f + 1, q, d);
    }
  }

  // The extra fee does not exceed what is left of the fee, said without a division.  The product
  // is the code's, which wraps around at 2^256, and so is the divisor, which wraps at 2^64.
  ghost predicate ExtraFits(fee: Word, voted: int, total: int) {
    var rest, divisor := fee - BaseFee(fee), Uint64(100 * total);
    divisor == 0 || Mul(Mul(rest, EXTRA_PROPOSER_PERCENTAGE), Uint64(voted)) < (rest + 1) * divisor
  }

  /** The subtraction of the extra fee wraps around exactly when the voters hold too much
      power compared to the validators on duty; retiring voters are in the first sum only. */
  lemma ExtraFeeFitsExactly(fee: Word, voted: int, total: int)
    ensures ExtraFee(fee - BaseFee(fee), voted, total) <= fee - BaseFee(fee) <==> ExtraFits(fee, voted, total)
  {
    var rest, divisor := fee - BaseFee(fee), Uint64(100 * total);
    if divisor != 0 {
      DivIs(Mul(Mul(rest, EXTRA_PROPOSER_PERCENTAGE), Uint64(voted)), divisor);
      QuotientAtMost(Mul(Mul(rest, EXTRA_PROPOSER_PERCENTAGE), Uint64(voted)), divisor, rest);
    }
  }

  // A wrapped product is never more than the product itself.
  lemma ExtraProductAtMost(rest: Word, voted: nat)
    requires voted < TWO64
    ensures Mul(Mul(rest, EXTRA_PROPOSER_PERCENTAGE), Uint64(voted)) <= rest * 15 * voted
  {
    MulAtMost(rest, EXTRA_PROPOSER_PERCENTAGE);
    MulAtMost(Mul(rest, EXTRA_PROPOSER_PERCENTAGE), voted);
    MulMono(Mul(rest, EXTRA_PROPOSER_PERCENTAGE), rest * 15, voted);
  }

  // With 15 * voted <= 100 * total no fee at all makes it wrap around.
  lemma ExtraFitsWhenPowerBounded(fee: Word, voted: nat, total: nat)
    requires 15 * voted <= 100 * total < TWO64
    ensures ExtraFits(fee, voted, total)
  {
    var rest := fee - BaseFee(fee);
    ExtraProductAtMost(rest, voted);
    MulMono(15 * voted, 100 * total, rest);
    assert rest * 15 * voted == 15 * voted * rest;
    assert (rest + 1) * (100 * total) == 100 * total * rest + 100 * total;
  }

  ghost predicate PowersNonNegative(vals: seq<Validator>) {
    forall i :: 0 <= i < |vals| ==> vals[i].votingPower >= 0
  }

  lemma {:induction false} PowerSumNonNegative(vals: seq<Validator>)
    requires PowersNonNegative(vals)
    ensures PowerSum(vals) >= 0
    ensures forall i :: 0 <= i < |vals| ==> vals[i].votingPower <= PowerSum(vals)
  {
    if vals != [] {
      PowerSumNonNegative(vals[..|vals| - 1]);
    }
  }

  lemma PowerSumAppend(vals: seq<Validator>, v: Validator)
    ensures PowerSum(vals + [v]) == PowerSum(vals) + v.votingPower
  {
    assert (vals + [v])[..|vals|] == vals;
  }

  // Shares are rounded down; without overflow by less than one unit.
  lemma ShareBounds(shared: Word, voted: nat, power: nat)
    requires 0 < voted < TWO64 && power < TWO64
    ensures Share(shared, voted, power) * voted <= shared * power
    ensures shared * power < WORD ==> shared * power <= Share(shared, voted, power) * voted + (voted - 1)
  {
    var a := Mul(shared, power);
    MulIs(shared, power);
    DivIs(a, voted);
    MulAtMost(shared, power);
    assert a == a / voted * voted + a % voted;
  }

  lemma AtMostStep(s: nat, t: nat, voted: nat, shared: nat, q: nat, p: nat)
    requires s * voted <= shared * q && t * voted <= shared * p
    ensures (s + t) * voted <= shared * (q + p)
  {
    assert (s + t) * voted == s * voted + t * voted;
    assert shared * (q + p) == shared * q + shared * p;
  }

  lemma AtLeastStep(s: nat, t: nat, voted: nat, shared: nat, q: nat, p: nat, n: nat)
    requires voted > 0
    requires shared * q <= s * voted + n * (voted - 1)
    requires shared * p <= t * voted + (voted - 1)
    ensures shared * (q + p) <= (s + t) * voted + (n + 1) * (voted - 1)
  {
    assert (s + t) * voted == s * voted + t * voted;
    assert shared * (q + p) == shared * q + shared * p;
    assert (n + 1) * (voted - 1) == n * (voted - 1) + (voted - 1);
  }

  lemma {:induction false} ShareSumAtMost(shared: Word, voted: nat, vals: seq<Validator>)
    requires 0 < voted < TWO64 && PowersNonNegative(vals) && PowerSum(vals) <= voted
    ensures ShareSum(shared, voted, vals) * voted <= shared * PowerSum(vals)
  {
    if vals != [] {
      var init, p := vals[..|vals| - 1], vals[|vals| - 1].votingPower;
      PowerSumNonNegative(init);
      PowerSumNonNegative(vals);
      ShareSumAtMost(shared, voted, init);
      ShareBounds(shared, voted, p);
      AtMostStep(ShareSum(shared, voted, init), Share(shared, voted, p), voted, shared, PowerSum(init), p);
    }
  }

  lemma {:induction false} ShareSumAtLeast(shared: Word, voted: nat, vals: seq<Validator>)
    requires 0 < voted < TWO64 && shared * voted < WORD && PowersNonNegative(vals) && PowerSum(vals) <= voted
    ensures shared * PowerSum(vals) <= ShareSum(shared, voted, vals) * voted + |vals| * (voted - 1)
  {
    if vals != [] {
      var init, p := vals[..|vals| - 1], vals[|vals| - 1].votingPower;
      PowerSumNonNegative(init);
      PowerSumNonNegative(vals);
      ShareSumAtLeast(shared, voted, init);
      MulMono(p, voted, shared);
      ShareBounds(shared, voted, p);
      AtLeastStep(ShareSum(shared, voted, init), Share(shared, voted, p), voted, shared, PowerSum(init), p, |init|);
    }
  }

  lemma {:induction false} NoVotesNoShares(shared: Word, vals: seq<Validator>)
    ensures ShareSum(shared, 0, vals) == 0
  {
    if vals != [] {
      NoVotesNoShares(shared, vals[..|vals| - 1]);
    }
  }

  lemma QuotientBound(s: nat, shared: nat, voted: nat, p: nat)
    requires p <= voted && 0 < voted && s * voted <= shared * p
    ensures s <= shared
  {
    MulMono(p, voted, shared);
    if s > shared {
      MulStrict(shared, s, voted);
    }
  }

  /** Whatever the fee, the shares never exceed what is shared, so no subtraction from the
      remainder wraps: a product that overflows only makes a share smaller. */
  lemma SharesWithinShared(shared: Word, voted: nat, vals: seq<Validator>)
    requires voted < TWO64 && PowersNonNegative(vals) && PowerSum(vals) <= voted
    ensures ShareSum(shared, voted, vals) <= shared
  {
    if voted == 0 {
      NoVotesNoShares(shared, vals);
    } else {
      ShareSumAtMost(shared, voted, vals);
      PowerSumNonNegative(vals);
      QuotientBound(ShareSum(shared, voted, vals), shared, voted, PowerSum(vals));
    }
  }

  lemma {:induction false} RemainderIsDifference(shared: Word, voted: int, vals: seq<Validator>)
    requires ShareSum(shared, voted, vals) <= shared
    ensures Remainder(shared, voted, vals) == shared - ShareSum(shared, voted, vals)
  {
    if vals != [] {
      RemainderIsDifference(shared, voted, vals[..|vals| - 1]);
    }
  }

  ghost predicate AtLeastProportional(left: int, shared: int, own: int, voted: int) {
    shared * own <= left * voted
  }

  ghost predicate NearProportional(left: int, shared: int, own: int, voted: int, others: int) {
    left * voted <= shared * own + others * (voted - 1)
  }

  lemma Complement(shared: nat, s: nat, voted: nat, p: nat)
    requires s <= shared && p <= voted
    ensures (shared - s) * voted - shared * (voted - p) == shared * p - s * voted
  {
    assert (shared - s) * voted == shared * voted - s * voted;
    assert shared * (voted - p) == shared * voted - shared * p;
  }

  /** What is left for the proposer is at least its proportional share of the shared fee, and as
      long as no share overflows at most one unit (voted - 1 parts of it) more for every other
      voter. */
  lemma RemainderNearProportional(shared: Word, voted: nat, others: seq<Validator>)
    requires 0 < voted < TWO64 && PowersNonNegative(others) && PowerSum(others) <= voted
    ensures AtLeastProportional(Remainder(shared, voted, others), shared, voted - PowerSum(others), voted)
    ensures shared * voted < WORD ==>
      NearProportional(Remainder(shared, voted, others), shared, voted - PowerSum(others), voted, |others|)
  {
    SharesWithinShared(shared, voted, others);
    RemainderIsDifference(shared, voted, others);
    ShareSumAtMost(shared, voted, others);
    PowerSumNonNegative(others);
    Complement(shared, ShareSum(shared, voted, others), voted, PowerSum(others));
    if shared * voted < WORD {
      ShareSumAtLeast(shared, voted, others);
    }
  }

  // ----- The parts modulo 2^256, however the arithmetic wraps -----

  lemma {:induction false} RemainderModulo(shared: Word, voted: int, vals: seq<Validator>) returns (k: int)
    ensures Remainder(shared, voted, vals) == shared - ShareSum(shared, voted, vals) + Wraps(k)
  {
    k := 0;
    if vals != [] {
      var init, part := vals[..|vals| - 1], Share(shared, voted, vals[|vals| - 1].votingPower);
      var k0 := RemainderModulo(shared, voted, init);
      var k1 := WrappedSub(Remainder(shared, voted, init), part);
      WrapsSum(k0, k1);
      k := k0 + k1;
    }
  }

  lemma SplitModulo(fee: Word, voted: int, total: int) returns (split: Split, k: int)
    ensures split == SplitFee(fee, voted, total)
    ensures split.base + split.extra + split.shared == fee + Wraps(k)
  {
    split := SplitFee(fee, voted, total);
    var k1 := WrappedSub(fee, split.base);
    var k2 := WrappedSub(Sub(fee, split.base), split.extra);
    WrapsSum(k1, k2);
    k := k1 + k2;
  }
}
