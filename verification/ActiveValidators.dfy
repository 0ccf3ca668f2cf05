/** GetActiveValidators: the ranking that elects the validators on duty. */
module ActiveValidators {
  import opened Words
  import opened StakingTypes

  predicate Eligible(v: Validator, minStaked: Word) {
    v.stakedCoins >= minStaked && !v.isRetiring && v.votingPower > 0
  }

  function EligibleOf(vals: seq<Validator>, minStaked: Word): seq<Validator> {
    if vals == [] then []
    else
      var n := |vals| - 1;
      if Eligible(vals[n], minStaked) then EligibleOf(vals[..n], minStaked) + [vals[n]]
      else EligibleOf(vals[..n], minStaked)
  }

  // Insert behind everything that has at least the same power.
  function InsertByPower(s: seq<Validator>, v: Validator): (r: seq<Validator>)
    ensures |r| == |s| + 1
  {
    if s == [] || s[|s| - 1].votingPower >= v.votingPower then s + [v]
    else InsertByPower(s[..|s| - 1], v) + [s[|s| - 1]]
  }

  function StableSort(s: seq<Validator>): (r: seq<Validator>)
    ensures |r| == |s|
  {
    if s == [] then [] else InsertByPower(StableSort(s[..|s| - 1]), s[|s| - 1])
  }

  function Active(vals: seq<Validator>, minStaked: Word): seq<Validator> {
    var r := StableSort(EligibleOf(vals, minStaked));
    if |r| > MAX_ACTIVE_VALIDATOR_NUM then r[..MAX_ACTIVE_VALIDATOR_NUM] else r
  }

  method GetActiveValidators(vals: seq<Validator>, minStaked: Word) returns (res: seq<Validator>)
    ensures res == Active(vals, minStaked)
  {
    res := [];
    for i := 0 to |vals|
      invariant res == EligibleOf(vals[..i], minStaked)
    {
      assert vals[..i + 1][..i] == vals[..i];
      if vals[i].stakedCoins >= minStaked && !vals[i].isRetiring && vals[i].votingPower > 0 {
        res := res + [vals[i]];
      }
    }
    assert vals[..|vals|] == vals;
    res := SliceStable(res);
    if |res| > MAX_ACTIVE_VALIDATOR_NUM {
      res := res[..MAX_ACTIVE_VALIDATOR_NUM];
    }
  }

  // sort.SliceStable by descending power, as an insertion sort.
  method SliceStable(s: seq<Validator>) returns (r: seq<Validator>)
    ensures r == StableSort(s)
  {
    r := [];
    for i := 0 to |s|
      invariant r == StableSort(s[..i])
    {
      assert s[..i + 1][..i] == s[..i];
      r := InsertStable(r, s[i]);
    }
    assert s[..|s|] == s;
  }

  method InsertStable(s: seq<Validator>, v: Validator) returns (r: seq<Validator>)
    ensures r == InsertByPower(s, v)
  {
    var k := |s|;
    assert s[..k] == s && InsertByPower(s, v) == InsertByPower(s[..k], v) + s[k..];
    while k > 0 && s[k - 1].votingPower < v.votingPower
      invariant 0 <= k <= |s|
      invariant InsertByPower(s, v) == InsertByPower(s[..k], v) + s[k..]
    {
      InsertStep(s[..k], v);
      assert s[..k][..k - 1] == s[..k - 1] && [s[k - 1]] + s[k..] == s[k - 1..];
      k := k - 1;
    }
    r := s[..k] + [v] + s[k..];
  }

  lemma InsertStep(s: seq<Validator>, v: Validator)
    requires s != [] && s[|s| - 1].votingPower < v.votingPower
    ensures InsertByPower(s, v) == InsertByPower(s[..|s| - 1], v) + [s[|s| - 1]]
  {
  }

  // ----- The ranking said without an algorithm: positions in the list -----

  // Position i ranks before position j: more power, or the same power and listed earlier.
  predicate RanksBefore(vals: seq<Validator>, i: nat, j: nat)
    requires i < |vals| && j < |vals|
  {
    vals[i].votingPower > vals[j].votingPower
    || (vals[i].votingPower == vals[j].votingPower && i < j)
  }

  ghost predicate Below(order: seq<nat>, n: nat) {
    forall p :: 0 <= p < |order| ==> order[p] < n
  }

  ghost predicate Ranked(vals: seq<Validator>, order: seq<nat>)
    requires Below(order, |vals|)
  {
    forall p, q :: 0 <= p < q < |order| ==> RanksBefore(vals, order[p], order[q])
  }

  ghost predicate IsRanking(vals: seq<Validator>, minStaked: Word, order: seq<nat>) {
    && Below(order, |vals|)
    && (forall p :: 0 <= p < |order| ==> Eligible(vals[order[p]], minStaked))
    && (forall i :: 0 <= i < |vals| && Eligible(vals[i], minStaked) ==> i in order)
    && Ranked(vals, order)
  }

  ghost function At(vals: seq<Validator>, order: seq<nat>): (r: seq<Validator>)
    requires Below(order, |vals|)
  {
    seq(|order|, p requires 0 <= p < |order| => vals[order[p]])
  }

  ghost function InsertPosition(vals: seq<Validator>, order: seq<nat>, i: nat): (r: seq<nat>)
    requires i < |vals| && Below(order, i)
    ensures |r| == |order| + 1 && Below(r, i + 1) && Below(r, |vals|)
    ensures forall x :: x in r <==> x in order || x == i
  {
    if order == [] then [i]
    else
      var init, last := order[..|order| - 1], order[|order| - 1];
      assert order == init + [last];
      if vals[last].votingPower >= vals[i].votingPower then order + [i]
      else InsertPosition(vals, init, i) + [last]
  }

  lemma {:induction false} InsertPositionRanks(vals: seq<Validator>, order: seq<nat>, i: nat)
    requires i < |vals| && Below(order, i) && Ranked(vals, order)
    ensures Ranked(vals, InsertPosition(vals, order, i))
  {
    if order != [] {
      var init, last := order[..|order| - 1], order[|order| - 1];
      if vals[last].votingPower < vals[i].votingPower {
        InsertPositionRanks(vals, init, i);
        var r := InsertPosition(vals, init, i);
        forall p | 0 <= p < |r| ensures RanksBefore(vals, r[p], last) {
          assert r[p] in r;
          if r[p] != i {
            var q :| 0 <= q < |init| && init[q] == r[p];
            assert RanksBefore(vals, order[q], order[|order| - 1]);
          }
        }
      } else {
        forall p | 0 <= p < |order| - 1 ensures RanksBefore(vals, order[p], i) {
          assert RanksBefore(vals, order[p], order[|order| - 1]);
        }
      }
    }
  }

  lemma {:induction false} InsertPositionInserts(vals: seq<Validator>, order: seq<nat>, i: nat)
    requires i < |vals| && Below(order, i)
    ensures At(vals, InsertPosition(vals, order, i)) == InsertByPower(At(vals, order), vals[i])
  {
    if order != [] {
      var init, last := order[..|order| - 1], order[|order| - 1];
      var vs := At(vals, order);
      assert vs[|vs| - 1] == vals[last];
      if vals[last].votingPower < vals[i].votingPower {
        InsertPositionInserts(vals, init, i);
        assert vs[..|vs| - 1] == At(vals, init);
      } else {
        assert At(vals, order + [i]) == vs + [vals[i]];
      }
    }
  }

  ghost predicate RanksFirst(vals: seq<Validator>, minStaked: Word, n: nat, order: seq<nat>)
    requires n <= |vals|
  {
    && Below(order, n) && Ranked(vals, order)
    && forall x: nat :: x in order <==> x < n && Eligible(vals[x], minStaked)
  }

  lemma RanksOneMore(vals: seq<Validator>, minStaked: Word, n: nat, order: seq<nat>, order': seq<nat>)
    requires n < |vals| && RanksFirst(vals, minStaked, n, order)
    requires order' == if Eligible(vals[n], minStaked) then InsertPosition(vals, order, n) else order
    ensures RanksFirst(vals, minStaked, n + 1, order')
  {
    if Eligible(vals[n], minStaked) {
      InsertPositionRanks(vals, order, n);
    }
  }

  // The ranking of the first n validators.
  ghost function Ranking(vals: seq<Validator>, minStaked: Word, n: nat): (r: seq<nat>)
    requires n <= |vals|
    ensures Below(r, n)
  {
    if n == 0 then []
    else
      var r := Ranking(vals, minStaked, n - 1);
      if Eligible(vals[n - 1], minStaked) then InsertPosition(vals, r, n - 1) else r
  }

  lemma {:induction false} RankingRanks(vals: seq<Validator>, minStaked: Word, n: nat)
    requires n <= |vals|
    ensures RanksFirst(vals, minStaked, n, Ranking(vals, minStaked, n))
  {
    if n > 0 {
      var order, order' := Ranking(vals, minStaked, n - 1), Ranking(vals, minStaked, n);
      RankingRanks(vals, minStaked, n - 1);
      RanksOneMore(vals, minStaked, n - 1, order, order');
    }
  }

  lemma {:induction false} RankingSorts(vals: seq<Validator>, minStaked: Word, n: nat)
    requires n <= |vals|
    ensures At(vals, Ranking(vals, minStaked, n)) == StableSort(EligibleOf(vals[..n], minStaked))
  {
    if n == 0 {
    } else {
      RankingSorts(vals, minStaked, n - 1);
      EligibleOfStep(vals, minStaked, n);
      if Eligible(vals[n - 1], minStaked) {
        InsertPositionInserts(vals, Ranking(vals, minStaked, n - 1), n - 1);
        StableSortStep(EligibleOf(vals[..n - 1], minStaked), vals[n - 1]);
      }
    }
  }

  lemma EligibleOfStep(vals: seq<Validator>, minStaked: Word, n: nat)
    requires 0 < n <= |vals|
    ensures EligibleOf(vals[..n], minStaked) ==
            if Eligible(vals[n - 1], minStaked) then EligibleOf(vals[..n - 1], minStaked) + [vals[n - 1]]
            else EligibleOf(vals[..n - 1], minStaked)
  {
    assert vals[..n][..n - 1] == vals[..n - 1];
  }

  lemma StableSortStep(s: seq<Validator>, v: Validator)
    ensures StableSort(s + [v]) == InsertByPower(StableSort(s), v)
  {
    assert (s + [v])[..|s|] == s;
  }

  // There is one ranking only, so the choice of a stable sort does not matter.
  lemma {:induction false} RankingIsUnique(vals: seq<Validator>, minStaked: Word, a: seq<nat>, b: seq<nat>)
    requires IsRanking(vals, minStaked, a) && IsRanking(vals, minStaked, b)
    ensures a == b
  {
    SameRankedElements(vals, a, b);
  }

  lemma {:induction false} SameRankedElements(vals: seq<Validator>, a: seq<nat>, b: seq<nat>)
    requires Below(a, |vals|) && Below(b, |vals|) && Ranked(vals, a) && Ranked(vals, b)
    requires forall x :: x in a <==> x in b
    ensures a == b
    decreases |a|
  {
    assert |b| > 0 ==> b[0] in b && b[0] in a;
    assert |a| > 0 ==> a[0] in a && a[0] in b;
    if a != [] {
      var p :| 0 <= p < |a| && a[p] == b[0];
      var q :| 0 <= q < |b| && b[q] == a[0];
      assert a[0] == b[0];
      forall x | x in a[1..] ensures x in b[1..] {
        var i :| 1 <= i < |a| && a[i] == x;
        assert RanksBefore(vals, a[0], a[i]);
        assert x in a && x in b;
        var j :| 0 <= j < |b| && b[j] == x;
        assert b[j] == b[1..][j - 1];
      }
      forall x | x in b[1..] ensures x in a[1..] {
        var i :| 1 <= i < |b| && b[i] == x;
        assert RanksBefore(vals, b[0], b[i]);
        assert x in b && x in a;
        var j :| 0 <= j < |a| && a[j] == x;
        assert a[j] == a[1..][j - 1];
      }
      SameRankedElements(vals, a[1..], b[1..]);
      assert a == [a[0]] + a[1..] && b == [b[0]] + b[1..];
    }
  }

  /** The validators on duty are the first MaxActiveValidatorNum of the one ranking: power
      descending, ties in list order, all eligible. */
  lemma ActiveIsTopOfRanking(vals: seq<Validator>, minStaked: Word) returns (order: seq<nat>)
    ensures IsRanking(vals, minStaked, order)
    ensures |Active(vals, minStaked)| ==
            if |order| < MAX_ACTIVE_VALIDATOR_NUM then |order| else MAX_ACTIVE_VALIDATOR_NUM
    ensures forall p :: 0 <= p < |Active(vals, minStaked)| ==> Active(vals, minStaked)[p] == vals[order[p]]
  {
    order := Ranking(vals, minStaked, |vals|);
    RankingRanks(vals, minStaked, |vals|);
    assert forall p :: 0 <= p < |order| ==> order[p] in order;
    RankingSorts(vals, minStaked, |vals|);
    assert vals[..|vals|] == vals;
  }

  /** An eligible validator that is left out finds all places taken and ranks behind
      everyone kept, so it has no more power than the last of them. */
  lemma LeftOutRanksBehind(vals: seq<Validator>, minStaked: Word, i: nat)
    requires i < |vals| && Eligible(vals[i], minStaked) && vals[i] !in Active(vals, minStaked)
    ensures |Active(vals, minStaked)| == MAX_ACTIVE_VALIDATOR_NUM
    ensures forall v :: v in Active(vals, minStaked) ==> v.votingPower >= vals[i].votingPower
  {
    var order := ActiveIsTopOfRanking(vals, minStaked);
    var act := Active(vals, minStaked);
    assert forall k :: 0 <= k < |act| ==> act[k] in act;
    var p :| 0 <= p < |order| && order[p] == i;
    forall v | v in act ensures v.votingPower >= vals[i].votingPower {
      var q :| 0 <= q < |act| && act[q] == v;
      assert RanksBefore(vals, order[q], order[p]);
    }
  }

  lemma ActiveAreListed(vals: seq<Validator>, minStaked: Word)
    ensures forall v :: v in Active(vals, minStaked) ==> v in vals && Eligible(v, minStaked)
    ensures DistinctKeys(vals) ==> DistinctKeys(Active(vals, minStaked))
  {
    var order := ActiveIsTopOfRanking(vals, minStaked);
    var act := Active(vals, minStaked);
    if DistinctKeys(vals) {
      forall p, q | 0 <= p < q < |act|
        ensures act[p].address != act[q].address && act[p].pubkey != act[q].pubkey
      {
        assert RanksBefore(vals, order[p], order[q]);
        assert order[p] != order[q];
        var i, j := if order[p] < order[q] then order[p] else order[q],
                    if order[p] < order[q] then order[q] else order[p];
        assert vals[i].address != vals[j].address && vals[i].pubkey != vals[j].pubkey;
      }
    }
  }
}
