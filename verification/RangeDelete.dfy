/** The loop of clearUp that deletes elements from the very slice it ranges over.

    A Go `for i, v := range s` fixes the number of iterations when it starts and reads
    element `i` from the backing array, while the body shortens `s` by shifting that same
    array to the left.  An element that follows a deleted one is therefore never looked at,
    and the positions behind the shortened slice still hold old elements. */
module RangeDelete {
  import opened Words

  /** The loop from iteration `i` on.  `backing` is the backing array, whose length is the
      length the slice had when the loop began; the slice itself is backing[..m].  None is
      the run-time panic "slice bounds out of range". */
  function Loop<T>(backing: seq<T>, m: nat, i: nat, useless: T -> bool): Option<seq<T>>
    requires m <= |backing|
    decreases |backing| - i
  {
    if i >= |backing| then Some(backing[..m])
    else if !useless(backing[i]) then Loop(backing, m, i + 1, useless)
    else if i + 1 > m then None
    else Loop(ShiftedLeft(backing, m, i), m - 1, i + 1, useless)
  }

  function Delete<T>(s: seq<T>, useless: T -> bool): Option<seq<T>> {
    Loop(s, |s|, 0, useless)
  }

  // append(s[:i], s[i+1:]...) seen from the backing array.
  function ShiftedLeft<T>(backing: seq<T>, m: nat, i: nat): (r: seq<T>)
    requires i < m <= |backing|
    ensures |r| == |backing|
    ensures forall p :: 0 <= p < |r| ==> r[p] == if i <= p < m - 1 then backing[p + 1] else backing[p]
  {
    backing[..i] + backing[i + 1..m] + backing[m - 1..]
  }

  method ShiftLeft<T>(a: array<T>, m: nat, i: nat)
    requires i < m <= a.Length
    modifies a
    ensures a[..] == ShiftedLeft(old(a[..]), m, i)
  {
    var k := i;
    while k + 1 < m
      invariant i <= k < m
      invariant forall p :: 0 <= p < i || k <= p < a.Length ==> a[p] == old(a[p])
      invariant forall p :: i <= p < k ==> a[p] == old(a[p + 1])
    {
      a[k] := a[k + 1];
      k := k + 1;
    }
  }

  method DeleteInPlace<T>(a: array<T>, useless: T -> bool) returns (r: Option<seq<T>>)
    modifies a
    ensures r == Delete(old(a[..]), useless)
  {
    var n, m, i := a.Length, a.Length, 0;
    while i < n
      invariant 0 <= i <= n && 0 <= m <= n == a.Length
      invariant Loop(a[..], m, i, useless) == Delete(old(a[..]), useless)
    {
      if useless(a[i]) {
        if i + 1 > m {
          return None;
        }
        ShiftLeft(a, m, i);
        m := m - 1;
      }
      i := i + 1;
    }
    return Some(a[..m]);
  }

  // ----- What the loop computes, said on the original list -----

  // The intended result: every element that is not useless, in order.
  function Kept<T>(s: seq<T>, useless: T -> bool): seq<T> {
    if s == [] then []
    else if useless(s[0]) then Kept(s[1..], useless)
    else [s[0]] + Kept(s[1..], useless)
  }

  // What remains when the neighbour of every deleted element escapes the test.
  function Survivors<T>(s: seq<T>, useless: T -> bool): seq<T> {
    if s == [] then []
    else if !useless(s[0]) then [s[0]] + Survivors(s[1..], useless)
    else if |s| == 1 then []
    else [s[1]] + Survivors(s[2..], useless)
  }

  // The last element is useless and is not the only useless one.
  ghost predicate Panics<T>(s: seq<T>, useless: T -> bool) {
    |s| > 0 && useless(s[|s| - 1]) && exists p :: 0 <= p < |s| - 1 && useless(s[p])
  }

  // Some element from position k on, the last one left out, is useless.
  ghost predicate UselessAhead<T>(s: seq<T>, k: nat, useless: T -> bool) {
    exists p :: k <= p < |s| - 1 && useless(s[p])
  }

  // After |s| - m deletions: what is still ahead is shifted, what is behind the slice is old.
  ghost predicate Aligned<T>(s: seq<T>, backing: seq<T>, m: nat, i: nat) {
    && |backing| == |s| > 0 && i <= m <= |s|
    && (forall p :: i <= p < m ==> backing[p] == s[p + |s| - m])
    && (forall p :: m <= p < |s| ==> backing[p] == s[|s| - 1])
  }

  ghost function Expected<T>(s: seq<T>, done: seq<T>, m: nat, k: nat, useless: T -> bool): Option<seq<T>>
    requires k <= |s| && |s| > 0
  {
    if useless(s[|s| - 1]) && (m < |s| || UselessAhead(s, k, useless)) then None
    else Some(done + Survivors(s[k..], useless))
  }

  lemma ExpectedKept<T>(s: seq<T>, done: seq<T>, m: nat, k: nat, useless: T -> bool)
    requires k < |s| && !useless(s[k])
    ensures Expected(s, done, m, k, useless) == Expected(s, done + [s[k]], m, k + 1, useless)
  {
    assert s[k..][1..] == s[k + 1..];
    assert done + Survivors(s[k..], useless) == done + [s[k]] + Survivors(s[k + 1..], useless);
    assert UselessAhead(s, k, useless) <==> UselessAhead(s, k + 1, useless);
  }

  lemma ExpectedDeleted<T>(s: seq<T>, done: seq<T>, m: nat, k: nat, useless: T -> bool)
    requires k + 1 < |s| && 0 < m <= |s| && useless(s[k])
    ensures Expected(s, done, m, k, useless) == Expected(s, done + [s[k + 1]], m - 1, k + 2, useless)
  {
    assert s[k..][2..] == s[k + 2..] && s[k..][1] == s[k + 1];
    assert done + Survivors(s[k..], useless) == done + [s[k + 1]] + Survivors(s[k + 2..], useless);
    assert UselessAhead(s, k, useless);
  }

  lemma AlignedAfterShift<T>(s: seq<T>, backing: seq<T>, m: nat, i: nat)
    requires Aligned(s, backing, m, i) && i + 1 < m
    ensures Aligned(s, ShiftedLeft(backing, m, i), m - 1, i + 1)
    ensures ShiftedLeft(backing, m, i)[..i + 1] == backing[..i] + [s[i + 1 + |s| - m]]
  {
  }

  lemma {:induction false} LoopResult<T>(s: seq<T>, backing: seq<T>, m: nat, i: nat, useless: T -> bool)
    requires Aligned(s, backing, m, i)
    ensures Loop(backing, m, i, useless) == Expected(s, backing[..i], m, i + |s| - m, useless)
    decreases |s| - i
  {
    var n := |s|;
    var k := i + n - m;
    if i == m {
      StaleTail(backing, m, i, s[n - 1], useless);
      assert backing[..i] + Survivors(s[k..], useless) == backing[..m];
      assert !UselessAhead(s, k, useless);
    } else if !useless(backing[i]) {
      LoopResult(s, backing, m, i + 1, useless);
      ExpectedKept(s, backing[..i], m, k, useless);
      assert backing[..i] + [s[k]] == backing[..i + 1];
    } else if i + 1 == m {
      LastDeleted(s, backing, m, useless);
    } else {
      var next := ShiftedLeft(backing, m, i);
      AlignedAfterShift(s, backing, m, i);
      LoopResult(s, next, m - 1, i + 1, useless);
      ExpectedDeleted(s, backing[..i], m, k, useless);
    }
  }

  lemma LastDeleted<T>(s: seq<T>, backing: seq<T>, m: nat, useless: T -> bool)
    requires m > 0 && Aligned(s, backing, m, m - 1) && useless(backing[m - 1])
    ensures Loop(backing, m, m - 1, useless) == Expected(s, backing[..m - 1], m, |s| - 1, useless)
  {
    var next := ShiftedLeft(backing, m, m - 1);
    StaleTail(next, m - 1, m, s[|s| - 1], useless);
    assert s[|s| - 1..] == [s[|s| - 1]];
    assert next[..m - 1] == backing[..m - 1] + [];
    assert !UselessAhead(s, |s| - 1, useless);
  }

  lemma {:induction false} StaleTail<T>(backing: seq<T>, m: nat, i: nat, last: T, useless: T -> bool)
    requires m <= |backing| && m <= i
    requires forall p :: i <= p < |backing| ==> backing[p] == last
    ensures Loop(backing, m, i, useless) ==
            if i < |backing| && useless(last) then None else Some(backing[..m])
    decreases |backing| - i
  {
    if i < |backing| && !useless(last) {
      StaleTail(backing, m, i + 1, last, useless);
    }
  }

  lemma DeleteResult<T>(s: seq<T>, useless: T -> bool)
    ensures Delete(s, useless) == if Panics(s, useless) then None else Some(Survivors(s, useless))
  {
    if s != [] {
      LoopResult(s, s, |s|, 0, useless);
      assert s[0..] == s;
      assert Panics(s, useless) <==> useless(s[|s| - 1]) && UselessAhead(s, 0, useless);
      assert [] + Survivors(s, useless) == Survivors(s, useless);
    }
  }

  // ----- When it is the intended filter -----

  ghost predicate NoUselessNeighbours<T>(s: seq<T>, useless: T -> bool) {
    forall p :: 0 <= p < |s| - 1 ==> !(useless(s[p]) && useless(s[p + 1]))
  }

  /** The loop is the intended filter exactly when no two neighbours are useless and the
      last element is not useless next to another useless one. */
  lemma DeleteIsFilterExactly<T>(s: seq<T>, useless: T -> bool)
    ensures Delete(s, useless) == Some(Kept(s, useless))
            <==> NoUselessNeighbours(s, useless) && !Panics(s, useless)
  {
    DeleteResult(s, useless);
    SurvivorsAreKept(s, useless);
  }

  lemma {:induction false} SurvivorsAreKept<T>(s: seq<T>, useless: T -> bool)
    ensures |Survivors(s, useless)| >= |Kept(s, useless)|
    ensures Survivors(s, useless) == Kept(s, useless) <==> NoUselessNeighbours(s, useless)
  {
    if s == [] {
    } else if !useless(s[0]) {
      SurvivorsAreKept(s[1..], useless);
      var a, b := Survivors(s[1..], useless), Kept(s[1..], useless);
      assert ([s[0]] + a)[1..] == a && ([s[0]] + b)[1..] == b;
      NeighboursOfTail(s, useless);
    } else if |s| == 1 {
      assert s[1..] == [];
    } else {
      var t := s[2..];
      SurvivorsAreKept(t, useless);
      assert s[1..][1..] == t;
      NeighboursOfTail(s, useless);
      NeighboursOfTail(s[1..], useless);
      var a, b := Survivors(t, useless), Kept(t, useless);
      assert Kept(s, useless) == Kept(s[1..], useless);
      if useless(s[1]) {
        assert |Survivors(s, useless)| > |Kept(s, useless)|;
        assert useless(s[0]) && useless(s[0 + 1]);
      } else {
        assert ([s[1]] + a)[1..] == a && ([s[1]] + b)[1..] == b;
      }
    }
  }

  lemma NeighboursOfTail<T>(s: seq<T>, useless: T -> bool)
    requires |s| >= 1
    ensures NoUselessNeighbours(s, useless)
            <==> NoUselessNeighbours(s[1..], useless) && (|s| > 1 ==> !(useless(s[0]) && useless(s[1])))
  {
    var t := s[1..];
    if NoUselessNeighbours(t, useless) && (|s| > 1 ==> !(useless(s[0]) && useless(s[1]))) {
      forall p | 0 <= p < |s| - 1 ensures !(useless(s[p]) && useless(s[p + 1])) {
        if p > 0 {
          assert !(useless(t[p - 1]) && useless(t[p - 1 + 1]));
        }
      }
    }
    if NoUselessNeighbours(s, useless) {
      forall p | 0 <= p < |t| - 1 ensures !(useless(t[p]) && useless(t[p + 1])) {
        assert !(useless(s[p + 1]) && useless(s[p + 1 + 1]));
      }
    }
  }

  /** Whatever the loop leaves behind is a part of the original list, in order, that holds
      every element which is not useless. */
  lemma {:induction false} SurvivorsKeepTheUseful<T>(s: seq<T>, useless: T -> bool)
    ensures Kept(Survivors(s, useless), useless) == Kept(s, useless)
    ensures forall x :: x in Survivors(s, useless) ==> x in s
    ensures forall x :: x in s && !useless(x) ==> x in Survivors(s, useless)
  {
    if s != [] && (!useless(s[0]) || |s| > 1) {
      var skip := if useless(s[0]) then 1 else 0;
      var t := s[skip + 1..];
      SurvivorsKeepTheUseful(t, useless);
      var r := Survivors(t, useless);
      assert Survivors(s, useless) == [s[skip]] + r;
      assert ([s[skip]] + r)[1..] == r;
      if skip == 1 {
        assert s[1..][1..] == t;
      }
    }
  }

  lemma {:induction false} KeptAre<T>(s: seq<T>, useless: T -> bool)
    ensures forall x :: x in Kept(s, useless) <==> x in s && !useless(x)
  {
    if s != [] {
      KeptAre(s[1..], useless);
      assert s == [s[0]] + s[1..];
    }
  }

  // Two distinct positions of the survivors come from two distinct positions of the list.
  lemma {:induction false} SurvivorsStayDistinct<T, K(!new)>(s: seq<T>, useless: T -> bool, key: T -> K)
    requires forall p, q :: 0 <= p < q < |s| ==> key(s[p]) != key(s[q])
    ensures var r := Survivors(s, useless);
            forall p, q :: 0 <= p < q < |r| ==> key(r[p]) != key(r[q])
  {
    if s != [] && (!useless(s[0]) || |s| > 1) {
      var skip := if useless(s[0]) then 1 else 0;
      var t := s[skip + 1..];
      SurvivorsStayDistinct(t, useless, key);
      SurvivorsKeepTheUseful(t, useless);
      var r := Survivors(t, useless);
      assert Survivors(s, useless) == [s[skip]] + r;
      forall x | x in r ensures key(x) != key(s[skip]) {
        assert x in t;
      }
    }
  }
}
