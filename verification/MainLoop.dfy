/** The watcher's main loop against any node whatsoever: exactly when a turn accepts its answer,
    exactly when it panics, and exactly when the finalized blocks form one chain. */
module MainLoop {
  import opened Words
  import opened Watcher
  import opened Epochs
  import opened Finality
  import opened BackTrace
  import opened Reorganization

  // ----- What every run keeps -----

  ghost predicate LoopOk(tree: map<Hash, Block>, n: nat, l: Loop, fin: seq<Block>) {
    && TreeOk(tree) && Records(l.watcher, n, fin) && Within(l.watcher.hashToBlock, tree)
    && 0 <= l.height && |fin| == FinalizedCount(l.height)
    && forall i :: 0 <= i < |fin| ==> InTree(tree, fin[i]) && fin[i].height == i + 1
  }

  // The node answers with some block of the height it is asked for.
  ghost predicate Asked(tree: map<Hash, Block>, l: Loop, b: Block) {
    TreeOk(tree) && InTree(tree, b) && b.height == l.height + 1
  }

  // ----- Reading off memory what a walk and a trace will find -----

  // The first of the k ancestors behind the s-th that is not in memory.
  ghost function NextMissing(tree: map<Hash, Block>, blocks: map<Hash, Block>, b: Block, s: nat, k: nat): (r: Option<nat>)
    requires TreeOk(tree) && InTree(tree, b) && s <= Depth(tree, b)
    ensures r.Some? ==> s < r.value <= s + k && r.value <= Depth(tree, b)
    decreases k, b.height
  {
    if k == 0 || s == Depth(tree, b) then None
    else if Ancestor(tree, b, s + 1).hashId !in blocks then Some(s + 1)
    else NextMissing(tree, blocks, b, s + 1, k - 1)
  }

  // The ancestors that are fetched, at most i of them: each is the next one missing behind the last.
  ghost function Trail(tree: map<Hash, Block>, blocks: map<Hash, Block>, b: Block, s: nat, i: nat): (r: seq<nat>)
    requires TreeOk(tree) && InTree(tree, b) && s <= Depth(tree, b)
    ensures forall t :: t in r ==> s < t <= Depth(tree, b)
    decreases i, b.height
  {
    if i == 0 then []
    else
      match NextMissing(tree, blocks, b, s, CONFIRMATIONS)
      case None => []
      case Some(t) => [t] + Trail(tree, blocks, b, t, i - 1)
  }

  // The block is stored as the finalized one of its height.
  ghost predicate IsStored(finalized: map<int, Block>, p: Block) {
    p.height in finalized && finalized[p.height] == p
  }

  // The ten ancestors of the t-th ancestor are in memory, and the last of them is not stored.
  ghost predicate Clashes(tree: map<Hash, Block>, w: State, b: Block, t: nat)
    requires TreeOk(tree) && InTree(tree, b) && t <= Depth(tree, b)
  {
    && t + 10 <= Depth(tree, b) && NextMissing(tree, w.hashToBlock, b, t, CONFIRMATIONS).None?
    && !IsStored(w.heightToFinalizedBlock, Ancestor(tree, b, t + 10))
  }

  // The ten ancestors of the answer, or all of them, are in memory.
  ghost predicate WindowIn(tree: map<Hash, Block>, l: Loop, b: Block)
    requires TreeOk(tree) && InTree(tree, b)
  {
    NextMissing(tree, l.watcher.hashToBlock, b, 0, CONFIRMATIONS).None?
  }

  /** When a turn panics, read off the state before it: with the window in memory only if the
      tenth ancestor has height 0, and otherwise if one of the ancestors that are fetched clashes
      with the stored finalized blocks. */
  ghost predicate Panics(tree: map<Hash, Block>, l: Loop, b: Block)
    requires TreeOk(tree) && InTree(tree, b)
  {
    if WindowIn(tree, l, b) then ReachesZero(tree, b)
    else exists t :: t in Trail(tree, l.watcher.hashToBlock, b, 0, 10) && Clashes(tree, l.watcher, b, t)
  }

  // The finalized blocks after a turn that does not panic.
  ghost function FinalizedAfter(tree: map<Hash, Block>, l: Loop, fin: seq<Block>, b: Block): (r: seq<Block>)
    requires TreeOk(tree) && InTree(tree, b)
    ensures fin <= r
  {
    if WindowIn(tree, l, b) && Depth(tree, b) >= 10 then fin + [Ancestor(tree, b, 10)] else fin
  }

  // ----- The walk -----

  lemma {:induction false} WalkIs(tree: map<Hash, Block>, blocks: map<Hash, Block>, b: Block, s: nat, k: nat)
    requires TreeOk(tree) && Within(blocks, tree) && InTree(tree, b) && s <= Depth(tree, b)
    ensures Walk(blocks, Ancestor(tree, b, s), k) ==
      match NextMissing(tree, blocks, b, s, k)
      case Some(t) => Lacks(Ancestor(tree, b, t).hashId)
      case None => if s + k <= Depth(tree, b) then Reached(Ancestor(tree, b, s + k)) else Genesis
    decreases k
  {
    var x := Ancestor(tree, b, s);
    if k > 0 && s < Depth(tree, b) {
      ParentOfAncestor(tree, b, s);
      var y := Ancestor(tree, b, s + 1);
      if y.hashId in blocks {
        assert blocks[y.hashId] == y;
        WalkIs(tree, blocks, b, s + 1, k - 1);
      } else {
        assert x.parentBlk != 0;
      }
    } else if k > 0 {
      assert 0 !in blocks by {
        assert 0 in tree ==> NodeOk(tree, 0);
      }
    }
  }

  // Memories that hold the same ancestors behind the s-th.
  ghost predicate SameBehind(tree: map<Hash, Block>, a: map<Hash, Block>, c: map<Hash, Block>, b: Block, s: nat)
    requires TreeOk(tree) && InTree(tree, b) && s <= Depth(tree, b)
  {
    forall j :: s < j <= Depth(tree, b) ==> (Ancestor(tree, b, j).hashId in a <==> Ancestor(tree, b, j).hashId in c)
  }

  lemma {:induction false} SameMissing(tree: map<Hash, Block>, a: map<Hash, Block>, c: map<Hash, Block>, b: Block, s: nat, k: nat)
    requires TreeOk(tree) && InTree(tree, b) && s <= Depth(tree, b) && SameBehind(tree, a, c, b, s)
    ensures NextMissing(tree, a, b, s, k) == NextMissing(tree, c, b, s, k)
    decreases k
  {
    if k > 0 && s < Depth(tree, b) {
      SameMissing(tree, a, c, b, s + 1, k - 1);
    }
  }

  lemma AddedInFront(tree: map<Hash, Block>, a: map<Hash, Block>, c: map<Hash, Block>, b: Block, s: nat, t: nat)
    requires TreeOk(tree) && InTree(tree, b) && s <= t <= Depth(tree, b) && SameBehind(tree, a, c, b, s)
    ensures var z := Ancestor(tree, b, t); SameBehind(tree, a[z.hashId := z], c, b, t)
  {
    var z := Ancestor(tree, b, t);
    forall j | t < j <= Depth(tree, b)
      ensures Ancestor(tree, b, j).hashId in a[z.hashId := z] <==> Ancestor(tree, b, j).hashId in c
    {
      assert Ancestor(tree, b, j).height != z.height;
    }
  }

  // ----- One fetched ancestor -----

  // What addBlock answers when the t-th ancestor is added and does not clash.
  ghost function AskedNext(tree: map<Hash, Block>, blocks: map<Hash, Block>, b: Block, t: nat): Outcome
    requires TreeOk(tree) && InTree(tree, b) && t <= Depth(tree, b)
  {
    match NextMissing(tree, blocks, b, t, CONFIRMATIONS)
    case Some(u) => Missing(Ancestor(tree, b, u).hashId)
    case None => Done
  }

  lemma StoredIsEqual(tree: map<Hash, Block>, n: nat, w: State, fin: seq<Block>, p: Block)
    requires Records(w, n, fin) && InTree(tree, p) && p.height in w.heightToFinalizedBlock
    requires forall i :: 0 <= i < |fin| ==> InTree(tree, fin[i])
    ensures w.heightToFinalizedBlock[p.height].Equal(p) <==> IsStored(w.heightToFinalizedBlock, p)
  {
    assert InTree(tree, fin[p.height - 1]);
  }

  // A finalized or lower height that is not stored is not the next one either.
  lemma NotNext(w: State, n: nat, fin: seq<Block>, p: Block)
    requires Records(w, n, fin) && p.height <= |fin| && p.height !in w.heightToFinalizedBlock
    ensures Finalize(w, n, p).1 == Panicked(HeightSkipped)
  {
  }

  lemma AncestorAdded(tree: map<Hash, Block>, n: nat, w: State, fin: seq<Block>, b: Block, t: nat, blocks: map<Hash, Block>)
    requires TreeOk(tree) && InTree(tree, b) && 1 <= t <= Depth(tree, b) && IsNext(fin, b)
    requires Records(w, n, fin) && forall i :: 0 <= i < |fin| ==> InTree(tree, fin[i])
    requires blocks == w.hashToBlock[Ancestor(tree, b, t).hashId := Ancestor(tree, b, t)] && Within(blocks, tree)
    ensures AddBlock(w, n, Ancestor(tree, b, t)).1.Panicked? <==> Clashes(tree, w.(hashToBlock := blocks), b, t)
    ensures !AddBlock(w, n, Ancestor(tree, b, t)).1.Panicked? ==>
      AddBlock(w, n, Ancestor(tree, b, t)) == (w.(hashToBlock := blocks), AskedNext(tree, blocks, b, t))
  {
    WalkIs(tree, blocks, b, t, CONFIRMATIONS);
    if NextMissing(tree, blocks, b, t, CONFIRMATIONS).None? && t + 10 <= Depth(tree, b) {
      var p := Ancestor(tree, b, t + 10);
      if p.height in w.heightToFinalizedBlock {
        StoredIsEqual(tree, n, w, fin, p);
      } else {
        NotNext(w.(hashToBlock := blocks), n, fin, p);
      }
    }
  }

  // ----- Tracing back -----

  // Some position of the trail clashes.
  ghost predicate TrailClashes(tree: map<Hash, Block>, w: State, b: Block, s: nat, i: nat)
    requires TreeOk(tree) && InTree(tree, b) && s <= Depth(tree, b)
  {
    exists t :: t in Trail(tree, w.hashToBlock, b, s, i) && Clashes(tree, w, b, t)
  }

  lemma TrailStep(tree: map<Hash, Block>, w: State, b: Block, s: nat, i: nat, t: nat)
    requires TreeOk(tree) && InTree(tree, b) && s <= Depth(tree, b) && i > 0
    requires NextMissing(tree, w.hashToBlock, b, s, CONFIRMATIONS) == Some(t)
    ensures TrailClashes(tree, w, b, s, i) <==> Clashes(tree, w, b, t) || TrailClashes(tree, w, b, t, i - 1)
  {
    assert Trail(tree, w.hashToBlock, b, s, i) == [t] + Trail(tree, w.hashToBlock, b, t, i - 1);
  }

  // A clash at the end of the trail leaves nothing behind it to fetch.
  lemma NoTrail(tree: map<Hash, Block>, w: State, b: Block, s: nat, i: nat)
    requires TreeOk(tree) && InTree(tree, b) && s <= Depth(tree, b)
    requires i == 0 || NextMissing(tree, w.hashToBlock, b, s, CONFIRMATIONS).None?
    ensures !TrailClashes(tree, w, b, s, i)
  {
  }

  lemma SameClashes(tree: map<Hash, Block>, w: State, w': State, b: Block, t: nat)
    requires TreeOk(tree) && InTree(tree, b) && t <= Depth(tree, b)
    requires SameBehind(tree, w.hashToBlock, w'.hashToBlock, b, t) && w.heightToFinalizedBlock == w'.heightToFinalizedBlock
    ensures Clashes(tree, w, b, t) <==> Clashes(tree, w', b, t)
  {
    SameMissing(tree, w.hashToBlock, w'.hashToBlock, b, t, CONFIRMATIONS);
  }

  // The state w while tracing back from w0: memory is the same behind the s-th ancestor.
  ghost predicate InTrace(tree: map<Hash, Block>, n: nat, w0: State, w: State, fin: seq<Block>, b: Block, s: nat)
    requires TreeOk(tree) && InTree(tree, b) && s <= Depth(tree, b)
  {
    && w == w0.(hashToBlock := w.hashToBlock) && Records(w, n, fin) && Within(w.hashToBlock, tree)
    && (forall i :: 0 <= i < |fin| ==> InTree(tree, fin[i]))
    && SameBehind(tree, w.hashToBlock, w0.hashToBlock, b, s)
  }

  // One fetch: a panic at a clash, or on to the next missing ancestor.
  lemma FetchExactly(tree: map<Hash, Block>, n: nat, w0: State, w: State, fin: seq<Block>, b: Block, s: nat, i: nat, t: nat)
    returns (w': State)
    requires TreeOk(tree) && InTree(tree, b) && s <= Depth(tree, b) && IsNext(fin, b) && i > 0
    requires InTrace(tree, n, w0, w, fin, b, s)
    requires NextMissing(tree, w0.hashToBlock, b, s, CONFIRMATIONS) == Some(t)
    ensures InTrace(tree, n, w0, w', fin, b, t)
    ensures TraceBack(tree, n, w, Missing(Ancestor(tree, b, t).hashId), i) ==
            if Clashes(tree, w0, b, t) then None else TraceBack(tree, n, w', AskedNext(tree, w0.hashToBlock, b, t), i - 1)
  {
    var z := Ancestor(tree, b, t);
    var blocks := w.hashToBlock[z.hashId := z];
    AddedInFront(tree, w.hashToBlock, w0.hashToBlock, b, s, t);
    w' := Remembers(w, n, fin, blocks);
    AncestorAdded(tree, n, w, fin, b, t, blocks);
    SameClashes(tree, w', w0, b, t);
    SameMissing(tree, blocks, w0.hashToBlock, b, t, CONFIRMATIONS);
    if !Clashes(tree, w0, b, t) {
      TraceBackStep(tree, n, w, z.hashId, i, w', AskedNext(tree, w0.hashToBlock, b, t));
    }
  }

  /** Tracing back panics exactly when an ancestor on the trail clashes; otherwise it only adds
      blocks to memory. */
  lemma {:induction false} TraceExactly(tree: map<Hash, Block>, n: nat, w0: State, w: State, fin: seq<Block>, b: Block, s: nat, i: nat)
    returns (w': State)
    requires TreeOk(tree) && InTree(tree, b) && s <= Depth(tree, b) && IsNext(fin, b)
    requires InTrace(tree, n, w0, w, fin, b, s)
    ensures var o := AskedNext(tree, w0.hashToBlock, b, s);
            TraceBack(tree, n, w, o, i) == if TrailClashes(tree, w0, b, s, i) then None else Some(w')
    ensures w' == w0.(hashToBlock := w'.hashToBlock) && Records(w', n, fin) && Within(w'.hashToBlock, tree)
    decreases i
  {
    var next := NextMissing(tree, w0.hashToBlock, b, s, CONFIRMATIONS);
    if i == 0 || next.None? {
      NoTrail(tree, w0, b, s, i);
      w' := w;
    } else {
      var t := next.value;
      TrailStep(tree, w0, b, s, i, t);
      w' := FetchExactly(tree, n, w0, w, fin, b, s, i, t);
      if !Clashes(tree, w0, b, t) {
        w' := TraceExactly(tree, n, w0, w', fin, b, t, i - 1);
      }
    }
  }

  // ----- One turn -----

  lemma AskedIsNext(tree: map<Hash, Block>, n: nat, l: Loop, fin: seq<Block>, b: Block)
    requires LoopOk(tree, n, l, fin) && Asked(tree, l, b)
    ensures IsNext(fin, b)
    ensures Depth(tree, b) >= 10 ==> ReachesZero(tree, b) || b.height == |fin| + 11
    ensures FinalizedCount(l.height + 1) == |fin| + if Depth(tree, b) >= 10 && !ReachesZero(tree, b) then 1 else 0
  {
  }

  // The walk from the answer itself, which has just been added.
  lemma TipWalk(tree: map<Hash, Block>, l: Loop, b: Block)
    requires TreeOk(tree) && InTree(tree, b) && Within(l.watcher.hashToBlock, tree)
    ensures var blocks := l.watcher.hashToBlock[b.hashId := b];
      && SameBehind(tree, blocks, l.watcher.hashToBlock, b, 0)
      && NextMissing(tree, blocks, b, 0, CONFIRMATIONS) == NextMissing(tree, l.watcher.hashToBlock, b, 0, CONFIRMATIONS)
      && Walk(blocks, b, CONFIRMATIONS) ==
         match NextMissing(tree, l.watcher.hashToBlock, b, 0, CONFIRMATIONS)
         case Some(t) => Lacks(Ancestor(tree, b, t).hashId)
         case None => if 10 <= Depth(tree, b) then Reached(Ancestor(tree, b, 10)) else Genesis
  {
    var blocks := l.watcher.hashToBlock[b.hashId := b];
    assert Ancestor(tree, b, 0) == b;
    AddedInFront(tree, l.watcher.hashToBlock, l.watcher.hashToBlock, b, 0, 0);
    SameMissing(tree, blocks, l.watcher.hashToBlock, b, 0, CONFIRMATIONS);
    WalkIs(tree, blocks, b, 0, CONFIRMATIONS);
  }

  // With the window in memory: what addBlock makes of the answer.
  lemma TipExactly(tree: map<Hash, Block>, n: nat, l: Loop, fin: seq<Block>, b: Block) returns (w': State)
    requires n >= 1 && LoopOk(tree, n, l, fin) && Asked(tree, l, b) && WindowIn(tree, l, b)
    ensures ReachesZero(tree, b) ==> AddBlock(l.watcher, n, b).1.Panicked?
    ensures !ReachesZero(tree, b) ==>
      && AddBlock(l.watcher, n, b) == (w', Done) && Records(w', n, FinalizedAfter(tree, l, fin, b))
      && Within(w'.hashToBlock, tree)
  {
    TipWalk(tree, l, b);
    AskedIsNext(tree, n, l, fin, b);
    w' := Remembers(l.watcher, n, fin, l.watcher.hashToBlock[b.hashId := b]);
    if Depth(tree, b) >= 10 {
      var p := Ancestor(tree, b, 10);
      if p.height == 0 {
        NotNext(w', n, fin, p);
      } else {
        NotYetFinal(l.watcher, n, fin, p);
        FinalizeRecords(w', n, fin, p);
        w' := Finalize(w', n, p).0;
      }
    }
  }

  lemma FinalizedInTree(tree: map<Hash, Block>, n: nat, l: Loop, fin: seq<Block>, b: Block)
    requires LoopOk(tree, n, l, fin) && Asked(tree, l, b) && !ReachesZero(tree, b)
    ensures var fin' := FinalizedAfter(tree, l, fin, b);
      forall i :: 0 <= i < |fin'| ==> InTree(tree, fin'[i]) && fin'[i].height == i + 1
  {
    AskedIsNext(tree, n, l, fin, b);
  }

  // The turn accepts: the height grows, and memory may be cleared.
  lemma TurnAcceptsExactly(tree: map<Hash, Block>, n: nat, period: int, l: Loop, fin: seq<Block>, b: Block) returns (l': Loop)
    requires n >= 1 && period >= 1 && LoopOk(tree, n, l, fin) && Asked(tree, l, b)
    requires WindowIn(tree, l, b) && !ReachesZero(tree, b)
    ensures Turn(tree, n, period, l, b) == Some(l') && l'.height == l.height + 1
    ensures LoopOk(tree, n, l', FinalizedAfter(tree, l, fin, b))
  {
    var w := TipExactly(tree, n, l, fin, b);
    var fin' := FinalizedAfter(tree, l, fin, b);
    FinalizedInTree(tree, n, l, fin, b);
    AskedIsNext(tree, n, l, fin, b);
    var w' := Remembers(w, n, fin', map[]);
    l' := Turn(tree, n, period, l, b).value;
  }

  // The turn fetches: it panics at a clash, and otherwise it changes nothing but memory.
  lemma TurnFetchesExactly(tree: map<Hash, Block>, n: nat, period: int, l: Loop, fin: seq<Block>, b: Block) returns (l': Loop)
    requires n >= 1 && period >= 1 && LoopOk(tree, n, l, fin) && Asked(tree, l, b) && !WindowIn(tree, l, b)
    ensures Turn(tree, n, period, l, b) == if TrailClashes(tree, l.watcher, b, 0, 10) then None else Some(l')
    ensures l'.height == l.height && LoopOk(tree, n, l', fin)
  {
    TipWalk(tree, l, b);
    AskedIsNext(tree, n, l, fin, b);
    var w := Remembers(l.watcher, n, fin, l.watcher.hashToBlock[b.hashId := b]);
    assert AddBlock(l.watcher, n, b) == (w, AskedNext(tree, l.watcher.hashToBlock, b, 0));
    var w' := TraceExactly(tree, n, l.watcher, w, fin, b, 0, 10);
    l' := Loop(w', l.height);
  }

  /** One turn, with any answer of the height asked for, any epoch length, any clearing so far and
      a chain from height 0 or 1: it panics exactly when Panics says so of the state before it;
      otherwise it accepts the answer exactly when the window is in memory, and finalizes the
      tenth ancestor; or it only fetches. */
  lemma TurnExactly(tree: map<Hash, Block>, n: nat, period: int, l: Loop, fin: seq<Block>, b: Block) returns (l': Loop)
    requires n >= 1 && period >= 1 && LoopOk(tree, n, l, fin) && Asked(tree, l, b)
    ensures Turn(tree, n, period, l, b) == if Panics(tree, l, b) then None else Some(l')
    ensures !Panics(tree, l, b) ==> LoopOk(tree, n, l', FinalizedAfter(tree, l, fin, b))
    ensures !Panics(tree, l, b) ==> l'.height == l.height + if WindowIn(tree, l, b) then 1 else 0
  {
    l' := l;
    if !WindowIn(tree, l, b) {
      l' := TurnFetchesExactly(tree, n, period, l, fin, b);
    } else if ReachesZero(tree, b) {
      var w := TipExactly(tree, n, l, fin, b);
    } else {
      l' := TurnAcceptsExactly(tree, n, period, l, fin, b);
    }
  }

  // ----- Which answers keep the finalized blocks one chain -----

  // The answer descends from the latest finalized block, its eleventh ancestor.
  ghost predicate HoldsLatest(tree: map<Hash, Block>, l: Loop, b: Block)
    requires TreeOk(tree) && InTree(tree, b)
  {
    var latest := l.watcher.latestFinalizedHeight;
    latest <= 0 ||
    (0 <= b.height - latest <= Depth(tree, b)
     && IsStored(l.watcher.heightToFinalizedBlock, Ancestor(tree, b, b.height - latest)))
  }

  lemma LinkedBefore(fin: seq<Block>, p: Block)
    ensures Linked(fin + [p]) ==> Linked(fin)
    ensures Linked(fin + [p]) <==>
      Linked(fin) && p.height == |fin| + 1 && (fin != [] ==> p.parentBlk == fin[|fin| - 1].hashId)
  {
    var fin' := fin + [p];
    if Linked(fin') {
      forall i | 0 <= i < |fin| ensures fin[i].height == i + 1 {
        assert fin'[i] == fin[i];
      }
      forall i | 0 < i < |fin| ensures LinkedAt(fin, i) {
        assert LinkedAt(fin', i);
      }
      assert fin != [] ==> LinkedAt(fin', |fin|);
      assert fin'[|fin|] == p;
    } else if Linked(fin) && p.height == |fin| + 1 && (fin != [] ==> p.parentBlk == fin[|fin| - 1].hashId) {
      forall i | 0 < i < |fin'| ensures LinkedAt(fin', i) {
        assert i < |fin| ==> LinkedAt(fin, i);
      }
    }
  }

  lemma LatestIsEleventh(tree: map<Hash, Block>, n: nat, l: Loop, fin: seq<Block>, b: Block)
    requires n >= 1 && LoopOk(tree, n, l, fin) && Asked(tree, l, b) && fin != []
    ensures b.height == |fin| + 11 && Depth(tree, b) >= 11
    ensures HoldsLatest(tree, l, b) <==> Ancestor(tree, b, 10).parentBlk == fin[|fin| - 1].hashId
  {
    LatestStored(l.watcher, n, fin);
    ParentOfAncestor(tree, b, 10);
    var a, last := Ancestor(tree, b, 11), fin[|fin| - 1];
    assert InTree(tree, a) && InTree(tree, last);
    assert a == last <==> a.hashId == last.hashId;
  }

  /** An accepted answer keeps the finalized blocks one hash-linked chain exactly when it descends
      from the latest of them. */
  lemma LinksExactly(tree: map<Hash, Block>, n: nat, l: Loop, fin: seq<Block>, b: Block)
    requires n >= 1 && LoopOk(tree, n, l, fin) && Asked(tree, l, b) && !Panics(tree, l, b)
    ensures Linked(FinalizedAfter(tree, l, fin, b)) <==> Linked(fin) && (WindowIn(tree, l, b) ==> HoldsLatest(tree, l, b))
  {
    AskedIsNext(tree, n, l, fin, b);
    if WindowIn(tree, l, b) && Depth(tree, b) >= 10 {
      LinkedBefore(fin, Ancestor(tree, b, 10));
    }
    if fin != [] {
      LatestIsEleventh(tree, n, l, fin, b);
    }
  }

  // ----- Runs -----

  // Every answer of the run is fine in the state in which it is given.
  ghost predicate EveryAnswer(tree: map<Hash, Block>, n: int, period: int, served: seq<Block>, fine: (Loop, Block) -> bool)
    requires period >= 1
  {
    served == [] ||
    var init := served[..|served| - 1];
    && EveryAnswer(tree, n, period, init, fine)
    && (RunNode(tree, n, period, init).Some? ==> fine(RunNode(tree, n, period, init).value, served[|served| - 1]))
  }

  ghost function AskedIn(tree: map<Hash, Block>): (Loop, Block) -> bool {
    (l, b) => Asked(tree, l, b)
  }

  ghost function HarmlessIn(tree: map<Hash, Block>): (Loop, Block) -> bool {
    (l, b) => Asked(tree, l, b) && !Panics(tree, l, b)
  }

  // An answer that is accepted descends from the latest finalized block.
  ghost function LinkingIn(tree: map<Hash, Block>): (Loop, Block) -> bool {
    (l, b) => Asked(tree, l, b) && (WindowIn(tree, l, b) ==> HoldsLatest(tree, l, b))
  }

  /** All runs, against any node that answers with blocks of the height it is asked for: the loop
      gets through exactly when no turn panics, is then ten blocks behind the height it has
      accepted, and its finalized blocks form one hash-linked chain exactly when each accepted
      answer descended from the latest finalized block. */
  lemma {:induction false} RunExactly(tree: map<Hash, Block>, n: nat, period: int, served: seq<Block>)
    returns (l: Loop, fin: seq<Block>)
    requires n >= 1 && period >= 1 && TreeOk(tree) && EveryAnswer(tree, n, period, served, AskedIn(tree))
    ensures RunNode(tree, n, period, served).Some? <==> EveryAnswer(tree, n, period, served, HarmlessIn(tree))
    ensures RunNode(tree, n, period, served).Some? ==>
      && RunNode(tree, n, period, served) == Some(l) && LoopOk(tree, n, l, fin)
      && (Linked(fin) <==> EveryAnswer(tree, n, period, served, LinkingIn(tree)))
  {
    if served == [] {
      NewWatcherRecords(n);
      l, fin := Loop(NewWatcher(0), 0), [];
    } else {
      var init, b := served[..|served| - 1], served[|served| - 1];
      l, fin := RunExactly(tree, n, period, init);
      if RunNode(tree, n, period, init).Some? {
        assert AskedIn(tree)(l, b);
        var l' := TurnExactly(tree, n, period, l, fin, b);
        if !Panics(tree, l, b) {
          LinksExactly(tree, n, l, fin, b);
          l, fin := l', FinalizedAfter(tree, l, fin, b);
        }
      }
    }
  }

  // ----- Chains from height 0 -----

  ghost function FromZeroIn(tree: map<Hash, Block>): (Loop, Block) -> bool {
    (l, b) => Asked(tree, l, b) && Depth(tree, b) == b.height
  }

  // No answer of height 10 finds its window in memory.
  ghost function BelowTenIn(tree: map<Hash, Block>): (Loop, Block) -> bool {
    (l, b) => Asked(tree, l, b) && !(b.height == 10 && WindowIn(tree, l, b))
  }

  lemma FromZeroPanicsExactly(tree: map<Hash, Block>, l: Loop, b: Block)
    requires Asked(tree, l, b) && Depth(tree, b) == b.height && l.height <= 9
    ensures Panics(tree, l, b) <==> b.height == 10 && WindowIn(tree, l, b)
  {
    if !WindowIn(tree, l, b) {
      forall t | t in Trail(tree, l.watcher.hashToBlock, b, 0, 10) ensures !Clashes(tree, l.watcher, b, t) {
      }
    }
  }

  /** Against a node whose chain starts at height 0, whatever branches it takes, the loop gets through
      exactly as long as it does not come to accept height 10, and it finalizes nothing. */
  lemma {:induction false} FromZeroRunExactly(tree: map<Hash, Block>, n: nat, period: int, served: seq<Block>)
    returns (l: Loop)
    requires n >= 1 && period >= 1 && TreeOk(tree) && EveryAnswer(tree, n, period, served, FromZeroIn(tree))
    ensures RunNode(tree, n, period, served).Some? <==> EveryAnswer(tree, n, period, served, BelowTenIn(tree))
    ensures RunNode(tree, n, period, served).Some? ==>
      RunNode(tree, n, period, served) == Some(l) && LoopOk(tree, n, l, []) && l.height <= 9
  {
    if served == [] {
      NewWatcherRecords(n);
      l := Loop(NewWatcher(0), 0);
    } else {
      var init, b := served[..|served| - 1], served[|served| - 1];
      l := FromZeroRunExactly(tree, n, period, init);
      if RunNode(tree, n, period, init).Some? {
        assert FromZeroIn(tree)(l, b);
        FromZeroPanicsExactly(tree, l, b);
        l := TurnExactly(tree, n, period, l, [], b);
      }
    }
  }

  // ----- What stays in memory -----

  // The hash of a finalized block whose height is no longer stored.
  ghost predicate Dropped(w: State, w': State, h: Hash) {
    exists k :: k in w.heightToFinalizedBlock && k !in w'.heightToFinalizedBlock && w.heightToFinalizedBlock[k].hashId == h
  }

  // Memory loses only blocks that are dropped from the finalized ones.
  ghost predicate ForgetsDropped(w: State, w': State) {
    forall h :: h in w.hashToBlock ==> h in w'.hashToBlock || Dropped(w, w', h)
  }

  lemma {:induction false} ClearBelowForgets(w: State, height: int)
    ensures ForgetsDropped(w, ClearBelow(w, height))
    ensures ClearBelow(w, height).heightToFinalizedBlock.Keys <= w.heightToFinalizedBlock.Keys
    decreases |w.heightToFinalizedBlock|
  {
    if height in w.heightToFinalizedBlock {
      var gone := w.heightToFinalizedBlock[height].hashId;
      var w1 := w.(heightToFinalizedBlock := w.heightToFinalizedBlock - {height}, hashToBlock := w.hashToBlock - {gone});
      ClearBelowForgets(w1, height - 1);
      var r := ClearBelow(w, height);
      assert height !in r.heightToFinalizedBlock;
      forall h | h in w.hashToBlock && h !in r.hashToBlock ensures Dropped(w, r, h) {
        if h in w1.hashToBlock {
          var k :| k in w1.heightToFinalizedBlock && k !in r.heightToFinalizedBlock && w1.heightToFinalizedBlock[k].hashId == h;
          assert k in w.heightToFinalizedBlock;
        }
      }
    }
  }

  lemma EpochForgets(w: State, n: int)
    requires GenerateNewEpoch(w, n).1.Done?
    ensures ForgetsDropped(w, GenerateNewEpoch(w, n).0)
  {
    var start := w.lastEpochEndHeight + 1;
    var e := EpochOf(Window(w.heightToFinalizedBlock, start, w.latestFinalizedHeight).value, start, LastEpoch(w.epochList));
    var w1 := w.(epochList := w.epochList + [e], sent := w.sent + [e], lastEpochEndHeight := w.latestFinalizedHeight);
    assert e.startHeight == start && w1.epochList[|w1.epochList| - 1] == e;
    ClearBelowForgets(w1, start - 5 * n);
  }

  lemma FinalizeForgets(w: State, n: int, p: Block)
    requires Finalize(w, n, p).1.Done?
    ensures ForgetsDropped(w.(heightToFinalizedBlock := w.heightToFinalizedBlock[p.height := p]), Finalize(w, n, p).0)
  {
    var w2 := w.(heightToFinalizedBlock := w.heightToFinalizedBlock[p.height := p], latestFinalizedHeight := p.height);
    if w2.latestFinalizedHeight - w2.lastEpochEndHeight == n {
      EpochForgets(w2, n);
    }
  }

  // What the turn holds after the answer has been added, before anything is dropped.
  lemma TipForgets(tree: map<Hash, Block>, n: nat, l: Loop, fin: seq<Block>, b: Block)
    requires n >= 1 && LoopOk(tree, n, l, fin) && Asked(tree, l, b) && WindowIn(tree, l, b) && !ReachesZero(tree, b)
    ensures var w' := AddBlock(l.watcher, n, b).0;
      forall h :: h == b.hashId || h in l.watcher.hashToBlock ==> h in w'.hashToBlock || Dropped(l.watcher, w', h)
  {
    var w := TipExactly(tree, n, l, fin, b);
    var fin' := FinalizedAfter(tree, l, fin, b);
    TipWalk(tree, l, b);
    AskedIsNext(tree, n, l, fin, b);
    if Depth(tree, b) >= 10 {
      var p, w1 := Ancestor(tree, b, 10), l.watcher.(hashToBlock := l.watcher.hashToBlock[b.hashId := b]);
      NotYetFinal(l.watcher, n, fin, p);
      FinalizeForgets(w1, n, p);
      LatestIsKept(w, n, fin');
      var w2 := w1.(heightToFinalizedBlock := w1.heightToFinalizedBlock[p.height := p]);
      forall h | h in w1.hashToBlock && h !in w.hashToBlock ensures Dropped(l.watcher, w, h) {
        var k :| k in w2.heightToFinalizedBlock && k !in w.heightToFinalizedBlock && w2.heightToFinalizedBlock[k].hashId == h;
        assert k != p.height;
      }
    }
  }

  lemma LatestIsKept(w: State, n: nat, fin: seq<Block>)
    requires n >= 1 && Records(w, n, fin) && fin != []
    ensures |fin| in w.heightToFinalizedBlock
  {
    var k := |w.sent|;
    if k > 0 {
      LowMoves(k - 1, n);
    }
  }

  lemma AnswerIsNotFinalized(tree: map<Hash, Block>, n: nat, l: Loop, fin: seq<Block>, b: Block, w': State)
    requires LoopOk(tree, n, l, fin) && Asked(tree, l, b)
    ensures !Dropped(l.watcher, w', b.hashId)
  {
    AskedIsNext(tree, n, l, fin, b);
    forall k | k in l.watcher.heightToFinalizedBlock ensures l.watcher.heightToFinalizedBlock[k].hashId != b.hashId {
      assert l.watcher.heightToFinalizedBlock[k] == fin[k - 1];
    }
  }

  /** An accepted answer whose height is a multiple of the period empties the memory; any other stays
      in memory itself, with all blocks but those whose heights are dropped from the finalized ones. */
  lemma AcceptedMemory(tree: map<Hash, Block>, n: nat, period: int, l: Loop, fin: seq<Block>, b: Block) returns (l': Loop)
    requires n >= 1 && period >= 1 && LoopOk(tree, n, l, fin) && Asked(tree, l, b)
    requires WindowIn(tree, l, b) && !ReachesZero(tree, b)
    ensures Turn(tree, n, period, l, b) == Some(l')
    ensures b.height % period == 0 ==> l'.watcher.hashToBlock == map[]
    ensures b.height % period != 0 ==> b.hashId in l'.watcher.hashToBlock && ForgetsDropped(l.watcher, l'.watcher)
  {
    l' := TurnAcceptsExactly(tree, n, period, l, fin, b);
    TipForgets(tree, n, l, fin, b);
    AnswerIsNotFinalized(tree, n, l, fin, b, AddBlock(l.watcher, n, b).0);
  }
}
