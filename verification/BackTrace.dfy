/** Why re-fetching ten parents is enough after the watcher has cleared its memory. */
module BackTrace {
  import opened Words
  import opened Watcher
  import opened Epochs
  import opened Finality

  /** A linear chain from its first block on, which has height 0 or 1: the block of height h is
      chain[h - Base(chain)]. */
  ghost predicate Path(tree: map<Hash, Block>, chain: seq<Block>) {
    && |chain| > 0 && chain[0].parentBlk == 0
    && (forall i :: 0 <= i < |chain| ==> InTree(tree, chain[i]) && chain[i].height == chain[0].height + i)
    && (forall i {:trigger LinkedAt(chain, i)} :: 0 < i < |chain| ==> LinkedAt(chain, i))
  }

  function Base(chain: seq<Block>): int
    requires |chain| > 0
  {
    chain[0].height
  }

  lemma {:induction false} PathAncestors(tree: map<Hash, Block>, chain: seq<Block>, i: nat, k: nat)
    requires TreeOk(tree) && Path(tree, chain) && k <= i < |chain|
    ensures InTree(tree, chain[i]) && Depth(tree, chain[i]) == i && Ancestor(tree, chain[i], k) == chain[i - k]
    decreases i
  {
    assert InTree(tree, chain[i]);
    if i > 0 {
      assert LinkedAt(chain, i) && InTree(tree, chain[i - 1]);
      assert tree[chain[i].parentBlk] == chain[i - 1];
      PathAncestors(tree, chain, i - 1, if k > 0 then k - 1 else 0);
    }
  }

  // How many blocks are finalized once height m has been accepted.
  function FinalizedCount(m: nat): nat {
    if m > 10 then m - 10 else 0
  }

  // The state after the first m blocks of the chain have been accepted.
  ghost predicate Accepted(w: State, n: nat, tree: map<Hash, Block>, chain: seq<Block>, m: nat) {
    && TreeOk(tree) && Path(tree, chain) && m <= |chain| && (Base(chain) == 0 ==> m <= 10)
    && Records(w, n, chain[..FinalizedCount(m)])
    && Within(w.hashToBlock, tree)
  }

  // The last ten of the first m blocks, or all of them, are in memory.
  ghost predicate HoldsWindow(w: State, chain: seq<Block>, m: nat)
    requires m <= |chain|
  {
    forall i :: FinalizedCount(m) <= i < m ==> chain[i].hashId in w.hashToBlock
  }

  // Of the first m + 1 blocks exactly those from position j on are in memory.
  ghost predicate HoldsExactly(w: State, chain: seq<Block>, j: nat, m: nat)
    requires j <= m + 1 && m < |chain|
  {
    && (forall i :: j <= i <= m ==> chain[i].hashId in w.hashToBlock)
    && (forall i :: 0 <= i < j ==> chain[i].hashId !in w.hashToBlock)
  }

  // A watcher asks for height 1 first; a block of height 0 counts as accepted unseen.
  lemma NewWatcherAccepted(n: nat, tree: map<Hash, Block>, chain: seq<Block>)
    requires n >= 1 && TreeOk(tree) && Path(tree, chain)
    ensures 0 <= Base(chain) <= 1
    ensures Accepted(NewWatcher(0), n, tree, chain, 1 - Base(chain))
    ensures Base(chain) == 1 ==> HoldsWindow(NewWatcher(0), chain, 0)
  {
    NewWatcherRecords(n);
    assert InTree(tree, chain[0]);
    assert chain[..0] == [];
  }

  lemma DistinctHashes(tree: map<Hash, Block>, chain: seq<Block>, i: nat, j: nat)
    requires Path(tree, chain) && i < |chain| && j < |chain|
    ensures chain[i].hashId == chain[j].hashId <==> i == j
  {
    assert InTree(tree, chain[i]) && InTree(tree, chain[j]);
  }

  lemma WalkOnChain(w: State, tree: map<Hash, Block>, chain: seq<Block>, m: nat)
    requires TreeOk(tree) && Path(tree, chain) && m < |chain|
    requires Within(w.hashToBlock, tree) && HoldsWindow(w, chain, m)
    ensures Walk(w.hashToBlock[chain[m].hashId := chain[m]], chain[m], CONFIRMATIONS) ==
            if m < 10 then Genesis else Reached(chain[m - 10])
  {
    var blocks := w.hashToBlock[chain[m].hashId := chain[m]];
    PathAncestors(tree, chain, m, 0);
    var stop := WalkFinds(tree, blocks, chain[m], CONFIRMATIONS);
    match Walk(blocks, chain[m], CONFIRMATIONS)
    case Genesis =>
    case Reached(x) => PathAncestors(tree, chain, m, 10);
    case Lacks(h) => PathAncestors(tree, chain, m, stop);
  }

  lemma WindowSurvives(w: State, w': State, n: nat, tree: map<Hash, Block>, chain: seq<Block>, m: nat)
    requires Path(tree, chain) && 10 <= m < |chain| && HoldsWindow(w, chain, m)
    requires Advances(w.(hashToBlock := w.hashToBlock[chain[m].hashId := chain[m]]), w', n, chain[..m - 9])
    ensures HoldsWindow(w', chain, m + 1)
  {
    var low := chain[..m - 9];
    forall i | m - 9 <= i < m + 1 ensures chain[i].hashId in w'.hashToBlock {
      forall j | 0 <= j < |low| ensures low[j].hashId != chain[i].hashId {
        DistinctHashes(tree, chain, i, j);
      }
      assert chain[i].hashId !in HashesBetween(low, Low(|w.sent|, n), Low(|w'.sent|, n) - 1);
    }
  }

  /** With the window in memory the next block of the chain is accepted: it finalizes the block
      ten below it, if there is one, and the window moves up by one. */
  lemma AcceptsNext(w: State, n: nat, tree: map<Hash, Block>, chain: seq<Block>, m: nat)
    requires n >= 1 && m < |chain| && Accepted(w, n, tree, chain, m) && HoldsWindow(w, chain, m)
    requires m < 10 || Base(chain) == 1
    ensures AddBlock(w, n, chain[m]).1 == Done
    ensures Accepted(AddBlock(w, n, chain[m]).0, n, tree, chain, m + 1)
    ensures HoldsWindow(AddBlock(w, n, chain[m]).0, chain, m + 1)
  {
    WalkOnChain(w, tree, chain, m);
    assert InTree(tree, chain[m]);
    if m >= 10 {
      FinalizesTenBelow(w, n, tree, chain, m);
    }
  }

  /** On a chain that starts at height 0 the tenth block above it is where the watcher panics. */
  lemma PanicsAtTen(w: State, n: nat, tree: map<Hash, Block>, chain: seq<Block>)
    requires |chain| > 10 && Base(chain) == 0 && Accepted(w, n, tree, chain, 10) && HoldsWindow(w, chain, 10)
    ensures AddBlock(w, n, chain[10]).1 == Panicked(HeightSkipped)
  {
    WalkOnChain(w, tree, chain, 10);
    assert chain[..0] == [];
  }

  lemma FinalizesTenBelow(w: State, n: nat, tree: map<Hash, Block>, chain: seq<Block>, m: nat)
    requires n >= 1 && 10 <= m < |chain| && Accepted(w, n, tree, chain, m) && HoldsWindow(w, chain, m) && Base(chain) == 1
    ensures chain[m - 10].height !in w.heightToFinalizedBlock
    ensures var (w', o) := Finalize(w.(hashToBlock := w.hashToBlock[chain[m].hashId := chain[m]]), n, chain[m - 10]);
            o == Done && Accepted(w', n, tree, chain, m + 1) && HoldsWindow(w', chain, m + 1)
  {
    var fin, p := chain[..m - 10], chain[m - 10];
    var w1 := w.(hashToBlock := w.hashToBlock[chain[m].hashId := chain[m]]);
    FinalizeRecords(w1, n, fin, p);
    assert fin + [p] == chain[..m - 9];
    assert InTree(tree, chain[m]);
    WindowSurvives(w, Finalize(w1, n, p).0, n, tree, chain, m);
  }

  // The answer to the block at position j when its parent is not in memory.
  function AskFor(chain: seq<Block>, j: nat): Outcome
    requires j <= |chain|
  {
    if j == 0 then Done else Missing(chain[j - 1].hashId)
  }

  /** Without the parent in memory a block is only stored and its parent asked for. */
  lemma AsksForParent(w: State, n: nat, tree: map<Hash, Block>, chain: seq<Block>, m: nat, j: nat)
    requires Accepted(w, n, tree, chain, m) && j < |chain|
    requires j > 0 ==> chain[j - 1].hashId !in w.hashToBlock
    ensures AddBlock(w, n, chain[j]) ==
            (w.(hashToBlock := w.hashToBlock[chain[j].hashId := chain[j]]), AskFor(chain, j))
    ensures Accepted(AddBlock(w, n, chain[j]).0, n, tree, chain, m)
  {
    assert InTree(tree, chain[j]);
    if j > 0 {
      assert InTree(tree, chain[j - 1]) && LinkedAt(chain, j);
      assert chain[j].parentBlk == chain[j - 1].hashId != chain[j].hashId;
    } else {
      assert 0 !in w.hashToBlock by {
        assert 0 in tree ==> NodeOk(tree, 0);
      }
    }
  }

  lemma StepsDown(w: State, tree: map<Hash, Block>, chain: seq<Block>, j: nat, m: nat)
    requires Path(tree, chain) && 0 < j <= m < |chain| && HoldsExactly(w, chain, j, m)
    ensures HoldsExactly(w.(hashToBlock := w.hashToBlock[chain[j - 1].hashId := chain[j - 1]]), chain, j - 1, m)
  {
    forall i | 0 <= i < j - 1 ensures chain[i].hashId != chain[j - 1].hashId {
      DistinctHashes(tree, chain, i, j - 1);
    }
  }

  lemma TraceBackStep(tree: map<Hash, Block>, n: int, w: State, h: Hash, i: nat, w1: State, o1: Outcome)
    requires i > 0 && h in tree && AddBlock(w, n, tree[h]) == (w1, o1) && !o1.Panicked?
    ensures TraceBack(tree, n, w, Missing(h), i) == TraceBack(tree, n, w1, o1, i - 1)
  {
  }

  lemma WindowComplete(w: State, chain: seq<Block>, m: nat, j: nat, i: nat)
    requires j <= m < |chain| && i <= 10 && m - j == 10 - i && (j == 0 || i == 0) && HoldsExactly(w, chain, j, m)
    ensures HoldsWindow(w, chain, m)
  {
  }

  lemma LinearStep(w: State, n: nat, tree: map<Hash, Block>, chain: seq<Block>, m: nat, j: nat, i: nat) returns (w': State)
    requires n >= 1 && 0 < j <= m < |chain| && i > 0
    requires Accepted(w, n, tree, chain, m) && HoldsExactly(w, chain, j, m)
    ensures TraceBack(tree, n, w, AskFor(chain, j), i) == TraceBack(tree, n, w', AskFor(chain, j - 1), i - 1)
    ensures Accepted(w', n, tree, chain, m) && HoldsExactly(w', chain, j - 1, m)
  {
    assert InTree(tree, chain[j - 1]);
    AsksForParent(w, n, tree, chain, m, j - 1);
    StepsDown(w, tree, chain, j, m);
    w' := w.(hashToBlock := w.hashToBlock[chain[j - 1].hashId := chain[j - 1]]);
    TraceBackStep(tree, n, w, chain[j - 1].hashId, i, w', AskFor(chain, j - 1));
  }

  /** On a linear chain tracing back fetches the window block by block and never panics. */
  lemma {:induction false} LinearTraceBack(w: State, n: nat, tree: map<Hash, Block>, chain: seq<Block>, m: nat, j: nat, i: nat)
    returns (w': State)
    requires n >= 1 && j <= m < |chain| && i <= 10 && m - j == 10 - i
    requires Accepted(w, n, tree, chain, m) && HoldsExactly(w, chain, j, m)
    ensures TraceBack(tree, n, w, AskFor(chain, j), i) == Some(w')
    ensures Accepted(w', n, tree, chain, m) && HoldsWindow(w', chain, m)
    decreases i
  {
    if j == 0 || i == 0 {
      w' := w;
      WindowComplete(w, chain, m, j, i);
    } else {
      var w1 := LinearStep(w, n, tree, chain, m, j, i);
      w' := LinearTraceBack(w1, n, tree, chain, m, j - 1, i - 1);
    }
  }

  // ----- The main loop on a linear chain -----

  // The next block of the main loop is chain[m]; either its window is in memory or nothing is.
  ghost predicate Following(l: Loop, n: nat, tree: map<Hash, Block>, chain: seq<Block>, m: nat, held: bool) {
    && Accepted(l.watcher, n, tree, chain, m) && l.height + 1 == m + Base(chain)
    && (held ==> HoldsWindow(l.watcher, chain, m))
    && (!held ==> l.watcher.hashToBlock == map[] && m > 0)
  }

  lemma OnlyOneHeld(w: State, tree: map<Hash, Block>, chain: seq<Block>, m: nat)
    requires Path(tree, chain) && m < |chain| && w.hashToBlock == map[]
    ensures HoldsExactly(w.(hashToBlock := w.hashToBlock[chain[m].hashId := chain[m]]), chain, m, m)
  {
    forall i | 0 <= i < m ensures chain[i].hashId != chain[m].hashId {
      DistinctHashes(tree, chain, i, m);
    }
  }

  // After memory has been cleared a turn only fetches the window.
  lemma TurnFetches(l: Loop, n: nat, period: int, tree: map<Hash, Block>, chain: seq<Block>, m: nat) returns (l': Loop)
    requires n >= 1 && period >= 1 && Following(l, n, tree, chain, m, false) && m < |chain|
    ensures Turn(tree, n, period, l, chain[m]) == Some(l')
    ensures l'.height == l.height && Following(l', n, tree, chain, m, true)
  {
    AsksForParent(l.watcher, n, tree, chain, m, m);
    OnlyOneHeld(l.watcher, tree, chain, m);
    var w := LinearTraceBack(AddBlock(l.watcher, n, chain[m]).0, n, tree, chain, m, m, 10);
    l' := Loop(w, l.height);
  }

  // With the window in memory a turn accepts the block, and may clear memory.
  lemma TurnFollows(l: Loop, n: nat, period: int, tree: map<Hash, Block>, chain: seq<Block>, m: nat) returns (l': Loop, held: bool)
    requires n >= 1 && period >= 1 && Following(l, n, tree, chain, m, true) && m < |chain| && (m < 10 || Base(chain) == 1)
    ensures Turn(tree, n, period, l, chain[m]) == Some(l')
    ensures l'.height == l.height + 1 && Following(l', n, tree, chain, m + 1, held)
  {
    AcceptsNext(l.watcher, n, tree, chain, m);
    l' := Turn(tree, n, period, l, chain[m]).value;
    held := (l.height + 1) % period != 0;
  }

  /** One turn on a linear chain: it panics exactly at the tenth block above a block of height 0. */
  lemma LinearTurn(l: Loop, n: nat, period: int, tree: map<Hash, Block>, chain: seq<Block>, m: nat, held: bool)
    returns (l': Loop, m': nat, held': bool)
    requires n >= 1 && period >= 1 && Following(l, n, tree, chain, m, held) && m < |chain|
    ensures Turn(tree, n, period, l, chain[m]).None? <==> held && m == 10 && Base(chain) == 0
    ensures Turn(tree, n, period, l, chain[m]).Some? ==>
      && Turn(tree, n, period, l, chain[m]) == Some(l')
      && Following(l', n, tree, chain, m', held') && if held then m' == m + 1 else m' == m && held'
  {
    l', m', held' := l, m, held;
    if !held {
      l' := TurnFetches(l, n, period, tree, chain, m);
      held' := true;
    } else if m < 10 || Base(chain) == 1 {
      l', held' := TurnFollows(l, n, period, tree, chain, m);
      m' := m + 1;
    } else {
      PanicsAtTen(l.watcher, n, tree, chain);
    }
  }

  // What the main loop has done when it has accepted the height of l.
  lemma FollowedTo(l: Loop, n: nat, tree: map<Hash, Block>, chain: seq<Block>, m: nat, held: bool)
    requires Following(l, n, tree, chain, m, held)
    ensures 0 <= Base(chain) <= 1 && m == l.height + 1 - Base(chain) && (Base(chain) == 1 || l.height < 10)
    ensures l.watcher.latestFinalizedHeight == if l.height > 10 then l.height - 10 else 0
    ensures 0 <= l.watcher.latestFinalizedHeight <= |chain|
    ensures Records(l.watcher, n, chain[..l.watcher.latestFinalizedHeight])
  {
    assert InTree(tree, chain[0]);
  }
}
