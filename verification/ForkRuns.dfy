/** Two runs of the main loop against a node that leaves the branch with the latest finalized block:
    one finalizes blocks that do not link, the other one panics. */
module ForkRuns {
  import opened Words
  import opened Watcher
  import opened Finality
  import opened BackTrace

  const LAST: nat := 28
  const FORK: nat := 15

  // The main branch, and a side branch that leaves it behind height 14.
  function OnMain(i: nat): Block
    requires 1 <= i <= LAST
  {
    Block(i, 0, 2 * i, 2 * (i - 1), [])
  }

  function OnSide(i: nat): Block
    requires FORK <= i <= LAST
  {
    Block(i, 0, 2 * i + 1, if i == FORK then 2 * (i - 1) else 2 * (i - 1) + 1, [])
  }

  // ----- Memory -----

  function Remembered(blocks: map<Hash, Block>, b: Block): map<Hash, Block> {
    blocks[b.hashId := b]
  }

  ghost predicate Has(blocks: map<Hash, Block>, b: Block) {
    b.hashId in blocks && blocks[b.hashId] == b
  }

  ghost predicate HoldsMain(blocks: map<Hash, Block>, k: nat)
    requires k <= LAST
  {
    0 !in blocks && forall i: nat {:trigger OnMain(i)} :: 1 <= i <= k ==> Has(blocks, OnMain(i))
  }

  ghost predicate HoldsSide(blocks: map<Hash, Block>, from: nat, to: nat)
    requires FORK <= from && to <= LAST
  {
    forall i: nat {:trigger OnSide(i)} :: from <= i <= to ==> Has(blocks, OnSide(i))
  }

  ghost predicate LacksSide(blocks: map<Hash, Block>, from: nat, to: nat)
    requires FORK <= from && to <= LAST
  {
    forall i: nat {:trigger OnSide(i)} :: from <= i <= to ==> OnSide(i).hashId !in blocks
  }

  // A tree that holds both branches.
  ghost predicate HoldsBoth(tree: map<Hash, Block>) {
    TreeOk(tree) && HoldsMain(tree, LAST) && HoldsSide(tree, FORK, LAST)
  }

  // ----- Following the main branch -----

  function FinalizedMain(k: nat): map<int, Block>
    requires k <= LAST
  {
    if k == 0 then map[] else FinalizedMain(k - 1)[k := OnMain(k)]
  }

  lemma {:induction false} FinalizedMainIs(k: nat)
    requires k <= LAST
    ensures forall h: int :: h in FinalizedMain(k) <==> 1 <= h <= k
    ensures forall h: nat :: 1 <= h <= k ==> FinalizedMain(k)[h] == OnMain(h)
  {
    if k > 0 {
      FinalizedMainIs(k - 1);
    }
  }

  // The state after the first k heights of the main branch, with some memory.
  function Followed(k: nat, blocks: map<Hash, Block>): State
    requires k <= LAST
  {
    State(0, FinalizedCount(k), blocks, FinalizedMain(FinalizedCount(k)), [], [])
  }

  lemma {:induction false} WalkMain(blocks: map<Hash, Block>, i: nat, steps: nat)
    requires 1 <= i <= LAST && HoldsMain(blocks, i)
    ensures Walk(blocks, OnMain(i), steps) == if steps < i then Reached(OnMain(i - steps)) else Genesis
    decreases steps
  {
    if steps > 0 && i > 1 {
      assert Has(blocks, OnMain(i - 1));
      WalkMain(blocks, i - 1, steps - 1);
    }
  }

  lemma MainRemembered(blocks: map<Hash, Block>, k: nat)
    requires k < LAST && HoldsMain(blocks, k)
    ensures HoldsMain(Remembered(blocks, OnMain(k + 1)), k + 1)
  {
  }

  lemma MainAdded(n: nat, blocks: map<Hash, Block>, k: nat)
    requires n > LAST && k < LAST && HoldsMain(blocks, k)
    ensures AddBlock(Followed(k, blocks), n, OnMain(k + 1)) ==
            (Followed(k + 1, Remembered(blocks, OnMain(k + 1))), Done)
  {
    var blocks' := Remembered(blocks, OnMain(k + 1));
    MainRemembered(blocks, k);
    WalkMain(blocks', k + 1, CONFIRMATIONS);
    FinalizedMainIs(FinalizedCount(k));
  }

  lemma MainTurn(tree: map<Hash, Block>, n: nat, period: nat, blocks: map<Hash, Block>, k: nat)
    requires n > LAST && period > LAST && k < LAST && HoldsMain(blocks, k)
    ensures Turn(tree, n, period, Loop(Followed(k, blocks), k), OnMain(k + 1)) ==
            Some(Loop(Followed(k + 1, Remembered(blocks, OnMain(k + 1))), k + 1))
  {
    MainAdded(n, blocks, k);
    NotCleared(period, k + 1);
  }

  lemma NotCleared(period: nat, height: nat)
    requires 0 < height < period
    ensures height % period != 0
  {
  }

  function MainChain(k: nat): seq<Block>
    requires k <= LAST
  {
    if k == 0 then [] else MainChain(k - 1) + [OnMain(k)]
  }

  function MainMemory(k: nat): map<Hash, Block>
    requires k <= LAST
  {
    if k == 0 then map[] else Remembered(MainMemory(k - 1), OnMain(k))
  }

  lemma {:induction false} MainMemoryIs(k: nat)
    requires k <= LAST
    ensures HoldsMain(MainMemory(k), k) && LacksSide(MainMemory(k), FORK, LAST)
  {
    if k > 0 {
      MainMemoryIs(k - 1);
      MainRemembered(MainMemory(k - 1), k - 1);
    }
  }

  lemma RunOneMore(tree: map<Hash, Block>, n: int, period: int, served: seq<Block>, b: Block)
    requires period >= 1
    ensures RunNode(tree, n, period, served + [b]) ==
            var l := RunNode(tree, n, period, served);
            if l.None? then None else Turn(tree, n, period, l.value, b)
  {
    assert (served + [b])[..|served|] == served;
  }

  lemma {:induction false} MainRun(tree: map<Hash, Block>, n: nat, period: nat, k: nat)
    requires n > LAST && period > LAST && k <= LAST
    ensures RunNode(tree, n, period, MainChain(k)) == Some(Loop(Followed(k, MainMemory(k)), k))
  {
    if k > 0 {
      MainRun(tree, n, period, k - 1);
      MainMemoryIs(k - 1);
      MainTurn(tree, n, period, MainMemory(k - 1), k - 1);
      RunOneMore(tree, n, period, MainChain(k - 1), OnMain(k));
    }
  }

  // ----- The side branch -----

  lemma {:induction false} WalkSide(blocks: map<Hash, Block>, i: nat, steps: nat)
    requires FORK <= i - steps && i <= LAST && HoldsSide(blocks, i - steps, i)
    ensures Walk(blocks, OnSide(i), steps) == Reached(OnSide(i - steps))
    decreases steps
  {
    if steps > 0 {
      assert Has(blocks, OnSide(i - 1));
      WalkSide(blocks, i - 1, steps - 1);
    }
  }

  lemma SideAsks(n: int, w: State, i: nat)
    requires FORK < i <= LAST && OnSide(i - 1).hashId !in w.hashToBlock
    ensures AddBlock(w, n, OnSide(i)) ==
            (w.(hashToBlock := Remembered(w.hashToBlock, OnSide(i))), Missing(OnSide(i - 1).hashId))
  {
  }

  // Memory after the c side blocks from height i downwards have been added.
  function Fetched(blocks: map<Hash, Block>, i: nat, c: nat): map<Hash, Block>
    requires i <= LAST && c + FORK <= i + 1
    decreases i
  {
    if c == 0 then blocks else Fetched(Remembered(blocks, OnSide(i)), i - 1, c - 1)
  }

  // The memory below the fetched blocks stays as it was.
  ghost predicate SameElsewhere(a: map<Hash, Block>, b: map<Hash, Block>, from: nat, to: nat)
    requires FORK <= from && to <= LAST
  {
    && (0 in a <==> 0 in b)
    && (forall k: nat {:trigger OnMain(k)} :: 1 <= k <= LAST ==> (Has(a, OnMain(k)) <==> Has(b, OnMain(k))))
    && (forall k: nat {:trigger OnSide(k)} :: FORK <= k <= LAST && !(from <= k <= to) ==>
          (Has(a, OnSide(k)) <==> Has(b, OnSide(k))) && (OnSide(k).hashId in a <==> OnSide(k).hashId in b))
  }

  lemma {:induction false} FetchedIs(blocks: map<Hash, Block>, i: nat, c: nat)
    requires i <= LAST && c + FORK <= i + 1
    ensures HoldsSide(Fetched(blocks, i, c), i - c + 1, i)
    ensures SameElsewhere(Fetched(blocks, i, c), blocks, i - c + 1, i)
    decreases c
  {
    if c > 0 {
      var blocks' := Remembered(blocks, OnSide(i));
      FetchedIs(blocks', i - 1, c - 1);
      assert SameElsewhere(blocks', blocks, i, i);
    }
  }

  lemma SideRemembered(blocks: map<Hash, Block>, from: nat, i: nat)
    requires FORK <= from && from < i <= LAST && LacksSide(blocks, from, i)
    ensures LacksSide(Remembered(blocks, OnSide(i)), from, i - 1)
  {
  }

  lemma SideStep(tree: map<Hash, Block>, n: int, w: State, i: nat, c: nat)
    requires HoldsSide(tree, FORK, LAST) && FORK < i <= LAST && c > 0 && OnSide(i - 1).hashId !in w.hashToBlock
    ensures TraceBack(tree, n, w, Missing(OnSide(i).hashId), c) ==
            TraceBack(tree, n, w.(hashToBlock := Remembered(w.hashToBlock, OnSide(i))), Missing(OnSide(i - 1).hashId), c - 1)
  {
    assert Has(tree, OnSide(i));
    SideAsks(n, w, i);
    TraceBackStep(tree, n, w, OnSide(i).hashId, c, w.(hashToBlock := Remembered(w.hashToBlock, OnSide(i))),
                  Missing(OnSide(i - 1).hashId));
  }

  // Fetching c side blocks from height i downwards.
  lemma {:induction false} SideTrace(tree: map<Hash, Block>, n: int, w: State, i: nat, c: nat) returns (w': State)
    requires HoldsSide(tree, FORK, LAST) && FORK <= i - c && i <= LAST && LacksSide(w.hashToBlock, i - c, i)
    ensures w' == w.(hashToBlock := Fetched(w.hashToBlock, i, c))
    ensures TraceBack(tree, n, w, Missing(OnSide(i).hashId), c) == Some(w')
    decreases c
  {
    w' := w;
    if c > 0 {
      SideStep(tree, n, w, i, c);
      SideRemembered(w.hashToBlock, i - c, i);
      w' := SideTrace(tree, n, w.(hashToBlock := Remembered(w.hashToBlock, OnSide(i))), i - 1, c - 1);
    }
  }

  // The first answer of the side branch is stored, and its ten ancestors are fetched.
  lemma SideFetched(tree: map<Hash, Block>, n: nat, period: nat, blocks: map<Hash, Block>, k: nat) returns (blocks': map<Hash, Block>)
    requires period >= 1 && HoldsBoth(tree) && FORK + 10 <= k < LAST && LacksSide(blocks, FORK, LAST) && HoldsMain(blocks, k)
    ensures Turn(tree, n, period, Loop(Followed(k, blocks), k), OnSide(k + 1)) == Some(Loop(Followed(k, blocks'), k))
    ensures HoldsMain(blocks', k) && HoldsSide(blocks', k - 9, k + 1) && LacksSide(blocks', k + 2, LAST)
  {
    var w := Followed(k, blocks);
    SideAsks(n, w, k + 1);
    var w1 := w.(hashToBlock := Remembered(blocks, OnSide(k + 1)));
    SideRemembered(blocks, k - 10, k + 1);
    var w2 := SideTrace(tree, n, w1, k, 10);
    blocks' := w2.hashToBlock;
    assert blocks' == Fetched(blocks, k + 1, 11);
    FetchedIs(blocks, k + 1, 11);
    forall i: nat | 1 <= i <= k ensures Has(blocks', OnMain(i)) {
      assert Has(blocks, OnMain(i));
    }
  }

  lemma StillHoldsSide(blocks: map<Hash, Block>, from: nat, to: nat)
    requires FORK <= from <= to <= LAST && HoldsSide(blocks, from, to)
    ensures Remembered(blocks, OnSide(to)) == blocks
  {
    assert Has(blocks, OnSide(to));
  }

  // Answered once more the side block is accepted, and its tenth ancestor finalized.
  lemma SideAccepted(tree: map<Hash, Block>, n: nat, period: nat, blocks: map<Hash, Block>, k: nat) returns (l: Loop)
    requires n > LAST && period > LAST && FORK + 10 <= k < LAST && HoldsSide(blocks, k - 9, k + 1)
    ensures Turn(tree, n, period, Loop(Followed(k, blocks), k), OnSide(k + 1)) == Some(l)
    ensures l.height == k + 1 && l.watcher.latestFinalizedHeight == k - 9
    ensures l.watcher.heightToFinalizedBlock == FinalizedMain(k - 10)[k - 9 := OnSide(k - 9)]
  {
    StillHoldsSide(blocks, k - 9, k + 1);
    WalkSide(blocks, k + 1, CONFIRMATIONS);
    FinalizedMainIs(k - 10);
    NotCleared(period, k + 1);
    l := Turn(tree, n, period, Loop(Followed(k, blocks), k), OnSide(k + 1)).value;
  }

  function SideOnce(k: nat): seq<Block>
    requires FORK + 10 <= k < LAST
  {
    MainChain(k) + [OnSide(k + 1)]
  }

  lemma SideOnceRun(tree: map<Hash, Block>, n: nat, period: nat, k: nat) returns (blocks: map<Hash, Block>)
    requires n > LAST && period > LAST && HoldsBoth(tree) && FORK + 10 <= k < LAST
    ensures RunNode(tree, n, period, SideOnce(k)) == Some(Loop(Followed(k, blocks), k))
    ensures HoldsMain(blocks, k) && HoldsSide(blocks, k - 9, k + 1) && LacksSide(blocks, k + 2, LAST)
  {
    MainRun(tree, n, period, k);
    MainMemoryIs(k);
    RunOneMore(tree, n, period, MainChain(k), OnSide(k + 1));
    blocks := SideFetched(tree, n, period, MainMemory(k), k);
  }

  /** The main branch up to height 25, then twice the side branch's block of height 26, which leaves the
      chain below the finalized height 15: the run gets through, and the block it finalizes at
      height 16 is not a child of the one at height 15. */
  lemma UnlinkedRun(n: nat, period: nat, k: nat) returns (tree: map<Hash, Block>, l: Loop)
    requires n > LAST && period > LAST && k == 25
    ensures HoldsBoth(tree)
    ensures RunNode(tree, n, period, SideOnce(k) + [OnSide(k + 1)]) == Some(l)
    ensures var finalized := l.watcher.heightToFinalizedBlock;
      && l.watcher.latestFinalizedHeight == 16 && 15 in finalized && 16 in finalized
      && finalized[15] == OnMain(15) && finalized[16] == OnSide(16) && finalized[16].parentBlk != finalized[15].hashId
  {
    tree := ForkTreeExists(LAST);
    var blocks := SideOnceRun(tree, n, period, k);
    RunOneMore(tree, n, period, SideOnce(k), OnSide(k + 1));
    l := SideAccepted(tree, n, period, blocks, k);
    FinalizedMainIs(k - 10);
  }

  // Memory at height k after the side branch has been answered once at height from + 1.
  ghost predicate ForkMemory(blocks: map<Hash, Block>, from: nat, k: nat)
    requires FORK + 10 <= from < LAST && k <= LAST
  {
    HoldsMain(blocks, k) && HoldsSide(blocks, from - 9, from + 1) && LacksSide(blocks, from + 2, LAST)
  }

  lemma ForkMemoryGrows(blocks: map<Hash, Block>, from: nat, k: nat)
    requires FORK + 10 <= from < LAST && k < LAST && ForkMemory(blocks, from, k)
    ensures ForkMemory(Remembered(blocks, OnMain(k + 1)), from, k + 1)
  {
    MainRemembered(blocks, k);
    var blocks' := Remembered(blocks, OnMain(k + 1));
    forall i: nat | from - 9 <= i <= from + 1 ensures Has(blocks', OnSide(i)) {
      assert Has(blocks, OnSide(i));
    }
  }

  // One more height of the main branch.
  lemma MainAfterSide(tree: map<Hash, Block>, n: nat, period: nat, served: seq<Block>, blocks: map<Hash, Block>, from: nat, k: nat)
    returns (blocks': map<Hash, Block>)
    requires n > LAST && period > LAST && FORK + 10 <= from <= k < LAST && ForkMemory(blocks, from, k)
    requires RunNode(tree, n, period, served) == Some(Loop(Followed(k, blocks), k))
    ensures RunNode(tree, n, period, served + [OnMain(k + 1)]) == Some(Loop(Followed(k + 1, blocks'), k + 1))
    ensures ForkMemory(blocks', from, k + 1)
  {
    blocks' := Remembered(blocks, OnMain(k + 1));
    MainTurn(tree, n, period, blocks, k);
    RunOneMore(tree, n, period, served, OnMain(k + 1));
    ForkMemoryGrows(blocks, from, k);
  }

  // The walk from the last fetched side block ends at a side block below the finalized height.
  lemma SideContradicts(n: int, w: State, j: nat, count: nat)
    requires FORK + 10 <= j <= LAST && j - 10 <= count <= LAST
    requires w.heightToFinalizedBlock == FinalizedMain(count) && HoldsSide(w.hashToBlock, j - 10, j - 1)
    ensures AddBlock(w, n, OnSide(j)).1 == Panicked(DeepReorganization)
  {
    var blocks := Remembered(w.hashToBlock, OnSide(j));
    assert HoldsSide(blocks, j - 10, j);
    WalkSide(blocks, j, CONFIRMATIONS);
    FinalizedMainIs(count);
  }

  // The first ancestor fetched contradicts the main block finalized meanwhile.
  lemma SideTracePanics(tree: map<Hash, Block>, n: nat, period: nat, blocks: map<Hash, Block>, k: nat)
    requires period >= 1 && HoldsBoth(tree) && FORK + 12 <= k < LAST
    requires HoldsSide(blocks, k - 10, k - 1) && LacksSide(blocks, k, LAST)
    ensures Turn(tree, n, period, Loop(Followed(k, blocks), k), OnSide(k + 1)).None?
  {
    var w := Followed(k, blocks);
    SideAsks(n, w, k + 1);
    var w1 := w.(hashToBlock := Remembered(blocks, OnSide(k + 1)));
    forall i: nat | k - 10 <= i <= k - 1 ensures Has(w1.hashToBlock, OnSide(i)) {
      assert Has(blocks, OnSide(i));
    }
    SideContradicts(n, w1, k, FinalizedCount(k));
    assert Has(tree, OnSide(k));
  }

  /** The main branch up to height 25, the side branch's block of height 26, the main branch up to height
      27, and the side branch's block of height 28: tracing back meets the side blocks fetched
      before, and panics with "Deep Reorganization". */
  lemma PanickingRun(n: nat, period: nat, k: nat) returns (tree: map<Hash, Block>)
    requires n > LAST && period > LAST && k == 25
    ensures HoldsBoth(tree)
    ensures RunNode(tree, n, period, SideOnce(k) + [OnMain(26)] + [OnMain(27)]).Some?
    ensures RunNode(tree, n, period, SideOnce(k) + [OnMain(26)] + [OnMain(27)] + [OnSide(28)]).None?
  {
    tree := ForkTreeExists(LAST);
    var blocks0 := SideOnceRun(tree, n, period, k);
    var blocks1 := MainAfterSide(tree, n, period, SideOnce(k), blocks0, k, k);
    var served := SideOnce(k) + [OnMain(k + 1)];
    var blocks2 := MainAfterSide(tree, n, period, served, blocks1, k, k + 1);
    RunOneMore(tree, n, period, served + [OnMain(k + 2)], OnSide(k + 3));
    assert HoldsSide(blocks2, k - 8, k + 1);
    SideTracePanics(tree, n, period, blocks2, k + 2);
  }

  // ----- There is such a tree -----

  ghost predicate OnBranch(b: Block) {
    (1 <= b.height <= LAST && b == OnMain(b.height)) || (FORK <= b.height <= LAST && b == OnSide(b.height))
  }

  ghost predicate OnlyBranches(tree: map<Hash, Block>) {
    forall h {:trigger tree[h]} :: h in tree ==> tree[h].hashId == h && OnBranch(tree[h])
  }

  lemma {:induction false} MainMemoryOnly(k: nat)
    requires k <= LAST
    ensures OnlyBranches(MainMemory(k))
  {
    if k > 0 {
      MainMemoryOnly(k - 1);
    }
  }

  lemma {:induction false} FetchedOnly(blocks: map<Hash, Block>, i: nat, c: nat)
    requires i <= LAST && c + FORK <= i + 1 && OnlyBranches(blocks)
    ensures OnlyBranches(Fetched(blocks, i, c))
    decreases c
  {
    if c > 0 {
      FetchedOnly(Remembered(blocks, OnSide(i)), i - 1, c - 1);
    }
  }

  lemma BranchNodeOk(tree: map<Hash, Block>, h: Hash)
    requires h in tree && OnlyBranches(tree) && HoldsMain(tree, LAST) && HoldsSide(tree, FORK, LAST)
    ensures NodeOk(tree, h)
  {
    var b := tree[h];
    assert OnBranch(b);
    if 1 < b.height {
      assert Has(tree, OnMain(b.height - 1));
    }
    if FORK < b.height {
      assert Has(tree, OnSide(b.height - 1));
    }
  }

  lemma ForkTreeExists(last: nat) returns (tree: map<Hash, Block>)
    requires last == LAST
    ensures HoldsBoth(tree)
  {
    var main := MainMemory(last);
    tree := Fetched(main, last, last - FORK + 1);
    MainMemoryIs(last);
    MainMemoryOnly(last);
    FetchedIs(main, last, last - FORK + 1);
    FetchedOnly(main, last, last - FORK + 1);
    forall i: nat | 1 <= i <= last ensures Has(tree, OnMain(i)) {
      assert Has(main, OnMain(i));
    }
    forall h | h in tree ensures NodeOk(tree, h) {
      BranchNodeOk(tree, h);
    }
  }
}
