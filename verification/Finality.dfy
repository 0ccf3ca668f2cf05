/** Finality safety of the watcher when blocks arrive parents first. */
module Finality {
  import opened Words
  import opened Watcher
  import opened Epochs

  /** All blocks a Bitcoin Cash node may ever serve: a tree under its hash links.  A block without
      a parent has height 1, as in the tests of the source, or height 0, as on the real chain. */
  ghost predicate TreeOk(tree: map<Hash, Block>) {
    forall h {:trigger NodeOk(tree, h)} :: h in tree ==> NodeOk(tree, h)
  }

  ghost predicate NodeOk(tree: map<Hash, Block>, h: Hash)
    requires h in tree
  {
    && h != 0 && tree[h].hashId == h && tree[h].height >= 0
    && (if tree[h].parentBlk == 0 then tree[h].height <= 1
        else tree[h].parentBlk in tree && tree[tree[h].parentBlk].height == tree[h].height - 1
             && tree[tree[h].parentBlk].hashId == tree[h].parentBlk)
  }

  ghost predicate InTree(tree: map<Hash, Block>, b: Block) {
    b.hashId in tree && tree[b.hashId] == b && NodeOk(tree, b.hashId)
  }

  lemma InTreeAt(tree: map<Hash, Block>, h: Hash)
    requires TreeOk(tree) && h in tree
    ensures InTree(tree, tree[h]) && tree[h].hashId == h
  {
    assert NodeOk(tree, h);
  }

  lemma ParentInTree(tree: map<Hash, Block>, b: Block)
    requires TreeOk(tree) && InTree(tree, b) && b.parentBlk != 0
    ensures b.parentBlk in tree && InTree(tree, tree[b.parentBlk])
    ensures tree[b.parentBlk].height == b.height - 1 && tree[b.parentBlk].hashId == b.parentBlk
  {
    InTreeAt(tree, b.parentBlk);
  }

  // How many ancestors a block has.
  ghost function Depth(tree: map<Hash, Block>, b: Block): (d: nat)
    requires TreeOk(tree) && InTree(tree, b)
    ensures b.height - 1 <= d <= b.height
    ensures d == 0 <==> b.parentBlk == 0
    decreases b.height
  {
    if b.parentBlk == 0 then 0 else ParentInTree(tree, b); Depth(tree, tree[b.parentBlk]) + 1
  }

  ghost function Ancestor(tree: map<Hash, Block>, b: Block, k: nat): (r: Block)
    requires TreeOk(tree) && InTree(tree, b) && k <= Depth(tree, b)
    ensures InTree(tree, r) && r.height == b.height - k && Depth(tree, r) == Depth(tree, b) - k
    decreases b.height
  {
    if k == 0 then b else ParentInTree(tree, b); Ancestor(tree, tree[b.parentBlk], k - 1)
  }

  lemma {:induction false} AncestorOfAncestor(tree: map<Hash, Block>, b: Block, j: nat, k: nat)
    requires TreeOk(tree) && InTree(tree, b) && j + k <= Depth(tree, b)
    ensures Ancestor(tree, b, j + k) == Ancestor(tree, Ancestor(tree, b, j), k)
    decreases j
  {
    if j > 0 {
      ParentInTree(tree, b);
      AncestorOfAncestor(tree, tree[b.parentBlk], j - 1, k);
    }
  }

  ghost predicate ChainInTree(tree: map<Hash, Block>, fin: seq<Block>) {
    Linked(fin) && forall i :: 0 <= i < |fin| ==> InTree(tree, fin[i])
  }

  // The ancestors of a block of the chain are on the chain.
  lemma {:induction false} ChainAncestors(tree: map<Hash, Block>, fin: seq<Block>, i: nat, k: nat)
    requires TreeOk(tree) && ChainInTree(tree, fin) && k <= i < |fin|
    ensures Ancestor(tree, fin[i], k) == fin[i - k]
    decreases k
  {
    if k > 0 {
      assert InTree(tree, fin[i]) && InTree(tree, fin[i - 1]);
      assert LinkedAt(fin, i) && tree[fin[i].parentBlk] == fin[i - 1];
      ChainAncestors(tree, fin, i - 1, k - 1);
    }
  }

  // A chain that starts at a root of height 1.
  lemma {:induction false} ChainDepth(tree: map<Hash, Block>, fin: seq<Block>, i: nat)
    requires TreeOk(tree) && ChainInTree(tree, fin) && i < |fin| && fin[0].parentBlk == 0
    ensures InTree(tree, fin[i]) && Depth(tree, fin[i]) == i
  {
    assert InTree(tree, fin[i]);
    if i > 0 {
      ChainDepth(tree, fin, i - 1);
      assert LinkedAt(fin, i) && tree[fin[i].parentBlk] == fin[i - 1];
    }
  }

  // ----- The walk -----

  ghost predicate Within(blocks: map<Hash, Block>, tree: map<Hash, Block>) {
    forall h :: h in blocks ==> h in tree && blocks[h] == tree[h]
  }

  // Which ancestor, if any, stops a walk that lacks a block.
  lemma {:induction false} WalkFinds(tree: map<Hash, Block>, blocks: map<Hash, Block>, b: Block, k: nat) returns (stop: nat)
    requires TreeOk(tree) && Within(blocks, tree) && InTree(tree, b)
    ensures match Walk(blocks, b, k)
      case Reached(x) => k <= Depth(tree, b) && x == Ancestor(tree, b, k) && (k > 0 ==> x.hashId in blocks)
      case Genesis => Depth(tree, b) < k
      case Lacks(h) => 0 < stop <= k && stop <= Depth(tree, b) && h == Ancestor(tree, b, stop).hashId && h !in blocks
    decreases k
  {
    stop := 0;
    if b.parentBlk != 0 {
      ParentInTree(tree, b);
    }
    if k > 0 && b.parentBlk in blocks {
      InTreeAt(tree, b.parentBlk);
      var s := WalkFinds(tree, blocks, tree[b.parentBlk], k - 1);
      stop := s + 1;
    } else if k > 0 && b.parentBlk != 0 {
      stop := 1;
      assert Ancestor(tree, b, 1) == Ancestor(tree, tree[b.parentBlk], 0);
    }
  }

  // ----- The invariant -----

  // Finalized blocks that are no longer stored have left hashToBlock as well.
  ghost predicate Dropped(fin: seq<Block>, lo: nat, b: Block) {
    1 <= b.height < lo && b.height <= |fin| && fin[b.height - 1].hashId == b.hashId
  }

  ghost predicate Closed(tree: map<Hash, Block>, fed: set<Hash>) {
    fed <= tree.Keys && forall h {:trigger ParentFed(tree, fed, h)} :: h in fed ==> ParentFed(tree, fed, h)
  }

  ghost predicate ParentFed(tree: map<Hash, Block>, fed: set<Hash>, h: Hash)
    requires h in tree
  {
    tree[h].parentBlk == 0 || tree[h].parentBlk in fed
  }

  ghost predicate Confirmed(tree: map<Hash, Block>, fin: seq<Block>, b: Block)
    requires TreeOk(tree) && InTree(tree, b)
  {
    && b.height <= |fin| + 10
    && (Depth(tree, b) >= 10 ==> b.height > 10 && Ancestor(tree, b, 10) == fin[b.height - 11])
  }

  // hashToBlock holds what was fed, dropped blocks excepted.
  ghost predicate Stores(blocks: map<Hash, Block>, tree: map<Hash, Block>, fin: seq<Block>, lo: nat, fed: set<Hash>)
    requires fed <= tree.Keys
  {
    && (forall h :: h in blocks <==> h in fed && !Dropped(fin, lo, tree[h]))
    && (forall h :: h in blocks ==> blocks[h] == tree[h])
  }

  ghost predicate AllConfirmed(tree: map<Hash, Block>, fin: seq<Block>, fed: set<Hash>)
    requires TreeOk(tree) && fed <= tree.Keys
  {
    && (forall h :: h in fed ==> InTree(tree, tree[h]) && Confirmed(tree, fin, tree[h]))
    && (forall i :: 0 <= i < |fin| ==> fin[i].hashId in fed)
  }

  ghost predicate Inv(w: State, n: nat, tree: map<Hash, Block>, fin: seq<Block>, fed: set<Hash>) {
    && TreeOk(tree) && Closed(tree, fed)
    && Records(w, n, fin) && ChainInTree(tree, fin) && (fin != [] ==> fin[0].parentBlk == 0)
    && Stores(w.hashToBlock, tree, fin, Low(|w.sent|, n), fed)
    && AllConfirmed(tree, fin, fed)
  }

  // The tenth ancestor of b is not the block that was finalized at its height.
  ghost predicate Contradicts(tree: map<Hash, Block>, fin: seq<Block>, b: Block)
    requires TreeOk(tree) && InTree(tree, b)
  {
    10 < b.height <= |fin| + 10 && Ancestor(tree, b, 10) != fin[b.height - 11]
  }

  // The tenth ancestor of b is a block of height 0, which no watcher expects.
  ghost predicate ReachesZero(tree: map<Hash, Block>, b: Block)
    requires TreeOk(tree) && InTree(tree, b)
  {
    Depth(tree, b) >= 10 && Ancestor(tree, b, 10).height == 0
  }

  // A block that is new and whose parent, if it has one, was fed before.
  ghost predicate Feedable(tree: map<Hash, Block>, fed: set<Hash>, b: Block) {
    InTree(tree, b) && b.hashId !in fed && (b.parentBlk == 0 || b.parentBlk in fed)
  }

  lemma {:induction false} AncestorsFed(tree: map<Hash, Block>, fed: set<Hash>, b: Block, k: nat)
    requires TreeOk(tree) && Closed(tree, fed) && InTree(tree, b) && 0 < k <= Depth(tree, b)
    requires b.parentBlk in fed
    ensures Ancestor(tree, b, k).hashId in fed
    decreases k
  {
    var p := tree[b.parentBlk];
    ParentInTree(tree, b);
    assert Ancestor(tree, b, k) == Ancestor(tree, p, k - 1);
    if k > 1 {
      assert ParentFed(tree, fed, b.parentBlk);
      ParentInTree(tree, p);
      AncestorsFed(tree, fed, p, k - 1);
    }
  }

  lemma HeightBound(tree: map<Hash, Block>, fin: seq<Block>, fed: set<Hash>, b: Block)
    requires TreeOk(tree) && Feedable(tree, fed, b)
    requires fed <= tree.Keys && AllConfirmed(tree, fin, fed)
    ensures b.height <= |fin| + 11
    ensures b.height == |fin| + 11 ==>
      Ancestor(tree, b, 10).parentBlk == if |fin| > 0 then fin[|fin| - 1].hashId else 0
  {
    if b.parentBlk != 0 {
      ParentInTree(tree, b);
      var p := tree[b.parentBlk];
      assert Confirmed(tree, fin, p);
      if b.height == |fin| + 11 && |fin| > 0 {
        AncestorOfAncestor(tree, b, 10, 1);
        AncestorOfAncestor(tree, b, 1, 10);
        assert Ancestor(tree, b, 1) == Ancestor(tree, p, 0) == p;
        var x := Ancestor(tree, b, 10);
        ParentInTree(tree, x);
        assert Ancestor(tree, x, 1) == Ancestor(tree, tree[x.parentBlk], 0);
      }
    }
  }

  // A walk that stops early stops at a dropped block, so the tenth ancestor is on the chain.
  lemma BelowChainIsConfirmed(tree: map<Hash, Block>, fin: seq<Block>, b: Block, stop: nat)
    requires TreeOk(tree) && ChainInTree(tree, fin) && InTree(tree, b) && b.height <= |fin| + 10
    requires 0 < stop <= 10 && stop <= Depth(tree, b) && 1 <= b.height - stop <= |fin| && fin[0].parentBlk == 0
    requires Ancestor(tree, b, stop) == fin[b.height - stop - 1]
    ensures Confirmed(tree, fin, b)
  {
    ChainDepth(tree, fin, b.height - stop - 1);
    if b.height > 10 {
      AncestorOnChain(tree, fin, b, stop, 10);
    }
  }

  lemma AncestorOnChain(tree: map<Hash, Block>, fin: seq<Block>, b: Block, stop: nat, k: nat)
    requires TreeOk(tree) && ChainInTree(tree, fin) && InTree(tree, b)
    requires stop <= k < b.height && b.height - stop <= |fin| && Ancestor(tree, b, stop) == fin[b.height - stop - 1]
    ensures Ancestor(tree, b, k) == fin[b.height - k - 1]
  {
    var rest := k - stop;
    AncestorOfAncestor(tree, b, stop, rest);
    ChainAncestors(tree, fin, b.height - stop - 1, rest);
  }

  lemma LackingIsDropped(w: State, n: nat, tree: map<Hash, Block>, fin: seq<Block>, fed: set<Hash>, b: Block, stop: nat)
    requires Inv(w, n, tree, fin, fed) && Feedable(tree, fed, b)
    requires 0 < stop <= Depth(tree, b) && Ancestor(tree, b, stop).hashId !in w.hashToBlock
    ensures 1 <= b.height - stop <= |fin| && Ancestor(tree, b, stop) == fin[b.height - stop - 1]
    ensures b.height - stop < Low(|w.sent|, n)
  {
    ParentInTree(tree, b);
    AncestorsFed(tree, fed, b, stop);
    var a := Ancestor(tree, b, stop);
    assert Dropped(fin, Low(|w.sent|, n), a);
    assert InTree(tree, fin[a.height - 1]);
  }

  // ----- One block -----

  lemma AddedOnly(w: State, n: nat, tree: map<Hash, Block>, fin: seq<Block>, fed: set<Hash>, b: Block)
    requires Inv(w, n, tree, fin, fed) && Feedable(tree, fed, b) && Confirmed(tree, fin, b)
    ensures Inv(w.(hashToBlock := w.hashToBlock[b.hashId := b]), n, tree, fin, fed + {b.hashId})
  {
    ClosedAdd(tree, fed, b);
    StoresAdd(w.hashToBlock, tree, fin, Low(|w.sent|, n), fed, b);
  }

  lemma ClosedAdd(tree: map<Hash, Block>, fed: set<Hash>, b: Block)
    requires Closed(tree, fed) && Feedable(tree, fed, b)
    ensures Closed(tree, fed + {b.hashId})
  {
    forall h | h in fed + {b.hashId} ensures ParentFed(tree, fed + {b.hashId}, h) {
      assert h in fed ==> ParentFed(tree, fed, h);
    }
  }

  lemma StoresAdd(blocks: map<Hash, Block>, tree: map<Hash, Block>, fin: seq<Block>, lo: nat, fed: set<Hash>, b: Block)
    requires fed <= tree.Keys && Stores(blocks, tree, fin, lo, fed) && Feedable(tree, fed, b)
    requires forall i :: 0 <= i < |fin| ==> fin[i].hashId in fed
    ensures Stores(blocks[b.hashId := b], tree, fin, lo, fed + {b.hashId})
  {
  }

  // The chain that is finalized after b has been fed.
  ghost function Extended(tree: map<Hash, Block>, fin: seq<Block>, b: Block): seq<Block>
    requires TreeOk(tree) && InTree(tree, b)
  {
    if b.height == |fin| + 11 then fin + [Ancestor(tree, b, 10)] else fin
  }

  lemma LinkedExtension(tree: map<Hash, Block>, fin: seq<Block>, p: Block)
    requires ChainInTree(tree, fin) && InTree(tree, p) && p.height == |fin| + 1
    requires |fin| > 0 ==> p.parentBlk == fin[|fin| - 1].hashId
    ensures ChainInTree(tree, fin + [p])
  {
    var fin' := fin + [p];
    forall i | 0 < i < |fin'| ensures LinkedAt(fin', i) {
      assert i < |fin| ==> LinkedAt(fin, i);
    }
  }

  lemma DroppedGrows(tree: map<Hash, Block>, fin: seq<Block>, p: Block, lo: nat, lo': nat, x: Block)
    requires ChainInTree(tree, fin + [p]) && InTree(tree, x)
    requires 1 <= lo <= lo' && lo - 1 <= |fin| && lo' - 1 <= |fin| + 1
    ensures x.hashId in HashesBetween(fin + [p], lo, lo' - 1) || Dropped(fin, lo, x) <==> Dropped(fin + [p], lo', x)
  {
    var fin' := fin + [p];
    if x.hashId in HashesBetween(fin', lo, lo' - 1) {
      var i :| lo - 1 <= i < lo' - 1 && fin'[i].hashId == x.hashId;
      assert InTree(tree, fin'[i]);
    }
  }

  lemma StoresAfterFinalize(blocks: map<Hash, Block>, tree: map<Hash, Block>, fin: seq<Block>, p: Block,
                            lo: nat, lo': nat, fed: set<Hash>, b: Block)
    requires TreeOk(tree) && fed <= tree.Keys && Stores(blocks, tree, fin, lo, fed)
    requires InTree(tree, b) && b.height > |fin| + 1 && ChainInTree(tree, fin + [p])
    requires 1 <= lo <= lo' && lo - 1 <= |fin| && lo' - 1 <= |fin| + 1
    ensures Stores(blocks[b.hashId := b] - HashesBetween(fin + [p], lo, lo' - 1), tree, fin + [p], lo', fed + {b.hashId})
  {
    var blocks' := blocks[b.hashId := b] - HashesBetween(fin + [p], lo, lo' - 1);
    forall h | h in tree
      ensures h in blocks' <==> h in fed + {b.hashId} && !Dropped(fin + [p], lo', tree[h])
    {
      InTreeAt(tree, h);
      DroppedGrows(tree, fin, p, lo, lo', tree[h]);
    }
    assert HashesBetween(fin + [p], lo, lo' - 1) !! {b.hashId} by {
      DroppedGrows(tree, fin, p, lo, lo', b);
    }
  }

  lemma ConfirmedAfterFinalize(tree: map<Hash, Block>, fin: seq<Block>, fed: set<Hash>, b: Block)
    requires TreeOk(tree) && fed <= tree.Keys && AllConfirmed(tree, fin, fed)
    requires InTree(tree, b) && b.height == |fin| + 11 && Ancestor(tree, b, 10).hashId in fed
    ensures AllConfirmed(tree, fin + [Ancestor(tree, b, 10)], fed + {b.hashId})
  {
  }

  lemma InvAfterFinalize(w: State, w': State, n: nat, tree: map<Hash, Block>, fin: seq<Block>, fed: set<Hash>, b: Block, p: Block)
    requires n >= 1 && Inv(w, n, tree, fin, fed) && Feedable(tree, fed, b)
    requires b.height == |fin| + 11 && p == Ancestor(tree, b, 10)
    requires Records(w', n, fin + [p])
    requires Advances(w.(hashToBlock := w.hashToBlock[b.hashId := b]), w', n, fin + [p])
    ensures Inv(w', n, tree, fin + [p], fed + {b.hashId})
  {
    HeightBound(tree, fin, fed, b);
    LinkedExtension(tree, fin, p);
    LowMoves(|w.sent|, n);
    LowGrows(|w.sent|, |w'.sent|, n);
    StoresAfterFinalize(w.hashToBlock, tree, fin, p, Low(|w.sent|, n), Low(|w'.sent|, n), fed, b);
    ParentInTree(tree, b);
    AncestorsFed(tree, fed, b, 10);
    ClosedAdd(tree, fed, b);
    ConfirmedAfterFinalize(tree, fin, fed, b);
  }

  lemma {:induction false} LowGrows(k: nat, k': nat, n: nat)
    requires n >= 1 && k <= k'
    ensures Low(k, n) <= Low(k', n)
  {
    if k < k' {
      LowGrows(k, k' - 1, n);
      LowMoves(k' - 1, n);
    }
  }

  // What AddBlockSafe says of one outcome.
  ghost predicate Safe(w': State, o: Outcome, n: nat, tree: map<Hash, Block>, fin: seq<Block>, fed: set<Hash>, b: Block)
    requires TreeOk(tree) && InTree(tree, b)
  {
    && (o.Panicked? <==> Contradicts(tree, fin, b) || ReachesZero(tree, b))
    && o != Panicked(MissingBlock)
    && (!o.Panicked? ==> Inv(w', n, tree, Extended(tree, fin, b), fed + {b.hashId}))
  }

  lemma SafeWhenConfirmed(w: State, n: nat, tree: map<Hash, Block>, fin: seq<Block>, fed: set<Hash>, b: Block, o: Outcome)
    requires Inv(w, n, tree, fin, fed) && Feedable(tree, fed, b) && Confirmed(tree, fin, b) && !o.Panicked?
    ensures Safe(w.(hashToBlock := w.hashToBlock[b.hashId := b]), o, n, tree, fin, fed, b)
  {
    AddedOnly(w, n, tree, fin, fed, b);
  }

  lemma SafeWhenLacking(w: State, n: nat, tree: map<Hash, Block>, fin: seq<Block>, fed: set<Hash>, b: Block, stop: nat, h: Hash)
    requires n >= 1 && Inv(w, n, tree, fin, fed) && Feedable(tree, fed, b)
    requires 0 < stop <= 10 && stop <= Depth(tree, b) && Ancestor(tree, b, stop).hashId !in w.hashToBlock
    ensures Safe(w.(hashToBlock := w.hashToBlock[b.hashId := b]), Missing(h), n, tree, fin, fed, b)
  {
    LowMoves(|w.sent|, n);
    LackingIsDropped(w, n, tree, fin, fed, b, stop);
    BelowChainIsConfirmed(tree, fin, b, stop);
    SafeWhenConfirmed(w, n, tree, fin, fed, b, Missing(h));
  }

  lemma SafeWhenNext(w: State, n: nat, tree: map<Hash, Block>, fin: seq<Block>, fed: set<Hash>, b: Block, p: Block)
    requires n >= 1 && Inv(w, n, tree, fin, fed) && Feedable(tree, fed, b)
    requires b.height == |fin| + 11 && p == Ancestor(tree, b, 10)
    ensures var (w', o) := Finalize(w.(hashToBlock := w.hashToBlock[b.hashId := b]), n, p);
            Safe(w', o, n, tree, fin, fed, b)
  {
    var w1 := w.(hashToBlock := w.hashToBlock[b.hashId := b]);
    FinalizeRecords(w1, n, fin, p);
    InvAfterFinalize(w, Finalize(w1, n, p).0, n, tree, fin, fed, b, p);
  }

  // Below the stored heights only blocks off the chain are left in hashToBlock.
  lemma SafeWhenBelow(w: State, n: nat, tree: map<Hash, Block>, fin: seq<Block>, fed: set<Hash>, b: Block, p: Block)
    requires n >= 1 && Inv(w, n, tree, fin, fed) && Feedable(tree, fed, b) && 10 < b.height
    requires p == Ancestor(tree, b, 10) && p.hashId in w.hashToBlock && p.height < Low(|w.sent|, n)
    ensures var (w', o) := Finalize(w.(hashToBlock := w.hashToBlock[b.hashId := b]), n, p);
            Safe(w', o, n, tree, fin, fed, b)
  {
    LowMoves(|w.sent|, n);
    assert !Dropped(fin, Low(|w.sent|, n), p);
  }

  lemma SafeWhenZero(w: State, n: nat, tree: map<Hash, Block>, fin: seq<Block>, fed: set<Hash>, b: Block, p: Block)
    requires n >= 1 && Inv(w, n, tree, fin, fed) && Feedable(tree, fed, b)
    requires Depth(tree, b) >= 10 && p == Ancestor(tree, b, 10) && p.height == 0
    ensures p.height !in w.heightToFinalizedBlock
    ensures var (w', o) := Finalize(w.(hashToBlock := w.hashToBlock[b.hashId := b]), n, p);
            o == Panicked(HeightSkipped) && Safe(w', o, n, tree, fin, fed, b)
  {
  }

  // A block that was fed before may come again as long as its height is not finalized.
  ghost predicate Acceptable(tree: map<Hash, Block>, fin: seq<Block>, fed: set<Hash>, b: Block) {
    Feedable(tree, fed, b) || (InTree(tree, b) && b.hashId in fed && b.height > |fin|)
  }

  // Fed again, a block changes nothing.
  lemma SafeWhenAgain(w: State, n: nat, tree: map<Hash, Block>, fin: seq<Block>, fed: set<Hash>, b: Block)
    requires n >= 1 && Inv(w, n, tree, fin, fed) && InTree(tree, b) && b.hashId in fed && b.height > |fin|
    ensures AddBlock(w, n, b).0 == w && Safe(w, AddBlock(w, n, b).1, n, tree, fin, fed, b)
  {
    LowMoves(|w.sent|, n);
    assert !Dropped(fin, Low(|w.sent|, n), b) && tree[b.hashId] == b;
    assert w.hashToBlock[b.hashId := b] == w.hashToBlock;
    assert Confirmed(tree, fin, tree[b.hashId]);
    assert fed + {b.hashId} == fed;
    var stop := WalkFinds(tree, w.hashToBlock, b, CONFIRMATIONS);
    if Walk(w.hashToBlock, b, CONFIRMATIONS).Reached? {
      StoredTenth(w, n, tree, fin, fed, b, Ancestor(tree, b, 10));
    }
  }

  lemma StoredTenth(w: State, n: nat, tree: map<Hash, Block>, fin: seq<Block>, fed: set<Hash>, b: Block, p: Block)
    requires n >= 1 && Inv(w, n, tree, fin, fed) && InTree(tree, b) && b.hashId in fed && Depth(tree, b) >= 10
    requires p == Ancestor(tree, b, 10) && p.hashId in w.hashToBlock
    ensures p.height in w.heightToFinalizedBlock && w.heightToFinalizedBlock[p.height] == p
  {
    assert Confirmed(tree, fin, tree[b.hashId]);
    LowMoves(|w.sent|, n);
    assert !Dropped(fin, Low(|w.sent|, n), p);
  }

  lemma NewBlockSafe(w: State, n: nat, tree: map<Hash, Block>, fin: seq<Block>, fed: set<Hash>, b: Block)
    requires n >= 1 && Inv(w, n, tree, fin, fed) && Feedable(tree, fed, b)
    ensures Safe(AddBlock(w, n, b).0, AddBlock(w, n, b).1, n, tree, fin, fed, b)
  {
    var blocks := w.hashToBlock[b.hashId := b];
    HeightBound(tree, fin, fed, b);
    var stop := WalkFinds(tree, blocks, b, CONFIRMATIONS);
    match Walk(blocks, b, CONFIRMATIONS)
    case Genesis =>
      SafeWhenConfirmed(w, n, tree, fin, fed, b, Done);
    case Lacks(h) =>
      SafeWhenLacking(w, n, tree, fin, fed, b, stop, h);
    case Reached(p) =>
      if p.height == 0 {
        SafeWhenZero(w, n, tree, fin, fed, b, p);
      } else if p.height == |fin| + 1 {
        SafeWhenNext(w, n, tree, fin, fed, b, p);
      } else if p.height < Low(|w.sent|, n) {
        SafeWhenBelow(w, n, tree, fin, fed, b, p);
      } else {
        SafeWhenStored(w, n, tree, fin, fed, b, p);
      }
  }

  // The tenth ancestor's height is stored: the same block is fine, another one contradicts.
  lemma SafeWhenStored(w: State, n: nat, tree: map<Hash, Block>, fin: seq<Block>, fed: set<Hash>, b: Block, p: Block)
    requires n >= 1 && Inv(w, n, tree, fin, fed) && Feedable(tree, fed, b)
    requires Depth(tree, b) >= 10 && p == Ancestor(tree, b, 10) && p.height in w.heightToFinalizedBlock
    ensures Safe(w.(hashToBlock := w.hashToBlock[b.hashId := b]),
                 if w.heightToFinalizedBlock[p.height].Equal(p) then Done else Panicked(DeepReorganization), n, tree, fin, fed, b)
  {
    LowMoves(|w.sent|, n);
    SameHashSameBlock(tree, fin, p);
    if fin[p.height - 1] == p {
      SafeWhenConfirmed(w, n, tree, fin, fed, b, Done);
    }
  }

  /** Feeding one block, new or again: addBlock panics exactly when the block's tenth ancestor
      contradicts a finalized block or has height 0, never with "Missing Block"; otherwise the
      invariant holds again and the finalized chain has grown by that ancestor or stayed as it was. */
  lemma AddBlockSafe(w: State, n: nat, tree: map<Hash, Block>, fin: seq<Block>, fed: set<Hash>, b: Block)
    requires n >= 1 && Inv(w, n, tree, fin, fed) && Acceptable(tree, fin, fed, b)
    ensures Safe(AddBlock(w, n, b).0, AddBlock(w, n, b).1, n, tree, fin, fed, b)
  {
    if b.hashId in fed {
      SafeWhenAgain(w, n, tree, fin, fed, b);
    } else {
      NewBlockSafe(w, n, tree, fin, fed, b);
    }
  }

  lemma SameHashSameBlock(tree: map<Hash, Block>, fin: seq<Block>, p: Block)
    requires ChainInTree(tree, fin) && InTree(tree, p) && 1 <= p.height <= |fin|
    ensures fin[p.height - 1].Equal(p) <==> fin[p.height - 1] == p
  {
    assert InTree(tree, fin[p.height - 1]);
  }

  // ----- Runs -----

  // Feed blocks one after the other; None once one of them panics.
  function Feed(n: int, bs: seq<Block>): Option<State> {
    if bs == [] then Some(NewWatcher(0))
    else
      var w := Feed(n, bs[..|bs| - 1]);
      if w.None? then None
      else
        var (w', o) := AddBlock(w.value, n, bs[|bs| - 1]);
        if o.Panicked? then None else Some(w')
  }

  function Hashes(bs: seq<Block>): set<Hash> {
    set b | b in bs :: b.hashId
  }

  ghost predicate AllInTree(tree: map<Hash, Block>, bs: seq<Block>) {
    forall i :: 0 <= i < |bs| ==> InTree(tree, bs[i])
  }

  // A block is finalized when the first block ten above it arrives.
  ghost function FinalizedBy(tree: map<Hash, Block>, bs: seq<Block>): seq<Block>
    requires TreeOk(tree) && AllInTree(tree, bs)
  {
    if bs == [] then [] else Extended(tree, FinalizedBy(tree, bs[..|bs| - 1]), bs[|bs| - 1])
  }

  /** Every block is new and comes after its parent, or comes again before its height is finalized. */
  ghost predicate ParentsFirst(tree: map<Hash, Block>, bs: seq<Block>)
    requires TreeOk(tree)
  {
    bs == [] ||
    var init, b := bs[..|bs| - 1], bs[|bs| - 1];
    ParentsFirst(tree, init) && AllInTree(tree, init) && Acceptable(tree, FinalizedBy(tree, init), Hashes(init), b)
  }

  // No tenth ancestor contradicts a finalized block or has height 0.
  ghost predicate Harmless(tree: map<Hash, Block>, bs: seq<Block>)
    requires TreeOk(tree) && AllInTree(tree, bs)
  {
    bs == [] ||
    var init, b := bs[..|bs| - 1], bs[|bs| - 1];
    Harmless(tree, init) && !Contradicts(tree, FinalizedBy(tree, init), b) && !ReachesZero(tree, b)
  }

  lemma HashesStep(bs: seq<Block>)
    requires bs != []
    ensures Hashes(bs) == Hashes(bs[..|bs| - 1]) + {bs[|bs| - 1].hashId}
  {
    assert bs == bs[..|bs| - 1] + [bs[|bs| - 1]];
  }

  ghost predicate SafeRun(tree: map<Hash, Block>, n: nat, bs: seq<Block>)
    requires TreeOk(tree) && AllInTree(tree, bs)
  {
    && (Feed(n, bs).Some? <==> Harmless(tree, bs))
    && (Feed(n, bs).Some? ==> Inv(Feed(n, bs).value, n, tree, FinalizedBy(tree, bs), Hashes(bs)))
  }

  lemma SafeRunStep(tree: map<Hash, Block>, n: nat, bs: seq<Block>, init: seq<Block>, b: Block)
    requires n >= 1 && TreeOk(tree) && AllInTree(tree, bs) && AllInTree(tree, init)
    requires bs != [] && init == bs[..|bs| - 1] && b == bs[|bs| - 1]
    requires SafeRun(tree, n, init) && Acceptable(tree, FinalizedBy(tree, init), Hashes(init), b)
    requires Hashes(bs) == Hashes(init) + {b.hashId}
    ensures SafeRun(tree, n, bs)
  {
    if Feed(n, init).Some? {
      AddBlockSafe(Feed(n, init).value, n, tree, FinalizedBy(tree, init), Hashes(init), b);
    }
  }

  /** Finality safety over all runs that feed parents first: the run gets through without a
      panic exactly when no tenth ancestor contradicts a finalized block or has height 0, and then the watcher
      records one hash-linked chain of contiguous heights, cut into epochs. */
  lemma {:induction false} FinalitySafety(tree: map<Hash, Block>, n: nat, bs: seq<Block>)
    requires n >= 1 && TreeOk(tree) && ParentsFirst(tree, bs)
    ensures AllInTree(tree, bs) && SafeRun(tree, n, bs)
  {
    if bs == [] {
      NewWatcherRecords(n);
      assert Hashes(bs) == {};
    } else {
      var init, b := bs[..|bs| - 1], bs[|bs| - 1];
      FinalitySafety(tree, n, init);
      HashesStep(bs);
      assert bs == init + [b];
      SafeRunStep(tree, n, bs, init, b);
    }
  }

  lemma {:induction false} FinalizedGrows(tree: map<Hash, Block>, bs: seq<Block>, more: seq<Block>)
    requires TreeOk(tree) && AllInTree(tree, bs) && AllInTree(tree, bs + more)
    ensures FinalizedBy(tree, bs) <= FinalizedBy(tree, bs + more)
  {
    if more == [] {
      assert bs + more == bs;
    } else {
      var all := bs + more;
      assert all[..|all| - 1] == bs + more[..|more| - 1];
      FinalizedGrows(tree, bs, more[..|more| - 1]);
    }
  }

  lemma {:induction false} FedBefore(n: nat, bs: seq<Block>, more: seq<Block>)
    requires Feed(n, bs + more).Some?
    ensures Feed(n, bs).Some?
  {
    if more == [] {
      assert bs + more == bs;
    } else {
      assert (bs + more)[..|bs + more| - 1] == bs + more[..|more| - 1];
      FedBefore(n, bs, more[..|more| - 1]);
    }
  }

  lemma {:induction false} ParentsFirstBefore(tree: map<Hash, Block>, bs: seq<Block>, more: seq<Block>)
    requires TreeOk(tree) && ParentsFirst(tree, bs + more)
    ensures ParentsFirst(tree, bs)
  {
    if more == [] {
      assert bs + more == bs;
    } else {
      assert (bs + more)[..|bs + more| - 1] == bs + more[..|more| - 1];
      ParentsFirstBefore(tree, bs, more[..|more| - 1]);
    }
  }

  /** Finalized blocks are never replaced: whatever the watcher is fed later, its latest
      finalized height does not go back, and a height that both states store holds the same
      block in both. */
  lemma FinalizedNeverReplaced(tree: map<Hash, Block>, n: nat, bs: seq<Block>, more: seq<Block>)
    requires n >= 1 && TreeOk(tree) && ParentsFirst(tree, bs + more) && Feed(n, bs + more).Some?
    ensures Feed(n, bs).Some?
    ensures var w, w' := Feed(n, bs).value, Feed(n, bs + more).value;
      && w.latestFinalizedHeight <= w'.latestFinalizedHeight
      && w.sent <= w'.sent
      && (forall h :: h in w.heightToFinalizedBlock && h in w'.heightToFinalizedBlock ==>
            w.heightToFinalizedBlock[h] == w'.heightToFinalizedBlock[h])
  {
    FedBefore(n, bs, more);
    ParentsFirstBefore(tree, bs, more);
    FinalitySafety(tree, n, bs);
    FinalitySafety(tree, n, bs + more);
    FinalizedGrows(tree, bs, more);
    SentGrows(n, bs, more);
  }

  lemma {:induction false} SentGrows(n: nat, bs: seq<Block>, more: seq<Block>)
    requires Feed(n, bs + more).Some?
    ensures Feed(n, bs).Some? && Feed(n, bs).value.sent <= Feed(n, bs + more).value.sent
  {
    FedBefore(n, bs, more);
    if more == [] {
      assert bs + more == bs;
    } else {
      var all := bs + more;
      assert all[..|all| - 1] == bs + more[..|more| - 1];
      SentGrows(n, bs, more[..|more| - 1]);
      AddBlockSendsOne(Feed(n, all[..|all| - 1]).value, n, all[|all| - 1]);
    }
  }

  lemma GenerateSendsOne(w: State, n: int)
    ensures var w' := GenerateNewEpoch(w, n).0;
            w'.sent == w.sent || (|w'.sent| == |w.sent| + 1 && w.sent <= w'.sent)
  {
  }

  // A block makes the watcher send at most one epoch.
  lemma AddBlockSendsOne(w: State, n: int, b: Block)
    ensures var w' := AddBlock(w, n, b).0;
            w'.sent == w.sent || (|w'.sent| == |w.sent| + 1 && w.sent <= w'.sent)
  {
    var w1 := w.(hashToBlock := w.hashToBlock[b.hashId := b]);
    match Walk(w1.hashToBlock, b, CONFIRMATIONS)
    case Genesis =>
    case Lacks(hash) =>
    case Reached(p) =>
      GenerateSendsOne(w1.(heightToFinalizedBlock := w1.heightToFinalizedBlock[p.height := p],
                           latestFinalizedHeight := p.height), n);
  }

  // ----- A chain whose first block has height 0 -----

  // The block of height i of a chain of empty blocks, as a node numbers them.
  function PlainBlock(i: nat): Block
    requires i + 1 < WORD
  {
    Block(i, 0, i + 1, i, [])
  }

  function PlainTree(): map<Hash, Block> {
    map b | b in PlainChain() :: b.hashId := b
  }

  function PlainChain(): seq<Block> {
    seq(11, i requires 0 <= i < 11 => PlainBlock(i))
  }

  lemma PlainInTree(i: nat)
    requires i < 11
    ensures i + 1 in PlainTree() && PlainTree()[i + 1] == PlainBlock(i)
  {
    assert PlainChain()[i] in PlainChain();
  }

  // New blocks only, each after its parent.
  lemma {:induction false} NewParentsFirst(tree: map<Hash, Block>, bs: seq<Block>)
    requires TreeOk(tree) && forall i :: 0 <= i < |bs| ==> Feedable(tree, Hashes(bs[..i]), bs[i])
    ensures ParentsFirst(tree, bs)
  {
    if bs != [] {
      var init := bs[..|bs| - 1];
      forall i | 0 <= i < |init| ensures Feedable(tree, Hashes(init[..i]), init[i]) {
        assert init[..i] == bs[..i];
      }
      NewParentsFirst(tree, init);
    }
  }

  lemma PlainTreeOk()
    ensures TreeOk(PlainTree())
  {
    var tree := PlainTree();
    assert tree.Keys == Hashes(PlainChain());
    forall h | h in Hashes(PlainChain()) ensures NodeOk(tree, h) {
      var b :| b in PlainChain() && b.hashId == h;
      var i :| 0 <= i < 11 && PlainChain()[i] == b;
      PlainInTree(i);
      if i > 0 {
        PlainInTree(i - 1);
      }
    }
  }

  lemma PlainIsFed()
    ensures TreeOk(PlainTree()) && ParentsFirst(PlainTree(), PlainChain())
  {
    var tree, bs := PlainTree(), PlainChain();
    PlainTreeOk();
    forall i | 0 <= i < 11 ensures Feedable(tree, Hashes(bs[..i]), bs[i]) {
      PlainInTree(i);
      assert NodeOk(tree, bs[i].hashId);
      if i > 0 {
        assert bs[..i][i - 1] in bs[..i];
      }
    }
    NewParentsFirst(tree, bs);
  }

  lemma {:induction false} PlainDepth(i: nat)
    requires i < 11 && TreeOk(PlainTree())
    ensures InTree(PlainTree(), PlainBlock(i)) && Depth(PlainTree(), PlainBlock(i)) == i
  {
    PlainInTree(i);
    InTreeAt(PlainTree(), i + 1);
    if i > 0 {
      PlainInTree(i - 1);
      PlainDepth(i - 1);
    }
  }

  // A run that feeds a block whose tenth ancestor has height 0 panics.
  lemma ZeroFed(tree: map<Hash, Block>, n: nat, bs: seq<Block>, b: Block)
    requires n >= 1 && TreeOk(tree) && ParentsFirst(tree, bs) && bs != [] && b == bs[|bs| - 1]
    requires InTree(tree, b) && Depth(tree, b) == b.height == 10
    ensures Feed(n, bs).None?
  {
    FinalitySafety(tree, n, bs);
    assert ReachesZero(tree, b);
  }

  /** On a chain that starts at height 0 a watcher that starts at height 0 panics as soon as it is
      fed the block of height 10, though nothing contradicts anything. */
  lemma ChainFromZeroPanics(n: nat)
    requires n >= 1
    ensures Feed(n, PlainChain()).None?
  {
    PlainIsFed();
    PlainDepth(10);
    ZeroFed(PlainTree(), n, PlainChain(), PlainBlock(10));
  }
}
