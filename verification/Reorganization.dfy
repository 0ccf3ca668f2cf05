/** The watcher's main loop against a node that changes its mind: every block it asks for by
    height may come from another branch than the last one. */
module Reorganization {
  import opened Words
  import opened Watcher
  import opened Epochs
  import opened Finality
  import opened BackTrace

  // ----- What is in memory -----

  // The block and its first k ancestors are in memory.
  ghost predicate Held(tree: map<Hash, Block>, blocks: map<Hash, Block>, b: Block, k: nat)
    requires TreeOk(tree) && InTree(tree, b) && k <= Depth(tree, b)
  {
    forall j :: 0 <= j <= k ==> Ancestor(tree, b, j).hashId in blocks
  }

  // A walk goes on exactly as far as memory reaches.
  lemma {:induction false} WalkExplains(tree: map<Hash, Block>, blocks: map<Hash, Block>, b: Block, k: nat) returns (held: nat)
    requires TreeOk(tree) && Within(blocks, tree) && InTree(tree, b) && b.hashId in blocks
    ensures held <= k && held <= Depth(tree, b) && Held(tree, blocks, b, held)
    ensures match Walk(blocks, b, k)
      case Reached(x) => held == k && x == Ancestor(tree, b, k)
      case Genesis => held == Depth(tree, b) < k
      case Lacks(h) => held < k && held < Depth(tree, b) && h == Ancestor(tree, b, held + 1).hashId && h !in blocks
    decreases k
  {
    held := 0;
    if b.parentBlk != 0 {
      ParentInTree(tree, b);
    }
    if k > 0 && b.parentBlk in blocks {
      InTreeAt(tree, b.parentBlk);
      var p := tree[b.parentBlk];
      var more := WalkExplains(tree, blocks, p, k - 1);
      held := more + 1;
      forall j | 0 <= j <= held ensures Ancestor(tree, b, j).hashId in blocks {
        assert j > 0 ==> Ancestor(tree, b, j) == Ancestor(tree, p, j - 1);
      }
      assert held < Depth(tree, b) ==> Ancestor(tree, b, held + 1) == Ancestor(tree, p, held);
    } else if k > 0 && b.parentBlk != 0 {
      assert Ancestor(tree, b, 1) == Ancestor(tree, tree[b.parentBlk], 0);
    }
  }

  lemma HeldFurther(tree: map<Hash, Block>, blocks: map<Hash, Block>, b: Block, s: nat, t: nat)
    requires TreeOk(tree) && InTree(tree, b) && s + t <= Depth(tree, b)
    requires Held(tree, blocks, b, s) && Held(tree, blocks, Ancestor(tree, b, s), t)
    ensures Held(tree, blocks, b, s + t)
  {
    forall j | 0 <= j <= s + t ensures Ancestor(tree, b, j).hashId in blocks {
      if j > s {
        AncestorOfAncestor(tree, b, s, j - s);
      }
    }
  }

  ghost predicate ParentKept(tree: map<Hash, Block>, blocks: map<Hash, Block>, bottom: int, h: Hash)
    requires h in tree
  {
    tree[h].height > bottom && tree[h].parentBlk != 0 ==> tree[h].parentBlk in blocks
  }

  // Nothing in memory is below the bottom, and what is at the bottom grows out of the chain.
  ghost predicate Clean(tree: map<Hash, Block>, blocks: map<Hash, Block>, fin: seq<Block>, bottom: int)
    requires Within(blocks, tree) && bottom <= |fin| + 1
  {
    forall h :: h in blocks ==> AboveBottom(tree[h], fin, bottom)
  }

  ghost predicate AboveBottom(b: Block, fin: seq<Block>, bottom: int)
    requires bottom <= |fin| + 1
  {
    bottom <= b.height && (b.height == bottom && bottom >= 2 ==> b.parentBlk == fin[bottom - 2].hashId)
  }

  /** Memory has a bottom: above it every block, but possibly `open`, has its parent in memory,
      and of the finalized chain exactly the blocks from there on are. */
  ghost predicate MemoryBut(tree: map<Hash, Block>, blocks: map<Hash, Block>, fin: seq<Block>, lo: int, bottom: int, open: Hash) {
    && 1 <= lo <= bottom <= |fin| + 1
    && Within(blocks, tree)
    && (forall h {:trigger ParentKept(tree, blocks, bottom, h)} :: h in blocks && h != open ==> ParentKept(tree, blocks, bottom, h))
    && (forall i :: 0 <= i < |fin| ==> (fin[i].hashId in blocks <==> i + 1 >= bottom))
    && (bottom > lo ==> Clean(tree, blocks, fin, bottom))
  }

  ghost predicate Memory(tree: map<Hash, Block>, blocks: map<Hash, Block>, fin: seq<Block>, lo: int, bottom: int) {
    MemoryBut(tree, blocks, fin, lo, bottom, 0)
  }

  // b grows out of the finalized chain, and its first ancestor has height 1.
  ghost predicate BuildsOn(tree: map<Hash, Block>, fin: seq<Block>, b: Block) {
    && TreeOk(tree) && ChainInTree(tree, fin) && InTree(tree, b)
    && |fin| < b.height && Depth(tree, b) == b.height - 1
    && (|fin| > 0 ==> Ancestor(tree, b, b.height - |fin|) == fin[|fin| - 1])
  }

  lemma AncestorIsFinal(tree: map<Hash, Block>, fin: seq<Block>, b: Block, s: nat)
    requires BuildsOn(tree, fin, b) && 1 <= b.height - s <= |fin|
    ensures Ancestor(tree, b, s) == fin[b.height - s - 1]
  {
    AncestorOnChain(tree, fin, b, b.height - |fin|, s);
  }

  // An ancestor of b below the bottom is not in memory.
  lemma BelowBottom(tree: map<Hash, Block>, blocks: map<Hash, Block>, fin: seq<Block>, lo: int, bottom: int, open: Hash, b: Block, s: nat)
    requires BuildsOn(tree, fin, b) && MemoryBut(tree, blocks, fin, lo, bottom, open)
    requires s <= Depth(tree, b) && b.height - s <= |fin|
    ensures Ancestor(tree, b, s).hashId in blocks <==> b.height - s >= bottom
  {
    AncestorIsFinal(tree, fin, b, s);
  }

  // ----- Fetching one more ancestor -----

  lemma ParentOfAncestor(tree: map<Hash, Block>, b: Block, s: nat)
    requires TreeOk(tree) && InTree(tree, b) && s < Depth(tree, b)
    ensures Ancestor(tree, b, s).parentBlk == Ancestor(tree, b, s + 1).hashId
  {
    var x := Ancestor(tree, b, s);
    AncestorOfAncestor(tree, b, s, 1);
    ParentInTree(tree, x);
    assert Ancestor(tree, x, 1) == Ancestor(tree, tree[x.parentBlk], 0);
  }

  lemma Closes(tree: map<Hash, Block>, blocks: map<Hash, Block>, fin: seq<Block>, lo: int, bottom: int, open: Hash)
    requires MemoryBut(tree, blocks, fin, lo, bottom, open)
    requires open in blocks ==> ParentKept(tree, blocks, bottom, open)
    ensures Memory(tree, blocks, fin, lo, bottom)
  {
  }

  lemma ParentsStayKept(tree: map<Hash, Block>, blocks: map<Hash, Block>, bottom: int, open: Hash, z: Block)
    requires Within(blocks, tree) && InTree(tree, z)
    requires forall h {:trigger ParentKept(tree, blocks, bottom, h)} :: h in blocks && h != open ==> ParentKept(tree, blocks, bottom, h)
    requires open in blocks ==> tree[open].parentBlk == z.hashId
    ensures var blocks' := blocks[z.hashId := z];
      forall h {:trigger ParentKept(tree, blocks', bottom, h)} :: h in blocks' && h != z.hashId ==> ParentKept(tree, blocks', bottom, h)
  {
    var blocks' := blocks[z.hashId := z];
    forall h | h in blocks' && h != z.hashId ensures ParentKept(tree, blocks', bottom, h) {
      assert h != open ==> ParentKept(tree, blocks, bottom, h);
    }
  }

  lemma FinalStored(tree: map<Hash, Block>, blocks: map<Hash, Block>, fin: seq<Block>, bottom: int, bottom': int, z: Block)
    requires ChainInTree(tree, fin) && InTree(tree, z)
    requires forall i :: 0 <= i < |fin| ==> (fin[i].hashId in blocks <==> i + 1 >= bottom)
    requires bottom' <= bottom && z.height >= bottom'
    requires bottom' < bottom ==> bottom' == bottom - 1 == z.height && 1 <= bottom' <= |fin| && z == fin[bottom' - 1]
    ensures forall i :: 0 <= i < |fin| ==> (fin[i].hashId in blocks[z.hashId := z] <==> i + 1 >= bottom')
  {
    forall i | 0 <= i < |fin| ensures fin[i].hashId in blocks[z.hashId := z] <==> i + 1 >= bottom' {
      assert InTree(tree, fin[i]);
    }
  }

  // Above the bottom: the fetched block z takes over from its child as the open one.
  lemma OpenMoves(tree: map<Hash, Block>, blocks: map<Hash, Block>, fin: seq<Block>, lo: int, bottom: int, b: Block, s: nat)
    requires BuildsOn(tree, fin, b) && 1 <= s <= Depth(tree, b) && b.height - s >= bottom
    requires MemoryBut(tree, blocks, fin, lo, bottom, Ancestor(tree, b, s - 1).hashId)
    ensures var z := Ancestor(tree, b, s); MemoryBut(tree, blocks[z.hashId := z], fin, lo, bottom, z.hashId)
  {
    var x, z := Ancestor(tree, b, s - 1), Ancestor(tree, b, s);
    ParentOfAncestor(tree, b, s - 1);
    ParentsStayKept(tree, blocks, bottom, x.hashId, z);
    FinalStored(tree, blocks, fin, bottom, bottom, z);
    if z.height == bottom >= 2 {
      AncestorIsFinal(tree, fin, b, s + 1);
      ParentOfAncestor(tree, b, s);
    }
    assert AboveBottom(z, fin, bottom);
  }

  // At the bottom: the fetched block z is finalized, and the bottom moves down to it.
  lemma BottomMoves(tree: map<Hash, Block>, blocks: map<Hash, Block>, fin: seq<Block>, lo: int, bottom: int, b: Block, s: nat)
    requires BuildsOn(tree, fin, b) && 1 <= s <= Depth(tree, b) && b.height - s == bottom - 1 >= lo
    requires MemoryBut(tree, blocks, fin, lo, bottom, Ancestor(tree, b, s - 1).hashId)
    ensures var z := Ancestor(tree, b, s); MemoryBut(tree, blocks[z.hashId := z], fin, lo, bottom - 1, z.hashId)
  {
    var x, z := Ancestor(tree, b, s - 1), Ancestor(tree, b, s);
    AncestorIsFinal(tree, fin, b, s);
    var blocks' := blocks[z.hashId := z];
    FinalStored(tree, blocks, fin, bottom, bottom - 1, z);
    forall h | h in blocks' && h != z.hashId ensures ParentKept(tree, blocks', bottom - 1, h) {
      assert AboveBottom(tree[h], fin, bottom);
      assert h != x.hashId ==> ParentKept(tree, blocks, bottom, h);
    }
    assert bottom >= 3 ==> LinkedAt(fin, bottom - 2);
    assert AboveBottom(z, fin, bottom - 1);
    forall h | h in blocks' ensures AboveBottom(tree[h], fin, bottom - 1) {
      assert h in blocks ==> AboveBottom(tree[h], fin, bottom);
    }
  }

  // ----- Tracing back -----

  /** Tracing back from b with i fetches to go: its ancestors are in memory up to the one before
      the s-th.  Above the bottom every fetch so far was one step down. */
  ghost predicate Tracing(tree: map<Hash, Block>, blocks: map<Hash, Block>, fin: seq<Block>, lo: int, bottom: int,
                          b: Block, s: nat, i: nat)
    requires BuildsOn(tree, fin, b)
  {
    && 1 <= s <= Depth(tree, b) && i <= 10 && 11 <= s + i <= 20
    && MemoryBut(tree, blocks, fin, lo, bottom, Ancestor(tree, b, s - 1).hashId)
    && Held(tree, blocks, b, s - 1) && Ancestor(tree, b, s).hashId !in blocks
    && b.height - s + 1 >= bottom
    && (b.height - s + 1 > bottom ==> s + i == 11)
  }

  // The block and its ten ancestors, or all of them, are in memory.
  ghost predicate WindowHeld(tree: map<Hash, Block>, blocks: map<Hash, Block>, b: Block)
    requires TreeOk(tree) && InTree(tree, b)
  {
    Held(tree, blocks, b, if Depth(tree, b) < 10 then Depth(tree, b) else 10)
  }

  // With two blocks or more in an epoch, ten finalized heights at least are stored.
  lemma {:induction false} LowIsFarDown(k: nat, n: nat, len: nat)
    requires n >= 2 && EpochEnd(k, n) <= len
    ensures Low(k, n) == 1 || Low(k, n) <= len - 10
  {
    if k >= 6 {
      EpochEndLater(k - 6, 6, n);
      FiveEpochs(n);
    }
  }

  // b is the block after the ten that are not finalized yet, or one of the first eleven.
  ghost predicate IsNext(fin: seq<Block>, b: Block) {
    b.height == |fin| + 11 || (|fin| == 0 && b.height <= 11)
  }

  lemma EnoughFetched(tree: map<Hash, Block>, blocks: map<Hash, Block>, fin: seq<Block>, lo: int, bottom: int, b: Block, s: nat)
    requires BuildsOn(tree, fin, b) && IsNext(fin, b) && Tracing(tree, blocks, fin, lo, bottom, b, s, 0)
    ensures Memory(tree, blocks, fin, lo, bottom) && WindowHeld(tree, blocks, b)
  {
    var x := Ancestor(tree, b, s - 1);
    if x.height > bottom {
      BelowBottom(tree, blocks, fin, lo, bottom, x.hashId, b, s);
      assert false;
    }
    Closes(tree, blocks, fin, lo, bottom, x.hashId);
  }

  // Memory after the next fetch, and how far its bottom has moved.
  lemma Fetched(tree: map<Hash, Block>, blocks: map<Hash, Block>, fin: seq<Block>, lo: int, bottom: int, b: Block, s: nat, i: nat)
    returns (z: Block, blocks': map<Hash, Block>, bottom': int)
    requires BuildsOn(tree, fin, b) && IsNext(fin, b) && Tracing(tree, blocks, fin, lo, bottom, b, s, i) && i > 0
    requires lo == 1 || lo <= |fin| - 10
    ensures z == Ancestor(tree, b, s) && blocks' == blocks[z.hashId := z]
    ensures bottom' == if b.height - s >= bottom then bottom else bottom - 1
    ensures MemoryBut(tree, blocks', fin, lo, bottom', z.hashId) && Held(tree, blocks', b, s)
    ensures bottom' <= z.height && (bottom' < z.height ==> s + i == 11)
  {
    z := Ancestor(tree, b, s);
    blocks' := blocks[z.hashId := z];
    bottom' := if b.height - s >= bottom then bottom else bottom - 1;
    if b.height - s >= bottom {
      OpenMoves(tree, blocks, fin, lo, bottom, b, s);
    } else {
      BottomMoves(tree, blocks, fin, lo, bottom, b, s);
    }
    HeldOne(tree, blocks, b, s);
  }

  lemma HeldOne(tree: map<Hash, Block>, blocks: map<Hash, Block>, b: Block, s: nat)
    requires TreeOk(tree) && InTree(tree, b) && 1 <= s <= Depth(tree, b) && Held(tree, blocks, b, s - 1)
    ensures var z := Ancestor(tree, b, s); Held(tree, blocks[z.hashId := z], b, s)
  {
  }

  lemma HeldLess(tree: map<Hash, Block>, blocks: map<Hash, Block>, b: Block, k: nat, k': nat)
    requires TreeOk(tree) && InTree(tree, b) && k' <= k <= Depth(tree, b) && Held(tree, blocks, b, k)
    ensures Held(tree, blocks, b, k')
  {
  }

  lemma ClosesAtFetched(tree: map<Hash, Block>, blocks: map<Hash, Block>, fin: seq<Block>, lo: int, bottom: int, z: Block)
    requires TreeOk(tree) && InTree(tree, z) && MemoryBut(tree, blocks, fin, lo, bottom, z.hashId)
    requires Depth(tree, z) > 0 ==> Held(tree, blocks, z, 1)
    ensures Memory(tree, blocks, fin, lo, bottom)
  {
    if Depth(tree, z) > 0 {
      ParentOfAncestor(tree, z, 0);
      assert Ancestor(tree, z, 1).hashId in blocks;
    }
    Closes(tree, blocks, fin, lo, bottom, z.hashId);
  }

  // The walk from the fetched block ends at a stored finalized block or at the first block: done.
  lemma FetchEnds(tree: map<Hash, Block>, blocks: map<Hash, Block>, fin: seq<Block>, lo: int, bottom: int,
                  b: Block, s: nat, z: Block, held: nat)
    requires BuildsOn(tree, fin, b) && IsNext(fin, b) && 1 <= s <= Depth(tree, b) && z == Ancestor(tree, b, s)
    requires MemoryBut(tree, blocks, fin, lo, bottom, z.hashId) && Held(tree, blocks, b, s)
    requires held == (if Depth(tree, z) < 10 then Depth(tree, z) else 10) && Held(tree, blocks, z, held)
    ensures Memory(tree, blocks, fin, lo, bottom) && WindowHeld(tree, blocks, b)
  {
    HeldFurther(tree, blocks, b, s, held);
    HeldLess(tree, blocks, b, s + held, if Depth(tree, b) < 10 then Depth(tree, b) else 10);
    if held > 0 {
      HeldLess(tree, blocks, z, held, 1);
    }
    ClosesAtFetched(tree, blocks, fin, lo, bottom, z);
  }

  lemma ReachesStored(tree: map<Hash, Block>, blocks: map<Hash, Block>, fin: seq<Block>, lo: int, bottom: int, open: Hash,
                      b: Block, s: nat, p: Block)
    requires BuildsOn(tree, fin, b) && IsNext(fin, b) && 11 <= s <= Depth(tree, b) && p == Ancestor(tree, b, s)
    requires MemoryBut(tree, blocks, fin, lo, bottom, open) && p.hashId in blocks
    ensures lo <= p.height <= |fin| && p == fin[p.height - 1]
  {
    AncestorIsFinal(tree, fin, b, s);
    BelowBottom(tree, blocks, fin, lo, bottom, open, b, s);
  }

  lemma FetchedReaches(tree: map<Hash, Block>, blocks: map<Hash, Block>, fin: seq<Block>, lo: int, bottom: int,
                       b: Block, s: nat, z: Block, p: Block)
    requires BuildsOn(tree, fin, b) && IsNext(fin, b) && 1 <= s <= Depth(tree, b) && z == Ancestor(tree, b, s)
    requires MemoryBut(tree, blocks, fin, lo, bottom, z.hashId) && Depth(tree, z) >= 10 && Held(tree, blocks, z, 10)
    requires p == Ancestor(tree, z, 10)
    ensures lo <= p.height <= |fin| && p == fin[p.height - 1]
  {
    AncestorOfAncestor(tree, b, s, 10);
    ReachesStored(tree, blocks, fin, lo, bottom, z.hashId, b, s + 10, p);
  }

  // A block whose tenth ancestor is stored as finalized is only remembered.
  lemma OnlyRemembered(w: State, n: nat, fin: seq<Block>, z: Block)
    requires Records(w, n, fin)
    requires var r := Walk(w.hashToBlock[z.hashId := z], z, CONFIRMATIONS);
      r.Reached? ==> Low(|w.sent|, n) <= r.block.height <= |fin| && r.block == fin[r.block.height - 1]
    ensures var r := Walk(w.hashToBlock[z.hashId := z], z, CONFIRMATIONS);
      AddBlock(w, n, z) == (w.(hashToBlock := w.hashToBlock[z.hashId := z]), if r.Lacks? then Missing(r.hash) else Done)
  {
  }

  // The walk from the fetched block lacks another ancestor: tracing goes on from there.
  lemma FetchGoesOn(tree: map<Hash, Block>, blocks: map<Hash, Block>, fin: seq<Block>, lo: int, bottom: int,
                    b: Block, s: nat, i: nat, z: Block, held: nat)
    requires BuildsOn(tree, fin, b) && IsNext(fin, b) && s + held < Depth(tree, b) && z == Ancestor(tree, b, s)
    requires MemoryBut(tree, blocks, fin, lo, bottom, z.hashId)
    requires 0 < i <= 11 && 11 <= s + i <= 20 && bottom <= z.height && (bottom < z.height ==> s + i == 11)
    requires held < 10 && Held(tree, blocks, b, s + held) && Ancestor(tree, b, s + held + 1).hashId !in blocks
    ensures Tracing(tree, blocks, fin, lo, bottom, b, s + held + 1, i - 1)
  {
    if held > 0 {
      OpenBelow(tree, blocks, fin, lo, bottom, b, s, z, held);
    }
  }

  lemma OpenBelow(tree: map<Hash, Block>, blocks: map<Hash, Block>, fin: seq<Block>, lo: int, bottom: int,
                  b: Block, s: nat, z: Block, held: nat)
    requires BuildsOn(tree, fin, b) && IsNext(fin, b) && s + held < Depth(tree, b) && z == Ancestor(tree, b, s)
    requires MemoryBut(tree, blocks, fin, lo, bottom, z.hashId) && bottom <= z.height
    requires 0 < held && Held(tree, blocks, b, s + held) && Ancestor(tree, b, s + held + 1).hashId !in blocks
    ensures b.height - (s + held) == bottom && bottom < z.height && Memory(tree, blocks, fin, lo, bottom)
  {
    ParentOfAncestor(tree, b, s);
    assert Ancestor(tree, b, s + 1).hashId in blocks;
    Closes(tree, blocks, fin, lo, bottom, z.hashId);
    var y := Ancestor(tree, b, s + held);
    ParentOfAncestor(tree, b, s + held);
    assert y.hashId in blocks && ParentKept(tree, blocks, bottom, y.hashId);
    if y.height < bottom {
      BelowBottom(tree, blocks, fin, lo, bottom, 0, b, s + held);
      assert false;
    }
  }

  // How far the walk from a fetched block gets, and what addBlock makes of it.
  ghost predicate Explained(tree: map<Hash, Block>, n: int, w: State, z: Block, blocks: map<Hash, Block>, held: nat)
    requires TreeOk(tree) && InTree(tree, z)
  {
    && held <= 10 && held <= Depth(tree, z) && Held(tree, blocks, z, held)
    && if held == 10 || held == Depth(tree, z) then AddBlock(w, n, z) == (w.(hashToBlock := blocks), Done)
       else var h := Ancestor(tree, z, held + 1).hashId;
            h !in blocks && AddBlock(w, n, z) == (w.(hashToBlock := blocks), Missing(h))
  }

  lemma FetchedWalk(tree: map<Hash, Block>, n: nat, w: State, fin: seq<Block>, bottom: int, b: Block, s: nat, z: Block)
    returns (held: nat)
    requires Records(w, n, fin) && BuildsOn(tree, fin, b) && IsNext(fin, b) && 1 <= s <= Depth(tree, b)
    requires z == Ancestor(tree, b, s)
    requires MemoryBut(tree, w.hashToBlock[z.hashId := z], fin, Low(|w.sent|, n), bottom, z.hashId)
    ensures Explained(tree, n, w, z, w.hashToBlock[z.hashId := z], held)
  {
    var blocks := w.hashToBlock[z.hashId := z];
    held := WalkExplains(tree, blocks, z, CONFIRMATIONS);
    if Walk(blocks, z, CONFIRMATIONS).Reached? {
      FetchedReaches(tree, blocks, fin, Low(|w.sent|, n), bottom, b, s, z, Ancestor(tree, z, 10));
    }
    OnlyRemembered(w, n, fin, z);
  }

  // Memory is not part of the record.
  lemma Remembers(w: State, n: nat, fin: seq<Block>, blocks: map<Hash, Block>) returns (w': State)
    requires Records(w, n, fin)
    ensures w' == w.(hashToBlock := blocks) && w'.hashToBlock == blocks && w'.sent == w.sent
    ensures Records(w', n, fin)
  {
    w' := w.(hashToBlock := blocks);
  }

  lemma LowestStored(w: State, n: nat, fin: seq<Block>, lo: int)
    requires n >= 2 && Records(w, n, fin) && lo == Low(|w.sent|, n)
    ensures lo == 1 || lo <= |fin| - 10
  {
    LowIsFarDown(|w.sent|, n, |fin|);
  }

  lemma FetchLacks(tree: map<Hash, Block>, blocks: map<Hash, Block>, fin: seq<Block>, lo: int, bottom: int,
                   b: Block, s: nat, i: nat, z: Block, held: nat)
    requires BuildsOn(tree, fin, b) && IsNext(fin, b) && 1 <= s <= Depth(tree, b) && z == Ancestor(tree, b, s)
    requires MemoryBut(tree, blocks, fin, lo, bottom, z.hashId) && Held(tree, blocks, b, s)
    requires 0 < i <= 10 && 11 <= s + i <= 20 && bottom <= z.height && (bottom < z.height ==> s + i == 11)
    requires held < 10 && held < Depth(tree, z) && Held(tree, blocks, z, held)
    requires Ancestor(tree, z, held + 1).hashId !in blocks
    ensures s + held + 1 <= Depth(tree, b) && Ancestor(tree, z, held + 1) == Ancestor(tree, b, s + held + 1)
    ensures Tracing(tree, blocks, fin, lo, bottom, b, s + held + 1, i - 1)
  {
    AncestorOfAncestor(tree, b, s, held + 1);
    HeldFurther(tree, blocks, b, s, held);
    FetchGoesOn(tree, blocks, fin, lo, bottom, b, s, i, z, held);
  }

  // With the fetched block in memory tracing is over, or it goes on at the s'-th ancestor.
  lemma AfterFetch(tree: map<Hash, Block>, n: nat, w: State, fin: seq<Block>, lo: int, bottom: int, b: Block, s: nat, i: nat,
                   z: Block, blocks: map<Hash, Block>)
    returns (s': nat, over: bool)
    requires Records(w, n, fin) && BuildsOn(tree, fin, b) && IsNext(fin, b) && lo == Low(|w.sent|, n)
    requires 1 <= s <= Depth(tree, b) && 0 < i <= 10 && 11 <= s + i <= 20
    requires z == Ancestor(tree, b, s) && blocks == w.hashToBlock[z.hashId := z]
    requires MemoryBut(tree, blocks, fin, lo, bottom, z.hashId) && Held(tree, blocks, b, s)
    requires bottom <= z.height && (bottom < z.height ==> s + i == 11)
    ensures over ==> Memory(tree, blocks, fin, lo, bottom) && WindowHeld(tree, blocks, b)
    ensures !over ==> Tracing(tree, blocks, fin, lo, bottom, b, s', i - 1)
    ensures AddBlock(w, n, z) ==
            (w.(hashToBlock := blocks), if over then Done else Missing(Ancestor(tree, b, s').hashId))
  {
    var held := FetchedWalk(tree, n, w, fin, bottom, b, s, z);
    over := held == 10 || held == Depth(tree, z);
    s' := s + held + 1;
    if over {
      FetchEnds(tree, blocks, fin, lo, bottom, b, s, z, held);
    } else {
      FetchLacks(tree, blocks, fin, lo, bottom, b, s, i, z, held);
    }
  }

  lemma OneFetch(tree: map<Hash, Block>, n: nat, w: State, fin: seq<Block>, lo: int, bottom: int, b: Block, s: nat, i: nat)
    returns (w': State, bottom': int, s': nat, over: bool)
    requires n >= 2 && Records(w, n, fin) && BuildsOn(tree, fin, b) && IsNext(fin, b) && lo == Low(|w.sent|, n) && i > 0
    requires Tracing(tree, w.hashToBlock, fin, lo, bottom, b, s, i)
    ensures w' == w.(hashToBlock := w'.hashToBlock) && w'.sent == w.sent && Records(w', n, fin)
    ensures over ==> Memory(tree, w'.hashToBlock, fin, lo, bottom') && WindowHeld(tree, w'.hashToBlock, b)
    ensures !over ==> Tracing(tree, w'.hashToBlock, fin, lo, bottom', b, s', i - 1)
    ensures TraceBack(tree, n, w, Missing(Ancestor(tree, b, s).hashId), i) ==
            if over then Some(w') else TraceBack(tree, n, w', Missing(Ancestor(tree, b, s').hashId), i - 1)
  {
    LowestStored(w, n, fin, lo);
    var z, blocks;
    z, blocks, bottom' := Fetched(tree, w.hashToBlock, fin, lo, bottom, b, s, i);
    s', over := AfterFetch(tree, n, w, fin, lo, bottom', b, s, i, z, blocks);
    w' := Remembers(w, n, fin, blocks);
    TraceBackStep(tree, n, w, z.hashId, i, w', if over then Done else Missing(Ancestor(tree, b, s').hashId));
  }

  /** Re-fetching at most ten parents never panics, whatever branch they are on, and brings the
      block's ten ancestors into memory. */
  lemma {:induction false} TraceBackSafe(tree: map<Hash, Block>, n: nat, w: State, fin: seq<Block>, lo: int, bottom: int,
                                         b: Block, s: nat, i: nat)
    returns (w': State, bottom': int)
    requires n >= 2 && Records(w, n, fin) && BuildsOn(tree, fin, b) && IsNext(fin, b) && lo == Low(|w.sent|, n)
    requires Tracing(tree, w.hashToBlock, fin, lo, bottom, b, s, i)
    ensures w' == w.(hashToBlock := w'.hashToBlock)
    ensures TraceBack(tree, n, w, Missing(Ancestor(tree, b, s).hashId), i) == Some(w')
    ensures Memory(tree, w'.hashToBlock, fin, lo, bottom') && WindowHeld(tree, w'.hashToBlock, b)
    decreases i
  {
    if i == 0 {
      EnoughFetched(tree, w.hashToBlock, fin, lo, bottom, b, s);
      w', bottom' := w, bottom;
    } else {
      var s', over;
      w', bottom', s', over := OneFetch(tree, n, w, fin, lo, bottom, b, s, i);
      if !over {
        w', bottom' := TraceBackSafe(tree, n, w', fin, lo, bottom', b, s', i - 1);
      }
    }
  }

  // ----- One turn of the main loop -----

  ghost predicate LoopInv(tree: map<Hash, Block>, n: nat, l: Loop, fin: seq<Block>, bottom: int) {
    && TreeOk(tree) && ChainInTree(tree, fin) && Records(l.watcher, n, fin)
    && 0 <= l.height && |fin| == FinalizedCount(l.height)
    && Memory(tree, l.watcher.hashToBlock, fin, Low(|l.watcher.sent|, n), bottom)
  }

  /** What the node answers when it is asked for the next height: a block of that height, on any
      branch that still holds the latest finalized block.  The chain starts at height 1. */
  ghost predicate Answers(tree: map<Hash, Block>, l: Loop, b: Block) {
    var latest := l.watcher.latestFinalizedHeight;
    && TreeOk(tree) && InTree(tree, b) && b.height == l.height + 1 && Depth(tree, b) == b.height - 1
    && (latest > 0 ==> latest < b.height && latest in l.watcher.heightToFinalizedBlock
                       && Ancestor(tree, b, b.height - latest) == l.watcher.heightToFinalizedBlock[latest])
  }

  lemma AnswerBuildsOn(tree: map<Hash, Block>, n: nat, l: Loop, fin: seq<Block>, bottom: int, b: Block)
    requires n >= 2 && LoopInv(tree, n, l, fin, bottom) && Answers(tree, l, b)
    ensures BuildsOn(tree, fin, b) && IsNext(fin, b)
  {
  }

  lemma TipAdded(tree: map<Hash, Block>, blocks: map<Hash, Block>, fin: seq<Block>, lo: int, bottom: int, b: Block)
    requires BuildsOn(tree, fin, b) && IsNext(fin, b) && Memory(tree, blocks, fin, lo, bottom)
    ensures MemoryBut(tree, blocks[b.hashId := b], fin, lo, bottom, b.hashId)
  {
    var blocks' := blocks[b.hashId := b];
    forall h | h in blocks' && h != b.hashId ensures ParentKept(tree, blocks', bottom, h) {
      assert h != 0 by {
        assert NodeOk(tree, h);
      }
      assert ParentKept(tree, blocks, bottom, h);
    }
    FinalStored(tree, blocks, fin, bottom, bottom, b);
    assert AboveBottom(b, fin, bottom);
  }

  lemma NextLinks(tree: map<Hash, Block>, fin: seq<Block>, b: Block) returns (p: Block)
    requires BuildsOn(tree, fin, b) && IsNext(fin, b) && Depth(tree, b) >= 10
    ensures p == Ancestor(tree, b, 10) && p.height == |fin| + 1 && ChainInTree(tree, fin + [p])
  {
    p := Ancestor(tree, b, 10);
    if |fin| > 0 {
      ParentOfAncestor(tree, b, 10);
    }
    LinkedExtension(tree, fin, p);
  }

  lemma MemoryAfterFinalize(tree: map<Hash, Block>, blocks: map<Hash, Block>, fin: seq<Block>, p: Block,
                            lo: int, lo': int, bottom: int, bottom': int)
    requires TreeOk(tree) && Memory(tree, blocks, fin, lo, bottom) && p.hashId in blocks && ChainInTree(tree, fin + [p])
    requires lo <= lo' <= |fin| + 2 && bottom' == if bottom < lo' then lo' else bottom
    ensures Memory(tree, blocks - HashesBetween(fin + [p], lo, lo' - 1), fin + [p], lo', bottom')
  {
    var fin' := fin + [p];
    var gone := HashesBetween(fin', lo, lo' - 1);
    var blocks' := blocks - gone;
    forall h | h in blocks' && h != 0 ensures ParentKept(tree, blocks', bottom', h) {
      assert ParentKept(tree, blocks, bottom, h) && NodeOk(tree, h);
      GoneIsLow(tree, fin', lo, lo', tree[h].parentBlk);
    }
    forall i | 0 <= i < |fin'| ensures fin'[i].hashId in blocks' <==> i + 1 >= bottom' {
      StaysExactly(tree, fin', lo, lo', i);
    }
    if bottom' > lo' {
      forall h | h in blocks' ensures AboveBottom(tree[h], fin', bottom') {
        assert AboveBottom(tree[h], fin, bottom);
      }
    }
  }

  // Only blocks below lo' are cleared.
  lemma GoneIsLow(tree: map<Hash, Block>, fin: seq<Block>, lo: int, lo': int, h: Hash)
    requires 1 <= lo <= lo' <= |fin| + 1 && ChainInTree(tree, fin)
    ensures h in HashesBetween(fin, lo, lo' - 1) ==> h in tree && tree[h].height < lo'
  {
    if h in HashesBetween(fin, lo, lo' - 1) {
      var i :| lo - 1 <= i < lo' - 1 && fin[i].hashId == h;
      assert InTree(tree, fin[i]);
    }
  }

  lemma StaysExactly(tree: map<Hash, Block>, fin: seq<Block>, lo: int, lo': int, i: nat)
    requires 1 <= lo <= lo' <= |fin| + 1 && ChainInTree(tree, fin) && i < |fin|
    ensures fin[i].hashId in HashesBetween(fin, lo, lo' - 1) <==> lo <= i + 1 < lo'
  {
    if fin[i].hashId in HashesBetween(fin, lo, lo' - 1) {
      var k :| lo - 1 <= k < lo' - 1 && fin[k].hashId == fin[i].hashId;
      assert InTree(tree, fin[k]) && InTree(tree, fin[i]);
    }
  }

  // The state after the walk from the tip has lacked an ancestor.
  lemma TurnTracesBack(tree: map<Hash, Block>, n: nat, period: int, l: Loop, fin: seq<Block>, lo: int, bottom: int, b: Block, held: nat)
    returns (w': State, bottom': int)
    requires n >= 2 && period >= 1 && Records(l.watcher, n, fin) && BuildsOn(tree, fin, b) && IsNext(fin, b)
    requires lo == Low(|l.watcher.sent|, n)
    requires var blocks := l.watcher.hashToBlock[b.hashId := b];
      && MemoryBut(tree, blocks, fin, lo, bottom, b.hashId)
      && held < 10 && held < Depth(tree, b) && Held(tree, blocks, b, held)
      && Ancestor(tree, b, held + 1).hashId !in blocks
      && Walk(blocks, b, CONFIRMATIONS) == Lacks(Ancestor(tree, b, held + 1).hashId)
    ensures Turn(tree, n, period, l, b) == Some(Loop(w', l.height))
    ensures w' == l.watcher.(hashToBlock := w'.hashToBlock) && Records(w', n, fin)
    ensures Memory(tree, w'.hashToBlock, fin, lo, bottom') && WindowHeld(tree, w'.hashToBlock, b)
  {
    var blocks := l.watcher.hashToBlock[b.hashId := b];
    var w := Remembers(l.watcher, n, fin, blocks);
    FetchGoesOn(tree, blocks, fin, lo, bottom, b, 0, 11, b, held);
    w', bottom' := TraceBackSafe(tree, n, w, fin, lo, bottom, b, held + 1, 10);
    var w'' := Remembers(l.watcher, n, fin, w'.hashToBlock);
  }

  // The state after b has been accepted: its tenth ancestor, if there is one, is finalized.
  lemma TipAccepted(tree: map<Hash, Block>, n: nat, w: State, fin: seq<Block>, lo: int, bottom: int, b: Block)
    returns (w': State, fin': seq<Block>, bottom': int)
    requires n >= 2 && Records(w, n, fin) && BuildsOn(tree, fin, b) && IsNext(fin, b) && lo == Low(|w.sent|, n)
    requires MemoryBut(tree, w.hashToBlock[b.hashId := b], fin, lo, bottom, b.hashId)
    requires WindowHeld(tree, w.hashToBlock[b.hashId := b], b)
    requires Walk(w.hashToBlock[b.hashId := b], b, CONFIRMATIONS) ==
             if Depth(tree, b) < 10 then Genesis else Reached(Ancestor(tree, b, 10))
    ensures AddBlock(w, n, b) == (w', Done)
    ensures fin' == if Depth(tree, b) < 10 then fin else fin + [Ancestor(tree, b, 10)]
    ensures Records(w', n, fin') && ChainInTree(tree, fin') && Memory(tree, w'.hashToBlock, fin', Low(|w'.sent|, n), bottom')
  {
    var blocks := w.hashToBlock[b.hashId := b];
    var w1 := Remembers(w, n, fin, blocks);
    if Depth(tree, b) > 0 {
      HeldLess(tree, blocks, b, if Depth(tree, b) < 10 then Depth(tree, b) else 10, 1);
    }
    ClosesAtFetched(tree, blocks, fin, lo, bottom, b);
    if Depth(tree, b) < 10 {
      w', fin', bottom' := w1, fin, bottom;
    } else {
      w', fin', bottom' := TipFinalizes(tree, n, w1, fin, lo, bottom, b);
      NotYetFinal(w, n, fin, Ancestor(tree, b, 10));
    }
  }

  lemma NotYetFinal(w: State, n: nat, fin: seq<Block>, p: Block)
    requires Records(w, n, fin) && p.height == |fin| + 1
    ensures p.height !in w.heightToFinalizedBlock
  {
  }

  lemma TipFinalizes(tree: map<Hash, Block>, n: nat, w: State, fin: seq<Block>, lo: int, bottom: int, b: Block)
    returns (w': State, fin': seq<Block>, bottom': int)
    requires n >= 2 && Records(w, n, fin) && BuildsOn(tree, fin, b) && IsNext(fin, b) && lo == Low(|w.sent|, n)
    requires Memory(tree, w.hashToBlock, fin, lo, bottom) && Depth(tree, b) >= 10 && WindowHeld(tree, w.hashToBlock, b)
    ensures Finalize(w, n, Ancestor(tree, b, 10)) == (w', Done) && Ancestor(tree, b, 10).height == |fin| + 1
    ensures fin' == fin + [Ancestor(tree, b, 10)]
    ensures Records(w', n, fin') && ChainInTree(tree, fin') && Memory(tree, w'.hashToBlock, fin', Low(|w'.sent|, n), bottom')
  {
    var p := NextLinks(tree, fin, b);
    assert Ancestor(tree, b, 10).hashId in w.hashToBlock;
    fin' := fin + [p];
    FinalizeRecords(w, n, fin, p);
    w' := Finalize(w, n, p).0;
    bottom' := MemoryAdvances(tree, n, w, w', fin, p, lo, bottom);
  }

  lemma MemoryAdvances(tree: map<Hash, Block>, n: nat, w: State, w': State, fin: seq<Block>, p: Block, lo: int, bottom: int)
    returns (bottom': int)
    requires n >= 1 && TreeOk(tree) && ChainInTree(tree, fin + [p]) && lo == Low(|w.sent|, n)
    requires Memory(tree, w.hashToBlock, fin, lo, bottom) && p.hashId in w.hashToBlock && Advances(w, w', n, fin + [p])
    ensures Memory(tree, w'.hashToBlock, fin + [p], Low(|w'.sent|, n), bottom')
  {
    var lo' := Low(|w'.sent|, n);
    LowGrows(|w.sent|, |w'.sent|, n);
    bottom' := if bottom < lo' then lo' else bottom;
    MemoryAfterFinalize(tree, w.hashToBlock, fin, p, lo, lo', bottom, bottom');
  }

  lemma Cleared(tree: map<Hash, Block>, fin: seq<Block>, lo: int, blocks: map<Hash, Block>, bottom: int)
    requires Memory(tree, blocks, fin, lo, bottom)
    ensures Memory(tree, map[], fin, lo, |fin| + 1)
  {
  }

  lemma TurnAccepts(tree: map<Hash, Block>, n: nat, period: int, l: Loop, fin: seq<Block>, lo: int, bottom: int, b: Block)
    returns (l': Loop, fin': seq<Block>, bottom': int)
    requires n >= 2 && period >= 1 && Records(l.watcher, n, fin) && BuildsOn(tree, fin, b) && IsNext(fin, b)
    requires lo == Low(|l.watcher.sent|, n) && b.height == l.height + 1 && |fin| == FinalizedCount(l.height)
    requires var blocks := l.watcher.hashToBlock[b.hashId := b];
      && MemoryBut(tree, blocks, fin, lo, bottom, b.hashId) && WindowHeld(tree, blocks, b)
      && Walk(blocks, b, CONFIRMATIONS) == if Depth(tree, b) < 10 then Genesis else Reached(Ancestor(tree, b, 10))
    ensures Turn(tree, n, period, l, b) == Some(l') && LoopInv(tree, n, l', fin', bottom')
    ensures l'.height == l.height + 1 && fin' == Grown(tree, fin, b)
  {
    var w1;
    w1, fin', bottom' := TipAccepted(tree, n, l.watcher, fin, lo, bottom, b);
    l' := Loop(w1, l.height + 1);
    if (l.height + 1) % period == 0 {
      var w2 := Remembers(w1, n, fin', map[]);
      Cleared(tree, fin', Low(|w1.sent|, n), w1.hashToBlock, bottom');
      l', bottom' := Loop(w2, l.height + 1), |fin'| + 1;
    }
  }

  // The finalized chain once b has been accepted.
  ghost function Grown(tree: map<Hash, Block>, fin: seq<Block>, b: Block): (r: seq<Block>)
    requires BuildsOn(tree, fin, b)
    ensures fin <= r
  {
    if Depth(tree, b) < 10 then fin else fin + [Ancestor(tree, b, 10)]
  }

  // Either b has been accepted, or it will be when it is answered again.
  ghost predicate Progress(tree: map<Hash, Block>, l: Loop, fin: seq<Block>, b: Block, l': Loop, fin': seq<Block>)
    requires BuildsOn(tree, fin, b)
  {
    || (l'.height == l.height + 1 && fin' == Grown(tree, fin, b))
    || (l'.height == l.height && fin' == fin && WindowHeld(tree, l'.watcher.hashToBlock, b)
        && !WindowHeld(tree, l.watcher.hashToBlock, b))
  }

  lemma TurnOnTip(tree: map<Hash, Block>, n: nat, period: int, l: Loop, fin: seq<Block>, lo: int, bottom: int, b: Block)
    returns (l': Loop, fin': seq<Block>, bottom': int)
    requires n >= 2 && period >= 1 && Records(l.watcher, n, fin) && BuildsOn(tree, fin, b) && IsNext(fin, b)
    requires lo == Low(|l.watcher.sent|, n) && b.height == l.height + 1 && |fin| == FinalizedCount(l.height)
    requires MemoryBut(tree, l.watcher.hashToBlock[b.hashId := b], fin, lo, bottom, b.hashId)
    ensures Turn(tree, n, period, l, b) == Some(l') && LoopInv(tree, n, l', fin', bottom')
    ensures Progress(tree, l, fin, b, l', fin')
  {
    var blocks := l.watcher.hashToBlock[b.hashId := b];
    var held := WalkExplains(tree, blocks, b, CONFIRMATIONS);
    if Walk(blocks, b, CONFIRMATIONS).Lacks? {
      var w';
      w', bottom' := TurnTracesBack(tree, n, period, l, fin, lo, bottom, b, held);
      l', fin' := Loop(w', l.height), fin;
      NotHeld(tree, l.watcher.hashToBlock, b, held + 1);
    } else {
      l', fin', bottom' := TurnAccepts(tree, n, period, l, fin, lo, bottom, b);
    }
  }

  /** One turn, whatever branch the node is on and whenever memory was cleared: no panic, and the
      height grows by one, or the ancestors of the answer have been fetched so that the same
      answer is accepted next time. */
  lemma TurnSafe(tree: map<Hash, Block>, n: nat, period: int, l: Loop, fin: seq<Block>, bottom: int, b: Block)
    returns (l': Loop, fin': seq<Block>, bottom': int)
    requires n >= 2 && period >= 1 && LoopInv(tree, n, l, fin, bottom) && Answers(tree, l, b)
    ensures Turn(tree, n, period, l, b) == Some(l') && LoopInv(tree, n, l', fin', bottom')
    ensures BuildsOn(tree, fin, b) && Progress(tree, l, fin, b, l', fin')
  {
    var lo := Low(|l.watcher.sent|, n);
    AnswerBuildsOn(tree, n, l, fin, bottom, b);
    TipAdded(tree, l.watcher.hashToBlock, fin, lo, bottom, b);
    l', fin', bottom' := TurnOnTip(tree, n, period, l, fin, lo, bottom, b);
  }

  lemma NotHeld(tree: map<Hash, Block>, blocks: map<Hash, Block>, b: Block, k: nat)
    requires TreeOk(tree) && InTree(tree, b) && k <= 10 && k <= Depth(tree, b) && Ancestor(tree, b, k).hashId !in blocks
    ensures !WindowHeld(tree, blocks, b)
  {
  }

  // ----- Runs -----

  ghost predicate ShallowRun(tree: map<Hash, Block>, n: int, period: int, served: seq<Block>)
    requires period >= 1
  {
    served == [] ||
    var init := served[..|served| - 1];
    && ShallowRun(tree, n, period, init)
    && (RunNode(tree, n, period, init).Some? ==> Answers(tree, RunNode(tree, n, period, init).value, served[|served| - 1]))
  }

  lemma NewLoop(tree: map<Hash, Block>, n: nat)
    requires n >= 2 && TreeOk(tree)
    ensures LoopInv(tree, n, Loop(NewWatcher(0), 0), [], 1)
  {
    NewWatcherRecords(n);
  }

  /** Against a node that may move to another branch before every single answer, as long as it
      never abandons a finalized block, and with any clearing period, the main loop never panics,
      is always ten blocks behind the height it has accepted, and finalizes one hash-linked chain
      of contiguous heights. */
  lemma {:induction false} ReorganizationSafety(tree: map<Hash, Block>, n: nat, period: int, served: seq<Block>)
    returns (l: Loop, fin: seq<Block>, bottom: int)
    requires n >= 2 && period >= 1 && TreeOk(tree) && ShallowRun(tree, n, period, served)
    ensures RunNode(tree, n, period, served) == Some(l)
    ensures l.watcher.latestFinalizedHeight == |fin| == FinalizedCount(l.height)
    ensures Linked(fin) && Records(l.watcher, n, fin) && LoopInv(tree, n, l, fin, bottom)
  {
    if served == [] {
      NewLoop(tree, n);
      l, fin, bottom := Loop(NewWatcher(0), 0), [], 1;
    } else {
      l, fin, bottom := ReorganizationSafety(tree, n, period, served[..|served| - 1]);
      l, fin, bottom := TurnSafe(tree, n, period, l, fin, bottom, served[|served| - 1]);
    }
  }

  /** Reorganizations never replace a finalized block: later turns only extend the chain. */
  lemma {:induction false} ReorganizationsExtend(tree: map<Hash, Block>, n: nat, period: int, served: seq<Block>, more: seq<Block>)
    returns (l: Loop, l': Loop, fin: seq<Block>, fin': seq<Block>, bottom: int)
    requires n >= 2 && period >= 1 && TreeOk(tree) && ShallowRun(tree, n, period, served + more)
    ensures RunNode(tree, n, period, served) == Some(l) && RunNode(tree, n, period, served + more) == Some(l')
    ensures Records(l.watcher, n, fin) && Records(l'.watcher, n, fin') && LoopInv(tree, n, l', fin', bottom)
    ensures fin <= fin' && l.height <= l'.height
    decreases |more|
  {
    if more == [] {
      assert served + more == served;
      l, fin, bottom := ReorganizationSafety(tree, n, period, served);
      l', fin' := l, fin;
    } else {
      var all := served + more;
      assert all[..|all| - 1] == served + more[..|more| - 1];
      l, l', fin, fin', bottom := ReorganizationsExtend(tree, n, period, served, more[..|more| - 1]);
      l', fin', bottom := TurnSafe(tree, n, period, l', fin', bottom, all[|all| - 1]);
    }
  }

  // b has been accepted, and its tenth ancestor is the latest finalized block.
  ghost predicate Accepts(tree: map<Hash, Block>, l: Loop, b: Block, l': Loop)
    requires TreeOk(tree) && InTree(tree, b)
  {
    && l'.height == l.height + 1
    && (Depth(tree, b) >= 10 ==>
          && l'.watcher.latestFinalizedHeight == b.height - 10
          && b.height - 10 in l'.watcher.heightToFinalizedBlock
          && l'.watcher.heightToFinalizedBlock[b.height - 10] == Ancestor(tree, b, 10))
  }

  lemma GrownIsAccepted(tree: map<Hash, Block>, n: nat, l: Loop, fin: seq<Block>, b: Block, l': Loop, fin': seq<Block>)
    requires n >= 1 && Records(l'.watcher, n, fin') && BuildsOn(tree, fin, b) && IsNext(fin, b)
    requires l'.height == l.height + 1 && fin' == Grown(tree, fin, b)
    ensures Accepts(tree, l, b, l')
  {
    if Depth(tree, b) >= 10 {
      LatestStored(l'.watcher, n, fin');
    }
  }

  lemma AnswersAgain(tree: map<Hash, Block>, n: nat, l: Loop, l': Loop, fin: seq<Block>, b: Block)
    requires n >= 1 && Records(l.watcher, n, fin) && Records(l'.watcher, n, fin) && l.height == l'.height && Answers(tree, l, b)
    ensures Answers(tree, l', b)
  {
    if fin != [] {
      LatestStored(l.watcher, n, fin);
      LatestStored(l'.watcher, n, fin);
    }
  }

  /** A node that stays on its new branch is followed: of two turns with the same answer one is
      accepted, and then the answer's tenth ancestor is the latest finalized block. */
  lemma SameAnswerIsAccepted(tree: map<Hash, Block>, n: nat, period: int, l: Loop, fin: seq<Block>, bottom: int, b: Block)
    returns (l': Loop)
    requires n >= 2 && period >= 1 && LoopInv(tree, n, l, fin, bottom) && Answers(tree, l, b)
    ensures Turn(tree, n, period, l, b).Some?
    ensures Some(l') == Turn(tree, n, period, l, b) || Some(l') == Turn(tree, n, period, Turn(tree, n, period, l, b).value, b)
    ensures Accepts(tree, l, b, l')
  {
    var l1, fin1, bottom1 := TurnSafe(tree, n, period, l, fin, bottom, b);
    AnswerBuildsOn(tree, n, l, fin, bottom, b);
    if l1.height == l.height {
      AnswersAgain(tree, n, l, l1, fin, b);
      l', fin1, bottom1 := TurnSafe(tree, n, period, l1, fin1, bottom1, b);
    } else {
      l' := l1;
    }
    GrownIsAccepted(tree, n, l, fin, b, l', fin1);
  }

  lemma LatestStored(w: State, n: nat, fin: seq<Block>)
    requires n >= 1 && Records(w, n, fin) && fin != []
    ensures |fin| in w.heightToFinalizedBlock && w.heightToFinalizedBlock[|fin|] == fin[|fin| - 1]
  {
    LowMoves(|w.sent|, n);
  }

  // ----- Deeper reorganizations -----

  // b and what is fetched below it are all that memory has of its branch.
  ghost predicate Unknown(tree: map<Hash, Block>, blocks: map<Hash, Block>, b: Block, first: nat, last: nat)
    requires TreeOk(tree) && InTree(tree, b) && last <= Depth(tree, b)
  {
    forall j :: first <= j <= last ==> Ancestor(tree, b, j).hashId !in blocks
  }

  lemma UnknownStays(tree: map<Hash, Block>, blocks: map<Hash, Block>, b: Block, j: nat, last: nat)
    requires TreeOk(tree) && InTree(tree, b) && j <= last <= Depth(tree, b) && Unknown(tree, blocks, b, j + 1, last)
    ensures var z := Ancestor(tree, b, j); Unknown(tree, blocks[z.hashId := z], b, j + 1, last)
  {
    var z := Ancestor(tree, b, j);
    forall k | j + 1 <= k <= last ensures Ancestor(tree, b, k).hashId !in blocks[z.hashId := z] {
      assert Ancestor(tree, b, k).height != z.height;
    }
  }

  lemma LacksParent(tree: map<Hash, Block>, w: State, n: int, b: Block, j: nat)
    requires TreeOk(tree) && InTree(tree, b) && j < Depth(tree, b) && Ancestor(tree, b, j + 1).hashId !in w.hashToBlock
    ensures var z := Ancestor(tree, b, j);
      AddBlock(w, n, z) == (w.(hashToBlock := w.hashToBlock[z.hashId := z]), Missing(Ancestor(tree, b, j + 1).hashId))
  {
    ParentOfAncestor(tree, b, j);
    assert Ancestor(tree, b, j + 1).height != Ancestor(tree, b, j).height;
    assert InTree(tree, Ancestor(tree, b, j + 1));
  }

  lemma {:induction false} FetchesDown(tree: map<Hash, Block>, n: int, w: State, b: Block, j: nat, i: nat) returns (w': State)
    requires TreeOk(tree) && InTree(tree, b) && 1 <= j && j + i <= Depth(tree, b)
    requires Within(w.hashToBlock, tree) && Held(tree, w.hashToBlock, b, j - 1) && Unknown(tree, w.hashToBlock, b, j, j + i)
    ensures TraceBack(tree, n, w, Missing(Ancestor(tree, b, j).hashId), i) == Some(w')
    ensures w' == w.(hashToBlock := w'.hashToBlock) && Within(w'.hashToBlock, tree)
    ensures Held(tree, w'.hashToBlock, b, j + i - 1)
    decreases i
  {
    w' := w;
    if i > 0 {
      var z := Ancestor(tree, b, j);
      LacksParent(tree, w, n, b, j);
      UnknownStays(tree, w.hashToBlock, b, j, j + i);
      HeldOne(tree, w.hashToBlock, b, j);
      w' := FetchesDown(tree, n, w.(hashToBlock := w.hashToBlock[z.hashId := z]), b, j + 1, i - 1);
    }
  }

  // The first turn on an unknown branch fetches exactly the ten ancestors of b.
  lemma UnknownIsFetched(tree: map<Hash, Block>, n: nat, period: int, l: Loop, b: Block) returns (w': State)
    requires period >= 1 && TreeOk(tree) && InTree(tree, b) && Depth(tree, b) >= 11
    requires Within(l.watcher.hashToBlock, tree) && Unknown(tree, l.watcher.hashToBlock, b, 1, 11)
    ensures Turn(tree, n, period, l, b) == Some(Loop(w', l.height))
    ensures w' == l.watcher.(hashToBlock := w'.hashToBlock) && Within(w'.hashToBlock, tree)
    ensures Held(tree, w'.hashToBlock, b, 10)
  {
    assert Ancestor(tree, b, 0) == b;
    LacksParent(tree, l.watcher, n, b, 0);
    UnknownStays(tree, l.watcher.hashToBlock, b, 0, 11);
    w' := FetchesDown(tree, n, l.watcher.(hashToBlock := l.watcher.hashToBlock[b.hashId := b]), b, 1, 10);
  }

  lemma HeldIsFinalized(tree: map<Hash, Block>, n: nat, w: State, fin: seq<Block>, b: Block) returns (w': State, p: Block)
    requires n >= 1 && TreeOk(tree) && InTree(tree, b) && Depth(tree, b) >= 10 && b.height == |fin| + 11
    requires Records(w, n, fin) && Within(w.hashToBlock, tree) && Held(tree, w.hashToBlock, b, 10)
    ensures p == Ancestor(tree, b, 10) && AddBlock(w, n, b) == (w', Done) && Records(w', n, fin + [p])
  {
    p := Ancestor(tree, b, 10);
    assert Ancestor(tree, b, 0) == b && w.hashToBlock[b.hashId := b] == w.hashToBlock;
    var held := WalkExplains(tree, w.hashToBlock, b, CONFIRMATIONS);
    NotYetFinal(w, n, fin, p);
    FinalizeRecords(w, n, fin, p);
    w' := AddBlock(w, n, b).0;
  }

  lemma TurnDone(tree: map<Hash, Block>, n: nat, period: int, l: Loop, b: Block, w: State, fin: seq<Block>) returns (l': Loop)
    requires period >= 1 && AddBlock(l.watcher, n, b) == (w, Done) && Records(w, n, fin)
    ensures Turn(tree, n, period, l, b) == Some(l') && Records(l'.watcher, n, fin)
  {
    var w' := Remembers(w, n, fin, map[]);
    l' := Turn(tree, n, period, l, b).value;
  }

  lemma Unlinked(tree: map<Hash, Block>, fin: seq<Block>, b: Block, k: nat)
    requires TreeOk(tree) && InTree(tree, b) && k < Depth(tree, b) && fin != []
    requires Ancestor(tree, b, k + 1).hashId != fin[|fin| - 1].hashId
    ensures !Linked(fin + [Ancestor(tree, b, k)])
  {
    ParentOfAncestor(tree, b, k);
    assert !LinkedAt(fin + [Ancestor(tree, b, k)], |fin|);
  }

  /** A deeper reorganization can go unnoticed: on a branch that does not hold the latest finalized
      block, and of which memory has neither the ten ancestors of b nor the one behind them, two
      turns finalize a block whose parent is not that block, without a panic.  With a part of the
      branch in memory a turn may also panic; MainLoop.TurnExactly says when. */
  lemma DeepReorganizationGoesUnnoticed(tree: map<Hash, Block>, n: nat, period: int, l: Loop, fin: seq<Block>, b: Block)
    returns (l1: Loop, l2: Loop)
    requires n >= 1 && period >= 1 && TreeOk(tree) && Records(l.watcher, n, fin) && Within(l.watcher.hashToBlock, tree)
    requires fin != [] && l.height == |fin| + 10 && InTree(tree, b) && b.height == l.height + 1
    requires Depth(tree, b) == b.height - 1 && Unknown(tree, l.watcher.hashToBlock, b, 1, 11)
    requires Ancestor(tree, b, 11).hashId != fin[|fin| - 1].hashId
    ensures Turn(tree, n, period, l, b) == Some(l1) && Turn(tree, n, period, l1, b) == Some(l2)
    ensures Records(l2.watcher, n, fin + [Ancestor(tree, b, 10)]) && !Linked(fin + [Ancestor(tree, b, 10)])
  {
    var w1 := UnknownIsFetched(tree, n, period, l, b);
    var w1' := Remembers(l.watcher, n, fin, w1.hashToBlock);
    var w2, p := HeldIsFinalized(tree, n, w1, fin, b);
    l1 := Loop(w1, l.height);
    l2 := TurnDone(tree, n, period, l1, b, w2, fin + [p]);
    Unlinked(tree, fin, b, 10);
  }
}
