/** The watcher as an object whose fields are updated step by step (staking/watcher.go). */
module WatcherMachine {
  import opened Words
  import opened Epochs
  import opened Finality
  import opened BackTrace
  import W = Watcher

  class Watcher {
    const numBlocksInEpoch: int
    var lastEpochEndHeight: int
    var latestFinalizedHeight: int
    var hashToBlock: map<W.Hash, W.Block>
    var heightToFinalizedBlock: map<int, W.Block>
    var epochList: seq<W.Epoch>
    var sent: seq<W.Epoch>  // what has been written to EpochChan

    ghost function State(): W.State
      reads this
    {
      W.State(lastEpochEndHeight, latestFinalizedHeight, hashToBlock, heightToFinalizedBlock, epochList, sent)
    }

    constructor (lastHeight: int, numBlocksInEpoch: int)
      ensures State() == W.NewWatcher(lastHeight) && this.numBlocksInEpoch == numBlocksInEpoch
    {
      this.numBlocksInEpoch := numBlocksInEpoch;
      lastEpochEndHeight, latestFinalizedHeight := lastHeight, lastHeight;
      hashToBlock, heightToFinalizedBlock, epochList, sent := map[], map[], [], [];
    }

    method ClearBelow(start: int)
      modifies this`heightToFinalizedBlock, this`hashToBlock
      ensures State() == W.ClearBelow(old(State()), start)
    {
      var height := start;
      while height in heightToFinalizedBlock
        invariant W.ClearBelow(State(), height) == W.ClearBelow(old(State()), start)
        decreases |heightToFinalizedBlock|
      {
        var blk := heightToFinalizedBlock[height];
        heightToFinalizedBlock := heightToFinalizedBlock - {height};
        hashToBlock := hashToBlock - {blk.hashId};
        height := height - 1;
      }
    }

    method ClearOldData()
      modifies this
      ensures State() == W.ClearOldData(old(State()), numBlocksInEpoch)
    {
      var elLen := |epochList|;
      if elLen == 0 {
        return;
      }
      ClearBelow(epochList[elLen - 1].startHeight - 5 * numBlocksInEpoch);
      if elLen > W.KEPT_EPOCHS {
        epochList := epochList[elLen - W.KEPT_EPOCHS..];
      }
    }

    // The loop over the finalized heights first..last; None is the panic "Missing Block".
    method CountBlocks(first: int, last: int) returns (tally: Option<W.Tally>)
      requires first <= last + 1
      ensures var bs := W.Window(heightToFinalizedBlock, first, last);
              tally == if bs.None? then None else Some(W.TallyBlocks(bs.value))
    {
      var t := W.EmptyTally();
      ghost var bs: seq<W.Block> := [];
      var i := first;
      while i <= last
        invariant first <= i <= last + 1
        invariant W.Window(heightToFinalizedBlock, first, i - 1) == Some(bs)
        invariant t == W.TallyBlocks(bs)
      {
        if i !in heightToFinalizedBlock {
          WindowMisses(heightToFinalizedBlock, first, last, i);
          return None;
        }
        var blk := heightToFinalizedBlock[i];
        TallyOneMore(bs, blk);
        t := CountBlock(t, blk);
        bs := bs + [blk];
        i := i + 1;
      }
      return Some(t);
    }

    method CountEpoch(first: int, last: int) returns (epoch: Option<W.Epoch>)
      requires first <= last + 1
      ensures var bs := W.Window(heightToFinalizedBlock, first, last);
              epoch == if bs.None? then None else Some(W.EpochOf(bs.value, first, W.LastEpoch(epochList)))
    {
      var tally := CountBlocks(first, last);
      if tally.None? {
        return None;
      }
      var t := tally.value;
      var duration := t.endTime - t.startTime;
      if |epochList| != 0 {
        duration := t.endTime - epochList[|epochList| - 1].endTime;
      }
      epoch := Some(W.Epoch(first, t.endTime, duration, map pk | pk in t.index :: t.cells[t.index[pk]]));
    }

    method GenerateNewEpoch() returns (ok: bool)
      requires lastEpochEndHeight <= latestFinalizedHeight
      modifies this
      ensures var (w, o) := W.GenerateNewEpoch(old(State()), numBlocksInEpoch);
              (ok <==> !o.Panicked?) && State() == w
    {
      var epoch := CountEpoch(lastEpochEndHeight + 1, latestFinalizedHeight);
      if epoch.None? {
        return false;
      }
      epochList := epochList + [epoch.value];
      sent := sent + [epoch.value];
      lastEpochEndHeight := latestFinalizedHeight;
      ClearOldData();
      return true;
    }

    method AddBlock(blk: W.Block) returns (outcome: W.Outcome)
      requires numBlocksInEpoch >= 1
      modifies this
      ensures (State(), outcome) == W.AddBlock(old(State()), numBlocksInEpoch, blk)
    {
      hashToBlock := hashToBlock[blk.hashId := blk];
      var parent, steps := blk, W.CONFIRMATIONS;
      while steps > 0
        invariant 0 <= steps <= W.CONFIRMATIONS
        invariant W.Walk(hashToBlock, blk, W.CONFIRMATIONS) == W.Walk(hashToBlock, parent, steps)
      {
        if parent.parentBlk !in hashToBlock {
          if parent.parentBlk == 0 {
            return W.Done;
          }
          return W.Missing(parent.parentBlk);
        }
        parent := hashToBlock[parent.parentBlk];
        steps := steps - 1;
      }
      if parent.height in heightToFinalizedBlock {
        if heightToFinalizedBlock[parent.height].Equal(parent) {
          return W.Done;
        }
        return W.Panicked(W.DeepReorganization);
      }
      heightToFinalizedBlock := heightToFinalizedBlock[parent.height := parent];
      if latestFinalizedHeight + 1 != parent.height {
        return W.Panicked(W.HeightSkipped);
      }
      latestFinalizedHeight := latestFinalizedHeight + 1;
      if latestFinalizedHeight - lastEpochEndHeight == numBlocksInEpoch {
        var ok := GenerateNewEpoch();
        if !ok {
          return W.Panicked(W.MissingBlock);
        }
      }
      return W.Done;
    }

    // Fetch up to ten parents by hash; false is a panic.
    method TraceBack(tree: map<W.Hash, W.Block>, start: W.Outcome) returns (ok: bool)
      requires numBlocksInEpoch >= 1
      modifies this
      ensures ok <==> W.TraceBack(tree, numBlocksInEpoch, old(State()), start, 10).Some?
      ensures ok ==> W.TraceBack(tree, numBlocksInEpoch, old(State()), start, 10) == Some(State())
    {
      var outcome, i := start, 10;
      while outcome.Missing? && i > 0
        invariant 0 <= i <= 10
        invariant W.TraceBack(tree, numBlocksInEpoch, State(), outcome, i) ==
                  W.TraceBack(tree, numBlocksInEpoch, old(State()), start, 10)
      {
        if outcome.hash !in tree {
          return false;
        }
        outcome := AddBlock(tree[outcome.hash]);
        if outcome.Panicked? {
          return false;
        }
        i := i - 1;
      }
      return true;
    }

    // One turn of the main loop, in which the node has answered blk.
    method Turn(tree: map<W.Hash, W.Block>, blk: W.Block, numBlocksToClearMemory: int, height0: int)
      returns (ok: bool, height: int)
      requires numBlocksInEpoch >= 1 && numBlocksToClearMemory >= 1
      modifies this
      ensures var l := W.Turn(tree, numBlocksInEpoch, numBlocksToClearMemory, W.Loop(old(State()), height0), blk);
        (ok <==> l.Some?) && (ok ==> l == Some(W.Loop(State(), height)))
    {
      height := height0 + 1;
      var outcome := AddBlock(blk);
      if outcome.Panicked? {
        return false, height;
      }
      if outcome.Missing? {
        height := height - 1;
      } else if height % numBlocksToClearMemory == 0 {
        hashToBlock := map[];
      }
      ok := TraceBack(tree, outcome);
    }

    /** The main loop, as long as the node answers: served[t] is its answer to the t-th request by
        height, and tree what it knows by hash. */
    method RunServed(tree: map<W.Hash, W.Block>, served: seq<W.Block>, numBlocksToClearMemory: int)
      returns (ok: bool, height: int)
      requires numBlocksInEpoch >= 1 && numBlocksToClearMemory >= 1
      requires State() == W.NewWatcher(0)
      modifies this
      ensures ok <==> W.RunNode(tree, numBlocksInEpoch, numBlocksToClearMemory, served).Some?
      ensures ok ==> W.RunNode(tree, numBlocksInEpoch, numBlocksToClearMemory, served) == Some(W.Loop(State(), height))
    {
      ok, height := true, 0;
      for t := 0 to |served|
        invariant ok
        invariant W.RunNode(tree, numBlocksInEpoch, numBlocksToClearMemory, served[..t]) == Some(W.Loop(State(), height))
      {
        assert served[..t + 1][..t] == served[..t];
        ok, height := Turn(tree, served[t], numBlocksToClearMemory, height);
        if !ok {
          RunStops(tree, numBlocksInEpoch, numBlocksToClearMemory, served, t + 1);
          return;
        }
      }
      assert served[..|served|] == served;
    }

    /** The main loop, up to the block of height upTo, against a node that serves `chain` by
        height and `tree` by hash, whatever the clearing period is.  It panics only on a chain
        that starts at height 0, and there at height 10. */
    method Run(tree: map<W.Hash, W.Block>, chain: seq<W.Block>, numBlocksToClearMemory: int, upTo: nat) returns (ok: bool)
      requires numBlocksInEpoch >= 1 && numBlocksToClearMemory >= 1
      requires TreeOk(tree) && Path(tree, chain) && upTo < |chain| + Base(chain)
      requires State() == W.NewWatcher(0)
      modifies this
      ensures ok <==> Base(chain) == 1 || upTo < 10
      ensures ok ==> latestFinalizedHeight == if upTo > 10 then upTo - 10 else 0
      ensures ok ==> Records(State(), numBlocksInEpoch, chain[..latestFinalizedHeight])
    {
      NewWatcherAccepted(numBlocksInEpoch, tree, chain);
      var height := 0;
      ghost var l, held := W.Loop(State(), 0), Base(chain) == 1;
      ghost var m: nat := 1 - Base(chain);
      while height < upTo
        invariant height <= upTo && l == W.Loop(State(), height)
        invariant Following(l, numBlocksInEpoch, tree, chain, m, held)
        decreases upTo - height, if held then 0 else 1
      {
        FollowedTo(l, numBlocksInEpoch, tree, chain, m, held);
        ghost var l', m', held' := LinearTurn(l, numBlocksInEpoch, numBlocksToClearMemory, tree, chain, m, held);
        ok, height := Turn(tree, chain[height + 1 - chain[0].height], numBlocksToClearMemory, height);
        if !ok {
          return;
        }
        l, m, held := l', m', held';
        FollowedTo(l, numBlocksInEpoch, tree, chain, m, held);
      }
      FollowedTo(l, numBlocksInEpoch, tree, chain, m, held);
      return true;
    }
  }

  lemma {:induction false} RunStops(tree: map<W.Hash, W.Block>, n: int, period: int, served: seq<W.Block>, t: nat)
    requires period >= 1 && t <= |served| && W.RunNode(tree, n, period, served[..t]).None?
    ensures W.RunNode(tree, n, period, served).None?
    decreases |served| - t
  {
    if t == |served| {
      assert served[..t] == served;
    } else {
      assert served[..t + 1][..t] == served[..t];
      RunStops(tree, n, period, served, t + 1);
    }
  }

  lemma {:induction false} WindowMisses(finalized: map<int, W.Block>, first: int, last: int, i: int)
    requires first <= i <= last && i !in finalized
    ensures W.Window(finalized, first, last).None?
    decreases last - i
  {
    if i < last {
      WindowMisses(finalized, first, last - 1, i);
    }
  }

  lemma TallyOneMore(bs: seq<W.Block>, b: W.Block)
    ensures W.TallyBlocks(bs + [b]) == W.TallyBlock(W.TallyBlocks(bs), b)
  {
    assert (bs + [b])[..|bs|] == bs;
  }

  // One block of the outer counting loop, with the inner loop over its nominations.
  method CountBlock(t: W.Tally, blk: W.Block) returns (r: W.Tally)
    requires W.TallyOk(t)
    ensures r == W.TallyBlock(t, blk)
  {
    r := t;
    if r.endTime < blk.timestamp {
      r := r.(endTime := blk.timestamp);
    }
    if r.startTime > blk.timestamp {
      r := r.(startTime := blk.timestamp);
    }
    if |blk.nominations| != 0 {
      r := CountNominations(W.WithVariable(r), blk.nominations);
    }
  }

  // The inner loop; its variable is the last cell.
  method CountNominations(t: W.Tally, ns: seq<W.Nomination>) returns (r: W.Tally)
    requires W.TallyOk(t) && |t.cells| > 0
    ensures r == W.TallyNominations(t, ns)
  {
    r := t;
    var c := |t.cells| - 1;
    for j := 0 to |ns|
      invariant |r.cells| == c + 1
      invariant r == W.TallyNominations(t, ns[..j])
    {
      assert ns[..j + 1][..j] == ns[..j];
      var cells, index := r.cells[c := ns[j]], r.index;
      if ns[j].pubkey !in index {
        index := index[ns[j].pubkey := c];
      }
      var k := index[ns[j].pubkey];
      cells := cells[k := cells[k].(nominatedCount := cells[k].nominatedCount + 1)];
      r := r.(cells := cells, index := index);
    }
    assert ns[..|ns|] == ns;
  }
}
