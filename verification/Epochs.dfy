/** What the watcher stores: the finalized chain, cut into epochs of equal length, and how much
    of it is kept. */
module Epochs {
  import opened Words
  import opened Watcher

  // The last height of the k-th epoch, k * n.
  function EpochEnd(k: nat, n: nat): nat {
    if k == 0 then 0 else EpochEnd(k - 1, n) + n
  }

  lemma {:induction false} EpochEndIsProduct(k: nat, n: nat)
    ensures EpochEnd(k, n) == k * n
  {
    if k > 0 {
      EpochEndIsProduct(k - 1, n);
    }
  }

  // The lowest finalized height still stored after k epochs of n blocks.
  function Low(k: nat, n: nat): nat {
    if k < 6 then 1 else EpochEnd(k - 6, n) + 2
  }

  // fin is a chain of finalized blocks: heights 1, 2, 3, ..., each the parent of the next.
  ghost predicate Linked(fin: seq<Block>) {
    && (forall i :: 0 <= i < |fin| ==> fin[i].height == i + 1)
    && (forall i {:trigger LinkedAt(fin, i)} :: 0 < i < |fin| ==> LinkedAt(fin, i))
  }

  ghost predicate LinkedAt(fin: seq<Block>, i: int)
    requires 0 < i < |fin|
  {
    fin[i].parentBlk == fin[i - 1].hashId
  }

  /** The i-th epoch is counted over the finalized heights i*n+1..(i+1)*n and nothing else:
      the epochs tile the finalized chain. */
  ghost predicate Tiled(sent: seq<Epoch>, fin: seq<Block>, n: nat) {
    forall i :: 0 <= i < |sent| ==> TileOk(sent, fin, n, i)
  }

  ghost predicate TileOk(sent: seq<Epoch>, fin: seq<Block>, n: nat, i: nat)
    requires i < |sent|
  {
    EpochEnd(i + 1, n) <= |fin|
    && sent[i] == EpochOf(fin[EpochEnd(i, n)..EpochEnd(i + 1, n)], EpochEnd(i, n) + 1,
                          if i == 0 then None else Some(sent[i - 1]))
  }

  ghost predicate KeepsHeights(finalized: map<int, Block>, fin: seq<Block>, lo: int) {
    && 1 <= lo
    && (forall h :: h in finalized <==> lo <= h <= |fin|)
    && (forall h :: lo <= h <= |fin| ==> finalized[h] == fin[h - 1])
  }

  // The watcher's record of the finalized chain fin.
  ghost predicate Records(w: State, n: nat, fin: seq<Block>) {
    var k := |w.sent|;
    && w.latestFinalizedHeight == |fin|
    && w.lastEpochEndHeight == EpochEnd(k, n) <= |fin| < EpochEnd(k + 1, n)
    && KeepsHeights(w.heightToFinalizedBlock, fin, Low(k, n))
    && Tiled(w.sent, fin, n)
    && w.epochList == LastEpochs(w.sent)
  }

  lemma NewWatcherRecords(n: nat)
    requires n >= 1
    ensures Records(NewWatcher(0), n, [])
  {
    assert EpochEnd(1, n) == n;
  }

  // ----- Arithmetic of epochs -----

  lemma {:induction false} EpochEndLater(k: nat, j: nat, n: nat)
    ensures EpochEnd(k + j, n) == EpochEnd(k, n) + EpochEnd(j, n)
  {
    if j > 0 {
      EpochEndLater(k, j - 1, n);
      assert EpochEnd(k + j, n) == EpochEnd(k + j - 1, n) + n;
    }
  }

  lemma FiveEpochs(n: nat)
    ensures EpochEnd(1, n) == n && EpochEnd(5, n) == 5 * n && EpochEnd(6, n) == 6 * n
  {
    assert EpochEnd(1, n) == EpochEnd(0, n) + n;
    assert EpochEnd(2, n) == EpochEnd(1, n) + n;
    assert EpochEnd(3, n) == EpochEnd(2, n) + n;
    assert EpochEnd(4, n) == EpochEnd(3, n) + n;
    assert EpochEnd(5, n) == EpochEnd(4, n) + n;
  }

  // Generating epoch k + 1 clears from height EpochEnd(k) + 1 - 5n downwards.
  lemma LowMoves(k: nat, n: nat)
    requires n >= 1
    ensures 1 <= Low(k, n) <= Low(k + 1, n) <= EpochEnd(k, n) + 1
    ensures k < 5 ==> EpochEnd(k, n) + 1 - 5 * n < 1
    ensures k >= 5 ==> EpochEnd(k, n) + 1 - 5 * n == Low(k + 1, n) - 1 >= Low(k, n)
  {
    FiveEpochs(n);
    if k < 5 {
      EpochEndLater(k, 5 - k, n);
      assert EpochEnd(5 - k, n) >= n;
    } else {
      EpochEndLater(k - 5, 5, n);
      if k > 5 {
        EpochEndLater(k - 6, 1, n);
      }
    }
  }

  // ----- Clearing -----

  function HashesBetween(fin: seq<Block>, lo: int, hi: int): set<Hash>
    requires 1 <= lo && hi <= |fin|
  {
    set i | lo - 1 <= i < hi :: fin[i].hashId
  }

  lemma {:induction false} ClearBelowResult(w: State, fin: seq<Block>, lo: int, hi: int, height: int)
    requires 1 <= lo && lo - 1 <= hi && height <= hi <= |fin|
    requires forall h :: h in w.heightToFinalizedBlock <==> lo <= h <= height || hi < h <= |fin|
    requires forall h :: lo <= h <= height || hi < h <= |fin| ==> w.heightToFinalizedBlock[h] == fin[h - 1]
    ensures var r := ClearBelow(w, height);
      && r.hashToBlock == w.hashToBlock - HashesBetween(fin, lo, height)
      && (forall h :: h in r.heightToFinalizedBlock <==> hi < h <= |fin|)
      && (forall h :: hi < h <= |fin| ==> r.heightToFinalizedBlock[h] == fin[h - 1])
    decreases height - lo
  {
    if height < lo {
      assert HashesBetween(fin, lo, height) == {};
    } else {
      var w1 := w.(heightToFinalizedBlock := w.heightToFinalizedBlock - {height},
                   hashToBlock := w.hashToBlock - {fin[height - 1].hashId});
      ClearBelowResult(w1, fin, lo, hi, height - 1);
      assert HashesBetween(fin, lo, height) == HashesBetween(fin, lo, height - 1) + {fin[height - 1].hashId};
    }
  }

  lemma ClearAfterEpoch(w: State, n: nat, fin: seq<Block>, k: nat)
    requires n >= 1 && EpochEnd(k + 1, n) == |fin|
    requires KeepsHeights(w.heightToFinalizedBlock, fin, Low(k, n))
    ensures Low(k + 1, n) - 1 <= |fin|
    ensures var r := ClearBelow(w, EpochEnd(k, n) + 1 - 5 * n);
      && KeepsHeights(r.heightToFinalizedBlock, fin, Low(k + 1, n))
      && r.hashToBlock == w.hashToBlock - HashesBetween(fin, Low(k, n), Low(k + 1, n) - 1)
  {
    LowMoves(k, n);
    var height := EpochEnd(k, n) + 1 - 5 * n;
    if k < 5 {
      assert HashesBetween(fin, Low(k, n), Low(k + 1, n) - 1) == {};
    } else {
      ClearBelowResult(w, fin, Low(k, n), height, height);
    }
  }

  // ----- Generating an epoch -----

  lemma {:induction false} WindowIsSlice(finalized: map<int, Block>, fin: seq<Block>, lo: int, first: int, last: int)
    requires KeepsHeights(finalized, fin, lo) && lo <= first && first - 1 <= last <= |fin|
    ensures Window(finalized, first, last) == Some(fin[first - 1..last])
    decreases last - first
  {
    if last < first {
      assert fin[first - 1..last] == [];
    } else {
      WindowIsSlice(finalized, fin, lo, first, last - 1);
      assert fin[first - 1..last - 1] + [fin[last - 1]] == fin[first - 1..last];
    }
  }

  lemma TilesExtend(sent: seq<Epoch>, fin: seq<Block>, p: Block, n: nat)
    requires Tiled(sent, fin, n)
    ensures Tiled(sent, fin + [p], n)
  {
    forall i | 0 <= i < |sent| ensures TileOk(sent, fin + [p], n, i) {
      assert TileOk(sent, fin, n, i);
      assert (fin + [p])[EpochEnd(i, n)..EpochEnd(i + 1, n)] == fin[EpochEnd(i, n)..EpochEnd(i + 1, n)];
    }
  }

  lemma TilesAppend(sent: seq<Epoch>, fin: seq<Block>, n: nat, e: Epoch)
    requires Tiled(sent, fin, n) && EpochEnd(|sent| + 1, n) == |fin|
    requires e == EpochOf(fin[EpochEnd(|sent|, n)..], EpochEnd(|sent|, n) + 1, LastEpoch(sent))
    ensures Tiled(sent + [e], fin, n)
  {
    var k := |sent|;
    assert fin[EpochEnd(k, n)..] == fin[EpochEnd(k, n)..EpochEnd(k + 1, n)];
    forall i | 0 <= i < k + 1 ensures TileOk(sent + [e], fin, n, i) {
      if i < k {
        assert TileOk(sent, fin, n, i);
      }
    }
  }

  lemma LastOfLastEpochs(sent: seq<Epoch>)
    ensures LastEpoch(LastEpochs(sent)) == LastEpoch(sent)
  {
  }

  lemma LastEpochsAgain(sent: seq<Epoch>, e: Epoch)
    ensures LastEpochs(LastEpochs(sent) + [e]) == LastEpochs(sent + [e])
  {
  }

  // The record with the last epoch complete and not yet generated.
  ghost predicate Complete(w: State, n: nat, fin: seq<Block>) {
    var k := |w.sent|;
    && w.latestFinalizedHeight == |fin| == EpochEnd(k + 1, n)
    && w.lastEpochEndHeight == EpochEnd(k, n)
    && KeepsHeights(w.heightToFinalizedBlock, fin, Low(k, n))
    && Tiled(w.sent, fin, n)
    && w.epochList == LastEpochs(w.sent)
  }

  lemma LastWindow(w: State, n: nat, fin: seq<Block>)
    requires n >= 1 && Complete(w, n, fin)
    ensures Window(w.heightToFinalizedBlock, w.lastEpochEndHeight + 1, w.latestFinalizedHeight)
            == Some(fin[EpochEnd(|w.sent|, n)..])
  {
    LowMoves(|w.sent|, n);
    var start := EpochEnd(|w.sent|, n);
    WindowIsSlice(w.heightToFinalizedBlock, fin, Low(|w.sent|, n), start + 1, |fin|);
    assert fin[start..|fin|] == fin[start..];
  }

  lemma EpochStart(bs: seq<Block>, start: int, previous: Option<Epoch>)
    ensures EpochOf(bs, start, previous).startHeight == start
  {
  }

  lemma GenerateRecords(w: State, n: nat, fin: seq<Block>)
    requires n >= 1 && Complete(w, n, fin)
    ensures GenerateNewEpoch(w, n).1 == Done
    ensures Records(GenerateNewEpoch(w, n).0, n, fin)
    ensures |GenerateNewEpoch(w, n).0.sent| == |w.sent| + 1
    ensures Advances(w, GenerateNewEpoch(w, n).0, n, fin)
  {
    var start := EpochEnd(|w.sent|, n);
    var e := EpochOf(fin[start..], start + 1, LastEpoch(w.epochList));
    LastWindow(w, n, fin);
    LastOfLastEpochs(w.sent);
    EpochStart(fin[start..], start + 1, LastEpoch(w.epochList));
    TilesAppend(w.sent, fin, n, e);
    ClearRecords(w, n, fin, e, w.(epochList := w.epochList + [e], sent := w.sent + [e],
                                  lastEpochEndHeight := w.latestFinalizedHeight));
  }

  lemma ClearRecords(w: State, n: nat, fin: seq<Block>, e: Epoch, w1: State)
    requires n >= 1 && Complete(w, n, fin) && Tiled(w.sent + [e], fin, n)
    requires e.startHeight == EpochEnd(|w.sent|, n) + 1
    requires w1 == w.(epochList := w.epochList + [e], sent := w.sent + [e], lastEpochEndHeight := w.latestFinalizedHeight)
    ensures Records(ClearOldData(w1, n), n, fin) && ClearOldData(w1, n).sent == w1.sent
    ensures Advances(w, ClearOldData(w1, n), n, fin)
  {
    var k := |w.sent|;
    LastEpochsAgain(w.sent, e);
    ClearAfterEpoch(w1, n, fin, k);
    ClearOldDataIs(w1, n, EpochEnd(k, n) + 1);
    NextEpochIsLater(k, n);
  }

  lemma NextEpochIsLater(k: nat, n: nat)
    requires n >= 1
    ensures EpochEnd(k + 1, n) < EpochEnd(k + 2, n) && 1 <= Low(k, n)
  {
    LowMoves(k, n);
  }

  lemma ClearOldDataIs(w: State, n: nat, start: int)
    requires w.epochList != [] && w.epochList[|w.epochList| - 1].startHeight == start
    ensures ClearOldData(w, n) == ClearBelow(w, start - 5 * n).(epochList := LastEpochs(w.epochList))
  {
  }

  // What finalizing the next block does to the record.
  ghost predicate Advances(w: State, w': State, n: nat, fin: seq<Block>) {
    && w.sent <= w'.sent
    && 1 <= Low(|w.sent|, n) && Low(|w'.sent|, n) - 1 <= |fin|
    && w'.hashToBlock == w.hashToBlock - HashesBetween(fin, Low(|w.sent|, n), Low(|w'.sent|, n) - 1)
  }

  /** Finalizing the block after the recorded chain never panics and extends the record; when
      it completes an epoch, exactly the heights above (k-1)n+1-5n stay stored. */
  lemma FinalizeRecords(w: State, n: nat, fin: seq<Block>, p: Block)
    requires n >= 1 && Records(w, n, fin) && p.height == |fin| + 1
    ensures Finalize(w, n, p).1 == Done
    ensures Records(Finalize(w, n, p).0, n, fin + [p])
    ensures Advances(w, Finalize(w, n, p).0, n, fin + [p])
  {
    var k, fin' := |w.sent|, fin + [p];
    var w2 := w.(heightToFinalizedBlock := w.heightToFinalizedBlock[p.height := p], latestFinalizedHeight := p.height);
    LowMoves(k, n);
    TilesExtend(w.sent, fin, p, n);
    assert KeepsHeights(w2.heightToFinalizedBlock, fin', Low(k, n));
    if |fin'| == EpochEnd(k + 1, n) {
      GenerateRecords(w2, n, fin');
    } else {
      assert HashesBetween(fin', Low(k, n), Low(k, n) - 1) == {};
    }
  }

  /** Retention: at most five epochs are kept, and right after the k-th one the stored
      finalized heights are exactly those above (k-1)n+1-5n up to kn. */
  lemma RetentionAfterEpoch(w: State, n: nat, fin: seq<Block>, k: nat)
    requires n >= 1 && Records(w, n, fin) && |w.sent| == k >= 1 && |fin| == k * n
    ensures |w.epochList| <= 5
    ensures w.epochList == w.sent[|w.sent| - |w.epochList|..]
    ensures forall h :: h in w.heightToFinalizedBlock <==> 1 <= h && (k - 1) * n + 1 - 5 * n < h <= k * n
  {
    FiveEpochs(n);
    if k < 6 {
      EpochEndLater(k, 6 - k, n);
    } else {
      EpochEndLater(k - 6, 6, n);
    }
    EpochEndIsProduct(k, n);
    LastTile(k, n);
  }

  lemma LastTile(k: nat, n: nat)
    requires k >= 1
    ensures (k - 1) * n + 1 - 5 * n == k * n - 6 * n + 1
  {
  }
}
