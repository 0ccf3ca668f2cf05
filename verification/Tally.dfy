/** What an epoch's nomination counts mean. */
module Tally {
  import opened Words
  import opened StakingTypes
  import opened Watcher
  import opened Epochs

  ghost predicate AtMostOneEach(bs: seq<Block>) {
    forall i :: 0 <= i < |bs| ==> |bs[i].nominations| <= 1
  }

  predicate Nominates(b: Block, pk: Pubkey) {
    exists i :: 0 <= i < |b.nominations| && b.nominations[i].pubkey == pk
  }

  // In how many blocks pk is nominated.
  function NominatingBlocks(bs: seq<Block>, pk: Pubkey): nat {
    if bs == [] then 0
    else NominatingBlocks(bs[..|bs| - 1], pk) + if Nominates(bs[|bs| - 1], pk) then 1 else 0
  }

  // The count carried by the first nomination of pk.
  function FirstCount(bs: seq<Block>, pk: Pubkey): int
    requires AtMostOneEach(bs)
  {
    if bs == [] then 0
    else
      var init, b := bs[..|bs| - 1], bs[|bs| - 1];
      if NominatingBlocks(init, pk) > 0 then FirstCount(init, pk)
      else if Nominates(b, pk) then b.nominations[0].nominatedCount else 0
  }

  ghost predicate Counts(t: Tally, bs: seq<Block>)
    requires AtMostOneEach(bs) && TallyOk(t)
  {
    && (forall pk :: pk in t.index <==> NominatingBlocks(bs, pk) > 0)
    && (forall pk :: pk in t.index ==>
          t.cells[t.index[pk]] == Nomination(pk, FirstCount(bs, pk) + NominatingBlocks(bs, pk)))
  }

  ghost predicate Timed(t: Tally, bs: seq<Block>) {
    && t.endTime >= 0
    && (forall b :: b in bs ==> t.startTime <= b.timestamp <= t.endTime)
    && (t.endTime == 0 || exists b :: b in bs && b.timestamp == t.endTime)
    && t.startTime <= NO_START_TIME
    && (t.startTime == NO_START_TIME || exists b :: b in bs && b.timestamp == t.startTime)
  }

  lemma CountsNone(t: Tally, bs: seq<Block>, b: Block)
    requires AtMostOneEach(bs) && TallyOk(t) && Counts(t, bs) && b.nominations == []
    ensures AtMostOneEach(bs + [b]) && Counts(t, bs + [b])
  {
    assert (bs + [b])[..|bs|] == bs;
    assert forall pk: Pubkey :: !Nominates(b, pk);
  }

  lemma CountsOne(t: Tally, bs: seq<Block>, b: Block)
    requires AtMostOneEach(bs) && TallyOk(t) && Counts(t, bs) && |b.nominations| == 1
    ensures AtMostOneEach(bs + [b])
    ensures Counts(TallyNominations(WithVariable(t), b.nominations), bs + [b])
  {
    var n := b.nominations[0];
    OneNomination(WithVariable(t), b.nominations);
    assert (bs + [b])[..|bs|] == bs;
    assert forall pk :: Nominates(b, pk) <==> pk == n.pubkey;
  }

  lemma OneNomination(t: Tally, ns: seq<Nomination>)
    requires TallyOk(t) && |t.cells| > 0 && |ns| == 1
    ensures TallyNominations(t, ns) == TallyNomination(t, ns[0])
  {
    assert ns[..0] == [];
    assert TallyNominations(t, []) == t;
  }

  lemma {:induction false} TallyCountsBlocks(bs: seq<Block>)
    requires AtMostOneEach(bs)
    ensures Counts(TallyBlocks(bs), bs)
  {
    if bs != [] {
      var init, b := bs[..|bs| - 1], bs[|bs| - 1];
      TallyCountsBlocks(init);
      assert bs == init + [b];
      var t := Retimed(TallyBlocks(init), b);
      if b.nominations == [] {
        CountsNone(t, init, b);
      } else {
        CountsOne(t, init, b);
      }
    }
  }

  lemma {:induction false} NominationsKeepTimes(t: Tally, ns: seq<Nomination>)
    requires TallyOk(t) && |t.cells| > 0
    ensures TallyNominations(t, ns).endTime == t.endTime && TallyNominations(t, ns).startTime == t.startTime
  {
    if ns != [] {
      NominationsKeepTimes(t, ns[..|ns| - 1]);
    }
  }

  lemma {:induction false} TallyTimes(bs: seq<Block>)
    ensures Timed(TallyBlocks(bs), bs)
  {
    if bs != [] {
      var init, b := bs[..|bs| - 1], bs[|bs| - 1];
      TallyTimes(init);
      assert bs == init + [b];
      if b.nominations != [] {
        NominationsKeepTimes(WithVariable(Retimed(TallyBlocks(init), b)), b.nominations);
      }
    }
  }

  // What the source promises of an epoch counted over the blocks bs.
  ghost predicate IsTallyOf(e: Epoch, bs: seq<Block>)
    requires AtMostOneEach(bs)
  {
    && (forall pk :: pk in e.valMapByPubkey <==> NominatingBlocks(bs, pk) > 0)
    && (forall pk :: pk in e.valMapByPubkey ==>
          e.valMapByPubkey[pk] == Nomination(pk, FirstCount(bs, pk) + NominatingBlocks(bs, pk)))
    && e.endTime >= 0 && (forall b :: b in bs ==> b.timestamp <= e.endTime)
    && (e.endTime == 0 || exists b :: b in bs && b.timestamp == e.endTime)
  }

  lemma EpochIsTally(bs: seq<Block>, start: int, previous: Option<Epoch>)
    requires AtMostOneEach(bs)
    ensures IsTallyOf(EpochOf(bs, start, previous), bs)
  {
    TallyCountsBlocks(bs);
    TallyTimes(bs);
  }

  // The earliest time of the blocks; 2^62 if there is none below that.
  ghost predicate IsEarliest(bs: seq<Block>, time: int) {
    && time <= 4611686018427387904 && (forall b :: b in bs ==> time <= b.timestamp)
    && (time == 4611686018427387904 || exists b :: b in bs && b.timestamp == time)
  }

  // An epoch lasts from the end of the one before it, or from its own first block.
  ghost predicate Lasts(e: Epoch, bs: seq<Block>, previous: Option<Epoch>) {
    if previous.Some? then e.duration == e.endTime - previous.value.endTime
    else IsEarliest(bs, e.endTime - e.duration)
  }

  lemma EpochLasts(bs: seq<Block>, start: int, previous: Option<Epoch>)
    ensures Lasts(EpochOf(bs, start, previous), bs, previous)
  {
    TallyTimes(bs);
  }

  /** Every epoch that is ever sent lasts from the end of the one sent before it to its own end. */
  lemma SentEpochsLast(w: State, n: nat, fin: seq<Block>, i: nat)
    requires Records(w, n, fin) && i < |w.sent|
    ensures EpochEnd(i + 1, n) <= |fin|
    ensures Lasts(w.sent[i], fin[EpochEnd(i, n)..EpochEnd(i + 1, n)], if i == 0 then None else Some(w.sent[i - 1]))
  {
    assert TileOk(w.sent, fin, n, i);
    EpochLasts(fin[EpochEnd(i, n)..EpochEnd(i + 1, n)], EpochEnd(i, n) + 1, if i == 0 then None else Some(w.sent[i - 1]));
  }

  /** Every epoch that is ever sent is the tally of its own stretch of the finalized chain. */
  lemma SentEpochsAreTallies(w: State, n: nat, fin: seq<Block>, i: nat)
    requires Records(w, n, fin) && i < |w.sent| && AtMostOneEach(fin)
    ensures EpochEnd(i + 1, n) <= |fin|
    ensures w.sent[i].startHeight == EpochEnd(i, n) + 1
    ensures AtMostOneEach(fin[EpochEnd(i, n)..EpochEnd(i + 1, n)])
    ensures IsTallyOf(w.sent[i], fin[EpochEnd(i, n)..EpochEnd(i + 1, n)])
  {
    assert TileOk(w.sent, fin, n, i);
    EpochIsTally(fin[EpochEnd(i, n)..EpochEnd(i + 1, n)], EpochEnd(i, n) + 1, if i == 0 then None else Some(w.sent[i - 1]));
  }

  ghost predicate CountsOfOne(bs: seq<Block>) {
    forall i :: 0 <= i < |bs| && |bs[i].nominations| == 1 ==> bs[i].nominations[0].nominatedCount == 1
  }

  lemma {:induction false} FirstCountIsOne(bs: seq<Block>, pk: Pubkey)
    requires AtMostOneEach(bs) && CountsOfOne(bs) && NominatingBlocks(bs, pk) > 0
    ensures FirstCount(bs, pk) == 1
  {
    var init := bs[..|bs| - 1];
    if NominatingBlocks(init, pk) > 0 {
      FirstCountIsOne(init, pk);
    }
  }

  /** With nominations of count 1 the recorded count is the number of nominating blocks plus
      one, so ranking by count is ranking by blocks. */
  lemma CountIsBlocksPlusOne(bs: seq<Block>, start: int, previous: Option<Epoch>)
    requires AtMostOneEach(bs) && CountsOfOne(bs)
    ensures var counts := EpochOf(bs, start, previous).valMapByPubkey;
      && (forall pk :: pk in counts <==> NominatingBlocks(bs, pk) > 0)
      && (forall pk :: pk in counts ==> counts[pk] == Nomination(pk, NominatingBlocks(bs, pk) + 1))
      && (forall p, q :: p in counts && q in counts ==>
            (counts[p].nominatedCount > counts[q].nominatedCount <==> NominatingBlocks(bs, p) > NominatingBlocks(bs, q)))
  {
    EpochIsTally(bs, start, previous);
    forall pk | NominatingBlocks(bs, pk) > 0 ensures FirstCount(bs, pk) == 1 {
      FirstCountIsOne(bs, pk);
    }
  }

  /** With two nominations in one block both keys share the inner loop's variable: the first
      key ends up with the second one's public key and count. */
  lemma TwoNominationsShareOneVariable(a: Pubkey, b: Pubkey, hash: Hash)
    requires a != b
    ensures EpochOf([Block(1, 0, hash, 0, [Nomination(a, 1), Nomination(b, 1)])], 1, None).valMapByPubkey ==
            map[a := Nomination(b, 2), b := Nomination(b, 2)]
  {
    var blk := Block(1, 0, hash, 0, [Nomination(a, 1), Nomination(b, 1)]);
    var t0, ns := WithVariable(Retimed(EmptyTally(), blk)), blk.nominations;
    assert ns[..1] == [Nomination(a, 1)];
    OneNomination(t0, ns[..1]);
    var t1, t2 := TallyNominations(t0, ns[..1]), TallyNominations(t0, ns);
    assert t1.cells == [Nomination(a, 2)] && t1.index == map[a := 0];
    assert t2 == TallyNomination(t1, Nomination(b, 1));
    assert t2.cells == [Nomination(b, 2)] && t2.index == map[a := 0, b := 0];
    assert [blk][..0] == [];
    assert TallyBlocks([]) == EmptyTally();
    assert TallyBlocks([blk]) == TallyBlock(TallyBlocks([blk][..0]), blk) == t2;
  }
}
