/** The watcher of the Bitcoin Cash chain: ten-confirmation finality, epochs, and clearing of
    old data, as functions on its fields (staking/watcher.go). */
module Watcher {
  import opened Words
  import opened StakingTypes

  type Hash = Word

  datatype Nomination = Nomination(pubkey: Pubkey, nominatedCount: int)

  datatype Block = Block(
    height: int,
    timestamp: int,
    hashId: Hash,
    parentBlk: Hash,
    nominations: seq<Nomination>)
  {
    // BCHBlock.Equal does not look at the nominations.
    predicate Equal(o: Block) {
      height == o.height && timestamp == o.timestamp && hashId == o.hashId && parentBlk == o.parentBlk
    }
  }

  datatype Epoch = Epoch(
    startHeight: int,
    endTime: int,
    duration: int,
    valMapByPubkey: map<Pubkey, Nomination>)

  datatype State = State(
    lastEpochEndHeight: int,
    latestFinalizedHeight: int,
    hashToBlock: map<Hash, Block>,
    heightToFinalizedBlock: map<int, Block>,
    epochList: seq<Epoch>,
    sent: seq<Epoch>)  // everything ever written to EpochChan

  datatype PanicReason = DeepReorganization | HeightSkipped | MissingBlock

  datatype Outcome = Done | Missing(hash: Hash) | Panicked(reason: PanicReason)

  function NewWatcher(lastHeight: int): State {
    State(lastHeight, lastHeight, map[], map[], [], [])
  }

  // ----- Walking to the tenth ancestor -----

  datatype WalkResult = Reached(block: Block) | Genesis | Lacks(hash: Hash)

  function Walk(blocks: map<Hash, Block>, b: Block, steps: nat): WalkResult
    decreases steps, b.height
  {
    if steps == 0 then Reached(b)
    else if b.parentBlk in blocks then Walk(blocks, blocks[b.parentBlk], steps - 1)
    else if b.parentBlk == 0 then Genesis
    else Lacks(b.parentBlk)
  }

  // ----- Counting nominations -----

  /** The nominations of an epoch while they are counted.  ValMapByPubkey holds pointers, and
      the pointer taken in the inner loop is to its loop variable: one variable for all the
      nominations of a block.  cells are these variables, index says where a key points. */
  datatype Tally = Tally(cells: seq<Nomination>, index: map<Pubkey, nat>, endTime: int, startTime: int)

  ghost predicate TallyOk(t: Tally) {
    forall pk :: pk in t.index ==> t.index[pk] < |t.cells|
  }

  const NO_START_TIME: int := 0x4000_0000_0000_0000

  function EmptyTally(): (t: Tally)
    ensures TallyOk(t)
  {
    Tally([], map[], 0, NO_START_TIME)
  }

  // One turn of the inner loop; its variable is the last cell.
  function TallyNomination(t: Tally, n: Nomination): (r: Tally)
    requires TallyOk(t) && |t.cells| > 0
    ensures TallyOk(r) && |r.cells| == |t.cells|
  {
    var c := |t.cells| - 1;
    var cells := t.cells[c := n];
    var index := if n.pubkey in t.index then t.index else t.index[n.pubkey := c];
    var k := index[n.pubkey];
    t.(cells := cells[k := cells[k].(nominatedCount := cells[k].nominatedCount + 1)], index := index)
  }

  function TallyNominations(t: Tally, ns: seq<Nomination>): (r: Tally)
    requires TallyOk(t) && |t.cells| > 0
    ensures TallyOk(r) && |r.cells| == |t.cells|
  {
    if ns == [] then t else TallyNomination(TallyNominations(t, ns[..|ns| - 1]), ns[|ns| - 1])
  }

  function TallyBlock(t: Tally, b: Block): (r: Tally)
    requires TallyOk(t)
    ensures TallyOk(r)
  {
    if b.nominations == [] then Retimed(t, b)
    else TallyNominations(WithVariable(Retimed(t, b)), b.nominations)
  }

  function Retimed(t: Tally, b: Block): Tally {
    t.(endTime := if t.endTime < b.timestamp then b.timestamp else t.endTime,
       startTime := if t.startTime > b.timestamp then b.timestamp else t.startTime)
  }

  // Entering the inner loop creates its variable.
  function WithVariable(t: Tally): Tally {
    t.(cells := t.cells + [Nomination(0, 0)])
  }

  function TallyBlocks(bs: seq<Block>): (r: Tally)
    ensures TallyOk(r)
  {
    if bs == [] then EmptyTally() else TallyBlock(TallyBlocks(bs[..|bs| - 1]), bs[|bs| - 1])
  }

  function EpochOf(bs: seq<Block>, startHeight: int, previous: Option<Epoch>): Epoch {
    var t := TallyBlocks(bs);
    Epoch(startHeight, t.endTime,
          t.endTime - (if previous.Some? then previous.value.endTime else t.startTime),
          map pk | pk in t.index :: t.cells[t.index[pk]])
  }

  function LastEpoch(list: seq<Epoch>): Option<Epoch> {
    if list == [] then None else Some(list[|list| - 1])
  }

  // ----- Clearing old data -----

  // Delete downwards from `height` until a height is not there.
  function ClearBelow(w: State, height: int): (r: State)
    ensures r == w.(hashToBlock := r.hashToBlock, heightToFinalizedBlock := r.heightToFinalizedBlock)
    decreases |w.heightToFinalizedBlock|
  {
    if height !in w.heightToFinalizedBlock then w
    else
      ClearBelow(w.(heightToFinalizedBlock := w.heightToFinalizedBlock - {height},
                    hashToBlock := w.hashToBlock - {w.heightToFinalizedBlock[height].hashId}), height - 1)
  }

  const KEPT_EPOCHS: nat := 5

  function LastEpochs(list: seq<Epoch>): seq<Epoch> {
    if |list| > KEPT_EPOCHS then list[|list| - KEPT_EPOCHS..] else list
  }

  function ClearOldData(w: State, numBlocksInEpoch: int): State {
    if w.epochList == [] then w
    else
      var last := w.epochList[|w.epochList| - 1];
      ClearBelow(w, last.startHeight - 5 * numBlocksInEpoch).(epochList := LastEpochs(w.epochList))
  }

  // ----- Epochs -----

  // The finalized blocks of heights first..last, None if one is missing.
  function Window(finalized: map<int, Block>, first: int, last: int): Option<seq<Block>>
    decreases last - first
  {
    if last < first then Some([])
    else
      var r := Window(finalized, first, last - 1);
      if r.None? || last !in finalized then None else Some(r.value + [finalized[last]])
  }

  function GenerateNewEpoch(w: State, numBlocksInEpoch: int): (State, Outcome) {
    var start := w.lastEpochEndHeight + 1;
    var bs := Window(w.heightToFinalizedBlock, start, w.latestFinalizedHeight);
    if bs.None? then (w, Panicked(MissingBlock))
    else
      var e := EpochOf(bs.value, start, LastEpoch(w.epochList));
      var w1 := w.(epochList := w.epochList + [e], sent := w.sent + [e],
                   lastEpochEndHeight := w.latestFinalizedHeight);
      (ClearOldData(w1, numBlocksInEpoch), Done)
  }

  // ----- addBlock -----

  function Finalize(w: State, numBlocksInEpoch: int, p: Block): (State, Outcome) {
    var w1 := w.(heightToFinalizedBlock := w.heightToFinalizedBlock[p.height := p]);
    if w.latestFinalizedHeight + 1 != p.height then (w1, Panicked(HeightSkipped))
    else
      var w2 := w1.(latestFinalizedHeight := p.height);
      if w2.latestFinalizedHeight - w2.lastEpochEndHeight == numBlocksInEpoch
      then GenerateNewEpoch(w2, numBlocksInEpoch) else (w2, Done)
  }

  const CONFIRMATIONS: nat := 10

  function AddBlock(w: State, numBlocksInEpoch: int, b: Block): (State, Outcome) {
    var w1 := w.(hashToBlock := w.hashToBlock[b.hashId := b]);
    match Walk(w1.hashToBlock, b, CONFIRMATIONS)
    case Genesis => (w1, Done)
    case Lacks(hash) => (w1, Missing(hash))
    case Reached(p) =>
      if p.height in w.heightToFinalizedBlock then
        (w1, if w.heightToFinalizedBlock[p.height].Equal(p) then Done else Panicked(DeepReorganization))
      else Finalize(w1, numBlocksInEpoch, p)
  }

  // ----- Run -----

  // The inner loop: fetch up to i parents by hash.  None is a panic.
  function TraceBack(tree: map<Hash, Block>, n: int, w: State, o: Outcome, i: nat): Option<State>
    decreases i, |tree|
  {
    if !o.Missing? || i == 0 then Some(w)
    else if o.hash !in tree then None
    else
      var (w', o') := AddBlock(w, n, tree[o.hash]);
      if o'.Panicked? then None else TraceBack(tree, n, w', o', i - 1)
  }

  datatype Loop = Loop(watcher: State, height: int)

  // One turn of the main loop, in which the node has answered b for the height that is next.
  function Turn(tree: map<Hash, Block>, n: int, period: int, l: Loop, b: Block): Option<Loop>
    requires period >= 1
  {
    var (w, o) := AddBlock(l.watcher, n, b);
    match o
    case Panicked(_) => None
    case Missing(_) =>
      var w' := TraceBack(tree, n, w, o, 10);
      if w'.None? then None else Some(Loop(w'.value, l.height))
    case Done =>
      Some(Loop(if (l.height + 1) % period == 0 then w.(hashToBlock := map[]) else w, l.height + 1))
  }

  function RunNode(tree: map<Hash, Block>, n: int, period: int, served: seq<Block>): Option<Loop>
    requires period >= 1
  {
    if served == [] then Some(Loop(NewWatcher(0), 0))
    else
      var l := RunNode(tree, n, period, served[..|served| - 1]);
      if l.None? then None else Turn(tree, n, period, l.value, served[|served| - 1])
  }
}
