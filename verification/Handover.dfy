/** The hand-over of epochs from the watcher's main loop through a one-slot channel to the blocks of
    the chain, as interleaved steps of the two sides (staking/watcher.go, app/app.go). */
module Handover {
  import opened Words
  import opened StakingTypes
  import opened ActiveValidators
  import opened Epochs
  import opened Finality
  import opened MainLoop
  import opened Tally
  import opened Solvency
  import opened EpochSwitch
  import S = Staking
  import W = Watcher
  import R = StakingRuns

  const SWITCH_DELAY: int := 100 * 10 * 60

  // A switch that has happened, with the validators it left listed.
  datatype Switched = Switched(epoch: W.Epoch, blockTime: int, validators: seq<Validator>)

  // The node the watcher asks, the length of an epoch and the clearing period.
  datatype Setting = Setting(tree: map<W.Hash, W.Block>, n: nat, period: nat)

  predicate SettingOk(c: Setting) {
    c.n >= 1 && c.period >= 1
  }

  datatype System = System(
    loop: W.Loop,                   // the watcher between two turns of its main loop
    channel: seq<W.Epoch>,          // EpochChan, at most one element
    epochList: seq<W.Epoch>,        // App.epochList
    switched: seq<Switched>,        // every switch so far
    world: S.World,
    currValidators: seq<Validator>)

  datatype Action =
    | Answer(block: W.Block)        // the node answers, and the watcher takes a turn
    | Commit(blockTime: int)        // the application commits a block
    | Ledger(step: R.Step)          // anything else that happens to the ledger

  // The powers SwitchEpoch reads from an epoch, under the key each nomination carries.
  function PowersOf(e: W.Epoch): map<Pubkey, int> {
    map pk | pk in e.valMapByPubkey && e.valMapByPubkey[pk].pubkey == pk :: e.valMapByPubkey[pk].nominatedCount
  }

  // Each nomination is stored under its own public key.
  ghost predicate KeysMatch(e: W.Epoch) {
    forall pk :: pk in e.valMapByPubkey ==> e.valMapByPubkey[pk].pubkey == pk
  }

  // Receive an epoch if one is there.
  function Received(s: System): System {
    if s.channel == [] then s
    else s.(epochList := s.epochList + [s.channel[0]], channel := s.channel[1..])
  }

  // A commit that uses the given powers if it switches.
  function CommitWith(s0: System, blockTime: int, powers: map<Pubkey, int>): Option<System> {
    var s := Received(s0);
    if s.epochList == [] then
      Some(s.(currValidators := Active(s.world.info.validators, S.MINIMUM_STAKING_AMOUNT)))
    else if blockTime > s.epochList[0].endTime + SWITCH_DELAY then
      var w := S.SwitchEpoch(s.world, powers);
      if w.None? then None
      else
        Some(s.(world := w.value,
                currValidators := Active(w.value.info.validators, S.MINIMUM_STAKING_AMOUNT),
                switched := s.switched + [Switched(s.epochList[0], blockTime, w.value.info.validators)],
                epochList := s.epochList[1..]))
    else Some(s)
  }

  // The powers of the epoch that is next in line.
  function NextPowers(s: System): map<Pubkey, int> {
    var epochs := Received(s).epochList;
    if epochs == [] then map[] else PowersOf(epochs[0])
  }

  function CommitEpochs(s: System, blockTime: int): Option<System> {
    CommitWith(s, blockTime, NextPowers(s))
  }

  // A send on a full channel blocks the watcher: the step is not possible then.
  function Next(c: Setting, s: System, a: Action): Option<System>
    requires SettingOk(c)
  {
    match a
    case Answer(b) =>
      var l := W.Turn(c.tree, c.n, c.period, s.loop, b);
      if l.None? then None
      else
        var before, sent := s.loop.watcher.sent, l.value.watcher.sent;
        if sent == before then Some(s.(loop := l.value))
        else if |sent| == |before| + 1 && s.channel == [] then
          Some(s.(loop := l.value, channel := [sent[|before|]]))
        else None
    case Commit(blockTime) => CommitEpochs(s, blockTime)
    case Ledger(step) =>
      if step.Switch? then None
      else
        var w := R.Next(s.world, step);
        if w.None? then None else Some(s.(world := w.value))
  }

  function Start(world: S.World): System {
    System(W.Loop(W.NewWatcher(0), 0), [], [], [], world, [])
  }

  function Run(c: Setting, world: S.World, actions: seq<Action>): Option<System>
    requires SettingOk(c)
  {
    if actions == [] then Some(Start(world))
    else
      var s := Run(c, world, actions[..|actions| - 1]);
      if s.None? then None else Next(c, s.value, actions[|actions| - 1])
  }

  function EpochsOf(switched: seq<Switched>): (r: seq<W.Epoch>)
    ensures |r| == |switched| && forall i :: 0 <= i < |r| ==> r[i] == switched[i].epoch
  {
    seq(|switched|, i requires 0 <= i < |switched| => switched[i].epoch)
  }

  /** Exactly once and in order: what was ever sent is what was switched to, then what waits in
      the application, then what is in the channel. */
  ghost predicate InOrder(s: System, firstEpoch: int) {
    && s.loop.watcher.sent == EpochsOf(s.switched) + s.epochList + s.channel
    && |s.channel| <= 1
    && s.world.info.currEpochNum == firstEpoch + |s.switched|
    && (forall i :: 0 <= i < |s.switched| ==> SwitchOk(s.switched[i]))
  }

  ghost predicate SwitchOk(sw: Switched) {
    sw.blockTime > sw.epoch.endTime + SWITCH_DELAY && PowersGiven(sw.validators, sw.epoch)
  }

  // Every validator has the power of the epoch, or none if it is retiring or has too little at stake.
  ghost predicate PowersGiven(vals: seq<Validator>, e: W.Epoch) {
    forall v :: v in vals ==> v == S.Repowered(v, PowersOf(e))
  }

  lemma SwitchGivesPowers(w: S.World, e: W.Epoch)
    requires S.SwitchEpoch(w, PowersOf(e)).Some?
    ensures PowersGiven(S.SwitchEpoch(w, PowersOf(e)).value.info.validators, e)
  {
    var left := S.SwitchSurvivors(w.info, PowersOf(e)).value;
    forall v | v in left ensures v == S.Repowered(v, PowersOf(e)) {
      SurvivorsArePowered(w.info, PowersOf(e), v);
    }
  }

  lemma ReceivedInOrder(s: System, firstEpoch: int)
    requires InOrder(s, firstEpoch)
    ensures InOrder(Received(s), firstEpoch) && Received(s).channel == []
  {
  }

  lemma SwitchInOrder(s: System, firstEpoch: int, blockTime: int, w: S.World, active: seq<Validator>)
    requires InOrder(s, firstEpoch) && s.channel == [] && s.epochList != []
    requires blockTime > s.epochList[0].endTime + SWITCH_DELAY
    requires w.info.currEpochNum == s.world.info.currEpochNum + 1 && PowersGiven(w.info.validators, s.epochList[0])
    ensures InOrder(s.(world := w, currValidators := active, epochList := s.epochList[1..],
                       switched := s.switched + [Switched(s.epochList[0], blockTime, w.info.validators)]), firstEpoch)
  {
    var e := s.epochList[0];
    assert EpochsOf(s.switched + [Switched(e, blockTime, w.info.validators)]) == EpochsOf(s.switched) + [e];
    assert [e] + s.epochList[1..] == s.epochList;
    assert EpochsOf(s.switched) + [e] + s.epochList[1..] + [] == EpochsOf(s.switched) + s.epochList + [];
  }

  lemma CommitInOrder(s0: System, firstEpoch: int, blockTime: int)
    requires InOrder(s0, firstEpoch) && CommitEpochs(s0, blockTime).Some?
    ensures InOrder(CommitEpochs(s0, blockTime).value, firstEpoch)
  {
    ReceivedInOrder(s0, firstEpoch);
    var s := Received(s0);
    if s.epochList != [] && blockTime > s.epochList[0].endTime + SWITCH_DELAY {
      var w := S.SwitchEpoch(s.world, PowersOf(s.epochList[0])).value;
      SwitchGivesPowers(s.world, s.epochList[0]);
      SwitchInOrder(s, firstEpoch, blockTime, w, Active(w.info.validators, S.MINIMUM_STAKING_AMOUNT));
    }
  }

  lemma LedgerKeepsEpoch(w: S.World, step: R.Step)
    requires !step.Switch? && R.Next(w, step).Some?
    ensures R.Next(w, step).value.info.currEpochNum == w.info.currEpochNum
  {
  }

  lemma {:induction false} TraceBackSends(tree: map<W.Hash, W.Block>, n: int, w: W.State, o: W.Outcome, i: nat)
    requires W.TraceBack(tree, n, w, o, i).Some?
    ensures w.sent <= W.TraceBack(tree, n, w, o, i).value.sent
    decreases i
  {
    if o.Missing? && i > 0 {
      var (w', o') := W.AddBlock(w, n, tree[o.hash]);
      AddBlockSendsOne(w, n, tree[o.hash]);
      TraceBackSends(tree, n, w', o', i - 1);
    }
  }

  // What has been sent stays sent.
  lemma TurnSends(tree: map<W.Hash, W.Block>, n: int, period: int, l: W.Loop, b: W.Block)
    requires period >= 1 && W.Turn(tree, n, period, l, b).Some?
    ensures l.watcher.sent <= W.Turn(tree, n, period, l, b).value.watcher.sent
  {
    AddBlockSendsOne(l.watcher, n, b);
    var (w, o) := W.AddBlock(l.watcher, n, b);
    if o.Missing? {
      TraceBackSends(tree, n, w, o, 10);
    }
  }

  lemma AnswerInOrder(c: Setting, s: System, firstEpoch: int, b: W.Block)
    requires SettingOk(c) && InOrder(s, firstEpoch) && Next(c, s, Answer(b)).Some?
    ensures InOrder(Next(c, s, Answer(b)).value, firstEpoch)
  {
    TurnSends(c.tree, c.n, c.period, s.loop, b);
    var before, sent := s.loop.watcher.sent, W.Turn(c.tree, c.n, c.period, s.loop, b).value.watcher.sent;
    if sent != before {
      assert sent == before + [sent[|before|]];
    }
  }

  lemma NextInOrder(c: Setting, s: System, firstEpoch: int, a: Action)
    requires SettingOk(c) && InOrder(s, firstEpoch) && Next(c, s, a).Some?
    ensures InOrder(Next(c, s, a).value, firstEpoch)
  {
    match a
    case Answer(b) => AnswerInOrder(c, s, firstEpoch, b);
    case Commit(blockTime) => CommitInOrder(s, firstEpoch, blockTime);
    case Ledger(step) => LedgerKeepsEpoch(s.world, step);
  }

  /** On every interleaving of watcher and commits, whatever the node answers. */
  lemma {:induction false} HandoverExactlyOnce(c: Setting, world: S.World, actions: seq<Action>)
    requires SettingOk(c) && Run(c, world, actions).Some?
    ensures InOrder(Run(c, world, actions).value, world.info.currEpochNum)
  {
    if actions != [] {
      HandoverExactlyOnce(c, world, actions[..|actions| - 1]);
      NextInOrder(c, Run(c, world, actions[..|actions| - 1]).value, world.info.currEpochNum, actions[|actions| - 1]);
    }
  }

  // ----- From finalized blocks to switches -----

  // What the node has answered in the course of the actions.
  function Served(actions: seq<Action>): seq<W.Block> {
    if actions == [] then []
    else
      var init, a := Served(actions[..|actions| - 1]), actions[|actions| - 1];
      if a.Answer? then init + [a.block] else init
  }

  lemma ServedOneMore(c: Setting, bs: seq<W.Block>, b: W.Block, l: W.Loop)
    requires SettingOk(c) && W.RunNode(c.tree, c.n, c.period, bs) == Some(l)
    ensures W.RunNode(c.tree, c.n, c.period, bs + [b]) == W.Turn(c.tree, c.n, c.period, l, b)
  {
    assert (bs + [b])[..|bs|] == bs;
  }

  lemma NextLoop(c: Setting, s: System, a: Action)
    requires SettingOk(c) && Next(c, s, a).Some?
    ensures var l := Next(c, s, a).value.loop;
            if a.Answer? then W.Turn(c.tree, c.n, c.period, s.loop, a.block) == Some(l) else l == s.loop
  {
  }

  lemma {:induction false} WatcherOnlyTurns(c: Setting, world: S.World, actions: seq<Action>)
    requires SettingOk(c) && Run(c, world, actions).Some?
    ensures W.RunNode(c.tree, c.n, c.period, Served(actions)) == Some(Run(c, world, actions).value.loop)
  {
    if actions != [] {
      var init, a := actions[..|actions| - 1], actions[|actions| - 1];
      WatcherOnlyTurns(c, world, init);
      var s := Run(c, world, init).value;
      NextLoop(c, s, a);
      if a.Answer? {
        ServedOneMore(c, Served(init), a.block, s.loop);
      }
    }
  }

  /** A turn that does not panic sends at most one epoch, so it waits only for a full channel. */
  lemma AnswerWaitsExactly(c: Setting, s: System, fin: seq<W.Block>, b: W.Block)
    requires SettingOk(c) && LoopOk(c.tree, c.n, s.loop, fin) && Asked(c.tree, s.loop, b)
    ensures Next(c, s, Answer(b)).None? <==>
      Panics(c.tree, s.loop, b)
      || (s.channel != [] && WindowIn(c.tree, s.loop, b) && Depth(c.tree, b) >= 10
          && |fin| + 1 == EpochEnd(|s.loop.watcher.sent| + 1, c.n))
  {
    var l' := TurnExactly(c.tree, c.n, c.period, s.loop, fin, b);
    if !Panics(c.tree, s.loop, b) {
      TurnSends(c.tree, c.n, c.period, s.loop, b);
      SentExactly(s.loop.watcher, l'.watcher, c.n, fin, FinalizedAfter(c.tree, s.loop, fin, b));
    }
  }

  lemma {:induction false} EpochEndMono(j: nat, k: nat, n: nat)
    requires j <= k
    ensures EpochEnd(j, n) <= EpochEnd(k, n)
  {
    if j < k {
      EpochEndMono(j, k - 1, n);
    }
  }

  // How many epochs have been sent follows from how many blocks are finalized.
  lemma SentExactly(w: W.State, w': W.State, n: nat, fin: seq<W.Block>, fin': seq<W.Block>)
    requires n >= 1 && Records(w, n, fin) && Records(w', n, fin') && w.sent <= w'.sent
    requires |fin| <= |fin'| <= |fin| + 1
    ensures |w'.sent| == |w.sent| + if |fin'| == |fin| + 1 == EpochEnd(|w.sent| + 1, n) then 1 else 0
    ensures |w'.sent| == |w.sent| ==> w'.sent == w.sent
  {
    var k, k' := |w.sent|, |w'.sent|;
    if k' > k + 1 {
      EpochEndMono(k + 2, k', n);
    } else if k' == k + 1 {
      assert EpochEnd(k + 1, n) <= |fin'|;
    } else {
      assert |fin'| < EpochEnd(k + 1, n);
    }
  }

  // What the client makes of a block: at most one nomination, of count 1.
  ghost predicate OneNominationEach(tree: map<W.Hash, W.Block>) {
    forall h :: h in tree ==> AtMostOneEach([tree[h]]) && CountsOfOne([tree[h]])
  }

  lemma FinalizedHaveOneEach(tree: map<W.Hash, W.Block>, fin: seq<W.Block>)
    requires OneNominationEach(tree) && forall i :: 0 <= i < |fin| ==> InTree(tree, fin[i])
    ensures AtMostOneEach(fin) && CountsOfOne(fin)
  {
    forall i | 0 <= i < |fin|
      ensures |fin[i].nominations| <= 1
      ensures |fin[i].nominations| == 1 ==> fin[i].nominations[0].nominatedCount == 1
    {
      assert InTree(tree, fin[i]);
      assert [tree[fin[i].hashId]][0] == fin[i];
    }
  }

  /** The powers of a tally: every nominated key with its number of nominating blocks plus one,
      and nothing else. */
  lemma PowersOfTally(bs: seq<W.Block>, start: int, previous: Option<W.Epoch>)
    requires AtMostOneEach(bs) && CountsOfOne(bs)
    ensures var e := W.EpochOf(bs, start, previous);
      && KeysMatch(e)
      && (forall pk :: pk in PowersOf(e) <==> NominatingBlocks(bs, pk) > 0)
      && (forall pk :: pk in PowersOf(e) ==> PowersOf(e)[pk] == NominatingBlocks(bs, pk) + 1)
  {
    CountIsBlocksPlusOne(bs, start, previous);
  }

  // The finalized blocks the j-th epoch is counted over.
  ghost function Tile(fin: seq<W.Block>, n: nat, j: nat): seq<W.Block>
    requires EpochEnd(j + 1, n) <= |fin|
  {
    fin[EpochEnd(j, n)..EpochEnd(j + 1, n)]
  }

  // The power a validator gets for the nominations in bs.
  ghost function EarnedPower(bs: seq<W.Block>, v: Validator): nat {
    if NominatingBlocks(bs, v.pubkey) > 0 && !v.isRetiring && v.stakedCoins >= S.MINIMUM_STAKING_AMOUNT
    then NominatingBlocks(bs, v.pubkey) + 1 else 0
  }

  // The node answers every request with some block of that height.
  ghost predicate AnswersAsked(c: Setting, actions: seq<Action>)
    requires SettingOk(c)
  {
    TreeOk(c.tree) && EveryAnswer(c.tree, c.n, c.period, Served(actions), AskedIn(c.tree))
  }

  // The blocks finalized so far, in the terms of the whole system.
  lemma FinalizedSoFar(c: Setting, world: S.World, actions: seq<Action>) returns (fin: seq<W.Block>)
    requires SettingOk(c) && AnswersAsked(c, actions) && OneNominationEach(c.tree) && Run(c, world, actions).Some?
    ensures var s := Run(c, world, actions).value;
      && LoopOk(c.tree, c.n, s.loop, fin) && Records(s.loop.watcher, c.n, fin)
      && InOrder(s, world.info.currEpochNum)
    ensures AtMostOneEach(fin) && CountsOfOne(fin)
    ensures Linked(fin) <==> EveryAnswer(c.tree, c.n, c.period, Served(actions), LinkingIn(c.tree))
  {
    HandoverExactlyOnce(c, world, actions);
    WatcherOnlyTurns(c, world, actions);
    var l;
    l, fin := RunExactly(c.tree, c.n, c.period, Served(actions));
    FinalizedHaveOneEach(c.tree, fin);
  }

  /** End to end: on every interleaving and against any node that answers with blocks of the height
      asked for, the j-th switch uses the tally of exactly the finalized heights j*n+1..(j+1)*n,
      later than its end time plus the delay; every validator it leaves listed has the power its
      nominations in these blocks have earned; and the epoch number counts the switches. */
  lemma SwitchesFollowFinalizedChain(c: Setting, world: S.World, actions: seq<Action>, j: nat) returns (fin: seq<W.Block>)
    requires SettingOk(c) && AnswersAsked(c, actions) && OneNominationEach(c.tree)
    requires Run(c, world, actions).Some? && j < |Run(c, world, actions).value.switched|
    ensures var s := Run(c, world, actions).value;
      && Records(s.loop.watcher, c.n, fin)
      && s.world.info.currEpochNum == world.info.currEpochNum + |s.switched|
      && s.switched[j].blockTime > s.switched[j].epoch.endTime + SWITCH_DELAY
      && EpochEnd(j + 1, c.n) <= |fin|
      && s.switched[j].epoch.startHeight == EpochEnd(j, c.n) + 1
      && AtMostOneEach(Tile(fin, c.n, j)) && IsTallyOf(s.switched[j].epoch, Tile(fin, c.n, j))
      && (forall v :: v in s.switched[j].validators ==> v.votingPower == EarnedPower(Tile(fin, c.n, j), v))
    ensures Linked(fin) <==> EveryAnswer(c.tree, c.n, c.period, Served(actions), LinkingIn(c.tree))
  {
    fin := FinalizedSoFar(c, world, actions);
    var s := Run(c, world, actions).value;
    assert s.loop.watcher.sent[j] == EpochsOf(s.switched)[j];
    SentEpochsAreTallies(s.loop.watcher, c.n, fin, j);
    assert SwitchOk(s.switched[j]);
    PowersEarned(s.loop.watcher, c.n, fin, j, s.switched[j]);
  }

  lemma PowersEarned(w: W.State, n: nat, fin: seq<W.Block>, j: nat, sw: Switched)
    requires Records(w, n, fin) && j < |w.sent| && w.sent[j] == sw.epoch && SwitchOk(sw)
    requires AtMostOneEach(fin) && CountsOfOne(fin)
    ensures EpochEnd(j + 1, n) <= |fin|
    ensures forall v :: v in sw.validators ==> v.votingPower == EarnedPower(Tile(fin, n, j), v)
  {
    assert TileOk(w.sent, fin, n, j);
    PowersOfTally(Tile(fin, n, j), EpochEnd(j, n) + 1, if j == 0 then None else Some(w.sent[j - 1]));
    forall v | v in sw.validators ensures v.votingPower == EarnedPower(Tile(fin, n, j), v) {
      assert v == S.Repowered(v, PowersOf(sw.epoch));
    }
  }

  // ----- The ledger under the whole system -----

  lemma SentPowersNonNegative(w: W.State, n: nat, fin: seq<W.Block>, k: nat)
    requires Records(w, n, fin) && k < |w.sent| && AtMostOneEach(fin) && CountsOfOne(fin)
    ensures NonNegativePowers(PowersOf(w.sent[k]))
  {
    assert TileOk(w.sent, fin, n, k);
    PowersOfTally(Tile(fin, n, k), EpochEnd(k, n) + 1, if k == 0 then None else Some(w.sent[k - 1]));
  }

  lemma CommitKeepsWellFormed(s: System, firstEpoch: int, n: nat, fin: seq<W.Block>, blockTime: int)
    requires InOrder(s, firstEpoch) && Records(s.loop.watcher, n, fin) && AtMostOneEach(fin) && CountsOfOne(fin)
    requires WellFormed(s.world.info) && CommitEpochs(s, blockTime).Some?
    ensures WellFormed(CommitEpochs(s, blockTime).value.world.info)
  {
    ReceivedInOrder(s, firstEpoch);
    var epochs, k := Received(s).epochList, |s.switched|;
    if epochs != [] && blockTime > epochs[0].endTime + SWITCH_DELAY {
      assert s.loop.watcher.sent[k] == epochs[0];
      SentPowersNonNegative(s.loop.watcher, n, fin, k);
      SwitchKeepsWellFormed(s.world, PowersOf(epochs[0]));
    }
  }

  lemma ServedPrefix(c: Setting, actions: seq<Action>)
    requires SettingOk(c) && actions != [] && AnswersAsked(c, actions)
    ensures AnswersAsked(c, actions[..|actions| - 1])
  {
    var init, a := Served(actions[..|actions| - 1]), actions[|actions| - 1];
    assert a.Answer? ==> (init + [a.block])[..|init|] == init;
  }

  /** In every state the whole system can reach the ledger is well-formed: keys are distinct, powers
      are not negative, and every pending reward names a listed validator. */
  lemma {:induction false} SystemStaysWellFormed(c: Setting, world: S.World, actions: seq<Action>)
    requires SettingOk(c) && AnswersAsked(c, actions) && OneNominationEach(c.tree)
    requires WellFormed(world.info) && Run(c, world, actions).Some?
    ensures WellFormed(Run(c, world, actions).value.world.info)
  {
    if actions != [] {
      var init, a := actions[..|actions| - 1], actions[|actions| - 1];
      ServedPrefix(c, actions);
      SystemStaysWellFormed(c, world, init);
      var s := Run(c, world, init).value;
      match a
      case Answer(b) =>
      case Ledger(step) => R.StepKeepsWellFormed(s.world, step);
      case Commit(blockTime) =>
        var fin := FinalizedSoFar(c, world, init);
        CommitKeepsWellFormed(s, world.info.currEpochNum, c.n, fin, blockTime);
    }
  }
}
