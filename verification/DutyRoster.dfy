/** Who is on duty: what a commit does with the epochs that wait, and whom it leaves as the
    chain's validators (app/app.go:513-528). */
module DutyRoster {
  import opened Words
  import opened StakingTypes
  import opened ActiveValidators
  import opened Epochs
  import opened Tally
  import opened Handover
  import S = Staking
  import W = Watcher
  import G = MinGasPrice

  // ----- Election -----

  // 800 coins at stake, not retiring, and some power.
  ghost predicate Electable(v: Validator) {
    v.stakedCoins >= 800_000_000_000_000_000_000 && !v.isRetiring && v.votingPower > 0
  }

  // The positions of all electable validators, by power and then as listed.
  ghost predicate IsOrder(vals: seq<Validator>, order: seq<nat>) {
    && (forall p :: 0 <= p < |order| ==> order[p] < |vals| && Electable(vals[order[p]]))
    && (forall i :: 0 <= i < |vals| && Electable(vals[i]) ==> i in order)
    && (forall p, q :: 0 <= p < q < |order| ==>
          vals[order[p]].votingPower > vals[order[q]].votingPower
          || (vals[order[p]].votingPower == vals[order[q]].votingPower && order[p] < order[q]))
  }

  // The first thirty of that order.
  ghost predicate IsRoster(vals: seq<Validator>, duty: seq<Validator>) {
    exists order :: IsOrder(vals, order) && FirstThirty(vals, order, duty)
  }

  ghost predicate FirstThirty(vals: seq<Validator>, order: seq<nat>, duty: seq<Validator>)
    requires IsOrder(vals, order)
  {
    && |duty| == (if |order| < 30 then |order| else 30)
    && forall p :: 0 <= p < |duty| ==> duty[p] == vals[order[p]]
  }

  lemma ActiveIsRoster(vals: seq<Validator>)
    ensures IsRoster(vals, Active(vals, S.MINIMUM_STAKING_AMOUNT))
  {
    var order := ActiveIsTopOfRanking(vals, S.MINIMUM_STAKING_AMOUNT);
    assert IsOrder(vals, order);
    assert FirstThirty(vals, order, Active(vals, S.MINIMUM_STAKING_AMOUNT));
  }

  lemma FirstThirtyAreElectable(vals: seq<Validator>, order: seq<nat>, duty: seq<Validator>)
    requires IsOrder(vals, order) && FirstThirty(vals, order, duty)
    ensures forall p :: 0 <= p < |duty| ==> duty[p] in vals && Electable(duty[p])
  {
    forall p | 0 <= p < |duty| ensures duty[p] in vals && Electable(duty[p]) {
      assert vals[order[p]] in vals;
    }
  }

  lemma RosterIsElectable(vals: seq<Validator>, duty: seq<Validator>)
    requires IsRoster(vals, duty)
    ensures forall v :: v in duty ==> v in vals && Electable(v)
  {
    var order :| IsOrder(vals, order) && FirstThirty(vals, order, duty);
    FirstThirtyAreElectable(vals, order, duty);
  }

  /** The minimum gas price is moved by those on duty and by the accounts their rewards go to. */
  lemma WhoMovesThePrice(vals: seq<Validator>, sender: Address) returns (duty: seq<Validator>)
    ensures IsRoster(vals, duty)
    ensures G.IsOperator(vals, sender) <==> exists v :: v in duty && (v.address == sender || v.rewardTo == sender)
  {
    duty := Active(vals, S.MINIMUM_STAKING_AMOUNT);
    ActiveIsRoster(vals);
    if v :| v in duty && (v.address == sender || v.rewardTo == sender) {
      var i :| 0 <= i < |duty| && duty[i] == v;
    }
    if G.IsOperator(vals, sender) {
      var i :| 0 <= i < |duty| && (duty[i].address == sender || duty[i].rewardTo == sender);
      assert duty[i] in duty;
    }
  }

  // ----- One commit -----

  // The epochs that wait, oldest first.
  function Queue(s: System): seq<W.Epoch> {
    s.epochList + s.channel
  }

  // A hundred times ten minutes after the epoch's end.
  predicate Due(s: System, blockTime: int) {
    Queue(s) != [] && blockTime > Queue(s)[0].endTime + 60000
  }

  ghost predicate Elects(s: System, s': System) {
    && s' == s.(currValidators := s'.currValidators, epochList := [], channel := [])
    && IsRoster(s.world.info.validators, s'.currValidators)
  }

  ghost predicate Waits(s: System, s': System) {
    s' == s.(epochList := Queue(s), channel := [])
  }

  ghost predicate SwitchesTo(s: System, s': System, blockTime: int)
    requires Queue(s) != []
  {
    && s'.loop == s.loop && s'.channel == [] && s'.epochList == Queue(s)[1..]
    && s'.switched == s.switched + [Switched(Queue(s)[0], blockTime, s'.world.info.validators)]
    && s'.world.info.currEpochNum == s.world.info.currEpochNum + 1
    && S.SwitchEpoch(s.world, PowersOf(Queue(s)[0])) == Some(s'.world)
    && IsRoster(s'.world.info.validators, s'.currValidators)
  }

  /** What a commit does: with nothing waiting it elects from the current list; before the oldest
      epoch is due it only receives; when it is due it switches to it, takes it off the queue, and
      puts those on duty whom the new list elects.  It panics only if the switch does. */
  lemma CommitExactly(s: System, blockTime: int)
    requires |s.channel| <= 1
    ensures CommitEpochs(s, blockTime).None? <==>
      Due(s, blockTime) && S.SwitchEpoch(s.world, PowersOf(Queue(s)[0])).None?
    ensures CommitEpochs(s, blockTime).Some? ==>
      var s' := CommitEpochs(s, blockTime).value;
      if Queue(s) == [] then Elects(s, s') else if Due(s, blockTime) then SwitchesTo(s, s', blockTime) else Waits(s, s')
  {
    assert Received(s).epochList == Queue(s) && Received(s).channel == [];
    ActiveIsRoster(s.world.info.validators);
    if Due(s, blockTime) && CommitEpochs(s, blockTime).Some? {
      ActiveIsRoster(CommitEpochs(s, blockTime).value.world.info.validators);
    }
  }

  /** Nothing but a commit changes who is on duty, and only a commit switches. */
  lemma OthersKeepDuty(c: Setting, s: System, a: Action)
    requires SettingOk(c) && !a.Commit? && Next(c, s, a).Some?
    ensures var s' := Next(c, s, a).value;
      s'.currValidators == s.currValidators && s'.switched == s.switched && s'.epochList == s.epochList
  {
  }

  // ----- Runs -----

  // The commit at the end of a run whose oldest waiting epoch is due.
  lemma DueCommit(c: Setting, world: S.World, actions: seq<Action>, blockTime: int) returns (s: System, s': System)
    requires SettingOk(c)
    requires Run(c, world, actions).Some? && Due(Run(c, world, actions).value, blockTime)
    requires Run(c, world, actions + [Commit(blockTime)]).Some?
    ensures Run(c, world, actions) == Some(s) && Run(c, world, actions + [Commit(blockTime)]) == Some(s')
    ensures Queue(s) != [] && SwitchesTo(s, s', blockTime)
  {
    assert (actions + [Commit(blockTime)])[..|actions|] == actions;
    s, s' := Run(c, world, actions).value, Run(c, world, actions + [Commit(blockTime)]).value;
    HandoverExactlyOnce(c, world, actions);
    CommitExactly(s, blockTime);
  }

  // The powers that the last switch of a run has left.
  lemma LastSwitchPowers(c: Setting, world: S.World, actions: seq<Action>, s: System) returns (fin: seq<W.Block>)
    requires SettingOk(c) && AnswersAsked(c, actions) && OneNominationEach(c.tree)
    requires Run(c, world, actions) == Some(s) && s.switched != []
    ensures Records(s.loop.watcher, c.n, fin)
    ensures var j := |s.switched| - 1;
      EpochEnd(j + 1, c.n) <= |fin| && forall v :: v in s.switched[j].validators ==> v.votingPower == EarnedPower(Tile(fin, c.n, j), v)
  {
    fin := SwitchesFollowFinalizedChain(c, world, actions, |s.switched| - 1);
  }

  /** Over all runs of the whole system: a commit whose oldest waiting epoch is due switches to it,
      and everyone it puts on duty has 800 coins at stake, is not retiring, and has for power the
      number of blocks of that epoch's stretch that nominate it plus one; nobody electable with
      more power is left out. */
  lemma DutyAfterSwitch(c: Setting, world: S.World, actions: seq<Action>, blockTime: int)
    returns (s: System, s': System, fin: seq<W.Block>)
    requires SettingOk(c) && AnswersAsked(c, actions) && OneNominationEach(c.tree)
    requires Run(c, world, actions).Some? && Due(Run(c, world, actions).value, blockTime)
    requires Run(c, world, actions + [Commit(blockTime)]).Some?
    ensures Run(c, world, actions) == Some(s) && Run(c, world, actions + [Commit(blockTime)]) == Some(s')
    ensures Queue(s) != [] && SwitchesTo(s, s', blockTime)
    ensures Records(s'.loop.watcher, c.n, fin) && s'.switched != [] && EpochEnd(|s'.switched|, c.n) <= |fin|
    ensures EarnedDuty(Tile(fin, c.n, |s'.switched| - 1), s'.world.info.validators, s'.currValidators)
  {
    s, s' := DueCommit(c, world, actions, blockTime);
    var all := actions + [Commit(blockTime)];
    assert all[..|actions|] == actions && Served(all) == Served(actions);
    fin := LastSwitchPowers(c, world, all, s');
    DutyIsEarned(Tile(fin, c.n, |s'.switched| - 1), s'.world.info.validators, s'.currValidators);
  }

  // Everyone on duty is listed and electable, with the power the blocks give it.
  ghost predicate EarnedDuty(bs: seq<W.Block>, vals: seq<Validator>, duty: seq<Validator>) {
    forall v :: v in duty ==> Electable(v) && v in vals && v.votingPower == NominatingBlocks(bs, v.pubkey) + 1 >= 2
  }

  lemma DutyIsEarned(bs: seq<W.Block>, vals: seq<Validator>, duty: seq<Validator>)
    requires IsRoster(vals, duty) && forall v :: v in vals ==> v.votingPower == EarnedPower(bs, v)
    ensures EarnedDuty(bs, vals, duty)
  {
    RosterIsElectable(vals, duty);
  }

  /** Over all runs: a commit with nothing waiting puts the roster of the current list on duty, and
      one that waits leaves everything as it was. */
  lemma DutyOtherwise(c: Setting, world: S.World, actions: seq<Action>, blockTime: int)
    requires SettingOk(c) && Run(c, world, actions).Some? && !Due(Run(c, world, actions).value, blockTime)
    ensures Run(c, world, actions + [Commit(blockTime)]).Some?
    ensures var s, s' := Run(c, world, actions).value, Run(c, world, actions + [Commit(blockTime)]).value;
      if Queue(s) == [] then Elects(s, s') else Waits(s, s')
  {
    assert (actions + [Commit(blockTime)])[..|actions|] == actions;
    HandoverExactlyOnce(c, world, actions);
    CommitExactly(Run(c, world, actions).value, blockTime);
  }
}
