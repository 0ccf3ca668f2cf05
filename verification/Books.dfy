/** The books modulo 2^256: a law of all runs without any condition on balances, fees or powers. */
module Books {
  import opened Words
  import opened StakingTypes
  import opened Accounts
  import opened FeeSplit
  import opened Staking
  import opened Solvency
  import opened Distribution
  import opened EpochSwitch
  import opened StakingRuns

  // ----- DistributeFee, however its arithmetic wraps -----

  lemma CreditOneModulo(prs: seq<PendingReward>, n: nat, epoch: int, a: Address, amount: Word) returns (k: int)
    requires n <= |prs|
    ensures Pending(CreditOne(prs, n, epoch, a, amount)) == Pending(prs) + amount + Wraps(k)
  {
    var i := FindReward(prs[..n], epoch, a);
    if i.Some? {
      AmountAt(prs, i.value, Add(prs[i.value].amount, amount), Everything());
      k := WrappedAdd(prs[i.value].amount, amount);
    } else {
      AmountAppend(prs, PendingReward(a, epoch, amount), Everything());
      k := 0;
    }
  }

  // What the shares add to the entries they take away from the remainder.
  lemma {:induction false} SharesModulo(prs: seq<PendingReward>, epoch: int, shared: Word, voted: int, others: seq<Validator>)
    returns (k: int)
    ensures Pending(CreditShares(prs, epoch, shared, voted, others)) + Remainder(shared, voted, others)
         == Pending(prs) + shared + Wraps(k)
  {
    k := 0;
    if others != [] {
      var init, v := others[..|others| - 1], others[|others| - 1];
      var k0 := SharesModulo(prs, epoch, shared, voted, init);
      var part := Share(shared, voted, v.votingPower);
      var k1 := CreditOneModulo(CreditShares(prs, epoch, shared, voted, init), |prs|, epoch, v.address, part);
      var k2 := WrappedSub(Remainder(shared, voted, init), part);
      WrapsSum(k0, k1);
      WrapsSum(k0 + k1, k2);
      k := k0 + k1 + k2;
    }
  }

  /** Whatever wraps, the pending rewards grow by the fee modulo 2^256. */
  lemma DistributesModulo(info: StakingInfo, fee: Word, proposer: Pubkey, voters: seq<Pubkey>, info': StakingInfo)
    requires DistributedInfo(info, fee, proposer, voters) == Some(info')
    ensures Congruent(Pending(info'.pendingRewards), Pending(info.pendingRewards) + fee)
  {
    var vs, p := LookupAll(info.validators, voters).value, FindByPubkey(info.validators, proposer).value;
    var voted, others := PowerSum(vs), Others(vs, proposer);
    var split, k0 := SplitModulo(fee, voted, TotalPower(info));
    var own, k1 := ProposerModulo(split, voted, others);
    var k2 := SharesModulo(info.pendingRewards, info.currEpochNum, split.shared, voted, others);
    var prs := CreditShares(info.pendingRewards, info.currEpochNum, split.shared, voted, others);
    var k3 := CreditOneModulo(prs, |info.pendingRewards|, info.currEpochNum, info.validators[p].address, own);
    WrapsSum(k0, k1);
    WrapsSum(k2, k3);
    WrapsSum(k0 + k1, k2 + k3);
  }

  // ----- The other steps -----

  lemma OperateModulo(info: StakingInfo, from: Address, value: Word, op: Operation) returns (k: int)
    requires OperateOnInfo(info, from, value, op).1 == Success
    ensures var info' := OperateOnInfo(info, from, value, op).0;
      info'.pendingRewards == info.pendingRewards && Staked(info'.validators) == Staked(info.validators) + value + Wraps(k)
  {
    var vals := info.validators;
    if op.CreateValidator? {
      StakedAppend(vals, NewValidator(from, op.pubkey, op.intro, value, op.rewardTo));
      k := 0;
    } else {
      var i := FindByAddr(vals, from).value;
      StakedAt(vals, i, EditedValidator(vals[i], value, op));
      k := WrappedAdd(vals[i].stakedCoins, value);
    }
  }

  // The account the step takes coins from, or sends burnt coins to, is not the contract's.
  predicate Foreign(step: Step) {
    match step
    case External(from, value, op) => from != STAKING_CONTRACT
    case Distribute(payer, fee, proposer, voters) => payer != STAKING_CONTRACT
    case Switch(powers) => true
    case Punish(blackHole, pubkey, amount) => blackHole != STAKING_CONTRACT
    case Transfer(from, to, amount) => from != STAKING_CONTRACT
  }

  lemma ExternalModulo(w: World, from: Address, value: Word, op: Operation)
    requires from != STAKING_CONTRACT
    ensures Congruent(Excess(ExternalOp(w, from, value, op).0), Excess(w))
  {
    if BalanceOf(w.accounts, from) >= value && OperateOnInfo(w.info, from, value, op).1 == Success {
      var k1 := OperateModulo(w.info, from, value, op);
      var k2 := WrappedAdd(BalanceOf(w.accounts, STAKING_CONTRACT), value);
      WrapsSum(k2 - k1, k1);
    } else {
      WrapsSum(0, 0);
    }
  }

  lemma DistributeModulo(w: World, payer: Address, fee: Word, proposer: Pubkey, voters: seq<Pubkey>)
    requires payer != STAKING_CONTRACT
    requires DistributeFee(Collected(w, payer, fee), fee, proposer, voters).Some?
    ensures Congruent(Excess(DistributeFee(Collected(w, payer, fee), fee, proposer, voters).value), Excess(w))
  {
    var info' := DistributedInfo(w.info, fee, proposer, voters).value;
    DistributesModulo(w.info, fee, proposer, voters, info');
    var before, after := Pending(w.info.pendingRewards), Pending(info'.pendingRewards);
    var k1 :| after == before + fee + Wraps(k1);
    var k2 := WrappedAdd(BalanceOf(w.accounts, STAKING_CONTRACT), fee);
    WrapsSum(k2 - k1, k1);
  }

  lemma MinusModulo(b: Word, t: nat) returns (k: int)
    ensures Minus(b, t) == b - t + Wraps(k)
  {
    k := 0 - (b - t) / WORD;
  }

  lemma SwitchModulo(w: World, powers: map<Pubkey, int>)
    requires SwitchEpoch(w, powers).Some?
    ensures Congruent(Excess(SwitchEpoch(w, powers).value), Excess(w) - SwitchLeak(w.info, powers))
  {
    var pays := SwitchPayments(w.info).value;
    OwedAfterSwitch(w.info, powers, pays, SwitchSurvivors(w.info, powers).value);
    var k := MinusModulo(BalanceOf(w.accounts, STAKING_CONTRACT), Total(pays) + Total(SwitchRefunds(w.info, powers)));
  }

  lemma PunishModulo(w: World, blackHole: Address, pk: Pubkey, amount: Word)
    requires blackHole != STAKING_CONTRACT
    ensures Congruent(Excess(Slash(w, blackHole, pk, amount)), Excess(w) - Leak(w, Punish(blackHole, pk, amount)))
  {
    WrapsSum(0, 0);
  }

  lemma TransferModulo(w: World, from: Address, to: Address, amount: Word)
    requires from != STAKING_CONTRACT
    ensures Congruent(Excess(w.(accounts := Moved(w.accounts, from, to, amount))),
                      Excess(w) - Leak(w, Transfer(from, to, amount)))
  {
    var k := WrappedAdd(BalanceOf(w.accounts, STAKING_CONTRACT), amount);
    WrapsSum(0, 0);
  }

  /** Any step in any state that does not panic. */
  lemma StepModulo(w: World, step: Step)
    requires Foreign(step) && Next(w, step).Some?
    ensures Congruent(Excess(Next(w, step).value), Excess(w) - Leak(w, step))
  {
    match step
    case External(from, value, op) => ExternalModulo(w, from, value, op);
    case Distribute(payer, fee, proposer, voters) => DistributeModulo(w, payer, fee, proposer, voters);
    case Switch(powers) => SwitchModulo(w, powers);
    case Punish(blackHole, pubkey, amount) => PunishModulo(w, blackHole, pubkey, amount);
    case Transfer(from, to, amount) => TransferModulo(w, from, to, amount);
  }

  lemma CongruentStep(a: int, b: int, c: int, leak: int)
    requires Congruent(b, a) && Congruent(c, b - leak)
    ensures Congruent(c, a - leak)
  {
    var j :| b == a + Wraps(j);
    var k :| c == b - leak + Wraps(k);
    WrapsSum(j, k);
  }

  /** Over all runs, from any state, with any fees, powers and balances: what nobody has a claim
      on is the first excess minus the leaks, modulo 2^256. */
  lemma {:induction false} RunModulo(w: World, steps: seq<Step>)
    requires AllSteps(steps, Foreign) && Run(w, steps).Some?
    ensures Congruent(Excess(Run(w, steps).value), Excess(w) - TotalLeak(w, steps))
  {
    if steps == [] {
      WrapsSum(0, 0);
    } else {
      var init, step := steps[..|steps| - 1], steps[|steps| - 1];
      assert Foreign(step);
      RunModulo(w, init);
      var w' := Run(w, init).value;
      StepModulo(w', step);
      CongruentStep(Excess(w) - TotalLeak(w, init), Excess(w'), Excess(Run(w, steps).value), Leak(w', step));
    }
  }
}
