/** What Slash takes from a validator, and the counter of burnt coins, slash by slash and over
    whole runs (staking/staking.go:378-417). */
module Burning {
  import opened Words
  import opened StakingTypes
  import opened Staking
  import opened Solvency
  import opened Slashing
  import opened StakingRuns
  import opened Books

  // ----- The claims a slash takes away -----

  ghost predicate Punished(v: Validator, v': Validator, amount: Word) {
    && v'.stakedCoins == (if v.stakedCoins <= amount then 0 else v.stakedCoins - amount)
    && v' == v.(stakedCoins := v'.stakedCoins)
  }

  ghost predicate OwedNothing(info: StakingInfo, info': StakingInfo, a: Address) {
    forall b: Address, e: int ::
      Amount(info'.pendingRewards, Only(b, e)) == if b == a then 0 else Amount(info.pendingRewards, Only(b, e))
  }

  lemma {:induction false} ClearedPerEpoch(prs: seq<PendingReward>, epoch: int, a: Address, b: Address, e: int)
    ensures Amount(ClearedRewards(prs, epoch, a), Only(b, e)) == if a == b then 0 else Amount(prs, Only(b, e))
  {
    if prs != [] {
      var init, pr := prs[..|prs| - 1], prs[|prs| - 1];
      var r := ClearedRewards(init, epoch, a);
      ClearedPerEpoch(init, epoch, a, b, e);
      AmountAppend(r, pr, Only(b, e));
      AmountAppend(r, pr.(amount := 0), Only(b, e));
    }
  }

  /** The edited info: the first validator with the key loses the amount from its stake, or all of
      it, and nothing else; what it is owed drops to zero for every epoch; everybody else keeps
      stake and rewards; a key that is not listed changes nothing. */
  lemma SlashedExactly(info: StakingInfo, pk: Pubkey, amount: Word)
    ensures var info', i := SlashedInfo(info, pk, amount), FindByPubkey(info.validators, pk);
      && info'.currEpochNum == info.currEpochNum && |info'.validators| == |info.validators|
      && (forall j :: 0 <= j < |info.validators| && Some(j) != i ==> info'.validators[j] == info.validators[j])
      && (i.None? ==> info' == info)
      && (i.Some? ==> Punished(info.validators[i.value], info'.validators[i.value], amount))
      && (i.Some? ==> OwedNothing(info, info', info.validators[i.value].address))
  {
    var i := FindByPubkey(info.validators, pk);
    if i.Some? {
      var v := info.validators[i.value];
      forall b: Address, e: int
        ensures Amount(SlashedInfo(info, pk, amount).pendingRewards, Only(b, e)) ==
                if b == v.address then 0 else Amount(info.pendingRewards, Only(b, e))
      {
        ClearedPerEpoch(info.pendingRewards, info.currEpochNum, v.address, b, e);
      }
    }
  }

  // The stake taken and all rewards of the validator.
  ghost function SlashAmount(info: StakingInfo, pk: Pubkey, amount: Word): nat {
    var i := FindByPubkey(info.validators, pk);
    if i.None? then 0
    else
      var v := info.validators[i.value];
      (if v.stakedCoins <= amount then v.stakedCoins else amount) + Amount(info.pendingRewards, Of(v.address))
  }

  lemma SlashAmountIsOwed(info: StakingInfo, pk: Pubkey, amount: Word)
    ensures Owed(SlashedInfo(info, pk, amount)) + SlashAmount(info, pk, amount) == Owed(info)
  {
    var i := FindByPubkey(info.validators, pk);
    if i.Some? {
      var v := info.validators[i.value];
      StakedAt(info.validators, i.value, v.(stakedCoins := v.stakedCoins - SlashedCoins(v, amount)));
      ClearedRewardsAmount(info.pendingRewards, info.currEpochNum, v.address);
    }
  }

  // ----- The counter -----

  lemma {:induction false} ClearedTotalModulo(prs: seq<PendingReward>, a: Address) returns (k: int)
    ensures ClearedTotal(prs, a) == Amount(prs, Of(a)) + Wraps(k)
  {
    k := 0;
    if prs != [] {
      var init, pr := prs[..|prs| - 1], prs[|prs| - 1];
      var k0 := ClearedTotalModulo(init, a);
      var k1 := WrappedAdd(ClearedTotal(init, a), pr.amount);
      WrapsSum(k0, k1);
      k := if pr.address == a then k0 + k1 else k0;
    }
  }

  lemma TotalSlashedModulo(info: StakingInfo, pk: Pubkey, amount: Word) returns (k: int)
    ensures TotalSlashed(info, pk, amount) == SlashAmount(info, pk, amount) + Wraps(k)
  {
    k := 0;
    var i := FindByPubkey(info.validators, pk);
    if i.Some? {
      var v := info.validators[i.value];
      var k0 := ClearedTotalModulo(info.pendingRewards, v.address);
      var k1 := WrappedAdd(SlashedCoins(v, amount), ClearedTotal(info.pendingRewards, v.address));
      WrapsSum(k0, k1);
      k := k0 + k1;
    }
  }

  /** The counter grows by exactly what the edited info owes less, modulo 2^256, whether or not the
      transfer to the black hole fails; a key that is not listed changes nothing at all. */
  lemma SlashCounts(w: World, blackHole: Address, pk: Pubkey, amount: Word)
    ensures var w' := Slash(w, blackHole, pk, amount);
      && Congruent(w'.allBurnt + Owed(SlashedInfo(w.info, pk, amount)), w.allBurnt + Owed(w.info))
      && Congruent(w'.allBurnt, w.allBurnt + SlashAmount(w.info, pk, amount))
      && (FindByPubkey(w.info.validators, pk).None? ==> w' == w)
  {
    SlashAmountIsOwed(w.info, pk, amount);
    if FindByPubkey(w.info.validators, pk).None? {
      WrapsSum(0, 0);
    } else {
      var k0 := TotalSlashedModulo(w.info, pk, amount);
      var k1 := WrappedAdd(w.allBurnt, TotalSlashed(w.info, pk, amount));
      WrapsSum(k0, k1);
      assert Slash(w, blackHole, pk, amount).allBurnt == w.allBurnt + SlashAmount(w.info, pk, amount) + Wraps(k0 + k1);
    }
  }

  ghost function SlashedBy(w: World, step: Step): nat {
    if step.Punish? then SlashAmount(w.info, step.pubkey, step.amount) else 0
  }

  ghost function SlashedOver(w: World, steps: seq<Step>): nat {
    if steps == [] then 0
    else
      var w' := Run(w, steps[..|steps| - 1]);
      SlashedOver(w, steps[..|steps| - 1]) + if w'.None? then 0 else SlashedBy(w'.value, steps[|steps| - 1])
  }

  /** Only a slash touches the counter. */
  lemma StepCounts(w: World, step: Step)
    requires Next(w, step).Some?
    ensures Congruent(Next(w, step).value.allBurnt, w.allBurnt + SlashedBy(w, step))
    ensures !step.Punish? ==> Next(w, step).value.allBurnt == w.allBurnt
  {
    if step.Punish? {
      SlashCounts(w, step.blackHole, step.pubkey, step.amount);
    } else {
      WrapsSum(0, 0);
    }
  }

  /** Over all runs of any mix of steps from any state, the counter of burnt coins is its first value
      plus everything the slashes took away, modulo 2^256. */
  lemma {:induction false} RunCounts(w: World, steps: seq<Step>)
    requires Run(w, steps).Some?
    ensures Congruent(Run(w, steps).value.allBurnt, w.allBurnt + SlashedOver(w, steps))
  {
    if steps == [] {
      WrapsSum(0, 0);
    } else {
      var init, step := steps[..|steps| - 1], steps[|steps| - 1];
      RunCounts(w, init);
      var w' := Run(w, init).value;
      StepCounts(w', step);
      CongruentStep(w.allBurnt + SlashedOver(w, init), w'.allBurnt, Run(w, steps).value.allBurnt, 0 - SlashedBy(w', step));
    }
  }
}
