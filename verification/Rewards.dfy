/** Pending rewards over whole runs: credited, kept, paid exactly once, and never orphaned. */
module Rewards {
  import opened Words
  import opened StakingTypes
  import opened ActiveValidators
  import opened Accounts
  import opened FeeSplit
  import opened Staking
  import opened Solvency
  import opened Distribution
  import opened EpochSwitch
  import opened Slashing
  import opened StakingRuns
  import RangeDelete

  // ----- Maturity -----

  function OwedTo(info: StakingInfo, a: Address, epoch: int): nat {
    Amount(info.pendingRewards, Only(a, epoch))
  }

  ghost function CreditedBy(w: World, step: Step, a: Address, epoch: int): nat {
    if step.Distribute? then CreditedTo(w.info, step.fee, step.proposer, step.voters, Only(a, epoch)) else 0
  }

  ghost function PaidBy(w: World, step: Step, a: Address, epoch: int): nat {
    if step.Switch? then MatureAmount(w.info.pendingRewards, w.info.currEpochNum + 1, Only(a, epoch)) else 0
  }

  lemma {:induction false} NoSharesOfOtherEpochs(shared: Word, voted: int, others: seq<Validator>, curr: int, a: Address, epoch: int)
    requires epoch != curr
    ensures SelectedShares(shared, voted, others, curr, Only(a, epoch)) == 0
  {
    if others != [] {
      NoSharesOfOtherEpochs(shared, voted, others[..|others| - 1], curr, a, epoch);
    }
  }

  lemma {:induction false} NothingOutsideEpochs(prs: seq<PendingReward>, curr: int, a: Address, epoch: int)
    requires forall i :: 0 <= i < |prs| ==> curr - 1 <= prs[i].epochNum <= curr
    ensures Amount(prs, Only(a, epoch)) > 0 ==> curr - 1 <= epoch <= curr
    ensures MatureAmount(prs, curr + 1, Only(a, epoch)) > 0 ==> epoch == curr - 1
    ensures epoch == curr - 1 ==> MatureAmount(prs, curr + 1, Only(a, epoch)) == Amount(prs, Only(a, epoch))
  {
    if prs != [] {
      NothingOutsideEpochs(prs[..|prs| - 1], curr, a, epoch);
    }
  }

  ghost predicate Matures(w: World, step: Step, w': World, a: Address, epoch: int) {
    && OwedTo(w'.info, a, epoch) + PaidBy(w, step, a, epoch) == OwedTo(w.info, a, epoch) + CreditedBy(w, step, a, epoch)
    && (CreditedBy(w, step, a, epoch) > 0 ==> epoch == w.info.currEpochNum)
    && (PaidBy(w, step, a, epoch) > 0 ==> epoch + 2 == w'.info.currEpochNum)
    && w'.info.currEpochNum == w.info.currEpochNum + (if step.Switch? then 1 else 0)
  }

  lemma CreditMatures(w: World, step: Step, a: Address, epoch: int)
    requires step.Distribute? && CreditsExactly(w, step) && Next(w, step).Some?
    requires Pending(w.info.pendingRewards) + step.fee < WORD
    ensures Matures(w, step, Next(w, step).value, a, epoch)
    ensures Pending(Next(w, step).value.info.pendingRewards) == Pending(w.info.pendingRewards) + step.fee
  {
    DistributesExactly(w.info, step.fee, step.proposer, step.voters, Everything());
    DistributesExactly(w.info, step.fee, step.proposer, step.voters, Only(a, epoch));
    var vs := LookupAll(w.info.validators, step.voters).value;
    if epoch != w.info.currEpochNum {
      NoSharesOfOtherEpochs(SplitFee(step.fee, PowerSum(vs), TotalPower(w.info)).shared, PowerSum(vs),
                            Others(vs, step.proposer), w.info.currEpochNum, a, epoch);
    }
  }

  lemma SwitchMatures(w: World, step: Step, a: Address, epoch: int)
    requires step.Switch? && RewardsListed(w.info) && SwitchEpoch(w, step.powers).Some?
    ensures Matures(w, step, SwitchEpoch(w, step.powers).value, a, epoch)
    ensures Pending(SwitchEpoch(w, step.powers).value.info.pendingRewards) <= Pending(w.info.pendingRewards)
  {
    var left := SwitchSurvivors(w.info, step.powers).value;
    assert SwitchEpoch(w, step.powers).value.info == SwitchedInfo(w.info, left);
    RewardsAfterSwitch(w.info, left, Everything());
    RewardsAfterSwitch(w.info, left, Only(a, epoch));
    NothingOutsideEpochs(w.info.pendingRewards, w.info.currEpochNum, a, epoch);
  }

  function FeeOf(step: Step): nat {
    if step.Distribute? then step.fee else 0
  }

  // The shares of a distribution do not exceed its fee.
  ghost predicate CreditsExactly(w: World, step: Step) {
    step.Distribute? && Found(w.info, step.proposer, step.voters) ==>
      SharesCovered(w.info, step.fee, step.proposer, step.voters)
  }

  /** One step: what a validator is owed for an epoch grows by what is credited, shrinks by
      what is paid; credits go to the current epoch and payments come two epochs later. */
  lemma StepMatures(w: World, step: Step, a: Address, epoch: int)
    requires RewardsListed(w.info) && CreditsExactly(w, step) && Next(w, step).Some?
    requires Pending(w.info.pendingRewards) + FeeOf(step) < WORD
    ensures Matures(w, step, Next(w, step).value, a, epoch)
    ensures Pending(Next(w, step).value.info.pendingRewards) <= Pending(w.info.pendingRewards) + FeeOf(step)
  {
    match step
    case External(from, value, op) =>
    case Distribute(payer, fee, proposer, voters) => CreditMatures(w, step, a, epoch);
    case Switch(powers) => SwitchMatures(w, step, a, epoch);
    case Punish(blackHole, pubkey, amount) =>
    case Transfer(from, to, amount) =>
  }

  function TotalFees(steps: seq<Step>): nat {
    if steps == [] then 0 else TotalFees(steps[..|steps| - 1]) + FeeOf(steps[|steps| - 1])
  }

  ghost function TotalCredited(w: World, steps: seq<Step>, a: Address, epoch: int): nat {
    if steps == [] then 0
    else
      var w' := Run(w, steps[..|steps| - 1]);
      TotalCredited(w, steps[..|steps| - 1], a, epoch)
      + if w'.None? then 0 else CreditedBy(w'.value, steps[|steps| - 1], a, epoch)
  }

  ghost function TotalPaid(w: World, steps: seq<Step>, a: Address, epoch: int): nat {
    if steps == [] then 0
    else
      var w' := Run(w, steps[..|steps| - 1]);
      TotalPaid(w, steps[..|steps| - 1], a, epoch)
      + if w'.None? then 0 else PaidBy(w'.value, steps[|steps| - 1], a, epoch)
  }

  /** Exactly once: on every run, what a validator has been credited for an epoch is what it
      has been paid for it plus what is still pending.  Nothing is paid before the second
      switch after the epoch, and everything has been paid once that switch has happened. */
  lemma {:induction false} RewardsPaidExactlyOnce(w: World, steps: seq<Step>, a: Address, epoch: int)
    requires WellFormed(w.info) && AllSteps(steps, PowersOk) && Run(w, steps).Some?
    requires Always(w, steps, CreditsExactly) && Pending(w.info.pendingRewards) + TotalFees(steps) < WORD
    ensures var w' := Run(w, steps).value;
      && OwedTo(w.info, a, epoch) + TotalCredited(w, steps, a, epoch) ==
         TotalPaid(w, steps, a, epoch) + OwedTo(w'.info, a, epoch)
      && w.info.currEpochNum <= w'.info.currEpochNum
      && (w'.info.currEpochNum < epoch + 2 ==> TotalPaid(w, steps, a, epoch) == 0)
      && (w'.info.currEpochNum >= epoch + 2 ==>
            TotalPaid(w, steps, a, epoch) == OwedTo(w.info, a, epoch) + TotalCredited(w, steps, a, epoch))
    ensures Pending(Run(w, steps).value.info.pendingRewards) <= Pending(w.info.pendingRewards) + TotalFees(steps)
  {
    if steps == [] {
      NothingOutsideEpochs(w.info.pendingRewards, w.info.currEpochNum, a, epoch);
    } else {
      var init := steps[..|steps| - 1];
      RewardsPaidExactlyOnce(w, init, a, epoch);
      RunsKeepWellFormed(w, init);
      RunsKeepWellFormed(w, steps);
      StepMatures(Run(w, init).value, steps[|steps| - 1], a, epoch);
      var w' := Run(w, steps).value;
      NothingOutsideEpochs(w'.info.pendingRewards, w'.info.currEpochNum, a, epoch);
    }
  }

  // ----- To whom -----

  // The mature rewards of all validators whose RewardTo is x.
  function RewardsFor(vals: seq<Validator>, prs: seq<PendingReward>, epoch: int, x: Address): nat {
    if vals == [] then 0
    else
      var v := vals[|vals| - 1];
      RewardsFor(vals[..|vals| - 1], prs, epoch, x) + if v.rewardTo == x then MatureAmount(prs, epoch, Of(v.address)) else 0
  }

  lemma {:induction false} NoRewards(vals: seq<Validator>, epoch: int, x: Address)
    ensures RewardsFor(vals, [], epoch, x) == 0
  {
    if vals != [] {
      NoRewards(vals[..|vals| - 1], epoch, x);
    }
  }

  lemma {:induction false} OneMoreReward(vals: seq<Validator>, prs: seq<PendingReward>, epoch: int, x: Address)
    requires DistinctKeys(vals) && prs != []
    ensures var pr := prs[|prs| - 1];
            var i := FindByAddr(vals, pr.address);
            RewardsFor(vals, prs, epoch, x) == RewardsFor(vals, prs[..|prs| - 1], epoch, x)
            + if Mature(pr, epoch) && i.Some? && vals[i.value].rewardTo == x then pr.amount else 0
  {
    if vals != [] {
      OneMoreReward(vals[..|vals| - 1], prs, epoch, x);
    }
  }

  /** Mature rewards go to the RewardTo their validators have at the moment of the switch,
      also when several validators share one. */
  lemma {:induction false} RewardsGoToRewardTo(vals: seq<Validator>, prs: seq<PendingReward>, epoch: int, x: Address)
    requires DistinctKeys(vals) && MaturePayments(vals, prs, epoch).Some?
    ensures PaidTo(MaturePayments(vals, prs, epoch).value, x) == RewardsFor(vals, prs, epoch, x)
  {
    if prs == [] {
      NoRewards(vals, epoch, x);
    } else {
      RewardsGoToRewardTo(vals, prs[..|prs| - 1], epoch, x);
      OneMoreReward(vals, prs, epoch, x);
    }
  }

  // ----- One entry per validator and epoch -----

  ghost predicate OneEntryEach(prs: seq<PendingReward>) {
    forall i, j :: 0 <= i < j < |prs| ==> !(prs[i].address == prs[j].address && prs[i].epochNum == prs[j].epochNum)
  }

  ghost predicate Fresh(prs: seq<PendingReward>, k: nat, a: Address) {
    forall i :: k <= i < |prs| ==> prs[i].address != a
  }

  lemma CreditOneKeepsOneEntry(prs: seq<PendingReward>, k: nat, epoch: int, a: Address, amount: Word)
    requires k <= |prs| && OneEntryEach(prs) && Fresh(prs, k, a)
    ensures OneEntryEach(CreditOne(prs, k, epoch, a, amount))
  {
    var i := FindReward(prs[..k], epoch, a);
    if i.None? {
      forall j | 0 <= j < |prs| ensures !(prs[j].address == a && prs[j].epochNum == epoch) {
        if j < k {
          assert prs[..k][j] == prs[j];
        }
      }
    }
  }

  lemma {:induction false} CreditSharesKeepOneEntry(prs: seq<PendingReward>, epoch: int, shared: Word, voted: int, others: seq<Validator>)
    requires OneEntryEach(prs) && DistinctKeys(others)
    ensures OneEntryEach(CreditShares(prs, epoch, shared, voted, others))
  {
    if others != [] {
      var init, v := others[..|others| - 1], others[|others| - 1];
      CreditSharesKeepOneEntry(prs, epoch, shared, voted, init);
      var names := set u | u in init :: u.address;
      CreditSharesExtends(prs, epoch, shared, voted, init, names);
      assert v.address !in names;
      CreditOneKeepsOneEntry(CreditShares(prs, epoch, shared, voted, init), |prs|, epoch, v.address,
                             Share(shared, voted, v.votingPower));
    }
  }

  ghost predicate DistinctVoters(voters: seq<Pubkey>) {
    forall i, j :: 0 <= i < j < |voters| ==> voters[i] != voters[j]
  }

  // Validators looked up under distinct keys are distinct in both keys.
  lemma LookupsDistinct(vals: seq<Validator>, voters: seq<Pubkey>)
    requires DistinctKeys(vals) && DistinctVoters(voters) && LookupAll(vals, voters).Some?
    ensures DistinctKeys(LookupAll(vals, voters).value)
  {
    var vs := LookupAll(vals, voters).value;
    forall i, j | 0 <= i < j < |vs| ensures vs[i].address != vs[j].address && vs[i].pubkey != vs[j].pubkey {
      var p :| 0 <= p < |vals| && vals[p] == vs[i];
      var q :| 0 <= q < |vals| && vals[q] == vs[j];
      assert voters[i] != voters[j];
      var lo, hi := if p < q then p else q, if p < q then q else p;
      assert lo < hi ==> vals[lo].address != vals[hi].address;
    }
  }

  lemma {:induction false} PowerSumWithout(vals: seq<Validator>, i: nat)
    requires i < |vals|
    ensures PowerSum(vals) == PowerSum(vals[..i] + vals[i + 1..]) + vals[i].votingPower
  {
    var n := |vals| - 1;
    if i == n {
      assert vals[..i] + vals[i + 1..] == vals[..n];
    } else {
      PowerSumWithout(vals[..n], i);
      var rest := vals[..i] + vals[i + 1..];
      assert vals[..n][..i] + vals[..n][i + 1..] == rest[..|rest| - 1];
    }
  }

  lemma {:induction false} PowerSumOfPart(part: seq<Validator>, all: seq<Validator>)
    requires DistinctKeys(part) && PowersNonNegative(all) && forall v :: v in part ==> v in all
    ensures PowerSum(part) <= PowerSum(all)
  {
    if part == [] {
      PowerSumNonNegative(all);
    } else {
      var init, v := part[..|part| - 1], part[|part| - 1];
      assert v in part && v in all;
      var i :| 0 <= i < |all| && all[i] == v;
      var rest := all[..i] + all[i + 1..];
      PowerSumWithout(all, i);
      forall u | u in init ensures u in rest {
        assert u in part && u != v;
        var k :| 0 <= k < |all| && all[k] == u;
        assert k < i ==> rest[k] == u;
        assert k > i ==> rest[k - 1] == u;
      }
      PowerSumOfPart(init, rest);
    }
  }

  // Some validator on duty in this state has the public key.
  ghost predicate OnDuty(info: StakingInfo, pk: Pubkey) {
    exists v :: v in Active(info.validators, MINIMUM_STAKING_AMOUNT) && v.pubkey == pk
  }

  /** The shares of every fee are covered when all voters are distinct and on duty: only retiring or
      outranked voters can make them exceed it. */
  lemma CoveredWhenOnDuty(info: StakingInfo, fee: Word, proposer: Pubkey, voters: seq<Pubkey>)
    requires DistinctKeys(info.validators) && PowersNonNegative(info.validators) && Found(info, proposer, voters)
    requires DistinctVoters(voters) && (forall i :: 0 <= i < |voters| ==> OnDuty(info, voters[i]))
    requires 100 * TotalPower(info) < TWO64
    ensures SharesCovered(info, fee, proposer, voters)
  {
    var vs, active := LookupAll(info.validators, voters).value, Active(info.validators, MINIMUM_STAKING_AMOUNT);
    ActiveAreListed(info.validators, MINIMUM_STAKING_AMOUNT);
    LookupsDistinct(info.validators, voters);
    forall u | u in vs ensures u in active {
      var i :| 0 <= i < |vs| && vs[i] == u;
      assert OnDuty(info, voters[i]);
      var v :| v in active && v.pubkey == voters[i];
      SamePubkeySameValidator(info.validators, u, v);
    }
    forall i | 0 <= i < |active| ensures active[i].votingPower >= 0 {
      assert active[i] in active;
    }
    PowerSumOfPart(vs, active);
    PowerSumNonNegative(active);
    CoveredWhenPowerBounded(info, fee, proposer, voters);
  }

  lemma {:induction false} OthersDistinct(vs: seq<Validator>, proposer: Pubkey)
    requires DistinctKeys(vs)
    ensures DistinctKeys(Others(vs, proposer))
    ensures forall v :: v in Others(vs, proposer) ==> v in vs && v.pubkey != proposer
  {
    if vs != [] {
      var init, v := vs[..|vs| - 1], vs[|vs| - 1];
      OthersDistinct(init, proposer);
      var o := Others(init, proposer);
      forall i | 0 <= i < |o| ensures o[i].address != v.address && o[i].pubkey != v.pubkey {
        assert o[i] in o && o[i] in init;
      }
      assert vs == init + [v];
    }
  }

  lemma CreditAllKeepsOneEntry(prs: seq<PendingReward>, epoch: int, shared: Word, voted: int, others: seq<Validator>,
                               a: Address, amount: Word)
    requires OneEntryEach(prs) && DistinctKeys(others)
    requires forall u :: u in others ==> u.address != a
    ensures OneEntryEach(CreditOne(CreditShares(prs, epoch, shared, voted, others), |prs|, epoch, a, amount))
  {
    CreditSharesKeepOneEntry(prs, epoch, shared, voted, others);
    CreditSharesExtends(prs, epoch, shared, voted, others, set u | u in others :: u.address);
    CreditOneKeepsOneEntry(CreditShares(prs, epoch, shared, voted, others), |prs|, epoch, a, amount);
  }

  lemma OthersAreNotProposer(vals: seq<Validator>, voters: seq<Pubkey>, proposer: Pubkey, p: nat)
    requires DistinctKeys(vals) && DistinctVoters(voters) && LookupAll(vals, voters).Some?
    requires FindByPubkey(vals, proposer) == Some(p)
    ensures DistinctKeys(Others(LookupAll(vals, voters).value, proposer))
    ensures forall u :: u in Others(LookupAll(vals, voters).value, proposer) ==> u.address != vals[p].address
  {
    var vs := LookupAll(vals, voters).value;
    LookupsDistinct(vals, voters);
    OthersDistinct(vs, proposer);
    forall u | u in Others(vs, proposer) ensures u.address != vals[p].address {
      assert u in vs && u in vals;
      if u.address == vals[p].address {
        SameAddressSameKey(vals, u, vals[p]);
      }
    }
  }

  lemma DistributionKeepsOneEntry(info: StakingInfo, fee: Word, proposer: Pubkey, voters: seq<Pubkey>)
    requires DistinctKeys(info.validators) && Found(info, proposer, voters)
    requires OneEntryEach(info.pendingRewards) && DistinctVoters(voters)
    ensures OneEntryEach(DistributedInfo(info, fee, proposer, voters).value.pendingRewards)
  {
    var vs, p := LookupAll(info.validators, voters).value, FindByPubkey(info.validators, proposer).value;
    var others, voted := Others(vs, proposer), PowerSum(vs);
    var split := SplitFee(fee, voted, TotalPower(info));
    OthersAreNotProposer(info.validators, voters, proposer, p);
    CreditAllKeepsOneEntry(info.pendingRewards, info.currEpochNum, split.shared, voted, others,
                           info.validators[p].address, ProposerFee(split, voted, others));
  }

  lemma SameAddressSameKey(vals: seq<Validator>, u: Validator, v: Validator)
    requires DistinctKeys(vals) && u in vals && v in vals && u.address == v.address
    ensures u == v
  {
    var p :| 0 <= p < |vals| && vals[p] == u;
    var q :| 0 <= q < |vals| && vals[q] == v;
    assert !(p < q) && !(q < p);
  }

  lemma {:induction false} UnmaturedKeepOneEntry(prs: seq<PendingReward>, epoch: int)
    requires OneEntryEach(prs)
    ensures OneEntryEach(Unmatured(prs, epoch))
  {
    if prs != [] {
      var init := prs[..|prs| - 1];
      UnmaturedKeepOneEntry(init, epoch);
      UnmaturedAre(init, epoch);
      var u := Unmatured(init, epoch);
      forall i | 0 <= i < |u| ensures u[i] in init {
        assert u[i] in u;
      }
    }
  }

  lemma SwitchKeepsOneEntry(w: World, powers: map<Pubkey, int>)
    requires WellFormed(w.info) && Switches(w, powers) && OneEntryEach(w.info.pendingRewards)
    ensures OneEntryEach(SwitchEpoch(w, powers).value.info.pendingRewards)
  {
    var e := w.info.currEpochNum + 1;
    var kept := Unmatured(w.info.pendingRewards, e);
    UnmaturedKeepOneEntry(w.info.pendingRewards, e);
    UnmaturedAre(w.info.pendingRewards, e);
    forall i | 0 <= i < |kept| ensures kept[i].epochNum < e {
      assert kept[i] in kept;
    }
    SurvivorsDistinct(w.info, powers);
    ActiveAreListed(SwitchSurvivors(w.info, powers).value, MINIMUM_STAKING_AMOUNT);
  }

  ghost predicate VotersDistinctIn(step: Step) {
    step.Distribute? ==> DistinctVoters(step.voters)
  }

  /** With distinct voters there is never more than one entry per validator and epoch. */
  lemma {:induction false} RunsKeepOneEntry(w: World, steps: seq<Step>)
    requires WellFormed(w.info) && AllSteps(steps, PowersOk) && Run(w, steps).Some?
    requires OneEntryEach(w.info.pendingRewards) && AllSteps(steps, VotersDistinctIn)
    ensures OneEntryEach(Run(w, steps).value.info.pendingRewards)
  {
    if steps != [] {
      var init, step := steps[..|steps| - 1], steps[|steps| - 1];
      RunsKeepOneEntry(w, init);
      RunsKeepWellFormed(w, init);
      assert VotersDistinctIn(step);
      StepKeepsOneEntry(Run(w, init).value, step);
    }
  }

  lemma StepKeepsOneEntry(w: World, step: Step)
    requires WellFormed(w.info) && Next(w, step).Some? && VotersDistinctIn(step)
    requires OneEntryEach(w.info.pendingRewards)
    ensures OneEntryEach(Next(w, step).value.info.pendingRewards)
  {
    match step
    case External(from, value, op) => OperateKeepsWellFormed(w.info, from, value, op);
    case Distribute(payer, fee, proposer, voters) => DistributionKeepsOneEntry(w.info, fee, proposer, voters);
    case Switch(powers) => SwitchKeepsOneEntry(w, powers);
    case Punish(blackHole, pubkey, amount) =>
    case Transfer(from, to, amount) =>
  }

  // ----- Lookups never miss -----

  // The validator is listed and has a reward entry of the epoch that keeps it listed.
  ghost predicate Protected(info: StakingInfo, a: Address, pk: Pubkey, epoch: int) {
    && (exists v :: v in info.validators && v.address == a && v.pubkey == pk)
    && (exists pr :: pr in info.pendingRewards && pr.address == a && pr.epochNum == epoch)
  }

  lemma SwitchProtectsActive(w: World, powers: map<Pubkey, int>, v: Validator)
    requires WellFormed(w.info) && Switches(w, powers)
    requires v in Active(SwitchEpoch(w, powers).value.info.validators, MINIMUM_STAKING_AMOUNT)
    ensures Protected(SwitchEpoch(w, powers).value.info, v.address, v.pubkey, w.info.currEpochNum + 1)
  {
    var left := SwitchSurvivors(w.info, powers).value;
    var act := Active(left, MINIMUM_STAKING_AMOUNT);
    ActiveAreListed(left, MINIMUM_STAKING_AMOUNT);
    var i :| 0 <= i < |act| && act[i] == v;
    assert NewEntries(act, w.info.currEpochNum + 1)[i] in SwitchEpoch(w, powers).value.info.pendingRewards;
  }

  lemma EntryStays(info: StakingInfo, left: seq<Validator>, pr: PendingReward)
    requires pr in info.pendingRewards && info.currEpochNum <= pr.epochNum
    ensures pr in SwitchedInfo(info, left).pendingRewards && !Mature(pr, info.currEpochNum + 1)
  {
    UnmaturedAre(info.pendingRewards, info.currEpochNum + 1);
  }

  lemma CleanUpKeepsProtected(info: StakingInfo, powers: map<Pubkey, int>, left: seq<Validator>, a: Address, pk: Pubkey, epoch: int)
    requires CleanedUp(info, powers, left) && Protected(info, a, pk, epoch) && info.currEpochNum <= epoch
    ensures Protected(SwitchedInfo(info, left), a, pk, epoch)
  {
    var v :| v in info.validators && v.address == a && v.pubkey == pk;
    var i :| 0 <= i < |info.validators| && info.validators[i] == v;
    var pr :| pr in info.pendingRewards && pr.address == a && pr.epochNum == epoch;
    EntryStays(info, left, pr);
    RewardedStayListed(info, powers, left, i, pr);
    assert Repowered(v, powers) in SwitchedInfo(info, left).validators;
  }

  lemma SwitchKeepsProtected(w: World, powers: map<Pubkey, int>, a: Address, pk: Pubkey, epoch: int)
    requires WellFormed(w.info) && Switches(w, powers) && Protected(w.info, a, pk, epoch)
    requires w.info.currEpochNum <= epoch
    ensures Protected(SwitchEpoch(w, powers).value.info, a, pk, epoch)
  {
    SurvivorsCleanedUp(w.info, powers);
    CleanUpKeepsProtected(w.info, powers, SwitchSurvivors(w.info, powers).value, a, pk, epoch);
  }

  lemma DistributeKeepsProtected(w: World, step: Step, a: Address, pk: Pubkey, epoch: int)
    requires step.Distribute? && Next(w, step).Some? && Protected(w.info, a, pk, epoch)
    ensures Protected(Next(w, step).value.info, a, pk, epoch)
  {
    DistributedExtends(w.info, step.fee, step.proposer, step.voters);
    var pr :| pr in w.info.pendingRewards && pr.address == a && pr.epochNum == epoch;
    var i :| 0 <= i < |w.info.pendingRewards| && w.info.pendingRewards[i] == pr;
    assert Next(w, step).value.info.pendingRewards[i] in Next(w, step).value.info.pendingRewards;
  }

  lemma ExternalKeepsProtected(info: StakingInfo, from: Address, value: Word, op: Operation, a: Address, pk: Pubkey, epoch: int)
    requires WellFormed(info) && Protected(info, a, pk, epoch)
    ensures Protected(OperateOnInfo(info, from, value, op).0, a, pk, epoch)
  {
    OperateKeepsWellFormed(info, from, value, op);
    var v :| v in info.validators && v.address == a && v.pubkey == pk;
  }

  lemma StepKeepsProtected(w: World, step: Step, a: Address, pk: Pubkey, epoch: int)
    requires WellFormed(w.info) && Next(w, step).Some? && Protected(w.info, a, pk, epoch)
    requires step.Switch? ==> w.info.currEpochNum <= epoch
    ensures Protected(Next(w, step).value.info, a, pk, epoch)
  {
    match step
    case External(from, value, op) => ExternalKeepsProtected(w.info, from, value, op, a, pk, epoch);
    case Distribute(payer, fee, proposer, voters) => DistributeKeepsProtected(w, step, a, pk, epoch);
    case Switch(powers) => SwitchKeepsProtected(w, powers, a, pk, epoch);
    case Punish(blackHole, pubkey, amount) =>
    case Transfer(from, to, amount) =>
  }

  lemma EpochAdvances(w: World, step: Step)
    requires Next(w, step).Some?
    ensures Next(w, step).value.info.currEpochNum == w.info.currEpochNum + if step.Switch? then 1 else 0
  {
  }

  lemma {:induction false} RunsKeepProtected(w: World, steps: seq<Step>, a: Address, pk: Pubkey, epoch: int)
    requires WellFormed(w.info) && AllSteps(steps, PowersOk) && Run(w, steps).Some? && Protected(w.info, a, pk, epoch)
    requires Run(w, steps).value.info.currEpochNum <= epoch + 1
    ensures Protected(Run(w, steps).value.info, a, pk, epoch)
  {
    if steps != [] {
      var init, step := steps[..|steps| - 1], steps[|steps| - 1];
      RunsKeepWellFormed(w, init);
      EpochAdvances(Run(w, init).value, step);
      RunsKeepProtected(w, init, a, pk, epoch);
      StepKeepsProtected(Run(w, init).value, step, a, pk, epoch);
    }
  }

  /** Every validator that the switch into an epoch returns as active stays listed, with the
      same address and public key, through every run up to and past the next switch. */
  lemma ActiveStayListed(w: World, powers: map<Pubkey, int>, steps: seq<Step>, v: Validator)
    requires WellFormed(w.info) && Switches(w, powers) && NonNegativePowers(powers) && AllSteps(steps, PowersOk)
    requires var w0 := SwitchEpoch(w, powers).value;
      && v in Active(w0.info.validators, MINIMUM_STAKING_AMOUNT) && Run(w0, steps).Some?
      && Run(w0, steps).value.info.currEpochNum <= w0.info.currEpochNum + 1
    ensures Protected(Run(SwitchEpoch(w, powers).value, steps).value.info, v.address, v.pubkey, w.info.currEpochNum + 1)
    ensures FindByPubkey(Run(SwitchEpoch(w, powers).value, steps).value.info.validators, v.pubkey).Some?
    ensures FindByAddr(Run(SwitchEpoch(w, powers).value, steps).value.info.validators, v.address).Some?
  {
    var w0 := SwitchEpoch(w, powers).value;
    SwitchProtectsActive(w, powers, v);
    SwitchKeepsWellFormed(w, powers);
    RunsKeepProtected(w0, steps, v.address, v.pubkey, w0.info.currEpochNum);
    ProtectedFound(Run(w0, steps).value.info, v.address, v.pubkey, w0.info.currEpochNum);
  }

  lemma ProtectedFound(info: StakingInfo, a: Address, pk: Pubkey, epoch: int)
    requires Protected(info, a, pk, epoch)
    ensures FindByPubkey(info.validators, pk).Some? && FindByAddr(info.validators, a).Some?
  {
    var v :| v in info.validators && v.address == a && v.pubkey == pk;
    var i :| 0 <= i < |info.validators| && info.validators[i] == v;
  }

  // The lookups of DistributeFee do not miss exactly when every single voter is listed.
  lemma {:induction false} VotersFound(vals: seq<Validator>, voters: seq<Pubkey>)
    ensures LookupAll(vals, voters).Some? <==> forall i :: 0 <= i < |voters| ==> FindByPubkey(vals, voters[i]).Some?
  {
    if voters != [] {
      var n := |voters| - 1;
      VotersFound(vals, voters[..n]);
      if LookupAll(vals, voters).Some? {
        forall i | 0 <= i < |voters| ensures FindByPubkey(vals, voters[i]).Some? {
          assert i < n ==> FindByPubkey(vals, voters[..n][i]).Some?;
        }
      }
    }
  }

  // ----- Voters of the last two switches -----

  lemma {:induction false} RunConcat(w: World, a: seq<Step>, b: seq<Step>)
    ensures Run(w, a + b) == if Run(w, a).None? then None else Run(Run(w, a).value, b)
  {
    if b == [] {
      assert a + b == a;
    } else {
      assert (a + b)[..|a + b| - 1] == a + b[..|b| - 1];
      RunConcat(w, a, b[..|b| - 1]);
    }
  }

  lemma {:induction false} EpochsGrow(w: World, steps: seq<Step>)
    requires Run(w, steps).Some?
    ensures w.info.currEpochNum <= Run(w, steps).value.info.currEpochNum
  {
    if steps != [] {
      EpochsGrow(w, steps[..|steps| - 1]);
      EpochAdvances(Run(w, steps[..|steps| - 1]).value, steps[|steps| - 1]);
    }
  }

  // The k-th step of the run is a switch that returns a validator with the key as active.
  ghost predicate ReturnedBy(w: World, steps: seq<Step>, k: nat, pk: Pubkey)
    requires k < |steps|
  {
    steps[k].Switch? && Run(w, steps[..k + 1]).Some? && OnDuty(Run(w, steps[..k + 1]).value.info, pk)
  }

  // One of the last two switches of the run returned the key as active.
  ghost predicate ReturnedActive(w: World, steps: seq<Step>, pk: Pubkey)
    requires Run(w, steps).Some?
  {
    exists k :: 0 <= k < |steps| && ReturnedBy(w, steps, k, pk)
      && Run(w, steps).value.info.currEpochNum <= Run(w, steps[..k + 1]).value.info.currEpochNum + 1
  }

  lemma ReturnedStayListed(w: World, before: seq<Step>, powers: map<Pubkey, int>, after: seq<Step>, pk: Pubkey)
    requires WellFormed(w.info) && AllSteps(before, PowersOk) && NonNegativePowers(powers) && AllSteps(after, PowersOk)
    requires Run(w, before).Some? && SwitchEpoch(Run(w, before).value, powers).Some?
    requires var w1 := SwitchEpoch(Run(w, before).value, powers).value;
      OnDuty(w1.info, pk) && Run(w1, after).Some? && Run(w1, after).value.info.currEpochNum <= w1.info.currEpochNum + 1
    ensures FindByPubkey(Run(SwitchEpoch(Run(w, before).value, powers).value, after).value.info.validators, pk).Some?
  {
    RunsKeepWellFormed(w, before);
    var w1 := SwitchEpoch(Run(w, before).value, powers).value;
    var v :| v in Active(w1.info.validators, MINIMUM_STAKING_AMOUNT) && v.pubkey == pk;
    ActiveStayListed(Run(w, before).value, powers, after, v);
  }

  lemma RunSplit(w: World, steps: seq<Step>, k: nat)
    requires k < |steps| && Run(w, steps).Some?
    ensures Run(w, steps[..k]).Some? && Next(Run(w, steps[..k]).value, steps[k]).Some?
    ensures Run(w, steps[..k + 1]) == Next(Run(w, steps[..k]).value, steps[k])
    ensures Run(w, steps) == Run(Run(w, steps[..k + 1]).value, steps[k + 1..])
  {
    assert steps[..k + 1][..k] == steps[..k] && steps == steps[..k + 1] + steps[k + 1..];
    RunConcat(w, steps[..k + 1], steps[k + 1..]);
  }

  lemma StepsOf(steps: seq<Step>, k: nat)
    requires k < |steps| && AllSteps(steps, PowersOk)
    ensures AllSteps(steps[..k], PowersOk) && PowersOk(steps[k]) && AllSteps(steps[k + 1..], PowersOk)
  {
  }

  lemma ReturnedAreListed(w: World, steps: seq<Step>, pk: Pubkey)
    requires WellFormed(w.info) && AllSteps(steps, PowersOk) && Run(w, steps).Some? && ReturnedActive(w, steps, pk)
    ensures FindByPubkey(Run(w, steps).value.info.validators, pk).Some?
  {
    var k :| 0 <= k < |steps| && ReturnedBy(w, steps, k, pk)
      && Run(w, steps).value.info.currEpochNum <= Run(w, steps[..k + 1]).value.info.currEpochNum + 1;
    RunSplit(w, steps, k);
    StepsOf(steps, k);
    ReturnedStayListed(w, steps[..k], steps[k].powers, steps[k + 1..], pk);
  }

  /** Fees can be distributed among validators of the last two switches: on every run, if the
      proposer and each voter was returned active by the last switch or the one before it, no
      lookup of DistributeFee misses. */
  lemma FeeLookupsNeverMiss(w: World, steps: seq<Step>, proposer: Pubkey, voters: seq<Pubkey>)
    requires WellFormed(w.info) && AllSteps(steps, PowersOk) && Run(w, steps).Some?
    requires ReturnedActive(w, steps, proposer)
    requires forall i :: 0 <= i < |voters| ==> ReturnedActive(w, steps, voters[i])
    ensures Found(Run(w, steps).value.info, proposer, voters)
    ensures forall payer, fee :: Run(w, steps + [Distribute(payer, fee, proposer, voters)]).Some?
  {
    ReturnedAreListed(w, steps, proposer);
    var info := Run(w, steps).value.info;
    forall i | 0 <= i < |voters| ensures FindByPubkey(info.validators, voters[i]).Some? {
      ReturnedAreListed(w, steps, voters[i]);
    }
    VotersFound(info.validators, voters);
    forall payer, fee ensures Run(w, steps + [Distribute(payer, fee, proposer, voters)]).Some? {
      assert (steps + [Distribute(payer, fee, proposer, voters)])[..|steps|] == steps;
    }
  }

  // ----- Validators on duty that no switch has returned -----

  // The switch gives the validator power, or it has a reward that is not paid yet.
  ghost predicate Needed(info: StakingInfo, powers: map<Pubkey, int>, v: Validator) {
    || Repowered(v, powers).votingPower != 0
    || exists pr :: pr in info.pendingRewards && pr.address == v.address && !Mature(pr, info.currEpochNum + 1)
  }

  lemma UselessExactly(info: StakingInfo, powers: map<Pubkey, int>, i: nat)
    requires DistinctKeys(info.validators) && i < |info.validators|
    ensures info.validators[i].address in UselessIn(info, powers) <==> !Needed(info, powers, info.validators[i])
  {
    var mid, v := RepoweredInfo(info, powers), info.validators[i];
    UnmaturedAre(info.pendingRewards, info.currEpochNum + 1);
    assert mid.validators[i] in mid.validators;
    forall u | u in mid.validators && u.address == v.address ensures u == mid.validators[i] {
      RepoweredKeepsKeys(info, powers);
      SameAddressSameKey(mid.validators, u, mid.validators[i]);
    }
  }

  lemma SamePubkeySameValidator(vals: seq<Validator>, u: Validator, v: Validator)
    requires DistinctKeys(vals) && u in vals && v in vals && u.pubkey == v.pubkey
    ensures u == v
  {
    var p :| 0 <= p < |vals| && vals[p] == u;
    var q :| 0 <= q < |vals| && vals[q] == v;
    assert !(p < q) && !(q < p);
  }

  lemma NeededStays(info: StakingInfo, powers: map<Pubkey, int>, left: seq<Validator>, i: nat)
    requires DistinctKeys(info.validators) && CleanedUp(info, powers, left) && i < |info.validators|
    requires Needed(info, powers, info.validators[i])
    ensures FindByPubkey(left, info.validators[i].pubkey).Some?
  {
    var v' := RepoweredInfo(info, powers).validators[i];
    assert v' in RepoweredInfo(info, powers).validators;
    UselessExactly(info, powers, i);
    var k :| 0 <= k < |left| && left[k] == v';
  }

  lemma UnneededGoes(info: StakingInfo, powers: map<Pubkey, int>, i: nat)
    requires DistinctKeys(info.validators) && i < |info.validators| && !Needed(info, powers, info.validators[i])
    ensures FindByPubkey(RangeDelete.Kept(RepoweredInfo(info, powers).validators, IsUseless(UselessIn(info, powers))),
                         info.validators[i].pubkey).None?
  {
    var vals, useless := RepoweredInfo(info, powers).validators, IsUseless(UselessIn(info, powers));
    var left, k := RangeDelete.Kept(vals, useless), FindByPubkey(RangeDelete.Kept(vals, useless), vals[i].pubkey);
    UselessExactly(info, powers, i);
    RangeDelete.KeptAre(vals, useless);
    if k.Some? {
      assert left[k.value] in left && vals[i] in vals;
      RepoweredKeepsKeys(info, powers);
      SamePubkeySameValidator(vals, left[k.value], vals[i]);
    }
  }

  /** A needed validator, whether or not a switch ever returned it as active, is listed after the
      next switch; one that is not needed is gone unless a useless neighbour saved it.  Losing it
      while it is on duty makes the next distribution that names it panic. */
  lemma LostAtSwitch(w: World, powers: map<Pubkey, int>, i: nat)
    requires WellFormed(w.info) && Switches(w, powers) && i < |w.info.validators|
    ensures var info, v := SwitchEpoch(w, powers).value.info, w.info.validators[i];
            var vals, useless := RepoweredInfo(w.info, powers).validators, IsUseless(UselessIn(w.info, powers));
      && (Needed(w.info, powers, v) ==> FindByPubkey(info.validators, v.pubkey).Some?)
      && (RangeDelete.NoUselessNeighbours(vals, useless) ==>
            (FindByPubkey(info.validators, v.pubkey).Some? <==> Needed(w.info, powers, v)))
  {
    var left := SwitchSurvivors(w.info, powers).value;
    if Needed(w.info, powers, w.info.validators[i]) {
      SurvivorsCleanedUp(w.info, powers);
      NeededStays(w.info, powers, left, i);
    } else {
      UnneededGoes(w.info, powers, i);
    }
    if RangeDelete.NoUselessNeighbours(RepoweredInfo(w.info, powers).validators, IsUseless(UselessIn(w.info, powers))) {
      NoLeakWithoutNeighbours(w.info, powers);
    }
  }

  lemma MissingVoterPanics(w: World, proposer: Pubkey, voters: seq<Pubkey>, i: nat, fee: Word)
    requires i < |voters| && FindByPubkey(w.info.validators, voters[i]).None?
    ensures DistributeFee(w, fee, proposer, voters).None?
  {
    VotersFound(w.info.validators, voters);
  }
}
