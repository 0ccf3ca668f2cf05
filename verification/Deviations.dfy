/** Concrete inputs on which the code does not do what is intended.  The exact conditions are in
    RangeDelete.DeleteIsFilterExactly, FeeSplit.ExtraFeeFitsExactly, Distribution.CreditsFeeExactly,
    EpochSwitch.SwitchConservesExactly and Rewards.LostAtSwitch. */
module Deviations {
  import opened Words
  import opened StakingTypes
  import opened ActiveValidators
  import opened Accounts
  import opened FeeSplit
  import opened Staking
  import opened Solvency
  import opened Distribution
  import opened StakingRuns
  import opened Rewards
  import RangeDelete

  function Idle(a: Address, coins: Word): Validator {
    Validator(a, a, a, 0, [], coins, false)
  }

  // One idle validator with a stake of 1000, and the contract holding b coins.
  function IdleWorld(b: Word): World {
    World(map[STAKING_CONTRACT := b], StakingInfo(0, [Idle(7, 1000)], []), 0)
  }

  lemma IdleOwed(b: Word)
    ensures Excess(IdleWorld(b)) == b - 1000
    ensures TotalSlashed(IdleWorld(b).info, 7, 10) == 10
  {
    var v := Idle(7, 1000);
    assert [v][..0] == [];
    assert FindByPubkey([v], 7) == Some(0);
  }

  lemma IdleIsRefunded(powers: map<Pubkey, int>)
    requires powers == map[]
    ensures SwitchPayments(IdleWorld(0).info) == Some([])
    ensures SwitchRefunds(IdleWorld(0).info, powers) == [Payment(7, 1000)]
    ensures SwitchSurvivors(IdleWorld(0).info, powers) == Some([])
  {
    var v := Idle(7, 1000);
    var mid := RepoweredInfo(IdleWorld(0).info, powers);
    assert mid.validators == [v] && v in mid.validators;
    assert UselessAddresses(mid) == {7};
    assert [v][1..] == [];
    assert Refunds([v], {7}) == [Payment(7, 1000)] + Refunds([], {7});
    RangeDelete.DeleteResult([v], IsUseless({7}));
  }

  lemma RefundOverdraws(w: World, powers: map<Pubkey, int>)
    requires SwitchPayments(w.info) == Some([]) && SwitchRefunds(w.info, powers) == [Payment(7, 1000)]
    requires SwitchSurvivors(w.info, powers) == Some([])
    requires BalanceOf(w.accounts, STAKING_CONTRACT) == 990 && 7 !in w.accounts
    ensures SwitchEpoch(w, powers).Some?
    ensures BalanceOf(SwitchEpoch(w, powers).value.accounts, STAKING_CONTRACT) == WORD - 10
    ensures BalanceOf(SwitchEpoch(w, powers).value.accounts, 7) == 1000
  {
    var p := Payment(7, 1000);
    assert [p][..0] == [];
    assert Total([p]) == Total([]) + 1000;
    assert PayAll(w.accounts, [p]) == Credited(PayAll(w.accounts, []), 7, 1000);
  }

  /** Slash does not write back the info it edits: the slashed validator later gets its whole
      stake refunded, and the staking account's balance wraps around. */
  lemma SlashedStakeIsRefundedInFull(blackHole: Address, w1: World)
    requires blackHole != STAKING_CONTRACT && blackHole != 7
    requires w1 == Slash(IdleWorld(1000), blackHole, 7, 10)
    ensures Excess(IdleWorld(1000)) == 0 && Excess(w1) == -10
    ensures SwitchEpoch(w1, map[]).Some?
    ensures BalanceOf(SwitchEpoch(w1, map[]).value.accounts, STAKING_CONTRACT) == WORD - 10
    ensures BalanceOf(SwitchEpoch(w1, map[]).value.accounts, 7) == 1000
  {
    IdleOwed(1000);
    IdleIsRefunded(map[]);
    assert w1.info == IdleWorld(0).info;
    assert BalanceOf(w1.accounts, STAKING_CONTRACT) == 990 && 7 !in w1.accounts;
    RefundOverdraws(w1, map[]);
  }

  /** Of two useless neighbours the second one escapes the deletion loop. */
  lemma SecondNeighbourStaysListed(a: Validator, b: Validator, c: Validator, useless: set<Address>)
    requires a.address in useless && b.address in useless && c.address !in useless
    ensures RangeDelete.Delete([a, b, c], IsUseless(useless)) == Some([b, c])
    ensures RangeDelete.Kept([a, b, c], IsUseless(useless)) == [c]
  {
    var u, s := IsUseless(useless), [a, b, c];
    RangeDelete.DeleteResult(s, u);
    assert s[2..] == [c] && s[1..] == [b, c] && [b, c][1..] == [c] && [c][1..] == [];
    assert RangeDelete.Survivors([c], u) == [c] + RangeDelete.Survivors([], u);
    assert RangeDelete.Survivors(s, u) == [b] + RangeDelete.Survivors([c], u) == [b, c];
    assert s[|s| - 1] == c && !RangeDelete.Panics(s, u);
    assert RangeDelete.Kept([c], u) == [c] + RangeDelete.Kept([], u);
  }

  /** Two useless validators, the last one among them, make the loop panic. */
  lemma UselessLastPanics(a: Validator, b: Validator, c: Validator, useless: set<Address>)
    requires a.address in useless && c.address in useless
    ensures RangeDelete.Delete([a, b, c], IsUseless(useless)) == None
  {
    RangeDelete.DeleteResult([a, b, c], IsUseless(useless));
    assert IsUseless(useless)([a, b, c][0]);
  }

  function OnDutyWith(a: Address, power: int, retiring: bool): Validator {
    Validator(a, a, a, power, [], MINIMUM_STAKING_AMOUNT, retiring)
  }

  // One validator on duty with power 1, and one with power 100 that is retiring.
  function RetiringInfo(): StakingInfo {
    StakingInfo(0, [OnDutyWith(1, 1, false), OnDutyWith(2, 100, true)], [])
  }

  const BOTH: seq<Pubkey> := [1, 2]

  // A single eligible validator, whoever else is listed behind it, is the only one on duty.
  lemma OnlyEligible(a: Validator, others: seq<Validator>, minStaked: Word)
    requires Eligible(a, minStaked) && |others| <= 1 && forall v :: v in others ==> !Eligible(v, minStaked)
    ensures Active([a] + others, minStaked) == [a]
  {
    assert [a][..0] == [];
    assert EligibleOf([a], minStaked) == EligibleOf([], minStaked) + [a];
    assert [a] + [] == [a];
    assert others != [] ==> ([a] + others)[..1] == [a];
    assert StableSort([a]) == InsertByPower(StableSort([]), a) == [a];
  }

  lemma RetiringTotal()
    ensures TotalPower(RetiringInfo()) == 1
  {
    var a, b := OnDutyWith(1, 1, false), OnDutyWith(2, 100, true);
    OnlyEligible(a, [b], MINIMUM_STAKING_AMOUNT);
    assert [a] + [b] == [a, b];
    assert [a][..0] == [];
    assert PowerSum([a]) == PowerSum([]) + 1;
  }

  lemma RetiringLookups()
    ensures LookupAll(RetiringInfo().validators, BOTH) == Some(RetiringInfo().validators)
    ensures FindByPubkey(RetiringInfo().validators, 1) == Some(0)
  {
    var a, b := OnDutyWith(1, 1, false), OnDutyWith(2, 100, true);
    var vals := [a, b];
    assert vals[0].pubkey == 1 && vals[1].pubkey == 2;
    assert FindByPubkey(vals, 1) == Some(0) && FindByPubkey(vals, 2) == Some(1);
    VotersFound(vals, BOTH);
    var r := LookupAll(vals, BOTH).value;
    assert r[0] in vals && r[1] in vals;
    assert r == [a, b];
  }

  lemma RetiringOthers()
    ensures PowerSum(RetiringInfo().validators) == 101
    ensures Others(RetiringInfo().validators, 1) == [OnDutyWith(2, 100, true)]
  {
    var a, b := OnDutyWith(1, 1, false), OnDutyWith(2, 100, true);
    assert [a, b][..1] == [a] && [a][..0] == [];
    assert PowerSum([a]) == PowerSum([]) + 1;
    assert Others([a], 1) == Others([], 1) == [];
    assert Others([a, b], 1) == [] + [b];
  }

  lemma OneShare(shared: Word, voted: int, v: Validator)
    ensures ShareSum(shared, voted, [v]) == Share(shared, voted, v.votingPower)
    ensures SelectedShares(shared, voted, [v], 0, Only(v.address, 0)) == Share(shared, voted, v.votingPower)
  {
    assert [v][..0] == [];
    assert ShareSum(shared, voted, []) == 0;
    assert SelectedShares(shared, voted, [], 0, Only(v.address, 0)) == 0;
  }

  // What a call with one other voter credits to it.
  lemma OneOther(info: StakingInfo, fee: Word, proposer: Pubkey, voters: seq<Pubkey>, vs: seq<Validator>, v: Validator)
    returns (share: Word)
    requires info.currEpochNum == 0 && Found(info, proposer, voters) && LookupAll(info.validators, voters) == Some(vs)
    requires Others(vs, proposer) == [v]
    ensures share == Share(SplitFee(fee, PowerSum(vs), TotalPower(info)).shared, PowerSum(vs), v.votingPower)
    ensures CreditedTo(info, fee, proposer, voters, Only(v.address, 0)) >= share
    ensures SharesOf(info, fee, proposer, voters) == share
  {
    var shared := SplitFee(fee, PowerSum(vs), TotalPower(info)).shared;
    share := Share(shared, PowerSum(vs), v.votingPower);
    OneShare(shared, PowerSum(vs), v);
  }

  /** Retiring validators still vote but no longer count as active: with power 1 on duty and 100
      retiring, the extra fee of a block that both voted for exceeds the fee itself, the
      subtraction wraps around and the retiring voter alone is credited more than the fee. */
  lemma RetiringVotersOvercharge(fee: Word)
    requires fee == 10000
    ensures Found(RetiringInfo(), 1, BOTH) && DistributedInfo(RetiringInfo(), fee, 1, BOTH).Some?
    ensures CreditedTo(RetiringInfo(), fee, 1, BOTH, Only(2, 0)) > fee
    ensures !SharesCovered(RetiringInfo(), fee, 1, BOTH)
  {
    RetiringTotal();
    RetiringLookups();
    RetiringOthers();
    OverchargedShare();
    RetiringCredit(fee, 101, 1, BOTH);
  }

  lemma RetiringCredit(fee: Word, voted: int, total: int, voters: seq<Pubkey>)
    requires LookupAll(RetiringInfo().validators, voters) == Some(RetiringInfo().validators)
    requires FindByPubkey(RetiringInfo().validators, 1) == Some(0)
    requires voted == PowerSum(RetiringInfo().validators) && total == TotalPower(RetiringInfo())
    requires Others(RetiringInfo().validators, 1) == [OnDutyWith(2, 100, true)]
    requires Share(SplitFee(fee, voted, total).shared, voted, 100) > fee
    ensures Found(RetiringInfo(), 1, voters) && DistributedInfo(RetiringInfo(), fee, 1, voters).Some?
    ensures CreditedTo(RetiringInfo(), fee, 1, voters, Only(2, 0)) > fee
    ensures !SharesCovered(RetiringInfo(), fee, 1, voters)
  {
    var share := OneOther(RetiringInfo(), fee, 1, voters, RetiringInfo().validators, OnDutyWith(2, 100, true));
  }

  lemma BaseOfFee()
    ensures BaseFee(10000) == 1500
  {
    MulIs(10000, 15);
    DivIs(150000, 100);
  }

  lemma ExtraOfRest(voted: Word, percent: Word, divisor: Word)
    requires voted == 101 && percent == EXTRA_PROPOSER_PERCENTAGE && divisor == 100
    ensures Mul(Mul(8500, percent), voted) == 12877500 && Div(12877500, divisor) == 128775
  {
    MulIs(8500, percent);
    MulIs(127500, voted);
    DivIs(12877500, divisor);
  }

  lemma WrappedShare(shared: Word, power: Word, voted: Word)
    requires shared == WORD - 120275 && power == 100 && voted == 101
    ensures Div(Mul(shared, power), voted) > 10000
  {
    MulIs(shared, power);
    assert shared * power == 99 * WORD + (WORD - 12027500);
    DivIs(WORD - 12027500, voted);
  }

  lemma OverchargedShare()
    ensures !ExtraFits(10000, 101, 1)
    ensures Share(SplitFee(10000, 101, 1).shared, 101, 100) > 10000
  {
    BaseOfFee();
    ExtraOfRest(101, EXTRA_PROPOSER_PERCENTAGE, 100);
    assert SplitFee(10000, 101, 1).shared == WORD - 120275;
    WrappedShare(WORD - 120275, 100, 101);
  }

  // A chain that starts with one validator, which is on duty without any reward entry.
  function SoloGenesis(): World {
    GenesisWorld(map[STAKING_CONTRACT := 0], [OnDutyWith(7, 1, false)])
  }

  // A single validator without power and without entries leaves at a switch, and is refunded.
  lemma SoloLeaves(info: StakingInfo, u: Validator, v: Validator, powers: map<Pubkey, int>)
    requires info.validators == [u] && info.pendingRewards == [] && v == Repowered(u, powers) && v.votingPower == 0
    ensures SwitchPayments(info) == Some([])
    ensures SwitchRefunds(info, powers) == [Payment(v.rewardTo, v.stakedCoins)]
    ensures SwitchSurvivors(info, powers) == Some([])
  {
    var mid, useless := RepoweredInfo(info, powers), {v.address};
    assert mid.validators == [v] && v in mid.validators;
    assert UselessAddresses(mid) == useless;
    assert [v][1..] == [];
    assert Refunds([v], useless) == [Payment(v.rewardTo, v.stakedCoins)] + Refunds([], useless);
    RangeDelete.DeleteResult([v], IsUseless(useless));
  }

  lemma SoloIsLeftOut()
    ensures WellFormed(SoloGenesis().info) && SwitchPayments(SoloGenesis().info) == Some([])
    ensures SwitchRefunds(SoloGenesis().info, map[]) == [Payment(7, MINIMUM_STAKING_AMOUNT)]
    ensures SwitchSurvivors(SoloGenesis().info, map[]) == Some([])
  {
    SoloLeaves(SoloGenesis().info, OnDutyWith(7, 1, false), OnDutyWith(7, 0, false), map[]);
  }

  lemma SoloOnDuty()
    ensures OnDuty(SoloGenesis().info, 7)
  {
    var v := OnDutyWith(7, 1, false);
    OnlyEligible(v, [], MINIMUM_STAKING_AMOUNT);
    assert [v] + [] == [v] && v in Active(SoloGenesis().info.validators, MINIMUM_STAKING_AMOUNT);
  }

  /** Genesis validators are on duty before any switch has given them a reward entry.  If the
      first switch comes before a distribution and brings no nomination, the validator is
      removed, its refund overdraws the empty staking account, and the distribution of the fee
      of the block it has just proposed panics. */
  lemma GenesisValidatorIsLost(fee: Word) returns (w: World)
    ensures SwitchEpoch(SoloGenesis(), map[]) == Some(w)
    ensures OnDuty(SoloGenesis().info, 7) && !Needed(SoloGenesis().info, map[], OnDutyWith(7, 1, false))
    ensures BalanceOf(w.accounts, STAKING_CONTRACT) == WORD - MINIMUM_STAKING_AMOUNT
    ensures DistributeFee(w, fee, 7, [7]).None?
  {
    SoloOnDuty();
    SoloIsLeftOut();
    var p := Payment(7, MINIMUM_STAKING_AMOUNT);
    assert [p][..0] == [];
    assert Total([p]) == Total([]) + MINIMUM_STAKING_AMOUNT;
    w := SwitchEpoch(SoloGenesis(), map[]).value;
    assert w.info.validators == [];
    MissingVoterPanics(w, 7, [7], 0, fee);
  }
}
