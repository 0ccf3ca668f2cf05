/** The steps of the staking contract as functions on the part of the world state they see
    (staking/staking.go).  None is a run-time panic of the original. */
module Staking {
  import opened Words
  import opened StakingTypes
  import opened ActiveValidators
  import opened Accounts
  import opened FeeSplit
  import RangeDelete

  const STAKING_CONTRACT: Address := 0x2710
  const COIN: nat := 1_000_000_000_000_000_000
  const INITIAL_STAKING_AMOUNT: Word := 1000 * COIN
  const MINIMUM_STAKING_AMOUNT: Word := 800 * COIN
  const EPOCH_COUNT_BEFORE_REWARD_MATURE: int := 1

  datatype World = World(accounts: Balances, info: StakingInfo, allBurnt: Word)

  // ----- createValidator, editValidator, retire -----

  datatype Operation =
    | CreateValidator(rewardTo: Address, intro: seq<Byte>, pubkey: Pubkey)
    | EditValidator(rewardTo: Address, intro: seq<Byte>)
    | Retire

  datatype Outcome =
    | Success
    | BalanceNotEnough
    | LessThanInitialAmount
    | AlreadyListed(error: AddError)
    | NoSuchValidator

  function EditedValidator(v: Validator, value: Word, op: Operation): (r: Validator)
    ensures r.address == v.address && r.pubkey == v.pubkey && r.votingPower == v.votingPower
  {
    var v1 := if op.EditValidator? && op.rewardTo != 0 then v.(rewardTo := op.rewardTo) else v;
    var v2 := if op.EditValidator? && op.intro != [] then v1.(introduction := op.intro) else v1;
    var v3 := v2.(stakedCoins := Add(v2.stakedCoins, value));
    if op.Retire? then v3.(isRetiring := true) else v3
  }

  function OperateOnInfo(info: StakingInfo, from: Address, value: Word, op: Operation): (StakingInfo, Outcome) {
    if op.CreateValidator? then
      if value <= INITIAL_STAKING_AMOUNT then (info, LessThanInitialAmount)
      else
        var clash := AddClash(info.validators, from, op.pubkey);
        if clash.Some? then (info, AlreadyListed(clash.value))
        else
          (info.(validators := info.validators + [NewValidator(from, op.pubkey, op.intro, value, op.rewardTo)]), Success)
    else
      var i := FindByAddr(info.validators, from);
      if i.None? then (info, NoSuchValidator)
      else
        var v := EditedValidator(info.validators[i.value], value, op);
        (info.(validators := info.validators[i.value := v]), Success)
  }

  function Moved(m: Balances, from: Address, to: Address, amount: Word): Balances {
    var m' := m[from := Sub(BalanceOf(m, from), amount)];
    m'[to := Add(BalanceOf(m', to), amount)]
  }

  function ExternalOp(w: World, from: Address, value: Word, op: Operation): (World, Outcome) {
    if BalanceOf(w.accounts, from) < value then (w, BalanceNotEnough)
    else
      var (info, outcome) := OperateOnInfo(w.info, from, value, op);
      if outcome != Success then (w, outcome)
      else
        var accounts := if value == 0 then w.accounts else Moved(w.accounts, from, STAKING_CONTRACT, value);
        (w.(info := info, accounts := accounts), Success)
  }

  // ----- DistributeFee -----

  function LookupAll(vals: seq<Validator>, keys: seq<Pubkey>): (r: Option<seq<Validator>>)
    ensures r.Some? ==> |r.value| == |keys|
    ensures r.Some? ==> forall i :: 0 <= i < |keys| ==> r.value[i] in vals && r.value[i].pubkey == keys[i]
  {
    if keys == [] then Some([])
    else
      var r, i := LookupAll(vals, keys[..|keys| - 1]), FindByPubkey(vals, keys[|keys| - 1]);
      if r.None? || i.None? then None else Some(r.value + [vals[i.value]])
  }

  function Others(vals: seq<Validator>, proposer: Pubkey): seq<Validator> {
    if vals == [] then []
    else
      var n := |vals| - 1;
      if vals[n].pubkey == proposer then Others(vals[..n], proposer) else Others(vals[..n], proposer) + [vals[n]]
  }

  // Add to the entry that was listed among the first k, or append a new entry.
  function CreditOne(prs: seq<PendingReward>, k: nat, epoch: int, a: Address, amount: Word): (r: seq<PendingReward>)
    requires k <= |prs|
    ensures |prs| <= |r|
  {
    var i := FindReward(prs[..k], epoch, a);
    if i.Some? then prs[i.value := prs[i.value].(amount := Add(prs[i.value].amount, amount))]
    else prs + [PendingReward(a, epoch, amount)]
  }

  function CreditShares(prs: seq<PendingReward>, epoch: int, shared: Word, voted: int, others: seq<Validator>)
    : (r: seq<PendingReward>)
    ensures |prs| <= |r|
  {
    if others == [] then prs
    else
      var n := |others| - 1;
      CreditOne(CreditShares(prs, epoch, shared, voted, others[..n]), |prs|, epoch,
                others[n].address, Share(shared, voted, others[n].votingPower))
  }

  function TotalPower(info: StakingInfo): int {
    PowerSum(Active(info.validators, MINIMUM_STAKING_AMOUNT))
  }

  // What the proposer gets: base fee, extra fee and the rounding remainder.
  function ProposerFee(split: Split, voted: int, others: seq<Validator>): Word {
    Add(Add(split.base, split.extra), Remainder(split.shared, voted, others))
  }

  function DistributedInfo(info: StakingInfo, fee: Word, proposer: Pubkey, voters: seq<Pubkey>): Option<StakingInfo> {
    var vs, p := LookupAll(info.validators, voters), FindByPubkey(info.validators, proposer);
    if vs.None? || p.None? then None
    else
      var voted := PowerSum(vs.value);
      var split := SplitFee(fee, voted, TotalPower(info));
      var others := Others(vs.value, proposer);
      var prs := CreditShares(info.pendingRewards, info.currEpochNum, split.shared, voted, others);
      Some(info.(pendingRewards :=
        CreditOne(prs, |info.pendingRewards|, info.currEpochNum, info.validators[p.value].address,
                  ProposerFee(split, voted, others))))
  }

  function DistributeFee(w: World, fee: Word, proposer: Pubkey, voters: seq<Pubkey>): Option<World> {
    var info := DistributedInfo(w.info, fee, proposer, voters);
    if info.None? then None
    else Some(w.(accounts := Credited(w.accounts, STAKING_CONTRACT, fee), info := info.value))
  }

  // ----- SwitchEpoch -----

  predicate Mature(pr: PendingReward, epoch: int) {
    pr.epochNum < epoch - EPOCH_COUNT_BEFORE_REWARD_MATURE
  }

  // The rewards that are paid when `epoch` begins, to the RewardTo their validators have now.
  function MaturePayments(vals: seq<Validator>, prs: seq<PendingReward>, epoch: int): Option<seq<Payment>> {
    if prs == [] then Some([])
    else
      var pr := prs[|prs| - 1];
      var r := MaturePayments(vals, prs[..|prs| - 1], epoch);
      var i := FindByAddr(vals, pr.address);
      if r.None? || !Mature(pr, epoch) then r
      else if i.None? then None
      else Some(r.value + [Payment(vals[i.value].rewardTo, pr.amount)])
  }

  function Unmatured(prs: seq<PendingReward>, epoch: int): seq<PendingReward> {
    if prs == [] then []
    else
      var r := Unmatured(prs[..|prs| - 1], epoch);
      if Mature(prs[|prs| - 1], epoch) then r else r + [prs[|prs| - 1]]
  }

  function Repowered(v: Validator, powers: map<Pubkey, int>): Validator {
    v.(votingPower :=
      if v.pubkey in powers && !v.isRetiring && v.stakedCoins >= MINIMUM_STAKING_AMOUNT then powers[v.pubkey] else 0)
  }

  function RepoweredAll(vals: seq<Validator>, powers: map<Pubkey, int>): (r: seq<Validator>)
    ensures |r| == |vals|
    ensures forall i :: 0 <= i < |vals| ==> r[i] == Repowered(vals[i], powers)
  {
    seq(|vals|, i requires 0 <= i < |vals| => Repowered(vals[i], powers))
  }

  function IsUseless(useless: set<Address>): Validator -> bool {
    (v: Validator) => v.address in useless
  }

  function Refunds(vals: seq<Validator>, useless: set<Address>): seq<Payment> {
    if vals == [] then []
    else
      var v, r := vals[0], Refunds(vals[1..], useless);
      if v.address in useless then [Payment(v.rewardTo, v.stakedCoins)] + r else r
  }

  function NewEntries(vals: seq<Validator>, epoch: int): (r: seq<PendingReward>)
    ensures |r| == |vals|
    ensures forall i :: 0 <= i < |vals| ==> r[i] == PendingReward(vals[i].address, epoch, 0)
  {
    seq(|vals|, i requires 0 <= i < |vals| => PendingReward(vals[i].address, epoch, 0))
  }

  // The info between updateVotingPower and clearUp.
  function RepoweredInfo(info: StakingInfo, powers: map<Pubkey, int>): StakingInfo {
    StakingInfo(info.currEpochNum + 1, RepoweredAll(info.validators, powers),
                Unmatured(info.pendingRewards, info.currEpochNum + 1))
  }

  function SwitchPayments(info: StakingInfo): Option<seq<Payment>> {
    MaturePayments(info.validators, info.pendingRewards, info.currEpochNum + 1)
  }

  function SwitchRefunds(info: StakingInfo, powers: map<Pubkey, int>): seq<Payment> {
    var mid := RepoweredInfo(info, powers);
    Refunds(mid.validators, UselessAddresses(mid))
  }

  // The validators the deletion loop leaves listed.
  function SwitchSurvivors(info: StakingInfo, powers: map<Pubkey, int>): Option<seq<Validator>> {
    var mid := RepoweredInfo(info, powers);
    RangeDelete.Delete(mid.validators, IsUseless(UselessAddresses(mid)))
  }

  function SwitchedInfo(info: StakingInfo, left: seq<Validator>): StakingInfo {
    var epoch := info.currEpochNum + 1;
    StakingInfo(epoch, left, Unmatured(info.pendingRewards, epoch)
                             + NewEntries(Active(left, MINIMUM_STAKING_AMOUNT), epoch))
  }

  function SwitchEpoch(w: World, powers: map<Pubkey, int>): Option<World> {
    var pays, left := SwitchPayments(w.info), SwitchSurvivors(w.info, powers);
    if pays.None? || left.None? then None
    else
      var refunds := SwitchRefunds(w.info, powers);
      var accounts := PayAll(PayAll(w.accounts, pays.value), refunds);
      var balance := Minus(BalanceOf(w.accounts, STAKING_CONTRACT), Total(pays.value) + Total(refunds));
      Some(w.(accounts := accounts[STAKING_CONTRACT := balance], info := SwitchedInfo(w.info, left.value)))
  }

  // ----- Slash -----

  function SlashedCoins(v: Validator, amount: Word): Word {
    if v.stakedCoins < amount then v.stakedCoins else amount
  }

  function TotalSlashed(info: StakingInfo, pk: Pubkey, amount: Word): Word {
    var i := FindByPubkey(info.validators, pk);
    if i.None? then 0
    else
      var v := info.validators[i.value];
      Add(SlashedCoins(v, amount), ClearedTotal(info.pendingRewards, v.address))
  }

  // The info that Slash edits and does not save.
  function SlashedInfo(info: StakingInfo, pk: Pubkey, amount: Word): StakingInfo {
    var i := FindByPubkey(info.validators, pk);
    if i.None? then info
    else
      var v := info.validators[i.value];
      StakingInfo(info.currEpochNum,
                  info.validators[i.value := v.(stakedCoins := v.stakedCoins - SlashedCoins(v, amount))],
                  ClearedRewards(info.pendingRewards, info.currEpochNum, v.address))
  }

  // The unchecked transfer to the black hole account does nothing when it fails.
  function BurnTransfer(m: Balances, blackHole: Address, amount: Word): Balances {
    if BalanceOf(m, STAKING_CONTRACT) < amount then m else Moved(m, STAKING_CONTRACT, blackHole, amount)
  }

  function Slash(w: World, blackHole: Address, pk: Pubkey, amount: Word): World {
    if FindByPubkey(w.info.validators, pk).None? then w
    else
      var total := TotalSlashed(w.info, pk, amount);
      w.(accounts := BurnTransfer(w.accounts, blackHole, total), allBurnt := Add(w.allBurnt, total))
  }
}
