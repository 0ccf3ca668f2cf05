/** createValidator, editValidator and retire: what each leaves on the list, and what becomes of a
    validator that retires (staking/staking.go:199-291, 505-608). */
module Retirement {
  import opened Words
  import opened StakingTypes
  import opened ActiveValidators
  import opened Accounts
  import opened Staking
  import opened Solvency
  import opened EpochSwitch
  import opened StakingRuns
  import opened Distribution
  import opened Rewards
  import opened DutyRoster
  import RangeDelete

  // ----- One operation -----

  ghost predicate Listed(vals: seq<Validator>, a: Address) {
    exists v :: v in vals && v.address == a
  }

  ghost predicate Clashes(v: Validator, a: Address, pk: Pubkey) {
    v.address == a || v.pubkey == pk
  }

  // The error names what the first clashing validator has in common, its address before its key.
  ghost predicate IsClash(vals: seq<Validator>, a: Address, pk: Pubkey, error: AddError) {
    exists i :: 0 <= i < |vals| && Clashes(vals[i], a, pk) && (forall j :: 0 <= j < i ==> !Clashes(vals[j], a, pk))
      && (error == AddressExists <==> vals[i].address == a)
  }

  lemma {:induction false} ClashIs(vals: seq<Validator>, a: Address, pk: Pubkey)
    ensures var r := AddClash(vals, a, pk);
      if r.Some? then IsClash(vals, a, pk, r.value) else forall i :: 0 <= i < |vals| ==> !Clashes(vals[i], a, pk)
  {
    if vals != [] {
      var rest, r := vals[1..], AddClash(vals, a, pk);
      if Clashes(vals[0], a, pk) {
        assert IsClash(vals, a, pk, r.value);
      } else {
        ClashIs(rest, a, pk);
        if r.Some? {
          var i :| 0 <= i < |rest| && Clashes(rest[i], a, pk) && (forall j :: 0 <= j < i ==> !Clashes(rest[j], a, pk))
            && (r.value == AddressExists <==> rest[i].address == a);
          assert forall j :: 0 < j < |vals| ==> vals[j] == rest[j - 1];
          assert vals[i + 1] == rest[i];
        } else {
          assert forall j :: 0 < j < |vals| ==> vals[j] == rest[j - 1];
        }
      }
    }
  }

  /** Which operations fail, and how: a sender with too little, then for a new validator at most 1000
      coins or a clash, and otherwise a sender that is not listed.  A failure changes nothing. */
  lemma OutcomeExactly(w: World, from: Address, value: Word, op: Operation)
    ensures var (w', outcome) := ExternalOp(w, from, value, op);
      && (outcome == BalanceNotEnough <==> BalanceOf(w.accounts, from) < value)
      && (outcome != BalanceNotEnough && op.CreateValidator? ==>
            && (outcome == LessThanInitialAmount <==> value <= 1000_000_000_000_000_000_000)
            && (outcome == Success <==> value > 1000_000_000_000_000_000_000
                                        && forall v :: v in w.info.validators ==> !Clashes(v, from, op.pubkey))
            && (outcome.AlreadyListed? ==> IsClash(w.info.validators, from, op.pubkey, outcome.error)))
      && (outcome != BalanceNotEnough && !op.CreateValidator? ==>
            outcome == if Listed(w.info.validators, from) then Success else NoSuchValidator)
      && (outcome != Success ==> w' == w)
  {
    var vals := w.info.validators;
    if op.CreateValidator? {
      ClashIs(vals, from, op.pubkey);
      forall v | v in vals ensures exists i :: 0 <= i < |vals| && vals[i] == v {
      }
    } else {
      ListedIsFound(vals, from);
    }
  }

  lemma ListedIsFound(vals: seq<Validator>, a: Address)
    ensures Listed(vals, a) <==> FindByAddr(vals, a).Some?
  {
    var i := FindByAddr(vals, a);
    if i.Some? {
      assert vals[i.value] in vals;
    }
  }

  // Only the validator at position i differs.
  ghost predicate OnlyAt(vals: seq<Validator>, vals': seq<Validator>, i: nat) {
    i < |vals| == |vals'| && forall j :: 0 <= j < |vals| && j != i ==> vals'[j] == vals[j]
  }

  // The sender pays, the staking account receives, and nobody else notices.
  ghost predicate CoinsMove(m: Balances, m': Balances, from: Address, value: Word) {
    && BalanceOf(m', from) == BalanceOf(m, from) - value
    && BalanceOf(m', 0x2710) == (BalanceOf(m, 0x2710) + value) % WORD
    && forall a: Address :: a != from && a != 0x2710 ==> BalanceOf(m', a) == BalanceOf(m, a)
  }

  lemma OperationMovesCoins(w: World, from: Address, value: Word, op: Operation)
    requires ExternalOp(w, from, value, op).1 == Success && from != 0x2710
    ensures var w' := ExternalOp(w, from, value, op).0;
      && CoinsMove(w.accounts, w'.accounts, from, value) && w'.allBurnt == w.allBurnt
      && w'.info == w.info.(validators := w'.info.validators)
  {
  }

  /** createValidator: the list gets one validator more, with the fields of the call, no power, and
      the coins that were sent. */
  lemma CreateExactly(w: World, from: Address, value: Word, op: Operation)
    requires op.CreateValidator? && ExternalOp(w, from, value, op).1 == Success
    ensures var vals, vals' := w.info.validators, ExternalOp(w, from, value, op).0.info.validators;
      && |vals'| == |vals| + 1 && (forall j :: 0 <= j < |vals| ==> vals'[j] == vals[j])
      && var v := vals'[|vals|];
         && v.address == from && v.pubkey == op.pubkey && v.rewardTo == op.rewardTo && v.introduction == op.intro
         && v.votingPower == 0 && v.stakedCoins == value && !v.isRetiring
  {
  }

  /** editValidator and retire: the first validator with the sender's address gets the coins that were
      sent, and what is not zero or empty in an edit; a retiring one is marked; nothing else changes. */
  lemma EditExactly(w: World, from: Address, value: Word, op: Operation) returns (i: nat)
    requires !op.CreateValidator? && ExternalOp(w, from, value, op).1 == Success
    ensures var vals, vals' := w.info.validators, ExternalOp(w, from, value, op).0.info.validators;
      && OnlyAt(vals, vals', i) && (forall j :: 0 <= j < i ==> vals[j].address != from)
      && var v, v' := vals[i], vals'[i];
         && v.address == v'.address == from && v'.pubkey == v.pubkey && v'.votingPower == v.votingPower
         && v'.stakedCoins == (v.stakedCoins + value) % WORD
         && v'.isRetiring == (op.Retire? || v.isRetiring)
         && v'.rewardTo == (if op.EditValidator? && op.rewardTo != 0 then op.rewardTo else v.rewardTo)
         && v'.introduction == (if op.EditValidator? && |op.intro| > 0 then op.intro else v.introduction)
  {
    i := FindByAddr(w.info.validators, from).value;
  }

  // ----- After retiring -----

  // The address is listed, and whoever is listed under it is retiring and has the key.
  ghost predicate Retired(info: StakingInfo, a: Address, pk: Pubkey) {
    Listed(info.validators, a) && forall v :: v in info.validators && v.address == a ==> v.isRetiring && v.pubkey == pk
  }

  // Nobody of this address is elected.
  ghost predicate OffDuty(info: StakingInfo, a: Address) {
    forall v :: v in Active(info.validators, MINIMUM_STAKING_AMOUNT) ==> v.address != a
  }

  lemma RetireRetires(w: World, a: Address, value: Word) returns (pk: Pubkey)
    requires DistinctKeys(w.info.validators) && ExternalOp(w, a, value, Retire).1 == Success
    ensures Retired(ExternalOp(w, a, value, Retire).0.info, a, pk)
  {
    var i := EditExactly(w, a, value, Retire);
    var vals' := ExternalOp(w, a, value, Retire).0.info.validators;
    assert vals'[i] in vals';
    pk := vals'[i].pubkey;
  }

  lemma RetiredIsOffDuty(info: StakingInfo, a: Address, pk: Pubkey)
    requires Retired(info, a, pk)
    ensures OffDuty(info, a)
  {
    ActiveAreListed(info.validators, MINIMUM_STAKING_AMOUNT);
  }

  lemma ExternalKeepsRetired(w: World, from: Address, value: Word, op: Operation, a: Address, pk: Pubkey)
    requires Retired(w.info, a, pk)
    ensures Retired(ExternalOp(w, from, value, op).0.info, a, pk)
  {
    var vals, outcome := w.info.validators, ExternalOp(w, from, value, op).1;
    var vals' := ExternalOp(w, from, value, op).0.info.validators;
    OutcomeExactly(w, from, value, op);
    if outcome == Success {
      var k: nat :| k < |vals| && vals[k].address == a;
      if op.CreateValidator? {
        CreateExactly(w, from, value, op);
        assert vals[k] in vals && !Clashes(vals[k], from, op.pubkey);
      } else {
        var i := EditExactly(w, from, value, op);
      }
      assert vals'[k] in vals';
    }
  }

  lemma SwitchKeepsRetired(w: World, powers: map<Pubkey, int>, a: Address, pk: Pubkey)
    requires Retired(w.info, a, pk) && Switches(w, powers) && Listed(SwitchEpoch(w, powers).value.info.validators, a)
    ensures Retired(SwitchEpoch(w, powers).value.info, a, pk)
    ensures forall v :: v in SwitchEpoch(w, powers).value.info.validators && v.address == a ==> v.votingPower == 0
  {
    var left := SwitchSurvivors(w.info, powers).value;
    forall v | v in left && v.address == a ensures v.isRetiring && v.pubkey == pk && v.votingPower == 0 {
      var u := SurvivorWas(w.info, powers, v);
    }
  }

  // Whoever a switch leaves listed was listed before, with another power at most.
  lemma SurvivorWas(info: StakingInfo, powers: map<Pubkey, int>, v: Validator) returns (u: Validator)
    requires SwitchSurvivors(info, powers).Some? && v in SwitchSurvivors(info, powers).value
    ensures u in info.validators && v == Repowered(u, powers)
  {
    var vals := RepoweredInfo(info, powers).validators;
    SurvivorsOf(info, powers);
    RangeDelete.SurvivorsKeepTheUseful(vals, IsUseless(UselessIn(info, powers)));
    var i :| 0 <= i < |vals| && vals[i] == v;
    u := info.validators[i];
  }

  lemma StepKeepsRetired(w: World, step: Step, a: Address, pk: Pubkey)
    requires Retired(w.info, a, pk) && Next(w, step).Some?
    requires step.Switch? ==> Listed(Next(w, step).value.info.validators, a)
    ensures Retired(Next(w, step).value.info, a, pk)
  {
    match step
    case External(from, value, op) => ExternalKeepsRetired(w, from, value, op, a, pk);
    case Distribute(payer, fee, proposer, voters) =>
    case Switch(powers) => SwitchKeepsRetired(w, powers, a, pk);
    case Punish(blackHole, pubkey, amount) =>
    case Transfer(from, to, amount) =>
  }

  // No switch of the run takes the address off the list.
  ghost predicate StaysListed(w: World, steps: seq<Step>, a: Address) {
    forall i :: 0 <= i < |steps| && steps[i].Switch? && Run(w, steps[..i + 1]).Some? ==>
      Listed(Run(w, steps[..i + 1]).value.info.validators, a)
  }

  /** Over all runs after a successful retire, in any state and with any mix of steps: as long as no
      switch takes it off the list the validator stays retired and nobody elects it, and whatever
      powers the next switch brings it has none afterwards. */
  lemma {:induction false} RetiredForGood(w: World, a: Address, value: Word, steps: seq<Step>) returns (pk: Pubkey)
    requires DistinctKeys(w.info.validators) && ExternalOp(w, a, value, Retire).1 == Success
    requires var w1 := ExternalOp(w, a, value, Retire).0; StaysListed(w1, steps, a) && Run(w1, steps).Some?
    ensures var info := Run(ExternalOp(w, a, value, Retire).0, steps).value.info; Retired(info, a, pk) && OffDuty(info, a)
    ensures forall powers | Switches(Run(ExternalOp(w, a, value, Retire).0, steps).value, powers) ::
      PowerlessAt(SwitchEpoch(Run(ExternalOp(w, a, value, Retire).0, steps).value, powers).value.info, a)
  {
    var w1 := ExternalOp(w, a, value, Retire).0;
    pk := RetireRetires(w, a, value);
    StaysRetired(w1, steps, a, pk);
    var w2 := Run(w1, steps).value;
    RetiredIsOffDuty(w2.info, a, pk);
    forall powers | Switches(w2, powers) ensures PowerlessAt(SwitchEpoch(w2, powers).value.info, a) {
      var info := SwitchEpoch(w2, powers).value.info;
      if Listed(info.validators, a) {
        SwitchKeepsRetired(w2, powers, a, pk);
        RetiredIsOffDuty(info, a, pk);
      } else {
        ActiveAreListed(info.validators, MINIMUM_STAKING_AMOUNT);
      }
    }
  }

  ghost predicate PowerlessAt(info: StakingInfo, a: Address) {
    OffDuty(info, a) && forall v :: v in info.validators && v.address == a ==> v.isRetiring && v.votingPower == 0
  }

  lemma StaysListedBefore(w: World, steps: seq<Step>, n: nat, a: Address)
    requires n <= |steps| && StaysListed(w, steps, a)
    ensures StaysListed(w, steps[..n], a)
  {
    forall i | 0 <= i < n && steps[..n][i].Switch? && Run(w, steps[..n][..i + 1]).Some?
      ensures Listed(Run(w, steps[..n][..i + 1]).value.info.validators, a)
    {
      assert steps[..n][..i + 1] == steps[..i + 1];
    }
  }

  lemma {:induction false} StaysRetired(w: World, steps: seq<Step>, a: Address, pk: Pubkey)
    requires Retired(w.info, a, pk) && StaysListed(w, steps, a) && Run(w, steps).Some?
    ensures Retired(Run(w, steps).value.info, a, pk)
  {
    if steps != [] {
      var n := |steps| - 1;
      StaysListedBefore(w, steps, n, a);
      StaysRetired(w, steps[..n], a, pk);
      assert steps[..n + 1] == steps;
      StepKeepsRetired(Run(w, steps[..n]).value, steps[n], a, pk);
    }
  }

  // ----- The stake comes back -----

  // Every entry of the address matures at the next switch.
  ghost predicate AllMature(info: StakingInfo, a: Address) {
    forall pr :: pr in info.pendingRewards && pr.address == a ==> pr.epochNum < info.currEpochNum
  }

  // The stakes of the validators without power or entries after the switch, for one receiver.
  ghost function DueBack(info: StakingInfo, powers: map<Pubkey, int>, vals: seq<Validator>, x: Address): nat {
    if vals == [] then 0
    else
      var v := vals[0];
      DueBack(info, powers, vals[1..], x) + if !Needed(info, powers, v) && v.rewardTo == x then v.stakedCoins else 0
  }

  lemma {:induction false} RefundsFrom(info: StakingInfo, powers: map<Pubkey, int>, k: nat, x: Address)
    requires DistinctKeys(info.validators) && k <= |info.validators|
    ensures PaidTo(Refunds(RepoweredInfo(info, powers).validators[k..], UselessIn(info, powers)), x) ==
            DueBack(info, powers, info.validators[k..], x)
    decreases |info.validators| - k
  {
    var vals := RepoweredInfo(info, powers).validators;
    if k < |vals| {
      RefundsFrom(info, powers, k + 1, x);
      UselessExactly(info, powers, k);
      assert vals[k..][1..] == vals[k + 1..] && info.validators[k..][1..] == info.validators[k + 1..];
      var p := Payment(vals[k].rewardTo, vals[k].stakedCoins);
      PaidToConcat([p], Refunds(vals[k + 1..], UselessIn(info, powers)), x);
      assert [p][..0] == [];
    }
  }

  /** Every receiver is refunded exactly the stakes of the validators that point to it and that the
      switch leaves without power and without a reward to come. */
  lemma RefundsAreDueBack(info: StakingInfo, powers: map<Pubkey, int>, x: Address)
    requires DistinctKeys(info.validators)
    ensures PaidTo(SwitchRefunds(info, powers), x) == DueBack(info, powers, info.validators, x)
  {
    RefundsFrom(info, powers, 0, x);
    assert RepoweredInfo(info, powers).validators[0..] == RepoweredInfo(info, powers).validators;
    assert info.validators[0..] == info.validators;
  }

  lemma {:induction false} DueBackAtLeast(info: StakingInfo, powers: map<Pubkey, int>, vals: seq<Validator>, i: nat)
    requires i < |vals| && !Needed(info, powers, vals[i])
    ensures vals[i].stakedCoins <= DueBack(info, powers, vals, vals[i].rewardTo)
  {
    if i > 0 {
      DueBackAtLeast(info, powers, vals[1..], i - 1);
    }
  }

  lemma RetiredIsNeeded(info: StakingInfo, powers: map<Pubkey, int>, v: Validator)
    requires v.isRetiring
    ensures Needed(info, powers, v) <==> !AllMature(info, v.address)
  {
  }

  /** At a switch without useless neighbours a retiring validator leaves the list if and only if all
      its entries mature, and then its rewardTo is refunded its stake. */
  lemma RetiredLeavesExactly(w: World, powers: map<Pubkey, int>, i: nat)
    requires WellFormed(w.info) && Switches(w, powers) && i < |w.info.validators| && w.info.validators[i].isRetiring
    requires Alone(w.info, powers)
    ensures var v := w.info.validators[i];
      && (FindByPubkey(SwitchEpoch(w, powers).value.info.validators, v.pubkey).None? <==> AllMature(w.info, v.address))
      && (AllMature(w.info, v.address) ==> PaidTo(SwitchRefunds(w.info, powers), v.rewardTo) >= v.stakedCoins)
  {
    var v := w.info.validators[i];
    LostAtSwitch(w, powers, i);
    RetiredIsNeeded(w.info, powers, v);
    RefundsAreDueBack(w.info, powers, v.rewardTo);
    if AllMature(w.info, v.address) {
      DueBackAtLeast(w.info, powers, w.info.validators, i);
    }
  }

  // ----- Entries -----

  // A new entry of the epoch, amount zero, for one of these validators.
  ghost predicate IsNewEntry(duty: seq<Validator>, epoch: int, pr: PendingReward) {
    pr.epochNum == epoch && pr.amount == 0 && exists v :: v in duty && v.address == pr.address
  }

  lemma NewEntriesAre(duty: seq<Validator>, epoch: int, pr: PendingReward)
    ensures pr in NewEntries(duty, epoch) <==> IsNewEntry(duty, epoch, pr)
  {
    if IsNewEntry(duty, epoch, pr) {
      var v :| v in duty && v.address == pr.address;
      var i :| 0 <= i < |duty| && duty[i] == v;
      assert NewEntries(duty, epoch)[i] == pr;
    }
    if pr in NewEntries(duty, epoch) {
      var i :| 0 <= i < |duty| && NewEntries(duty, epoch)[i] == pr;
      assert duty[i] in duty;
    }
  }

  ghost predicate EntriesAre(before: StakingInfo, after: StakingInfo, duty: seq<Validator>) {
    forall pr :: pr in after.pendingRewards <==>
      (pr in before.pendingRewards && pr.epochNum >= before.currEpochNum) || IsNewEntry(duty, before.currEpochNum + 1, pr)
  }

  lemma EntriesOf(info: StakingInfo, left: seq<Validator>, duty: seq<Validator>)
    requires duty == Active(left, MINIMUM_STAKING_AMOUNT)
    ensures EntriesAre(info, SwitchedInfo(info, left), duty)
  {
    var e := info.currEpochNum + 1;
    UnmaturedAre(info.pendingRewards, e);
    forall pr
      ensures pr in Unmatured(info.pendingRewards, e) + NewEntries(duty, e) <==>
              (pr in info.pendingRewards && pr.epochNum >= info.currEpochNum) || IsNewEntry(duty, e, pr)
    {
      NewEntriesAre(duty, e, pr);
    }
  }

  /** The entries after a switch: those of the epoch that ends and of later ones, and a new one of
      amount zero for everyone the switch puts on duty; nobody else gets one. */
  lemma EntriesAfterSwitch(w: World, powers: map<Pubkey, int>) returns (duty: seq<Validator>)
    requires Switches(w, powers)
    ensures IsRoster(SwitchEpoch(w, powers).value.info.validators, duty)
    ensures EntriesAre(w.info, SwitchEpoch(w, powers).value.info, duty)
  {
    var left := SwitchSurvivors(w.info, powers).value;
    duty := Active(left, MINIMUM_STAKING_AMOUNT);
    ActiveIsRoster(left);
    EntriesOf(w.info, left, duty);
  }

  // No distribution credits this key.
  ghost predicate Unnamed(step: Step, pk: Pubkey) {
    step.Distribute? ==> step.proposer != pk && forall i :: 0 <= i < |step.voters| ==> step.voters[i] != pk
  }

  // The address has no entry of a later epoch.
  ghost predicate NoneAfter(info: StakingInfo, a: Address, epoch: int) {
    forall i :: 0 <= i < |info.pendingRewards| && info.pendingRewards[i].address == a ==> info.pendingRewards[i].epochNum <= epoch
  }

  lemma DistributeAddsNone(info: StakingInfo, fee: Word, proposer: Pubkey, voters: seq<Pubkey>, a: Address, pk: Pubkey, epoch: int)
    requires Retired(info, a, pk) && NoneAfter(info, a, epoch) && Unnamed(Distribute(0, fee, proposer, voters), pk)
    requires DistributedInfo(info, fee, proposer, voters).Some?
    ensures NoneAfter(DistributedInfo(info, fee, proposer, voters).value, a, epoch)
  {
    var p := info.validators[FindByPubkey(info.validators, proposer).value];
    var vs := LookupAll(info.validators, voters).value;
    var names := set v | v in info.validators && v.address != a :: v.address;
    assert p in info.validators;
    forall v | v in vs ensures v.address in names {
      var i :| 0 <= i < |vs| && vs[i] == v;
    }
    DistributedExtendsFor(info, fee, proposer, voters, names);
  }

  lemma SwitchAddsNone(w: World, powers: map<Pubkey, int>, a: Address, pk: Pubkey, epoch: int)
    requires Retired(w.info, a, pk) && NoneAfter(w.info, a, epoch) && Switches(w, powers)
    requires Listed(SwitchEpoch(w, powers).value.info.validators, a)
    ensures NoneAfter(SwitchEpoch(w, powers).value.info, a, epoch)
  {
    var after := SwitchEpoch(w, powers).value.info;
    SwitchKeepsRetired(w, powers, a, pk);
    var duty := EntriesAfterSwitch(w, powers);
    RosterIsElectable(after.validators, duty);
    forall i | 0 <= i < |after.pendingRewards| && after.pendingRewards[i].address == a
      ensures after.pendingRewards[i].epochNum <= epoch
    {
      var pr := after.pendingRewards[i];
      assert pr in after.pendingRewards;
      assert forall v :: v in duty ==> v.address != a;
      assert pr in w.info.pendingRewards;
    }
  }

  lemma StepAddsNone(w: World, step: Step, a: Address, pk: Pubkey, epoch: int)
    requires Retired(w.info, a, pk) && NoneAfter(w.info, a, epoch) && Unnamed(step, pk) && Next(w, step).Some?
    requires step.Switch? ==> Listed(Next(w, step).value.info.validators, a)
    ensures NoneAfter(Next(w, step).value.info, a, epoch)
  {
    match step
    case External(from, value, op) =>
    case Distribute(payer, fee, proposer, voters) => DistributeAddsNone(w.info, fee, proposer, voters, a, pk, epoch);
    case Switch(powers) => SwitchAddsNone(w, powers, a, pk, epoch);
    case Punish(blackHole, pubkey, amount) =>
    case Transfer(from, to, amount) =>
  }

  lemma {:induction false} RunAddsNone(w: World, steps: seq<Step>, a: Address, pk: Pubkey, epoch: int)
    requires Retired(w.info, a, pk) && NoneAfter(w.info, a, epoch) && StaysListed(w, steps, a) && Run(w, steps).Some?
    requires forall i :: 0 <= i < |steps| ==> Unnamed(steps[i], pk)
    ensures NoneAfter(Run(w, steps).value.info, a, epoch)
  {
    if steps != [] {
      var n := |steps| - 1;
      StaysListedBefore(w, steps, n, a);
      RunAddsNone(w, steps[..n], a, pk, epoch);
      StaysRetired(w, steps[..n], a, pk);
      assert steps[..n + 1] == steps;
      StepAddsNone(Run(w, steps[..n]).value, steps[n], a, pk, epoch);
    }
  }

  /** Leaving: on every run after which a retired validator is still listed, that names it in no
      distribution and contains a switch, all its entries mature at the next switch.  Unless it has
      useless neighbours then, it is gone after it, and its stake is with its rewardTo. */
  lemma RetiredLeavesInTheEnd(w: World, steps: seq<Step>, powers: map<Pubkey, int>, a: Address, pk: Pubkey) returns (i: nat)
    requires WellFormed(w.info) && AllSteps(steps, PowersOk) && Retired(w.info, a, pk)
    requires StaysListed(w, steps, a) && Run(w, steps).Some? && forall k :: 0 <= k < |steps| ==> Unnamed(steps[k], pk)
    requires Run(w, steps).value.info.currEpochNum > w.info.currEpochNum && Switches(Run(w, steps).value, powers)
    requires Alone(Run(w, steps).value.info, powers)
    ensures var w2 := Run(w, steps).value;
      && i < |w2.info.validators| && w2.info.validators[i].address == a
      && PaidTo(SwitchRefunds(w2.info, powers), w2.info.validators[i].rewardTo) >= w2.info.validators[i].stakedCoins
      && FindByPubkey(SwitchEpoch(w2, powers).value.info.validators, pk).None?
  {
    var w2 := Run(w, steps).value;
    RunsKeepWellFormed(w, steps);
    StaysRetired(w, steps, a, pk);
    RunAddsNone(w, steps, a, pk, w.info.currEpochNum);
    i :| i < |w2.info.validators| && w2.info.validators[i].address == a;
    assert w2.info.validators[i] in w2.info.validators;
    RetiredLeavesExactly(w2, powers, i);
  }

  // No two neighbours are useless at the switch.
  ghost predicate Alone(info: StakingInfo, powers: map<Pubkey, int>) {
    RangeDelete.NoUselessNeighbours(RepoweredInfo(info, powers).validators, IsUseless(UselessIn(info, powers)))
  }
}
