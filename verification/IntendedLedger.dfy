/** The ledger as it is meant to be: Slash saves the info it edits, and clearUp removes every
    useless validator.  All other steps are those of the code. */
module IntendedLedger {
  import opened Words
  import opened StakingTypes
  import opened Accounts
  import opened Staking
  import opened Solvency
  import opened EpochSwitch
  import opened Slashing
  import opened StakingRuns
  import RangeDelete

  // The validators that are not useless.
  function IntendedSurvivors(info: StakingInfo, powers: map<Pubkey, int>): seq<Validator> {
    var mid := RepoweredInfo(info, powers);
    RangeDelete.Kept(mid.validators, IsUseless(UselessAddresses(mid)))
  }

  function IntendedSwitch(w: World, powers: map<Pubkey, int>): Option<World> {
    var pays := SwitchPayments(w.info);
    if pays.None? then None
    else
      var refunds := SwitchRefunds(w.info, powers);
      var accounts := PayAll(PayAll(w.accounts, pays.value), refunds);
      var balance := Minus(BalanceOf(w.accounts, STAKING_CONTRACT), Total(pays.value) + Total(refunds));
      Some(w.(accounts := accounts[STAKING_CONTRACT := balance],
              info := SwitchedInfo(w.info, IntendedSurvivors(w.info, powers))))
  }

  function IntendedNext(w: World, step: Step): Option<World> {
    match step
    case Switch(powers) => IntendedSwitch(w, powers)
    case Punish(blackHole, pubkey, amount) => Some(SavedSlash(w, blackHole, pubkey, amount))
    case _ => Next(w, step)
  }

  /** The code's switch is the intended one exactly when no two neighbours are useless and the
      last validator is not useless next to another useless one. */
  lemma SwitchIsIntendedExactly(w: World, powers: map<Pubkey, int>)
    requires SwitchPayments(w.info).Some?
    ensures var vals, useless := RepoweredInfo(w.info, powers).validators, IsUseless(UselessIn(w.info, powers));
      SwitchEpoch(w, powers) == IntendedSwitch(w, powers)
      <==> RangeDelete.NoUselessNeighbours(vals, useless) && !RangeDelete.Panics(vals, useless)
  {
    RangeDelete.DeleteIsFilterExactly(RepoweredInfo(w.info, powers).validators, IsUseless(UselessIn(w.info, powers)));
  }

  // ----- One step -----

  lemma IntendedStakes(info: StakingInfo, powers: map<Pubkey, int>)
    ensures Staked(IntendedSurvivors(info, powers)) + Total(SwitchRefunds(info, powers)) == Staked(info.validators)
  {
    var vals, useless := RepoweredInfo(info, powers).validators, UselessIn(info, powers);
    RepoweredKeepStakes(info.validators, powers);
    StakedByUse(vals, useless);
    RefundsTotal(vals, useless);
  }

  lemma IntendedOwed(info: StakingInfo, powers: map<Pubkey, int>, pays: seq<Payment>)
    requires SwitchPayments(info) == Some(pays)
    ensures Owed(SwitchedInfo(info, IntendedSurvivors(info, powers))) + Total(pays + SwitchRefunds(info, powers)) == Owed(info)
  {
    PendingAfterSwitch(info, IntendedSurvivors(info, powers), pays);
    IntendedStakes(info, powers);
    PaidToConcat(pays, SwitchRefunds(info, powers), 0);
  }

  lemma IntendedPaysOut(w: World, powers: map<Pubkey, int>)
    requires IntendedSwitch(w, powers).Some?
    ensures IntendedSwitch(w, powers).value.accounts == PaidOut(w.accounts, AllPayments(w.info, powers), STAKING_CONTRACT)
  {
    var pays, refunds := SwitchPayments(w.info).value, SwitchRefunds(w.info, powers);
    PaidOutTogether(w.accounts, pays, refunds, STAKING_CONTRACT);
    assert IntendedSwitch(w, powers).value.accounts == PaidOutInTurn(w.accounts, pays, refunds, STAKING_CONTRACT);
  }

  lemma IntendedAccounts(w: World, powers: map<Pubkey, int>)
    requires STAKING_CONTRACT in w.accounts && Supply(w.accounts) < WORD && CanPay(w, powers)
    requires IntendedSwitch(w, powers).Some?
    ensures var m', ps := IntendedSwitch(w, powers).value.accounts, AllPayments(w.info, powers);
      && STAKING_CONTRACT in m' && m'[STAKING_CONTRACT] == w.accounts[STAKING_CONTRACT] - Total(ps)
      && Supply(m') == Supply(w.accounts) - PaidTo(ps, STAKING_CONTRACT)
  {
    IntendedPaysOut(w, powers);
    PayoutBalances(w.accounts, AllPayments(w.info, powers), STAKING_CONTRACT);
  }

  lemma IntendedSwitchAccounted(w: World, powers: map<Pubkey, int>)
    requires InRange(w) && CanPay(w, powers) && IntendedSwitch(w, powers).Some?
    ensures Accounted(w, IntendedSwitch(w, powers).value, 0, PaidTo(AllPayments(w.info, powers), STAKING_CONTRACT))
  {
    IntendedAccounts(w, powers);
    IntendedOwed(w.info, powers, SwitchPayments(w.info).value);
  }

  // Coins that anybody sends to the contract.
  function Donated(step: Step): nat {
    if step.Transfer? && step.to == STAKING_CONTRACT then step.amount else 0
  }

  lemma IntendedStepConserves(w: World, step: Step)
    requires InRange(w) && Allowed(w, step) && Pays(w, step) && IntendedNext(w, step).Some?
    ensures Accounted(w, IntendedNext(w, step).value, 0 - Donated(step), Lost(w, step))
  {
    match step
    case Switch(powers) => IntendedSwitchAccounted(w, powers);
    case Punish(blackHole, pubkey, amount) =>
      SlashBurns(w, blackHole, pubkey, amount);
      SavedSlashBalances(w, blackHole, pubkey, amount);
    case _ => StepConserves(w, step);
  }

  lemma IntendedCleanedUp(info: StakingInfo, powers: map<Pubkey, int>)
    requires DistinctKeys(info.validators)
    ensures CleanedUp(info, powers, IntendedSurvivors(info, powers))
  {
    RepoweredKeepsKeys(info, powers);
    KeptDistinct(RepoweredInfo(info, powers).validators, IsUseless(UselessIn(info, powers)));
    RangeDelete.KeptAre(RepoweredInfo(info, powers).validators, IsUseless(UselessIn(info, powers)));
  }

  lemma {:induction false} KeptDistinct(vals: seq<Validator>, useless: Validator -> bool)
    requires DistinctKeys(vals)
    ensures DistinctKeys(RangeDelete.Kept(vals, useless))
  {
    if vals != [] {
      KeptDistinct(vals[1..], useless);
      RangeDelete.KeptAre(vals[1..], useless);
      var k := RangeDelete.Kept(vals[1..], useless);
      forall i | 0 <= i < |k| ensures k[i].address != vals[0].address && k[i].pubkey != vals[0].pubkey {
        assert k[i] in k && k[i] in vals[1..];
      }
    }
  }

  lemma IntendedStepKeepsWellFormed(w: World, step: Step)
    requires WellFormed(w.info) && PowersOk(step) && IntendedNext(w, step).Some?
    ensures WellFormed(IntendedNext(w, step).value.info)
  {
    match step
    case Switch(powers) =>
      IntendedCleanedUp(w.info, powers);
      CleanedUpIsWellFormed(w.info, powers, IntendedSurvivors(w.info, powers));
    case Punish(blackHole, pubkey, amount) => SlashedKeepsWellFormed(w.info, pubkey, amount);
    case _ => StepKeepsWellFormed(w, step);
  }

  // ----- Runs -----

  function IntendedRun(w: World, steps: seq<Step>): Option<World> {
    if steps == [] then Some(w)
    else
      var w' := IntendedRun(w, steps[..|steps| - 1]);
      if w'.None? then None else IntendedNext(w'.value, steps[|steps| - 1])
  }

  ghost predicate AlwaysIntended(w: World, steps: seq<Step>, fine: (World, Step) -> bool) {
    steps == [] ||
    var init := steps[..|steps| - 1];
    AlwaysIntended(w, init, fine)
    && (IntendedRun(w, init).Some? ==> fine(IntendedRun(w, init).value, steps[|steps| - 1]))
  }

  function TotalDonated(steps: seq<Step>): nat {
    if steps == [] then 0 else TotalDonated(steps[..|steps| - 1]) + Donated(steps[|steps| - 1])
  }

  ghost predicate Conserved(w: World, w': World, donated: nat) {
    && WellFormed(w'.info) && InRange(w')
    && Excess(w') == Excess(w) + donated
    && Supply(w'.accounts) <= Supply(w.accounts)
  }

  /** Conservation over all runs, slashes and removals included: only donations change the
      excess, as long as the staking account has the coins that are taken from it. */
  lemma {:induction false} IntendedRunsKeepExcess(w: World, steps: seq<Step>)
    requires WellFormed(w.info) && InRange(w) && AllSteps(steps, PowersOk) && IntendedRun(w, steps).Some?
    requires AlwaysIntended(w, steps, Allowed) && AlwaysIntended(w, steps, Pays)
    ensures Conserved(w, IntendedRun(w, steps).value, TotalDonated(steps))
  {
    if steps != [] {
      var init, step := steps[..|steps| - 1], steps[|steps| - 1];
      IntendedRunsKeepExcess(w, init);
      assert PowersOk(step);
      IntendedStepConserves(IntendedRun(w, init).value, step);
      IntendedStepKeepsWellFormed(IntendedRun(w, init).value, step);
    }
  }

  /** Books that start at or above zero stay there, so that no switch overdraws the staking
      account and no burn fails, on every run of any mix of steps. */
  lemma {:induction false} IntendedRunsStaySolvent(w: World, steps: seq<Step>)
    requires WellFormed(w.info) && Solvent(w) && AllSteps(steps, PowersOk) && IntendedRun(w, steps).Some?
    requires AlwaysIntended(w, steps, Allowed)
    ensures AlwaysIntended(w, steps, Pays)
    ensures Solvent(IntendedRun(w, steps).value) && Conserved(w, IntendedRun(w, steps).value, TotalDonated(steps))
  {
    if steps != [] {
      var init, step := steps[..|steps| - 1], steps[|steps| - 1];
      IntendedRunsStaySolvent(w, init);
      var w' := IntendedRun(w, init).value;
      SolventPays(w', step);
      IntendedRunsKeepExcess(w, steps);
    }
  }

  /** Nothing but a lookup of DistributeFee can panic. */
  lemma IntendedPanicsExactly(w: World, step: Step)
    requires WellFormed(w.info)
    ensures IntendedNext(w, step).None? <==> step.Distribute? && Next(w, step).None?
  {
    MaturePaymentsTotal(w.info.validators, w.info.pendingRewards, w.info.currEpochNum + 1);
  }
}
