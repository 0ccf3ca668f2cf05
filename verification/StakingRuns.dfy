/** Whole runs of the staking contract: every mix of its steps, in any order. */
module StakingRuns {
  import opened Words
  import opened StakingTypes
  import opened Accounts
  import opened FeeSplit
  import opened Staking
  import opened Solvency
  import opened Distribution
  import opened EpochSwitch
  import opened Slashing
  import RangeDelete

  datatype Step =
    | External(from: Address, value: Word, op: Operation)
    | Distribute(payer: Address, fee: Word, proposer: Pubkey, voters: seq<Pubkey>)
    | Switch(powers: map<Pubkey, int>)
    | Punish(blackHole: Address, pubkey: Pubkey, amount: Word)
    | Transfer(from: Address, to: Address, amount: Word)  // anything else the chain does with coins

  /** What is taken for granted about a step before it is taken.  Senders, payers and balances are the
      rest of the chain's business.  That the shares of a distribution do not exceed its fee is an
      assumption: Rewards.CoveredWhenOnDuty says when it holds, and retiring voters can break it. */
  ghost predicate Allowed(w: World, step: Step) {
    match step
    case External(from, value, op) => from != STAKING_CONTRACT
    case Distribute(payer, fee, proposer, voters) =>
      payer != STAKING_CONTRACT && fee <= BalanceOf(w.accounts, payer)
      && (Found(w.info, proposer, voters) ==> SharesCovered(w.info, fee, proposer, voters))
    case Switch(powers) => true
    case Punish(blackHole, pubkey, amount) => blackHole != STAKING_CONTRACT
    case Transfer(from, to, amount) =>
      from != STAKING_CONTRACT && to != from && amount <= BalanceOf(w.accounts, from)
  }

  // The staking account has the coins that the step takes from it without looking.
  ghost predicate Pays(w: World, step: Step) {
    match step
    case Switch(powers) => CanPay(w, powers)
    case Punish(blackHole, pubkey, amount) =>
      TotalSlashed(w.info, pubkey, amount) <= BalanceOf(w.accounts, STAKING_CONTRACT)
    case _ => true
  }

  function Next(w: World, step: Step): Option<World> {
    match step
    case External(from, value, op) => Some(ExternalOp(w, from, value, op).0)
    case Distribute(payer, fee, proposer, voters) => DistributeFee(Collected(w, payer, fee), fee, proposer, voters)
    case Switch(powers) => SwitchEpoch(w, powers)
    case Punish(blackHole, pubkey, amount) => Some(Slash(w, blackHole, pubkey, amount))
    case Transfer(from, to, amount) => Some(w.(accounts := Moved(w.accounts, from, to, amount)))
  }

  // By how much a step lets the claims run ahead of the balance.
  ghost function Leak(w: World, step: Step): int {
    match step
    case External(from, value, op) => 0
    case Distribute(payer, fee, proposer, voters) => 0
    case Switch(powers) => SwitchLeak(w.info, powers)
    case Punish(blackHole, pubkey, amount) => Burnt(w, pubkey, amount)
    case Transfer(from, to, amount) => if to == STAKING_CONTRACT then 0 - amount else 0
  }

  // Coins that a switch pays to the staking contract itself are overwritten and lost.
  ghost function Lost(w: World, step: Step): nat {
    if step.Switch? && SwitchPayments(w.info).Some?
    then PaidTo(AllPayments(w.info, step.powers), STAKING_CONTRACT) else 0
  }

  ghost predicate Accounted(w: World, w': World, leak: int, lost: int) {
    && STAKING_CONTRACT in w'.accounts
    && Excess(w') == Excess(w) - leak
    && Supply(w'.accounts) == Supply(w.accounts) - lost
  }

  lemma DistributeAccounted(w: World, step: Step)
    requires step.Distribute? && InRange(w) && Allowed(w, step) && Next(w, step).Some?
    ensures Accounted(w, Next(w, step).value, 0, 0)
  {
    var w' := DistributeFeeConserves(w, step.payer, step.fee, step.proposer, step.voters);
  }

  lemma SwitchAccounted(w: World, powers: map<Pubkey, int>)
    requires InRange(w) && CanPay(w, powers) && SwitchEpoch(w, powers).Some?
    ensures Accounted(w, SwitchEpoch(w, powers).value, SwitchLeak(w.info, powers),
                      PaidTo(AllPayments(w.info, powers), STAKING_CONTRACT))
    ensures SwitchLeak(w.info, powers) <= BalanceOf(w.accounts, STAKING_CONTRACT)
  {
    SwitchConserves(w, powers);
    LeakWithinPayments(w, powers);
  }

  lemma TransferAccounted(w: World, from: Address, to: Address, amount: Word)
    requires InRange(w) && Allowed(w, Transfer(from, to, amount))
    ensures Accounted(w, w.(accounts := Moved(w.accounts, from, to, amount)), Leak(w, Transfer(from, to, amount)), 0)
  {
    MovedConserves(w.accounts, from, to, amount);
  }

  /** One step, whichever it is, from any world in range: the excess changes by exactly the leak
      and the supply by exactly what is lost, unless a switch pays more than there is. */
  lemma StepConserves(w: World, step: Step)
    requires InRange(w) && Allowed(w, step) && Next(w, step).Some? && (step.Switch? ==> Pays(w, step))
    ensures Accounted(w, Next(w, step).value, Leak(w, step), Lost(w, step))
    ensures Leak(w, step) <= Supply(w.accounts)
  {
    BalanceWithinSupply(w.accounts, STAKING_CONTRACT);
    match step
    case External(from, value, op) => ExternalOpConserves(w, from, value, op);
    case Distribute(payer, fee, proposer, voters) => DistributeAccounted(w, step);
    case Switch(powers) => SwitchAccounted(w, powers);
    case Punish(blackHole, pubkey, amount) => SlashBurns(w, blackHole, pubkey, amount);
    case Transfer(from, to, amount) => TransferAccounted(w, from, to, amount);
  }

  // ----- Runs -----

  // The state after a run, None once a step panics.
  function Run(w: World, steps: seq<Step>): Option<World> {
    if steps == [] then Some(w)
    else
      var w' := Run(w, steps[..|steps| - 1]);
      if w'.None? then None else Next(w'.value, steps[|steps| - 1])
  }

  // Every step of the run is fine in the state in which it is taken.
  ghost predicate Always(w: World, steps: seq<Step>, fine: (World, Step) -> bool) {
    steps == [] ||
    var init := steps[..|steps| - 1];
    Always(w, init, fine) && (Run(w, init).Some? ==> fine(Run(w, init).value, steps[|steps| - 1]))
  }

  ghost predicate AllSteps(steps: seq<Step>, fine: Step -> bool) {
    forall i :: 0 <= i < |steps| ==> fine(steps[i])
  }

  ghost function TotalLeak(w: World, steps: seq<Step>): int {
    if steps == [] then 0
    else
      var w' := Run(w, steps[..|steps| - 1]);
      TotalLeak(w, steps[..|steps| - 1]) + if w'.None? then 0 else Leak(w'.value, steps[|steps| - 1])
  }

  ghost function TotalLost(w: World, steps: seq<Step>): nat {
    if steps == [] then 0
    else
      var w' := Run(w, steps[..|steps| - 1]);
      TotalLost(w, steps[..|steps| - 1]) + if w'.None? then 0 else Lost(w'.value, steps[|steps| - 1])
  }

  // ----- Well-formed books, whatever the balances -----

  ghost predicate PowersOk(step: Step) {
    step.Switch? ==> NonNegativePowers(step.powers)
  }

  lemma StepKeepsWellFormed(w: World, step: Step)
    requires WellFormed(w.info) && PowersOk(step) && Next(w, step).Some?
    ensures WellFormed(Next(w, step).value.info)
  {
    match step
    case External(from, value, op) => OperateKeepsWellFormed(w.info, from, value, op);
    case Distribute(payer, fee, proposer, voters) => DistributionKeepsWellFormed(w.info, fee, proposer, voters);
    case Switch(powers) => SwitchKeepsWellFormed(w, powers);
    case Punish(blackHole, pubkey, amount) =>
    case Transfer(from, to, amount) =>
  }

  /** In every reachable state keys are distinct and each pending reward names a listed
      validator, however much the staking account holds or owes. */
  lemma {:induction false} RunsKeepWellFormed(w: World, steps: seq<Step>)
    requires WellFormed(w.info) && AllSteps(steps, PowersOk) && Run(w, steps).Some?
    ensures WellFormed(Run(w, steps).value.info)
  {
    if steps != [] {
      var init, step := steps[..|steps| - 1], steps[|steps| - 1];
      RunsKeepWellFormed(w, init);
      assert PowersOk(step);
      StepKeepsWellFormed(Run(w, init).value, step);
    }
  }

  // ----- Conservation -----

  // Allowed, and a switch finds the coins it pays.
  ghost predicate Legal(w: World, step: Step) {
    Allowed(w, step) && (step.Switch? ==> Pays(w, step))
  }

  // In range, with room for a leak of all the coins in each of n steps.
  ghost predicate Roomy(w: World, n: nat) {
    InRange(w) && Supply(w.accounts) - Excess(w) + n * Supply(w.accounts) < WORD
  }

  lemma LessRoom(w: World, n: nat)
    requires Roomy(w, n + 1)
    ensures Roomy(w, n) && (n + 1) * Supply(w.accounts) == n * Supply(w.accounts) + Supply(w.accounts)
  {
  }

  /** Conservation over all runs of any mix of steps, from any world in range, solvent or not:
      what nobody has a claim on is the starting excess minus the accumulated leaks, and the
      coins in all accounts are the starting supply minus the coins lost. */
  lemma {:induction false} RunConserves(w: World, steps: seq<Step>)
    requires Roomy(w, |steps|) && Always(w, steps, Legal) && Run(w, steps).Some?
    ensures Accounted(w, Run(w, steps).value, TotalLeak(w, steps), TotalLost(w, steps))
    ensures TotalLeak(w, steps) <= |steps| * Supply(w.accounts)
  {
    if steps != [] {
      var init := steps[..|steps| - 1];
      LessRoom(w, |init|);
      RunConserves(w, init);
      StepConserves(Run(w, init).value, steps[|steps| - 1]);
    }
  }

  // ----- Solvent runs -----

  // The leaks so far never exceed the starting excess.
  ghost predicate LeaksCovered(w: World, steps: seq<Step>) {
    forall i :: 0 <= i < |steps| ==> TotalLeak(w, steps[..i]) <= Excess(w)
  }

  lemma LeaksCoveredBefore(w: World, steps: seq<Step>)
    requires steps != [] && LeaksCovered(w, steps)
    ensures LeaksCovered(w, steps[..|steps| - 1]) && TotalLeak(w, steps[..|steps| - 1]) <= Excess(w)
  {
    var init := steps[..|steps| - 1];
    forall i | 0 <= i < |init| ensures TotalLeak(w, init[..i]) <= Excess(w) {
      assert init[..i] == steps[..i];
    }
  }

  lemma SolventPays(w: World, step: Step)
    requires Solvent(w)
    ensures Pays(w, step)
  {
    match step
    case Switch(powers) => SolventCanPay(w, powers);
    case Punish(blackHole, pubkey, amount) => SolventBurns(w, pubkey, amount);
    case External(from, value, op) =>
    case Distribute(payer, fee, proposer, voters) =>
    case Transfer(from, to, amount) =>
  }

  /** Solvency over all runs: books that start with an excess covering the leaks never make a
      switch overdraw the staking account nor the unchecked burn fail, and conservation is
      exact without any further condition. */
  lemma {:induction false} SolventRunsPay(w: World, steps: seq<Step>)
    requires Solvent(w) && Always(w, steps, Allowed) && LeaksCovered(w, steps) && Run(w, steps).Some?
    ensures Always(w, steps, Pays) && Always(w, steps, Legal)
    ensures Accounted(w, Run(w, steps).value, TotalLeak(w, steps), TotalLost(w, steps))
  {
    if steps != [] {
      var init, step := steps[..|steps| - 1], steps[|steps| - 1];
      LeaksCoveredBefore(w, steps);
      SolventRunsPay(w, init);
      var w' := Run(w, init).value;
      SolventPays(w', step);
      StepConserves(w', step);
    }
  }

  // ----- No leaks -----

  // Slash burns nothing, a switch refunds nobody that stays listed, and nobody donates coins.
  ghost predicate Tight(w: World, step: Step) {
    match step
    case External(from, value, op) => true
    case Distribute(payer, fee, proposer, voters) => true
    case Switch(powers) =>
      RangeDelete.NoUselessNeighbours(RepoweredInfo(w.info, powers).validators, IsUseless(UselessIn(w.info, powers)))
    case Punish(blackHole, pubkey, amount) => TotalSlashed(w.info, pubkey, amount) == 0
    case Transfer(from, to, amount) => to != STAKING_CONTRACT
  }

  /** Runs of tight steps never change the excess at all. */
  lemma {:induction false} TightRunsKeepExcess(w: World, steps: seq<Step>)
    requires InRange(w) && Always(w, steps, Legal) && Always(w, steps, Tight) && Run(w, steps).Some?
    ensures InRange(Run(w, steps).value) && Excess(Run(w, steps).value) == Excess(w)
    ensures Supply(Run(w, steps).value.accounts) <= Supply(w.accounts)
  {
    if steps != [] {
      var init, step := steps[..|steps| - 1], steps[|steps| - 1];
      TightRunsKeepExcess(w, init);
      var w0 := Run(w, init).value;
      if step.Switch? {
        NoLeakWithoutNeighbours(w0.info, step.powers);
      }
      StepConserves(w0, step);
    }
  }

  // ----- Genesis -----

  // InitChain lists the genesis validators with their stakes and pays nothing for them.
  function GenesisWorld(accounts: Balances, validators: seq<Validator>): World {
    World(accounts, StakingInfo(0, validators, []), 0)
  }

  lemma GenesisRoomy(accounts: Balances, validators: seq<Validator>, n: nat)
    requires STAKING_CONTRACT in accounts && accounts[STAKING_CONTRACT] == 0
    requires (n + 1) * Supply(accounts) + Staked(validators) < WORD
    ensures Excess(GenesisWorld(accounts, validators)) == 0 - Staked(validators)
    ensures Roomy(GenesisWorld(accounts, validators), n)
  {
    var supply := Supply(accounts);
    assert (n + 1) * supply == n * supply + supply;
    assert n * supply >= 0;
  }

  /** A chain starts with its excess below zero by all genesis stakes and stays there, apart
      from the leaks, for as long as every switch finds the coins it pays. */
  lemma GenesisRunConserves(accounts: Balances, validators: seq<Validator>, steps: seq<Step>)
    requires STAKING_CONTRACT in accounts && accounts[STAKING_CONTRACT] == 0
    requires (|steps| + 1) * Supply(accounts) + Staked(validators) < WORD
    requires DistinctKeys(validators) && PowersNonNegative(validators) && AllSteps(steps, PowersOk)
    requires var w := GenesisWorld(accounts, validators); Always(w, steps, Legal) && Run(w, steps).Some?
    ensures var w := GenesisWorld(accounts, validators);
      && Excess(w) == 0 - Staked(validators)
      && Excess(Run(w, steps).value) == Excess(w) - TotalLeak(w, steps)
      && WellFormed(Run(w, steps).value.info)
  {
    var w := GenesisWorld(accounts, validators);
    GenesisRoomy(accounts, validators, |steps|);
    RunConserves(w, steps);
    RunsKeepWellFormed(w, steps);
  }

  /** The first switch after genesis overdraws the empty staking account exactly when some
      genesis stake is refunded. */
  lemma GenesisCanPayExactly(accounts: Balances, validators: seq<Validator>, powers: map<Pubkey, int>)
    requires STAKING_CONTRACT in accounts && accounts[STAKING_CONTRACT] == 0
    ensures var w := GenesisWorld(accounts, validators);
      CanPay(w, powers) <==> UselessStake(RepoweredInfo(w.info, powers).validators, UselessIn(w.info, powers)) == 0
  {
    var w := GenesisWorld(accounts, validators);
    assert SwitchPayments(w.info) == Some([]);
    RefundsTotal(RepoweredInfo(w.info, powers).validators, UselessIn(w.info, powers));
    PaidToConcat([], SwitchRefunds(w.info, powers), 0);
  }
}
