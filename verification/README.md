# smartBCH: staking, finality, epoch hand-over, log filters

A Dafny model of the core of smartBCH, with proofs about whole runs of it. `dafny verify dfyconfig.toml`
checks everything.

**What is modelled**

- *The staking ledger* (`Staking`, `StakingTypes`, `Accounts`, `FeeSplit`): account balances, validators and
  epoch-tagged pending rewards under createValidator/editValidator/retire, DistributeFee, SwitchEpoch and Slash.
  Every step is a function on the world state, and `StakingContract.Context` is the same step as code that
  updates fields in place and visits Go maps in an arbitrary order. Each of its methods is proved equal to its
  function, so no iteration order shows in any result. `Solvency`, `Distribution`, `EpochSwitch`, `Slashing`,
  `StakingRuns`, `Rewards` and `Books` prove the laws of one step and of all runs; `IntendedLedger` is the ledger
  with a Slash that saves and a clearUp that removes everyone useless. `FeeEntries`, `Burning` and `Retirement` say
  what each operation does in plain numbers: whose entry grows by how much, what a slash takes and counts, what an
  operation leaves on the list and what becomes of a validator that retires.
- *The watcher of the Bitcoin Cash chain* (`Watcher`, `Epochs`, `Finality`, `Tally`, `BackTrace`, `Reorganization`,
  `MainLoop`, `ForkRuns`, `WatcherMachine`): ten-confirmation finality over a tree of blocks, epochs, garbage collection, back-tracing
  after the memory has been cleared or the node has moved to another branch.
- *The hand-over of epochs* (`Handover`, `AppCommit`): the turns of the watcher's main loop, a channel with one slot
  and App.Commit as interleaved steps, composed with the ledger and with what the main loop finalizes; `DutyRoster`
  says whom a commit leaves on duty.
- *Log filters* (`LogFilter`, `FilterLaws`, `Polling`): the bloom filter in front of plain filtering, the laws between
  searches, and polling filters as a protocol of event loop, goroutines and polls.
- *The state codec* (`MessagePack`, `Codec`; `WireFormat` for the stored bytes themselves, `Truncation` for what is
  refused), *the minimum gas price* (`MinGasPrice`) and *the signature cache of
  CheckTx* (`SigCache`).

**How to read the main results**

The *excess* of a world is the staking account's balance minus all stakes and pending rewards. Genesis stakes are
not paid into the staking account, so a chain starts with a negative excess, and conservation is a law about how the
excess changes, from any world whose claims and coins fit into 256 bits. Each step has a *leak*, the amount by which
it lets the claims run ahead of the balance, and the excess after any run is the first excess minus the leaks, as long
as no switch pays more than the account holds (`StakingRuns.RunConserves`; `EpochSwitch.SwitchConservesExactly` is
the if and only if, `StakingRuns.GenesisRunConserves` the instance at genesis). Books with an excess that covers the
leaks never get there (`StakingRuns.SolventRunsPay`). `Books.RunModulo` keeps the law modulo 2^256 for every state
and every step that does not panic, whatever wraps around on the way. What does not depend on balances is stated
without them: well-formedness, one entry per epoch, exactly-once payment and successful lookups hold on every run
from every well-formed info. That the shares of a distribution do not exceed its fee is assumed where amounts are
compared; the chain does not guarantee it, and `Rewards.CoveredWhenOnDuty` says when it holds. Two operations of the code can leak; both follow the code, not the intention:

- Slash edits its loaded info and never saves it. The stored claims exceed the balance by what was burnt, while
  the edited info balances if and only if the burn does not fail (`Slashing.SlashBurns`,
  `Slashing.SavedSlashBalances`, `Deviations.SlashedStakeIsRefundedInFull`).
- clearUp deletes from the slice it ranges over. It is the intended filter if and only if no two neighbours are
  useless and the last validator is not useless next to another useless one
  (`RangeDelete.DeleteIsFilterExactly`); otherwise a refunded validator stays listed, which is the leak of the
  switch, or the loop panics (`EpochSwitch.SwitchPanicsExactly`).

With both repaired nothing leaks on any run (`IntendedLedger.IntendedRunsStaySolvent`).

Other places where code and intention differ, modelled as the code is:

- The extra fee of a proposer is charged on the power of all voters, retiring ones included, and divided by the
  power of the active validators only. The subtraction wraps around exactly outside the condition of
  `FeeSplit.ExtraFeeFitsExactly`, and what is credited is the fee exactly when the shares of the other voters do not
  exceed it (`Distribution.CreditsFeeExactly`); `Deviations.RetiringVotersOvercharge` is an instance outside both.
- Genesis validators, and validators that move up when others retire, are on duty without a reward entry. A switch
  that gives such a validator no power removes it (`Rewards.LostAtSwitch` has the exact condition), and the next
  distribution that names it panics (`Deviations.GenesisValidatorIsLost`).
- A watcher that starts at height 0 expects its chain to start at height 1. On a chain that starts at height 0, as the
  real one does, the block of height 10 has the block of height 0 as its tenth ancestor and the watcher panics with
  "Height Skipped" (`Finality.ChainFromZeroPanics`); `Finality.FinalitySafety` and `WatcherMachine.Watcher.Run` have
  the exact condition.
- The main loop re-fetches only ten parents of an answer, and addBlock compares only tenth ancestors. So the finalized
  blocks need not link: they form one chain exactly when every accepted answer descends from the latest finalized
  block (`MainLoop.RunExactly`). On a branch that does not, a turn accepts the answer when its ten ancestors are in
  memory; otherwise it fetches, and panics exactly when a fetched ancestor's own ten ancestors are in memory and the
  last of them is not the stored finalized block of its height (`MainLoop.TurnExactly`). Both happen on runs from the
  start: `ForkRuns.UnlinkedRun`, `ForkRuns.PanickingRun`. While answers descend from the latest finalized block no
  turn panics (`Reorganization.ReorganizationSafety`).
- A nomination's own count is kept and then incremented, so k nominating blocks give k + 1; and all nominations of
  one block share a loop variable (the module is on Go 1.16), so the count is meaningful only with at most one
  nomination per block, which is what `staking/rpcclient.go:206-213` produces
  (`Tally.TwoNominationsShareOneVariable`).
- handleMinGasPrice leaves its status at success on rejecting paths; the model reports the reason instead and the
  theorems speak of the stored price.

Words are 256-bit with wrap-around and division by zero yielding zero. The int64 sums of voting powers only ever
leave their functions through uint64, so they are unbounded integers reduced modulo 2^64 at that point.
Accounts are values: GetAccount yields a copy, and SetAccount stores one. `EpochEnd(k, n)` is k * n
(`Epochs.EpochEndIsProduct`).

## Model

| member | source | states |
|---|---|---|
| RangeDelete.DeleteInPlace | staking/staking.go:598-603 | the in-place loop on the backing array yields Delete of the old array |
| RangeDelete.DeleteResult | staking/staking.go:598-603 | the loop panics exactly when the last element is useless and not the only one; otherwise it leaves the list in which the neighbour of every deleted element escaped the test |
| RangeDelete.DeleteIsFilterExactly | staking/staking.go:598-603 | the loop equals the intended filter if and only if there are no useless neighbours and no panic |
| RangeDelete.SurvivorsKeepTheUseful | staking/staking.go:598-603 | nothing that is not useless is ever dropped or reordered, and nothing new appears |
| RangeDelete.SurvivorsStayDistinct | staking/staking.go:598-603 | unique keys stay unique |
| StakingTypes.GetValMapByPubkey | staking/types/types.go:84-90 | the map holds exactly the listed public keys, each with its last position, which with distinct keys is the one the lookup finds |
| StakingTypes.GetValMapByAddr | staking/types/types.go:93-99 | the map holds exactly the listed addresses, each with its last position, which with distinct keys is the one the lookup finds |
| StakingTypes.GetCurrRewardMapByAddr | staking/types/types.go:102-110 | the map holds, for every address with an entry of the current epoch, the last such entry |
| StakingTypes.LastRewardIsFound | staking/types/types.go:102-110 | the lookup finds exactly the last entry of the epoch and the address |
| StakingTypes.AddValidator | staking/types/types.go:113-133 | the error of the first clashing validator, or one appended validator; unique keys stay unique |
| StakingTypes.GetUselessValidators | staking/types/types.go:161-172 | exactly the addresses with power zero and no pending entry |
| StakingTypes.ClearRewardsOf | staking/types/types.go:175-193 | entries of the current epoch stay with amount zero, older ones of the address go, the sum is returned |
| ActiveValidators.GetActiveValidators | staking/types/types.go:197-213 | filter, stable sort and cut yield Active |
| ActiveValidators.ActiveIsTopOfRanking | staking/types/types.go:197-213 | the result is the first 30 of a ranking of all eligible positions: power descending, ties in list order |
| ActiveValidators.RankingIsUnique | staking/types/types.go:205-208 | there is only one such ranking, whatever stable sort is used |
| ActiveValidators.LeftOutRanksBehind | staking/types/types.go:209-211 | an eligible validator left out finds all 30 places taken by no less power |
| DutyRoster.ActiveIsRoster | staking/types/types.go:197-213 | who is elected, by positions in the list: the first 30 by power and then as listed of those with at least 800 coins at stake, some power, and not retiring |
| DutyRoster.WhoMovesThePrice | staking/staking.go:285-301 | the minimum gas price is moved by those on duty and by the accounts their rewards go to, and by nobody else |
| Accounts.PayAllPointwise | staking/staking.go:546-558 | balances after payments depend only on the total each account gets, modulo 2^256 |
| FeeSplit.ExtraFeeFitsExactly | staking/staking.go:443-450 | for every fee and all powers the extra fee is at most the rest of the fee if and only if the divisor is 0 or the product, wrapped as the code wraps it, is below (rest + 1) times the divisor |
| FeeSplit.ExtraFitsWhenPowerBounded | staking/staking.go:443-450 | 15 * voted <= 100 * total < 2^64 is enough for every fee, overflowing products included |
| FeeSplit.SharesWithinShared | staking/staking.go:453-462 | for every fee the voters' shares never exceed the shared fee, so no subtraction from the remainder wraps |
| FeeSplit.RemainderNearProportional | staking/staking.go:453-462 | the remainder is at least the proposer's proportional part, and without overflow less than one unit per other voter more |
| Distribution.CreditsFeeExactly | staking/staking.go:421-496 | for every call whose lookups succeed, what is credited adds up to the fee if and only if the shares of the other voters do not exceed it |
| Distribution.CoveredWhenPowerBounded | staking/staking.go:443-476 | the shares of every fee stay within it while 15 * voted <= 100 * total < 2^64 |
| Rewards.CoveredWhenOnDuty | staking/staking.go:430-476 | the shares of every fee stay within it when all voters are distinct and on duty |
| Distribution.PartsOfTheFee | staking/staking.go:443-476 | with the extra fee within the rest no subtraction wraps: base, extra and shared fee add up to the fee, shares and remainder to the shared fee |
| Distribution.DistributesExactly | staking/staking.go:421-496 | then pending rewards grow in total by precisely the fee, and for each selection of address and epoch by precisely what the call credits to it |
| FeeEntries.BaseFeeIs | staking/staking.go:443-445 | for every fee the base fee is the product fee * 15, wrapped at 2^256, divided by 100 and rounded down |
| FeeEntries.ExtraFeeIs | staking/staking.go:447-449 | for every rest and all powers the extra fee is the quotient of the twice wrapped product rest * 15 * voted by the wrapped 100 * total, or 0 |
| FeeEntries.ExtraFeeIsPlainly | staking/staking.go:447-449 | without overflow extra * 100 * total <= rest * 15 * voted < (extra + 1) * 100 * total |
| FeeEntries.ShareIs | staking/staking.go:460-461 | for every shared fee and all powers a share is the quotient of the wrapped product shared * power by the voted power, or 0 |
| FeeEntries.VoterGets | staking/staking.go:443-475 | on one call without overflow: the fee is cut into base, extra and shared fee with both bounds each, and the entry of a voter other than the proposer grows by shared * power / voted, rounded down |
| FeeEntries.ProposerGets | staking/staking.go:443-492 | on the same call the entry of the proposer grows by the base fee, the extra fee and what the shares leave of the shared fee |
| FeeEntries.PowersAre | staking/staking.go:433-441 | voted power is the sum over the voters, total power the sum over the roster on duty |
| FeeEntries.EntriesAppended | staking/staking.go:452-487 | a call appends one entry for every other voter without an entry of the epoch, twice for one named twice, and one for such a proposer |
| Distribution.ProposerLeftover | staking/staking.go:453-492 | on one call: the leftover given to the proposer is at least its proportional share, and without overflow exceeds it by less than one unit per other voter |
| Distribution.DistributionKeepsWellFormed | staking/staking.go:452-492 | all entries still name listed validators and the current or the last epoch |
| Distribution.DistributeFeeConserves | staking/staking.go:421-496 | with the fee taken from another account and shares that do not exceed it, excess and supply do not change, whatever the excess is |
| Solvency.ExternalOpConserves | staking/staking.go:199-283 | excess and supply do not change, whatever the operation, its outcome and the excess |
| Solvency.OperateKeepsWellFormed | staking/staking.go:233-267 | unique keys, listed rewards and every listed address and key survive; rewards and epoch are untouched |
| EpochSwitch.MaturePaymentsTotal | staking/staking.go:534-544 | no lookup misses when rewards are listed, and whenever none misses the payments sum up to the mature rewards |
| EpochSwitch.SwitchConservesExactly | staking/staking.go:499-608 | the excess shrinks by exactly the stake of refunded validators that stay listed if and only if the staking account can pay everyone |
| EpochSwitch.SwitchConserves | staking/staking.go:499-608 | then every account gets exactly what it is paid, and only coins paid to the contract itself leave the supply |
| EpochSwitch.SolventCanPay | staking/staking.go:546-597 | an account with no negative excess can pay |
| EpochSwitch.SwitchKeepsWellFormed | staking/staking.go:499-608 | unique keys, non-negative powers and listed rewards after a switch |
| EpochSwitch.SwitchPanicsExactly | staking/staking.go:499-608 | a switch of a well-formed info panics if and only if the deletion loop runs past its end |
| EpochSwitch.NoLeakWithoutNeighbours | staking/staking.go:581-608 | without useless neighbours everyone refunded is removed and nothing leaks |
| EpochSwitch.RewardedStayListed | staking/staking.go:581-603 | a validator with an unmatured entry keeps its place |
| Slashing.SlashedIsOwed | staking/staking.go:383-401 | what is slashed is exactly what the edited info no longer owes |
| Slashing.SlashBurns | staking/staking.go:383-418 | the stored info claims too much by exactly what was burnt, the black hole gets it, the supply stays; the counter of burnt coins is in Burning.SlashCounts |
| Slashing.SavedSlashBalances | staking/staking.go:383-406 | the edited info balances if and only if the unchecked burn does not fail |
| Slashing.SolventBurns | staking/staking.go:403-404 | with no negative excess the burn does not fail |
| Slashing.SlashedKeepsWellFormed | staking/staking.go:383-401 | the edited info keeps unique keys and listed rewards |
| Slashing.ClearedEntriesExactly | staking/types/types.go:175-193 | clearing leaves exactly the entries of the others, and those of the current epoch with amount zero |
| Burning.SlashedExactly | staking/staking.go:383-401 | the edited info: the stake shrinks by the amount or to zero, the rewards of that address drop to zero for every epoch, nobody else changes; an unknown key changes nothing |
| Burning.SlashCounts | staking/staking.go:383-418 | the counter of burnt coins grows by exactly what the edited info owes less, modulo 2^256, whether or not the transfer fails; an unknown key changes nothing at all |
| Burning.RunCounts | staking/staking.go:383-418 | over all runs from any state the counter is its first value plus all slashed amounts modulo 2^256; no other step touches it |
| StakingRuns.StepConserves | staking/staking.go:199-608 | from any world in range, solvent or not, any step that can pay changes the excess by exactly its leak and the supply by exactly what is lost (shares that do not exceed the fee are assumed of distributions) |
| StakingRuns.RunConserves | staking/staking.go:199-608 | the same over all runs of any mix of steps: excess = first excess - leaks, supply = first supply - lost (shares that do not exceed the fee are assumed of distributions) |
| StakingRuns.SolventRunsPay | staking/staking.go:199-608 | solvency over all runs whose leaks, which only the run itself shows, stay within the first excess: no switch overdraws the account, no burn fails, and the law is exact (shares that do not exceed the fee are assumed of distributions) |
| StakingRuns.RunsKeepWellFormed | staking/staking.go:199-608 | in every reachable state keys are unique and each pending reward names a listed validator, whatever the balances |
| StakingRuns.GenesisRunConserves | app/app.go:373-383 | a chain from genesis keeps its excess at minus the genesis stakes minus the leaks (shares that do not exceed the fee are assumed of distributions) |
| StakingRuns.GenesisCanPayExactly | app/app.go:373-383 | the first switch overdraws the empty staking account if and only if a genesis stake is refunded |
| StakingRuns.TightRunsKeepExcess | staking/staking.go:199-608 | without burns, useless neighbours and donations no run changes the excess, whatever it is (shares that do not exceed the fee are assumed of distributions) |
| IntendedLedger.SwitchIsIntendedExactly | staking/staking.go:581-608 | the code's switch is the one that removes everyone useless if and only if there are no useless neighbours and no panic |
| IntendedLedger.IntendedRunsKeepExcess | staking/staking.go:199-608 | with saved slashes and full removal, over every mix of steps slashes included, the excess changes by donations only (shares that do not exceed the fee are assumed of distributions) |
| IntendedLedger.IntendedRunsStaySolvent | staking/staking.go:199-608 | if it starts at or above 0, no switch overdraws the account and no burn fails on any run (shares that do not exceed the fee are assumed of distributions) |
| IntendedLedger.IntendedPanicsExactly | staking/staking.go:437-479 | then only a lookup of DistributeFee can panic |
| Books.DistributesModulo | staking/staking.go:421-496 | for every fee, power and list of voters, however often the arithmetic wraps, the pending rewards grow by the fee modulo 2^256 |
| Books.StepModulo | staking/staking.go:199-608 | any step that does not panic, in any state, changes the excess by its leak modulo 2^256; a burn that fails leaks nothing |
| Books.RunModulo | staking/staking.go:199-608 | the same over all runs from any state, without conditions on balances, fees or powers |
| Rewards.StepMatures | staking/staking.go:452-561 | credits go to the current epoch, payments come exactly two epochs later, the epoch number counts switches; no condition on balances (shares that do not exceed the fee are assumed of distributions) |
| Rewards.RewardsPaidExactlyOnce | staking/staking.go:525-561 | on every run from a well-formed info credited = paid + pending per validator and epoch; nothing is paid before the switch into epoch + 2, and everything once it has happened (shares that do not exceed the fee are assumed of distributions) |
| Rewards.RewardsGoToRewardTo | staking/staking.go:534-558 | each account gets the mature rewards of all validators whose RewardTo it is at that moment |
| Rewards.RunsKeepOneEntry | staking/staking.go:452-519 | on every run with distinct voters never more than one entry per validator and epoch |
| Rewards.ActiveStayListed | staking/staking.go:512-519 | whoever a switch returns as active stays listed with the same keys through every run up to and past the next switch |
| Rewards.FeeLookupsNeverMiss | staking/staking.go:437-479 | on every run, if the proposer and each voter was returned active by the last switch or the one before, the next distribution finds them all and does not panic |
| Rewards.LostAtSwitch | staking/staking.go:581-603 | a listed validator stays listed if the switch gives it power or it has an unmatured entry; without useless neighbours if and only if |
| Retirement.OutcomeExactly | staking/staking.go:222-248 | for every operation exactly when it succeeds and which error it reports otherwise, 1000 coins being too little for a new validator; a failure changes nothing |
| Retirement.OperationMovesCoins | staking/staking.go:269-279 | the sender pays the value, the staking account gets it, no other balance and no reward changes |
| Retirement.CreateExactly | staking/staking.go:233-242 | the list gets one validator more, with the fields of the call, no power, the value at stake, not retiring |
| Retirement.EditExactly | staking/staking.go:243-266 | the sender's validator gets the value, a non-zero rewardTo and a non-empty introduction of an edit, and is marked by a retire; every other validator is unchanged |
| Retirement.RetiredForGood | staking/staking.go:263-265 | over all runs after a successful retire: as long as no switch takes it off the list the validator stays retired and nobody elects it, and whatever powers the next switch brings it has none |
| Retirement.RefundsAreDueBack | staking/staking.go:581-597 | every account is refunded exactly the stakes of the validators that point to it and are left without power and without a reward to come |
| Retirement.RetiredLeavesExactly | staking/staking.go:581-603 | at a switch without useless neighbours a retiring validator leaves the list if and only if all its entries mature, and then its rewardTo is refunded its stake |
| Retirement.EntriesAfterSwitch | staking/staking.go:510-520 | after a switch there are exactly the unmatured entries and one of amount zero for everyone the switch puts on duty |
| Retirement.RetiredLeavesInTheEnd | staking/staking.go:499-608 | on every run with a switch and without a distribution that names it, a retired validator that is still listed leaves at the next switch without useless neighbours, and is refunded |
| StakingContract.Context.ExternalOp | staking/staking.go:199-283 | updates in place to exactly the state and outcome of Staking.ExternalOp, whose fields and outcomes are in Retirement.OutcomeExactly, CreateExactly and EditExactly |
| StakingContract.Context.Slash | staking/staking.go:383-418 | updates in place to exactly Staking.Slash, whose amounts and counter are in Burning.SlashedExactly and SlashCounts; the edited info and the returned sum |
| StakingContract.Context.DistributeFee | staking/staking.go:421-496 | updates in place to exactly Staking.DistributeFee, whose amounts are in FeeEntries.VoterGets and ProposerGets; fails exactly when a lookup misses |
| StakingContract.Context.EndEpoch | staking/staking.go:525-561 | for every order of the reward map: balances, contract balance and rewards of the specification |
| StakingContract.Context.UpdateVotingPower | staking/staking.go:564-578 | for every order of pubkey2power: each validator's power from the epoch, or zero |
| StakingContract.Context.ClearUp | staking/staking.go:581-608 | for every order of the useless set: refunds, contract balance and the list the deletion loop leaves |
| StakingContract.Context.SwitchEpoch | staking/staking.go:499-522 | for every iteration order exactly Staking.SwitchEpoch, and the active validators returned |
| Epochs.FinalizeRecords | staking/watcher.go:109-156 | finalizing the next block never panics and extends the record of the finalized chain, epochs and kept heights |
| Epochs.RetentionAfterEpoch | staking/watcher.go:158-177 | after the k-th epoch exactly the heights above (k-1)n+1-5n up to kn are stored, and at most five epochs |
| Finality.WalkFinds | staking/watcher.go:81-100 | the walk ends at the tenth ancestor, at the first block of the chain, or at the first ancestor that is not in memory |
| Finality.AddBlockSafe | staking/watcher.go:79-120 | for a new block whose parent was fed, or a block fed again before its height is finalized, on a chain from height 0 or 1, addBlock panics if and only if its tenth ancestor contradicts a finalized block or has height 0, never with "Missing Block"; otherwise the invariant holds again |
| Finality.FinalitySafety | staking/watcher.go:79-156 | every parents-first run, repetitions included, passes if and only if no tenth ancestor contradicts a finalized block or has height 0, and then records one hash-linked chain of contiguous heights tiled by epochs |
| Finality.FinalizedNeverReplaced | staking/watcher.go:101-114 | whatever is fed later, the latest finalized height does not go back and a height stored in both states holds the same block |
| Finality.ChainFromZeroPanics | staking/watcher.go:109-112 | eleven empty blocks of heights 0..10 make a watcher started at 0 panic |
| Tally.EpochIsTally | staking/watcher.go:123-147 | keys, counts and end time of an epoch in terms of its blocks, with at most one nomination each |
| Tally.SentEpochsAreTallies | staking/watcher.go:123-156 | the i-th epoch sent is the tally of exactly the finalized heights i*n+1..(i+1)*n |
| Tally.SentEpochsLast | staking/watcher.go:148-152 | the i-th epoch sent lasts from the end of the one before to its own end, the first one from its earliest block |
| Tally.CountIsBlocksPlusOne | staking/watcher.go:140-145 | with nominations of count 1 the keys are those nominated, each recorded count is the number of nominating blocks plus one, and ranking by count is ranking by blocks |
| Tally.TwoNominationsShareOneVariable | staking/watcher.go:140-145 | two nominations in one block: both keys end up with the second one's key and count |
| BackTrace.AcceptsNext | staking/watcher.go:79-120 | with the last ten blocks in memory the next block of a chain finalizes the block ten below it |
| BackTrace.PanicsAtTen | staking/watcher.go:109-112 | on a chain from height 0 the block of height 10 panics instead |
| BackTrace.LinearTraceBack | staking/watcher.go:64-70 | after a clearing, re-fetching ten parents restores exactly the window the confirmation walk needs |
| BackTrace.LinearTurn | staking/watcher.go:47-72 | one turn of the main loop on a linear chain: fetch the window or accept the block, panic exactly at height 10 above height 0 |
| BackTrace.AsksForParent | staking/watcher.go:79-88 | without its parent a block is only stored and its parent asked for |
| WatcherMachine.Watcher.AddBlock | staking/watcher.go:79-120 | updates in place to exactly Watcher.AddBlock |
| WatcherMachine.Watcher.GenerateNewEpoch | staking/watcher.go:123-156 | updates in place to exactly Watcher.GenerateNewEpoch |
| WatcherMachine.Watcher.ClearOldData | staking/watcher.go:158-177 | updates in place to exactly Watcher.ClearOldData |
| WatcherMachine.Watcher.TraceBack | staking/watcher.go:64-70 | updates in place to exactly Watcher.TraceBack, for every tree |
| WatcherMachine.Watcher.Turn | staking/watcher.go:47-72 | updates in place to exactly Watcher.Turn |
| WatcherMachine.Watcher.RunServed | staking/watcher.go:41-72 | the loop against any answers of the node is exactly Watcher.RunNode |
| WatcherMachine.Watcher.Run | staking/watcher.go:41-72 | on any linear chain and any clearing period the loop passes if and only if the chain starts at height 1 or height 10 is not reached, with max(0, n - 10) blocks finalized after height n |
| Reorganization.TraceBackSafe | staking/watcher.go:64-70 | on any branch that holds the latest finalized block, re-fetching at most ten parents never panics and brings the ten ancestors into memory |
| Reorganization.TurnSafe | staking/watcher.go:47-72 | one turn with any such answer, whenever memory was cleared: no panic, and it is accepted, or its ancestors have been fetched |
| Reorganization.ReorganizationSafety | staking/watcher.go:41-120 | against a node that may change branch before every answer but never leaves the latest finalized block, with any clearing period, the loop never panics, is ten blocks behind, and finalizes one hash-linked chain |
| Reorganization.ReorganizationsExtend | staking/watcher.go:41-120 | later turns only extend the finalized chain |
| Reorganization.SameAnswerIsAccepted | staking/watcher.go:41-120 | of two turns with the same answer one accepts it and finalizes its tenth ancestor |
| Reorganization.DeepReorganizationGoesUnnoticed | staking/watcher.go:64-114 | on a branch without the latest finalized block, none of whose eleven ancestors of the answer are in memory, two turns finalize a block that does not link to it, without a panic |
| MainLoop.WalkIs | staking/watcher.go:81-100 | the confirmation walk goes exactly as far as the first ancestor that is not in memory |
| MainLoop.TraceExactly | staking/watcher.go:64-70 | for any branch and memory, tracing back panics if and only if an ancestor it fetches has its ten ancestors in memory and the last is not the stored finalized block; otherwise it changes nothing but memory |
| MainLoop.TurnExactly | staking/watcher.go:47-120 | for any answer of the height asked for, any epoch length and a chain from height 0 or 1: exactly when a turn panics, when it accepts, and what it finalizes, read off the state before it |
| MainLoop.AcceptedMemory | staking/watcher.go:54-63 | an accepted answer at a multiple of the period empties the memory; any other stays in it, with all blocks but those whose finalized heights are dropped |
| MainLoop.LinksExactly | staking/watcher.go:101-114 | an accepted answer keeps the finalized blocks one hash-linked chain if and only if it descends from the latest of them |
| MainLoop.RunExactly | staking/watcher.go:41-120 | every run passes if and only if no turn panics, is then ten blocks behind, and its finalized blocks form one chain if and only if each accepted answer descended from the latest finalized block |
| MainLoop.FromZeroRunExactly | staking/watcher.go:41-120 | on chains from height 0, forks included, a run passes if and only if it does not come to accept height 10, and finalizes nothing |
| ForkRuns.UnlinkedRun | staking/watcher.go:64-114 | from a new watcher: heights 1..25 of one branch, then height 26 of another twice: height 16 is finalized with a parent other than height 15 |
| ForkRuns.PanickingRun | staking/watcher.go:64-106 | from a new watcher: heights 1..25, height 26 of another branch, heights 26 and 27, height 28 of the other branch: the last turn panics |
| Handover.HandoverExactlyOnce | app/app.go:513-528 | on every interleaving and whatever the node answers: sent = switched ++ epochList ++ channel, the epoch number counts switches, no switch at or before EndTime + 60000 |
| Handover.AnswerWaitsExactly | staking/watcher.go:116-118 | a turn that does not panic waits if and only if it completes an epoch while the channel is full |
| Handover.PowersOfTally | staking/staking.go:500-503 | the powers of an epoch are the nominating blocks of each key plus one, and nothing else |
| Handover.SwitchesFollowFinalizedChain | app/app.go:513-528 | end to end with the main loop, its re-fetches and clearings: the j-th switch uses the tally of exactly the finalized heights j*n+1..(j+1)*n, and every validator it leaves listed has its nominating blocks there plus one as power, or none |
| Handover.SystemStaysWellFormed | app/app.go:513-528 | in every state of the whole system, main loop included, the ledger is well-formed |
| AppCommit.PowersFrom | staking/staking.go:500-503 | every key a nomination carries gets the count of such a nomination; with nominations under their own keys no order shows |
| AppCommit.App.Commit | app/app.go:510-528 | receives, switches and sets the validators exactly as CommitWith, with CommitEpochs' powers when nominations are under their own keys; who is on duty then is in DutyRoster.CommitExactly |
| DutyRoster.CommitExactly | app/app.go:513-528 | with nothing waiting a commit elects from the current list; before the oldest epoch is due, EndTime + 60000, it only receives; when due it switches to that epoch and puts on duty whom the new list elects; it panics only if the switch does |
| DutyRoster.OthersKeepDuty | app/app.go:513-528 | nothing but a commit changes who is on duty, and nothing else switches |
| DutyRoster.DutyAfterSwitch | app/app.go:513-528 | over all runs of the whole system: after a commit that switches everyone on duty is listed, has 800 coins at stake, is not retiring, and has as power its nominating blocks in the finalized heights of that epoch plus one |
| DutyRoster.DutyOtherwise | app/app.go:513-528 | over all runs: a commit with an empty queue puts the roster of the current list on duty, one that waits changes nothing else |
| LogFilter.FilterLogsLoop | rpc/api/filters/geth_filter.go:270-303 | the loops yield FilterLogs, whose laws are in FilterLaws, in order |
| LogFilter.FilterLogsAre | rpc/api/filters/geth_filter.go:270-303 | exactly the logs that match; FilterLaws says which those are by range, address and topics |
| FilterLaws.OneByOne | rpc/api/filters/geth_filter.go:270-303 | a search finds, in order and as often as they occur, the logs it finds when they are searched alone |
| FilterLaws.RangeExactly | rpc/api/filters/geth_filter.go:274-279 | without addresses and topics exactly the logs of the range, both bounds included; absent and negative bounds do not restrict it |
| FilterLaws.RangeIsIndependent | rpc/api/filters/geth_filter.go:270-303 | the range restricts a search independently of addresses and topics |
| FilterLaws.RangeSplits | rpc/api/filters/geth_filter.go:274-279 | for a <= b < d a log is found in [a, d] if and only if it is found in exactly one of [a, b] and [b + 1, d], with any addresses and topics |
| FilterLaws.SearchInTwoParts | rpc/api/filters/geth_filter.go:270-303 | on logs in block order searching a range is searching its first part and then the rest |
| FilterLaws.OneAddress | rpc/api/filters/geth_filter.go:281-283 | one address finds its own logs among those found without a condition on it |
| FilterLaws.AddressesUnite | rpc/api/filters/geth_filter.go:281-283 | several addresses find what each of them finds |
| FilterLaws.OneTopic | rpc/api/filters/geth_filter.go:288-299 | one topic at a position finds the logs that have it there among those found with anything there |
| FilterLaws.AlternativesUnite | rpc/api/filters/geth_filter.go:288-299 | alternatives at a position find what each of them finds |
| FilterLaws.EmptyPosition | rpc/api/filters/geth_filter.go:284-299 | an empty position is a wildcard that only asks for a topic to be there |
| FilterLaws.RejectsExactly | rpc/api/filters/geth_filter.go:305-332 | the bloom filter rejects exactly if every address, or every alternative at some position, has a bit that is not set |
| FilterLaws.BitsAre | rpc/api/filters/geth_filter.go:305-332 | the three bits of an entry: eleven bits each of the first three pairs of bytes of its hash |
| FilterLaws.RejectedIsPassedOver | rpc/api/filters/geth_filter.go:217-226 | a rejected block yields nothing, and its logs need not even be there |
| FilterLaws.FoundLogsAreComplete | rpc/api/filters/geth_filter.go:236-255 | whatever is found in a block names its transaction if the receipts do, and passes the search |
| LogFilter.BloomFilterLoop | rpc/api/filters/geth_filter.go:305-332 | the loops decide the bloom condition |
| LogFilter.CoversExactly | rpc/api/filters/geth_filter.go:305-332 | a bloom covers every address and topic of the logs if and only if it includes the bloom filter of the logs |
| LogFilter.RejectedHasNoMatch | rpc/api/filters/geth_filter.go:305-332 | no false negatives: a covering bloom that rejects leaves nothing for the plain filter |
| LogFilter.BloomPrefilterIsTransparent | rpc/api/filters/geth_filter.go:217-257 | if the header's bloom includes that of its logs, searching a block with the bloom filter in front is searching it without |
| LogFilter.BlockLogsIsPlainFilter | rpc/api/filters/geth_filter.go:217-257 | it is the plain filter over all logs of the block, completed from the receipts when they are stored without transaction hashes |
| LogFilter.Filter.BlockLogs | rpc/api/filters/geth_filter.go:217-257 | the code yields LogsOfBlock, errors and receipts included |
| LogFilter.Filter.UnindexedLogs | rpc/api/filters/geth_filter.go:199-214 | the result is the plain filter over all logs of the heights passed, begin stops at the first height without a header or with a failing block, and a sound range is passed completely |
| Polling.NextOk | rpc/api/filters/geth_filter_system.go:311-321 | every step of loop, goroutines and polls keeps the invariant of every filter |
| Polling.PollingLosesNothing | rpc/api/filters/filter_api.go:97-228 | on every interleaving polled ++ buffer ++ batch in hand is the plain filter over all events delivered since installation |
| Polling.PollReturnsAll | rpc/api/filters/filter_api.go:199-228 | after a poll all that was delivered is polled or still in the goroutine's hand |
| Polling.UninstalledStaysSilent | rpc/api/filters/filter_api.go:117-133 | on every run nothing is added to the buffer of an uninstalled filter or returned for it |
| Polling.FilterApi.Receive | rpc/api/filters/filter_api.go:117-122 | the goroutine's body is the Append step |
| Polling.FilterApi.GetFilterChanges | rpc/api/filters/filter_api.go:199-228 | a poll returns the buffer and empties it, the Poll step; an unknown id is an error and changes nothing |
| Polling.FilterApi.UninstallFilter | rpc/api/filters/filter_api.go:178-190 | the Uninstall step when the filter is found |
| MessagePack.Int64RoundTrip | staking/types/types_gen.go:929-929 | reading back any int64 in its shortest signed format |
| MessagePack.BinRoundTrip | staking/types/types_gen.go:1231-1231 | reading back any byte string |
| MessagePack.StringRoundTrip | staking/types/types_gen.go:1243-1243 | reading back any string |
| MessagePack.ArrayHeaderRoundTrip | staking/types/types_gen.go:932-932 | reading back any array length below 2^32 |
| WireFormat.BigEndianIs | staking/types/types_gen.go:1231-1231 | the bytes of a number are its digits to the base 256, the highest first |
| WireFormat.FromBigEndianIs | staking/types/types_gen.go:980-980 | every digit read multiplies what is before it by 256 |
| WireFormat.Int64Is | staking/types/types_gen.go:929-929 | which signed format is written for which integers, lead byte and digits of the two's complement |
| WireFormat.ReadsIntegers | staking/types/types_gen.go:980-980 | every signed and unsigned format is read, unsigned numbers above the greatest int64 are refused |
| WireFormat.ReadsOneByte | staking/types/types_gen.go:980-980 | integers of one byte, from -32 to 127 |
| WireFormat.BytesAre | staking/types/types_gen.go:1231-1231 | lead byte, length and data by size |
| WireFormat.StringIs | staking/types/types_gen.go:1243-1243 | lead byte, length and data by size |
| WireFormat.HeaderIs | staking/types/types_gen.go:932-932 | lead byte and length of array headers by size, and the two truth values |
| WireFormat.ReadsAnySize | staking/types/types_gen.go:962-1055 | lengths written wider than needed are read, and keys may be byte strings |
| WireFormat.ReadsAnyHeader | staking/types/types_gen.go:962-1055 | array and map headers of both widths are read |
| WireFormat.OtherKindsAreRefused | staking/types/types_gen.go:962-1055 | values of another kind are refused, and byte strings of another length as addresses and numbers |
| Codec.ValidatorRoundTrip | staking/types/types_gen.go:1226-1323 | a validator is read back whatever the receiver held and whatever follows |
| Codec.RewardRoundTrip | staking/types/types_gen.go:693-754 | a pending reward is read back whatever the receiver held and whatever follows |
| Codec.InfoRoundTrip | staking/types/types_gen.go:924-1055 | UnmarshalMsg(MarshalMsg(x) ++ rest) is x and rest, for any number of possibly nil entries |
| Codec.InfoBytesInjective | staking/types/types_gen.go:924-959 | no encoding is a beginning of another one |
| WireFormat.RewardOnTheWire | staking/types/types_gen.go:693-754 | the bytes of a pending reward written out, keys included, are read back field by field |
| WireFormat.RewardBytesAre | staking/types/types_gen.go:693-709 | what is printed for a pending reward are those bytes |
| WireFormat.ValidatorOnTheWire | staking/types/types_gen.go:1226-1323 | the bytes of a validator written out, keys included, are read back field by field |
| WireFormat.ValidatorBytesAre | staking/types/types_gen.go:1226-1253 | what is printed for a validator are those bytes |
| WireFormat.InfoOnTheWire | staking/types/types_gen.go:924-1055 | what is printed for an info are the bytes written out, keys, headers and nil entries included, and they are read back whatever follows |
| WireFormat.PrintedAreValues | staking/types/types_gen.go:1045-1051 | integers, strings, byte strings, truth values and nil are skipped as one value each |
| WireFormat.ListIsValue | staking/types/types_gen.go:1045-1051 | so are lists of values |
| WireFormat.RecordIsValue | staking/types/types_gen.go:1045-1051 | and records, nested ones included |
| WireFormat.UnknownKeysAreSkipped | staking/types/types_gen.go:1045-1051 | a field with an unknown key and any such value leaves a record as it is, wherever it stands |
| WireFormat.UnknownKeysInRecords | staking/types/types_gen.go:1045-1051 | every key but the written out ones is unknown to all three records |
| Truncation.ReadingIsLocal | staking/types/types_gen.go:962-1055 | from any bytes into any receiver: what is read is read the same with more bytes behind |
| Truncation.TruncatedIsRefused | staking/types/types_gen.go:962-1055 | the bytes of an info cut off anywhere are refused |
| Codec.MarshalInfo | staking/types/types_gen.go:924-959 | the appending loops produce behind what was there exactly InfoBytes, which WireFormat.InfoOnTheWire writes out |
| Codec.ReadRecordLoop | staking/types/types_gen.go:962-1055 | the countdown over the fields of a record is ReadRecord |
| Codec.ReadListLoop | staking/types/types_gen.go:985-1014 | the loop over a list of possibly nil entries is ReadList |
| MinGasPrice.PriceSlots.HandleMinGasPrice | staking/staking.go:285-322 | the stored prices and the reason of a rejection |
| MinGasPrice.AdjustExactly | staking/staking.go:285-322 | for prices up to 10^17 an operator moves the price up or down by five percent rounded down, saved if and only if it is at most 500 and within 16% of the last block's price; every other call changes nothing and says why |
| MinGasPrice.LastIsPriceOfLastBlock | app/app.go:631-634 | on every run the last price is the price at the end of the last block, whatever calls follow |
| MinGasPrice.RunsStayBounded | staking/staking.go:285-322 | every run keeps the price in range and within 16% of the last block's price |
| MinGasPrice.PriceDrift | app/app.go:631-634 | after k blocks start*84^k <= price*100^k <= start*116^k |
| SigCache.Checker.PickOldest | app/app.go:284-294 | whatever the iteration order, the evicted key is present and the oldest of six visited, or of all if there are fewer |
| SigCache.Checker.SenderOf | app/app.go:274-297 | cache hit, recovery, eviction and insertion |
| SigCache.CacheIsTransparent | app/app.go:261-312 | on every run each call uses the sender a cacheless call recovers, and the cache never exceeds its size plus one |
| SigCache.CacheRemembers | app/app.go:276-296 | on every run an entry is what the call that added it recovered, with the height of that call; hits do not refresh it |
| SigCache.SmallRunsForgetNothing | app/app.go:284-296 | as long as there have been no more calls than the cache's size plus one every recovered sender is still there |
| Deviations.SlashedStakeIsRefundedInFull | staking/staking.go:383-406 | after an unsaved slash the whole stake is refunded and the contract's balance wraps |
| Deviations.SecondNeighbourStaysListed | staking/staking.go:598-603 | of two useless neighbours the second stays listed |
| Deviations.UselessLastPanics | staking/staking.go:598-603 | two useless validators, the last one among them, make the loop panic |
| Deviations.RetiringVotersOvercharge | staking/staking.go:443-475 | an info with power 1 on duty and 100 retiring: the retiring voter alone is credited more than the fee |
| Deviations.GenesisValidatorIsLost | app/app.go:373-383 | a genesis validator removed by the first switch: its refund overdraws the account and the next distribution panics |

## Left out

- The EVM engine, stores and contexts: accounts are a map of balances, loading and saving the info is the identity
  that `Codec.InfoRoundTrip` justifies; SubSystemAccBalance and TransferFromSenderAccToBlackHoleAcc are modelled as
  a payer and a black hole account chosen by the step, the burn doing nothing when the balance is too small.
- ABI decoding of call data, gas accounting and the nil-fee shortcut of DistributeFee: easy members.
- sumVotingPower: its index arithmetic does not match its step, and the rest is an easy sum.
- Crypto, RLP and sender recovery: a function from hash to optional sender; CheckTx's later checks see only that sender.
- The BCH client over HTTP, the wait for a missing tip, and nil results: the client answers with blocks of a tree in
  which hashes are unique, heights grow by one, and first blocks have height 0 or 1.
- A watcher started above height 0: it back-traces below its own start and trips the height check.
- Reorganization.ReorganizationSafety: two blocks or more in an epoch (the code has 2016) and a chain from height 1;
  with one block fewer finalized heights are stored than a walk may reach. `MainLoop.RunExactly` has the exact
  condition for every epoch length and first height.
- A turn of the main loop is one step of `Handover`: commits touch nothing of the watcher but the channel.
- Distribution.DistributesExactly: for calls whose shares do not exceed the fee; the others credit more than the fee
  (`Distribution.CreditsFeeExactly`) and are covered modulo 2^256 by `Books.DistributesModulo`.
- The blocking send inside generateNewEpoch is one atomic step with the block that causes it; nobody else reads the
  watcher's fields meanwhile.
- An external operation sent by the staking contract itself: every theorem has another sender. In the code sender and
  contract would be two copies of one account, of which the second one written wins.
- FeeSplit.RemainderNearProportional: the upper bound is for products below 2^256; an overflowing product makes a share
  smaller by any amount, and the leftover larger.
- Distribution.ProposerLeftover: as FeeSplit.RemainderNearProportional.
- StakingRuns.RunConserves: asks for room for |steps| times the supply in 256 bits, since a leak can be as large as all coins.
- AppCommit.App.Commit: with nominations under foreign keys, which only blocks with two nominations produce, the powers
  are one of several possible maps.
- FeeEntries.VoterGets: for distinct voters and products below 2^256; otherwise the quotients are those of
  `FeeEntries.BaseFeeIs`, `ExtraFeeIs` and `ShareIs`, and the sums those of `Distribution.DistributesExactly`.
- FeeEntries.ProposerGets: as FeeEntries.VoterGets.
- MinGasPrice.AdjustExactly: prices up to 10^17, beyond which products of 64-bit words may wrap; no run that starts in
  range leaves it (`MinGasPrice.RunsStayBounded`), and the method is equal to the wrapping function for every price.
- Retirement.RetiredForGood: while the validator is listed; once a switch has removed it, its address may create a new one.
- Retirement.RetiredLeavesInTheEnd: with useless neighbours it may stay listed (`Deviations.SecondNeighbourStaysListed`).
- Block filters, filter timeouts, liveness and deadlock of the event loop, and the indexed bloombits path, which is
  never taken because BloomStatus reports zero sections; the defaulting of begin and end in Filter.Logs.
- The recheck shortcut of CheckTx through sep206SenderSet: a heuristic.
- Codec: stream variants, Msgsize, and reuse of a receiver's slice capacity, which the only caller never has.
- RPC servers, other APIs, command line, configuration, contracts and test data: plumbing.
