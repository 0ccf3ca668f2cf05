/** Conservation of coins: what the staking account holds against what it owes. */
module Solvency {
  import opened Words
  import opened StakingTypes
  import opened Accounts
  import opened FeeSplit
  import opened Staking

  function Staked(vals: seq<Validator>): nat {
    if vals == [] then 0 else Staked(vals[..|vals| - 1]) + vals[|vals| - 1].stakedCoins
  }

  // A selection of pending rewards by validator address and epoch.
  type Selection = (Address, int) -> bool

  function Everything(): Selection {
    (a, e) => true
  }

  function Only(address: Address, epoch: int): Selection {
    (a, e) => a == address && e == epoch
  }

  function Amount(prs: seq<PendingReward>, sel: Selection): nat {
    if prs == [] then 0
    else
      var pr := prs[|prs| - 1];
      Amount(prs[..|prs| - 1], sel) + if sel(pr.address, pr.epochNum) then pr.amount else 0
  }

  function Pending(prs: seq<PendingReward>): nat {
    Amount(prs, Everything())
  }

  function Owed(info: StakingInfo): nat {
    Staked(info.validators) + Pending(info.pendingRewards)
  }

  // The part of the staking account's balance that nobody has a claim on.
  function Excess(w: World): int {
    BalanceOf(w.accounts, STAKING_CONTRACT) - Owed(w.info)
  }

  ghost predicate RewardsListed(info: StakingInfo) {
    forall i :: 0 <= i < |info.pendingRewards| ==>
      && FindByAddr(info.validators, info.pendingRewards[i].address).Some?
      && info.currEpochNum - 1 <= info.pendingRewards[i].epochNum <= info.currEpochNum
  }

  ghost predicate WellFormed(info: StakingInfo) {
    DistinctKeys(info.validators) && PowersNonNegative(info.validators) && RewardsListed(info)
  }

  /** All coins fit into a word, and so do all claims together with the coins of the other
      accounts, which is what the supply minus the excess comes to.  The excess may be negative,
      as it is after genesis. */
  ghost predicate InRange(w: World) {
    STAKING_CONTRACT in w.accounts && Supply(w.accounts) < WORD && Supply(w.accounts) - Excess(w) < WORD
  }

  ghost predicate Solvent(w: World) {
    STAKING_CONTRACT in w.accounts && Supply(w.accounts) < WORD && Excess(w) >= 0
  }

  // ----- Sums -----

  lemma {:induction false} StakedAt(vals: seq<Validator>, i: nat, v: Validator)
    requires i < |vals|
    ensures Staked(vals[i := v]) == Staked(vals) - vals[i].stakedCoins + v.stakedCoins
    ensures vals[i].stakedCoins <= Staked(vals)
  {
    var n := |vals| - 1;
    if i == n {
      assert vals[i := v][..n] == vals[..n];
    } else {
      assert vals[i := v][..n] == vals[..n][i := v];
      StakedAt(vals[..n], i, v);
    }
  }

  lemma StakedAppend(vals: seq<Validator>, v: Validator)
    ensures Staked(vals + [v]) == Staked(vals) + v.stakedCoins
  {
    assert (vals + [v])[..|vals|] == vals;
  }

  lemma {:induction false} StakedSplit(a: seq<Validator>, b: seq<Validator>)
    ensures Staked(a + b) == Staked(a) + Staked(b)
  {
    if b == [] {
      assert a + b == a;
    } else {
      assert (a + b)[..|a + b| - 1] == a + b[..|b| - 1];
      StakedSplit(a, b[..|b| - 1]);
    }
  }

  lemma {:induction false} AmountAt(prs: seq<PendingReward>, i: nat, amount: Word, sel: Selection)
    requires i < |prs|
    ensures Amount(prs[i := prs[i].(amount := amount)], sel) ==
            Amount(prs, sel) + if sel(prs[i].address, prs[i].epochNum) then amount - prs[i].amount else 0
    ensures sel(prs[i].address, prs[i].epochNum) ==> prs[i].amount <= Amount(prs, sel)
  {
    var n, pr := |prs| - 1, prs[i].(amount := amount);
    if i == n {
      assert prs[i := pr][..n] == prs[..n];
    } else {
      assert prs[i := pr][..n] == prs[..n][i := pr];
      AmountAt(prs[..n], i, amount, sel);
    }
  }

  lemma AmountAppend(prs: seq<PendingReward>, pr: PendingReward, sel: Selection)
    ensures Amount(prs + [pr], sel) == Amount(prs, sel) + if sel(pr.address, pr.epochNum) then pr.amount else 0
  {
    assert (prs + [pr])[..|prs|] == prs;
  }

  lemma {:induction false} AmountZeros(prs: seq<PendingReward>, more: seq<PendingReward>, sel: Selection)
    requires forall i :: 0 <= i < |more| ==> more[i].amount == 0
    ensures Amount(prs + more, sel) == Amount(prs, sel)
  {
    if more == [] {
      assert prs + more == prs;
    } else {
      assert (prs + more)[..|prs + more| - 1] == prs + more[..|more| - 1];
      AmountZeros(prs, more[..|more| - 1], sel);
    }
  }

  lemma {:induction false} AmountWithinPending(prs: seq<PendingReward>, sel: Selection)
    ensures Amount(prs, sel) <= Pending(prs)
  {
    if prs != [] {
      AmountWithinPending(prs[..|prs| - 1], sel);
    }
  }

  // ----- Moving coins -----

  lemma MovedConserves(m: Balances, from: Address, to: Address, amount: Word)
    requires from != to && amount <= BalanceOf(m, from) && Supply(m) < WORD
    ensures BalanceOf(Moved(m, from, to, amount), from) == BalanceOf(m, from) - amount
    ensures BalanceOf(Moved(m, from, to, amount), to) == BalanceOf(m, to) + amount
    ensures Supply(Moved(m, from, to, amount)) == Supply(m)
  {
    TwoBalancesWithinSupply(m, from, to);
    var m' := m[from := Sub(BalanceOf(m, from), amount)];
    SupplyUpdated(m, from, BalanceOf(m, from) - amount);
    SupplyUpdated(m', to, BalanceOf(m, to) + amount);
  }

  // ----- createValidator, editValidator, retire -----

  lemma OperateKeepsWellFormed(info: StakingInfo, from: Address, value: Word, op: Operation)
    requires WellFormed(info)
    ensures WellFormed(OperateOnInfo(info, from, value, op).0)
    ensures OperateOnInfo(info, from, value, op).0.pendingRewards == info.pendingRewards
    ensures OperateOnInfo(info, from, value, op).0.currEpochNum == info.currEpochNum
    ensures forall v :: v in info.validators ==>
      exists v' :: v' in OperateOnInfo(info, from, value, op).0.validators && v'.address == v.address && v'.pubkey == v.pubkey
  {
    var vals, vals' := info.validators, OperateOnInfo(info, from, value, op).0.validators;
    forall i | 0 <= i < |vals|
      ensures vals'[i].address == vals[i].address && vals'[i].pubkey == vals[i].pubkey
    {
    }
    forall i | 0 <= i < |info.pendingRewards|
      ensures FindByAddr(vals', info.pendingRewards[i].address).Some?
    {
      var k := FindByAddr(vals, info.pendingRewards[i].address).value;
      assert vals'[k].address == info.pendingRewards[i].address;
    }
    forall v | v in vals ensures exists v' :: v' in vals' && v'.address == v.address && v'.pubkey == v.pubkey {
      var i :| 0 <= i < |vals| && vals[i] == v;
      assert vals'[i] in vals';
    }
  }

  lemma OperateStakes(info: StakingInfo, from: Address, value: Word, op: Operation)
    requires Staked(info.validators) + value < WORD
    ensures var (info', outcome) := OperateOnInfo(info, from, value, op);
            Staked(info'.validators) == Staked(info.validators) + if outcome == Success then value else 0
  {
    var vals := info.validators;
    if op.CreateValidator? {
      StakedAppend(vals, NewValidator(from, op.pubkey, op.intro, value, op.rewardTo));
    } else {
      var i := FindByAddr(vals, from);
      if i.Some? {
        StakedAt(vals, i.value, EditedValidator(vals[i.value], value, op));
      }
    }
  }

  lemma ExternalOpConserves(w: World, from: Address, value: Word, op: Operation)
    requires InRange(w) && from != STAKING_CONTRACT
    ensures var w' := ExternalOp(w, from, value, op).0;
      STAKING_CONTRACT in w'.accounts && Excess(w') == Excess(w) && Supply(w'.accounts) == Supply(w.accounts)
  {
    if value <= BalanceOf(w.accounts, from) {
      TwoBalancesWithinSupply(w.accounts, from, STAKING_CONTRACT);
      OperateStakes(w.info, from, value, op);
      MovedConserves(w.accounts, from, STAKING_CONTRACT, value);
    }
  }
}
