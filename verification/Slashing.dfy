/** Slash burns coins; the info it edits on the way is not written back. */
module Slashing {
  import opened Words
  import opened StakingTypes
  import opened Accounts
  import opened Staking
  import opened Solvency

  function Of(address: Address): Selection {
    (a, e) => a == address
  }

  lemma {:induction false} ClearedTotalIsAmount(prs: seq<PendingReward>, a: Address)
    requires Pending(prs) < WORD
    ensures ClearedTotal(prs, a) == Amount(prs, Of(a))
  {
    if prs != [] {
      ClearedTotalIsAmount(prs[..|prs| - 1], a);
      AmountWithinPending(prs, Of(a));
    }
  }

  lemma {:induction false} ClearedRewardsAmount(prs: seq<PendingReward>, epoch: int, a: Address)
    ensures Pending(ClearedRewards(prs, epoch, a)) + Amount(prs, Of(a)) == Pending(prs)
  {
    if prs != [] {
      var init, pr := prs[..|prs| - 1], prs[|prs| - 1];
      var r := ClearedRewards(init, epoch, a);
      ClearedRewardsAmount(init, epoch, a);
      AmountAppend(r, pr, Everything());
      AmountAppend(r, pr.(amount := 0), Everything());
    }
  }

  // What is slashed is exactly what the edited info no longer owes.
  lemma SlashedIsOwed(info: StakingInfo, pk: Pubkey, amount: Word)
    requires Owed(info) < WORD
    ensures Owed(SlashedInfo(info, pk, amount)) + TotalSlashed(info, pk, amount) == Owed(info)
  {
    var i := FindByPubkey(info.validators, pk);
    if i.Some? {
      var v := info.validators[i.value];
      StakedAt(info.validators, i.value, v.(stakedCoins := v.stakedCoins - SlashedCoins(v, amount)));
      AmountWithinPending(info.pendingRewards, Of(v.address));
      ClearedTotalIsAmount(info.pendingRewards, v.address);
      ClearedRewardsAmount(info.pendingRewards, info.currEpochNum, v.address);
    }
  }

  // The coins Slash moves to the black hole: none when the unchecked transfer fails.
  function Burnt(w: World, pk: Pubkey, amount: Word): Word {
    var total := TotalSlashed(w.info, pk, amount);
    if BalanceOf(w.accounts, STAKING_CONTRACT) < total then 0 else total
  }

  // What Slash would leave behind if it saved the info it edits.
  function SavedSlash(w: World, blackHole: Address, pk: Pubkey, amount: Word): World {
    Slash(w, blackHole, pk, amount).(info := SlashedInfo(w.info, pk, amount))
  }

  /** The stored info, which Slash leaves as it was, claims too much by exactly what was burnt. */
  lemma SlashBurns(w: World, blackHole: Address, pk: Pubkey, amount: Word)
    requires STAKING_CONTRACT in w.accounts && Supply(w.accounts) < WORD && blackHole != STAKING_CONTRACT
    ensures var w' := Slash(w, blackHole, pk, amount);
      && w'.info == w.info
      && Supply(w'.accounts) == Supply(w.accounts)
      && STAKING_CONTRACT in w'.accounts
      && Excess(w') == Excess(w) - Burnt(w, pk, amount)
      && BalanceOf(w'.accounts, blackHole) == BalanceOf(w.accounts, blackHole) + Burnt(w, pk, amount)
  {
    var total := TotalSlashed(w.info, pk, amount);
    BalanceWithinSupply(w.accounts, STAKING_CONTRACT);
    if total <= BalanceOf(w.accounts, STAKING_CONTRACT) {
      MovedConserves(w.accounts, STAKING_CONTRACT, blackHole, total);
    }
  }

  /** The edited info balances against the new account exactly when the burn does not fail. */
  lemma SavedSlashBalances(w: World, blackHole: Address, pk: Pubkey, amount: Word)
    requires InRange(w) && blackHole != STAKING_CONTRACT
    ensures Excess(SavedSlash(w, blackHole, pk, amount)) == Excess(w) <==>
            TotalSlashed(w.info, pk, amount) <= BalanceOf(w.accounts, STAKING_CONTRACT)
  {
    BalanceWithinSupply(w.accounts, STAKING_CONTRACT);
    SlashBurns(w, blackHole, pk, amount);
    SlashedIsOwed(w.info, pk, amount);
  }

  /** While the books balance the burn does not fail. */
  lemma SolventBurns(w: World, pk: Pubkey, amount: Word)
    requires Solvent(w)
    ensures TotalSlashed(w.info, pk, amount) <= BalanceOf(w.accounts, STAKING_CONTRACT)
  {
    SlashedIsOwed(w.info, pk, amount);
  }

  // ----- The edited info -----

  // Whose entry it is, and whether it can be left after the validator with address a is cleared.
  ghost predicate LeftOver(prs: seq<PendingReward>, epoch: int, a: Address, pr: PendingReward) {
    if pr.address != a then pr in prs
    else pr.epochNum == epoch && pr.amount == 0 && exists was :: was in prs && was == pr.(amount := was.amount)
  }

  /** Clearing leaves every entry of the others, and the entries of the current epoch with amount zero:
      the validator keeps its place in the epoch, and nothing older. */
  lemma {:induction false} ClearedEntriesExactly(prs: seq<PendingReward>, epoch: int, a: Address, pr: PendingReward)
    ensures pr in ClearedRewards(prs, epoch, a) <==> LeftOver(prs, epoch, a, pr)
  {
    if prs != [] {
      var init, last := prs[..|prs| - 1], prs[|prs| - 1];
      assert prs == init + [last];
      ClearedEntriesExactly(init, epoch, a, pr);
      if pr == last.(amount := 0) && last.address == a && last.epochNum == epoch {
        assert last in prs && last == pr.(amount := last.amount);
      }
    }
  }

  lemma {:induction false} ClearedAre(prs: seq<PendingReward>, epoch: int, a: Address)
    ensures forall pr :: pr in ClearedRewards(prs, epoch, a) ==>
      exists i :: 0 <= i < |prs| && prs[i].address == pr.address && prs[i].epochNum == pr.epochNum
  {
    if prs != [] {
      var init := prs[..|prs| - 1];
      ClearedAre(init, epoch, a);
      forall pr | pr in ClearedRewards(prs, epoch, a)
        ensures exists i :: 0 <= i < |prs| && prs[i].address == pr.address && prs[i].epochNum == pr.epochNum
      {
        if pr in ClearedRewards(init, epoch, a) {
          var i :| 0 <= i < |init| && init[i].address == pr.address && init[i].epochNum == pr.epochNum;
          assert prs[i] == init[i];
        } else {
          assert prs[|prs| - 1].address == pr.address;
        }
      }
    }
  }

  lemma SlashedKeepsWellFormed(info: StakingInfo, pk: Pubkey, amount: Word)
    requires WellFormed(info)
    ensures WellFormed(SlashedInfo(info, pk, amount))
  {
    var i := FindByPubkey(info.validators, pk);
    if i.Some? {
      var info' := SlashedInfo(info, pk, amount);
      ClearedAre(info.pendingRewards, info.currEpochNum, info.validators[i.value].address);
      forall k | 0 <= k < |info'.pendingRewards|
        ensures FindByAddr(info'.validators, info'.pendingRewards[k].address).Some?
        ensures info.currEpochNum - 1 <= info'.pendingRewards[k].epochNum <= info.currEpochNum
      {
        var pr := info'.pendingRewards[k];
        assert pr in info'.pendingRewards;
        var j :| 0 <= j < |info.pendingRewards| && info.pendingRewards[j].address == pr.address
          && info.pendingRewards[j].epochNum == pr.epochNum;
        var m := FindByAddr(info.validators, pr.address).value;
        assert info'.validators[m].address == pr.address;
      }
    }
  }
}
