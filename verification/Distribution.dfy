/** DistributeFee credits exactly the collected fee, each part to the validator it is for. */
module Distribution {
  import opened Words
  import opened StakingTypes
  import opened Accounts
  import opened FeeSplit
  import opened Staking
  import opened Solvency

  // What the other voters selected by sel get as their shares.
  function SelectedShares(shared: Word, voted: int, others: seq<Validator>, epoch: int, sel: Selection): nat {
    if others == [] then 0
    else
      var v := others[|others| - 1];
      SelectedShares(shared, voted, others[..|others| - 1], epoch, sel) +
      if sel(v.address, epoch) then Share(shared, voted, v.votingPower) else 0
  }

  lemma {:induction false} AllShares(shared: Word, voted: int, others: seq<Validator>, epoch: int)
    ensures SelectedShares(shared, voted, others, epoch, Everything()) == ShareSum(shared, voted, others)
  {
    if others != [] {
      AllShares(shared, voted, others[..|others| - 1], epoch);
    }
  }

  lemma CreditOneAmount(prs: seq<PendingReward>, k: nat, epoch: int, a: Address, amount: Word, sel: Selection)
    requires k <= |prs| && Pending(prs) + amount < WORD
    ensures Amount(CreditOne(prs, k, epoch, a, amount), sel) ==
            Amount(prs, sel) + if sel(a, epoch) then amount else 0
  {
    var i := FindReward(prs[..k], epoch, a);
    if i.Some? {
      assert prs[i.value] == prs[..k][i.value];
      AmountAt(prs, i.value, Add(prs[i.value].amount, amount), Everything());
      AmountAt(prs, i.value, Add(prs[i.value].amount, amount), sel);
    } else {
      AmountAppend(prs, PendingReward(a, epoch, amount), sel);
    }
  }

  lemma {:induction false} CreditSharesAmount(prs: seq<PendingReward>, epoch: int, shared: Word, voted: int,
                                              others: seq<Validator>, sel: Selection)
    requires Pending(prs) + ShareSum(shared, voted, others) < WORD
    ensures Amount(CreditShares(prs, epoch, shared, voted, others), sel) ==
            Amount(prs, sel) + SelectedShares(shared, voted, others, epoch, sel)
  {
    if others != [] {
      var init, v := others[..|others| - 1], others[|others| - 1];
      CreditSharesAmount(prs, epoch, shared, voted, init, Everything());
      CreditSharesAmount(prs, epoch, shared, voted, init, sel);
      AllShares(shared, voted, init, epoch);
      CreditOneAmount(CreditShares(prs, epoch, shared, voted, init), |prs|, epoch, v.address,
                      Share(shared, voted, v.votingPower), sel);
    }
  }

  lemma {:induction false} OthersAmong(vals: seq<Validator>, proposer: Pubkey)
    ensures forall v :: v in Others(vals, proposer) ==> v in vals && v.pubkey != proposer
  {
    if vals != [] {
      OthersAmong(vals[..|vals| - 1], proposer);
      assert vals == vals[..|vals| - 1] + [vals[|vals| - 1]];
    }
  }

  lemma {:induction false} OthersArePart(vals: seq<Validator>, proposer: Pubkey)
    requires PowersNonNegative(vals)
    ensures PowersNonNegative(Others(vals, proposer))
    ensures PowerSum(Others(vals, proposer)) <= PowerSum(vals)
  {
    if vals != [] {
      var init, v := vals[..|vals| - 1], vals[|vals| - 1];
      OthersArePart(init, proposer);
      if v.pubkey != proposer {
        PowerSumAppend(Others(init, proposer), v);
      }
    }
  }

  lemma VotersHaveNonNegativePowers(info: StakingInfo, voters: seq<Pubkey>)
    requires PowersNonNegative(info.validators) && LookupAll(info.validators, voters).Some?
    ensures PowersNonNegative(LookupAll(info.validators, voters).value)
  {
  }

  // ----- The split, in the terms of one call -----

  ghost predicate Found(info: StakingInfo, proposer: Pubkey, voters: seq<Pubkey>) {
    LookupAll(info.validators, voters).Some? && FindByPubkey(info.validators, proposer).Some?
  }

  ghost function VotedPower(info: StakingInfo, voters: seq<Pubkey>): int
    requires LookupAll(info.validators, voters).Some?
  {
    PowerSum(LookupAll(info.validators, voters).value)
  }

  // The extra fee is not more than there is.
  ghost predicate SplitsExactly(info: StakingInfo, fee: Word, proposer: Pubkey, voters: seq<Pubkey>) {
    Found(info, proposer, voters) && 0 <= VotedPower(info, voters) < TWO64
    && ExtraFits(fee, VotedPower(info, voters), TotalPower(info))
  }

  // What the other voters get together.
  ghost function SharesOf(info: StakingInfo, fee: Word, proposer: Pubkey, voters: seq<Pubkey>): nat
    requires LookupAll(info.validators, voters).Some?
  {
    var vs := LookupAll(info.validators, voters).value;
    ShareSum(SplitFee(fee, PowerSum(vs), TotalPower(info)).shared, PowerSum(vs), Others(vs, proposer))
  }

  ghost predicate SharesCovered(info: StakingInfo, fee: Word, proposer: Pubkey, voters: seq<Pubkey>) {
    Found(info, proposer, voters) && SharesOf(info, fee, proposer, voters) <= fee
  }

  // What one call credits to the selected validators.
  function CreditedTo(info: StakingInfo, fee: Word, proposer: Pubkey, voters: seq<Pubkey>, sel: Selection): nat {
    var vs, p := LookupAll(info.validators, voters), FindByPubkey(info.validators, proposer);
    if vs.None? || p.None? then 0
    else
      var voted := PowerSum(vs.value);
      var split := SplitFee(fee, voted, TotalPower(info));
      var others := Others(vs.value, proposer);
      SelectedShares(split.shared, voted, others, info.currEpochNum, sel) +
      if sel(info.validators[p.value].address, info.currEpochNum) then ProposerFee(split, voted, others) else 0
  }

  // No subtraction wraps around when the extra fee fits, and then the shares are covered.
  lemma PartsOfTheFee(info: StakingInfo, fee: Word, proposer: Pubkey, voters: seq<Pubkey>)
    requires PowersNonNegative(info.validators) && SplitsExactly(info, fee, proposer, voters)
    ensures var voted := VotedPower(info, voters);
            var split := SplitFee(fee, voted, TotalPower(info));
            var others := Others(LookupAll(info.validators, voters).value, proposer);
      && split.base + split.extra + split.shared == fee
      && SharesOf(info, fee, proposer, voters) + Remainder(split.shared, voted, others) == split.shared
    ensures SharesCovered(info, fee, proposer, voters)
  {
    var vs := LookupAll(info.validators, voters).value;
    var voted := PowerSum(vs);
    var split := SplitFee(fee, voted, TotalPower(info));
    VotersHaveNonNegativePowers(info, voters);
    OthersArePart(vs, proposer);
    ExtraFeeFitsExactly(fee, voted, TotalPower(info));
    SharesWithinShared(split.shared, voted, Others(vs, proposer));
    RemainderIsDifference(split.shared, voted, Others(vs, proposer));
  }

  /** The shares of every fee are covered while the voters' power is at most 100/15 of the power on
      duty. */
  lemma CoveredWhenPowerBounded(info: StakingInfo, fee: Word, proposer: Pubkey, voters: seq<Pubkey>)
    requires PowersNonNegative(info.validators) && Found(info, proposer, voters)
    requires 15 * VotedPower(info, voters) <= 100 * TotalPower(info) < TWO64
    ensures SharesCovered(info, fee, proposer, voters)
  {
    VotersHaveNonNegativePowers(info, voters);
    PowerSumNonNegative(LookupAll(info.validators, voters).value);
    ExtraFitsWhenPowerBounded(fee, VotedPower(info, voters), TotalPower(info));
    PartsOfTheFee(info, fee, proposer, voters);
  }

  lemma ProposerModulo(split: Split, voted: int, others: seq<Validator>) returns (own: Word, k: int)
    ensures own == ProposerFee(split, voted, others)
    ensures own == split.base + split.extra + Remainder(split.shared, voted, others) + Wraps(k)
  {
    own := ProposerFee(split, voted, others);
    var k1 := WrappedAdd(split.base, split.extra);
    var k2 := WrappedAdd(Add(split.base, split.extra), Remainder(split.shared, voted, others));
    WrapsSum(k1, k2);
    k := k1 + k2;
  }

  // However often the arithmetic wraps, the proposer gets what the shares leave of the fee.
  lemma ProposerGetsRest(fee: Word, split: Split, k0: int, voted: int, others: seq<Validator>) returns (own: Word, k: int)
    requires split.base + split.extra + split.shared == fee + Wraps(k0)
    ensures own == ProposerFee(split, voted, others)
    ensures own + ShareSum(split.shared, voted, others) == fee + Wraps(k)
  {
    var k1 := RemainderModulo(split.shared, voted, others);
    var k2;
    own, k2 := ProposerModulo(split, voted, others);
    WrapsSum(k0, k1);
    WrapsSum(k0 + k1, k2);
    k := k0 + k1 + k2;
  }

  /** What is credited adds up to the fee exactly when the shares of the other voters do not
      exceed it; no other condition on fees, powers or overflows is needed. */
  lemma CreditsFeeExactly(info: StakingInfo, fee: Word, proposer: Pubkey, voters: seq<Pubkey>)
    requires Found(info, proposer, voters)
    ensures CreditedTo(info, fee, proposer, voters, Everything()) == fee <==> SharesCovered(info, fee, proposer, voters)
  {
    var vs := LookupAll(info.validators, voters).value;
    var others, voted := Others(vs, proposer), PowerSum(vs);
    var split, k0 := SplitModulo(fee, voted, TotalPower(info));
    var own, k := ProposerGetsRest(fee, split, k0, voted, others);
    AllShares(split.shared, voted, others, info.currEpochNum);
    var shares := SharesOf(info, fee, proposer, voters);
    assert CreditedTo(info, fee, proposer, voters, Everything()) == shares + own;
    if shares <= fee {
      WordIsUnique(own, fee - shares, k);
    }
  }

  /** Exact division: the pending rewards grow by precisely the collected fee, and each
      selected part of them by precisely what the call credits to it. */
  lemma DistributesExactly(info: StakingInfo, fee: Word, proposer: Pubkey, voters: seq<Pubkey>, sel: Selection)
    requires SharesCovered(info, fee, proposer, voters) && Pending(info.pendingRewards) + fee < WORD
    ensures DistributedInfo(info, fee, proposer, voters).Some?
    ensures CreditedTo(info, fee, proposer, voters, Everything()) == fee
    ensures Amount(DistributedInfo(info, fee, proposer, voters).value.pendingRewards, sel) ==
            Amount(info.pendingRewards, sel) + CreditedTo(info, fee, proposer, voters, sel)
  {
    var vs := LookupAll(info.validators, voters).value;
    var p := FindByPubkey(info.validators, proposer).value;
    var voted := PowerSum(vs);
    CreditsFeeExactly(info, fee, proposer, voters);
    var split := SplitFee(fee, voted, TotalPower(info));
    var others := Others(vs, proposer);
    var prs, e := info.pendingRewards, info.currEpochNum;
    AllShares(split.shared, voted, others, e);
    CreditSharesAmount(prs, e, split.shared, voted, others, Everything());
    CreditSharesAmount(prs, e, split.shared, voted, others, sel);
    CreditOneAmount(CreditShares(prs, e, split.shared, voted, others), |prs|, e,
                    info.validators[p].address, ProposerFee(split, voted, others), sel);
  }

  /** The proposer's leftover: at least its proportional part of the shared fee, rounded up by at
      most one unit for every other voter. */
  lemma ProposerLeftover(info: StakingInfo, fee: Word, proposer: Pubkey, voters: seq<Pubkey>)
    returns (voted: nat, shared: Word, others: seq<Validator>, left: Word)
    requires PowersNonNegative(info.validators) && Found(info, proposer, voters)
    requires 0 < VotedPower(info, voters) < TWO64
    ensures voted == VotedPower(info, voters) && shared == SplitFee(fee, voted, TotalPower(info)).shared
    ensures others == Others(LookupAll(info.validators, voters).value, proposer)
    ensures left == Remainder(shared, voted, others)
    ensures AtLeastProportional(left, shared, voted - PowerSum(others), voted)
    ensures shared * voted < WORD ==> NearProportional(left, shared, voted - PowerSum(others), voted, |others|)
  {
    var vs := LookupAll(info.validators, voters).value;
    VotersHaveNonNegativePowers(info, voters);
    OthersArePart(vs, proposer);
    voted := PowerSum(vs);
    others := Others(vs, proposer);
    shared := SplitFee(fee, voted, TotalPower(info)).shared;
    RemainderNearProportional(shared, voted, others);
    left := Remainder(shared, voted, others);
  }

  // ----- The list of entries -----

  // New entries only, all of the given epoch and named by `names`; nothing else moves.
  ghost predicate Extends(prs: seq<PendingReward>, prs': seq<PendingReward>, epoch: int, names: set<Address>) {
    && |prs| <= |prs'|
    && (forall i :: 0 <= i < |prs| ==> prs'[i].address == prs[i].address && prs'[i].epochNum == prs[i].epochNum)
    && (forall i :: |prs| <= i < |prs'| ==> prs'[i].address in names && prs'[i].epochNum == epoch)
  }

  lemma CreditOneExtends(prs: seq<PendingReward>, prs': seq<PendingReward>, epoch: int, a: Address, amount: Word, names: set<Address>)
    requires Extends(prs, prs', epoch, names) && a in names
    ensures Extends(prs, CreditOne(prs', |prs|, epoch, a, amount), epoch, names)
  {
  }

  lemma {:induction false} CreditSharesExtends(prs: seq<PendingReward>, epoch: int, shared: Word, voted: int,
                                               others: seq<Validator>, names: set<Address>)
    requires forall v :: v in others ==> v.address in names
    ensures Extends(prs, CreditShares(prs, epoch, shared, voted, others), epoch, names)
  {
    if others != [] {
      var init, v := others[..|others| - 1], others[|others| - 1];
      CreditSharesExtends(prs, epoch, shared, voted, init, names);
      CreditOneExtends(prs, CreditShares(prs, epoch, shared, voted, init), epoch, v.address,
                       Share(shared, voted, v.votingPower), names);
    }
  }

  // Whoever is credited is the proposer or one of the voters.
  lemma DistributedExtendsFor(info: StakingInfo, fee: Word, proposer: Pubkey, voters: seq<Pubkey>, names: set<Address>)
    requires Found(info, proposer, voters)
    requires info.validators[FindByPubkey(info.validators, proposer).value].address in names
    requires forall v :: v in LookupAll(info.validators, voters).value ==> v.address in names
    ensures Extends(info.pendingRewards, DistributedInfo(info, fee, proposer, voters).value.pendingRewards,
                    info.currEpochNum, names)
  {
    var vs := LookupAll(info.validators, voters).value;
    var p := FindByPubkey(info.validators, proposer).value;
    var voted := PowerSum(vs);
    var split := SplitFee(fee, voted, TotalPower(info));
    var others := Others(vs, proposer);
    OthersAmong(vs, proposer);
    CreditSharesExtends(info.pendingRewards, info.currEpochNum, split.shared, voted, others, names);
    CreditOneExtends(info.pendingRewards,
                     CreditShares(info.pendingRewards, info.currEpochNum, split.shared, voted, others),
                     info.currEpochNum, info.validators[p].address, ProposerFee(split, voted, others), names);
  }

  lemma DistributedExtends(info: StakingInfo, fee: Word, proposer: Pubkey, voters: seq<Pubkey>)
    requires Found(info, proposer, voters)
    ensures Extends(info.pendingRewards, DistributedInfo(info, fee, proposer, voters).value.pendingRewards,
                    info.currEpochNum, set v | v in info.validators :: v.address)
  {
    var vs := LookupAll(info.validators, voters).value;
    assert info.validators[FindByPubkey(info.validators, proposer).value] in info.validators;
    forall v | v in vs ensures v in info.validators {
    }
    DistributedExtendsFor(info, fee, proposer, voters, set v | v in info.validators :: v.address);
  }

  lemma DistributionKeepsWellFormed(info: StakingInfo, fee: Word, proposer: Pubkey, voters: seq<Pubkey>)
    requires WellFormed(info) && Found(info, proposer, voters)
    ensures WellFormed(DistributedInfo(info, fee, proposer, voters).value)
  {
    DistributedExtends(info, fee, proposer, voters);
    var prs' := DistributedInfo(info, fee, proposer, voters).value.pendingRewards;
    forall i | 0 <= i < |prs'| ensures FindByAddr(info.validators, prs'[i].address).Some? {
      if i >= |info.pendingRewards| {
        var v :| v in info.validators && v.address == prs'[i].address;
      }
    }
  }

  // The fee moves from the payer's account to the staking account.
  function Collected(w: World, payer: Address, fee: Word): World {
    w.(accounts := w.accounts[payer := Sub(BalanceOf(w.accounts, payer), fee)])
  }

  lemma DistributeFeeConserves(w: World, payer: Address, fee: Word, proposer: Pubkey, voters: seq<Pubkey>)
    returns (w': World)
    requires InRange(w) && payer != STAKING_CONTRACT && fee <= BalanceOf(w.accounts, payer)
    requires SharesCovered(w.info, fee, proposer, voters)
    ensures DistributeFee(Collected(w, payer, fee), fee, proposer, voters) == Some(w')
    ensures STAKING_CONTRACT in w'.accounts && Excess(w') == Excess(w) && Supply(w'.accounts) == Supply(w.accounts)
  {
    TwoBalancesWithinSupply(w.accounts, payer, STAKING_CONTRACT);
    DistributesExactly(w.info, fee, proposer, voters, Everything());
    MovedConserves(w.accounts, payer, STAKING_CONTRACT, fee);
    w' := DistributeFee(Collected(w, payer, fee), fee, proposer, voters).value;
    assert w'.accounts == Moved(w.accounts, payer, STAKING_CONTRACT, fee);
  }
}
