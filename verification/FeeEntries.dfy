/** What one call of DistributeFee adds to whose entry (staking/staking.go:443-492). */
module FeeEntries {
  import opened Words
  import opened StakingTypes
  import opened FeeSplit
  import opened Staking
  import opened Solvency
  import opened Distribution
  import opened Rewards
  import opened ActiveValidators
  import opened DutyRoster

  // ----- The three quotients, for every input -----

  // q is the quotient of p by d, rounded down; zero when d is zero.
  ghost predicate IsQuotient(q: nat, p: int, d: int) {
    if d == 0 then q == 0 else q * d <= p < (q + 1) * d
  }

  lemma QuotientIs(p: Word, d: Word)
    ensures IsQuotient(Div(p, d), p, d)
  {
    DivIs(p, d);
    if d != 0 {
      var q := p / d;
      assert p == q * d + p % d;
      assert (q + 1) * d == q * d + d;
    }
  }

  lemma ModSmall(x: nat, m: nat)
    requires x < m
    ensures x % m == x
  {
  }

  /** 15 percent of the fee, the product first and wrapped at 2^256. */
  lemma BaseFeeIs(fee: Word)
    ensures IsQuotient(BaseFee(fee), (fee * 15) % WORD, 100)
  {
    MulIs(fee, 15);
    QuotientIs(Mul(fee, 15), 100);
  }

  // The product 15 * rest, wrapped.
  function FifteenTimes(rest: Word): Word {
    (rest * 15) % WORD
  }

  // A product of words, wrapped.
  function Wrapped(a: Word, b: Word): Word {
    (a * b) % WORD
  }

  /** 15 percent of the rest in the proportion of the voted power to the power on duty. */
  lemma ExtraFeeIs(rest: Word, voted: int, total: int)
    ensures IsQuotient(ExtraFee(rest, voted, total), Wrapped(FifteenTimes(rest), Uint64(voted)), Uint64(100 * total))
  {
    MulIs(rest, 15);
    MulIs(FifteenTimes(rest), Uint64(voted));
    QuotientIs(Wrapped(FifteenTimes(rest), Uint64(voted)), Uint64(100 * total));
  }

  lemma ExtraFeeIsPlainly(rest: Word, voted: nat, total: nat)
    requires rest * 15 < WORD && rest * 15 * voted < WORD && voted < TWO64 && 100 * total < TWO64
    ensures IsQuotient(ExtraFee(rest, voted, total), rest * 15 * voted, 100 * total)
  {
    var p := rest * 15;
    ModSmall(p, WORD);
    ModSmall(p * voted, WORD);
    ExtraFeeIs(rest, voted, total);
  }

  /** A voter's part of the shared fee in proportion to its power. */
  lemma ShareIs(shared: Word, voted: int, power: int)
    ensures IsQuotient(Share(shared, voted, power), Wrapped(shared, Uint64(power)), Uint64(voted))
  {
    MulIs(shared, Uint64(power));
    QuotientIs(Wrapped(shared, Uint64(power)), Uint64(voted));
  }

  lemma ShareIsPlainly(shared: Word, voted: nat, power: nat)
    requires shared * power < WORD && voted < TWO64 && power < TWO64
    ensures IsQuotient(Share(shared, voted, power), shared * power, voted)
  {
    ModSmall(shared * power, WORD);
    ShareIs(shared, voted, power);
  }

  // ----- Whose entry grows by how much -----

  lemma {:induction false} NoShareFor(shared: Word, voted: int, others: seq<Validator>, epoch: int, a: Address)
    requires forall i :: 0 <= i < |others| ==> others[i].address != a
    ensures SelectedShares(shared, voted, others, epoch, Only(a, epoch)) == 0
  {
    if others != [] {
      NoShareFor(shared, voted, others[..|others| - 1], epoch, a);
    }
  }

  lemma {:induction false} ShareFor(shared: Word, voted: int, others: seq<Validator>, epoch: int, i: nat)
    requires DistinctKeys(others) && i < |others|
    ensures SelectedShares(shared, voted, others, epoch, Only(others[i].address, epoch)) ==
            Share(shared, voted, others[i].votingPower)
  {
    var n := |others| - 1;
    if i == n {
      NoShareFor(shared, voted, others[..n], epoch, others[i].address);
    } else {
      ShareFor(shared, voted, others[..n], epoch, i);
    }
  }

  lemma {:induction false} OthersHas(vals: seq<Validator>, proposer: Pubkey, v: Validator)
    requires v in vals && v.pubkey != proposer
    ensures v in Others(vals, proposer)
  {
    var n := |vals| - 1;
    if v != vals[n] {
      assert vals == vals[..n] + [vals[n]];
      OthersHas(vals[..n], proposer, v);
    }
  }

  // No product of the call overflows, and the extra fee is not more than there is.
  ghost predicate PlainCall(info: StakingInfo, fee: Word, proposer: Pubkey, voters: seq<Pubkey>) {
    && DistinctKeys(info.validators) && PowersNonNegative(info.validators) && DistinctVoters(voters)
    && SplitsExactly(info, fee, proposer, voters) && Pending(info.pendingRewards) + fee < WORD
    && NoOverflow(fee, VotedPower(info, voters), TotalPower(info))
  }

  ghost predicate NoOverflow(fee: Word, voted: int, total: int) {
    fee * 15 < WORD && fee * 15 * voted < WORD && voted < TWO64 && 100 * total < TWO64
  }

  // The fee in its three parts: 15 percent, 15 percent in proportion, and what is shared.
  ghost predicate AreParts(info: StakingInfo, fee: Word, voters: seq<Pubkey>, base: Word, extra: Word, shared: Word)
    requires LookupAll(info.validators, voters).Some?
  {
    ArePartsFor(fee, VotedPower(info, voters), TotalPower(info), base, extra, shared)
  }

  ghost predicate ArePartsFor(fee: Word, voted: int, total: int, base: Word, extra: Word, shared: Word) {
    base + extra + shared == fee && IsBase(base, fee) && IsExtra(extra, fee - base, voted, total)
  }

  ghost predicate IsBase(base: nat, fee: nat) {
    100 * base <= 15 * fee < 100 * (base + 1)
  }

  ghost predicate IsExtra(extra: nat, rest: int, voted: int, total: int) {
    IsQuotient(extra, rest * 15 * voted, 100 * total)
  }

  lemma ProductFits(a: nat, b: nat, c: nat)
    requires a <= b && b * 15 < WORD && b * 15 * c < WORD
    ensures a * 15 < WORD && a * 15 * c < WORD
  {
    MulMono(a * 15, b * 15, c);
  }

  lemma PowersOnDuty(info: StakingInfo)
    requires PowersNonNegative(info.validators)
    ensures TotalPower(info) >= 0
  {
    var active := Active(info.validators, MINIMUM_STAKING_AMOUNT);
    ActiveAreListed(info.validators, MINIMUM_STAKING_AMOUNT);
    forall i | 0 <= i < |active| ensures active[i].votingPower >= 0 {
      assert active[i] in active;
    }
    PowerSumNonNegative(active);
  }

  lemma BasePart(fee: Word)
    requires fee * 15 < WORD
    ensures IsBase(BaseFee(fee), fee)
  {
    ModSmall(fee * 15, WORD);
    BaseFeeIs(fee);
  }

  lemma ExtraPart(fee: Word, base: Word, voted: nat, total: nat)
    requires base <= fee && NoOverflow(fee, voted, total)
    ensures IsExtra(ExtraFee(fee - base, voted, total), fee - base, voted, total)
  {
    ProductFits(fee - base, fee, voted);
    ExtraFeeIsPlainly(fee - base, voted, total);
  }

  lemma SplitIsParts(fee: Word, voted: nat, total: nat, split: Split)
    requires NoOverflow(fee, voted, total) && split == SplitFee(fee, voted, total)
    requires split.base + split.extra + split.shared == fee
    ensures ArePartsFor(fee, voted, total, split.base, split.extra, split.shared)
  {
    BasePart(fee);
    ExtraPart(fee, split.base, voted, total);
  }

  lemma PartsOf(info: StakingInfo, fee: Word, proposer: Pubkey, voters: seq<Pubkey>) returns (base: Word, extra: Word, shared: Word)
    requires PlainCall(info, fee, proposer, voters)
    ensures AreParts(info, fee, voters, base, extra, shared)
    ensures SplitFee(fee, VotedPower(info, voters), TotalPower(info)) == Split(base, extra, shared)
    ensures SharesOf(info, fee, proposer, voters) <= shared
  {
    var voted, total := VotedPower(info, voters), TotalPower(info);
    PartsOfTheFee(info, fee, proposer, voters);
    PowersOnDuty(info);
    var split := SplitFee(fee, voted, total);
    SplitIsParts(fee, voted, total, split);
    base, extra, shared := split.base, split.extra, split.shared;
  }

  lemma ListedAt(info: StakingInfo, proposer: Pubkey, voters: seq<Pubkey>, i: nat) returns (v: Validator, k: nat)
    requires DistinctKeys(info.validators) && DistinctVoters(voters) && Found(info, proposer, voters)
    requires i < |voters| && voters[i] != proposer
    ensures v in info.validators && v.pubkey == voters[i]
    ensures var others := Others(LookupAll(info.validators, voters).value, proposer);
      DistinctKeys(others) && k < |others| && others[k] == v
    ensures info.validators[FindByPubkey(info.validators, proposer).value].address != v.address
  {
    var vs := LookupAll(info.validators, voters).value;
    var others := Others(vs, proposer);
    OthersAreNotProposer(info.validators, voters, proposer, FindByPubkey(info.validators, proposer).value);
    v := vs[i];
    OthersHas(vs, proposer, v);
    k :| 0 <= k < |others| && others[k] == v;
  }

  /** A voter other than the proposer: its entry of the current epoch grows by its part of the shared
      fee in proportion to its power, rounded down. */
  lemma VoterGets(info: StakingInfo, fee: Word, proposer: Pubkey, voters: seq<Pubkey>, i: nat)
    returns (base: Word, extra: Word, shared: Word, v: Validator, share: Word)
    requires PlainCall(info, fee, proposer, voters) && i < |voters| && voters[i] != proposer
    ensures AreParts(info, fee, voters, base, extra, shared)
    ensures v in info.validators && v.pubkey == voters[i] && v.votingPower >= 0
    ensures IsQuotient(share, shared * v.votingPower, VotedPower(info, voters))
    ensures DistributedInfo(info, fee, proposer, voters).Some?
    ensures OwedTo(DistributedInfo(info, fee, proposer, voters).value, v.address, info.currEpochNum) ==
            OwedTo(info, v.address, info.currEpochNum) + share
  {
    base, extra, shared := PartsOf(info, fee, proposer, voters);
    var k;
    v, k := ListedAt(info, proposer, voters, i);
    var vs, voted, e := LookupAll(info.validators, voters).value, VotedPower(info, voters), info.currEpochNum;
    PartsOfTheFee(info, fee, proposer, voters);
    DistributesExactly(info, fee, proposer, voters, Only(v.address, e));
    ShareFor(shared, voted, Others(vs, proposer), e, k);
    share := Share(shared, voted, v.votingPower);
    VotedAtLeast(info, proposer, voters, v, k);
    ShareFits(shared, fee, v.votingPower, voted);
    ShareIsPlainly(shared, voted, v.votingPower);
  }

  lemma VotedAtLeast(info: StakingInfo, proposer: Pubkey, voters: seq<Pubkey>, v: Validator, k: nat)
    requires PowersNonNegative(info.validators) && Found(info, proposer, voters)
    requires var others := Others(LookupAll(info.validators, voters).value, proposer); k < |others| && others[k] == v
    ensures 0 <= v.votingPower <= VotedPower(info, voters)
  {
    var vs := LookupAll(info.validators, voters).value;
    VotersHaveNonNegativePowers(info, voters);
    OthersArePart(vs, proposer);
    PowerSumNonNegative(Others(vs, proposer));
  }

  lemma ShareFits(shared: nat, fee: nat, power: nat, voted: nat)
    requires shared <= fee && power <= voted && fee * 15 * voted < WORD
    ensures shared * power < WORD
  {
    MulMono(shared, fee, power);
    MulMono(power, voted, fee);
    assert power * fee == fee * power && voted * fee == fee * voted;
    assert fee * voted <= fee * 15 * voted by {
      MulMono(fee, fee * 15, voted);
    }
  }

  /** The proposer: its entry grows by the base fee, the extra fee, and what the shares of the others
      leave of the shared fee. */
  lemma ProposerGets(info: StakingInfo, fee: Word, proposer: Pubkey, voters: seq<Pubkey>)
    returns (base: Word, extra: Word, shared: Word, p: Validator)
    requires PlainCall(info, fee, proposer, voters)
    ensures AreParts(info, fee, voters, base, extra, shared)
    ensures p in info.validators && p.pubkey == proposer && SharesOf(info, fee, proposer, voters) <= shared
    ensures DistributedInfo(info, fee, proposer, voters).Some?
    ensures OwedTo(DistributedInfo(info, fee, proposer, voters).value, p.address, info.currEpochNum) ==
            OwedTo(info, p.address, info.currEpochNum) + base + extra + (shared - SharesOf(info, fee, proposer, voters))
  {
    base, extra, shared := PartsOf(info, fee, proposer, voters);
    var i := FindByPubkey(info.validators, proposer).value;
    p := info.validators[i];
    var vs, voted, e := LookupAll(info.validators, voters).value, VotedPower(info, voters), info.currEpochNum;
    PartsOfTheFee(info, fee, proposer, voters);
    OthersAreNotProposer(info.validators, voters, proposer, i);
    DistributesExactly(info, fee, proposer, voters, Only(p.address, e));
    var others := Others(vs, proposer);
    forall k | 0 <= k < |others| ensures others[k].address != p.address {
      assert others[k] in others;
    }
    NoShareFor(shared, voted, others, e, p.address);
  }

  // ----- Whose power counts, and which entries are new -----

  /** The voted power is the sum of the voters' powers, and the whole power is that of the validators on
      duty. */
  lemma PowersAre(info: StakingInfo, voters: seq<Pubkey>, vals: seq<Validator>, v: Validator) returns (duty: seq<Validator>)
    requires LookupAll(info.validators, voters).Some?
    ensures PowerSum([]) == 0 && PowerSum(vals + [v]) == PowerSum(vals) + v.votingPower
    ensures VotedPower(info, voters) == PowerSum(LookupAll(info.validators, voters).value)
    ensures IsRoster(info.validators, duty) && TotalPower(info) == PowerSum(duty)
  {
    assert (vals + [v])[..|vals|] == vals;
    duty := Active(info.validators, MINIMUM_STAKING_AMOUNT);
    ActiveIsRoster(info.validators);
  }

  // How many of these have no entry of the epoch yet.
  ghost function WithoutEntry(prs: seq<PendingReward>, epoch: int, vals: seq<Validator>): nat {
    if vals == [] then 0
    else
      var a := vals[|vals| - 1].address;
      WithoutEntry(prs, epoch, vals[..|vals| - 1])
      + if exists i :: 0 <= i < |prs| && prs[i].address == a && prs[i].epochNum == epoch then 0 else 1
  }

  lemma CreditOneLength(prs: seq<PendingReward>, prs': seq<PendingReward>, epoch: int, a: Address, amount: Word, names: set<Address>)
    requires Extends(prs, prs', epoch, names)
    ensures |CreditOne(prs', |prs|, epoch, a, amount)| == |prs'|
      + if exists i :: 0 <= i < |prs| && prs[i].address == a && prs[i].epochNum == epoch then 0 else 1
  {
    forall i | 0 <= i < |prs| ensures prs'[..|prs|][i].address == prs[i].address && prs'[..|prs|][i].epochNum == prs[i].epochNum {
    }
  }

  lemma {:induction false} SharesLength(prs: seq<PendingReward>, epoch: int, shared: Word, voted: int,
                                        others: seq<Validator>, names: set<Address>)
    requires forall v :: v in others ==> v.address in names
    ensures |CreditShares(prs, epoch, shared, voted, others)| == |prs| + WithoutEntry(prs, epoch, others)
  {
    if others != [] {
      var init, v := others[..|others| - 1], others[|others| - 1];
      SharesLength(prs, epoch, shared, voted, init, names);
      CreditSharesExtends(prs, epoch, shared, voted, init, names);
      CreditOneLength(prs, CreditShares(prs, epoch, shared, voted, init), epoch, v.address,
                      Share(shared, voted, v.votingPower), names);
    }
  }

  /** A call appends one entry for every other voter without an entry of the epoch, as often as it is
      named, and one for the proposer if it has none; a voter named twice gets two. */
  lemma EntriesAppended(info: StakingInfo, fee: Word, proposer: Pubkey, voters: seq<Pubkey>) returns (p: Validator)
    requires Found(info, proposer, voters)
    ensures p in info.validators && p.pubkey == proposer
    ensures |DistributedInfo(info, fee, proposer, voters).value.pendingRewards| == |info.pendingRewards|
      + WithoutEntry(info.pendingRewards, info.currEpochNum,
                     Others(LookupAll(info.validators, voters).value, proposer) + [p])
  {
    var vs, voted, prs, e := LookupAll(info.validators, voters).value, VotedPower(info, voters), info.pendingRewards, info.currEpochNum;
    var others, split := Others(vs, proposer), SplitFee(fee, voted, TotalPower(info));
    p := info.validators[FindByPubkey(info.validators, proposer).value];
    var names := set v | v in others + [p] :: v.address;
    SharesLength(prs, e, split.shared, voted, others, names);
    CreditSharesExtends(prs, e, split.shared, voted, others, names);
    CreditOneLength(prs, CreditShares(prs, e, split.shared, voted, others), e, p.address,
                    ProposerFee(split, voted, others), names);
    assert (others + [p])[..|others|] == others;
  }
}
