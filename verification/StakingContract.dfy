/** The staking contract as it runs: account balances and staking info updated in place, with
    loops over Go maps visiting their keys in an arbitrary order (staking/staking.go).

    Every method is proved against the function of the same name in module Staking, so its
    result does not depend on any iteration order. */
module StakingContract {
  import opened Words
  import opened StakingTypes
  import opened ActiveValidators
  import opened Accounts
  import opened FeeSplit
  import opened Distribution
  import S = Staking
  import RangeDelete

  // ----- Facts about partial iterations -----

  // What is paid to the accounts in `done`.
  function TotalWithin(ps: seq<Payment>, done: set<Address>): nat {
    if ps == [] then 0
    else TotalWithin(ps[..|ps| - 1], done) + if ps[|ps| - 1].to in done then ps[|ps| - 1].amount else 0
  }

  lemma {:induction false} TotalWithinNone(ps: seq<Payment>)
    ensures TotalWithin(ps, {}) == 0
  {
    if ps != [] {
      TotalWithinNone(ps[..|ps| - 1]);
    }
  }

  lemma {:induction false} TotalWithinOneMore(ps: seq<Payment>, done: set<Address>, a: Address)
    requires a !in done
    ensures TotalWithin(ps, done + {a}) == TotalWithin(ps, done) + PaidTo(ps, a)
  {
    if ps != [] {
      TotalWithinOneMore(ps[..|ps| - 1], done, a);
    }
  }

  lemma {:induction false} TotalWithinAll(ps: seq<Payment>, done: set<Address>)
    requires Payees(ps) <= done
    ensures TotalWithin(ps, done) == Total(ps)
  {
    if ps != [] {
      PayeesStep(ps);
      TotalWithinAll(ps[..|ps| - 1], done);
    }
  }

  lemma MinusModulo(b: Word, t: nat, x: nat)
    ensures Sub(Minus(b, t), x % WORD) == Minus(b, t + x)
  {
    MinusStep(b, t, x % WORD);
    var q := x / WORD;
    assert b - (t + x) == b - (t + x % WORD) - q * WORD;
    ShiftModulo(b - (t + x % WORD), q);
  }

  lemma {:induction false} ShiftModulo(y: int, q: nat)
    ensures (y - q * WORD) % WORD == y % WORD
  {
    if q > 0 {
      ShiftModulo(y, q - 1);
      assert y - q * WORD == y - (q - 1) * WORD - WORD;
    }
  }

  // One more useless validator refunded.
  lemma {:induction false} RefundOneMore(vals: seq<Validator>, done: set<Address>, i: nat, a: Address)
    requires DistinctKeys(vals) && i < |vals| && vals[i].address !in done
    ensures var before, after := S.Refunds(vals, done), S.Refunds(vals, done + {vals[i].address});
      && PaidTo(after, a) == PaidTo(before, a) + (if vals[i].rewardTo == a then vals[i].stakedCoins else 0)
      && Total(after) == Total(before) + vals[i].stakedCoins
  {
    var v, rest, d := vals[0], vals[1..], done + {vals[i].address};
    var p := Payment(v.rewardTo, v.stakedCoins);
    PaidInFront(p, S.Refunds(rest, done), a);
    if i == 0 {
      RefundsIgnore(rest, done, v.address);
    } else {
      RefundOneMore(rest, done, i - 1, a);
      PaidInFront(p, S.Refunds(rest, d), a);
    }
  }

  lemma PaidInFront(p: Payment, ps: seq<Payment>, a: Address)
    ensures PaidTo([p] + ps, a) == PaidTo(ps, a) + (if p.to == a then p.amount else 0)
    ensures Total([p] + ps) == Total(ps) + p.amount
  {
    PaidToConcat([p], ps, a);
    assert [p][..0] == [];
  }

  lemma {:induction false} PayeesOneMore(vals: seq<Validator>, done: set<Address>, i: nat)
    requires DistinctKeys(vals) && i < |vals| && vals[i].address !in done
    ensures Payees(S.Refunds(vals, done + {vals[i].address})) == Payees(S.Refunds(vals, done)) + {vals[i].rewardTo}
  {
    var v, rest, d := vals[0], vals[1..], done + {vals[i].address};
    var p := Payment(v.rewardTo, v.stakedCoins);
    PayeesConcat([p], S.Refunds(rest, done));
    PayeesConcat([p], S.Refunds(rest, d));
    assert Payees([p]) == {p.to};
    if i == 0 {
      RefundsIgnore(rest, done, v.address);
    } else {
      PayeesOneMore(rest, done, i - 1);
    }
  }

  lemma {:induction false} RefundsIgnore(vals: seq<Validator>, done: set<Address>, a: Address)
    requires forall i :: 0 <= i < |vals| ==> vals[i].address != a
    ensures S.Refunds(vals, done + {a}) == S.Refunds(vals, done)
  {
    if vals != [] {
      RefundsIgnore(vals[1..], done, a);
    }
  }

  lemma {:induction false} NoRefunds(vals: seq<Validator>)
    ensures S.Refunds(vals, {}) == []
  {
    if vals != [] {
      NoRefunds(vals[1..]);
    }
  }

  lemma PayeesConcat(p: seq<Payment>, q: seq<Payment>)
    ensures Payees(p + q) == Payees(p) + Payees(q)
  {
  }

  // Balances are determined by their keys and by the amount at each key.
  lemma SameBalances(m: Balances, m': Balances)
    requires m.Keys == m'.Keys
    requires forall a: Address :: BalanceOf(m, a) == BalanceOf(m', a)
    ensures m == m'
  {
    forall a | a in m ensures a in m' && m[a] == m'[a] {
      assert BalanceOf(m, a) == BalanceOf(m', a);
    }
  }

  lemma OneMorePayment(ps: seq<Payment>, p: Payment, a: Address)
    ensures Payees(ps + [p]) == Payees(ps) + {p.to}
    ensures PaidTo(ps + [p], a) == PaidTo(ps, a) + (if p.to == a then p.amount else 0)
  {
    assert (ps + [p])[..|ps|] == ps;
  }

  // rewardMap holds the sum of the payments for each recipient.
  ghost predicate Sums(m: map<Address, Word>, ps: seq<Payment>) {
    m.Keys == Payees(ps) && forall a :: a in m ==> m[a] == PaidTo(ps, a) % WORD
  }

  lemma SumsOneMore(m: map<Address, Word>, ps: seq<Payment>, p: Payment)
    requires Sums(m, ps)
    ensures Sums(m[p.to := Add(BalanceOf(m, p.to), p.amount)], ps + [p])
  {
    var m' := m[p.to := Add(BalanceOf(m, p.to), p.amount)];
    OneMorePayment(ps, p, p.to);
    forall a | a in m' ensures m'[a] == PaidTo(ps + [p], a) % WORD {
      OneMorePayment(ps, p, a);
      if a == p.to {
        if a !in m {
          NotPaid(ps, a);
        }
        AddStep(PaidTo(ps, a), p.amount);
      }
    }
  }

  // The recipients in `done` have been paid all they get, the others nothing.
  ghost predicate PaidPartly(m0: Balances, ps: seq<Payment>, done: set<Address>, m: Balances) {
    && m.Keys == m0.Keys + done
    && (forall a: Address :: a !in done ==> BalanceOf(m, a) == BalanceOf(m0, a))
    && (forall a: Address :: a in done ==> BalanceOf(m, a) == (BalanceOf(m0, a) + PaidTo(ps, a)) % WORD)
  }

  lemma PaidOneMore(m0: Balances, ps: seq<Payment>, done: set<Address>, m: Balances, a: Address)
    requires PaidPartly(m0, ps, done, m) && a !in done
    ensures PaidPartly(m0, ps, done + {a}, m[a := Add(BalanceOf(m, a), PaidTo(ps, a) % WORD)])
  {
    AddStep(PaidTo(ps, a), BalanceOf(m, a));
  }

  lemma PaidFully(m0: Balances, ps: seq<Payment>, m: Balances)
    requires PaidPartly(m0, ps, Payees(ps), m)
    ensures m == PayAll(m0, ps)
  {
    forall a: Address ensures BalanceOf(m, a) == (BalanceOf(m0, a) + PaidTo(ps, a)) % WORD {
      if a !in Payees(ps) {
        NotPaid(ps, a);
      }
    }
    PaidIsPayAll(m0, ps, m);
  }

  // m is m0 after the payments ps, in whatever order and grouping they were made.
  ghost predicate Paid(m0: Balances, ps: seq<Payment>, m: Balances) {
    && m.Keys == m0.Keys + Payees(ps)
    && forall a: Address :: BalanceOf(m, a) == (BalanceOf(m0, a) + PaidTo(ps, a)) % WORD
  }

  lemma PaidIsPayAll(m0: Balances, ps: seq<Payment>, m: Balances)
    requires Paid(m0, ps, m)
    ensures m == PayAll(m0, ps)
  {
    PayAllPointwise(m0, ps);
    SameBalances(m, PayAll(m0, ps));
  }

  lemma {:induction false} FindRewardByNames(prs: seq<PendingReward>, prs': seq<PendingReward>, epoch: int, a: Address)
    requires |prs| == |prs'|
    requires forall i :: 0 <= i < |prs| ==> prs[i].address == prs'[i].address && prs[i].epochNum == prs'[i].epochNum
    ensures FindReward(prs, epoch, a) == FindReward(prs', epoch, a)
  {
    if prs != [] {
      FindRewardByNames(prs[..|prs| - 1], prs'[..|prs| - 1], epoch, a);
    }
  }

  // ----- The contract -----

  class Context {
    var accounts: Balances
    var info: StakingInfo
    var allBurnt: Word

    ghost function World(): S.World
      reads this
    {
      S.World(accounts, info, allBurnt)
    }

    // The contract's account exists and validators have unique keys.
    ghost predicate Valid()
      reads this
    {
      S.STAKING_CONTRACT in accounts && DistinctKeys(info.validators)
    }

    constructor (accounts: Balances, info: StakingInfo)
      requires DistinctKeys(info.validators)
      ensures Valid() && this.info == info && allBurnt == 0
      ensures this.accounts == if S.STAKING_CONTRACT in accounts then accounts else accounts[S.STAKING_CONTRACT := 0]
    {
      this.accounts := if S.STAKING_CONTRACT in accounts then accounts else accounts[S.STAKING_CONTRACT := 0];
      this.info := info;
      this.allBurnt := 0;
    }

    method ExternalOp(from: Address, value: Word, op: S.Operation) returns (outcome: S.Outcome)
      requires Valid() && from in accounts && from != S.STAKING_CONTRACT
      modifies this
      ensures Valid()
      ensures (World(), outcome) == S.ExternalOp(old(World()), from, value, op)
    {
      var balance := accounts[from];
      if balance < value {
        return S.BalanceNotEnough;
      }
      var next := info;
      if op.CreateValidator? {
        if value <= S.INITIAL_STAKING_AMOUNT {
          return S.LessThanInitialAmount;
        }
        var err;
        next, err := AddValidator(info, from, op.pubkey, op.intro, value, op.rewardTo);
        if err.Some? {
          return S.AlreadyListed(err.value);
        }
      } else {
        var found := FindByAddr(info.validators, from);
        if found.None? {
          return S.NoSuchValidator;
        }
        var val := info.validators[found.value];
        if op.EditValidator? && op.rewardTo != 0 {
          val := val.(rewardTo := op.rewardTo);
        }
        if op.EditValidator? && op.intro != [] {
          val := val.(introduction := op.intro);
        }
        if value != 0 {
          val := val.(stakedCoins := Add(val.stakedCoins, value));
        }
        if op.Retire? {
          val := val.(isRetiring := true);
        }
        next := info.(validators := info.validators[found.value := val]);
      }
      info := next;
      if value != 0 {
        var stakingBalance := Add(accounts[S.STAKING_CONTRACT], value);
        accounts := accounts[from := Sub(balance, value)];
        accounts := accounts[S.STAKING_CONTRACT := stakingBalance];
      }
      return S.Success;
    }

    method Slash(blackHole: Address, pubkey: Pubkey, amount: Word) returns (totalSlashed: Option<Word>, edited: StakingInfo)
      requires Valid() && blackHole != S.STAKING_CONTRACT
      modifies this
      ensures Valid()
      ensures World() == S.Slash(old(World()), blackHole, pubkey, amount)
      ensures edited == S.SlashedInfo(old(info), pubkey, amount)
      ensures totalSlashed ==
              if FindByPubkey(old(info).validators, pubkey).None? then None
              else Some(S.TotalSlashed(old(info), pubkey, amount))
    {
      edited := info;
      var found := FindByPubkey(info.validators, pubkey);
      if found.None? {
        return None, edited;
      }
      var val := info.validators[found.value];
      var coins, total := val.stakedCoins, amount;
      if coins < amount {
        total := coins;
        coins := 0;
      } else {
        coins := Sub(coins, amount);
      }
      edited := info.(validators := info.validators[found.value := val.(stakedCoins := coins)]);
      var cleared;
      edited, cleared := ClearRewardsOf(edited, val.address);
      total := Add(total, cleared);
      if accounts[S.STAKING_CONTRACT] >= total {
        accounts := accounts[S.STAKING_CONTRACT := Sub(accounts[S.STAKING_CONTRACT], total)];
        accounts := accounts[blackHole := Add(BalanceOf(accounts, blackHole), total)];
      }
      allBurnt := Add(allBurnt, total);
      return Some(total), edited;
    }

    // ----- DistributeFee -----

    method VotersOf(voters: seq<Pubkey>) returns (vs: Option<seq<Validator>>, votedPower: int)
      requires Valid()
      ensures vs == S.LookupAll(info.validators, voters)
      ensures vs.Some? ==> votedPower == PowerSum(vs.value)
    {
      var valMap := GetValMapByPubkey(info.validators);
      var found: seq<Validator> := [];
      votedPower := 0;
      for i := 0 to |voters|
        invariant S.LookupAll(info.validators, voters[..i]) == Some(found)
        invariant votedPower == PowerSum(found)
      {
        LookupStep(info.validators, voters, i);
        if voters[i] !in valMap {
          LookupMisses(info.validators, voters, i);
          return None, 0;
        }
        var val := info.validators[valMap[voters[i]]];
        PowerSumAppend(found, val);
        votedPower := votedPower + val.votingPower;
        found := found + [val];
      }
      assert voters[..|voters|] == voters;
      vs := Some(found);
    }

    method TotalVotingPower() returns (total: int)
      ensures total == S.TotalPower(info)
    {
      var active := GetActiveValidators(info.validators, S.MINIMUM_STAKING_AMOUNT);
      total := 0;
      for i := 0 to |active|
        invariant total == PowerSum(active[..i])
      {
        assert active[..i + 1][..i] == active[..i];
        total := total + active[i].votingPower;
      }
      assert active[..|active|] == active;
    }

    method CreditReward(rwdMap: map<Address, nat>, a: Address, amount: Word, ghost prs: seq<PendingReward>)
      requires Extends(prs, info.pendingRewards, info.currEpochNum, set v | v in info.validators :: v.address)
      requires forall x :: x in rwdMap <==> FindReward(prs, info.currEpochNum, x).Some?
      requires forall x :: x in rwdMap ==> FindReward(prs, info.currEpochNum, x) == Some(rwdMap[x])
      modifies this
      ensures info == old(info).(pendingRewards :=
                S.CreditOne(old(info).pendingRewards, |prs|, old(info).currEpochNum, a, amount))
      ensures accounts == old(accounts) && allBurnt == old(allBurnt)
    {
      FindRewardByNames(prs, info.pendingRewards[..|prs|], info.currEpochNum, a);
      var list := info.pendingRewards;
      var k := |list|;
      if a in rwdMap {
        k := rwdMap[a];
      } else {
        list := list + [PendingReward(a, info.currEpochNum, 0)];
      }
      list := list[k := list[k].(amount := Add(list[k].amount, amount))];
      info := info.(pendingRewards := list);
    }

    method DistributeFee(fee: Word, proposer: Pubkey, voters: seq<Pubkey>) returns (ok: bool)
      requires Valid()
      modifies this
      ensures Valid()
      ensures ok <==> S.DistributeFee(old(World()), fee, proposer, voters).Some?
      ensures ok ==> S.DistributeFee(old(World()), fee, proposer, voters) == Some(World())
    {
      accounts := accounts[S.STAKING_CONTRACT := Add(accounts[S.STAKING_CONTRACT], fee)];
      var totalPower := TotalVotingPower();
      var vs, votedPower := VotersOf(voters);
      if vs.None? {
        return false;
      }
      var collectedFee := fee;
      var proposerBaseFee := Div(Mul(collectedFee, BASE_PROPOSER_PERCENTAGE), 100);
      collectedFee := Sub(collectedFee, proposerBaseFee);
      var proposerExtraFee := Mul(collectedFee, EXTRA_PROPOSER_PERCENTAGE);
      proposerExtraFee := Div(Mul(proposerExtraFee, Uint64(votedPower)), Uint64(100 * totalPower));
      collectedFee := Sub(collectedFee, proposerExtraFee);
      assert SplitFee(fee, votedPower, totalPower) == Split(proposerBaseFee, proposerExtraFee, collectedFee);

      var rwdMap := GetCurrRewardMapByAddr(info);
      var remainedFee := DistributeShares(vs.value, proposer, collectedFee, votedPower, rwdMap);
      var valMap := GetValMapByPubkey(info.validators);
      if proposer !in valMap {
        return false;
      }
      var proposerVal := info.validators[valMap[proposer]];
      CreditReward(rwdMap, proposerVal.address, Add(Add(proposerBaseFee, proposerExtraFee), remainedFee),
                   old(info).pendingRewards);
      return true;
    }

    // The loop over the voters that are not the proposer.
    method DistributeShares(vs: seq<Validator>, proposer: Pubkey, shared: Word, votedPower: int, rwdMap: map<Address, nat>)
      returns (remainedFee: Word)
      requires forall v :: v in vs ==> v in info.validators
      requires forall x :: x in rwdMap <==> FindReward(info.pendingRewards, info.currEpochNum, x).Some?
      requires forall x :: x in rwdMap ==> FindReward(info.pendingRewards, info.currEpochNum, x) == Some(rwdMap[x])
      modifies this
      ensures remainedFee == Remainder(shared, votedPower, S.Others(vs, proposer))
      ensures info == old(info).(pendingRewards :=
                S.CreditShares(old(info).pendingRewards, old(info).currEpochNum, shared, votedPower, S.Others(vs, proposer)))
      ensures Extends(old(info).pendingRewards, info.pendingRewards, info.currEpochNum,
                      set v | v in info.validators :: v.address)
      ensures accounts == old(accounts) && allBurnt == old(allBurnt)
    {
      remainedFee := shared;
      ghost var names := set v | v in info.validators :: v.address;
      ghost var prs, e := info.pendingRewards, info.currEpochNum;
      for i := 0 to |vs|
        invariant remainedFee == Remainder(shared, votedPower, S.Others(vs[..i], proposer))
        invariant info == old(info).(pendingRewards :=
                    S.CreditShares(prs, e, shared, votedPower, S.Others(vs[..i], proposer)))
        invariant Extends(prs, info.pendingRewards, e, names)
        invariant accounts == old(accounts) && allBurnt == old(allBurnt)
      {
        assert vs[..i + 1][..i] == vs[..i];
        if vs[i].pubkey != proposer {
          ghost var o := S.Others(vs[..i], proposer);
          assert (o + [vs[i]])[..|o|] == o;
          var rwdCoins := Div(Mul(shared, Uint64(vs[i].votingPower)), Uint64(votedPower));
          remainedFee := Sub(remainedFee, rwdCoins);
          CreditOneExtends(prs, info.pendingRewards, e, vs[i].address, rwdCoins, names);
          CreditReward(rwdMap, vs[i].address, rwdCoins, prs);
        }
      }
      assert vs[..|vs|] == vs;
    }

    // ----- SwitchEpoch -----

    // Sum up the mature rewards per recipient; None is a reward of an unlisted validator.
    method MatureRewards() returns (rewardMap: Option<map<Address, Word>>, newPRList: seq<PendingReward>)
      requires Valid()
      ensures rewardMap.None? <==> S.MaturePayments(info.validators, info.pendingRewards, info.currEpochNum).None?
      ensures rewardMap.Some? ==>
        var ps := S.MaturePayments(info.validators, info.pendingRewards, info.currEpochNum).value;
        Sums(rewardMap.value, ps)
      ensures rewardMap.Some? ==> newPRList == S.Unmatured(info.pendingRewards, info.currEpochNum)
    {
      var prs, m: map<Address, Word> := info.pendingRewards, map[];
      newPRList := [];
      var valMap := GetValMapByAddr(info.validators);
      ghost var ps: seq<Payment> := [];
      for i := 0 to |prs|
        invariant newPRList == S.Unmatured(prs[..i], info.currEpochNum)
        invariant S.MaturePayments(info.validators, prs[..i], info.currEpochNum) == Some(ps)
        invariant Sums(m, ps)
      {
        MatureStep(info.validators, prs, info.currEpochNum, i);
        if prs[i].epochNum >= info.currEpochNum - S.EPOCH_COUNT_BEFORE_REWARD_MATURE {
          newPRList := newPRList + [prs[i]];
        } else if prs[i].address !in valMap {
          MaturePaymentsMiss(info.validators, prs, info.currEpochNum, i);
          return None, newPRList;
        } else {
          var to := info.validators[valMap[prs[i].address]].rewardTo;
          SumsOneMore(m, ps, Payment(to, prs[i].amount));
          if to !in m {
            m := m[to := 0];
          }
          m := m[to := Add(m[to], prs[i].amount)];
          ps := ps + [Payment(to, prs[i].amount)];
        }
      }
      assert prs[..|prs|] == prs;
      rewardMap := Some(m);
    }

    // Returns the contract's new balance, which clearUp writes back.
    method EndEpoch() returns (balance: Option<Word>)
      requires Valid()
      modifies this
      ensures balance.None? <==> S.SwitchPayments(old(info)).None?
      ensures balance.Some? ==>
        var ps := S.SwitchPayments(old(info)).value;
        && accounts == PayAll(old(accounts), ps)
        && balance == Some(Minus(old(accounts)[S.STAKING_CONTRACT], Total(ps)))
        && info == old(info).(currEpochNum := old(info).currEpochNum + 1,
                              pendingRewards := S.Unmatured(old(info).pendingRewards, old(info).currEpochNum + 1))
      ensures balance.Some? ==> Valid()
      ensures allBurnt == old(allBurnt)
    {
      info := info.(currEpochNum := info.currEpochNum + 1);
      var rewardMap, newPRList := MatureRewards();
      if rewardMap.None? {
        return None;
      }
      var b := PayRewards(rewardMap.value, S.SwitchPayments(old(info)).value);
      info := info.(pendingRewards := newPRList);
      return Some(b);
    }

    // The loop over the reward map, in any order.
    method PayRewards(rewardMap: map<Address, Word>, ghost ps: seq<Payment>) returns (balance: Word)
      requires S.STAKING_CONTRACT in accounts
      requires Sums(rewardMap, ps)
      modifies this`accounts
      ensures accounts == PayAll(old(accounts), ps) && S.STAKING_CONTRACT in accounts
      ensures balance == Minus(old(accounts)[S.STAKING_CONTRACT], Total(ps))
    {
      balance := accounts[S.STAKING_CONTRACT];
      var left, done := rewardMap.Keys, {};
      TotalWithinNone(ps);
      while left != {}
        invariant left + done == rewardMap.Keys && left !! done
        invariant PaidPartly(old(accounts), ps, done, accounts)
        invariant balance == Minus(old(accounts)[S.STAKING_CONTRACT], TotalWithin(ps, done))
        decreases left
      {
        var a :| a in left;
        MinusModulo(old(accounts)[S.STAKING_CONTRACT], TotalWithin(ps, done), PaidTo(ps, a));
        TotalWithinOneMore(ps, done, a);
        PaidOneMore(old(accounts), ps, done, accounts, a);
        balance := Sub(balance, rewardMap[a]);
        accounts := accounts[a := Add(BalanceOf(accounts, a), rewardMap[a])];
        left, done := left - {a}, done + {a};
      }
      TotalWithinAll(ps, done);
      PaidFully(old(accounts), ps, accounts);
    }

    method UpdateVotingPower(powers: map<Pubkey, int>)
      requires Valid()
      modifies this`info
      ensures info == old(info).(validators := S.RepoweredAll(old(info).validators, powers))
      ensures Valid()
    {
      ghost var vals0 := info.validators;
      var vals := info.validators;
      for i := 0 to |vals|
        invariant |vals| == |vals0|
        invariant forall j :: 0 <= j < |vals| ==> vals[j] == if j < i then vals0[j].(votingPower := 0) else vals0[j]
      {
        vals := vals[i := vals[i].(votingPower := 0)];
      }
      var valMap := GetValMapByPubkey(vals);
      var left, done := powers.Keys, {};
      while left != {}
        invariant left + done == powers.Keys && left !! done
        invariant |vals| == |vals0|
        invariant forall j :: 0 <= j < |vals| ==>
          vals[j] == if vals0[j].pubkey in done then S.Repowered(vals0[j], powers) else vals0[j].(votingPower := 0)
        decreases left
      {
        var pubkey :| pubkey in left;
        if pubkey in valMap {
          var k := valMap[pubkey];
          if !vals[k].isRetiring && vals[k].stakedCoins >= S.MINIMUM_STAKING_AMOUNT {
            vals := vals[k := vals[k].(votingPower := powers[pubkey])];
          }
        }
        left, done := left - {pubkey}, done + {pubkey};
      }
      assert vals == S.RepoweredAll(vals0, powers);
      info := info.(validators := vals);
    }

    // The loop over the useless validators, in any order.  `balance` comes from endEpoch,
    // where b was the balance and u the sum already subtracted from it.
    method PayRefunds(useless: set<Address>, start: Word, ghost b: Word, ghost u: nat) returns (balance: Word)
      requires DistinctKeys(info.validators) && start == Minus(b, u)
      requires forall a :: a in useless ==> FindByAddr(info.validators, a).Some?
      modifies this`accounts
      ensures accounts == PayAll(old(accounts), S.Refunds(info.validators, useless))
      ensures balance == Minus(b, u + Total(S.Refunds(info.validators, useless)))
    {
      balance := start;
      var valMap := GetValMapByAddr(info.validators);
      ghost var vals := info.validators;
      var left, done := useless, {};
      NoRefunds(vals);
      while left != {}
        invariant left + done == useless && left !! done
        invariant Refunded(old(accounts), accounts, vals, done, b, u, balance)
        decreases left
      {
        var addr :| addr in left;
        var val := info.validators[valMap[addr]];
        RefundOne(old(accounts), accounts, vals, done, valMap[addr], b, u, balance);
        balance := Sub(balance, val.stakedCoins);
        accounts := accounts[val.rewardTo := Add(BalanceOf(accounts, val.rewardTo), val.stakedCoins)];
        left, done := left - {addr}, done + {addr};
      }
      assert done == useless;
      PaidIsPayAll(old(accounts), S.Refunds(vals, useless), accounts);
    }

    method ClearUp(start: Word, ghost b: Word, ghost u: nat) returns (ok: bool)
      requires Valid() && start == Minus(b, u)
      modifies this
      ensures var useless := UselessAddresses(old(info));
        var refunds := S.Refunds(old(info).validators, useless);
        var left := RangeDelete.Delete(old(info).validators, S.IsUseless(useless));
        && (ok <==> left.Some?)
        && (ok ==> info == old(info).(validators := left.value))
        && (ok ==> accounts == PayAll(old(accounts), refunds)[S.STAKING_CONTRACT := Minus(b, u + Total(refunds))])
      ensures allBurnt == old(allBurnt)
    {
      var useless := GetUselessValidators(info);
      UselessAreListed(info);
      var balance := PayRefunds(useless, start, b, u);
      var backing := new Validator[|info.validators|](i requires 0 <= i < |info.validators| reads this => info.validators[i]);
      assert backing[..] == info.validators;
      var left := RangeDelete.DeleteInPlace(backing, S.IsUseless(useless));
      if left.None? {
        return false;
      }
      info := info.(validators := left.value);
      accounts := accounts[S.STAKING_CONTRACT := balance];
      return true;
    }

    // Everything SwitchEpoch does before it allocates new reward entries.
    method SettleEpoch(powers: map<Pubkey, int>) returns (ok: bool)
      requires Valid()
      modifies this
      ensures ok <==> S.SwitchPayments(old(info)).Some? && S.SwitchSurvivors(old(info), powers).Some?
      ensures ok ==> Settled(old(World()), powers, World())
    {
      var balance := EndEpoch();
      if balance.None? {
        return false;
      }
      UpdateVotingPower(powers);
      assert info == S.RepoweredInfo(old(info), powers);
      ghost var pays := S.SwitchPayments(old(info)).value;
      assert accounts == PayAll(old(accounts), pays);
      ok := ClearUp(balance.value, old(accounts)[S.STAKING_CONTRACT], Total(pays));
      if ok {
        IsSettled(old(World()), powers, pays, World());
      }
    }

    method SwitchEpoch(powers: map<Pubkey, int>) returns (active: Option<seq<Validator>>)
      requires Valid()
      modifies this
      ensures active.Some? <==> S.SwitchEpoch(old(World()), powers).Some?
      ensures active.Some? ==>
        && S.SwitchEpoch(old(World()), powers) == Some(World())
        && active.value == Active(info.validators, S.MINIMUM_STAKING_AMOUNT)
    {
      var ok := SettleEpoch(powers);
      if !ok {
        return None;
      }
      SettledIsSwitched(old(World()), powers, World());
      var act := GetActiveValidators(info.validators, S.MINIMUM_STAKING_AMOUNT);
      info := info.(pendingRewards := info.pendingRewards + S.NewEntries(act, info.currEpochNum));
      active := Some(act);
    }
  }

  // The world after payments, new powers and removals.
  ghost predicate Settled(w: S.World, powers: map<Pubkey, int>, w': S.World) {
    var pays, left := S.SwitchPayments(w.info), S.SwitchSurvivors(w.info, powers);
    && pays.Some? && left.Some?
    && w'.info == S.RepoweredInfo(w.info, powers).(validators := left.value)
    && w'.allBurnt == w.allBurnt
    && w'.accounts == PayAll(PayAll(w.accounts, pays.value), S.SwitchRefunds(w.info, powers))
         [S.STAKING_CONTRACT := Minus(BalanceOf(w.accounts, S.STAKING_CONTRACT),
                                      Total(pays.value) + Total(S.SwitchRefunds(w.info, powers)))]
  }

  lemma IsSettled(w: S.World, powers: map<Pubkey, int>, pays: seq<Payment>, w': S.World)
    requires S.SwitchPayments(w.info) == Some(pays) && S.STAKING_CONTRACT in w.accounts && w'.allBurnt == w.allBurnt
    requires var mid := S.RepoweredInfo(w.info, powers);
             var refunds := S.Refunds(mid.validators, UselessAddresses(mid));
             var left := RangeDelete.Delete(mid.validators, S.IsUseless(UselessAddresses(mid)));
      && left.Some? && w'.info == mid.(validators := left.value)
      && w'.accounts == PayAll(PayAll(w.accounts, pays), refunds)
           [S.STAKING_CONTRACT := Minus(w.accounts[S.STAKING_CONTRACT], Total(pays) + Total(refunds))]
    ensures Settled(w, powers, w')
  {
  }

  lemma SettledIsSwitched(w: S.World, powers: map<Pubkey, int>, w': S.World)
    requires Settled(w, powers, w')
    ensures var act := Active(w'.info.validators, S.MINIMUM_STAKING_AMOUNT);
            S.SwitchEpoch(w, powers) == Some(w'.(info := w'.info.(pendingRewards :=
              w'.info.pendingRewards + S.NewEntries(act, w'.info.currEpochNum))))
  {
  }

  // The stakes of the validators in done have been refunded.
  ghost predicate Refunded(m0: Balances, m: Balances, vals: seq<Validator>, done: set<Address>, b: Word, u: nat, balance: Word) {
    Paid(m0, S.Refunds(vals, done), m) && balance == Minus(b, u + Total(S.Refunds(vals, done)))
  }

  lemma RefundOne(m0: Balances, m: Balances, vals: seq<Validator>, done: set<Address>, k: nat, b: Word, u: nat, balance: Word)
    requires DistinctKeys(vals) && k < |vals| && vals[k].address !in done
    requires Refunded(m0, m, vals, done, b, u, balance)
    ensures Refunded(m0, Credited(m, vals[k].rewardTo, vals[k].stakedCoins), vals, done + {vals[k].address}, b, u,
                     Sub(balance, vals[k].stakedCoins))
  {
    RefundPaid(m0, m, vals, done, k);
    MinusStep(b, u + Total(S.Refunds(vals, done)), vals[k].stakedCoins);
  }

  lemma RefundPaid(m0: Balances, m: Balances, vals: seq<Validator>, done: set<Address>, k: nat)
    requires DistinctKeys(vals) && k < |vals| && vals[k].address !in done
    requires Paid(m0, S.Refunds(vals, done), m)
    ensures Paid(m0, S.Refunds(vals, done + {vals[k].address}), Credited(m, vals[k].rewardTo, vals[k].stakedCoins))
    ensures Total(S.Refunds(vals, done + {vals[k].address})) == Total(S.Refunds(vals, done)) + vals[k].stakedCoins
  {
    RefundOneMore(vals, done, k, vals[k].rewardTo);
    PayeesOneMore(vals, done, k);
    forall a: Address
      ensures PaidTo(S.Refunds(vals, done + {vals[k].address}), a) ==
              PaidTo(S.Refunds(vals, done), a) + if vals[k].rewardTo == a then vals[k].stakedCoins else 0
    {
      RefundOneMore(vals, done, k, a);
    }
    OnePaid(m0, m, S.Refunds(vals, done), S.Refunds(vals, done + {vals[k].address}), vals[k].rewardTo, vals[k].stakedCoins);
  }

  lemma OnePaid(m0: Balances, m: Balances, before: seq<Payment>, after: seq<Payment>, to: Address, amount: Word)
    requires Paid(m0, before, m) && Payees(after) == Payees(before) + {to}
    requires forall a: Address :: PaidTo(after, a) == PaidTo(before, a) + if to == a then amount else 0
    ensures Paid(m0, after, Credited(m, to, amount))
  {
    forall a: Address
      ensures BalanceOf(Credited(m, to, amount), a) == (BalanceOf(m0, a) + PaidTo(after, a)) % WORD
    {
      CreditAt(BalanceOf(m0, a), BalanceOf(m, a), PaidTo(before, a), to == a, amount);
    }
  }

  lemma CreditAt(start: Word, now: Word, paid: nat, hit: bool, amount: Word)
    requires now == (start + paid) % WORD
    ensures (if hit then Add(now, amount) else now) == (start + (paid + if hit then amount else 0)) % WORD
  {
    AddStep(start + paid, amount);
  }

  lemma UselessAreListed(info: StakingInfo)
    ensures forall a :: a in UselessAddresses(info) ==> FindByAddr(info.validators, a).Some?
  {
    forall a | a in UselessAddresses(info) ensures FindByAddr(info.validators, a).Some? {
      var v :| v in info.validators && v.address == a;
      var i :| 0 <= i < |info.validators| && info.validators[i] == v;
    }
  }

  lemma MatureStep(vals: seq<Validator>, prs: seq<PendingReward>, epoch: int, i: nat)
    requires i < |prs|
    ensures S.Unmatured(prs[..i + 1], epoch) ==
            if S.Mature(prs[i], epoch) then S.Unmatured(prs[..i], epoch) else S.Unmatured(prs[..i], epoch) + [prs[i]]
    ensures S.MaturePayments(vals, prs[..i + 1], epoch) ==
            var r, k := S.MaturePayments(vals, prs[..i], epoch), FindByAddr(vals, prs[i].address);
            if r.None? || !S.Mature(prs[i], epoch) then r
            else if k.None? then None
            else Some(r.value + [Payment(vals[k.value].rewardTo, prs[i].amount)])
  {
    assert prs[..i + 1][..i] == prs[..i];
  }

  lemma {:induction false} MaturePaymentsMiss(vals: seq<Validator>, prs: seq<PendingReward>, epoch: int, i: nat)
    requires i < |prs| && S.Mature(prs[i], epoch) && FindByAddr(vals, prs[i].address).None?
    ensures S.MaturePayments(vals, prs, epoch).None?
  {
    if i < |prs| - 1 {
      MaturePaymentsMiss(vals, prs[..|prs| - 1], epoch, i);
    }
  }

  lemma LookupStep(vals: seq<Validator>, voters: seq<Pubkey>, i: nat)
    requires i < |voters|
    ensures S.LookupAll(vals, voters[..i + 1]) ==
            var r, p := S.LookupAll(vals, voters[..i]), FindByPubkey(vals, voters[i]);
            if r.None? || p.None? then None else Some(r.value + [vals[p.value]])
  {
    assert voters[..i + 1][..i] == voters[..i];
  }

  lemma {:induction false} LookupMisses(vals: seq<Validator>, voters: seq<Pubkey>, i: nat)
    requires i < |voters| && FindByPubkey(vals, voters[i]).None?
    ensures S.LookupAll(vals, voters).None?
  {
    if i < |voters| - 1 {
      LookupMisses(vals, voters[..|voters| - 1], i);
    }
  }
}
