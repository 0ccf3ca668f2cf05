/** SwitchEpoch: who is paid, who stays listed, and what it does to the books. */
module EpochSwitch {
  import opened Words
  import opened StakingTypes
  import opened ActiveValidators
  import opened Accounts
  import opened FeeSplit
  import opened Staking
  import opened Solvency
  import RangeDelete

  // ----- Mature and unmatured rewards -----

  function MatureAmount(prs: seq<PendingReward>, epoch: int, sel: Selection): nat {
    if prs == [] then 0
    else
      var pr := prs[|prs| - 1];
      MatureAmount(prs[..|prs| - 1], epoch, sel) +
      if Mature(pr, epoch) && sel(pr.address, pr.epochNum) then pr.amount else 0
  }

  lemma {:induction false} MatureOrUnmatured(prs: seq<PendingReward>, epoch: int, sel: Selection)
    ensures Amount(prs, sel) == MatureAmount(prs, epoch, sel) + Amount(Unmatured(prs, epoch), sel)
  {
    if prs != [] {
      var init, pr := prs[..|prs| - 1], prs[|prs| - 1];
      MatureOrUnmatured(init, epoch, sel);
      AmountAppend(Unmatured(init, epoch), pr, sel);
    }
  }

  lemma {:induction false} UnmaturedAre(prs: seq<PendingReward>, epoch: int)
    ensures forall pr :: pr in Unmatured(prs, epoch) <==> pr in prs && !Mature(pr, epoch)
  {
    if prs != [] {
      UnmaturedAre(prs[..|prs| - 1], epoch);
      assert prs == prs[..|prs| - 1] + [prs[|prs| - 1]];
    }
  }

  lemma TotalAppend(ps: seq<Payment>, p: Payment)
    ensures Total(ps + [p]) == Total(ps) + p.amount
  {
    assert (ps + [p])[..|ps|] == ps;
  }

  lemma {:induction false} MaturePaymentsTotal(vals: seq<Validator>, prs: seq<PendingReward>, epoch: int)
    ensures (forall i :: 0 <= i < |prs| ==> FindByAddr(vals, prs[i].address).Some?) ==>
            MaturePayments(vals, prs, epoch).Some?
    ensures MaturePayments(vals, prs, epoch).Some? ==>
            Total(MaturePayments(vals, prs, epoch).value) == MatureAmount(prs, epoch, Everything())
  {
    if prs != [] {
      var init, pr := prs[..|prs| - 1], prs[|prs| - 1];
      MaturePaymentsTotal(vals, init, epoch);
      var r, i := MaturePayments(vals, init, epoch), FindByAddr(vals, pr.address);
      if r.Some? && i.Some? {
        TotalAppend(r.value, Payment(vals[i.value].rewardTo, pr.amount));
      }
    }
  }

  // ----- Stakes of the validators that leave or stay -----

  function UselessStake(vals: seq<Validator>, useless: set<Address>): nat {
    if vals == [] then 0
    else UselessStake(vals[1..], useless) + if vals[0].address in useless then vals[0].stakedCoins else 0
  }

  lemma {:induction false} RepoweredKeepStakes(vals: seq<Validator>, powers: map<Pubkey, int>)
    ensures Staked(RepoweredAll(vals, powers)) == Staked(vals)
  {
    if vals != [] {
      var n := |vals| - 1;
      assert RepoweredAll(vals, powers)[..n] == RepoweredAll(vals[..n], powers);
      RepoweredKeepStakes(vals[..n], powers);
    }
  }

  lemma StakedFront(vals: seq<Validator>)
    requires vals != []
    ensures Staked(vals) == vals[0].stakedCoins + Staked(vals[1..])
  {
    assert vals == [vals[0]] + vals[1..];
    StakedSplit([vals[0]], vals[1..]);
    assert [vals[0]][..0] == [];
  }

  lemma {:induction false} StakedByUse(vals: seq<Validator>, useless: set<Address>)
    ensures Staked(vals) == Staked(RangeDelete.Kept(vals, IsUseless(useless))) + UselessStake(vals, useless)
  {
    if vals != [] {
      StakedFront(vals);
      StakedByUse(vals[1..], useless);
      if vals[0].address !in useless {
        var k := RangeDelete.Kept(vals[1..], IsUseless(useless));
        StakedFront([vals[0]] + k);
        assert ([vals[0]] + k)[1..] == k;
      }
    }
  }

  lemma {:induction false} RefundsTotal(vals: seq<Validator>, useless: set<Address>)
    ensures Total(Refunds(vals, useless)) == UselessStake(vals, useless)
  {
    if vals != [] {
      RefundsTotal(vals[1..], useless);
      var p := Payment(vals[0].rewardTo, vals[0].stakedCoins);
      PaidToConcat([p], Refunds(vals[1..], useless), 0);
      assert [p][..0] == [];
    }
  }

  ghost predicate Switches(w: World, powers: map<Pubkey, int>) {
    SwitchPayments(w.info).Some? && SwitchSurvivors(w.info, powers).Some?
  }

  ghost function UselessIn(info: StakingInfo, powers: map<Pubkey, int>): set<Address> {
    UselessAddresses(RepoweredInfo(info, powers))
  }

  // The stake of useless validators that have been refunded and are still listed.
  ghost function SwitchLeak(info: StakingInfo, powers: map<Pubkey, int>): nat {
    var left := SwitchSurvivors(info, powers);
    if left.None? then 0 else UselessStake(left.value, UselessIn(info, powers))
  }

  lemma SurvivorsOf(info: StakingInfo, powers: map<Pubkey, int>)
    ensures var mid := RepoweredInfo(info, powers);
            var useless := IsUseless(UselessIn(info, powers));
            SwitchSurvivors(info, powers) ==
            if RangeDelete.Panics(mid.validators, useless) then None
            else Some(RangeDelete.Survivors(mid.validators, useless))
  {
    RangeDelete.DeleteResult(RepoweredInfo(info, powers).validators, IsUseless(UselessIn(info, powers)));
  }

  lemma StakesAfterSwitch(info: StakingInfo, powers: map<Pubkey, int>)
    requires SwitchSurvivors(info, powers).Some?
    ensures Staked(SwitchSurvivors(info, powers).value) + Total(SwitchRefunds(info, powers)) ==
            Staked(info.validators) + SwitchLeak(info, powers)
  {
    var vals, useless := RepoweredInfo(info, powers).validators, UselessIn(info, powers);
    var left := SwitchSurvivors(info, powers).value;
    SurvivorsOf(info, powers);
    RepoweredKeepStakes(info.validators, powers);
    StakedByUse(vals, useless);
    StakedByUse(left, useless);
    RangeDelete.SurvivorsKeepTheUseful(vals, IsUseless(useless));
    RefundsTotal(vals, useless);
  }

  /** Nothing leaks when no two neighbours are useless: then everyone refunded is removed. */
  lemma NoLeakWithoutNeighbours(info: StakingInfo, powers: map<Pubkey, int>)
    requires RangeDelete.NoUselessNeighbours(RepoweredInfo(info, powers).validators, IsUseless(UselessIn(info, powers)))
    ensures SwitchLeak(info, powers) == 0
    ensures SwitchSurvivors(info, powers).Some? ==>
      SwitchSurvivors(info, powers).value
      == RangeDelete.Kept(RepoweredInfo(info, powers).validators, IsUseless(UselessIn(info, powers)))
  {
    var vals, useless := RepoweredInfo(info, powers).validators, UselessIn(info, powers);
    SurvivorsOf(info, powers);
    RangeDelete.SurvivorsAreKept(vals, IsUseless(useless));
    if SwitchSurvivors(info, powers).Some? {
      KeptHaveNoUselessStake(vals, useless);
    }
  }

  lemma {:induction false} KeptHaveNoUselessStake(vals: seq<Validator>, useless: set<Address>)
    ensures UselessStake(RangeDelete.Kept(vals, IsUseless(useless)), useless) == 0
  {
    if vals != [] {
      KeptHaveNoUselessStake(vals[1..], useless);
      var k := RangeDelete.Kept(vals[1..], IsUseless(useless));
      assert ([vals[0]] + k)[1..] == k;
    }
  }

  // ----- Accounts -----

  lemma {:induction false} PayAllConcat(m: Balances, p: seq<Payment>, q: seq<Payment>)
    ensures PayAll(PayAll(m, p), q) == PayAll(m, p + q)
  {
    if q == [] {
      assert p + q == p;
    } else {
      PayAllConcat(m, p, q[..|q| - 1]);
      assert (p + q)[..|p + q| - 1] == p + q[..|q| - 1];
    }
  }

  lemma {:induction false} PaidToWithinTotal(ps: seq<Payment>, a: Address, b: Address)
    ensures a != b ==> PaidTo(ps, a) + PaidTo(ps, b) <= Total(ps)
    ensures PaidTo(ps, a) <= Total(ps)
  {
    if ps != [] {
      PaidToWithinTotal(ps[..|ps| - 1], a, b);
    }
  }

  // Balances that agree everywhere but at s still do after the same payments.
  lemma {:induction false} PayAllIgnores(m: Balances, ps: seq<Payment>, s: Address, x: Word, v: Word)
    requires s in m
    ensures PayAll(m, ps)[s := v] == PayAll(m[s := x], ps)[s := v]
  {
    if ps != [] {
      var init, p := ps[..|ps| - 1], ps[|ps| - 1];
      PayAllIgnores(m, init, s, x, v);
      var a, b := PayAll(m, init), PayAll(m[s := x], init);
      assert forall k :: k != s ==> (k in a <==> k in a[s := v]) && (k in b <==> k in b[s := v]);
      if p.to != s {
        assert BalanceOf(a, p.to) == BalanceOf(a[s := v], p.to) == BalanceOf(b[s := v], p.to) == BalanceOf(b, p.to);
        assert Credited(a, p.to, p.amount)[s := v] == Credited(a[s := v], p.to, p.amount);
        assert Credited(b, p.to, p.amount)[s := v] == Credited(b[s := v], p.to, p.amount);
      } else {
        assert Credited(a, s, p.amount)[s := v] == a[s := v];
        assert Credited(b, s, p.amount)[s := v] == b[s := v];
      }
    }
  }

  lemma PayoutSupply(m: Balances, ps: seq<Payment>, s: Address, rest: Word)
    requires s in m && Supply(m) < WORD && rest == m[s] - Total(ps)
    ensures Supply(PayAll(m, ps)[s := rest]) == Supply(m) - PaidTo(ps, s)
  {
    var m0 := m[s := rest];
    SupplyUpdated(m, s, rest);
    PayAllIgnores(m, ps, s, rest, rest);
    PayAllSupply(m0, ps);
    BalanceWithinSupply(m0, s);
    PaidExactly(m0, ps, s);
    SupplyUpdated(PayAll(m0, ps), s, rest);
  }

  lemma PaidExactly(m: Balances, ps: seq<Payment>, a: Address)
    requires BalanceOf(m, a) + Total(ps) < WORD
    ensures BalanceOf(PayAll(m, ps), a) == BalanceOf(m, a) + PaidTo(ps, a)
  {
    PayAllPointwise(m, ps);
    PaidToWithinTotal(ps, a, a);
  }

  lemma PayoutToOther(m: Balances, ps: seq<Payment>, s: Address, rest: Word, a: Address)
    requires s in m && Supply(m) < WORD && Total(ps) <= m[s] && a != s
    ensures BalanceOf(PayAll(m, ps)[s := rest], a) == BalanceOf(m, a) + PaidTo(ps, a)
  {
    TwoBalancesWithinSupply(m, a, s);
    PaidExactly(m, ps, a);
  }

  /** Paying everyone out of the account s: every other account gets what it is paid, s loses
      the total, and the supply only shrinks by what s pays to itself, which is overwritten. */
  lemma PayoutBalances(m: Balances, ps: seq<Payment>, s: Address)
    requires s in m && Supply(m) < WORD && Total(ps) <= m[s]
    ensures var m' := PaidOut(m, ps, s);
      && s in m' && m'[s] == m[s] - Total(ps)
      && (forall a: Address :: a != s ==> BalanceOf(m', a) == BalanceOf(m, a) + PaidTo(ps, a))
      && Supply(m') == Supply(m) - PaidTo(ps, s)
  {
    var rest := Minus(m[s], Total(ps));
    PayoutSupply(m, ps, s, rest);
    forall a: Address | a != s
      ensures BalanceOf(PayAll(m, ps)[s := rest], a) == BalanceOf(m, a) + PaidTo(ps, a)
    {
      PayoutToOther(m, ps, s, rest, a);
    }
  }

  // ----- The books after a switch -----

  ghost function AllPayments(info: StakingInfo, powers: map<Pubkey, int>): seq<Payment>
    requires SwitchPayments(info).Some?
  {
    SwitchPayments(info).value + SwitchRefunds(info, powers)
  }

  // Everyone is paid, and s loses the total.
  ghost function PaidOut(m: Balances, ps: seq<Payment>, s: Address): Balances {
    PayAll(m, ps)[s := Minus(BalanceOf(m, s), Total(ps))]
  }

  lemma SwitchedAccounts(w: World, powers: map<Pubkey, int>)
    requires Switches(w, powers)
    ensures SwitchEpoch(w, powers).value.accounts == PaidOut(w.accounts, AllPayments(w.info, powers), STAKING_CONTRACT)
  {
    var pays, refunds := SwitchPayments(w.info).value, SwitchRefunds(w.info, powers);
    PaidOutTogether(w.accounts, pays, refunds, STAKING_CONTRACT);
    assert SwitchEpoch(w, powers).value.accounts == PaidOutInTurn(w.accounts, pays, refunds, STAKING_CONTRACT);
  }

  // First the one list, then the other, and s loses both totals.
  ghost function PaidOutInTurn(m: Balances, p: seq<Payment>, q: seq<Payment>, s: Address): Balances {
    PayAll(PayAll(m, p), q)[s := Minus(BalanceOf(m, s), Total(p) + Total(q))]
  }

  lemma PaidOutTogether(m: Balances, p: seq<Payment>, q: seq<Payment>, s: Address)
    ensures PaidOutInTurn(m, p, q, s) == PaidOut(m, p + q, s)
  {
    PayoutsCombined(m, p, q, s);
  }

  lemma TotalsCombined(b: Word, p: seq<Payment>, q: seq<Payment>)
    ensures Minus(b, Total(p) + Total(q)) == Minus(b, Total(p + q))
  {
    PaidToConcat(p, q, 0);
  }

  lemma PayoutsCombined(m: Balances, p: seq<Payment>, q: seq<Payment>, s: Address)
    ensures PayAll(PayAll(m, p), q)[s := Minus(BalanceOf(m, s), Total(p) + Total(q))] ==
            PayAll(m, p + q)[s := Minus(BalanceOf(m, s), Total(p + q))]
  {
    PayAllConcat(m, p, q);
    TotalsCombined(BalanceOf(m, s), p, q);
  }

  lemma RewardsAfterSwitch(info: StakingInfo, left: seq<Validator>, sel: Selection)
    ensures Amount(SwitchedInfo(info, left).pendingRewards, sel) ==
            Amount(info.pendingRewards, sel) - MatureAmount(info.pendingRewards, info.currEpochNum + 1, sel)
  {
    var prs, e := info.pendingRewards, info.currEpochNum + 1;
    var entries := NewEntries(Active(left, MINIMUM_STAKING_AMOUNT), e);
    assert SwitchedInfo(info, left).pendingRewards == Unmatured(prs, e) + entries;
    AmountZeros(Unmatured(prs, e), entries, sel);
    MatureOrUnmatured(prs, e, sel);
  }

  lemma PendingAfterSwitch(info: StakingInfo, left: seq<Validator>, pays: seq<Payment>)
    requires SwitchPayments(info) == Some(pays)
    ensures Pending(SwitchedInfo(info, left).pendingRewards) + Total(pays) == Pending(info.pendingRewards)
  {
    RewardsAfterSwitch(info, left, Everything());
    MaturePaymentsTotal(info.validators, info.pendingRewards, info.currEpochNum + 1);
  }

  lemma OwedAfterSwitch(info: StakingInfo, powers: map<Pubkey, int>, pays: seq<Payment>, left: seq<Validator>)
    requires SwitchPayments(info) == Some(pays) && SwitchSurvivors(info, powers) == Some(left)
    ensures Owed(SwitchedInfo(info, left)) + Total(pays) + Total(SwitchRefunds(info, powers)) ==
            Owed(info) + SwitchLeak(info, powers)
  {
    PendingAfterSwitch(info, left, pays);
    StakesAfterSwitch(info, powers);
  }

  lemma MatureWithinPending(vals: seq<Validator>, prs: seq<PendingReward>, epoch: int)
    requires MaturePayments(vals, prs, epoch).Some?
    ensures Total(MaturePayments(vals, prs, epoch).value) <= Pending(prs)
  {
    MatureOrUnmatured(prs, epoch, Everything());
    MaturePaymentsTotal(vals, prs, epoch);
  }

  lemma RefundsWithinStaked(vals: seq<Validator>, useless: set<Address>)
    ensures Total(Refunds(vals, useless)) <= Staked(vals)
  {
    StakedByUse(vals, useless);
    RefundsTotal(vals, useless);
  }

  lemma PaymentsWithinOwed(info: StakingInfo, powers: map<Pubkey, int>, pays: seq<Payment>)
    requires SwitchPayments(info) == Some(pays)
    ensures Total(pays) + Total(SwitchRefunds(info, powers)) <= Owed(info)
  {
    MatureWithinPending(info.validators, info.pendingRewards, info.currEpochNum + 1);
    RepoweredKeepStakes(info.validators, powers);
    RefundsWithinStaked(RepoweredInfo(info, powers).validators, UselessIn(info, powers));
  }

  // The staking account can pay everyone; nothing in the code checks that.
  ghost predicate CanPay(w: World, powers: map<Pubkey, int>) {
    SwitchPayments(w.info).Some? ==> Total(AllPayments(w.info, powers)) <= BalanceOf(w.accounts, STAKING_CONTRACT)
  }

  lemma ExcessAfterSwitch(w: World, powers: map<Pubkey, int>)
    requires Switches(w, powers)
    ensures Excess(SwitchEpoch(w, powers).value) - Excess(w) + SwitchLeak(w.info, powers) ==
            Minus(BalanceOf(w.accounts, STAKING_CONTRACT), Total(AllPayments(w.info, powers)))
            - BalanceOf(w.accounts, STAKING_CONTRACT) + Total(AllPayments(w.info, powers))
  {
    var pays, left := SwitchPayments(w.info).value, SwitchSurvivors(w.info, powers).value;
    SwitchedAccounts(w, powers);
    OwedAfterSwitch(w.info, powers, pays, left);
    PaidToConcat(pays, SwitchRefunds(w.info, powers), 0);
  }

  /** The excess shrinks by exactly the leak of the switch if and only if the staking account can
      pay everyone: otherwise its balance wraps around. */
  lemma SwitchConservesExactly(w: World, powers: map<Pubkey, int>)
    requires Switches(w, powers)
    ensures Excess(SwitchEpoch(w, powers).value) == Excess(w) - SwitchLeak(w.info, powers) <==> CanPay(w, powers)
  {
    ExcessAfterSwitch(w, powers);
    MinusExactly(BalanceOf(w.accounts, STAKING_CONTRACT), Total(AllPayments(w.info, powers)));
  }

  lemma MinusExactly(b: Word, t: nat)
    ensures Minus(b, t) == b - t <==> t <= b
  {
  }

  /** A switch that can pay: the excess shrinks by exactly the stake of the refunded validators
      that stay listed, and every account gets exactly what it is paid. */
  lemma SwitchConserves(w: World, powers: map<Pubkey, int>)
    requires STAKING_CONTRACT in w.accounts && Supply(w.accounts) < WORD && Switches(w, powers) && CanPay(w, powers)
    ensures var w' := SwitchEpoch(w, powers).value;
      && STAKING_CONTRACT in w'.accounts
      && Excess(w') == Excess(w) - SwitchLeak(w.info, powers)
      && Supply(w'.accounts) == Supply(w.accounts) - PaidTo(AllPayments(w.info, powers), STAKING_CONTRACT)
      && (forall a: Address :: a != STAKING_CONTRACT ==>
            BalanceOf(w'.accounts, a) == BalanceOf(w.accounts, a) + PaidTo(AllPayments(w.info, powers), a))
  {
    SwitchedAccounts(w, powers);
    SwitchConservesExactly(w, powers);
    PayoutBalances(w.accounts, AllPayments(w.info, powers), STAKING_CONTRACT);
  }

  // While the books balance the staking account can pay.
  lemma SolventCanPay(w: World, powers: map<Pubkey, int>)
    requires Excess(w) >= 0
    ensures CanPay(w, powers)
  {
    if SwitchPayments(w.info).Some? {
      var pays := SwitchPayments(w.info).value;
      PaymentsWithinOwed(w.info, powers, pays);
      PaidToConcat(pays, SwitchRefunds(w.info, powers), 0);
    }
  }

  lemma {:induction false} SurvivorsStake(vals: seq<Validator>, useless: Validator -> bool)
    ensures Staked(RangeDelete.Survivors(vals, useless)) <= Staked(vals)
  {
    if vals != [] {
      StakedFront(vals);
      if !useless(vals[0]) {
        SurvivorsStake(vals[1..], useless);
        StakedConsed(vals[0], RangeDelete.Survivors(vals[1..], useless));
      } else if |vals| > 1 {
        StakedFront(vals[1..]);
        assert vals[1..][1..] == vals[2..];
        SurvivorsStake(vals[2..], useless);
        StakedConsed(vals[1], RangeDelete.Survivors(vals[2..], useless));
      }
    }
  }

  lemma StakedConsed(v: Validator, vals: seq<Validator>)
    ensures Staked([v] + vals) == v.stakedCoins + Staked(vals)
  {
    StakedFront([v] + vals);
    assert ([v] + vals)[1..] == vals;
  }

  // A leak is refunded first, so it is not more than what is paid.
  lemma LeakWithinPayments(w: World, powers: map<Pubkey, int>)
    requires Switches(w, powers)
    ensures SwitchLeak(w.info, powers) <= Total(AllPayments(w.info, powers))
  {
    PaidToConcat(SwitchPayments(w.info).value, SwitchRefunds(w.info, powers), 0);
    StakesAfterSwitch(w.info, powers);
    var vals, useless := RepoweredInfo(w.info, powers).validators, UselessIn(w.info, powers);
    SurvivorsOf(w.info, powers);
    SurvivorsStake(vals, IsUseless(useless));
    RepoweredKeepStakes(w.info.validators, powers);
  }

  // ----- Who stays listed -----

  ghost predicate NonNegativePowers(powers: map<Pubkey, int>) {
    forall pk :: pk in powers ==> powers[pk] >= 0
  }

  lemma RepoweredKeepsKeys(info: StakingInfo, powers: map<Pubkey, int>)
    requires DistinctKeys(info.validators)
    ensures DistinctKeys(RepoweredInfo(info, powers).validators)
  {
  }

  lemma SurvivorsDistinct(info: StakingInfo, powers: map<Pubkey, int>)
    requires DistinctKeys(info.validators) && SwitchSurvivors(info, powers).Some?
    ensures DistinctKeys(SwitchSurvivors(info, powers).value)
  {
    var vals, useless := RepoweredInfo(info, powers).validators, IsUseless(UselessIn(info, powers));
    SurvivorsOf(info, powers);
    RepoweredKeepsKeys(info, powers);
    RangeDelete.SurvivorsStayDistinct(vals, useless, (v: Validator) => v.address);
    RangeDelete.SurvivorsStayDistinct(vals, useless, (v: Validator) => v.pubkey);
  }

  // A list the clean-up may leave: some of the validators, all that are not useless among them.
  ghost predicate CleanedUp(info: StakingInfo, powers: map<Pubkey, int>, left: seq<Validator>) {
    var vals := RepoweredInfo(info, powers).validators;
    && DistinctKeys(left)
    && (forall v :: v in left ==> v in vals)
    && (forall v :: v in vals && v.address !in UselessIn(info, powers) ==> v in left)
  }

  // Everyone left has the power the epoch gives it, and nobody any other power.
  lemma SurvivorsArePowered(info: StakingInfo, powers: map<Pubkey, int>, v: Validator)
    requires SwitchSurvivors(info, powers).Some? && v in SwitchSurvivors(info, powers).value
    ensures v == Repowered(v, powers)
  {
    var vals := RepoweredInfo(info, powers).validators;
    SurvivorsOf(info, powers);
    RangeDelete.SurvivorsKeepTheUseful(vals, IsUseless(UselessIn(info, powers)));
    var i :| 0 <= i < |vals| && vals[i] == v;
    assert v == Repowered(info.validators[i], powers);
  }

  lemma SurvivorsCleanedUp(info: StakingInfo, powers: map<Pubkey, int>)
    requires DistinctKeys(info.validators) && SwitchSurvivors(info, powers).Some?
    ensures CleanedUp(info, powers, SwitchSurvivors(info, powers).value)
  {
    SurvivorsDistinct(info, powers);
    SurvivorsOf(info, powers);
    RangeDelete.SurvivorsKeepTheUseful(RepoweredInfo(info, powers).validators, IsUseless(UselessIn(info, powers)));
  }

  // A validator with an unmatured reward entry keeps its place.
  lemma RewardedStayListed(info: StakingInfo, powers: map<Pubkey, int>, left: seq<Validator>, i: nat, pr: PendingReward)
    requires CleanedUp(info, powers, left)
    requires pr in info.pendingRewards && !Mature(pr, info.currEpochNum + 1)
    requires i < |info.validators| && info.validators[i].address == pr.address
    ensures Repowered(info.validators[i], powers) in left
  {
    var mid := RepoweredInfo(info, powers);
    UnmaturedAre(info.pendingRewards, info.currEpochNum + 1);
    assert pr in mid.pendingRewards;
    assert mid.validators[i] in mid.validators && mid.validators[i].address !in UselessAddresses(mid);
  }

  lemma CleanedUpPowers(info: StakingInfo, powers: map<Pubkey, int>, left: seq<Validator>)
    requires PowersNonNegative(info.validators) && NonNegativePowers(powers) && CleanedUp(info, powers, left)
    ensures PowersNonNegative(left)
  {
    forall i | 0 <= i < |left| ensures left[i].votingPower >= 0 {
      assert left[i] in left;
    }
  }

  lemma CleanedUpRewards(info: StakingInfo, powers: map<Pubkey, int>, left: seq<Validator>, pr: PendingReward)
    requires RewardsListed(info) && CleanedUp(info, powers, left) && pr in SwitchedInfo(info, left).pendingRewards
    ensures FindByAddr(left, pr.address).Some? && info.currEpochNum <= pr.epochNum <= info.currEpochNum + 1
  {
    if pr in Unmatured(info.pendingRewards, info.currEpochNum + 1) {
      UnmaturedStayListed(info, powers, left, pr);
    } else {
      ActiveAreListed(left, MINIMUM_STAKING_AMOUNT);
      var act := Active(left, MINIMUM_STAKING_AMOUNT);
      var k :| 0 <= k < |act| && pr == NewEntries(act, info.currEpochNum + 1)[k];
      assert act[k] in act;
    }
  }

  lemma CleanedUpIsWellFormed(info: StakingInfo, powers: map<Pubkey, int>, left: seq<Validator>)
    requires WellFormed(info) && NonNegativePowers(powers) && CleanedUp(info, powers, left)
    ensures WellFormed(SwitchedInfo(info, left))
  {
    CleanedUpPowers(info, powers, left);
    var prs := SwitchedInfo(info, left).pendingRewards;
    forall i | 0 <= i < |prs|
      ensures FindByAddr(left, prs[i].address).Some? && info.currEpochNum <= prs[i].epochNum <= info.currEpochNum + 1
    {
      assert prs[i] in prs;
      CleanedUpRewards(info, powers, left, prs[i]);
    }
  }

  lemma SwitchKeepsWellFormed(w: World, powers: map<Pubkey, int>)
    requires WellFormed(w.info) && Switches(w, powers) && NonNegativePowers(powers)
    ensures WellFormed(SwitchEpoch(w, powers).value.info)
  {
    SurvivorsCleanedUp(w.info, powers);
    CleanedUpIsWellFormed(w.info, powers, SwitchSurvivors(w.info, powers).value);
  }

  lemma UnmaturedStayListed(info: StakingInfo, powers: map<Pubkey, int>, left: seq<Validator>, pr: PendingReward)
    requires RewardsListed(info) && CleanedUp(info, powers, left)
    requires pr in Unmatured(info.pendingRewards, info.currEpochNum + 1)
    ensures FindByAddr(left, pr.address).Some?
    ensures info.currEpochNum <= pr.epochNum <= info.currEpochNum + 1
  {
    UnmaturedAre(info.pendingRewards, info.currEpochNum + 1);
    var k :| 0 <= k < |info.pendingRewards| && info.pendingRewards[k] == pr;
    var i := FindByAddr(info.validators, pr.address).value;
    RewardedStayListed(info, powers, left, i, pr);
  }

  lemma PaymentsFound(info: StakingInfo)
    requires RewardsListed(info)
    ensures SwitchPayments(info).Some?
  {
    MaturePaymentsTotal(info.validators, info.pendingRewards, info.currEpochNum + 1);
  }

  /** A switch of a well-formed info panics exactly when the deletion loop runs past its end:
      the last listed validator is useless and is not the only useless one. */
  lemma SwitchPanicsExactly(w: World, powers: map<Pubkey, int>)
    requires RewardsListed(w.info)
    ensures SwitchEpoch(w, powers).None? <==>
            RangeDelete.Panics(RepoweredInfo(w.info, powers).validators, IsUseless(UselessIn(w.info, powers)))
  {
    PaymentsFound(w.info);
    SurvivorsOf(w.info, powers);
  }
}
