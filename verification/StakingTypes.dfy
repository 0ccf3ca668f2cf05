/** The records of the staking contract and the operations on them (staking/types/types.go). */
module StakingTypes {
  import opened Words

  const MAX_ACTIVE_VALIDATOR_NUM: nat := 30

  type Byte = x: nat | x < 256
  type Pubkey = Word

  datatype Validator = Validator(
    address: Address,
    pubkey: Pubkey,
    rewardTo: Address,
    votingPower: int,
    introduction: seq<Byte>,
    stakedCoins: Word,
    isRetiring: bool)

  datatype PendingReward = PendingReward(address: Address, epochNum: int, amount: Word)

  datatype StakingInfo = StakingInfo(
    currEpochNum: int,
    validators: seq<Validator>,
    pendingRewards: seq<PendingReward>)

  // Addresses are unique, and so are public keys: AddValidator refuses anything else.
  ghost predicate DistinctKeys(vals: seq<Validator>) {
    forall i, j :: 0 <= i < j < |vals| ==>
      vals[i].address != vals[j].address && vals[i].pubkey != vals[j].pubkey
  }

  // ----- Lookups -----

  function FindByAddr(vals: seq<Validator>, a: Address): (r: Option<nat>)
    ensures r.Some? ==> r.value < |vals| && vals[r.value].address == a
    ensures r.Some? ==> forall i :: 0 <= i < r.value ==> vals[i].address != a
    ensures r.None? ==> forall i :: 0 <= i < |vals| ==> vals[i].address != a
  {
    if vals == [] then None
    else
      var r := FindByAddr(vals[..|vals| - 1], a);
      if r.Some? then r
      else if vals[|vals| - 1].address == a then Some(|vals| - 1) else None
  }

  function FindByPubkey(vals: seq<Validator>, pk: Pubkey): (r: Option<nat>)
    ensures r.Some? ==> r.value < |vals| && vals[r.value].pubkey == pk
    ensures r.Some? ==> forall i :: 0 <= i < r.value ==> vals[i].pubkey != pk
    ensures r.None? ==> forall i :: 0 <= i < |vals| ==> vals[i].pubkey != pk
  {
    if vals == [] then None
    else
      var r := FindByPubkey(vals[..|vals| - 1], pk);
      if r.Some? then r
      else if vals[|vals| - 1].pubkey == pk then Some(|vals| - 1) else None
  }

  // The entry GetCurrRewardMapByAddr holds for `a`: the last one of the current epoch.
  function FindReward(prs: seq<PendingReward>, epoch: int, a: Address): (r: Option<nat>)
    ensures r.Some? ==> r.value < |prs| && prs[r.value].address == a && prs[r.value].epochNum == epoch
    ensures r.None? ==> forall i :: 0 <= i < |prs| ==> !(prs[i].address == a && prs[i].epochNum == epoch)
  {
    if prs == [] then None
    else
      var n := |prs| - 1;
      if prs[n].address == a && prs[n].epochNum == epoch then Some(n) else FindReward(prs[..n], epoch, a)
  }

  /** The entry that is found is the last one of the epoch and the address. */
  lemma {:induction false} LastRewardIsFound(prs: seq<PendingReward>, epoch: int, a: Address, k: nat)
    requires k < |prs|
    ensures FindReward(prs, epoch, a) == Some(k) <==>
      && prs[k].address == a && prs[k].epochNum == epoch
      && forall j :: k < j < |prs| ==> !(prs[j].address == a && prs[j].epochNum == epoch)
  {
    var n := |prs| - 1;
    if !(prs[n].address == a && prs[n].epochNum == epoch) && k < n {
      LastRewardIsFound(prs[..n], epoch, a, k);
    }
  }

  ghost predicate LastWithPubkey(vals: seq<Validator>, k: nat, pk: Pubkey) {
    k < |vals| && vals[k].pubkey == pk && forall j :: k < j < |vals| ==> vals[j].pubkey != pk
  }

  ghost predicate LastWithAddr(vals: seq<Validator>, k: nat, a: Address) {
    k < |vals| && vals[k].address == a && forall j :: k < j < |vals| ==> vals[j].address != a
  }

  // A repeated key would keep its last position; distinct keys have only one.
  method GetValMapByPubkey(vals: seq<Validator>) returns (m: map<Pubkey, nat>)
    ensures forall pk :: pk in m <==> FindByPubkey(vals, pk).Some?
    ensures forall pk :: pk in m ==> LastWithPubkey(vals, m[pk], pk)
    ensures DistinctKeys(vals) ==> forall pk :: pk in m ==> FindByPubkey(vals, pk) == Some(m[pk])
  {
    m := map[];
    for i := 0 to |vals|
      invariant forall pk :: pk in m ==> m[pk] < i && vals[m[pk]].pubkey == pk
      invariant forall pk, j :: pk in m && m[pk] < j < i ==> vals[j].pubkey != pk
      invariant forall j :: 0 <= j < i ==> vals[j].pubkey in m
    {
      m := m[vals[i].pubkey := i];
    }
  }

  // A repeated key would keep its last position; distinct keys have only one.
  method GetValMapByAddr(vals: seq<Validator>) returns (m: map<Address, nat>)
    ensures forall a :: a in m <==> FindByAddr(vals, a).Some?
    ensures forall a :: a in m ==> LastWithAddr(vals, m[a], a)
    ensures DistinctKeys(vals) ==> forall a :: a in m ==> FindByAddr(vals, a) == Some(m[a])
  {
    m := map[];
    for i := 0 to |vals|
      invariant forall a :: a in m ==> m[a] < i && vals[m[a]].address == a
      invariant forall a, j :: a in m && m[a] < j < i ==> vals[j].address != a
      invariant forall j :: 0 <= j < i ==> vals[j].address in m
    {
      m := m[vals[i].address := i];
    }
  }

  method GetCurrRewardMapByAddr(info: StakingInfo) returns (m: map<Address, nat>)
    ensures forall a :: a in m <==> FindReward(info.pendingRewards, info.currEpochNum, a).Some?
    ensures forall a :: a in m ==> FindReward(info.pendingRewards, info.currEpochNum, a) == Some(m[a])
  {
    m := map[];
    var prs := info.pendingRewards;
    for i := 0 to |prs|
      invariant forall a :: a in m <==> FindReward(prs[..i], info.currEpochNum, a).Some?
      invariant forall a :: a in m ==> FindReward(prs[..i], info.currEpochNum, a) == Some(m[a])
    {
      assert prs[..i + 1][..i] == prs[..i];
      if prs[i].epochNum == info.currEpochNum {
        m := m[prs[i].address := i];
      }
    }
    assert prs[..|prs|] == prs;
  }

  // ----- AddValidator -----

  datatype AddError = AddressExists | PubkeyExists

  // The error of the first listed validator that clashes; its address is looked at first.
  function AddClash(vals: seq<Validator>, a: Address, pk: Pubkey): (r: Option<AddError>)
    ensures r.None? <==> FindByAddr(vals, a).None? && FindByPubkey(vals, pk).None?
  {
    if vals == [] then None
    else if vals[0].address == a then Some(AddressExists)
    else if vals[0].pubkey == pk then Some(PubkeyExists)
    else
      assert forall i :: 1 <= i < |vals| ==> vals[i] == vals[1..][i - 1];
      AddClash(vals[1..], a, pk)
  }

  function NewValidator(a: Address, pk: Pubkey, intro: seq<Byte>, coins: Word, rewardTo: Address): Validator {
    Validator(a, pk, rewardTo, 0, intro, coins, false)
  }

  method AddValidator(info: StakingInfo, a: Address, pk: Pubkey, intro: seq<Byte>, coins: Word, rewardTo: Address)
    returns (r: StakingInfo, err: Option<AddError>)
    ensures err == AddClash(info.validators, a, pk)
    ensures err.Some? ==> r == info
    ensures err.None? ==> r == info.(validators := info.validators + [NewValidator(a, pk, intro, coins, rewardTo)])
    ensures DistinctKeys(info.validators) ==> DistinctKeys(r.validators)
  {
    r := info;
    var vals := info.validators;
    for i := 0 to |vals|
      invariant AddClash(vals[i..], a, pk) == AddClash(vals, a, pk)
    {
      assert vals[i..][1..] == vals[i + 1..];
      if vals[i].address == a {
        return r, Some(AddressExists);
      }
      if vals[i].pubkey == pk {
        return r, Some(PubkeyExists);
      }
    }
    r := info.(validators := vals + [NewValidator(a, pk, intro, coins, rewardTo)]);
    err := None;
  }

  // ----- Useless validators -----

  function UselessAddresses(info: StakingInfo): set<Address> {
    (set v | v in info.validators && v.votingPower == 0 :: v.address)
    - (set pr | pr in info.pendingRewards :: pr.address)
  }

  method GetUselessValidators(info: StakingInfo) returns (res: set<Address>)
    ensures res == UselessAddresses(info)
  {
    res := {};
    var vals, prs := info.validators, info.pendingRewards;
    for i := 0 to |vals|
      invariant res == set v | v in vals[..i] && v.votingPower == 0 :: v.address
    {
      assert vals[..i + 1] == vals[..i] + [vals[i]];
      if vals[i].votingPower == 0 {
        res := res + {vals[i].address};
      }
    }
    assert vals[..|vals|] == vals;
    ghost var idle := res;
    for i := 0 to |prs|
      invariant res == idle - (set pr | pr in prs[..i] :: pr.address)
    {
      assert prs[..i + 1] == prs[..i] + [prs[i]];
      res := res - {prs[i].address};
    }
    assert prs[..|prs|] == prs;
  }

  // ----- ClearRewardsOf -----

  // Entries of the current epoch stay with amount zero, older ones of `a` go away.
  function ClearedRewards(prs: seq<PendingReward>, epoch: int, a: Address): seq<PendingReward> {
    if prs == [] then []
    else
      var n := |prs| - 1;
      var r := ClearedRewards(prs[..n], epoch, a);
      if prs[n].address != a then r + [prs[n]]
      else if prs[n].epochNum == epoch then r + [prs[n].(amount := 0)]
      else r
  }

  // The sum ClearRewardsOf returns, with the wrap-around of its additions.
  function ClearedTotal(prs: seq<PendingReward>, a: Address): Word {
    if prs == [] then 0
    else
      var n := |prs| - 1;
      var t := ClearedTotal(prs[..n], a);
      if prs[n].address == a then Add(t, prs[n].amount) else t
  }

  method ClearRewardsOf(info: StakingInfo, a: Address) returns (r: StakingInfo, total: Word)
    ensures r == info.(pendingRewards := ClearedRewards(info.pendingRewards, info.currEpochNum, a))
    ensures total == ClearedTotal(info.pendingRewards, a)
  {
    total := 0;
    var prs, list := info.pendingRewards, [];
    for i := 0 to |prs|
      invariant list == ClearedRewards(prs[..i], info.currEpochNum, a)
      invariant total == ClearedTotal(prs[..i], a)
    {
      assert prs[..i + 1][..i] == prs[..i];
      if prs[i].address == a {
        total := Add(total, prs[i].amount);
        if prs[i].epochNum == info.currEpochNum {
          list := list + [prs[i].(amount := 0)];
        }
      } else {
        list := list + [prs[i]];
      }
    }
    assert prs[..|prs|] == prs;
    r := info.(pendingRewards := list);
  }
}
