/** The MessagePack codec of the staking contract's state (staking/types/types_gen.go). */
module Codec {
  import opened Words
  import opened StakingTypes
  import opened MessagePack

  // What is stored: the lists hold pointers, which may be nil.
  datatype StoredInfo = StoredInfo(
    currEpochNum: int,
    validators: seq<Option<Validator>>,
    pendingRewards: seq<Option<PendingReward>>)

  predicate IsInt64(x: int) {
    0 - MAX_INT64 - 1 <= x <= MAX_INT64
  }

  // What fits the Go types: int64 fields, and lengths below 2^32.
  predicate ValidatorFits(v: Validator) {
    IsInt64(v.votingPower) && |v.introduction| < 0x1_0000_0000
  }

  predicate RewardFits(pr: PendingReward) {
    IsInt64(pr.epochNum)
  }

  ghost predicate Fits(info: StoredInfo) {
    && IsInt64(info.currEpochNum)
    && |info.validators| < 0x1_0000_0000 && |info.pendingRewards| < 0x1_0000_0000
    && (forall i :: 0 <= i < |info.validators| && info.validators[i].Some? ==> ValidatorFits(info.validators[i].value))
    && (forall i :: 0 <= i < |info.pendingRewards| && info.pendingRewards[i].Some? ==> RewardFits(info.pendingRewards[i].value))
  }

  // ----- Records: a map header and keyed fields -----

  datatype Field = Field(key: Bytes, payload: Bytes)

  function FieldBytes(f: Field): Bytes
    requires |f.key| < 32
  {
    AppendString(f.key) + f.payload
  }

  ghost predicate ShortKeys(fs: seq<Field>) {
    forall i :: 0 <= i < |fs| ==> |fs[i].key| < 32
  }

  function Concat(fs: seq<Field>): Bytes
    requires forall i :: 0 <= i < |fs| ==> |fs[i].key| < 32
  {
    if fs == [] then [] else FieldBytes(fs[0]) + Concat(fs[1..])
  }

  // Reads the value of one key into the record z.
  type FieldReader<!Z> = (Bytes, Bytes, Z) -> Parsed<Z>

  // The countdown over the fields of a map.
  function ReadFields<Z>(bts: Bytes, n: nat, z: Z, read: FieldReader<Z>): Parsed<Z>
    decreases n
  {
    if n == 0 then Ok(z, bts)
    else
      match ReadKey(bts)
      case Fail => Fail
      case Ok(key, rest) =>
        match read(key, rest, z)
        case Fail => Fail
        case Ok(z', rest') => ReadFields(rest', n - 1, z', read)
  }

  function ReadRecord<Z>(bts: Bytes, z: Z, read: FieldReader<Z>): Parsed<Z> {
    match ReadMapHeader(bts)
    case Fail => Fail
    case Ok(n, rest) => ReadFields(rest, n, z, read)
  }

  method ReadRecordLoop<Z>(bts: Bytes, z0: Z, read: FieldReader<Z>) returns (r: Parsed<Z>)
    ensures r == ReadRecord(bts, z0, read)
  {
    var header := ReadMapHeader(bts);
    if header.Fail? {
      return Fail;
    }
    var n, rest, z := header.value, header.rest, z0;
    while n > 0
      invariant ReadFields(rest, n, z, read) == ReadRecord(bts, z0, read)
    {
      n := n - 1;
      var key := ReadKey(rest);
      if key.Fail? {
        return Fail;
      }
      var field := read(key.value, key.rest, z);
      if field.Fail? {
        return Fail;
      }
      z, rest := field.value, field.rest;
    }
    return Ok(z, rest);
  }

  // Whatever follows it, the field turns z into z'.
  ghost predicate Sets<Z>(read: FieldReader<Z>, f: Field, z: Z, z': Z) {
    forall tail :: read(f.key, f.payload + tail, z) == Ok(z', tail)
  }

  lemma OneFieldRead<Z>(read: FieldReader<Z>, f: Field, z: Z, z': Z, n: nat, tail: Bytes)
    requires |f.key| < 32 && Sets(read, f, z, z')
    ensures ReadFields(AppendString(f.key) + (f.payload + tail), n + 1, z, read) == ReadFields(tail, n, z', read)
  {
    StringRoundTrip(f.key, f.payload + tail);
    assert read(f.key, f.payload + tail, z) == Ok(z', tail);
  }

  lemma ConcatStep(fs: seq<Field>, rest: Bytes)
    requires ShortKeys(fs) && fs != []
    ensures Concat(fs) + rest == AppendString(fs[0].key) + (fs[0].payload + (Concat(fs[1..]) + rest))
  {
    Regroup4(AppendString(fs[0].key), fs[0].payload, Concat(fs[1..]), rest);
  }

  lemma Regroup4(a: Bytes, b: Bytes, c: Bytes, d: Bytes)
    ensures ((a + b) + c) + d == a + (b + (c + d))
  {
  }

  lemma {:induction false} FieldsRoundTrip<Z>(read: FieldReader<Z>, fs: seq<Field>, zs: seq<Z>, rest: Bytes)
    requires ShortKeys(fs) && |zs| == |fs| + 1
    requires forall i :: 0 <= i < |fs| ==> Sets(read, fs[i], zs[i], zs[i + 1])
    ensures ReadFields(Concat(fs) + rest, |fs|, zs[0], read) == Ok(zs[|fs|], rest)
  {
    if fs != [] {
      assert Sets(read, fs[0], zs[0], zs[1]);
      forall i | 0 <= i < |fs[1..]| ensures Sets(read, fs[1..][i], zs[1..][i], zs[1..][i + 1]) {
        assert Sets(read, fs[i + 1], zs[i + 1], zs[i + 2]);
      }
      FieldsRoundTrip(read, fs[1..], zs[1..], rest);
      OneFieldRead(read, fs[0], zs[0], zs[1], |fs[1..]|, Concat(fs[1..]) + rest);
      ConcatStep(fs, rest);
    }
  }

  function RecordBytes(fs: seq<Field>): Bytes
    requires |fs| < 16 && forall i :: 0 <= i < |fs| ==> |fs[i].key| < 32
  {
    [0x80 + |fs|] + Concat(fs)
  }

  lemma RecordRoundTrip<Z>(read: FieldReader<Z>, fs: seq<Field>, zs: seq<Z>, rest: Bytes)
    requires ShortKeys(fs) && |fs| < 16 && |zs| == |fs| + 1
    requires forall i :: 0 <= i < |fs| ==> Sets(read, fs[i], zs[i], zs[i + 1])
    ensures ReadRecord(RecordBytes(fs) + rest, zs[0], read) == Ok(zs[|fs|], rest)
    ensures RecordBytes(fs) != [] && RecordBytes(fs)[0] != NIL
  {
    Lead(0x80 + |fs|, Concat(fs), rest);
    FieldsRoundTrip(read, fs, zs, rest);
  }

  // ----- Fixed-size numbers -----

  function AddressBytes(a: Address): Bytes {
    AppendBytes(BigEndian(a, 20))
  }

  function WordBytes(w: Word): Bytes {
    AppendBytes(BigEndian(w, 32))
  }

  function ReadAddress(bts: Bytes): (r: Parsed<Address>) {
    match ReadExactBytes(bts, 20)
    case Ok(data, rest) => Ok(FromBigEndian(data) % ADDRESS_SPACE, rest)
    case Fail => Fail
  }

  function ReadWord(bts: Bytes): (r: Parsed<Word>) {
    match ReadExactBytes(bts, 32)
    case Ok(data, rest) => Ok(FromBigEndian(data) % WORD, rest)
    case Fail => Fail
  }

  lemma AddressRoundTrip(a: Address, rest: Bytes)
    ensures ReadAddress(AddressBytes(a) + rest) == Ok(a, rest)
  {
    Pow256Values();
    BinRoundTrip(BigEndian(a, 20), rest);
    BigEndianRoundTrip(a, 20);
  }

  lemma WordRoundTrip(w: Word, rest: Bytes)
    ensures ReadWord(WordBytes(w) + rest) == Ok(w, rest)
  {
    Pow256Values();
    BinRoundTrip(BigEndian(w, 32), rest);
    BigEndianRoundTrip(w, 32);
  }

  // ----- Keys -----

  const ADDRESS_KEY: Bytes := [0x41, 0x64, 0x64, 0x72, 0x65, 0x73, 0x73]
  const PUBKEY_KEY: Bytes := [0x50, 0x75, 0x62, 0x6b, 0x65, 0x79]
  const REWARD_TO_KEY: Bytes := [0x52, 0x65, 0x77, 0x61, 0x72, 0x64, 0x54, 0x6f]
  const VOTING_POWER_KEY: Bytes := [0x56, 0x6f, 0x74, 0x69, 0x6e, 0x67, 0x50, 0x6f, 0x77, 0x65, 0x72]
  const INTRODUCTION_KEY: Bytes := [0x49, 0x6e, 0x74, 0x72, 0x6f, 0x64, 0x75, 0x63, 0x74, 0x69, 0x6f, 0x6e]
  const STAKED_COINS_KEY: Bytes := [0x53, 0x74, 0x61, 0x6b, 0x65, 0x64, 0x43, 0x6f, 0x69, 0x6e, 0x73]
  const IS_RETIRING_KEY: Bytes := [0x49, 0x73, 0x52, 0x65, 0x74, 0x69, 0x72, 0x69, 0x6e, 0x67]
  const EPOCH_NUM_KEY: Bytes := [0x45, 0x70, 0x6f, 0x63, 0x68, 0x4e, 0x75, 0x6d]
  const AMOUNT_KEY: Bytes := [0x41, 0x6d, 0x6f, 0x75, 0x6e, 0x74]
  const CURR_EPOCH_NUM_KEY: Bytes := [0x43, 0x75, 0x72, 0x72, 0x45, 0x70, 0x6f, 0x63, 0x68, 0x4e, 0x75, 0x6d]
  const VALIDATORS_KEY: Bytes := [0x56, 0x61, 0x6c, 0x69, 0x64, 0x61, 0x74, 0x6f, 0x72, 0x73]
  const PENDING_REWARDS_KEY: Bytes :=
    [0x50, 0x65, 0x6e, 0x64, 0x69, 0x6e, 0x67, 0x52, 0x65, 0x77, 0x61, 0x72, 0x64, 0x73]

  function Skipped<Z>(bts: Bytes, z: Z): Parsed<Z> {
    match Skip(bts)
    case Some(rest) => Ok(z, rest)
    case None => Fail
  }

  // ----- Validator -----

  function ReadValidatorField(key: Bytes, bts: Bytes, z: Validator): Parsed<Validator> {
    if key == ADDRESS_KEY then
      match ReadAddress(bts) { case Ok(x, rest) => Ok(z.(address := x), rest) case Fail => Fail }
    else if key == PUBKEY_KEY then
      match ReadWord(bts) { case Ok(x, rest) => Ok(z.(pubkey := x), rest) case Fail => Fail }
    else if key == REWARD_TO_KEY then
      match ReadAddress(bts) { case Ok(x, rest) => Ok(z.(rewardTo := x), rest) case Fail => Fail }
    else if key == VOTING_POWER_KEY then
      match ReadInt64(bts) { case Ok(x, rest) => Ok(z.(votingPower := x), rest) case Fail => Fail }
    else if key == INTRODUCTION_KEY then
      match ReadString(bts) { case Ok(x, rest) => Ok(z.(introduction := x), rest) case Fail => Fail }
    else if key == STAKED_COINS_KEY then
      match ReadWord(bts) { case Ok(x, rest) => Ok(z.(stakedCoins := x), rest) case Fail => Fail }
    else if key == IS_RETIRING_KEY then
      match ReadBool(bts) { case Ok(x, rest) => Ok(z.(isRetiring := x), rest) case Fail => Fail }
    else Skipped(bts, z)
  }

  function ValidatorFields(v: Validator): (fs: seq<Field>)
    requires ValidatorFits(v)
    ensures |fs| == 7 && forall i :: 0 <= i < 7 ==> |fs[i].key| < 32
  {
    [Field(ADDRESS_KEY, AddressBytes(v.address)),
     Field(PUBKEY_KEY, WordBytes(v.pubkey)),
     Field(REWARD_TO_KEY, AddressBytes(v.rewardTo)),
     Field(VOTING_POWER_KEY, AppendInt64(v.votingPower)),
     Field(INTRODUCTION_KEY, AppendString(v.introduction)),
     Field(STAKED_COINS_KEY, WordBytes(v.stakedCoins)),
     Field(IS_RETIRING_KEY, AppendBool(v.isRetiring))]
  }

  function ValidatorBytes(v: Validator): Bytes
    requires ValidatorFits(v)
  {
    RecordBytes(ValidatorFields(v))
  }

  // The record after its first k fields have been read.
  function ValidatorSoFar(v: Validator, z: Validator, k: nat): Validator {
    Validator(if k > 0 then v.address else z.address,
              if k > 1 then v.pubkey else z.pubkey,
              if k > 2 then v.rewardTo else z.rewardTo,
              if k > 3 then v.votingPower else z.votingPower,
              if k > 4 then v.introduction else z.introduction,
              if k > 5 then v.stakedCoins else z.stakedCoins,
              if k > 6 then v.isRetiring else z.isRetiring)
  }

  lemma ValidatorFieldSets(v: Validator, z: Validator, i: nat)
    requires ValidatorFits(v) && i < 7
    ensures Sets(ReadValidatorField, ValidatorFields(v)[i], ValidatorSoFar(v, z, i), ValidatorSoFar(v, z, i + 1))
  {
    var f := ValidatorFields(v)[i];
    forall tail
      ensures ReadValidatorField(f.key, f.payload + tail, ValidatorSoFar(v, z, i)) == Ok(ValidatorSoFar(v, z, i + 1), tail)
    {
      if i == 0 {
        AddressRoundTrip(v.address, tail);
      } else if i == 1 {
        WordRoundTrip(v.pubkey, tail);
      } else if i == 2 {
        AddressRoundTrip(v.rewardTo, tail);
      } else if i == 3 {
        Int64RoundTrip(v.votingPower, tail);
      } else if i == 4 {
        StringRoundTrip(v.introduction, tail);
      } else if i == 5 {
        WordRoundTrip(v.stakedCoins, tail);
      } else {
        assert (AppendBool(v.isRetiring) + tail)[1..] == tail;
      }
    }
  }

  /** Reading back a validator, whatever the receiver held before. */
  lemma ValidatorRoundTrip(v: Validator, z: Validator, rest: Bytes)
    requires ValidatorFits(v)
    ensures ReadRecord(ValidatorBytes(v) + rest, z, ReadValidatorField) == Ok(v, rest)
    ensures ValidatorBytes(v) != [] && ValidatorBytes(v)[0] != NIL
  {
    var zs := seq(8, k requires 0 <= k < 8 => ValidatorSoFar(v, z, k));
    forall i | 0 <= i < 7 ensures Sets(ReadValidatorField, ValidatorFields(v)[i], zs[i], zs[i + 1]) {
      ValidatorFieldSets(v, z, i);
    }
    RecordRoundTrip(ReadValidatorField, ValidatorFields(v), zs, rest);
  }

  // ----- PendingReward -----

  function ReadRewardField(key: Bytes, bts: Bytes, z: PendingReward): Parsed<PendingReward> {
    if key == ADDRESS_KEY then
      match ReadAddress(bts) { case Ok(x, rest) => Ok(z.(address := x), rest) case Fail => Fail }
    else if key == EPOCH_NUM_KEY then
      match ReadInt64(bts) { case Ok(x, rest) => Ok(z.(epochNum := x), rest) case Fail => Fail }
    else if key == AMOUNT_KEY then
      match ReadWord(bts) { case Ok(x, rest) => Ok(z.(amount := x), rest) case Fail => Fail }
    else Skipped(bts, z)
  }

  function RewardFields(pr: PendingReward): (fs: seq<Field>)
    requires RewardFits(pr)
    ensures |fs| == 3 && forall i :: 0 <= i < 3 ==> |fs[i].key| < 32
  {
    [Field(ADDRESS_KEY, AddressBytes(pr.address)),
     Field(EPOCH_NUM_KEY, AppendInt64(pr.epochNum)),
     Field(AMOUNT_KEY, WordBytes(pr.amount))]
  }

  function RewardBytes(pr: PendingReward): Bytes
    requires RewardFits(pr)
  {
    RecordBytes(RewardFields(pr))
  }

  lemma RewardRoundTrip(pr: PendingReward, z: PendingReward, rest: Bytes)
    requires RewardFits(pr)
    ensures ReadRecord(RewardBytes(pr) + rest, z, ReadRewardField) == Ok(pr, rest)
    ensures RewardBytes(pr) != [] && RewardBytes(pr)[0] != NIL
  {
    var z1 := z.(address := pr.address);
    var z2 := z1.(epochNum := pr.epochNum);
    var fs := RewardFields(pr);
    forall tail ensures ReadRewardField(fs[0].key, fs[0].payload + tail, z) == Ok(z1, tail) {
      AddressRoundTrip(pr.address, tail);
    }
    forall tail ensures ReadRewardField(fs[1].key, fs[1].payload + tail, z1) == Ok(z2, tail) {
      Int64RoundTrip(pr.epochNum, tail);
    }
    forall tail ensures ReadRewardField(fs[2].key, fs[2].payload + tail, z2) == Ok(pr, tail) {
      WordRoundTrip(pr.amount, tail);
    }
    assert Sets(ReadRewardField, fs[0], z, z1);
    assert Sets(ReadRewardField, fs[1], z1, z2);
    assert Sets(ReadRewardField, fs[2], z2, pr);
    RecordRoundTrip(ReadRewardField, fs, [z, z1, z2, pr], rest);
  }

  // ----- Lists of possibly nil entries -----

  function ReadItem<Z>(bts: Bytes, zero: Z, read: FieldReader<Z>): Parsed<Option<Z>> {
    if IsNil(bts) then Ok(None, bts[1..])
    else
      match ReadRecord(bts, zero, read)
      case Ok(z, rest) => Ok(Some(z), rest)
      case Fail => Fail
  }

  // Entries are read into new records, all fields zero.
  function ReadItems<Z>(bts: Bytes, n: nat, zero: Z, read: FieldReader<Z>): Parsed<seq<Option<Z>>>
    decreases n
  {
    if n == 0 then Ok([], bts)
    else
      match ReadItem(bts, zero, read)
      case Fail => Fail
      case Ok(z, rest) =>
        match ReadItems(rest, n - 1, zero, read)
        case Fail => Fail
        case Ok(zs, rest') => Ok([z] + zs, rest')
  }

  function ReadList<Z>(bts: Bytes, zero: Z, read: FieldReader<Z>): Parsed<seq<Option<Z>>> {
    match ReadArrayHeader(bts)
    case Fail => Fail
    case Ok(n, rest) => ReadItems(rest, n, zero, read)
  }

  // What is parsed, with zs in front.
  function After<Z>(zs: seq<Option<Z>>, p: Parsed<seq<Option<Z>>>): Parsed<seq<Option<Z>>> {
    match p
    case Ok(more, rest) => Ok(zs + more, rest)
    case Fail => Fail
  }

  lemma AfterNone<Z>(p: Parsed<seq<Option<Z>>>)
    ensures After([], p) == p
  {
    if p.Ok? {
      assert [] + p.value == p.value;
    }
  }

  lemma AfterOneMore<Z>(zs: seq<Option<Z>>, z: Option<Z>, p: Parsed<seq<Option<Z>>>)
    ensures After(zs + [z], p) == After(zs, After([z], p))
  {
    if p.Ok? {
      assert zs + ([z] + p.value) == zs + [z] + p.value;
    }
  }

  method ReadListLoop<Z>(bts: Bytes, zero: Z, read: FieldReader<Z>) returns (r: Parsed<seq<Option<Z>>>)
    ensures r == ReadList(bts, zero, read)
  {
    var header := ReadArrayHeader(bts);
    if header.Fail? {
      return Fail;
    }
    var rest, zs: seq<Option<Z>> := header.rest, [];
    AfterNone(ReadItems(rest, header.value, zero, read));
    for i := 0 to header.value
      invariant ReadList(bts, zero, read) == After(zs, ReadItems(rest, header.value - i, zero, read))
    {
      var item;
      if IsNil(rest) {
        item := Ok(None, rest[1..]);
      } else {
        var z := ReadRecordLoop(rest, zero, read);
        if z.Fail? {
          return Fail;
        }
        item := Ok(Some(z.value), z.rest);
      }
      AfterOneMore(zs, item.value, ReadItems(item.rest, header.value - i - 1, zero, read));
      zs, rest := zs + [item.value], item.rest;
    }
    assert zs + [] == zs;
    return Ok(zs, rest);
  }

  function ConcatBytes(items: seq<Bytes>): Bytes {
    if items == [] then [] else items[0] + ConcatBytes(items[1..])
  }

  ghost predicate Decodes<Z>(zero: Z, read: FieldReader<Z>, item: Bytes, z: Option<Z>) {
    forall tail :: ReadItem(item + tail, zero, read) == Ok(z, tail)
  }

  lemma {:induction false} ItemsRoundTrip<Z>(zero: Z, read: FieldReader<Z>, items: seq<Bytes>, zs: seq<Option<Z>>, rest: Bytes)
    requires |items| == |zs| && forall i :: 0 <= i < |zs| ==> Decodes(zero, read, items[i], zs[i])
    ensures ReadItems(ConcatBytes(items) + rest, |zs|, zero, read) == Ok(zs, rest)
  {
    if zs != [] {
      var tail := ConcatBytes(items[1..]) + rest;
      assert ConcatBytes(items) + rest == items[0] + tail;
      assert Decodes(zero, read, items[0], zs[0]);
      ItemsRoundTrip(zero, read, items[1..], zs[1..], rest);
      assert [zs[0]] + zs[1..] == zs;
    }
  }

  function ListBytes(items: seq<Bytes>): Bytes
    requires |items| < 0x1_0000_0000
  {
    AppendArrayHeader(|items|) + ConcatBytes(items)
  }

  lemma ListRoundTrip<Z>(zero: Z, read: FieldReader<Z>, items: seq<Bytes>, zs: seq<Option<Z>>, rest: Bytes)
    requires |items| == |zs| < 0x1_0000_0000 && forall i :: 0 <= i < |zs| ==> Decodes(zero, read, items[i], zs[i])
    ensures ReadList(ListBytes(items) + rest, zero, read) == Ok(zs, rest)
  {
    assert ListBytes(items) + rest == AppendArrayHeader(|items|) + (ConcatBytes(items) + rest);
    ArrayHeaderRoundTrip(|items|, ConcatBytes(items) + rest);
    ItemsRoundTrip(zero, read, items, zs, rest);
  }

  // ----- StakingInfo -----

  const ZERO_VALIDATOR: Validator := Validator(0, 0, 0, 0, [], 0, false)
  const ZERO_REWARD: PendingReward := PendingReward(0, 0, 0)

  function ValidatorItem(v: Option<Validator>): Bytes
    requires v.Some? ==> ValidatorFits(v.value)
  {
    if v.None? then [NIL] else ValidatorBytes(v.value)
  }

  function RewardItem(pr: Option<PendingReward>): Bytes
    requires pr.Some? ==> RewardFits(pr.value)
  {
    if pr.None? then [NIL] else RewardBytes(pr.value)
  }

  ghost function ValidatorItems(info: StoredInfo): seq<Bytes>
    requires Fits(info)
  {
    seq(|info.validators|, i requires 0 <= i < |info.validators| => ValidatorItem(info.validators[i]))
  }

  ghost function RewardItems(info: StoredInfo): seq<Bytes>
    requires Fits(info)
  {
    seq(|info.pendingRewards|, i requires 0 <= i < |info.pendingRewards| => RewardItem(info.pendingRewards[i]))
  }

  ghost function InfoFields(info: StoredInfo): (fs: seq<Field>)
    requires Fits(info)
    ensures |fs| == 3 && forall i :: 0 <= i < 3 ==> |fs[i].key| < 32
  {
    [Field(CURR_EPOCH_NUM_KEY, AppendInt64(info.currEpochNum)),
     Field(VALIDATORS_KEY, ListBytes(ValidatorItems(info))),
     Field(PENDING_REWARDS_KEY, ListBytes(RewardItems(info)))]
  }

  // StakingInfo.MarshalMsg
  ghost function InfoBytes(info: StoredInfo): Bytes
    requires Fits(info)
  {
    RecordBytes(InfoFields(info))
  }

  function ReadInfoField(key: Bytes, bts: Bytes, z: StoredInfo): Parsed<StoredInfo> {
    if key == CURR_EPOCH_NUM_KEY then
      match ReadInt64(bts) { case Ok(x, rest) => Ok(z.(currEpochNum := x), rest) case Fail => Fail }
    else if key == VALIDATORS_KEY then
      match ReadList(bts, ZERO_VALIDATOR, ReadValidatorField)
        { case Ok(x, rest) => Ok(z.(validators := x), rest) case Fail => Fail }
    else if key == PENDING_REWARDS_KEY then
      match ReadList(bts, ZERO_REWARD, ReadRewardField)
        { case Ok(x, rest) => Ok(z.(pendingRewards := x), rest) case Fail => Fail }
    else Skipped(bts, z)
  }

  // StakingInfo.UnmarshalMsg into the receiver z
  function ReadInfo(bts: Bytes, z: StoredInfo): Parsed<StoredInfo> {
    ReadRecord(bts, z, ReadInfoField)
  }

  lemma ValidatorsRoundTrip(info: StoredInfo, rest: Bytes)
    requires Fits(info)
    ensures ReadList(ListBytes(ValidatorItems(info)) + rest, ZERO_VALIDATOR, ReadValidatorField) == Ok(info.validators, rest)
  {
    var items := ValidatorItems(info);
    forall i | 0 <= i < |items| ensures Decodes(ZERO_VALIDATOR, ReadValidatorField, items[i], info.validators[i]) {
      forall tail ensures ReadItem(items[i] + tail, ZERO_VALIDATOR, ReadValidatorField) == Ok(info.validators[i], tail) {
        if info.validators[i].Some? {
          ValidatorRoundTrip(info.validators[i].value, ZERO_VALIDATOR, tail);
        } else {
          assert ([NIL] + tail)[1..] == tail;
        }
      }
    }
    ListRoundTrip(ZERO_VALIDATOR, ReadValidatorField, items, info.validators, rest);
  }

  lemma RewardsRoundTrip(info: StoredInfo, rest: Bytes)
    requires Fits(info)
    ensures ReadList(ListBytes(RewardItems(info)) + rest, ZERO_REWARD, ReadRewardField) == Ok(info.pendingRewards, rest)
  {
    var items := RewardItems(info);
    forall i | 0 <= i < |items| ensures Decodes(ZERO_REWARD, ReadRewardField, items[i], info.pendingRewards[i]) {
      forall tail ensures ReadItem(items[i] + tail, ZERO_REWARD, ReadRewardField) == Ok(info.pendingRewards[i], tail) {
        if info.pendingRewards[i].Some? {
          RewardRoundTrip(info.pendingRewards[i].value, ZERO_REWARD, tail);
        } else {
          assert ([NIL] + tail)[1..] == tail;
        }
      }
    }
    ListRoundTrip(ZERO_REWARD, ReadRewardField, items, info.pendingRewards, rest);
  }

  /** The codec round trip: what is saved is what is loaded, with any number of entries, nil
      ones included, and whatever follows is left alone. */
  lemma InfoRoundTrip(info: StoredInfo, z: StoredInfo, rest: Bytes)
    requires Fits(info)
    ensures ReadInfo(InfoBytes(info) + rest, z) == Ok(info, rest)
  {
    var z1 := z.(currEpochNum := info.currEpochNum);
    var z2 := z1.(validators := info.validators);
    var fs := InfoFields(info);
    forall tail ensures ReadInfoField(fs[0].key, fs[0].payload + tail, z) == Ok(z1, tail) {
      Int64RoundTrip(info.currEpochNum, tail);
    }
    forall tail ensures ReadInfoField(fs[1].key, fs[1].payload + tail, z1) == Ok(z2, tail) {
      ValidatorsRoundTrip(info, tail);
    }
    forall tail ensures ReadInfoField(fs[2].key, fs[2].payload + tail, z2) == Ok(info, tail) {
      RewardsRoundTrip(info, tail);
    }
    assert Sets(ReadInfoField, fs[0], z, z1);
    assert Sets(ReadInfoField, fs[1], z1, z2);
    assert Sets(ReadInfoField, fs[2], z2, info);
    RecordRoundTrip(ReadInfoField, fs, [z, z1, z2, info], rest);
  }

  /** So no two infos have the same bytes, not even one as a beginning of the other's. */
  lemma InfoBytesInjective(a: StoredInfo, b: StoredInfo, rest: Bytes)
    requires Fits(a) && Fits(b) && InfoBytes(a) + rest == InfoBytes(b)
    ensures a == b && rest == []
  {
    InfoRoundTrip(a, a, rest);
    InfoRoundTrip(b, a, []);
    assert InfoBytes(b) + [] == InfoBytes(b);
  }

  // ----- The printer's loops -----

  method MarshalInfo(info: StoredInfo, b: Bytes) returns (o: Bytes)
    requires Fits(info)
    ensures o == b + InfoBytes(info)
  {
    o := b + ([0x83] + AppendString(CURR_EPOCH_NUM_KEY));
    o := o + AppendInt64(info.currEpochNum);
    o := o + AppendString(VALIDATORS_KEY);
    o := MarshalValidators(info, o);
    o := o + AppendString(PENDING_REWARDS_KEY);
    o := MarshalRewards(info, o);
    InfoLayout(info, b);
  }

  lemma InfoLayout(info: StoredInfo, b: Bytes)
    requires Fits(info)
    ensures b + InfoBytes(info) ==
            b + ([0x83] + AppendString(CURR_EPOCH_NUM_KEY)) + AppendInt64(info.currEpochNum)
            + AppendString(VALIDATORS_KEY) + ListBytes(ValidatorItems(info))
            + AppendString(PENDING_REWARDS_KEY) + ListBytes(RewardItems(info))
  {
    var fs := InfoFields(info);
    ThreeFields(fs);
    Regroup(b, [0x83], AppendString(fs[0].key), fs[0].payload, AppendString(fs[1].key), fs[1].payload,
            AppendString(fs[2].key), fs[2].payload);
  }

  lemma ThreeFields(fs: seq<Field>)
    requires |fs| == 3 && forall i :: 0 <= i < 3 ==> |fs[i].key| < 32
    ensures Concat(fs) == FieldBytes(fs[0]) + (FieldBytes(fs[1]) + FieldBytes(fs[2]))
  {
    assert fs[1..][1..] == [fs[2]] && [fs[2]][1..] == [];
    assert Concat([fs[2]]) == FieldBytes(fs[2]) + Concat([]);
    assert Concat(fs[1..]) == FieldBytes(fs[1]) + Concat([fs[2]]);
  }

  lemma Regroup(b: Bytes, head: Bytes, k0: Bytes, v0: Bytes, k1: Bytes, v1: Bytes, k2: Bytes, v2: Bytes)
    ensures b + (head + ((k0 + v0) + ((k1 + v1) + (k2 + v2)))) == b + (head + k0) + v0 + k1 + v1 + k2 + v2
  {
    var tail := k1 + v1 + k2 + v2;
    assert (k1 + v1) + (k2 + v2) == tail;
    assert head + ((k0 + v0) + tail) == (head + k0) + v0 + tail;
  }

  lemma NextItem(o: Bytes, items: seq<Bytes>, i: nat)
    requires i < |items|
    ensures o + items[i] + ConcatBytes(items[i + 1..]) == o + ConcatBytes(items[i..])
  {
    assert items[i..][1..] == items[i + 1..];
    assert o + (items[i] + ConcatBytes(items[i + 1..])) == o + items[i] + ConcatBytes(items[i + 1..]);
  }

  method MarshalValidators(info: StoredInfo, b: Bytes) returns (o: Bytes)
    requires Fits(info)
    ensures o == b + ListBytes(ValidatorItems(info))
  {
    o := b + AppendArrayHeader(|info.validators|);
    ghost var start, items := o, ValidatorItems(info);
    assert items[0..] == items;
    for i := 0 to |info.validators|
      invariant o + ConcatBytes(items[i..]) == start + ConcatBytes(items)
    {
      NextItem(o, items, i);
      if info.validators[i].None? {
        o := o + [NIL];
      } else {
        o := o + ValidatorBytes(info.validators[i].value);
      }
    }
    assert o + [] == o;
    assert start + ConcatBytes(items) == b + ListBytes(items);
  }

  method MarshalRewards(info: StoredInfo, b: Bytes) returns (o: Bytes)
    requires Fits(info)
    ensures o == b + ListBytes(RewardItems(info))
  {
    o := b + AppendArrayHeader(|info.pendingRewards|);
    ghost var start, items := o, RewardItems(info);
    assert items[0..] == items;
    for i := 0 to |info.pendingRewards|
      invariant o + ConcatBytes(items[i..]) == start + ConcatBytes(items)
    {
      NextItem(o, items, i);
      if info.pendingRewards[i].None? {
        o := o + [NIL];
      } else {
        o := o + RewardBytes(info.pendingRewards[i].value);
      }
    }
    assert o + [] == o;
    assert start + ConcatBytes(items) == b + ListBytes(items);
  }
}
