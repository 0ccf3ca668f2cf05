/** The bytes of the stored state written out, with the keys as the chain stores them
    (staking/types/types_gen.go:693-709, 924-959, 1226-1253), and what is read from them. */
module WireFormat {
  import opened Words
  import opened StakingTypes
  import opened MessagePack
  import opened Codec

  // ----- Big-endian digits -----

  // The n-th digit to the base 256, counted from the lowest.
  function Digit(x: nat, n: nat): Byte {
    if n == 0 then x % 256 else Digit(x / 256, n - 1)
  }

  ghost predicate IsBigEndian(bs: Bytes, x: nat, k: nat) {
    |bs| == k && forall i :: 0 <= i < k ==> bs[i] == Digit(x, k - 1 - i)
  }

  lemma {:induction false} BigEndianIs(x: nat, k: nat)
    ensures IsBigEndian(BigEndian(x, k), x, k)
  {
    if k > 0 {
      BigEndianIs(x / 256, k - 1);
    }
  }

  // Reading digits: each one more multiplies by 256.
  lemma FromBigEndianIs(bs: Bytes, b: Byte)
    ensures FromBigEndian([]) == 0
    ensures var last: nat := b; FromBigEndian(bs + [b]) == 256 * FromBigEndian(bs) + last
  {
    assert (bs + [b])[..|bs|] == bs;
  }

  // ----- Numbers, strings and headers by their first byte -----

  // A lead byte, and x in k bytes behind it.
  ghost predicate Led(bs: Bytes, lead: Byte, x: nat, k: nat) {
    |bs| == k + 1 && bs[0] == lead && IsBigEndian(bs[1..], x, k)
  }

  lemma LedBy(lead: Byte, x: nat, k: nat)
    ensures Led([lead] + BigEndian(x, k), lead, x, k)
  {
    BigEndianIs(x, k);
    assert ([lead] + BigEndian(x, k))[1..] == BigEndian(x, k);
  }

  // The two's complement of i in k bytes.
  ghost predicate LedSigned(bs: Bytes, lead: Byte, i: int, k: nat, modulus: nat)
    requires 0 - modulus <= i
  {
    Led(bs, lead, if i >= 0 then i else modulus + i, k)
  }

  /** The printer writes the shortest of the signed formats. */
  lemma Int64Is(i: Int64)
    ensures var bs := AppendInt64(i);
      if 0 <= i < 128 then bs == [i]
      else if -32 <= i < 0 then bs == [256 + i]
      else if -128 <= i < 0 then LedSigned(bs, 0xd0, i, 1, 256)
      else if -32768 <= i < 32768 then LedSigned(bs, 0xd1, i, 2, 65536)
      else if -2147483648 <= i < 2147483648 then LedSigned(bs, 0xd2, i, 4, 4294967296)
      else LedSigned(bs, 0xd3, i, 8, 18446744073709551616)
  {
    if -128 <= i < 0 {
      LedBy(0xd0, 256 + i, 1);
    }
    LedBy(0xd1, if i >= 0 then i else if i >= -32768 then 65536 + i else 0, 2);
    LedBy(0xd2, if i >= 0 then i else if i >= -2147483648 then 4294967296 + i else 0, 4);
    LedBy(0xd3, if i >= 0 then i else 18446744073709551616 + i, 8);
  }

  ghost predicate SignedFormat(lead: Byte, k: nat, modulus: nat) {
    || (lead == 0xd0 && k == 1 && modulus == 256) || (lead == 0xd1 && k == 2 && modulus == 65536)
    || (lead == 0xd2 && k == 4 && modulus == 4294967296) || (lead == 0xd3 && k == 8 && modulus == 18446744073709551616)
  }

  ghost predicate UnsignedFormat(lead: Byte, k: nat) {
    || (lead == 0xcc && k == 1) || (lead == 0xcd && k == 2) || (lead == 0xce && k == 4) || (lead == 0xcf && k == 8)
  }

  lemma NumberRead(lead: Byte, bs: Bytes, rest: Bytes)
    ensures var all := [lead] + bs + rest; all[0] == lead && ReadNumber(all[1..], |bs|) == Ok(FromBigEndian(bs), rest)
  {
    Lead(lead, bs, rest);
    assert (bs + rest)[..|bs|] == bs && (bs + rest)[|bs|..] == rest;
  }

  // A number x of k bytes behind a lead byte is read as an integer.
  ghost predicate ReadsAs(all: Bytes, k: nat, x: nat, rest: Bytes, modulus: nat)
    requires all != []
  {
    && (SignedFormat(all[0], k, modulus) ==> ReadInt64(all) == Ok(if 2 * x < modulus then x else x - modulus, rest))
    && (UnsignedFormat(all[0], k) ==> ReadInt64(all) == if x > 9223372036854775807 then Fail else Ok(x, rest))
  }

  lemma ReadsFormat(all: Bytes, k: nat, x: nat, rest: Bytes, modulus: nat)
    requires all != [] && ReadNumber(all[1..], k) == Ok(x, rest)
    ensures ReadsAs(all, k, x, rest, modulus)
  {
  }

  /** The parser takes every integer format there is: two's complement and unsigned, where it refuses
      what is above the greatest int64, */
  lemma ReadsIntegers(lead: Byte, bs: Bytes, rest: Bytes, modulus: nat) returns (all: Bytes)
    ensures all == [lead] + bs + rest && ReadsAs(all, |bs|, FromBigEndian(bs), rest, modulus)
  {
    all := [lead] + bs + rest;
    NumberRead(lead, bs, rest);
    ReadsFormat(all, |bs|, FromBigEndian(bs), rest, modulus);
  }

  /** and one byte. */
  lemma ReadsOneByte(lead: Byte, rest: Bytes)
    ensures var x: nat := lead;
      && (x < 128 ==> ReadInt64([lead] + rest) == Ok(x, rest))
      && (x >= 224 ==> ReadInt64([lead] + rest) == Ok(x - 256, rest))
  {
    assert ([lead] + rest)[1..] == rest;
  }

  // A lead byte, the length in k bytes behind it, and the data.
  ghost predicate LedData(bs: Bytes, lead: Byte, data: Bytes, k: nat) {
    |bs| == 1 + k + |data| && Led(bs[..1 + k], lead, |data|, k) && bs[1 + k..] == data
  }

  lemma LedDataBy(lead: Byte, data: Bytes, k: nat)
    ensures LedData([lead] + BigEndian(|data|, k) + data, lead, data, k)
  {
    LedBy(lead, |data|, k);
    var head := [lead] + BigEndian(|data|, k);
    assert (head + data)[..1 + k] == head && (head + data)[1 + k..] == data;
  }

  lemma BytesAre(data: Bytes)
    requires |data| < 4294967296
    ensures LedData(AppendBytes(data), if |data| < 256 then 0xc4 else if |data| < 65536 then 0xc5 else 0xc6, data,
                    if |data| < 256 then 1 else if |data| < 65536 then 2 else 4)
  {
    LedDataBy(0xc4, data, 1);
    LedDataBy(0xc5, data, 2);
    LedDataBy(0xc6, data, 4);
  }

  lemma StringIs(data: Bytes)
    requires |data| < 4294967296
    ensures if |data| < 32 then AppendString(data) == [160 + |data|] + data
            else LedData(AppendString(data), if |data| < 256 then 0xd9 else if |data| < 65536 then 0xda else 0xdb, data,
                         if |data| < 256 then 1 else if |data| < 65536 then 2 else 4)
  {
    LedDataBy(0xd9, data, 1);
    LedDataBy(0xda, data, 2);
    LedDataBy(0xdb, data, 4);
  }

  lemma HeaderIs(n: nat)
    requires n < 4294967296
    ensures var bs := AppendArrayHeader(n);
      if n < 16 then bs == [144 + n] else if n < 65536 then Led(bs, 0xdc, n, 2) else Led(bs, 0xdd, n, 4)
    ensures AppendBool(true) == [0xc3] && AppendBool(false) == [0xc2]
  {
    LedBy(0xdc, n, 2);
    LedBy(0xdd, n, 4);
  }

  // ----- Other ways to write the same -----

  lemma DataRead(lead: Byte, data: Bytes, k: nat, rest: Bytes) returns (all: Bytes)
    requires |data| < Pow256(k)
    ensures all == [lead] + BigEndian(|data|, k) + data + rest
    ensures all[0] == lead && ReadSized(all[1..], k) == Ok(data, rest)
  {
    all := [lead] + BigEndian(|data|, k) + data + rest;
    SizedRoundTrip(lead, data, k, rest);
  }

  /** A length may take more bytes than it needs, and a key may be a byte string. */
  lemma ReadsAnySize(lead: Byte, data: Bytes, k: nat, rest: Bytes)
    requires |data| < Pow256(k)
    ensures var all := [lead] + BigEndian(|data|, k) + data + rest;
      && ((lead == 0xd9 && k == 1) || (lead == 0xda && k == 2) || (lead == 0xdb && k == 4) ==>
            ReadString(all) == ReadKey(all) == Ok(data, rest))
      && ((lead == 0xc4 && k == 1) || (lead == 0xc5 && k == 2) || (lead == 0xc6 && k == 4) ==>
            ReadBin(all) == ReadKey(all) == Ok(data, rest))
  {
    var all := DataRead(lead, data, k, rest);
  }

  lemma HeaderRead(lead: Byte, n: nat, k: nat, rest: Bytes) returns (all: Bytes)
    requires n < Pow256(k)
    ensures all == [lead] + BigEndian(n, k) + rest
    ensures all[0] == lead && ReadNumber(all[1..], k) == Ok(n, rest)
  {
    all := [lead] + BigEndian(n, k) + rest;
    Lead(lead, BigEndian(n, k), rest);
    ReadNumberRoundTrip(n, k, rest);
  }

  /** Array and map headers of both widths are read. */
  lemma ReadsAnyHeader(lead: Byte, n: nat, k: nat, rest: Bytes)
    requires n < Pow256(k)
    ensures var all := [lead] + BigEndian(n, k) + rest;
      && ((lead == 0xdc && k == 2) || (lead == 0xdd && k == 4) ==> ReadArrayHeader(all) == Ok(n, rest))
      && ((lead == 0xde && k == 2) || (lead == 0xdf && k == 4) ==> ReadMapHeader(all) == Ok(n, rest))
  {
    var all := HeaderRead(lead, n, k, rest);
  }

  /** Nothing is read from a value of another kind, and no byte string of another length becomes an
      address or a number. */
  lemma OtherKindsAreRefused(bts: Bytes)
    ensures ReadInt64(bts).Ok? ==> var lead: nat := bts[0];
      lead < 0x80 || lead >= 0xe0 || 0xcc <= lead <= 0xd3
    ensures ReadString(bts).Ok? ==> var lead: nat := bts[0]; 0xa0 <= lead < 0xc0 || 0xd9 <= lead <= 0xdb
    ensures ReadBin(bts).Ok? ==> var lead: nat := bts[0]; 0xc4 <= lead <= 0xc6
    ensures ReadBool(bts).Ok? ==> bts[0] == 0xc2 || bts[0] == 0xc3
    ensures ReadArrayHeader(bts).Ok? ==> var lead: nat := bts[0]; 0x90 <= lead < 0xa0 || lead == 0xdc || lead == 0xdd
    ensures ReadMapHeader(bts).Ok? ==> var lead: nat := bts[0]; 0x80 <= lead < 0x90 || lead == 0xde || lead == 0xdf
    ensures ReadAddress(bts).Ok? ==> ReadBin(bts).Ok? && |ReadBin(bts).value| == 20
    ensures ReadWord(bts).Ok? ==> ReadBin(bts).Ok? && |ReadBin(bts).value| == 32
  {
  }

  // ----- The records written out -----

  // A key, its value, and what follows.
  function Entry(key: Bytes, value: Bytes, tail: Bytes): Bytes {
    key + value + tail
  }

  // The 20 bytes of an address and the 32 bytes of a key or an amount.
  function Array20(x: nat): Bytes {
    [0xc4, 20] + BigEndian(x, 20)
  }

  function Array32(x: nat): Bytes {
    [0xc4, 32] + BigEndian(x, 32)
  }

  function RewardWire(pr: PendingReward): Bytes
    requires RewardFits(pr)
  {
    [0x83] +
    Entry([0xa7, 0x41, 0x64, 0x64, 0x72, 0x65, 0x73, 0x73], Array20(pr.address),
    Entry([0xa8, 0x45, 0x70, 0x6f, 0x63, 0x68, 0x4e, 0x75, 0x6d], AppendInt64(pr.epochNum),
    Entry([0xa6, 0x41, 0x6d, 0x6f, 0x75, 0x6e, 0x74], Array32(pr.amount), [])))
  }

  function ValidatorWire(v: Validator): Bytes
    requires ValidatorFits(v)
  {
    [0x87] +
    Entry([0xa7, 0x41, 0x64, 0x64, 0x72, 0x65, 0x73, 0x73], Array20(v.address),
    Entry([0xa6, 0x50, 0x75, 0x62, 0x6b, 0x65, 0x79], Array32(v.pubkey),
    Entry([0xa8, 0x52, 0x65, 0x77, 0x61, 0x72, 0x64, 0x54, 0x6f], Array20(v.rewardTo),
    Entry([0xab, 0x56, 0x6f, 0x74, 0x69, 0x6e, 0x67, 0x50, 0x6f, 0x77, 0x65, 0x72], AppendInt64(v.votingPower),
          ValidatorWireEnd(v)))))
  }

  function ValidatorWireEnd(v: Validator): Bytes
    requires ValidatorFits(v)
  {
    Entry([0xac, 0x49, 0x6e, 0x74, 0x72, 0x6f, 0x64, 0x75, 0x63, 0x74, 0x69, 0x6f, 0x6e], AppendString(v.introduction),
    Entry([0xab, 0x53, 0x74, 0x61, 0x6b, 0x65, 0x64, 0x43, 0x6f, 0x69, 0x6e, 0x73], Array32(v.stakedCoins),
    Entry([0xaa, 0x49, 0x73, 0x52, 0x65, 0x74, 0x69, 0x72, 0x69, 0x6e, 0x67], [if v.isRetiring then 0xc3 else 0xc2], [])))
  }

  // The entries of a list one after the other; a nil entry is one byte.
  ghost function ValidatorsWire(vs: seq<Option<Validator>>): Bytes
    requires forall i :: 0 <= i < |vs| && vs[i].Some? ==> ValidatorFits(vs[i].value)
  {
    if vs == [] then []
    else (if vs[0].None? then [0xc0] else ValidatorWire(vs[0].value)) + ValidatorsWire(vs[1..])
  }

  ghost function RewardsWire(prs: seq<Option<PendingReward>>): Bytes
    requires forall i :: 0 <= i < |prs| && prs[i].Some? ==> RewardFits(prs[i].value)
  {
    if prs == [] then []
    else (if prs[0].None? then [0xc0] else RewardWire(prs[0].value)) + RewardsWire(prs[1..])
  }

  ghost function InfoWire(info: StoredInfo): Bytes
    requires Fits(info)
  {
    [0x83] +
    Entry([0xac, 0x43, 0x75, 0x72, 0x72, 0x45, 0x70, 0x6f, 0x63, 0x68, 0x4e, 0x75, 0x6d], AppendInt64(info.currEpochNum),
    Entry([0xaa, 0x56, 0x61, 0x6c, 0x69, 0x64, 0x61, 0x74, 0x6f, 0x72, 0x73],
          AppendArrayHeader(|info.validators|) + ValidatorsWire(info.validators),
    Entry([0xae, 0x50, 0x65, 0x6e, 0x64, 0x69, 0x6e, 0x67, 0x52, 0x65, 0x77, 0x61, 0x72, 0x64, 0x73],
          AppendArrayHeader(|info.pendingRewards|) + RewardsWire(info.pendingRewards), [])))
  }

  // ----- What is printed are those bytes -----

  lemma ArrayIs(x: nat, k: nat)
    requires k < 256
    ensures AppendBytes(BigEndian(x, k)) == [0xc4, k] + BigEndian(x, k)
  {
    assert BigEndian(k, 1) == BigEndian(k / 256, 0) + [k % 256];
    assert [0xc4] + BigEndian(k, 1) == [0xc4, k];
  }

  // One field more in front of the rest.
  lemma NextEntry(fs: seq<Field>, i: nat, key: Bytes, value: Bytes)
    requires i < |fs| && forall k :: 0 <= k < |fs| ==> |fs[k].key| < 32
    requires key == [160 + |fs[i].key|] + fs[i].key && value == fs[i].payload
    ensures Concat(fs[i..]) == Entry(key, value, Concat(fs[i + 1..]))
  {
    assert fs[i..][1..] == fs[i + 1..];
  }

  lemma KeysAre()
    ensures [167] + ADDRESS_KEY == [0xa7, 0x41, 0x64, 0x64, 0x72, 0x65, 0x73, 0x73]
    ensures [166] + PUBKEY_KEY == [0xa6, 0x50, 0x75, 0x62, 0x6b, 0x65, 0x79]
    ensures [168] + REWARD_TO_KEY == [0xa8, 0x52, 0x65, 0x77, 0x61, 0x72, 0x64, 0x54, 0x6f]
    ensures [171] + VOTING_POWER_KEY == [0xab, 0x56, 0x6f, 0x74, 0x69, 0x6e, 0x67, 0x50, 0x6f, 0x77, 0x65, 0x72]
    ensures [172] + INTRODUCTION_KEY == [0xac, 0x49, 0x6e, 0x74, 0x72, 0x6f, 0x64, 0x75, 0x63, 0x74, 0x69, 0x6f, 0x6e]
    ensures [171] + STAKED_COINS_KEY == [0xab, 0x53, 0x74, 0x61, 0x6b, 0x65, 0x64, 0x43, 0x6f, 0x69, 0x6e, 0x73]
    ensures [170] + IS_RETIRING_KEY == [0xaa, 0x49, 0x73, 0x52, 0x65, 0x74, 0x69, 0x72, 0x69, 0x6e, 0x67]
    ensures [168] + EPOCH_NUM_KEY == [0xa8, 0x45, 0x70, 0x6f, 0x63, 0x68, 0x4e, 0x75, 0x6d]
    ensures [166] + AMOUNT_KEY == [0xa6, 0x41, 0x6d, 0x6f, 0x75, 0x6e, 0x74]
  {
  }

  lemma RewardBytesAre(pr: PendingReward)
    requires RewardFits(pr)
    ensures RewardBytes(pr) == RewardWire(pr)
  {
    KeysAre();
    var fs := RewardFields(pr);
    ArrayIs(pr.address, 20);
    ArrayIs(pr.amount, 32);
    LastThree(fs, 0, [167] + ADDRESS_KEY, Array20(pr.address), [168] + EPOCH_NUM_KEY, AppendInt64(pr.epochNum),
              [166] + AMOUNT_KEY, Array32(pr.amount));
    assert fs[0..] == fs;
  }

  lemma ValidatorFirst(v: Validator)
    requires ValidatorFits(v)
    ensures Concat(ValidatorFields(v)) ==
      Entry([0xa7, 0x41, 0x64, 0x64, 0x72, 0x65, 0x73, 0x73], Array20(v.address),
      Entry([0xa6, 0x50, 0x75, 0x62, 0x6b, 0x65, 0x79], Array32(v.pubkey), Concat(ValidatorFields(v)[2..])))
  {
    KeysAre();
    var fs := ValidatorFields(v);
    ArrayIs(v.address, 20);
    ArrayIs(v.pubkey, 32);
    NextEntry(fs, 0, [167] + ADDRESS_KEY, Array20(v.address));
    NextEntry(fs, 1, [166] + PUBKEY_KEY, Array32(v.pubkey));
    assert fs[0..] == fs;
  }

  lemma ValidatorMiddle(v: Validator)
    requires ValidatorFits(v)
    ensures Concat(ValidatorFields(v)[2..]) ==
      Entry([0xa8, 0x52, 0x65, 0x77, 0x61, 0x72, 0x64, 0x54, 0x6f], Array20(v.rewardTo),
      Entry([0xab, 0x56, 0x6f, 0x74, 0x69, 0x6e, 0x67, 0x50, 0x6f, 0x77, 0x65, 0x72], AppendInt64(v.votingPower),
            Concat(ValidatorFields(v)[4..])))
  {
    KeysAre();
    var fs := ValidatorFields(v);
    ArrayIs(v.rewardTo, 20);
    NextEntry(fs, 2, [168] + REWARD_TO_KEY, Array20(v.rewardTo));
    NextEntry(fs, 3, [171] + VOTING_POWER_KEY, AppendInt64(v.votingPower));
  }

  // Three fields from the i-th on, the last ones.
  lemma LastThree(fs: seq<Field>, i: nat, k0: Bytes, v0: Bytes, k1: Bytes, v1: Bytes, k2: Bytes, v2: Bytes)
    requires i + 3 == |fs| && forall k :: 0 <= k < |fs| ==> |fs[k].key| < 32
    requires k0 == [160 + |fs[i].key|] + fs[i].key && v0 == fs[i].payload
    requires k1 == [160 + |fs[i + 1].key|] + fs[i + 1].key && v1 == fs[i + 1].payload
    requires k2 == [160 + |fs[i + 2].key|] + fs[i + 2].key && v2 == fs[i + 2].payload
    ensures Concat(fs[i..]) == Entry(k0, v0, Entry(k1, v1, Entry(k2, v2, [])))
  {
    NextEntry(fs, i, k0, v0);
    NextEntry(fs, i + 1, k1, v1);
    NextEntry(fs, i + 2, k2, v2);
    assert fs[i + 3..] == [];
  }

  lemma ValidatorEnd(v: Validator)
    requires ValidatorFits(v)
    ensures Concat(ValidatorFields(v)[4..]) == ValidatorWireEnd(v)
  {
    KeysAre();
    ArrayIs(v.stakedCoins, 32);
    LastThree(ValidatorFields(v), 4,
              [172] + INTRODUCTION_KEY, AppendString(v.introduction),
              [171] + STAKED_COINS_KEY, Array32(v.stakedCoins),
              [170] + IS_RETIRING_KEY, [if v.isRetiring then 0xc3 else 0xc2]);
  }

  lemma ValidatorBytesAre(v: Validator)
    requires ValidatorFits(v)
    ensures ValidatorBytes(v) == ValidatorWire(v)
  {
    ValidatorFirst(v);
    ValidatorMiddle(v);
    ValidatorEnd(v);
  }

  lemma {:induction false} ValidatorItemsAre(info: StoredInfo, k: nat)
    requires Fits(info) && k <= |info.validators|
    ensures ConcatBytes(ValidatorItems(info)[k..]) == ValidatorsWire(info.validators[k..])
    decreases |info.validators| - k
  {
    var items, vs := ValidatorItems(info), info.validators;
    if k < |vs| {
      ValidatorItemsAre(info, k + 1);
      assert items[k..][1..] == items[k + 1..] && vs[k..][1..] == vs[k + 1..];
      if vs[k].Some? {
        ValidatorBytesAre(vs[k].value);
      }
    }
  }

  lemma {:induction false} RewardItemsAre(info: StoredInfo, k: nat)
    requires Fits(info) && k <= |info.pendingRewards|
    ensures ConcatBytes(RewardItems(info)[k..]) == RewardsWire(info.pendingRewards[k..])
    decreases |info.pendingRewards| - k
  {
    var items, prs := RewardItems(info), info.pendingRewards;
    if k < |prs| {
      RewardItemsAre(info, k + 1);
      assert items[k..][1..] == items[k + 1..] && prs[k..][1..] == prs[k + 1..];
      if prs[k].Some? {
        RewardBytesAre(prs[k].value);
      }
    }
  }

  lemma ListsAre(info: StoredInfo)
    requires Fits(info)
    ensures ListBytes(ValidatorItems(info)) == AppendArrayHeader(|info.validators|) + ValidatorsWire(info.validators)
    ensures ListBytes(RewardItems(info)) == AppendArrayHeader(|info.pendingRewards|) + RewardsWire(info.pendingRewards)
  {
    ValidatorItemsAre(info, 0);
    RewardItemsAre(info, 0);
    assert ValidatorItems(info)[0..] == ValidatorItems(info) && info.validators[0..] == info.validators;
    assert RewardItems(info)[0..] == RewardItems(info) && info.pendingRewards[0..] == info.pendingRewards;
  }

  lemma InfoFieldsAre(fs: seq<Field>, v0: Bytes, v1: Bytes, v2: Bytes)
    requires fs == [Field(CURR_EPOCH_NUM_KEY, v0), Field(VALIDATORS_KEY, v1), Field(PENDING_REWARDS_KEY, v2)]
    ensures Concat(fs) ==
      Entry([0xac, 0x43, 0x75, 0x72, 0x72, 0x45, 0x70, 0x6f, 0x63, 0x68, 0x4e, 0x75, 0x6d], v0,
      Entry([0xaa, 0x56, 0x61, 0x6c, 0x69, 0x64, 0x61, 0x74, 0x6f, 0x72, 0x73], v1,
      Entry([0xae, 0x50, 0x65, 0x6e, 0x64, 0x69, 0x6e, 0x67, 0x52, 0x65, 0x77, 0x61, 0x72, 0x64, 0x73], v2, [])))
  {
    InfoKeysAre();
    LastThree(fs, 0, [172] + CURR_EPOCH_NUM_KEY, v0, [170] + VALIDATORS_KEY, v1, [174] + PENDING_REWARDS_KEY, v2);
    assert fs[0..] == fs;
  }

  lemma InfoKeysAre()
    ensures [172] + CURR_EPOCH_NUM_KEY == [0xac, 0x43, 0x75, 0x72, 0x72, 0x45, 0x70, 0x6f, 0x63, 0x68, 0x4e, 0x75, 0x6d]
    ensures [170] + VALIDATORS_KEY == [0xaa, 0x56, 0x61, 0x6c, 0x69, 0x64, 0x61, 0x74, 0x6f, 0x72, 0x73]
    ensures [174] + PENDING_REWARDS_KEY ==
      [0xae, 0x50, 0x65, 0x6e, 0x64, 0x69, 0x6e, 0x67, 0x52, 0x65, 0x77, 0x61, 0x72, 0x64, 0x73]
  {
  }

  lemma InfoBytesAre(info: StoredInfo)
    requires Fits(info)
    ensures InfoBytes(info) == InfoWire(info)
  {
    var fs := InfoFields(info);
    ListsAre(info);
    InfoFieldsAre(fs, fs[0].payload, fs[1].payload, fs[2].payload);
  }

  /** The stored bytes: what is printed is the chain's own layout, and reading that layout gives every
      field back, whatever follows. */
  lemma InfoOnTheWire(info: StoredInfo, z: StoredInfo, rest: Bytes)
    requires Fits(info)
    ensures InfoBytes(info) == InfoWire(info) && ReadInfo(InfoWire(info) + rest, z) == Ok(info, rest)
  {
    InfoBytesAre(info);
    InfoRoundTrip(info, z, rest);
  }

  lemma ValidatorOnTheWire(v: Validator, z: Validator, rest: Bytes)
    requires ValidatorFits(v)
    ensures ReadRecord(ValidatorWire(v) + rest, z, ReadValidatorField) == Ok(v, rest)
  {
    ValidatorBytesAre(v);
    ValidatorRoundTrip(v, z, rest);
  }

  lemma RewardOnTheWire(pr: PendingReward, z: PendingReward, rest: Bytes)
    requires RewardFits(pr)
    ensures ReadRecord(RewardWire(pr) + rest, z, ReadRewardField) == Ok(pr, rest)
  {
    RewardBytesAre(pr);
    RewardRoundTrip(pr, z, rest);
  }

  // ----- Keys that are not known -----

  ghost predicate SkipsOver(skip: Skipper, item: Bytes, n: nat, rest: Bytes) {
    skip(item + rest, n + 1) == skip(rest, n)
  }

  ghost predicate AlwaysSkips(skip: Skipper, item: Bytes) {
    forall n: nat, rest: Bytes :: SkipsOver(skip, item, n, rest)
  }

  // Skipping passes over these bytes as one value, whatever follows.
  ghost predicate IsValue(item: Bytes) {
    AlwaysSkips(SkipObjects, item)
  }

  // Nothing inside, and the length is read from the bytes themselves.
  ghost predicate IsPlain(item: Bytes) {
    item != [] && forall rest: Bytes :: ObjectShape(item + rest) == Some((|item|, 0))
  }

  lemma PlainIsValue(item: Bytes)
    requires IsPlain(item)
    ensures IsValue(item)
  {
    forall n: nat, rest: Bytes ensures SkipsOver(SkipObjects, item, n, rest) {
      assert (item + rest)[|item|..] == rest;
      assert ObjectShape(item + rest) == Some((|item|, 0));
    }
  }

  ghost predicate SizedFormat(lead: Byte, k: nat) {
    || ((lead == 0xc4 || lead == 0xd9) && k == 1)
    || ((lead == 0xc5 || lead == 0xda) && k == 2)
    || ((lead == 0xc6 || lead == 0xdb) && k == 4)
  }

  lemma ShapeOfSized(all: Bytes, k: nat, n: nat)
    requires all != [] && SizedFormat(all[0], k) && ReadNumber(all[1..], k).Ok? && ReadNumber(all[1..], k).value == n
    ensures ObjectShape(all) == Some((1 + k + n, 0))
  {
  }

  lemma SizedHead(lead: Byte, data: Bytes, k: nat, rest: Bytes) returns (all: Bytes)
    requires |data| < Pow256(k)
    ensures all == [lead] + BigEndian(|data|, k) + data + rest
    ensures all[0] == lead && ReadNumber(all[1..], k) == Ok(|data|, data + rest)
  {
    all := [lead] + BigEndian(|data|, k) + (data + rest);
    Lead(lead, BigEndian(|data|, k), data + rest);
    ReadNumberRoundTrip(|data|, k, data + rest);
  }

  lemma SizedShape(lead: Byte, data: Bytes, k: nat)
    requires SizedFormat(lead, k) && |data| < Pow256(k)
    ensures IsPlain([lead] + BigEndian(|data|, k) + data)
  {
    var item := [lead] + BigEndian(|data|, k) + data;
    var length := 1 + k + |data|;
    assert |item| == length;
    forall rest: Bytes ensures ObjectShape(item + rest) == Some((length, 0)) {
      var all := SizedHead(lead, data, k, rest);
      ShapeOfSized(all, k, |data|);
    }
  }

  /** Every value that a record or list entry can hold is passed over as one value: integers, strings,
      byte strings, truth values and nil, */
  lemma PrintedAreValues(i: Int64, data: Bytes, b: bool)
    requires |data| < 0x1_0000_0000
    ensures IsValue(AppendInt64(i)) && IsValue(AppendString(data)) && IsValue(AppendBytes(data))
    ensures IsValue(AppendBool(b)) && IsValue([NIL])
  {
    assert IsPlain(AppendInt64(i)) && IsPlain(AppendBool(b)) && IsPlain([NIL]);
    StringIsPlain(data);
    BytesArePlain(data);
    PlainIsValue(AppendInt64(i));
    PlainIsValue(AppendString(data));
    PlainIsValue(AppendBytes(data));
    PlainIsValue(AppendBool(b));
    PlainIsValue([NIL]);
  }

  lemma StringIsPlain(data: Bytes)
    requires |data| < 0x1_0000_0000
    ensures IsPlain(AppendString(data))
  {
    Pow256Values();
    if |data| >= 32 {
      if |data| < 0x100 {
        SizedShape(0xd9, data, 1);
      } else if |data| < 0x1_0000 {
        SizedShape(0xda, data, 2);
      } else {
        SizedShape(0xdb, data, 4);
      }
    }
  }

  lemma BytesArePlain(data: Bytes)
    requires |data| < 0x1_0000_0000
    ensures IsPlain(AppendBytes(data))
  {
    Pow256Values();
    if |data| < 0x100 {
      SizedShape(0xc4, data, 1);
    } else if |data| < 0x1_0000 {
      SizedShape(0xc5, data, 2);
    } else {
      SizedShape(0xc6, data, 4);
    }
  }

  lemma {:induction false} ItemsAreSkipped(skip: Skipper, items: seq<Bytes>, n: nat, rest: Bytes)
    requires forall i :: 0 <= i < |items| ==> AlwaysSkips(skip, items[i])
    ensures skip(ConcatBytes(items) + rest, n + |items|) == skip(rest, n)
  {
    if items == [] {
      assert [] + rest == rest;
    } else {
      var tail := ConcatBytes(items[1..]) + rest;
      assert ConcatBytes(items) + rest == items[0] + tail;
      assert AlwaysSkips(skip, items[0]) && SkipsOver(skip, items[0], n + |items[1..]|, tail);
      ItemsAreSkipped(skip, items[1..], n, rest);
    }
  }

  lemma ShapeOfArray(all: Bytes, k: nat, n: nat)
    requires all != [] && ((all[0] == 0xdc && k == 2) || (all[0] == 0xdd && k == 4))
    requires ReadNumber(all[1..], k).Ok? && ReadNumber(all[1..], k).value == n
    ensures ObjectShape(all) == Some((1 + k, n))
  {
  }

  lemma HeaderShape(n: nat, rest: Bytes)
    requires n < 0x1_0000_0000
    ensures ObjectShape(AppendArrayHeader(n) + rest) == Some((|AppendArrayHeader(n)|, n))
  {
    Pow256Values();
    if 16 <= n {
      var lead: Byte, k := if n < 0x1_0000 then 0xdc else 0xdd, if n < 0x1_0000 then 2 else 4;
      Lead(lead, BigEndian(n, k), rest);
      ReadNumberRoundTrip(n, k, rest);
      ShapeOfArray([lead] + BigEndian(n, k) + rest, k, n);
    }
  }

  ghost predicate SkipsInside(skip: Skipper, body: Bytes, inside: nat, n: nat, rest: Bytes) {
    skip(body + rest, n + inside) == skip(rest, n)
  }

  // So many values and nothing else.
  ghost predicate AreValues(body: Bytes, inside: nat) {
    forall n: nat, rest: Bytes :: SkipsInside(SkipObjects, body, inside, n, rest)
  }

  ghost predicate IsHeader(header: Bytes, inside: nat) {
    header != [] && forall tail: Bytes :: ObjectShape(header + tail) == Some((|header|, inside))
  }

  lemma HeadedSkipped(skip: Skipper, header: Bytes, body: Bytes, inside: nat, n: nat, rest: Bytes)
    requires skip(header + (body + rest), n + 1) == skip(body + rest, n + inside)
    requires SkipsInside(skip, body, inside, n, rest)
    ensures SkipsOver(skip, header + body, n, rest)
  {
    assert header + body + rest == header + (body + rest);
  }

  lemma HeadedIsValue(header: Bytes, body: Bytes, inside: nat)
    requires IsHeader(header, inside) && AreValues(body, inside)
    ensures IsValue(header + body)
  {
    forall n: nat, rest: Bytes ensures SkipsOver(SkipObjects, header + body, n, rest) {
      SkipsInto(header, body + rest, n, inside);
      assert SkipsInside(SkipObjects, body, inside, n, rest);
      HeadedSkipped(SkipObjects, header, body, inside, n, rest);
    }
  }

  lemma SkipsInto(header: Bytes, tail: Bytes, n: nat, inside: nat)
    requires IsHeader(header, inside)
    ensures SkipObjects(header + tail, n + 1) == SkipObjects(tail, n + inside)
  {
    assert (header + tail)[|header|..] == tail;
    assert ObjectShape(header + tail) == Some((|header|, inside));
  }

  /** lists of values, */
  lemma ListIsValue(items: seq<Bytes>)
    requires |items| < 0x1_0000_0000 && forall i :: 0 <= i < |items| ==> IsValue(items[i])
    ensures IsValue(ListBytes(items))
  {
    var body := ConcatBytes(items);
    forall n: nat, rest: Bytes ensures SkipsInside(SkipObjects, body, |items|, n, rest) {
      ItemsAreSkipped(SkipObjects, items, n, rest);
    }
    ArrayHeaderIsHeader(|items|);
    HeadedIsValue(AppendArrayHeader(|items|), body, |items|);
  }

  lemma ArrayHeaderIsHeader(n: nat)
    requires n < 0x1_0000_0000
    ensures IsHeader(AppendArrayHeader(n), n)
  {
    forall tail: Bytes ensures ObjectShape(AppendArrayHeader(n) + tail) == Some((|AppendArrayHeader(n)|, n)) {
      HeaderShape(n, tail);
    }
  }

  lemma {:induction false} FieldsAreSkipped(skip: Skipper, fs: seq<Field>, n: nat, rest: Bytes)
    requires ShortKeys(fs)
    requires forall i :: 0 <= i < |fs| ==> AlwaysSkips(skip, AppendString(fs[i].key)) && AlwaysSkips(skip, fs[i].payload)
    ensures skip(Concat(fs) + rest, n + 2 * |fs|) == skip(rest, n)
  {
    if fs == [] {
      assert [] + rest == rest;
    } else {
      var tail, m := Concat(fs[1..]) + rest, n + 2 * |fs[1..]|;
      ConcatStep(fs, rest);
      assert AlwaysSkips(skip, AppendString(fs[0].key)) && AlwaysSkips(skip, fs[0].payload);
      assert SkipsOver(skip, AppendString(fs[0].key), m + 1, fs[0].payload + tail);
      assert SkipsOver(skip, fs[0].payload, m, tail);
      FieldsAreSkipped(skip, fs[1..], n, rest);
    }
  }

  /** and records. */
  lemma RecordIsValue(fs: seq<Field>)
    requires ShortKeys(fs) && |fs| < 16 && forall i :: 0 <= i < |fs| ==> IsValue(fs[i].payload)
    ensures IsValue(RecordBytes(fs))
  {
    forall i | 0 <= i < |fs| ensures IsValue(AppendString(fs[i].key)) {
      PrintedAreValues(0, fs[i].key, true);
    }
    var body := Concat(fs);
    forall n: nat, rest: Bytes ensures SkipsInside(SkipObjects, body, 2 * |fs|, n, rest) {
      FieldsAreSkipped(SkipObjects, fs, n, rest);
    }
    HeadedIsValue([0x80 + |fs|], body, 2 * |fs|);
  }

  ghost predicate Known(key: Bytes) {
    || key == [0x41, 0x64, 0x64, 0x72, 0x65, 0x73, 0x73] || key == [0x50, 0x75, 0x62, 0x6b, 0x65, 0x79]
    || key == [0x52, 0x65, 0x77, 0x61, 0x72, 0x64, 0x54, 0x6f]
    || key == [0x56, 0x6f, 0x74, 0x69, 0x6e, 0x67, 0x50, 0x6f, 0x77, 0x65, 0x72]
    || key == [0x49, 0x6e, 0x74, 0x72, 0x6f, 0x64, 0x75, 0x63, 0x74, 0x69, 0x6f, 0x6e]
    || key == [0x53, 0x74, 0x61, 0x6b, 0x65, 0x64, 0x43, 0x6f, 0x69, 0x6e, 0x73]
    || key == [0x49, 0x73, 0x52, 0x65, 0x74, 0x69, 0x72, 0x69, 0x6e, 0x67]
    || key == [0x45, 0x70, 0x6f, 0x63, 0x68, 0x4e, 0x75, 0x6d] || key == [0x41, 0x6d, 0x6f, 0x75, 0x6e, 0x74]
    || key == [0x43, 0x75, 0x72, 0x72, 0x45, 0x70, 0x6f, 0x63, 0x68, 0x4e, 0x75, 0x6d]
    || key == [0x56, 0x61, 0x6c, 0x69, 0x64, 0x61, 0x74, 0x6f, 0x72, 0x73]
    || key == [0x50, 0x65, 0x6e, 0x64, 0x69, 0x6e, 0x67, 0x52, 0x65, 0x77, 0x61, 0x72, 0x64, 0x73]
  }

  /** A field with an unknown key and any printed value leaves a record as it is, wherever it stands. */
  lemma UnknownKeysAreSkipped<Z>(read: FieldReader<Z>, key: Bytes, value: Bytes, n: nat, z: Z, tail: Bytes)
    requires |key| < 0x1_0000_0000 && IsValue(value)
    requires read(key, value + tail, z) == Skipped(value + tail, z)
    ensures ReadFields(AppendString(key) + (value + tail), n + 1, z, read) == ReadFields(tail, n, z, read)
  {
    StringRoundTrip(key, value + tail);
    assert SkipsOver(SkipObjects, value, 0, tail);
  }

  lemma UnknownKeysInRecords(key: Bytes, bts: Bytes, v: Validator, pr: PendingReward, info: StoredInfo)
    requires !Known(key)
    ensures ReadValidatorField(key, bts, v) == Skipped(bts, v)
    ensures ReadRewardField(key, bts, pr) == Skipped(bts, pr)
    ensures ReadInfoField(key, bts, info) == Skipped(bts, info)
  {
  }
}
