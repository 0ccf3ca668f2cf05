/** The parser never looks past what it needs: more bytes behind a value that is read do not change
    it.  So a state whose bytes are cut short is refused, and never read as another one. */
module Truncation {
  import opened Words
  import opened StakingTypes
  import opened MessagePack
  import opened Codec

  // With t behind the input, the same value is read and t is left.
  ghost predicate Extends<T>(p: Parsed<T>, q: Parsed<T>, t: Bytes) {
    p.Ok? ==> q == Ok(p.value, p.rest + t)
  }

  // ----- Primitives -----

  lemma Behind(bts: Bytes, t: Bytes, k: nat)
    requires k <= |bts|
    ensures (bts + t)[..k] == bts[..k] && (bts + t)[k..] == bts[k..] + t
  {
  }

  lemma NumberExtends(bts: Bytes, t: Bytes, k: nat)
    ensures Extends(ReadNumber(bts, k), ReadNumber(bts + t, k), t)
  {
    if k <= |bts| {
      Behind(bts, t, k);
    }
  }

  lemma BodyExtends(bts: Bytes, t: Bytes, n: nat)
    ensures Extends(ReadBody(bts, n), ReadBody(bts + t, n), t)
  {
    if n <= |bts| {
      Behind(bts, t, n);
    }
  }

  lemma SizedExtends(bts: Bytes, t: Bytes, k: nat)
    ensures Extends(ReadSized(bts, k), ReadSized(bts + t, k), t)
  {
    NumberExtends(bts, t, k);
    var n := ReadNumber(bts, k);
    if n.Ok? {
      BodyExtends(n.rest, t, n.value);
    }
  }

  lemma BinExtends(bts: Bytes, t: Bytes)
    ensures Extends(ReadBin(bts), ReadBin(bts + t), t)
  {
    if bts != [] {
      Behind(bts, t, 1);
      SizedExtends(bts[1..], t, 1);
      SizedExtends(bts[1..], t, 2);
      SizedExtends(bts[1..], t, 4);
    }
  }

  lemma StringExtends(bts: Bytes, t: Bytes)
    ensures Extends(ReadString(bts), ReadString(bts + t), t)
  {
    if bts != [] {
      var lead: nat := bts[0];
      Behind(bts, t, 1);
      if 0xa0 <= lead < 0xc0 {
        BodyExtends(bts[1..], t, lead - 0xa0);
      }
      SizedExtends(bts[1..], t, 1);
      SizedExtends(bts[1..], t, 2);
      SizedExtends(bts[1..], t, 4);
    }
  }

  // A bin never turns into a string when more bytes follow.
  lemma KeyExtends(bts: Bytes, t: Bytes)
    ensures Extends(ReadKey(bts), ReadKey(bts + t), t)
  {
    StringExtends(bts, t);
    BinExtends(bts, t);
    if ReadString(bts).Fail? && ReadBin(bts).Ok? {
      assert (bts + t)[0] == bts[0];
    }
  }

  lemma SignedExtends(bts: Bytes, t: Bytes, k: nat, modulus: nat)
    ensures Extends(ReadSigned(bts, k, modulus), ReadSigned(bts + t, k, modulus), t)
    ensures Extends(ReadUnsigned(bts, k), ReadUnsigned(bts + t, k), t)
  {
    NumberExtends(bts, t, k);
  }

  lemma Int64Extends(bts: Bytes, t: Bytes)
    ensures Extends(ReadInt64(bts), ReadInt64(bts + t), t)
  {
    if bts != [] {
      Behind(bts, t, 1);
      var lead := bts[0];
      if lead == 0xd0 || lead == 0xcc {
        SignedExtends(bts[1..], t, 1, 0x100);
      } else if lead == 0xd1 || lead == 0xcd {
        SignedExtends(bts[1..], t, 2, 0x1_0000);
      } else if lead == 0xd2 || lead == 0xce {
        SignedExtends(bts[1..], t, 4, 0x1_0000_0000);
      } else if lead == 0xd3 || lead == 0xcf {
        SignedExtends(bts[1..], t, 8, TWO64);
      }
    }
  }

  lemma HeadersExtend(bts: Bytes, t: Bytes, fix: Byte, wide2: Byte, wide4: Byte)
    ensures Extends(ReadHeader(bts, fix, wide2, wide4), ReadHeader(bts + t, fix, wide2, wide4), t)
  {
    if bts != [] {
      Behind(bts, t, 1);
      NumberExtends(bts[1..], t, 2);
      NumberExtends(bts[1..], t, 4);
    }
  }

  lemma BoolExtends(bts: Bytes, t: Bytes)
    ensures Extends(ReadBool(bts), ReadBool(bts + t), t)
  {
    if bts != [] {
      Behind(bts, t, 1);
    }
  }

  lemma ArraysExtend(bts: Bytes, t: Bytes)
    ensures Extends(ReadAddress(bts), ReadAddress(bts + t), t) && Extends(ReadWord(bts), ReadWord(bts + t), t)
  {
    BinExtends(bts, t);
  }

  // ----- Skipped values -----

  lemma SizedShapeExtends(rest: Bytes, t: Bytes, k: nat, header: nat)
    requires header >= 1
    ensures Sized(rest, k, header).Some? ==> Sized(rest + t, k, header) == Sized(rest, k, header)
  {
    NumberExtends(rest, t, k);
  }

  lemma ElementsExtend(rest: Bytes, t: Bytes, k: nat, each: nat)
    ensures Elements(rest, k, each).Some? ==> Elements(rest + t, k, each) == Elements(rest, k, each)
  {
    NumberExtends(rest, t, k);
  }

  lemma ShapeExtends(bts: Bytes, t: Bytes)
    requires bts != []
    ensures ObjectShape(bts).Some? ==> ObjectShape(bts + t) == ObjectShape(bts)
  {
    var lead: nat, rest := bts[0], bts[1..];
    Behind(bts, t, 1);
    if lead == 0xc4 || lead == 0xd9 {
      SizedShapeExtends(rest, t, 1, 2);
    } else if lead == 0xc5 || lead == 0xda {
      SizedShapeExtends(rest, t, 2, 3);
    } else if lead == 0xc6 || lead == 0xdb {
      SizedShapeExtends(rest, t, 4, 5);
    } else if lead == 0xc7 {
      SizedShapeExtends(rest, t, 1, 3);
    } else if lead == 0xc8 {
      SizedShapeExtends(rest, t, 2, 4);
    } else if lead == 0xc9 {
      SizedShapeExtends(rest, t, 4, 6);
    } else if lead == 0xdc || lead == 0xde {
      ElementsExtend(rest, t, 2, if lead == 0xdc then 1 else 2);
    } else if lead == 0xdd || lead == 0xdf {
      ElementsExtend(rest, t, 4, if lead == 0xdd then 1 else 2);
    }
  }

  ghost predicate SkipAgrees(r: Option<Bytes>, s: Option<Bytes>, t: Bytes) {
    r.Some? ==> s == Some(r.value + t)
  }

  // One step of SkipObjects.
  ghost predicate StepsLike(skip: Skipper, bts: Bytes, n: nat) {
    skip(bts, n) ==
    if n == 0 then Some(bts)
    else if bts == [] || ObjectShape(bts).None? || |bts| < ObjectShape(bts).value.0 then None
    else skip(bts[ObjectShape(bts).value.0..], n - 1 + ObjectShape(bts).value.1)
  }

  lemma {:induction false} SkipperExtends(skip: Skipper, bts: Bytes, t: Bytes, n: nat)
    requires forall b: Bytes, m: nat :: StepsLike(skip, b, m)
    ensures SkipAgrees(skip(bts, n), skip(bts + t, n), t)
    decreases |bts|
  {
    assert StepsLike(skip, bts, n) && StepsLike(skip, bts + t, n);
    if n > 0 && bts != [] && ObjectShape(bts).Some? && ObjectShape(bts).value.0 <= |bts| {
      var (k, inside) := ObjectShape(bts).value;
      ShapeExtends(bts, t);
      Behind(bts, t, k);
      SkipperExtends(skip, bts[k..], t, n - 1 + inside);
    }
  }

  lemma SkipExtends(bts: Bytes, t: Bytes, n: nat)
    ensures SkipAgrees(SkipObjects(bts, n), SkipObjects(bts + t, n), t)
  {
    forall b: Bytes, m: nat ensures StepsLike(SkipObjects, b, m) {
    }
    SkipperExtends(SkipObjects, bts, t, n);
  }

  lemma SkippedExtends<Z>(bts: Bytes, t: Bytes, z: Z)
    ensures Extends(Skipped(bts, z), Skipped(bts + t, z), t)
  {
    SkipExtends(bts, t, 1);
  }

  // ----- Records and lists -----

  ghost predicate FieldExtends<Z>(read: FieldReader<Z>, key: Bytes, bts: Bytes, z: Z, t: Bytes) {
    Extends(read(key, bts, z), read(key, bts + t, z), t)
  }

  ghost predicate ReaderExtends<Z(!new)>(read: FieldReader<Z>) {
    forall key: Bytes, bts: Bytes, z: Z, t: Bytes :: FieldExtends(read, key, bts, z, t)
  }

  lemma {:induction false} FieldsExtend<Z(!new)>(read: FieldReader<Z>, bts: Bytes, n: nat, z: Z, t: Bytes)
    requires ReaderExtends(read)
    ensures Extends(ReadFields(bts, n, z, read), ReadFields(bts + t, n, z, read), t)
    decreases n
  {
    if n > 0 {
      KeyExtends(bts, t);
      var key := ReadKey(bts);
      if key.Ok? {
        assert FieldExtends(read, key.value, key.rest, z, t);
        var field := read(key.value, key.rest, z);
        if field.Ok? {
          FieldsExtend(read, field.rest, n - 1, field.value, t);
        }
      }
    }
  }

  lemma RecordExtends<Z(!new)>(read: FieldReader<Z>, bts: Bytes, z: Z, t: Bytes)
    requires ReaderExtends(read)
    ensures Extends(ReadRecord(bts, z, read), ReadRecord(bts + t, z, read), t)
  {
    HeadersExtend(bts, t, 0x80, 0xde, 0xdf);
    var n := ReadMapHeader(bts);
    if n.Ok? {
      FieldsExtend(read, n.rest, n.value, z, t);
    }
  }

  lemma ItemExtends<Z(!new)>(read: FieldReader<Z>, bts: Bytes, zero: Z, t: Bytes)
    requires ReaderExtends(read)
    ensures Extends(ReadItem(bts, zero, read), ReadItem(bts + t, zero, read), t)
  {
    RecordExtends(read, bts, zero, t);
    if bts != [] {
      Behind(bts, t, 1);
    } else {
      assert ReadMapHeader(bts).Fail?;
    }
  }

  lemma {:induction false} ItemsExtend<Z(!new)>(read: FieldReader<Z>, bts: Bytes, n: nat, zero: Z, t: Bytes)
    requires ReaderExtends(read)
    ensures Extends(ReadItems(bts, n, zero, read), ReadItems(bts + t, n, zero, read), t)
    decreases n
  {
    if n > 0 {
      ItemExtends(read, bts, zero, t);
      var item := ReadItem(bts, zero, read);
      if item.Ok? {
        ItemsExtend(read, item.rest, n - 1, zero, t);
      }
    }
  }

  lemma ListExtends<Z(!new)>(read: FieldReader<Z>, bts: Bytes, zero: Z, t: Bytes)
    requires ReaderExtends(read)
    ensures Extends(ReadList(bts, zero, read), ReadList(bts + t, zero, read), t)
  {
    HeadersExtend(bts, t, 0x90, 0xdc, 0xdd);
    var n := ReadArrayHeader(bts);
    if n.Ok? {
      ItemsExtend(read, n.rest, n.value, zero, t);
    }
  }

  // ----- The readers of the stored state -----

  // Every kind of value a record of the stored state may hold.
  ghost predicate ValuesExtend(bts: Bytes, t: Bytes) {
    && Extends(ReadAddress(bts), ReadAddress(bts + t), t) && Extends(ReadWord(bts), ReadWord(bts + t), t)
    && Extends(ReadInt64(bts), ReadInt64(bts + t), t) && Extends(ReadString(bts), ReadString(bts + t), t)
    && Extends(ReadBool(bts), ReadBool(bts + t), t)
  }

  lemma ValuesDoExtend(bts: Bytes, t: Bytes)
    ensures ValuesExtend(bts, t)
  {
    ArraysExtend(bts, t);
    Int64Extends(bts, t);
    StringExtends(bts, t);
    BoolExtends(bts, t);
  }

  lemma ValidatorFieldExtends(key: Bytes, bts: Bytes, z: Validator, t: Bytes)
    requires ValuesExtend(bts, t) && Extends(Skipped(bts, z), Skipped(bts + t, z), t)
    ensures FieldExtends(ReadValidatorField, key, bts, z, t)
  {
  }

  lemma ValidatorReaderExtends()
    ensures ReaderExtends(ReadValidatorField)
  {
    forall key: Bytes, bts: Bytes, z: Validator, t: Bytes ensures FieldExtends(ReadValidatorField, key, bts, z, t) {
      ValuesDoExtend(bts, t);
      SkippedExtends(bts, t, z);
      ValidatorFieldExtends(key, bts, z, t);
    }
  }

  lemma RewardReaderExtends()
    ensures ReaderExtends(ReadRewardField)
  {
    forall key: Bytes, bts: Bytes, z: PendingReward, t: Bytes ensures FieldExtends(ReadRewardField, key, bts, z, t) {
      ArraysExtend(bts, t);
      Int64Extends(bts, t);
      SkippedExtends(bts, t, z);
    }
  }

  lemma InfoReaderExtends()
    ensures ReaderExtends(ReadInfoField)
  {
    ValidatorReaderExtends();
    RewardReaderExtends();
    forall key: Bytes, bts: Bytes, z: StoredInfo, t: Bytes ensures FieldExtends(ReadInfoField, key, bts, z, t) {
      Int64Extends(bts, t);
      ListExtends(ReadValidatorField, bts, ZERO_VALIDATOR, t);
      ListExtends(ReadRewardField, bts, ZERO_REWARD, t);
      SkippedExtends(bts, t, z);
    }
  }

  /** Whatever is read, from any bytes into any receiver, is read the same with more bytes behind. */
  lemma ReadingIsLocal(bts: Bytes, z: StoredInfo, t: Bytes)
    ensures Extends(ReadInfo(bts, z), ReadInfo(bts + t, z), t)
  {
    InfoReaderExtends();
    RecordExtends(ReadInfoField, bts, z, t);
  }

  /** Cut off anywhere, the bytes of a state are refused. */
  lemma TruncatedIsRefused(info: StoredInfo, z: StoredInfo, k: nat)
    requires Fits(info) && k < |InfoBytes(info)|
    ensures ReadInfo(InfoBytes(info)[..k], z).Fail?
  {
    var all := InfoBytes(info);
    assert all[..k] + all[k..] == all == all + [];
    ReadingIsLocal(all[..k], z, all[k..]);
    InfoRoundTrip(info, z, []);
  }
}
