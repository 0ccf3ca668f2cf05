/** The MessagePack primitives the codec of StakingInfo uses: int, str, bin, array, map, bool and
    nil formats of the MessagePack specification. */
module MessagePack {
  import opened Words
  import opened StakingTypes

  type Bytes = seq<Byte>

  datatype Parsed<+T> = Ok(value: T, rest: Bytes) | Fail

  // ----- Big-endian numbers -----

  function Pow256(k: nat): nat {
    if k == 0 then 1 else 256 * Pow256(k - 1)
  }

  function BigEndian(x: nat, k: nat): (r: Bytes)
    ensures |r| == k
  {
    if k == 0 then [] else BigEndian(x / 256, k - 1) + [x % 256]
  }

  function FromBigEndian(bs: Bytes): nat {
    if bs == [] then 0
    else
      var last: nat := bs[|bs| - 1];
      256 * FromBigEndian(bs[..|bs| - 1]) + last
  }

  lemma {:induction false} BigEndianRoundTrip(x: nat, k: nat)
    requires x < Pow256(k)
    ensures FromBigEndian(BigEndian(x, k)) == x
  {
    if k > 0 {
      BigEndianRoundTrip(x / 256, k - 1);
      var b := BigEndian(x, k);
      assert b[..|b| - 1] == BigEndian(x / 256, k - 1);
    }
  }

  lemma {:induction false} Pow256Sum(a: nat, b: nat)
    ensures Pow256(a + b) == Pow256(a) * Pow256(b)
  {
    if a > 0 {
      Pow256Sum(a - 1, b);
      assert Pow256(a + b) == 256 * Pow256(a - 1 + b);
    }
  }

  lemma Pow256Values()
    ensures Pow256(1) == 0x100 && Pow256(2) == 0x1_0000 && Pow256(4) == 0x1_0000_0000 && Pow256(8) == TWO64
    ensures Pow256(20) == ADDRESS_SPACE && Pow256(32) == WORD
  {
    assert Pow256(1) == 256 * Pow256(0);
    Pow256Sum(1, 1);
    Pow256Sum(2, 2);
    Pow256Sum(4, 4);
    Pow256Sum(8, 8);
    Pow256Sum(16, 16);
    Pow256Sum(16, 4);
  }

  // A number of k bytes at the front.
  function ReadNumber(bts: Bytes, k: nat): Parsed<nat> {
    if |bts| < k then Fail else Ok(FromBigEndian(bts[..k]), bts[k..])
  }

  lemma ReadNumberRoundTrip(x: nat, k: nat, rest: Bytes)
    requires x < Pow256(k)
    ensures ReadNumber(BigEndian(x, k) + rest, k) == Ok(x, rest)
  {
    BigEndianRoundTrip(x, k);
    var b := BigEndian(x, k);
    assert (b + rest)[..k] == b && (b + rest)[k..] == rest;
  }

  // The first byte and what follows it.
  lemma Lead(b: Byte, body: Bytes, rest: Bytes)
    ensures ([b] + body + rest)[0] == b
    ensures ([b] + body + rest)[1..] == body + rest
  {
  }

  // ----- int -----

  function AppendInt64(i: Int64): (r: Bytes)
    ensures r != [] && r[0] != 0xc0
  {
    if i >= 0 then
      if i <= 0x7f then [i]
      else if i <= 0x7fff then [0xd1] + BigEndian(i, 2)
      else if i <= 0x7fff_ffff then [0xd2] + BigEndian(i, 4)
      else [0xd3] + BigEndian(i, 8)
    else
      if i >= -32 then [0x100 + i]
      else if i >= -0x80 then [0xd0] + BigEndian(0x100 + i, 1)
      else if i >= -0x8000 then [0xd1] + BigEndian(0x1_0000 + i, 2)
      else if i >= -0x8000_0000 then [0xd2] + BigEndian(0x1_0000_0000 + i, 4)
      else [0xd3] + BigEndian(TWO64 + i, 8)
  }

  function Signed(x: nat, modulus: nat): int {
    if 2 * x < modulus then x else x - modulus
  }

  function ReadSigned(bts: Bytes, k: nat, modulus: nat): Parsed<int> {
    match ReadNumber(bts, k)
    case Ok(x, rest) => Ok(Signed(x, modulus), rest)
    case Fail => Fail
  }

  // An unsigned number, refused when it is no int64.
  function ReadUnsigned(bts: Bytes, k: nat): Parsed<int> {
    match ReadNumber(bts, k)
    case Ok(x, rest) => if x > MAX_INT64 then Fail else Ok(x, rest)
    case Fail => Fail
  }

  function ReadInt64(bts: Bytes): Parsed<int> {
    if bts == [] then Fail
    else
      var lead: nat, rest := bts[0], bts[1..];
      if lead < 0x80 then Ok(lead, rest)
      else if lead >= 0xe0 then Ok(lead - 0x100, rest)
      else if lead == 0xd0 then ReadSigned(rest, 1, 0x100)
      else if lead == 0xd1 then ReadSigned(rest, 2, 0x1_0000)
      else if lead == 0xd2 then ReadSigned(rest, 4, 0x1_0000_0000)
      else if lead == 0xd3 then ReadSigned(rest, 8, TWO64)
      else if lead == 0xcc then ReadUnsigned(rest, 1)
      else if lead == 0xcd then ReadUnsigned(rest, 2)
      else if lead == 0xce then ReadUnsigned(rest, 4)
      else if lead == 0xcf then ReadUnsigned(rest, 8)
      else Fail
  }

  lemma SignedRoundTrip(i: int, k: nat, modulus: nat, lead: Byte, rest: Bytes)
    requires Pow256(k) == modulus && 0 - modulus <= 2 * i < modulus
    ensures var x := if i >= 0 then i else modulus + i;
            ReadSigned(([lead] + BigEndian(x, k) + rest)[1..], k, modulus) == Ok(i, rest)
  {
    var x := if i >= 0 then i else modulus + i;
    Lead(lead, BigEndian(x, k), rest);
    ReadNumberRoundTrip(x, k, rest);
  }

  // The four signed formats by their first byte.
  lemma SignedByLead(bts: Bytes)
    requires bts != []
    ensures bts[0] == 0xd0 ==> ReadInt64(bts) == ReadSigned(bts[1..], 1, 0x100)
    ensures bts[0] == 0xd1 ==> ReadInt64(bts) == ReadSigned(bts[1..], 2, 0x1_0000)
    ensures bts[0] == 0xd2 ==> ReadInt64(bts) == ReadSigned(bts[1..], 4, 0x1_0000_0000)
    ensures bts[0] == 0xd3 ==> ReadInt64(bts) == ReadSigned(bts[1..], 8, TWO64)
  {
  }

  // Some bytes behind the first.
  lemma WideRoundTrip(i: Int64, lead: Byte, k: nat, modulus: nat, rest: Bytes)
    requires (lead == 0xd0 && k == 1 && modulus == 0x100) || (lead == 0xd1 && k == 2 && modulus == 0x1_0000)
          || (lead == 0xd2 && k == 4 && modulus == 0x1_0000_0000) || (lead == 0xd3 && k == 8 && modulus == TWO64)
    requires Pow256(k) == modulus && 0 - modulus <= 2 * i < modulus
    requires AppendInt64(i) == [lead] + BigEndian(if i >= 0 then i else modulus + i, k)
    ensures ReadInt64(AppendInt64(i) + rest) == Ok(i, rest)
  {
    SignedRoundTrip(i, k, modulus, lead, rest);
    SignedByLead(AppendInt64(i) + rest);
  }

  lemma Int64RoundTrip(i: Int64, rest: Bytes)
    ensures ReadInt64(AppendInt64(i) + rest) == Ok(i, rest)
  {
    Pow256Values();
    if -32 <= i <= 0x7f {
      assert (AppendInt64(i) + rest)[1..] == rest;
    } else if -0x80 <= i < -32 {
      WideRoundTrip(i, 0xd0, 1, 0x100, rest);
    } else if -0x8000 <= i <= 0x7fff {
      WideRoundTrip(i, 0xd1, 2, 0x1_0000, rest);
    } else if -0x8000_0000 <= i <= 0x7fff_ffff {
      WideRoundTrip(i, 0xd2, 4, 0x1_0000_0000, rest);
    } else {
      WideRoundTrip(i, 0xd3, 8, TWO64, rest);
    }
  }

  // ----- A length and that many bytes -----

  function ReadBody(bts: Bytes, n: nat): Parsed<Bytes> {
    if |bts| < n then Fail else Ok(bts[..n], bts[n..])
  }

  function ReadSized(bts: Bytes, k: nat): Parsed<Bytes> {
    match ReadNumber(bts, k)
    case Ok(n, rest) => ReadBody(rest, n)
    case Fail => Fail
  }

  lemma ReadBodyRoundTrip(data: Bytes, rest: Bytes)
    ensures ReadBody(data + rest, |data|) == Ok(data, rest)
  {
    assert (data + rest)[..|data|] == data && (data + rest)[|data|..] == rest;
  }

  lemma SizedRoundTrip(lead: Byte, data: Bytes, k: nat, rest: Bytes)
    requires |data| < Pow256(k)
    ensures var b := [lead] + BigEndian(|data|, k) + data + rest;
            b[0] == lead && ReadSized(b[1..], k) == Ok(data, rest)
  {
    var n := BigEndian(|data|, k);
    assert [lead] + n + data + rest == [lead] + n + (data + rest);
    Lead(lead, n, data + rest);
    ReadNumberRoundTrip(|data|, k, data + rest);
    ReadBodyRoundTrip(data, rest);
  }

  // ----- bin -----

  function AppendBytes(data: Bytes): Bytes
    requires |data| < 0x1_0000_0000
  {
    if |data| < 0x100 then [0xc4] + BigEndian(|data|, 1) + data
    else if |data| < 0x1_0000 then [0xc5] + BigEndian(|data|, 2) + data
    else [0xc6] + BigEndian(|data|, 4) + data
  }

  function ReadBin(bts: Bytes): Parsed<Bytes> {
    if bts == [] then Fail
    else if bts[0] == 0xc4 then ReadSized(bts[1..], 1)
    else if bts[0] == 0xc5 then ReadSized(bts[1..], 2)
    else if bts[0] == 0xc6 then ReadSized(bts[1..], 4)
    else Fail
  }

  // ReadExactBytes refuses any other length.
  function ReadExactBytes(bts: Bytes, n: nat): Parsed<Bytes> {
    match ReadBin(bts)
    case Ok(data, rest) => if |data| == n then Ok(data, rest) else Fail
    case Fail => Fail
  }

  lemma BinRoundTrip(data: Bytes, rest: Bytes)
    requires |data| < 0x1_0000_0000
    ensures ReadBin(AppendBytes(data) + rest) == Ok(data, rest)
  {
    Pow256Values();
    if |data| < 0x100 {
      SizedRoundTrip(0xc4, data, 1, rest);
    } else if |data| < 0x1_0000 {
      SizedRoundTrip(0xc5, data, 2, rest);
    } else {
      SizedRoundTrip(0xc6, data, 4, rest);
    }
  }

  // ----- str -----

  function AppendString(data: Bytes): Bytes
    requires |data| < 0x1_0000_0000
  {
    if |data| < 32 then [0xa0 + |data|] + data
    else if |data| < 0x100 then [0xd9] + BigEndian(|data|, 1) + data
    else if |data| < 0x1_0000 then [0xda] + BigEndian(|data|, 2) + data
    else [0xdb] + BigEndian(|data|, 4) + data
  }

  function ReadString(bts: Bytes): Parsed<Bytes> {
    if bts == [] then Fail
    else
      var lead: nat, rest := bts[0], bts[1..];
      if 0xa0 <= lead < 0xc0 then ReadBody(rest, lead - 0xa0)
      else if lead == 0xd9 then ReadSized(rest, 1)
      else if lead == 0xda then ReadSized(rest, 2)
      else if lead == 0xdb then ReadSized(rest, 4)
      else Fail
  }

  // A map key may be a string or a bin.
  function ReadKey(bts: Bytes): Parsed<Bytes> {
    var s := ReadString(bts);
    if s.Ok? then s else ReadBin(bts)
  }

  lemma StringRoundTrip(data: Bytes, rest: Bytes)
    requires |data| < 0x1_0000_0000
    ensures ReadString(AppendString(data) + rest) == Ok(data, rest)
  {
    Pow256Values();
    if |data| < 32 {
      Lead(0xa0 + |data|, data, rest);
      ReadBodyRoundTrip(data, rest);
    } else if |data| < 0x100 {
      SizedRoundTrip(0xd9, data, 1, rest);
    } else if |data| < 0x1_0000 {
      SizedRoundTrip(0xda, data, 2, rest);
    } else {
      SizedRoundTrip(0xdb, data, 4, rest);
    }
  }

  // ----- array and map headers, bool, nil -----

  function AppendArrayHeader(n: nat): Bytes
    requires n < 0x1_0000_0000
  {
    if n < 16 then [0x90 + n]
    else if n < 0x1_0000 then [0xdc] + BigEndian(n, 2)
    else [0xdd] + BigEndian(n, 4)
  }

  function ReadHeader(bts: Bytes, fix: Byte, wide2: Byte, wide4: Byte): Parsed<nat> {
    if bts == [] then Fail
    else
      var lead: nat, low: nat := bts[0], fix;
      if low <= lead < low + 16 then Ok(lead - low, bts[1..])
      else if lead == wide2 then ReadNumber(bts[1..], 2)
      else if lead == wide4 then ReadNumber(bts[1..], 4)
      else Fail
  }

  function ReadArrayHeader(bts: Bytes): Parsed<nat> {
    ReadHeader(bts, 0x90, 0xdc, 0xdd)
  }

  function ReadMapHeader(bts: Bytes): Parsed<nat> {
    ReadHeader(bts, 0x80, 0xde, 0xdf)
  }

  lemma ArrayHeaderRoundTrip(n: nat, rest: Bytes)
    requires n < 0x1_0000_0000
    ensures ReadArrayHeader(AppendArrayHeader(n) + rest) == Ok(n, rest)
  {
    Pow256Values();
    if n < 16 {
      assert ([0x90 + n] + rest)[1..] == rest;
    } else if n < 0x1_0000 {
      Lead(0xdc, BigEndian(n, 2), rest);
      ReadNumberRoundTrip(n, 2, rest);
    } else {
      Lead(0xdd, BigEndian(n, 4), rest);
      ReadNumberRoundTrip(n, 4, rest);
    }
  }

  function AppendBool(b: bool): Bytes {
    [if b then 0xc3 else 0xc2]
  }

  function ReadBool(bts: Bytes): Parsed<bool> {
    if bts == [] || !(bts[0] == 0xc2 || bts[0] == 0xc3) then Fail else Ok(bts[0] == 0xc3, bts[1..])
  }

  const NIL: Byte := 0xc0

  predicate IsNil(bts: Bytes) {
    bts != [] && bts[0] == NIL
  }

  // ----- Skipping values of unknown keys -----

  // How many bytes a value takes before its elements, and how many elements follow.
  function ObjectShape(bts: Bytes): (r: Option<(nat, nat)>)
    requires bts != []
    ensures r.Some? ==> r.value.0 >= 1
  {
    var lead: nat, rest := bts[0], bts[1..];
    if lead < 0x80 || lead >= 0xe0 || lead == 0xc0 || lead == 0xc2 || lead == 0xc3 then Some((1, 0))
    else if lead < 0x90 then Some((1, 2 * (lead - 0x80)))
    else if lead < 0xa0 then Some((1, lead - 0x90))
    else if lead < 0xc0 then Some((1 + lead - 0xa0, 0))
    else if lead == 0xc4 || lead == 0xd9 then Sized(rest, 1, 2)
    else if lead == 0xc5 || lead == 0xda then Sized(rest, 2, 3)
    else if lead == 0xc6 || lead == 0xdb then Sized(rest, 4, 5)
    else if lead == 0xc7 then Sized(rest, 1, 3)
    else if lead == 0xc8 then Sized(rest, 2, 4)
    else if lead == 0xc9 then Sized(rest, 4, 6)
    else if lead == 0xcc || lead == 0xd0 then Some((2, 0))
    else if lead == 0xcd || lead == 0xd1 then Some((3, 0))
    else if lead == 0xca || lead == 0xce || lead == 0xd2 then Some((5, 0))
    else if lead == 0xcb || lead == 0xcf || lead == 0xd3 then Some((9, 0))
    else if lead == 0xd4 then Some((3, 0))
    else if lead == 0xd5 then Some((4, 0))
    else if lead == 0xd6 then Some((6, 0))
    else if lead == 0xd7 then Some((10, 0))
    else if lead == 0xd8 then Some((18, 0))
    else if lead == 0xdc then Elements(rest, 2, 1)
    else if lead == 0xdd then Elements(rest, 4, 1)
    else if lead == 0xde then Elements(rest, 2, 2)
    else if lead == 0xdf then Elements(rest, 4, 2)
    else None
  }

  function Sized(rest: Bytes, k: nat, header: nat): (r: Option<(nat, nat)>)
    requires header >= 1
    ensures r.Some? ==> r.value.0 >= 1
  {
    match ReadNumber(rest, k)
    case Ok(n, _) => Some((header + n, 0))
    case Fail => None
  }

  function Elements(rest: Bytes, k: nat, each: nat): (r: Option<(nat, nat)>)
    ensures r.Some? ==> r.value.0 >= 1
  {
    match ReadNumber(rest, k)
    case Ok(n, _) => Some((1 + k, each * n))
    case Fail => None
  }

  function SkipObjects(bts: Bytes, n: nat): Option<Bytes>
    decreases |bts|
  {
    if n == 0 then Some(bts)
    else if bts == [] then None
    else
      var shape := ObjectShape(bts);
      if shape.None? || |bts| < shape.value.0 then None
      else SkipObjects(bts[shape.value.0..], n - 1 + shape.value.1)
  }

  // SkipObjects, or any function in its place.
  type Skipper = (Bytes, nat) -> Option<Bytes>

  function Skip(bts: Bytes): Option<Bytes> {
    SkipObjects(bts, 1)
  }
}
