/** Searching blocks for logs: plain filtering and the bloom filter in front of it
    (rpc/api/filters/geth_filter.go). */
module LogFilter {
  import opened Words
  import opened StakingTypes

  type Hash = Word

  datatype Log = Log(address: Address, topics: seq<Hash>, blockNumber: nat, txHash: Hash)

  datatype Criteria = Criteria(
    fromBlock: Option<int>,
    toBlock: Option<int>,
    addresses: seq<Address>,
    topics: seq<seq<Hash>>)  // one list of alternatives per position, an empty list matches anything

  // ----- Plain filtering -----

  predicate TopicsMatch(topics: seq<seq<Hash>>, log: Log)
    requires |topics| <= |log.topics|
  {
    forall i :: 0 <= i < |topics| ==> topics[i] == [] || log.topics[i] in topics[i]
  }

  predicate Matches(c: Criteria, log: Log) {
    && !(c.fromBlock.Some? && c.fromBlock.value >= 0 && c.fromBlock.value > log.blockNumber)
    && !(c.toBlock.Some? && c.toBlock.value >= 0 && c.toBlock.value < log.blockNumber)
    && (c.addresses == [] || log.address in c.addresses)
    && |c.topics| <= |log.topics|
    && TopicsMatch(c.topics, log)
  }

  // The matching logs, in order.
  function FilterLogs(c: Criteria, logs: seq<Log>): seq<Log> {
    if logs == [] then []
    else
      var r := FilterLogs(c, logs[..|logs| - 1]);
      if Matches(c, logs[|logs| - 1]) then r + [logs[|logs| - 1]] else r
  }

  lemma {:induction false} FilterLogsConcat(c: Criteria, a: seq<Log>, b: seq<Log>)
    ensures FilterLogs(c, a + b) == FilterLogs(c, a) + FilterLogs(c, b)
  {
    if b == [] {
      assert a + b == a;
    } else {
      assert (a + b)[..|a + b| - 1] == a + b[..|b| - 1];
      FilterLogsConcat(c, a, b[..|b| - 1]);
    }
  }

  lemma {:induction false} FilterLogsAre(c: Criteria, logs: seq<Log>)
    ensures forall log :: log in FilterLogs(c, logs) <==> log in logs && Matches(c, log)
  {
    if logs != [] {
      FilterLogsAre(c, logs[..|logs| - 1]);
      assert logs == logs[..|logs| - 1] + [logs[|logs| - 1]];
    }
  }

  method Includes(addresses: seq<Address>, a: Address) returns (r: bool)
    ensures r <==> a in addresses
  {
    for i := 0 to |addresses|
      invariant a !in addresses[..i]
    {
      if addresses[i] == a {
        return true;
      }
    }
    assert addresses[..|addresses|] == addresses;
    return false;
  }

  method TopicMatches(sub: seq<Hash>, topic: Hash) returns (m: bool)
    ensures m <==> sub == [] || topic in sub
  {
    m := |sub| == 0;
    for i := 0 to |sub|
      invariant m <==> |sub| == 0
      invariant topic !in sub[..i]
    {
      if topic == sub[i] {
        return true;
      }
    }
    assert sub[..|sub|] == sub;
  }

  method LogMatches(c: Criteria, log: Log) returns (m: bool)
    ensures m <==> Matches(c, log)
  {
    if c.fromBlock.Some? && c.fromBlock.value >= 0 && c.fromBlock.value > log.blockNumber {
      return false;
    }
    if c.toBlock.Some? && c.toBlock.value >= 0 && c.toBlock.value < log.blockNumber {
      return false;
    }
    if |c.addresses| > 0 {
      var included := Includes(c.addresses, log.address);
      if !included {
        return false;
      }
    }
    if |c.topics| > |log.topics| {
      return false;
    }
    for i := 0 to |c.topics|
      invariant forall k :: 0 <= k < i ==> c.topics[k] == [] || log.topics[k] in c.topics[k]
    {
      var match1 := TopicMatches(c.topics[i], log.topics[i]);
      if !match1 {
        return false;
      }
    }
    return true;
  }

  method FilterLogsLoop(c: Criteria, logs: seq<Log>) returns (ret: seq<Log>)
    ensures ret == FilterLogs(c, logs)
  {
    ret := [];
    for i := 0 to |logs|
      invariant ret == FilterLogs(c, logs[..i])
    {
      assert logs[..i + 1][..i] == logs[..i];
      var m := LogMatches(c, logs[i]);
      if m {
        ret := ret + [logs[i]];
      }
    }
    assert logs[..|logs|] == logs;
  }

  // ----- The bloom filter -----

  datatype Entry = AddressEntry(address: Address) | TopicEntry(topic: Hash)

  type Bloom = set<nat>                 // the bits that are set, out of 2048
  type Keccak = Entry -> seq<Byte>      // Keccak-256 of the entry's bytes

  function BitAt(h: seq<Byte>, i: nat): nat {
    if i + 1 < |h| then
      var hi: nat, lo: nat := h[i], h[i + 1];
      (hi * 256 + lo) % 2048
    else 0
  }

  // The three bits of an entry: section 4.3.1 of the Ethereum Yellow Paper, Berlin edition.
  function BloomBits(keccak: Keccak, e: Entry): Bloom {
    var h := keccak(e);
    {BitAt(h, 0), BitAt(h, 2), BitAt(h, 4)}
  }

  predicate BloomLookup(keccak: Keccak, bloom: Bloom, e: Entry) {
    BloomBits(keccak, e) <= bloom
  }

  // The bloom filter of a list of logs: all bits of their addresses and topics.
  function BloomOf(keccak: Keccak, logs: seq<Log>): Bloom {
    if logs == [] then {}
    else
      var log := logs[|logs| - 1];
      BloomOf(keccak, logs[..|logs| - 1]) + BloomBits(keccak, AddressEntry(log.address)) + TopicBits(keccak, log.topics)
  }

  function TopicBits(keccak: Keccak, topics: seq<Hash>): Bloom {
    if topics == [] then {}
    else TopicBits(keccak, topics[..|topics| - 1]) + BloomBits(keccak, TopicEntry(topics[|topics| - 1]))
  }

  ghost predicate Covers(keccak: Keccak, bloom: Bloom, log: Log) {
    && BloomLookup(keccak, bloom, AddressEntry(log.address))
    && forall i :: 0 <= i < |log.topics| ==> BloomLookup(keccak, bloom, TopicEntry(log.topics[i]))
  }

  lemma {:induction false} TopicBitsExactly(keccak: Keccak, bloom: Bloom, topics: seq<Hash>)
    ensures TopicBits(keccak, topics) <= bloom <==>
            forall i :: 0 <= i < |topics| ==> BloomLookup(keccak, bloom, TopicEntry(topics[i]))
  {
    if topics != [] {
      var init := topics[..|topics| - 1];
      TopicBitsExactly(keccak, bloom, init);
      assert (forall i :: 0 <= i < |topics| ==> BloomLookup(keccak, bloom, TopicEntry(topics[i]))) <==>
             (forall i :: 0 <= i < |init| ==> BloomLookup(keccak, bloom, TopicEntry(init[i])))
             && BloomLookup(keccak, bloom, TopicEntry(topics[|topics| - 1]));
    }
  }

  /** A bloom covers every log exactly when it includes the bloom filter of all of them. */
  lemma {:induction false} CoversExactly(keccak: Keccak, bloom: Bloom, logs: seq<Log>)
    ensures BloomOf(keccak, logs) <= bloom <==> forall i :: 0 <= i < |logs| ==> Covers(keccak, bloom, logs[i])
  {
    if logs != [] {
      var init, log := logs[..|logs| - 1], logs[|logs| - 1];
      CoversExactly(keccak, bloom, init);
      TopicBitsExactly(keccak, bloom, log.topics);
      assert (forall i :: 0 <= i < |logs| ==> Covers(keccak, bloom, logs[i])) <==>
             (forall i :: 0 <= i < |init| ==> Covers(keccak, bloom, init[i])) && Covers(keccak, bloom, log);
    }
  }

  predicate BloomAny(keccak: Keccak, bloom: Bloom, entries: seq<Entry>) {
    exists i :: 0 <= i < |entries| && BloomLookup(keccak, bloom, entries[i])
  }

  function AddressEntries(s: seq<Address>): (r: seq<Entry>)
    ensures |r| == |s| && forall i :: 0 <= i < |s| ==> r[i] == AddressEntry(s[i])
  {
    seq(|s|, i requires 0 <= i < |s| => AddressEntry(s[i]))
  }

  function TopicEntries(s: seq<Hash>): (r: seq<Entry>)
    ensures |r| == |s| && forall i :: 0 <= i < |s| ==> r[i] == TopicEntry(s[i])
  {
    seq(|s|, i requires 0 <= i < |s| => TopicEntry(s[i]))
  }

  predicate BloomFilter(keccak: Keccak, bloom: Bloom, addresses: seq<Address>, topics: seq<seq<Hash>>) {
    && (addresses == [] || BloomAny(keccak, bloom, AddressEntries(addresses)))
    && forall i :: 0 <= i < |topics| ==> topics[i] == [] || BloomAny(keccak, bloom, TopicEntries(topics[i]))
  }

  method AnyInBloom(keccak: Keccak, bloom: Bloom, entries: seq<Entry>) returns (included: bool)
    ensures included <==> BloomAny(keccak, bloom, entries)
  {
    for i := 0 to |entries|
      invariant forall k :: 0 <= k < i ==> !BloomLookup(keccak, bloom, entries[k])
    {
      if BloomLookup(keccak, bloom, entries[i]) {
        return true;
      }
    }
    return false;
  }

  method BloomFilterLoop(keccak: Keccak, bloom: Bloom, addresses: seq<Address>, topics: seq<seq<Hash>>) returns (r: bool)
    ensures r <==> BloomFilter(keccak, bloom, addresses, topics)
  {
    if |addresses| > 0 {
      var included := AnyInBloom(keccak, bloom, AddressEntries(addresses));
      if !included {
        return false;
      }
    }
    for i := 0 to |topics|
      invariant forall k :: 0 <= k < i ==> topics[k] == [] || BloomAny(keccak, bloom, TopicEntries(topics[k]))
    {
      var included := |topics[i]| == 0;
      if !included {
        included := AnyInBloom(keccak, bloom, TopicEntries(topics[i]));
      }
      if !included {
        return false;
      }
    }
    return true;
  }

  lemma MatchIsInBloom(keccak: Keccak, bloom: Bloom, c: Criteria, log: Log)
    requires Matches(c, log) && Covers(keccak, bloom, log)
    ensures BloomFilter(keccak, bloom, c.addresses, c.topics)
  {
    if c.addresses != [] {
      var i :| 0 <= i < |c.addresses| && c.addresses[i] == log.address;
      assert BloomLookup(keccak, bloom, AddressEntries(c.addresses)[i]);
    }
    forall i | 0 <= i < |c.topics|
      ensures c.topics[i] == [] || BloomAny(keccak, bloom, TopicEntries(c.topics[i]))
    {
      if c.topics[i] != [] {
        var k :| 0 <= k < |c.topics[i]| && c.topics[i][k] == log.topics[i];
        assert BloomLookup(keccak, bloom, TopicEntries(c.topics[i])[k]);
      }
    }
  }

  /** No false negatives: a bloom that covers the logs and rejects the criteria leaves nothing
      for the plain filter to find. */
  lemma RejectedHasNoMatch(keccak: Keccak, bloom: Bloom, c: Criteria, logs: seq<Log>)
    requires forall i :: 0 <= i < |logs| ==> Covers(keccak, bloom, logs[i])
    requires !BloomFilter(keccak, bloom, c.addresses, c.topics)
    ensures FilterLogs(c, logs) == []
  {
    FilterLogsAre(c, logs);
    var r := FilterLogs(c, logs);
    if r != [] {
      assert r[0] in logs;
      var i :| 0 <= i < |logs| && logs[i] == r[0];
      MatchIsInBloom(keccak, bloom, c, logs[i]);
    }
  }

  // ----- One block, and a range of blocks -----

  datatype Header = Header(number: nat, blockHash: Hash, bloom: Bloom)

  // What the node stores; a missing key of logs or receipts is an error of the query.
  datatype Backend = Backend(
    headers: map<int, Header>,
    logs: map<Hash, seq<seq<Log>>>,
    receipts: map<Hash, seq<seq<Log>>>)

  datatype Found = Found(logs: seq<Log>) | Error

  function Flatten(lists: seq<seq<Log>>): seq<Log> {
    if lists == [] then [] else Flatten(lists[..|lists| - 1]) + lists[|lists| - 1]
  }

  function Anywhere(addresses: seq<Address>, topics: seq<seq<Hash>>): Criteria {
    Criteria(None, None, addresses, topics)
  }

  function CheckMatches(b: Backend, c: Criteria, h: Header): Found {
    if h.blockHash !in b.logs then Error
    else
      var logs := FilterLogs(c, Flatten(b.logs[h.blockHash]));
      if logs == [] || logs[0].txHash != 0 then Found(logs)
      else if h.blockHash !in b.receipts then Error
      else Found(FilterLogs(c, Flatten(b.receipts[h.blockHash])))
  }

  function LogsOfBlock(keccak: Keccak, b: Backend, c: Criteria, h: Header): Found {
    if BloomFilter(keccak, h.bloom, c.addresses, c.topics) then CheckMatches(b, c, h) else Found([])
  }

  // The header's bloom includes the bloom filter of the block's logs.
  ghost predicate BloomSound(keccak: Keccak, b: Backend, h: Header) {
    h.blockHash in b.logs && BloomOf(keccak, Flatten(b.logs[h.blockHash])) <= h.bloom
  }

  /** The bloom filter in front changes nothing: searching a block with it is searching the
      block without it. */
  lemma BloomPrefilterIsTransparent(keccak: Keccak, b: Backend, c: Criteria, h: Header)
    requires BloomSound(keccak, b, h)
    ensures LogsOfBlock(keccak, b, c, h) == CheckMatches(b, c, h)
  {
    if !BloomFilter(keccak, h.bloom, c.addresses, c.topics) {
      CoversExactly(keccak, h.bloom, Flatten(b.logs[h.blockHash]));
      RejectedHasNoMatch(keccak, h.bloom, c, Flatten(b.logs[h.blockHash]));
    }
  }

  // The logs of a block with all their fields: logs stored without a transaction hash are
  // completed from the receipts.
  function FullLogs(b: Backend, h: Header): seq<Log>
    requires h.blockHash in b.logs
  {
    var logs := Flatten(b.logs[h.blockHash]);
    if logs != [] && logs[0].txHash == 0 && h.blockHash in b.receipts then Flatten(b.receipts[h.blockHash]) else logs
  }

  ghost predicate SameButTx(a: seq<Log>, b: seq<Log>) {
    |a| == |b| && forall i :: 0 <= i < |a| ==> a[i] == b[i].(txHash := a[i].txHash)
  }

  // Either all logs carry their transaction's hash, or none does and the receipts have the same logs.
  ghost predicate Derived(b: Backend, h: Header) {
    h.blockHash in b.logs &&
    var logs := Flatten(b.logs[h.blockHash]);
    || (forall log :: log in logs ==> log.txHash != 0)
    || ((forall log :: log in logs ==> log.txHash == 0)
        && h.blockHash in b.receipts && SameButTx(logs, Flatten(b.receipts[h.blockHash])))
  }

  lemma {:induction false} SameMatches(c: Criteria, a: seq<Log>, b: seq<Log>)
    requires SameButTx(a, b)
    ensures FilterLogs(c, a) == [] <==> FilterLogs(c, b) == []
  {
    if a != [] {
      var n := |a| - 1;
      assert a[n] == b[n].(txHash := a[n].txHash);
      assert SameButTx(a[..n], b[..n]);
      SameMatches(c, a[..n], b[..n]);
      assert Matches(c, a[n]) <==> Matches(c, b[n]);
    }
  }

  /** Searching one block is plain filtering of its logs. */
  lemma BlockLogsIsPlainFilter(keccak: Keccak, b: Backend, c: Criteria, h: Header)
    requires BloomSound(keccak, b, h) && Derived(b, h)
    ensures LogsOfBlock(keccak, b, c, h) == Found(FilterLogs(c, FullLogs(b, h)))
  {
    BloomPrefilterIsTransparent(keccak, b, c, h);
    var logs := Flatten(b.logs[h.blockHash]);
    FilterLogsAre(c, logs);
    var r := FilterLogs(c, logs);
    assert r != [] ==> r[0] in r;
    assert logs != [] ==> logs[0] in logs;
    if h.blockHash in b.receipts && SameButTx(logs, Flatten(b.receipts[h.blockHash])) {
      SameMatches(c, logs, Flatten(b.receipts[h.blockHash]));
    }
  }

  // The header is there, with a sound bloom and complete logs.
  ghost predicate BlockSound(keccak: Keccak, b: Backend, k: int) {
    k in b.headers && BloomSound(keccak, b, b.headers[k]) && Derived(b, b.headers[k])
  }

  ghost predicate RangeSound(keccak: Keccak, b: Backend, first: int, last: int) {
    forall k :: first <= k <= last ==> BlockSound(keccak, b, k)
  }

  function LogsAt(b: Backend, k: int): seq<Log> {
    if k in b.headers && b.headers[k].blockHash in b.logs then FullLogs(b, b.headers[k]) else []
  }

  // All logs of the blocks first..last.
  function LogsBetween(b: Backend, first: int, last: int): seq<Log>
    decreases last - first
  {
    if last < first then [] else LogsBetween(b, first, last - 1) + LogsAt(b, last)
  }

  lemma RangeStep(keccak: Keccak, b: Backend, c: Criteria, first: int, k: int)
    requires first <= k && BlockSound(keccak, b, k)
    ensures LogsOfBlock(keccak, b, c, b.headers[k]).Found?
    ensures FilterLogs(c, LogsBetween(b, first, k)) ==
            FilterLogs(c, LogsBetween(b, first, k - 1)) + LogsOfBlock(keccak, b, c, b.headers[k]).logs
  {
    BlockLogsIsPlainFilter(keccak, b, c, b.headers[k]);
    FilterLogsConcat(c, LogsBetween(b, first, k - 1), LogsAt(b, k));
  }

  // What a search from `first` has found before it reaches `next`.
  ghost predicate Searched(keccak: Keccak, b: Backend, c: Criteria, first: int, next: int, logs: seq<Log>) {
    RangeSound(keccak, b, first, next - 1) ==> logs == FilterLogs(c, LogsBetween(b, first, next - 1))
  }

  lemma SearchedStep(keccak: Keccak, b: Backend, c: Criteria, first: int, next: int, logs: seq<Log>)
    requires first <= next && next in b.headers && LogsOfBlock(keccak, b, c, b.headers[next]).Found?
    requires Searched(keccak, b, c, first, next, logs)
    ensures Searched(keccak, b, c, first, next + 1, logs + LogsOfBlock(keccak, b, c, b.headers[next]).logs)
  {
    if RangeSound(keccak, b, first, next) {
      assert BlockSound(keccak, b, next);
      RangeStep(keccak, b, c, first, next);
    }
  }

  // A sound range is searched to its end.
  lemma SoundGoesOn(keccak: Keccak, b: Backend, c: Criteria, first: int, next: int, last: int)
    requires first <= next <= last && RangeSound(keccak, b, first, last)
    ensures next in b.headers && LogsOfBlock(keccak, b, c, b.headers[next]).Found?
  {
    assert BlockSound(keccak, b, next);
    RangeStep(keccak, b, c, first, next);
  }

  class Filter {
    const keccak: Keccak
    const backend: Backend
    const criteria: Criteria
    var begin: int

    constructor (keccak: Keccak, backend: Backend, begin: int, addresses: seq<Address>, topics: seq<seq<Hash>>)
      ensures this.keccak == keccak && this.backend == backend && this.begin == begin
      ensures criteria == Anywhere(addresses, topics)
    {
      this.keccak, this.backend, this.begin := keccak, backend, begin;
      this.criteria := Criteria(None, None, addresses, topics);
    }

    method FlattenLists(lists: seq<seq<Log>>) returns (r: seq<Log>)
      ensures r == Flatten(lists)
    {
      r := [];
      for i := 0 to |lists|
        invariant r == Flatten(lists[..i])
      {
        assert lists[..i + 1][..i] == lists[..i];
        r := r + lists[i];
      }
      assert lists[..|lists|] == lists;
    }

    method BlockLogs(header: Header) returns (r: Found)
      ensures r == LogsOfBlock(keccak, backend, criteria, header)
    {
      var maybe := BloomFilterLoop(keccak, header.bloom, criteria.addresses, criteria.topics);
      if !maybe {
        return Found([]);
      }
      if header.blockHash !in backend.logs {
        return Error;
      }
      var unfiltered := FlattenLists(backend.logs[header.blockHash]);
      var logs := FilterLogsLoop(criteria, unfiltered);
      if |logs| > 0 && logs[0].txHash == 0 {
        if header.blockHash !in backend.receipts {
          return Error;
        }
        unfiltered := FlattenLists(backend.receipts[header.blockHash]);
        logs := FilterLogsLoop(criteria, unfiltered);
      }
      return Found(logs);
    }

    /** unindexedLogs: with every header there and sound blooms, the result is the plain filter
        over all logs of the range, in order. */
    method UnindexedLogs(end: int) returns (logs: seq<Log>, failed: bool)
      modifies this
      ensures old(begin) <= begin && Searched(keccak, backend, criteria, old(begin), begin, logs)
      ensures failed <==>
        begin <= end && begin in backend.headers && LogsOfBlock(keccak, backend, criteria, backend.headers[begin]).Error?
      ensures begin <= end && !failed ==> begin !in backend.headers
      ensures old(begin) <= end + 1 && RangeSound(keccak, backend, old(begin), end) ==> !failed && begin == end + 1
    {
      logs, failed := [], false;
      ghost var first, good := begin, begin <= end + 1 && RangeSound(keccak, backend, begin, end);
      while begin <= end
        invariant first <= begin && (first <= end + 1 ==> begin <= end + 1) && !failed
        invariant Searched(keccak, backend, criteria, first, begin, logs)
        decreases end - begin
      {
        if good {
          SoundGoesOn(keccak, backend, criteria, first, begin, end);
        }
        if begin !in backend.headers {
          return;
        }
        var found := BlockLogs(backend.headers[begin]);
        if found.Error? {
          failed := true;
          return;
        }
        SearchedStep(keccak, backend, criteria, first, begin, logs);
        logs := logs + found.logs;
        begin := begin + 1;
      }
    }
  }
}
