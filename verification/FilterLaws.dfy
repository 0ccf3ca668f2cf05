/** What the log filter returns, by laws between searches instead of by a condition on one log
    (rpc/api/filters/geth_filter.go:270-338). */
module FilterLaws {
  import opened Words
  import opened StakingTypes
  import opened LogFilter

  // A log that is searched alone is found.
  predicate Passes(c: Criteria, log: Log) {
    FilterLogs(c, [log]) == [log]
  }

  lemma PassesIs(c: Criteria, log: Log)
    ensures Passes(c, log) <==> Matches(c, log)
    ensures !Passes(c, log) ==> FilterLogs(c, [log]) == []
  {
    assert [log][..0] == [] && FilterLogs(c, []) == [];
    assert FilterLogs(c, [log]) == if Matches(c, log) then [] + [log] else [];
  }

  /** A search returns, in order and as often as they occur, the logs that are found alone. */
  lemma OneByOne(c: Criteria, logs: seq<Log>, log: Log)
    ensures FilterLogs(c, []) == []
    ensures FilterLogs(c, logs + [log]) == FilterLogs(c, logs) + if Passes(c, log) then [log] else []
  {
    PassesIs(c, log);
    FilterLogsConcat(c, logs, [log]);
  }

  // ----- Ranges -----

  // The bound is absent or negative, or not above the block.
  predicate NotAbove(bound: Option<int>, block: nat) {
    bound.None? || bound.value < 0 || bound.value <= block
  }

  predicate NotBelow(bound: Option<int>, block: nat) {
    bound.None? || bound.value < 0 || block <= bound.value
  }

  /** With no addresses and no topics the search returns exactly the blocks of the range, both bounds
      included; a bound that is absent or negative does not restrict it. */
  lemma RangeExactly(first: Option<int>, last: Option<int>, log: Log)
    ensures Passes(Criteria(first, last, [], []), log) <==> NotAbove(first, log.blockNumber) && NotBelow(last, log.blockNumber)
  {
    PassesIs(Criteria(first, last, [], []), log);
  }

  /** The range restricts a search independently of its addresses and topics. */
  lemma RangeIsIndependent(c: Criteria, log: Log)
    ensures Passes(c, log) <==>
      Passes(Criteria(c.fromBlock, c.toBlock, [], []), log) && Passes(c.(fromBlock := None, toBlock := None), log)
  {
    PassesIs(c, log);
    PassesIs(Criteria(c.fromBlock, c.toBlock, [], []), log);
    PassesIs(c.(fromBlock := None, toBlock := None), log);
  }

  function Within(c: Criteria, first: nat, last: nat): Criteria {
    c.(fromBlock := Some(first), toBlock := Some(last))
  }

  /** A log is found between a and c exactly if it is found in exactly one of the two parts. */
  lemma RangeSplits(c: Criteria, log: Log, a: nat, b: nat, d: nat)
    requires a <= b < d
    ensures Passes(Within(c, a, d), log) <==> (Passes(Within(c, a, b), log) <==> !Passes(Within(c, b + 1, d), log))
    ensures !(Passes(Within(c, a, b), log) && Passes(Within(c, b + 1, d), log))
  {
    WithinIs(c, log, a, d);
    WithinIs(c, log, a, b);
    WithinIs(c, log, b + 1, d);
  }

  lemma WithinIs(c: Criteria, log: Log, first: nat, last: nat)
    ensures Passes(Within(c, first, last), log) <==>
      first <= log.blockNumber <= last && Passes(c.(fromBlock := None, toBlock := None), log)
  {
    RangeIsIndependent(Within(c, first, last), log);
    RangeExactly(Some(first), Some(last), log);
  }

  ghost predicate InBlockOrder(logs: seq<Log>) {
    forall i, j :: 0 <= i < j < |logs| ==> logs[i].blockNumber <= logs[j].blockNumber
  }

  lemma {:induction false} NothingAbove(c: Criteria, logs: seq<Log>, first: nat, last: nat)
    requires forall i :: 0 <= i < |logs| ==> logs[i].blockNumber < first
    ensures FilterLogs(Within(c, first, last), logs) == []
  {
    if logs != [] {
      NothingAbove(c, logs[..|logs| - 1], first, last);
      PassesIs(Within(c, first, last), logs[|logs| - 1]);
    }
  }

  /** Searching a range of the chain's logs is searching its first part and then the rest. */
  lemma {:induction false} SearchInTwoParts(c: Criteria, logs: seq<Log>, a: nat, b: nat, d: nat)
    requires a <= b < d && InBlockOrder(logs)
    ensures FilterLogs(Within(c, a, d), logs) == FilterLogs(Within(c, a, b), logs) + FilterLogs(Within(c, b + 1, d), logs)
  {
    if logs != [] {
      var init, log := logs[..|logs| - 1], logs[|logs| - 1];
      assert logs == init + [log];
      SearchInTwoParts(c, init, a, b, d);
      OneByOne(Within(c, a, d), init, log);
      OneByOne(Within(c, a, b), init, log);
      OneByOne(Within(c, b + 1, d), init, log);
      RangeSplits(c, log, a, b, d);
      if Passes(Within(c, a, b), log) {
        LastOfFirstPart(c, init, log, a, b, d);
      }
      OneMore(FilterLogs(Within(c, a, b), init), FilterLogs(Within(c, b + 1, d), init), log,
              Passes(Within(c, a, b), log), Passes(Within(c, b + 1, d), log));
    }
  }

  lemma OneMore(low: seq<Log>, high: seq<Log>, log: Log, inLow: bool, inHigh: bool)
    requires !(inLow && inHigh) && (inLow ==> high == [])
    ensures low + high + (if inLow != inHigh then [log] else []) ==
            low + (if inLow then [log] else []) + (high + if inHigh then [log] else [])
  {
  }

  lemma LastOfFirstPart(c: Criteria, logs: seq<Log>, log: Log, a: nat, b: nat, d: nat)
    requires InBlockOrder(logs + [log]) && Passes(Within(c, a, b), log)
    ensures FilterLogs(Within(c, b + 1, d), logs) == []
  {
    WithinIs(c, log, a, b);
    forall i | 0 <= i < |logs| ensures logs[i].blockNumber < b + 1 {
      assert (logs + [log])[i].blockNumber <= (logs + [log])[|logs|].blockNumber;
    }
    NothingAbove(c, logs, b + 1, d);
  }

  // ----- Addresses -----

  /** One address: the logs of that address among those found without a condition on it. */
  lemma OneAddress(c: Criteria, a: Address, log: Log)
    ensures Passes(c.(addresses := [a]), log) <==> log.address == a && Passes(c.(addresses := []), log)
  {
    PassesIs(c.(addresses := [a]), log);
    PassesIs(c.(addresses := []), log);
  }

  /** Several addresses find what each of them finds. */
  lemma AddressesUnite(c: Criteria, log: Log)
    requires c.addresses != []
    ensures Passes(c, log) <==> exists i :: 0 <= i < |c.addresses| && Passes(c.(addresses := [c.addresses[i]]), log)
  {
    PassesIs(c, log);
    forall i | 0 <= i < |c.addresses|
      ensures Passes(c.(addresses := [c.addresses[i]]), log) <==> Matches(c.(addresses := [c.addresses[i]]), log)
    {
      PassesIs(c.(addresses := [c.addresses[i]]), log);
    }
    if Matches(c, log) {
      var i :| 0 <= i < |c.addresses| && c.addresses[i] == log.address;
      assert Passes(c.(addresses := [c.addresses[i]]), log);
    }
  }

  // ----- Topics -----

  function With(c: Criteria, p: nat, alternatives: seq<Hash>): Criteria
    requires p < |c.topics|
  {
    c.(topics := c.topics[p := alternatives])
  }

  /** One topic at a position: the logs with that topic there among those found with anything there. */
  lemma OneTopic(c: Criteria, p: nat, t: Hash, log: Log)
    requires p < |c.topics|
    ensures Passes(With(c, p, [t]), log) <==> p < |log.topics| && log.topics[p] == t && Passes(With(c, p, []), log)
  {
    var one, any := With(c, p, [t]), With(c, p, []);
    PassesIs(one, log);
    PassesIs(any, log);
    if |c.topics| <= |log.topics| {
      assert one.topics[p] == [t] && any.topics[p] == [];
      assert forall i :: 0 <= i < |c.topics| && i != p ==> one.topics[i] == any.topics[i];
      assert TopicsMatch(one.topics, log) <==> log.topics[p] == t && TopicsMatch(any.topics, log);
    }
  }

  lemma OneOfTopics(c: Criteria, p: nat, log: Log)
    requires p < |c.topics| && c.topics[p] != []
    ensures Passes(c, log) <==> p < |log.topics| && log.topics[p] in c.topics[p] && Passes(With(c, p, []), log)
  {
    var any := With(c, p, []);
    PassesIs(c, log);
    PassesIs(any, log);
    if |c.topics| <= |log.topics| {
      assert any.topics[p] == [];
      assert forall i :: 0 <= i < |c.topics| && i != p ==> c.topics[i] == any.topics[i];
      assert TopicsMatch(c.topics, log) <==> log.topics[p] in c.topics[p] && TopicsMatch(any.topics, log);
    }
  }

  /** Alternatives at a position find what each of them finds. */
  lemma AlternativesUnite(c: Criteria, p: nat, log: Log)
    requires p < |c.topics| && c.topics[p] != []
    ensures Passes(c, log) <==> exists i :: 0 <= i < |c.topics[p]| && Passes(With(c, p, [c.topics[p][i]]), log)
  {
    OneOfTopics(c, p, log);
    forall i | 0 <= i < |c.topics[p]|
      ensures Passes(With(c, p, [c.topics[p][i]]), log) <==>
              p < |log.topics| && log.topics[p] == c.topics[p][i] && Passes(With(c, p, []), log)
    {
      OneTopic(c, p, c.topics[p][i], log);
    }
    if Passes(c, log) {
      var i :| 0 <= i < |c.topics[p]| && c.topics[p][i] == log.topics[p];
      assert Passes(With(c, p, [c.topics[p][i]]), log);
    }
  }

  /** An empty position at the end only asks for one topic more. */
  lemma EmptyPosition(c: Criteria, log: Log)
    ensures Passes(c.(topics := c.topics + [[]]), log) <==> |log.topics| > |c.topics| && Passes(c, log)
  {
    var more := c.(topics := c.topics + [[]]);
    PassesIs(c, log);
    PassesIs(more, log);
    if |more.topics| <= |log.topics| {
      assert forall i :: 0 <= i < |c.topics| ==> more.topics[i] == c.topics[i];
      assert TopicsMatch(more.topics, log) <==> TopicsMatch(c.topics, log);
    }
  }

  // ----- The logs of a block and of a range -----

  /** The lists of a block come one after the other. */
  lemma {:induction false} ListsInOrder(list: seq<Log>, lists: seq<seq<Log>>)
    ensures Flatten([]) == [] && Flatten([list] + lists) == list + Flatten(lists)
  {
    if lists == [] {
      assert [list][..0] == [];
      assert [list] + lists == [list];
      assert Flatten([list]) == Flatten([]) + list;
    } else {
      var n := |lists| - 1;
      ListsInOrder(list, lists[..n]);
      assert ([list] + lists)[..n + 1] == [list] + lists[..n];
    }
  }

  /** The logs of a range are those of its first part and then those of the rest. */
  lemma {:induction false} RangeInOrder(b: Backend, first: int, k: int, last: int)
    requires first <= k + 1 && k <= last
    ensures LogsBetween(b, first, last) == LogsBetween(b, first, k) + LogsBetween(b, k + 1, last)
    ensures LogsBetween(b, k, k) == LogsAt(b, k)
    decreases last - k
  {
    if k < last {
      RangeInOrder(b, first, k, last - 1);
    }
  }

  /** Whatever is found in a block names its transaction, if the receipts do. */
  lemma FoundLogsAreComplete(keccak: Keccak, b: Backend, c: Criteria, h: Header, log: Log)
    requires Derived(b, h) && LogsOfBlock(keccak, b, c, h).Found? && log in LogsOfBlock(keccak, b, c, h).logs
    requires h.blockHash in b.receipts ==> forall x :: x in Flatten(b.receipts[h.blockHash]) ==> x.txHash != 0
    ensures log.txHash != 0 && Passes(c, log)
  {
    var logs := Flatten(b.logs[h.blockHash]);
    PassesIs(c, log);
    FilterLogsAre(c, logs);
    var r := FilterLogs(c, logs);
    assert r != [] ==> r[0] in r;
    if h.blockHash in b.receipts {
      FilterLogsAre(c, Flatten(b.receipts[h.blockHash]));
    }
  }

  // ----- The bloom filter -----

  function ElevenBits(high: nat, low: nat): nat {
    (256 * high + low) % 2048
  }

  // The three bits that an entry sets, from the first six bytes of its hash.
  function ThreeBits(h: seq<Byte>): set<nat>
    requires |h| >= 6
  {
    {ElevenBits(h[0], h[1]), ElevenBits(h[2], h[3]), ElevenBits(h[4], h[5])}
  }

  lemma BitsAre(keccak: Keccak, e: Entry)
    requires |keccak(e)| >= 6
    ensures BloomBits(keccak, e) == ThreeBits(keccak(e))
  {
  }

  ghost predicate Missing(keccak: Keccak, bloom: Bloom, e: Entry) {
    exists bit :: bit in BloomBits(keccak, e) && bit !in bloom
  }

  /** The bloom filter rejects a block exactly if there are addresses and each lacks a bit, or at some
      position there are topics and each lacks a bit. */
  lemma RejectsExactly(keccak: Keccak, bloom: Bloom, addresses: seq<Address>, topics: seq<seq<Hash>>)
    ensures !BloomFilter(keccak, bloom, addresses, topics) <==>
      || (|addresses| > 0 && forall i :: 0 <= i < |addresses| ==> Missing(keccak, bloom, AddressEntry(addresses[i])))
      || (exists p :: 0 <= p < |topics| && |topics[p]| > 0
            && forall i :: 0 <= i < |topics[p]| ==> Missing(keccak, bloom, TopicEntry(topics[p][i])))
  {
    AnyExactly(keccak, bloom, AddressEntries(addresses));
    forall p | 0 <= p < |topics|
      ensures BloomAny(keccak, bloom, TopicEntries(topics[p])) <==>
              !forall i :: 0 <= i < |topics[p]| ==> Missing(keccak, bloom, TopicEntry(topics[p][i]))
    {
      AnyExactly(keccak, bloom, TopicEntries(topics[p]));
    }
  }

  /** A rejected block is passed over without its logs: they need not even be there. */
  lemma RejectedIsPassedOver(keccak: Keccak, b: Backend, c: Criteria, h: Header)
    requires !BloomFilter(keccak, h.bloom, c.addresses, c.topics)
    ensures LogsOfBlock(keccak, b, c, h) == LogFilter.Found([])
    ensures LogsOfBlock(keccak, b.(logs := map[]), c, h) == LogFilter.Found([])
  {
  }

  lemma AnyExactly(keccak: Keccak, bloom: Bloom, entries: seq<Entry>)
    ensures BloomAny(keccak, bloom, entries) <==> !forall i :: 0 <= i < |entries| ==> Missing(keccak, bloom, entries[i])
  {
    forall i | 0 <= i < |entries|
      ensures BloomLookup(keccak, bloom, entries[i]) <==> !Missing(keccak, bloom, entries[i])
    {
    }
  }
}
