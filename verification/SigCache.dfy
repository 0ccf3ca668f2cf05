/** The signature cache of CheckTx (app/app.go:261-312): recovering a sender is expensive, so the
    result is kept, and an old entry is thrown out when the cache is full. */
module SigCache {
  import opened Words

  type Hash = Word

  datatype SenderAndHeight = SenderAndHeight(sender: Address, height: int)

  type Cache = map<Hash, SenderAndHeight>

  // Recovering the sender of the transaction with this hash; None is an invalid signature.
  type Recover = Hash -> Option<Address>

  // Every cached sender is the recovered one, the cache is at most one over its size, and its
  // heights are heights a block can have.
  ghost predicate Valid(cache: Cache, recover: Recover, size: nat) {
    && (forall h :: h in cache ==> recover(h) == Some(cache[h].sender) && cache[h].height < MAX_INT64)
    && |cache| <= size + 1
  }

  // Of six entries, or of all if there are fewer, this is one of the lowest height.
  ghost predicate OldestOf(cache: Cache, gone: Hash, visited: set<Hash>) {
    && gone in visited && visited <= cache.Keys && |visited| == (if |cache| < 6 then |cache| else 6)
    && forall h :: h in visited ==> cache[gone].height <= cache[h].height
  }

  ghost predicate Evicts(cache: Cache, cache': Cache, gone: Hash, txid: Hash, entry: SenderAndHeight) {
    && cache' == (cache - {gone})[txid := entry]
    && exists visited :: OldestOf(cache, gone, visited)
  }

  // One call: which sender it uses, and what may have become of the cache.
  ghost predicate Checks(cache: Cache, cache': Cache, recover: Recover, size: nat, height: int, txid: Hash, sender: Option<Address>) {
    && sender == (if txid in cache then Some(cache[txid].sender) else recover(txid))
    && (if txid in cache || recover(txid).None? then cache' == cache
        else
          var entry := SenderAndHeight(recover(txid).value, height);
          if |cache| <= size then cache' == cache[txid := entry]
          else exists gone :: Evicts(cache, cache', gone, txid, entry))
  }

  class Checker {
    const recover: Recover
    const sigCacheSize: nat
    var sigCache: Cache
    var currHeight: int

    constructor (recover: Recover, sigCacheSize: nat)
      ensures this.recover == recover && this.sigCacheSize == sigCacheSize
      ensures sigCache == map[] && currHeight == 0 && Valid(sigCache, recover, sigCacheSize)
    {
      this.recover, this.sigCacheSize := recover, sigCacheSize;
      sigCache, currHeight := map[], 0;
    }

    // Look at up to six entries in any order and pick the oldest of them.
    method PickOldest() returns (delKey: Hash, ghost visited: set<Hash>)
      requires |sigCache| > 0
      requires forall h :: h in sigCache ==> sigCache[h].height < MAX_INT64
      ensures delKey in sigCache && OldestOf(sigCache, delKey, visited)
    {
      var minHeight, count, left: set<Hash> := MAX_INT64 as int, 6, sigCache.Keys;
      delKey, visited := 0, {};
      while left != {} && count > 0
        invariant 0 <= count <= 6 && |visited| == 6 - count
        invariant visited <= sigCache.Keys && left == sigCache.Keys - visited
        invariant visited == {} ==> minHeight == MAX_INT64
        invariant visited != {} ==> delKey in visited && minHeight == sigCache[delKey].height
        invariant forall h :: h in visited ==> minHeight <= sigCache[h].height
        decreases left
      {
        var key :| key in left;
        if minHeight > sigCache[key].height {
          minHeight, delKey := sigCache[key].height, key;
        }
        count, left, visited := count - 1, left - {key}, visited + {key};
      }
    }

    method SenderOf(txid: Hash) returns (sender: Option<Address>)
      requires Valid(sigCache, recover, sigCacheSize)
      modifies this`sigCache
      ensures Checks(old(sigCache), sigCache, recover, sigCacheSize, currHeight, txid, sender)
    {
      if txid in sigCache {
        return Some(sigCache[txid].sender);
      }
      sender := recover(txid);
      if sender.None? {
        return;
      }
      if |sigCache| > sigCacheSize {
        var delKey, visited := PickOldest();
        sigCache := sigCache - {delKey};
        assert Evicts(old(sigCache), sigCache[txid := SenderAndHeight(sender.value, currHeight)], delKey, txid,
                      SenderAndHeight(sender.value, currHeight));
      }
      sigCache := sigCache[txid := SenderAndHeight(sender.value, currHeight)];
    }
  }

  lemma SizeAfterAdding(cache: Cache, txid: Hash, entry: SenderAndHeight)
    requires txid !in cache
    ensures |cache[txid := entry]| == |cache| + 1
  {
    assert cache[txid := entry].Keys == cache.Keys + {txid};
  }

  lemma SizeAfterEvicting(cache: Cache, gone: Hash)
    requires gone in cache
    ensures |cache - {gone}| == |cache| - 1
  {
    assert (cache - {gone}).Keys == cache.Keys - {gone};
  }

  lemma ChecksKeepValid(cache: Cache, cache': Cache, recover: Recover, size: nat, height: int, txid: Hash, sender: Option<Address>)
    requires Valid(cache, recover, size) && height < MAX_INT64
    requires Checks(cache, cache', recover, size, height, txid, sender)
    ensures Valid(cache', recover, size)
  {
    if txid !in cache && recover(txid).Some? {
      var entry := SenderAndHeight(recover(txid).value, height);
      if |cache| <= size {
        SizeAfterAdding(cache, txid, entry);
      } else {
        var gone :| Evicts(cache, cache', gone, txid, entry);
        SizeAfterEvicting(cache, gone);
        SizeAfterAdding(cache - {gone}, txid, entry);
      }
    }
  }

  // ----- Runs -----

  datatype Call = Call(height: int, txid: Hash, sender: Option<Address>)

  // A run of calls, at any heights, with the caches before and after each of them.
  ghost predicate IsRun(caches: seq<Cache>, calls: seq<Call>, recover: Recover, size: nat) {
    && |caches| == |calls| + 1 && caches[0] == map[]
    && forall i :: 0 <= i < |calls| ==> RunStep(caches[i], caches[i + 1], calls[i], recover, size)
  }

  ghost predicate RunStep(cache: Cache, cache': Cache, c: Call, recover: Recover, size: nat) {
    c.height < MAX_INT64 && Checks(cache, cache', recover, size, c.height, c.txid, c.sender)
  }

  /** Transparency: on every run every call uses exactly the sender that a cacheless call would
      recover, every cached sender is right, and the cache never exceeds its size plus one. */
  lemma {:induction false} CacheIsTransparent(caches: seq<Cache>, calls: seq<Call>, recover: Recover, size: nat, i: nat)
    requires IsRun(caches, calls, recover, size) && i <= |calls|
    ensures Valid(caches[i], recover, size)
    ensures i < |calls| ==> calls[i].sender == recover(calls[i].txid)
  {
    assert i < |calls| ==> RunStep(caches[i], caches[i + 1], calls[i], recover, size);
    if i > 0 {
      assert RunStep(caches[i - 1], caches[i], calls[i - 1], recover, size);
      CacheIsTransparent(caches, calls, recover, size, i - 1);
      ChecksKeepValid(caches[i - 1], caches[i], recover, size, calls[i - 1].height, calls[i - 1].txid, calls[i - 1].sender);
    }
  }

  ghost predicate Holds(cache: Cache, h: Hash, entry: SenderAndHeight) {
    h in cache && cache[h] == entry
  }

  // The entry is what the j-th call recovered, and it has been there ever since.
  ghost predicate RememberedFrom(caches: seq<Cache>, calls: seq<Call>, i: nat, h: Hash, j: nat)
    requires |caches| == |calls| + 1 && i <= |calls| && h in caches[i]
  {
    && j < i && calls[j].txid == h && h !in caches[j]
    && caches[i][h] == SenderAndHeight(caches[i][h].sender, calls[j].height) && calls[j].sender == Some(caches[i][h].sender)
    && forall k :: j < k <= i ==> Holds(caches[k], h, caches[i][h])
  }

  lemma EntryStays(cache: Cache, cache': Cache, c: Call, recover: Recover, size: nat, h: Hash)
    requires RunStep(cache, cache', c, recover, size) && h in cache'
    ensures h in cache ==> cache'[h] == cache[h]
    ensures h !in cache ==> h == c.txid && c.sender == recover(h) == Some(cache'[h].sender) && cache'[h].height == c.height
  {
    if c.txid !in cache && recover(c.txid).Some? && |cache| > size {
      var gone :| Evicts(cache, cache', gone, c.txid, SenderAndHeight(recover(c.txid).value, c.height));
    }
  }

  /** On every run an entry is exactly what the call that added it recovered, with the height of that
      call: hits neither change nor refresh it. */
  lemma {:induction false} CacheRemembers(caches: seq<Cache>, calls: seq<Call>, recover: Recover, size: nat, i: nat, h: Hash)
    returns (j: nat)
    requires IsRun(caches, calls, recover, size) && i <= |calls| && h in caches[i]
    ensures RememberedFrom(caches, calls, i, h, j)
  {
    assert i > 0;
    assert RunStep(caches[i - 1], caches[i], calls[i - 1], recover, size);
    EntryStays(caches[i - 1], caches[i], calls[i - 1], recover, size, h);
    if h in caches[i - 1] {
      j := CacheRemembers(caches, calls, recover, size, i - 1, h);
    } else {
      j := i - 1;
    }
  }

  lemma RoomKeepsAll(cache: Cache, cache': Cache, c: Call, recover: Recover, size: nat)
    requires RunStep(cache, cache', c, recover, size) && |cache| <= size
    ensures forall h :: h in cache ==> h in cache'
    ensures c.sender.Some? ==> c.txid in cache'
    ensures |cache'| <= |cache| + 1
  {
    if c.txid !in cache && recover(c.txid).Some? {
      SizeAfterAdding(cache, c.txid, SenderAndHeight(recover(c.txid).value, c.height));
    }
  }

  /** Nothing is thrown out before the cache is over its size: as long as there have been no more calls
      than that, every recovered sender is still there. */
  lemma {:induction false} SmallRunsForgetNothing(caches: seq<Cache>, calls: seq<Call>, recover: Recover, size: nat, i: nat)
    requires IsRun(caches, calls, recover, size) && i <= |calls| && i <= size + 1
    ensures |caches[i]| <= i
    ensures forall j :: 0 <= j < i && calls[j].sender.Some? ==> calls[j].txid in caches[i]
  {
    if i > 0 {
      SmallRunsForgetNothing(caches, calls, recover, size, i - 1);
      assert RunStep(caches[i - 1], caches[i], calls[i - 1], recover, size);
      RoomKeepsAll(caches[i - 1], caches[i], calls[i - 1], recover, size);
    }
  }
}
