/**
  The in-memory query cache of the serverless back end (`QueryCache`): a string-keyed
  JavaScript `Map` of `{data, timestamp, size}` entries plus a running byte counter
  `currentSize`, a 100 MiB budget and a five-minute default time-to-live.

  An entry's `timestamp` is its expiry time: it is dead once the clock is strictly
  past it. The clock (`Date.now()`) is the `now` parameter of each operation, read once
  per operation. The byte size of a value (`JSON.stringify` then UTF-8 encoding) is the
  `sizeOf` function the cache is created with.

  Each operation is first a function on a `Store` value (`GetStep`, `SetStep`, ...),
  which the lemmas reason about. The class `QueryCache` then performs it in place and
  is proved to agree with that function.
 */
module Cache {
  import opened Optional
  import opened Sequences
  import opened OrderedMaps
  import OM = OrderedMaps

  /** `TTL`: five minutes, in milliseconds. */
  const DefaultTtl: int := 5 * 60 * 1000
  /** `MAX_CACHE_SIZE`: 100 MiB. */
  const MaxCacheSize: int := 100 * 1024 * 1024
  /** `MAX_CACHE_SIZE * 0.1`, which evaluates to exactly 10485760 in double precision. */
  const MaxItemSize: int := 10485760

  datatype Item<T> = Item(data: T, timestamp: int, size: nat)

  /** The cache's fields: the `Map` of entries and `currentSize`. */
  datatype Store<T> = Store(cache: OrderedMap<Item<T>>, currentSize: int)

  ghost predicate WellFormed<T>(s: Store<T>) {
    OM.Valid(s.cache)
  }

  /** `ttl || this.TTL`: an absent or zero TTL means the default. */
  function EffectiveTtl(ttl: Option<int>): (r: int)
    ensures r != 0
    ensures ttl.Some? && ttl.value != 0 ==> r == ttl.value
  {
    if ttl == None || ttl == Some(0) then DefaultTtl else ttl.value
  }

  // ---------------------------------------------------------------------------
  // Size accounting

  /** The sizes of the entries listed in `keys`, added up. */
  function SumSizes<T>(keys: seq<string>, values: map<string, Item<T>>): nat
  {
    if keys == [] then 0
    else
      var k := keys[|keys| - 1];
      SumSizes(keys[..|keys| - 1], values) + (if k in values then values[k].size else 0)
  }

  /** The bytes the stored entries really hold. */
  function TotalSize<T>(m: OrderedMap<Item<T>>): nat {
    SumSizes(m.keys, m.values)
  }

  /** How far `currentSize` is from the real total. */
  function Drift<T>(s: Store<T>): int {
    s.currentSize - TotalSize(s.cache)
  }

  /** `currentSize` is the sum of the stored entries' sizes. */
  ghost predicate Consistent<T>(s: Store<T>) {
    WellFormed(s) && Drift(s) == 0
  }

  /** The size of the entry for `key`, or 0 when there is none. */
  function OldSize<T>(s: Store<T>, key: string): nat {
    if key in s.cache.values then s.cache.values[key].size else 0
  }

  lemma {:induction false} SumSizesUpdate<T>(keys: seq<string>, values: map<string, Item<T>>, k: string, it: Item<T>)
    requires Distinct(keys)
    ensures SumSizes(keys, values[k := it])
            == SumSizes(keys, values)
               - (if k in keys && k in values then values[k].size else 0)
               + (if k in keys then it.size else 0)
    decreases |keys|
  {
    if keys != [] {
      var keys' := keys[..|keys| - 1];
      var x := keys[|keys| - 1];
      assert keys == keys' + [x];
      SumSizesUpdate(keys', values, k, it);
    }
  }

  lemma {:induction false} SumSizesRemove<T>(keys: seq<string>, values: map<string, Item<T>>, k: string)
    requires Distinct(keys)
    ensures SumSizes(Filter(keys, Other(k)), values - {k})
            == SumSizes(keys, values) - (if k in keys && k in values then values[k].size else 0)
    decreases |keys|
  {
    if keys != [] {
      var keys' := keys[..|keys| - 1];
      var x := keys[|keys| - 1];
      assert keys == keys' + [x];
      assert x !in keys';
      SumSizesRemove(keys', values, k);
      var f := Filter(keys', Other(k));
      if x != k {
        assert Filter(keys, Other(k)) == f + [x];
        SumSizesAppend(f, values - {k}, x);
      } else {
        assert Filter(keys, Other(k)) == f;
      }
    }
  }

  lemma {:induction false} SumSizesAppend<T>(keys: seq<string>, values: map<string, Item<T>>, k: string)
    ensures SumSizes(keys + [k], values) == SumSizes(keys, values) + (if k in values then values[k].size else 0)
  {
    assert (keys + [k])[..|keys|] == keys;
  }

  /** Writing an entry replaces the old entry's bytes by the new entry's. */
  lemma TotalSizeAfterSet<T>(m: OrderedMap<Item<T>>, k: string, it: Item<T>)
    requires OM.Valid(m)
    ensures TotalSize(OM.Set(m, k, it))
            == TotalSize(m) - (if k in m.values then m.values[k].size else 0) + it.size
  {
    if k in m.values {
      SumSizesUpdate(m.keys, m.values, k, it);
    } else {
      SumSizesAppend(m.keys, m.values[k := it], k);
      SumSizesUpdate(m.keys, m.values, k, it);
    }
  }

  /** Deleting an entry removes its bytes. */
  lemma TotalSizeAfterDelete<T>(m: OrderedMap<Item<T>>, k: string)
    requires OM.Valid(m)
    ensures TotalSize(OM.Delete(m, k)) == TotalSize(m) - (if k in m.values then m.values[k].size else 0)
  {
    SumSizesRemove(m.keys, m.values, k);
  }

  // ---------------------------------------------------------------------------
  // get, invalidate, clear, getStats

  /**
    `get(key)`: a missing key is a miss; an entry strictly past its expiry is deleted
    and its size subtracted; otherwise the entry's expiry is pushed to `now` plus the
    default TTL, whatever TTL it was stored with, and its data returned.
   */
  function GetStep<T>(s: Store<T>, key: string, now: int): (r: (Store<T>, Option<T>))
    requires WellFormed(s)
    ensures WellFormed(r.0)
    ensures key !in s.cache.values ==> r == (s, None)
    ensures key in s.cache.values && now > s.cache.values[key].timestamp ==>
              && r.1 == None
              && r.0.cache.keys == Filter(s.cache.keys, Other(key))
              && r.0.cache.values == s.cache.values - {key}
              && r.0.currentSize == s.currentSize - s.cache.values[key].size
    ensures key in s.cache.values && now <= s.cache.values[key].timestamp ==>
              && r.1 == Some(s.cache.values[key].data)
              && r.0.cache.keys == s.cache.keys
              && r.0.cache.values == s.cache.values[key := s.cache.values[key].(timestamp := now + DefaultTtl)]
              && r.0.currentSize == s.currentSize
  {
    if key !in s.cache.values then (s, None)
    else
      var item := s.cache.values[key];
      if now > item.timestamp then (Store(OM.Delete(s.cache, key), s.currentSize - item.size), None)
      else (Store(OM.Set(s.cache, key, item.(timestamp := now + DefaultTtl)), s.currentSize), Some(item.data))
  }

  /** `invalidate(key)`: deletes the entry and subtracts its size; nothing when absent. */
  function InvalidateStep<T>(s: Store<T>, key: string): (r: Store<T>)
    requires WellFormed(s)
    ensures WellFormed(r)
    ensures key !in s.cache.values ==> r == s
    ensures key in s.cache.values ==>
              && r.cache.keys == Filter(s.cache.keys, Other(key))
              && r.cache.values == s.cache.values - {key}
              && r.currentSize == s.currentSize - s.cache.values[key].size
  {
    if key in s.cache.values then Store(OM.Delete(s.cache, key), s.currentSize - s.cache.values[key].size)
    else s
  }

  /** `clear()`. */
  function ClearStep<T>(s: Store<T>): (r: Store<T>)
    ensures WellFormed(r) && r.cache.values == map[] && r.currentSize == 0
  {
    Store(OM.Empty(), 0)
  }

  /** `getStats()`: the byte counter and the number of entries, which is the number of listed keys. */
  function Stats<T>(s: Store<T>): (r: (int, nat))
    ensures r.0 == s.currentSize
    ensures WellFormed(s) ==> r.1 == |s.cache.keys|
  {
    EntryCount(s);
    (s.currentSize, |s.cache.values|)
  }

  lemma EntryCount<T>(s: Store<T>)
    ensures WellFormed(s) ==> |s.cache.values| == |s.cache.keys|
  {
    if WellFormed(s) {
      OM.SizeIsKeyCount(s.cache);
    }
  }

  // ---------------------------------------------------------------------------
  // prune

  function EntryTimestamp<T>(e: (string, Item<T>)): int {
    e.1.timestamp
  }

  /**
    `Array.from(this.cache.entries())` sorted by timestamp, ties in insertion order: the
    entries, each once, in timestamp order.
   */
  function Snapshot<T>(s: Store<T>): (r: seq<(string, Item<T>)>)
    requires WellFormed(s)
    ensures SortedBy(r, EntryTimestamp)
    ensures multiset(r) == multiset(Entries(s.cache))
  {
    SortByCorrect(Entries(s.cache), EntryTimestamp);
    SortBy(Entries(s.cache), EntryTimestamp)
  }

  /** The condition under which `prune` deletes an entry: expired, or the cache over budget. */
  predicate Deletes<T>(s: Store<T>, e: (string, Item<T>), now: int) {
    now > e.1.timestamp || s.currentSize > MaxCacheSize
  }

  /** `this.cache.delete(key)` and `this.currentSize -= item.size` for a snapshot entry. */
  function DeleteEntry<T>(s: Store<T>, e: (string, Item<T>)): (r: Store<T>)
    requires WellFormed(s)
    ensures WellFormed(r)
    ensures r.cache.keys == Filter(s.cache.keys, Other(e.0))
    ensures r.cache.values == s.cache.values - {e.0}
    ensures r.currentSize == s.currentSize - e.1.size
  {
    Store(OM.Delete(s.cache, e.0), s.currentSize - e.1.size)
  }

  /**
    The loop of `prune` over the sorted entries: delete while the entry is expired or the
    cache is over budget, stop at the first entry that is neither.
   */
  function PruneWalk<T>(s: Store<T>, entries: seq<(string, Item<T>)>, now: int): (r: Store<T>)
    requires WellFormed(s)
    ensures WellFormed(r)
    decreases |entries|
  {
    if entries == [] then s
    else if Deletes(s, entries[0], now) then PruneWalk(DeleteEntry(s, entries[0]), entries[1..], now)
    else s
  }

  /** `prune()`. */
  function PruneStep<T>(s: Store<T>, now: int): (r: Store<T>)
    requires WellFormed(s)
    ensures WellFormed(r)
  {
    PruneWalk(s, Snapshot(s), now)
  }

  /** One visit of the walk. */
  lemma PruneVisit<T>(s: Store<T>, entries: seq<(string, Item<T>)>, now: int)
    requires WellFormed(s) && entries != []
    ensures Deletes(s, entries[0], now) ==>
              PruneWalk(s, entries, now) == PruneWalk(DeleteEntry(s, entries[0]), entries[1..], now)
    ensures !Deletes(s, entries[0], now) ==> PruneWalk(s, entries, now) == s
  {
  }

  /** How many entries the walk deletes before it stops. */
  function PruneCount<T>(s: Store<T>, entries: seq<(string, Item<T>)>, now: int): nat
    requires WellFormed(s)
    decreases |entries|
  {
    if entries == [] then 0
    else if Deletes(s, entries[0], now) then 1 + PruneCount(DeleteEntry(s, entries[0]), entries[1..], now)
    else 0
  }

  /** The walk only deletes: what is left is what was there, unchanged. */
  lemma {:induction false} PruneWalkSubset<T>(s: Store<T>, entries: seq<(string, Item<T>)>, now: int)
    requires WellFormed(s)
    ensures PruneCount(s, entries, now) <= |entries|
    ensures forall k :: k in PruneWalk(s, entries, now).cache.values ==>
              k in s.cache.values && PruneWalk(s, entries, now).cache.values[k] == s.cache.values[k]
    decreases |entries|
  {
    if entries != [] && Deletes(s, entries[0], now) {
      PruneWalkSubset(DeleteEntry(s, entries[0]), entries[1..], now);
    }
  }

  /** The walk deletes the keys of the entries it counts, a prefix of `entries`. */
  lemma {:induction false} PruneWalkPrefix<T>(s: Store<T>, entries: seq<(string, Item<T>)>, now: int)
    requires WellFormed(s)
    ensures forall i :: 0 <= i < PruneCount(s, entries, now) && i < |entries| ==>
              entries[i].0 !in PruneWalk(s, entries, now).cache.values
    decreases |entries|
  {
    if entries != [] && Deletes(s, entries[0], now) {
      var s' := DeleteEntry(s, entries[0]);
      var rest := entries[1..];
      PruneWalkPrefix(s', rest, now);
      PruneWalkSubset(s', rest, now);
      var r := PruneWalk(s', rest, now);
      assert r == PruneWalk(s, entries, now);
      forall i | 0 < i < PruneCount(s, entries, now) && i < |entries|
        ensures entries[i].0 !in r.cache.values
      {
        assert entries[i] == rest[i - 1];
      }
    }
  }

  /** If the walk stops early, it stops at an unexpired entry with the cache within budget. */
  lemma {:induction false} PruneWalkStop<T>(s: Store<T>, entries: seq<(string, Item<T>)>, now: int)
    requires WellFormed(s)
    ensures PruneCount(s, entries, now) < |entries| ==>
              && now <= entries[PruneCount(s, entries, now)].1.timestamp
              && PruneWalk(s, entries, now).currentSize <= MaxCacheSize
    decreases |entries|
  {
    if entries != [] && Deletes(s, entries[0], now) {
      var rest := entries[1..];
      PruneWalkStop(DeleteEntry(s, entries[0]), rest, now);
      if PruneCount(s, entries, now) < |entries| {
        assert entries[PruneCount(s, entries, now)] == rest[PruneCount(DeleteEntry(s, entries[0]), rest, now)];
      }
    }
  }

  /**
    After `prune`, every remaining entry is unexpired and is the entry that was there
    before, and either nothing is left or `currentSize` is within the budget.
   */
  lemma PruneLeavesFresh<T>(s: Store<T>, now: int)
    requires WellFormed(s)
    ensures forall k :: k in PruneStep(s, now).cache.values ==>
              && k in s.cache.values
              && PruneStep(s, now).cache.values[k] == s.cache.values[k]
              && now <= s.cache.values[k].timestamp
    ensures PruneStep(s, now).cache.values == map[] || PruneStep(s, now).currentSize <= MaxCacheSize
  {
    PruneKeepsLive(s, now);
    PruneEmptiesOrFits(s, now);
  }

  lemma PruneKeepsLive<T>(s: Store<T>, now: int)
    requires WellFormed(s)
    ensures forall k :: k in PruneStep(s, now).cache.values ==>
              && k in s.cache.values
              && PruneStep(s, now).cache.values[k] == s.cache.values[k]
              && now <= s.cache.values[k].timestamp
  {
    PruneWalkSubset(s, Snapshot(s), now);
    forall k | k in PruneStep(s, now).cache.values
      ensures k in s.cache.values && now <= s.cache.values[k].timestamp
    {
      PruneKeyIsLive(s, now, k);
    }
  }

  /** A key `prune` keeps was not expired. */
  lemma PruneKeyIsLive<T>(s: Store<T>, now: int, k: string)
    requires WellFormed(s) && k in PruneStep(s, now).cache.values
    ensures k in s.cache.values && now <= s.cache.values[k].timestamp
  {
    var es := Snapshot(s);
    var n := PruneCount(s, es, now);
    assert k in s.cache.values by {
      PruneWalkSubset(s, es, now);
    }
    SnapshotHas(s, k);
    var j :| 0 <= j < |es| && es[j] == (k, s.cache.values[k]);
    var r := PruneWalk(s, es, now);
    assert es[j].0 in r.cache.values;
    assert n <= j by {
      PruneWalkPrefix(s, es, now);
    }
    assert now <= es[n].1.timestamp by {
      PruneWalkStop(s, es, now);
    }
    SnapshotOrdered(s, n, j);
  }

  /** The snapshot is in timestamp order. */
  lemma SnapshotOrdered<T>(s: Store<T>, i: int, j: int)
    requires WellFormed(s) && 0 <= i <= j < |Snapshot(s)|
    ensures Snapshot(s)[i].1.timestamp <= Snapshot(s)[j].1.timestamp
  {
    var all := Entries(s.cache);
    SortByCorrect(all, EntryTimestamp);
    assert SortedBy(SortBy(all, EntryTimestamp), EntryTimestamp);
    if i < j {
      assert EntryTimestamp(Snapshot(s)[i]) <= EntryTimestamp(Snapshot(s)[j]);
    }
  }

  lemma PruneEmptiesOrFits<T>(s: Store<T>, now: int)
    requires WellFormed(s)
    ensures PruneStep(s, now).cache.values == map[] || PruneStep(s, now).currentSize <= MaxCacheSize
  {
    var es := Snapshot(s);
    PruneWalkSubset(s, es, now);
    PruneWalkPrefix(s, es, now);
    PruneWalkStop(s, es, now);
    if PruneCount(s, es, now) == |es| {
      forall k | k in s.cache.values ensures k !in PruneStep(s, now).cache.values {
        SnapshotHas(s, k);
      }
    }
  }

  /** Every stored entry appears in the sorted snapshot. */
  lemma SnapshotHas<T>(s: Store<T>, k: string)
    requires WellFormed(s) && k in s.cache.values
    ensures exists j :: 0 <= j < |Snapshot(s)| && Snapshot(s)[j] == (k, s.cache.values[k])
  {
    var all := Entries(s.cache);
    SortByCorrect(all, EntryTimestamp);
    var i :| 0 <= i < |s.cache.keys| && s.cache.keys[i] == k;
    assert all[i] == (k, s.cache.values[k]);
    assert all[i] in multiset(Snapshot(s));
  }

  /** The entries list each key once, with the item the store holds for it. */
  ghost predicate Matches<T>(s: Store<T>, entries: seq<(string, Item<T>)>) {
    && Pairwise(entries, DifferentKeys)
    && forall i :: 0 <= i < |entries| ==>
         entries[i].0 in s.cache.values && s.cache.values[entries[i].0] == entries[i].1
  }

  /** Deleting the first entry's key leaves the rest matching. */
  lemma MatchesRest<T>(s: Store<T>, entries: seq<(string, Item<T>)>)
    requires WellFormed(s) && entries != [] && Matches(s, entries)
    ensures Matches(DeleteEntry(s, entries[0]), entries[1..])
  {
    var s' := DeleteEntry(s, entries[0]);
    var rest := entries[1..];
    forall i, j | 0 <= i < |rest| && 0 <= j < |rest| && i != j
      ensures DifferentKeys(rest[i], rest[j])
    {
      assert rest[i] == entries[i + 1] && rest[j] == entries[j + 1];
    }
    forall i | 0 <= i < |rest|
      ensures rest[i].0 in s'.cache.values && s'.cache.values[rest[i].0] == rest[i].1
    {
      assert rest[i] == entries[i + 1];
      assert DifferentKeys(entries[0], entries[i + 1]);
    }
  }

  /** Deleting a matching entry keeps the drift. */
  lemma DeleteEntryKeepsDrift<T>(s: Store<T>, e: (string, Item<T>))
    requires WellFormed(s) && e.0 in s.cache.values && s.cache.values[e.0] == e.1
    ensures Drift(DeleteEntry(s, e)) == Drift(s)
  {
    TotalSizeAfterDelete(s.cache, e.0);
  }

  lemma {:induction false} PruneWalkDrift<T>(s: Store<T>, entries: seq<(string, Item<T>)>, now: int)
    requires WellFormed(s) && Matches(s, entries)
    ensures Drift(PruneWalk(s, entries, now)) == Drift(s)
    decreases |entries|
  {
    if entries != [] {
      if Deletes(s, entries[0], now) {
        MatchesRest(s, entries);
        DeleteEntryKeepsDrift(s, entries[0]);
        PruneWalkDrift(DeleteEntry(s, entries[0]), entries[1..], now);
      }
    }
  }

  /** `prune` keeps the difference between `currentSize` and the real total. */
  lemma PruneKeepsDrift<T>(s: Store<T>, now: int)
    requires WellFormed(s)
    ensures Drift(PruneStep(s, now)) == Drift(s)
  {
    var all := Entries(s.cache);
    var es := Snapshot(s);
    EntriesHaveDifferentKeys(s.cache);
    SortByPairwise(all, EntryTimestamp, DifferentKeys);
    SortByCorrect(all, EntryTimestamp);
    forall i | 0 <= i < |es|
      ensures es[i].0 in s.cache.values && s.cache.values[es[i].0] == es[i].1
    {
      assert es[i] in multiset(all);
      var j :| 0 <= j < |all| && all[j] == es[i];
    }
    PruneWalkDrift(s, es, now);
  }

  // ---------------------------------------------------------------------------
  // set

  /** `set` first subtracts the size of the entry being replaced, if any. */
  function Subtracted<T>(s: Store<T>, key: string): Store<T> {
    s.(currentSize := s.currentSize - OldSize(s, key))
  }

  /**
    `set` prunes when the new size would not fit in the budget; making room only removes
    entries, and only expired ones unless everything goes or the rest fits.
   */
  function MakeRoom<T>(s: Store<T>, size: nat, now: int): (r: Store<T>)
    requires WellFormed(s)
    ensures WellFormed(r)
    ensures s.currentSize + size <= MaxCacheSize ==> r == s
    ensures forall k :: k in r.cache.values ==> k in s.cache.values && r.cache.values[k] == s.cache.values[k]
    ensures s.currentSize + size > MaxCacheSize ==>
              forall k :: k in r.cache.values ==> now <= s.cache.values[k].timestamp
  {
    if s.currentSize + size > MaxCacheSize then
      PruneKeepsLive(s, now);
      PruneStep(s, now)
    else s
  }

  /**
    `set(key, data, ttl)` with `size = calculateSize(data)`: subtract the old entry's
    size; give up if the new size exceeds a tenth of the budget; prune if needed; write
    the entry with expiry `now + (ttl || TTL)` and add its size.
   */
  function SetStep<T>(s: Store<T>, key: string, data: T, size: nat, ttl: Option<int>, now: int): (r: Store<T>)
    requires WellFormed(s)
    ensures WellFormed(r)
    ensures size > MaxItemSize ==> r.cache == s.cache && r.currentSize == s.currentSize - OldSize(s, key)
    ensures size <= MaxItemSize ==>
              && key in r.cache.values
              && r.cache.values[key] == Item(data, now + EffectiveTtl(ttl), size)
              && forall k :: k in r.cache.values && k != key ==>
                   k in s.cache.values && r.cache.values[k] == s.cache.values[k]
    ensures size <= MaxItemSize && s.currentSize - OldSize(s, key) + size <= MaxCacheSize ==>
              && r.cache.values == s.cache.values[key := Item(data, now + EffectiveTtl(ttl), size)]
              && r.currentSize == s.currentSize - OldSize(s, key) + size
              // An existing key keeps its place in insertion order; a new key goes last.
              && r.cache.keys == if key in s.cache.values then s.cache.keys else s.cache.keys + [key]
    // A key that was not stored goes last, even when pruning removed others.
    ensures size <= MaxItemSize && key !in s.cache.values ==> r.cache.keys[|r.cache.keys| - 1] == key
  {
    var s1 := Subtracted(s, key);
    if size > MaxItemSize then s1
    else
      var s2 := MakeRoom(s1, size, now);
      PruneLeavesFresh(s1, now);
      Store(OM.Set(s2.cache, key, Item(data, now + EffectiveTtl(ttl), size)), s2.currentSize + size)
  }

  /** The three stages of `set`: subtract, make room, write. */
  lemma SetStages<T>(s: Store<T>, key: string, data: T, size: nat, ttl: Option<int>, now: int)
    requires WellFormed(s)
    ensures size > MaxItemSize ==> SetStep(s, key, data, size, ttl, now) == Subtracted(s, key)
    ensures size <= MaxItemSize ==>
              var s2 := MakeRoom(Subtracted(s, key), size, now);
              SetStep(s, key, data, size, ttl, now)
              == Store(OM.Set(s2.cache, key, Item(data, now + EffectiveTtl(ttl), size)), s2.currentSize + size)
  {
  }

  // ---------------------------------------------------------------------------
  // Properties across operations

  /** `get` and `invalidate` keep `currentSize` exactly as far from the real total as it was. */
  lemma GetInvalidateKeepDrift<T>(s: Store<T>, key: string, now: int)
    requires WellFormed(s)
    ensures Drift(GetStep(s, key, now).0) == Drift(s)
    ensures Drift(InvalidateStep(s, key)) == Drift(s)
  {
    TotalSizeAfterDelete(s.cache, key);
    if key in s.cache.values {
      var item := s.cache.values[key];
      TotalSizeAfterSet(s.cache, key, item.(timestamp := now + DefaultTtl));
    }
  }

  /**
    The exact effect of `set` on the accounting: `currentSize` loses the old entry's
    size without the entry leaving the map when the new value is refused as too large,
    or when `prune` deletes the very entry being replaced, which subtracts it twice.
   */
  lemma SetDrift<T>(s: Store<T>, key: string, data: T, size: nat, ttl: Option<int>, now: int)
    requires WellFormed(s)
    ensures Drift(SetStep(s, key, data, size, ttl, now))
            == Drift(s)
               - (if key in s.cache.values
                     && (size > MaxItemSize || key !in MakeRoom(Subtracted(s, key), size, now).cache.values)
                  then s.cache.values[key].size else 0)
  {
    var s1 := Subtracted(s, key);
    if size <= MaxItemSize {
      var s2 := MakeRoom(s1, size, now);
      PruneKeepsDrift(s1, now);
      PruneLeavesFresh(s1, now);
      TotalSizeAfterSet(s2.cache, key, Item(data, now + EffectiveTtl(ttl), size));
    }
  }

  /** Writing a key that is not yet cached keeps the accounting exact. */
  lemma SetFreshKeyConsistent<T>(s: Store<T>, key: string, data: T, size: nat, ttl: Option<int>, now: int)
    requires Consistent(s) && key !in s.cache.values
    ensures Consistent(SetStep(s, key, data, size, ttl, now))
  {
    SetDrift(s, key, data, size, ttl, now);
  }

  /** Replacing an entry without pruning keeps the accounting exact. */
  lemma SetReplaceConsistent<T>(s: Store<T>, key: string, data: T, size: nat, ttl: Option<int>, now: int)
    requires Consistent(s) && key in s.cache.values
    requires size <= MaxItemSize && s.currentSize - s.cache.values[key].size + size <= MaxCacheSize
    ensures Consistent(SetStep(s, key, data, size, ttl, now))
  {
    SetDrift(s, key, data, size, ttl, now);
  }

  /**
    An oversized value written over an existing entry leaves that entry in the map
    while its size has left `currentSize`.
   */
  lemma OversizedReplaceDrifts<T>(s: Store<T>, key: string, data: T, size: nat, ttl: Option<int>, now: int)
    requires Consistent(s) && key in s.cache.values && s.cache.values[key].size > 0
    requires size > MaxItemSize
    ensures SetStep(s, key, data, size, ttl, now).cache == s.cache
    ensures Drift(SetStep(s, key, data, size, ttl, now)) == -(s.cache.values[key].size as int)
    ensures !Consistent(SetStep(s, key, data, size, ttl, now))
  {
    SetDrift(s, key, data, size, ttl, now);
  }

  /**
    `currentSize` stays within the budget plus one largest admissible item, as long as
    it does not already overstate the real total.
   */
  lemma SetBounded<T>(s: Store<T>, key: string, data: T, size: nat, ttl: Option<int>, now: int)
    requires WellFormed(s) && Drift(s) <= 0
    requires s.currentSize <= MaxCacheSize + MaxItemSize
    ensures Drift(SetStep(s, key, data, size, ttl, now)) <= 0
    ensures SetStep(s, key, data, size, ttl, now).currentSize <= MaxCacheSize + MaxItemSize
  {
    SetDrift(s, key, data, size, ttl, now);
    var s1 := Subtracted(s, key);
    if size <= MaxItemSize && s1.currentSize + size > MaxCacheSize {
      var s2 := PruneStep(s1, now);
      PruneLeavesFresh(s1, now);
      PruneKeepsDrift(s1, now);
      if s2.cache.values == map[] {
        OM.SizeIsKeyCount(s2.cache);
        assert s2.cache.keys == [];
      }
    }
  }

  /**
    Round trip: an admissible value read back before its expiry passes is returned.
    A read strictly after it is a miss.
   */
  lemma SetThenGet<T>(s: Store<T>, key: string, data: T, size: nat, ttl: Option<int>, now: int, later: int)
    requires WellFormed(s) && size <= MaxItemSize
    ensures later <= now + EffectiveTtl(ttl) ==>
              GetStep(SetStep(s, key, data, size, ttl, now), key, later).1 == Some(data)
    ensures later > now + EffectiveTtl(ttl) ==>
              GetStep(SetStep(s, key, data, size, ttl, now), key, later).1 == None
  {
  }

  /** Sliding expiry: after a hit, any read within the default TTL hits again. */
  lemma SlidingExpiry<T>(s: Store<T>, key: string, now: int, later: int)
    requires WellFormed(s) && GetStep(s, key, now).1.Some?
    requires later <= now + DefaultTtl
    ensures GetStep(GetStep(s, key, now).0, key, later).1 == GetStep(s, key, now).1
  {
  }

  /** A second `invalidate` of the same key changes nothing. */
  lemma InvalidateIdempotent<T>(s: Store<T>, key: string)
    requires WellFormed(s)
    ensures InvalidateStep(InvalidateStep(s, key), key) == InvalidateStep(s, key)
  {
  }

  /** After `clear`, the stats are zero and every read misses. */
  lemma ClearEmpties<T>(s: Store<T>, key: string, now: int)
    ensures Stats(ClearStep(s)) == (0, 0)
    ensures GetStep(ClearStep(s), key, now).1 == None
  {
  }

  /** The budget is not a hard bound: a write that prune cannot make room for still lands. */
  lemma BudgetCanBeExceeded()
    ensures var s := Store(OrderedMap(["a"], map["a" := Item(0, 1000, MaxCacheSize - 1)]), MaxCacheSize - 1);
            && Consistent(s)
            && SetStep(s, "b", 1, 2, None, 0).currentSize == MaxCacheSize + 1
            && Consistent(SetStep(s, "b", 1, 2, None, 0))
  {
    var s := Store(OrderedMap(["a"], map["a" := Item(0, 1000, MaxCacheSize - 1)]), MaxCacheSize - 1);
    assert SumSizes(["a"], s.cache.values) == MaxCacheSize - 1 by {
      assert ["a"][..0] == [];
    }
    SetFreshKeyConsistent(s, "b", 1, 2, None, 0);
    var e := ("a", Item(0, 1000, MaxCacheSize - 1));
    assert Snapshot(s) == [e] by {
      assert Entries(s.cache) == [e];
      assert [e][..0] == [];
      assert SortBy([e], EntryTimestamp) == InsertBy(e, [], EntryTimestamp) == [e];
    }
    assert PruneStep(s, 0) == s by {
      assert !Deletes(s, e, 0);
      PruneVisit(s, [e], 0);
    }
    assert MakeRoom(Subtracted(s, "b"), 2, 0) == s by {
      assert Subtracted(s, "b") == s;
    }
    SetStages(s, "b", 1, 2, None, 0);
    assert SetStep(s, "b", 1, 2, None, 0).currentSize == s.currentSize + 2;
  }

  /**
    An expired entry replaced by a write that has to prune is subtracted twice: once
    by `set` before pruning, and again by `prune`, which deletes it as expired.
   */
  lemma ExpiredReplaceSubtractsTwice<T>(s: Store<T>, key: string, data: T, size: nat, ttl: Option<int>, now: int)
    requires WellFormed(s) && key in s.cache.values && now > s.cache.values[key].timestamp
    requires size <= MaxItemSize && s.currentSize - s.cache.values[key].size + size > MaxCacheSize
    ensures Drift(SetStep(s, key, data, size, ttl, now)) == Drift(s) - s.cache.values[key].size
  {
    PruneLeavesFresh(Subtracted(s, key), now);
    SetDrift(s, key, data, size, ttl, now);
  }

  /** A full cache of two entries, `a` of 10 bytes expired at time 0 and `b` live until 100. */
  function TwoEntryStore(): (s: Store<int>)
    ensures Consistent(s) && s.currentSize == MaxCacheSize + 5
    ensures "a" in s.cache.values && s.cache.values["a"] == Item(0, 0, 10)
  {
    var values := map["a" := Item(0, 0, 10), "b" := Item(0, 100, MaxCacheSize - 5)];
    SumSizesAppend([], values, "a");
    SumSizesAppend(["a"], values, "b");
    assert [] + ["a"] == ["a"] && ["a"] + ["b"] == ["a", "b"];
    Store(OrderedMap(["a", "b"], values), MaxCacheSize + 5)
  }

  /** Rewriting the expired entry of that consistent cache leaves `currentSize` 10 bytes short. */
  lemma ReplacedEntryPrunedTwice()
    ensures Drift(SetStep(TwoEntryStore(), "a", 1, 10, None, 1)) == -10
  {
    ExpiredReplaceSubtractsTwice(TwoEntryStore(), "a", 1, 10, None, 1);
  }

  // ---------------------------------------------------------------------------
  // The cache object

  class QueryCache<T> {
    var cache: OrderedMap<Item<T>>
    var currentSize: int
    /** `calculateSize`: the byte length of the value's serialisation. */
    const sizeOf: T -> nat

    function State(): Store<T>
      reads this
    {
      Store(cache, currentSize)
    }

    ghost predicate Valid()
      reads this
    {
      WellFormed(State())
    }

    constructor (sizeOf: T -> nat)
      ensures Valid() && this.sizeOf == sizeOf
      ensures State() == Store(OM.Empty(), 0)
    {
      this.sizeOf := sizeOf;
      cache := OM.Empty();
      currentSize := 0;
    }

    /** `prune()`: walk the entries oldest expiry first, deleting until one is kept. */
    method Prune(now: int)
      requires Valid()
      modifies this
      ensures Valid() && State() == PruneStep(old(State()), now)
    {
      var entries := SortBy(Entries(cache), EntryTimestamp);
      var i := 0;
      while i < |entries|
        invariant 0 <= i <= |entries|
        invariant Valid()
        invariant PruneWalk(State(), entries[i..], now) == PruneStep(old(State()), now)
      {
        var e := entries[i];
        PruneVisit(State(), entries[i..], now);
        if now > e.1.timestamp || currentSize > MaxCacheSize {
          Evict(e);
        } else {
          break;
        }
        assert entries[i..][1..] == entries[i + 1..];
        i := i + 1;
      }
    }

    /** The body of the `prune` loop for an entry it deletes. */
    method Evict(e: (string, Item<T>))
      requires Valid()
      modifies this
      ensures Valid() && State() == DeleteEntry(old(State()), e)
    {
      cache := OM.Delete(cache, e.0);
      currentSize := currentSize - e.1.size;
    }

    method Set(key: string, data: T, ttl: Option<int>, now: int)
      requires Valid()
      modifies this
      ensures Valid() && State() == SetStep(old(State()), key, data, sizeOf(data), ttl, now)
    {
      ghost var s0 := State();
      var size := sizeOf(data);
      SetStages(s0, key, data, size, ttl, now);
      if key in cache.values {
        var oldItem := cache.values[key];
        currentSize := currentSize - oldItem.size;
      }
      ghost var s1 := State();
      assert s1 == Subtracted(s0, key);
      if size > MaxItemSize {
        return;
      }
      if currentSize + size > MaxCacheSize {
        Prune(now);
      }
      ghost var s2 := State();
      assert s2 == MakeRoom(s1, size, now);
      cache := OM.Set(cache, key, Item(data, now + EffectiveTtl(ttl), size));
      currentSize := currentSize + size;
    }

    method Get(key: string, now: int) returns (r: Option<T>)
      requires Valid()
      modifies this
      ensures Valid() && (State(), r) == GetStep(old(State()), key, now)
    {
      if key !in cache.values {
        return None;
      }
      var item := cache.values[key];
      if now > item.timestamp {
        cache := OM.Delete(cache, key);
        currentSize := currentSize - item.size;
        return None;
      }
      cache := OM.Set(cache, key, item.(timestamp := now + DefaultTtl));
      return Some(item.data);
    }

    method Invalidate(key: string)
      requires Valid()
      modifies this
      ensures Valid() && State() == InvalidateStep(old(State()), key)
    {
      if key in cache.values {
        var item := cache.values[key];
        currentSize := currentSize - item.size;
        cache := OM.Delete(cache, key);
      }
    }

    method Clear()
      requires Valid()
      modifies this
      ensures Valid() && State() == ClearStep(old(State()))
    {
      cache := OM.Empty();
      currentSize := 0;
    }

    /** `getStats()`: reads the counter and the entry count and changes nothing. */
    method GetStats() returns (size: int, entries: nat)
      requires Valid()
      ensures (size, entries) == Stats(State())
      ensures entries == |cache.keys|
    {
      OM.SizeIsKeyCount(cache);
      size := currentSize;
      entries := |cache.values|;
    }
  }
}
