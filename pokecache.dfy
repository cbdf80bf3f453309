/**
 This module models the expiring key/value cache of package pokecache: a map
 from string keys to entries holding a byte payload and the time the entry was
 created, together with a fixed interval. Adding a key stores the payload with
 the current time, reading a key returns whatever is stored regardless of its
 age, and a sweep removes every entry that is strictly older than the interval.

 The clock is not read here: every operation that needs the current time takes
 it as a parameter `now`, an integer count of time units (nanoseconds in the
 original). Locking and the background sweeper are not modelled; each method
 is one atomic step.
 */
module PokeCache {

  /** A byte of a payload. */
  newtype Byte = b: int | 0 <= b < 256

  /** An opaque payload; the empty sequence also stands for a nil slice. */
  type Bytes = seq<Byte>

  /** A timestamp or a duration, in the same unit as the interval. */
  type Time = int

  /** One stored value and the instant it was added (`cacheEntry`). */
  datatype Entry = Entry(createdAt: Time, val: Bytes)

  /** The age of an entry at `now`: `now.Sub(createdAt)`. */
  function Age(e: Entry, now: Time): Time
  {
    now - e.createdAt
  }

  /** The sweep's removal rule: strictly older than the interval. */
  predicate Expired(e: Entry, now: Time, interval: Time)
  {
    Age(e, now) > interval
  }

  // ---------------------------------------------------------------------
  // Specification functions over the entry map
  // ---------------------------------------------------------------------

  /** What a lookup of `key` in `m` answers: the payload and a found flag. */
  function Lookup(m: map<string, Entry>, key: string): (r: (Bytes, bool))
    ensures r.1 <==> key in m
    ensures key in m ==> r.0 == m[key].val
    ensures key !in m ==> r.0 == []
  {
    if key in m then (m[key].val, true) else ([], false)
  }

  /** The entry map after storing `val` under `key` at time `now`. */
  function Stored(m: map<string, Entry>, key: string, val: Bytes, now: Time): (r: map<string, Entry>)
    ensures r.Keys == m.Keys + {key}
    ensures r[key] == Entry(now, val)
    ensures forall k :: k in m && k != key ==> r[k] == m[k]
  {
    m[key := Entry(now, val)]
  }

  /** The entry map after a sweep at `now`: exactly the entries that are not expired. */
  function Swept(m: map<string, Entry>, now: Time, interval: Time): (r: map<string, Entry>)
    ensures r.Keys <= m.Keys
    ensures forall k :: k in m ==> (k in r <==> Age(m[k], now) <= interval)
    ensures forall k :: k in r ==> r[k] == m[k]
  {
    map k | k in m && !Expired(m[k], now, interval) :: m[k]
  }

  /** One step of the sweep loop: visit `key` and delete it if it is present and expired. */
  function SweepStep(m: map<string, Entry>, key: string, now: Time, interval: Time): map<string, Entry>
  {
    if key in m && Expired(m[key], now, interval) then m - {key} else m
  }

  /**
   The sweep loop run over keys visited in the order `order`, last key last.
   Go's map iteration order is unspecified, so any order has to be considered.
   */
  function SweepInOrder(m: map<string, Entry>, order: seq<string>, now: Time, interval: Time): map<string, Entry>
    decreases |order|
  {
    if order == [] then m
    else SweepStep(SweepInOrder(m, order[..|order| - 1], now, interval), order[|order| - 1], now, interval)
  }

  // ---------------------------------------------------------------------
  // The cache object
  // ---------------------------------------------------------------------

  /** The cache (`Cache`): the entry map it mutates and its fixed interval. */
  class Cache {
    var entries: map<string, Entry>
    const interval: Time

    /** `NewCache`: an empty map and the given interval (the sweeper goroutine is not modelled). */
    constructor (interval: Time)
      ensures entries == map[]
      ensures this.interval == interval
    {
      entries := map[];
      this.interval := interval;
    }

    /** `Add`: insert or overwrite the entry of `key`, stamped with `now`. */
    method Add(key: string, val: Bytes, now: Time)
      modifies this`entries
      ensures entries == Stored(old(entries), key, val, now)
      ensures entries[key].val == val && entries[key].createdAt == now
      ensures forall k :: k != key ==> (k in entries <==> k in old(entries))
      ensures forall k :: k != key && k in old(entries) ==> entries[k] == old(entries)[k]
    {
      entries := entries[key := Entry(now, val)];
    }

    /** `Get`: the stored payload and true, or an empty payload and false; age is not checked. */
    method Get(key: string) returns (val: Bytes, ok: bool)
      ensures ok <==> key in entries
      ensures ok ==> val == entries[key].val
      ensures !ok ==> val == []
      ensures (val, ok) == Lookup(entries, key)
    {
      if key !in entries {
        return [], false;
      }
      var entry := entries[key];
      return entry.val, true;
    }

    /**
     `reap`: visit every key once, in an arbitrary order, and delete the
     entry when its age at `now` is strictly greater than the interval.
     */
    method Reap(now: Time)
      modifies this`entries
      ensures entries == Swept(old(entries), now, interval)
    {
      ghost var start := entries;
      ghost var visited: seq<string> := [];
      var todo := entries.Keys;
      while todo != {}
        invariant todo <= start.Keys
        invariant forall k :: k in start ==> (k in todo <==> k !in visited)
        invariant forall k :: k in todo ==> k in entries && entries[k] == start[k]
        invariant entries == SweepInOrder(start, visited, now, interval)
        decreases todo
      {
        var key :| key in todo;
        var entry := entries[key];
        if now - entry.createdAt > interval {
          entries := entries - {key};
        }
        todo := todo - {key};
        assert (visited + [key])[..|visited|] == visited;
        visited := visited + [key];
      }
      SweepCoversAll(start, visited, now, interval);
    }
  }

  // ---------------------------------------------------------------------
  // Properties of the specification
  // ---------------------------------------------------------------------

  /**
   The sweep loop, whatever order it visits keys in, removes exactly the
   visited keys whose entries are expired and leaves every other entry as it was.
   */
  lemma {:induction false} SweepInOrderRemoves(m: map<string, Entry>, order: seq<string>, now: Time, interval: Time)
    ensures SweepInOrder(m, order, now, interval).Keys <= m.Keys
    ensures forall k :: k in m ==>
              (k in SweepInOrder(m, order, now, interval) <==> !(k in order && Expired(m[k], now, interval)))
    ensures forall k :: k in SweepInOrder(m, order, now, interval) ==> SweepInOrder(m, order, now, interval)[k] == m[k]
    decreases |order|
  {
    if order != [] {
      var prefix := order[..|order| - 1];
      var last := order[|order| - 1];
      SweepInOrderRemoves(m, prefix, now, interval);
      assert order == prefix + [last];
      forall k | k in m
        ensures k in order <==> k in prefix || k == last
      {
        assert k in order <==> k in prefix + [last];
      }
    }
  }

  /**
   A sweep loop that visits every key of the map ends with exactly the
   unexpired entries, so the unspecified iteration order does not matter.
   */
  lemma SweepCoversAll(m: map<string, Entry>, order: seq<string>, now: Time, interval: Time)
    requires forall k :: k in m ==> k in order
    ensures SweepInOrder(m, order, now, interval) == Swept(m, now, interval)
  {
    SweepInOrderRemoves(m, order, now, interval);
  }

  /** A freshly constructed cache misses on every key. */
  lemma EmptyMisses(key: string)
    ensures Lookup(map[], key) == ([], false)
  {
  }

  /** Reading a key right after adding it yields the added payload. */
  lemma AddThenGet(m: map<string, Entry>, key: string, val: Bytes, now: Time)
    ensures Lookup(Stored(m, key, val, now), key) == (val, true)
  {
  }

  /** A second add under the same key replaces the first one completely. */
  lemma OverwriteReplaces(m: map<string, Entry>, key: string, v1: Bytes, t1: Time, v2: Bytes, t2: Time)
    ensures Stored(Stored(m, key, v1, t1), key, v2, t2) == Stored(m, key, v2, t2)
    ensures Lookup(Stored(Stored(m, key, v1, t1), key, v2, t2), key) == (v2, true)
  {
  }

  /** Adding one key does not change what a lookup of any other key answers. */
  lemma AddIndependent(m: map<string, Entry>, key: string, val: Bytes, now: Time, other: string)
    requires other != key
    ensures Lookup(Stored(m, key, val, now), other) == Lookup(m, other)
  {
  }

  /** A lookup finds a present entry however old it is. */
  lemma GetIgnoresAge(m: map<string, Entry>, key: string, now: Time, interval: Time)
    requires key in m && Expired(m[key], now, interval)
    ensures Lookup(m, key) == (m[key].val, true)
  {
  }

  /**
   The boundary of the sweep rule: an entry exactly `interval` old survives,
   one a time unit older is removed.
   */
  lemma SweepBoundary(m: map<string, Entry>, key: string, now: Time, interval: Time)
    requires key in m
    ensures m[key].createdAt == now - interval ==> Lookup(Swept(m, now, interval), key) == (m[key].val, true)
    ensures m[key].createdAt == now - interval - 1 ==> Lookup(Swept(m, now, interval), key) == ([], false)
  {
  }

  /**
   An entry added at `t0` is still served by a sweep at `now` as long as
   `now - t0 <= interval`, and is gone after a sweep at any later `now`.
   */
  lemma ExpiryAfterAdd(m: map<string, Entry>, key: string, val: Bytes, t0: Time, now: Time, interval: Time)
    ensures now - t0 <= interval ==> Lookup(Swept(Stored(m, key, val, t0), now, interval), key) == (val, true)
    ensures now - t0 > interval ==> Lookup(Swept(Stored(m, key, val, t0), now, interval), key) == ([], false)
  {
  }

  /** A second sweep at a later (or the same) time is the same as sweeping once at that time. */
  lemma SweepTwice(m: map<string, Entry>, t1: Time, t2: Time, interval: Time)
    requires t1 <= t2
    ensures Swept(Swept(m, t1, interval), t2, interval) == Swept(m, t2, interval)
  {
  }

  /** Sweeping twice at the same time changes nothing the second time. */
  lemma SweepIdempotent(m: map<string, Entry>, now: Time, interval: Time)
    ensures Swept(Swept(m, now, interval), now, interval) == Swept(m, now, interval)
  {
    SweepTwice(m, now, now, interval);
  }
}
