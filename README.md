# pokecache in Dafny

This project models the expiring key/value cache of the pokedexcli command-line
Pokédex (`internal/pokecache/cache.go`). The cache maps string keys (request
URLs) to entries. Each entry holds an opaque byte payload and the time it was
created. The cache also keeps a fixed `interval`:

- `Add` stores a payload under a key and stamps it with the current time. It
  overwrites any earlier entry.
- `Get` returns the stored payload and `true`, or an empty payload and
  `false`. It never looks at the entry's age.
- `reap` removes every entry whose age is strictly greater than the
  interval. It is modelled as `Reap(now)`.

`Cache` is a class (`pokecache.dfy`, module `PokeCache`). Its `entries` field
is a `map<string, Entry>` that `Add` and `Reap` reassign, and `interval` is a
`const`. The clock is an explicit `now` parameter: an integer count of time
units (nanoseconds in the original). `Reap` is a loop that visits each key
once, in an order chosen nondeterministically (Go's map iteration order is
unspecified). It deletes the expired entries in place. Its ghost record of
the visit order connects it to `SweepInOrder`. The lemmas `SweepInOrderRemoves`
and `SweepCoversAll` show that every visit order gives the same result, namely
`Swept`, the map of unexpired entries.

## Model

| member | source | states |
|---|---|---|
| PokeCache.Cache.constructor | internal/pokecache/cache.go:19-26 | a new cache has no entries and keeps the interval it was given |
| PokeCache.Cache.Add | internal/pokecache/cache.go:28-35 | the entry of `key` becomes (now, val); every other key keeps its presence or absence and its entry; the interval is a constant |
| PokeCache.Cache.Get | internal/pokecache/cache.go:37-45 | found iff the key is present; on a hit the payload is the stored one, on a miss it is empty (nil); the map is not modified |
| PokeCache.Cache.Reap | internal/pokecache/cache.go:55-64 | after the loop over all keys, the entries are exactly the old entries whose age at `now` is at most the interval, unchanged |
| PokeCache.Lookup | internal/pokecache/cache.go:40-44 | the answer of a lookup: found iff present, the stored payload on a hit, an empty payload on a miss |
| PokeCache.Stored | internal/pokecache/cache.go:31-34 | storing adds the key, gives it the entry (now, val) and leaves every other entry as it was |
| PokeCache.Swept | internal/pokecache/cache.go:59-63 | a sweep never adds keys, keeps a key iff its age is at most the interval, and never alters a surviving entry |
| PokeCache.SweepInOrderRemoves | internal/pokecache/cache.go:59-63 | running the delete-if-expired loop over any visit order removes exactly the visited expired keys and leaves all other entries unchanged |
| PokeCache.SweepCoversAll | internal/pokecache/cache.go:59-63 | a loop that visits every key ends with the unexpired entries, whatever the iteration order |
| PokeCache.EmptyMisses | internal/pokecache/cache.go:21 | a freshly constructed cache answers (nil, false) for every key |
| PokeCache.AddThenGet | internal/pokecache/cache.go:28-45 | after Add(k, v), Get(k) returns (v, true) |
| PokeCache.OverwriteReplaces | internal/pokecache/cache.go:31-34 | a second Add of the same key replaces both the payload and the timestamp; Get yields the later payload |
| PokeCache.AddIndependent | internal/pokecache/cache.go:31-34 | Add(k, v) does not change what Get answers for any other key |
| PokeCache.GetIgnoresAge | internal/pokecache/cache.go:40-44 | an entry still present is returned with true even when it is already past the interval |
| PokeCache.SweepBoundary | internal/pokecache/cache.go:60 | an entry exactly `interval` old survives a sweep (strict comparison); one a unit older is removed |
| PokeCache.ExpiryAfterAdd | internal/pokecache/cache.go:28-35 | an entry added at t0 survives a sweep at now iff now - t0 <= interval |
| PokeCache.SweepTwice | internal/pokecache/cache.go:59-63 | sweeping at t1 and then at a later t2 equals sweeping once at t2 |
| PokeCache.SweepIdempotent | internal/pokecache/cache.go:59-63 | a second sweep at the same `now` changes nothing |

## Left out

- The `reapLoop` goroutine and its `time.Ticker` (cache.go:24, 47-53). They are background scheduling. A sweep is an explicit `Reap(now)` call. So the model does not capture when sweeps happen, or the bound of up to twice the interval on how long a stale entry can be served. It also leaves out that `time.NewTicker` panics in that goroutine when the interval is not positive. The constructor accepts any interval.
- The `sync.Mutex` and its deferred unlocks (cache.go:14, 29-30, 38-39, 56-57). Their only role is mutual exclusion, so each method is modelled as one atomic step.
- The clock `time.Now()` (cache.go:32, 58). It becomes the `now` parameter of `Add` and `Reap`.
- `time.Time` and `time.Duration`. They are unbounded integers. Go's saturation of `Sub` on int64 overflow and the monotonic clock reading are not modelled.
- Payload aliasing. Go stores the caller's slice itself, not a copy, and `Get` returns that same slice. The model stores a value (`seq<Byte>`). It does not capture a caller mutating the payload after `Add` or after `Get`. A nil slice and an empty slice are both the empty sequence.
- `main.go`: the REPL, HTTP fetching, JSON decoding, random catch chance and printing. This is I/O, foreign library calls and randomness. Its use of the cache (a `Get` of the URL, then on a miss a fetch and an `Add` of the body, main.go:130-150) is covered by `AddThenGet`.
