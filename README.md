# SimpleAgedCache in Dafny

A model of `io.collective.SimpleAgedCache`, an in-memory key/value store in
which every entry carries its own absolute expiry instant. `put` stores a
value together with `now + retention`; `get` returns the value only while the
entry is live and otherwise drops the key; `size` and `isEmpty` first sweep
every expired entry out of the map (`cleanUp`) and then report on what is
left. An entry is expired exactly when the clock reads strictly after its
expiry instant, so an entry is still live at the instant it expires.

Layout:

- `Wrappers.dfy`: `Option`, standing for Java's `null`-or-value result of `get`.
- `AgedCache.dfy`, module `AgedCache`:
  - `Entry` and `IsExpired` model the inner class `CacheEntry`.
  - `NewEntry`, `AfterPut`, `Lookup`, `AfterGet`, `Live`, `ExpiredKeys` and
    `JavaSize` give each operation's result and new map as a function of
    the old map and the clock reading.
  - The lemmas state the cache's promises in terms of those functions.
  - The class `SimpleAgedCache` holds the `cache` map as a field. Its methods
    update that field in place, as the Java methods do. `CleanUp` is a loop
    that visits every key once. Each method is proved against the functions
    above.

The clock is read once per operation. That reading is the integer parameter
`now`, in milliseconds. The retention argument is a Java `int`, modelled by
the newtype `Int32`. `size()` returns `ConcurrentHashMap.size()`, which is
capped at `Integer.MAX_VALUE`; `JavaSize` models that cap.

Two consequences of the strict boundary:

- `cleanUp` reuses `isExpired`, which uses a strict `isAfter`, so an entry
  whose expiry equals `now` survives the sweep (`Live`, `ExpiryBoundary`).
- `put(k, v, 0)` can still be read at the instant of insertion
  (`PutThenGet`). Only a negative retention gives an entry that is already
  expired.

## Model

| member | source | states |
|---|---|---|
| AgedCache.ExpiryBoundary | src/main/java/io/collective/SimpleAgedCache.java:77-91 | for an `Entry` (CacheEntry), `IsExpired` (isExpired) holds not when the clock equals the expiry, but one millisecond later |
| AgedCache.NewEntry | src/main/java/io/collective/SimpleAgedCache.java:29 | the new entry holds the value and is expired at time t exactly when t is after now + retention; it is already expired at insertion iff the retention is negative |
| AgedCache.AfterPut | src/main/java/io/collective/SimpleAgedCache.java:27-32 | put adds the key if it was missing, gives it the new entry, and every other key keeps its entry |
| AgedCache.Live | src/main/java/io/collective/SimpleAgedCache.java:64-74 | the swept map adds no key, holds no expired entry, and keeps every live entry with the same value and expiry |
| AgedCache.ExpiredKeys | src/main/java/io/collective/SimpleAgedCache.java:70-71 | the keys the sweep removes are exactly the keys whose entries are expired, and none of them survives the sweep |
| AgedCache.Lookup | src/main/java/io/collective/SimpleAgedCache.java:35-46 | get returns a value exactly when the key is in the live view, and that value is the stored one |
| AgedCache.AfterGet | src/main/java/io/collective/SimpleAgedCache.java:35-47 | a hit leaves the map unchanged, a miss removes exactly the key, and either way the live view is unchanged |
| AgedCache.JavaSize | src/main/java/io/collective/SimpleAgedCache.java:60 | the reported size is the entry count, or Integer.MAX_VALUE when the count is larger |
| AgedCache.PutThenGet | src/main/java/io/collective/SimpleAgedCache.java:27-31 | a get at the instant of the put returns the value iff the retention is not negative (retention 0 still reads the value) |
| AgedCache.RetentionWindow | src/main/java/io/collective/SimpleAgedCache.java:29 | with retention t from t0, the value is readable at t0 + t and gone at t0 + t + 1 |
| AgedCache.PutOverwrites | src/main/java/io/collective/SimpleAgedCache.java:31 | a second put on the key discards the first entry's value and timing entirely |
| AgedCache.OtherKeysIndependent | src/main/java/io/collective/SimpleAgedCache.java:27-47 | put and get on one key never change what another key reads, at any later time |
| AgedCache.PutLiveView | src/main/java/io/collective/SimpleAgedCache.java:27-32 | at the instant of the put, the live view gains the new entry if the retention is not negative and loses the key otherwise |
| AgedCache.CleanUpIdempotent | src/main/java/io/collective/SimpleAgedCache.java:64-74 | a second sweep at the same instant changes nothing |
| AgedCache.CleanUpLater | src/main/java/io/collective/SimpleAgedCache.java:64-74 | a sweep followed by a sweep at a later instant equals the later sweep alone |
| AgedCache.CleanUpCount | src/main/java/io/collective/SimpleAgedCache.java:64-74 | the entries left plus the entries removed make up the old entry count |
| AgedCache.CleanUpKeepsAllIff | src/main/java/io/collective/SimpleAgedCache.java:64-74 | the sweep keeps the entry count iff no entry has expired |
| AgedCache.LiveEmptyIff | src/main/java/io/collective/SimpleAgedCache.java:50-54 | the swept map is empty iff every entry has expired |
| AgedCache.SimpleAgedCache.constructor | src/main/java/io/collective/SimpleAgedCache.java:12-19 | a new cache holds no entries |
| AgedCache.SimpleAgedCache.Put | src/main/java/io/collective/SimpleAgedCache.java:27-32 | the map field becomes the map after put |
| AgedCache.SimpleAgedCache.Get | src/main/java/io/collective/SimpleAgedCache.java:35-47 | returns the lookup result and leaves the map after get: unchanged on a hit, minus the key on a miss |
| AgedCache.SimpleAgedCache.IsEmpty | src/main/java/io/collective/SimpleAgedCache.java:50-54 | leaves the swept map and returns true iff every entry had expired |
| AgedCache.SimpleAgedCache.Size | src/main/java/io/collective/SimpleAgedCache.java:57-61 | leaves the swept map, whose count is the old count minus the expired entries, and returns that count capped at Integer.MAX_VALUE |
| AgedCache.SimpleAgedCache.CleanUp | src/main/java/io/collective/SimpleAgedCache.java:64-74 | the loop over the keys leaves exactly the live entries of the old map |

## Left out

- Concurrency: the `ConcurrentHashMap`'s thread safety and the weakly consistent iterator of the sweep. The cache is modelled sequentially, one operation at a time.
- The real clock: `Clock.systemDefaultZone()` and the `Clock` field. Each operation takes its single clock reading as the parameter `now`; time does not advance during a sweep.
- Sub-millisecond `Instant` precision, and the `DateTimeException`/`ArithmeticException` that `plusMillis` throws when the instant overflows. Instants are unbounded integers.
- Java object equality and hashing, and the `NullPointerException` on a `null` key: keys are a generic type with equality.
- Stored `null` values, which the code cannot tell apart from a miss: `get` returns an `Option`.
- The order in which the sweep visits the keys: it picks any unvisited key, which covers every iteration order.
