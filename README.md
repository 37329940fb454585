# Delayed queue storage engines, modelled in Dafny

This project models the two storage engines of the delayed queue server:

- the Badger engine (`engine/badger.go`);
- the Bolt engine (`engine/bolt.go`).

A delayed queue holds elements that become visible only once their delay has
passed. `Push(name, element, delay)` stores an element under a key that
holds its ready time in milliseconds: at the start of the key in Bolt, and
after the queue's prefix `base36(id) "."` in Badger. `Pop(name, limit)` walks the
queue in key order and takes the elements whose time has come. It stops at
the first element that is not yet due, or once `limit` is used up.

The Badger engine keeps every queue in one sorted key space:

- A queue name gets a numeric id from a durable counter (`getQueueID`).
- The name is recorded under `"queue_name." decimal(id)` and cached in memory.
- The queue's items live under `base36(id) "." decimal(ms) "." rand4`.
- On reopening (`NewWithBadger`), the registry replay restores only the
  first registry key, and reads its decimal id in base 36 (see Findings).

The Bolt engine gives each queue a bucket named after it, with items under
`decimal(ms) "." rand4`. `ensureBucket` caches the names of buckets it has
created.

Layout:

| file | module | contents |
|---|---|---|
| `bytes.dfy` | `Bytes` | bytes, lexicographic order (`bytes.Compare`), `bytes.IndexByte` |
| `strconv.dfy` | `Strconv` | Go's `FormatUint`, `FormatInt`, `ParseUint`, `ParseInt`, with round trips |
| `keys.dfy` | `Keys` | composed keys, `parseTs`, the ready-time arithmetic |
| `store.dfy` | `Store` | sorted key-value store: `Set`/`Put`, staged deletes, prefix iteration |
| `drain.dfy` | `Drain` | the walk both Pops make: what it takes, and why |
| `badger.dfy` | `BadgerEngine` | `getQueueID`, Push, Pop, Queues, the registry replay, and the `Engine` class |
| `bolt.dfy` | `BoltEngine` | `ensureBucket`, Push, Pop, and the `Engine` class |
| `wrappers.dfy` | `Wrappers` | `Option`, `Result` |

Each engine has two layers:

- Pure functions give the effect of each operation on an abstract state
  (`Resolve`, `PushEffect`, `PopEffect`, `ReplayEffect`, `EnsureEffect`).
  The lemmas are stated about these functions.
- An `Engine` class holds the mutable state that the Go struct and its
  database hold. Its methods follow the Go code step by step, loops
  included. Each method's postcondition says its new state and result equal
  the pure function's.

The outside world is passed in as parameters:

- the clock: `now`, or `clock(j)` for the reading at step `j` of Badger's walk;
- inside the walk loops, the parsed time of the `j`-th key: `time(j)`, which
  the engines' `Pop` methods set to `parseTs` of that key;
- the random id bytes: `rand`;
- every database failure: the `Faults` records.

Throughout, the model follows the code as written.

## Model

| member | source | states |
|---|---|---|
| Bytes.IndexOf | engine/badger.go:54 | the position of the first '.', or the length when there is none; no earlier '.' |
| Strconv.FormatUint | engine/badger.go:76 | at least one digit, every one a digit of the base; a leading zero only for 0 |
| Strconv.ParseUint | engine/badger.go:184 | the value always lies in the uint64 range: 0 after a syntax error, the maximum after overflow; no error exactly when the input is a non-empty run of digits of the base whose value fits in a uint64 |
| Strconv.AccumulateAccepts | engine/badger.go:184 | the digit loop succeeds exactly when every byte is a digit of the base and the value fits in a uint64 |
| Strconv.FormatInt | engine/badger.go:79 | at least one byte, beginning with '-' exactly for a negative number |
| Strconv.ParseInt | engine/badger.go:56 | the value always lies in the int64 range: 0 after a syntax error, a bound of the range after overflow |
| Strconv.AccumulateValue | engine/badger.go:184 | without an error, ParseUint returns exactly the number its digits denote |
| Strconv.ParseFormatUint | engine/badger.go:40 | ParseUint(FormatUint(n, b), b) == n for every uint64 n and base 2..36 |
| Strconv.ParseFormatInt | engine/badger.go:79 | ParseInt(FormatInt(i)) == i for every int64 i (the ready time round trip) |
| Strconv.FormatUintInjective | engine/badger.go:76 | distinct ids get distinct base-36 (or decimal) numerals |
| Strconv.EqualWidthOrder | engine/badger.go:79 | decimal numerals of equal length sort as their numbers do |
| Strconv.PadDecimalOrder | engine/badger.go:79 | zero-padded fixed-width numerals sort as their numbers do |
| Keys.BadgerItemKey | engine/badger.go:76-82 | the key carries the queue's prefix, and after it comes exactly Bolt's key for the same time and random bytes |
| Keys.BoltItemKey | engine/bolt.go:52-56 | the key's first '.' ends the time field, which is FormatInt of the time |
| Keys.RegistryKey | engine/badger.go:40-42 | the key carries "queue_name.", and no further '.' follows |
| Keys.UnixNanos | engine/badger.go:60 | for a non-negative time, at most the intended instant and less than a second before it; for a negative time, between the intended instant and 0 |
| Keys.ReadyMillis | engine/badger.go:78 | now + delay in milliseconds, truncated toward zero: within one millisecond of it, on the same side of 0 |
| Keys.ParseTsOfUnparsable | engine/badger.go:52-61 | a time field that is not a number reads as the epoch; one that overflows reads as a bound of the int64 range |
| Keys.ReadyMillisInRange | engine/badger.go:78 | the millisecond ready time fits in an int64 when now + delay does |
| Keys.ParseTsOfComposed | engine/badger.go:52-61 | parseTs of prefix + FormatInt(ms) + "." + rest is defined and gives the instant of ms |
| Keys.BadgerKeyRoundTrip | engine/badger.go:76-83 | Push's key carries the queue's prefix, and parseTs(len(prefix)) reads back the pushed time |
| Keys.BoltKeyRoundTrip | engine/bolt.go:22-30 | Bolt's parseTs reads back the time Push wrote into the key |
| Keys.ItemPrefixesDisjoint | engine/badger.go:97-99 | no key carries the prefixes of two different queue ids |
| Keys.RegistryKeyNotItem | engine/badger.go:40-42 | no registry key falls in a queue's item range |
| Keys.SameWidthKeysInTimeOrder | engine/badger.go:79 | with non-negative ready times of equal width, key order is time order in both engines |
| Keys.NegativeTimesSortReversed | engine/badger.go:79 | negative times of equal width sort in reverse: the key for -1 ms sorts before the key for -2 ms |
| Keys.WiderTimeSortsFirst | engine/badger.go:79 | the key of an item due at 10000 ms sorts before that of one due at 9999 ms |
| Keys.ReadyWindow | engine/badger.go:60 | an item is visible from now + delay on, and never more than a second before |
| Keys.ReadyBeforeDue | engine/badger.go:60 | an item due at 1.5 s is read back as due at 1 s + 500 ns |
| Keys.IntendedReadyWindow | engine/badger.go:60 | with milliseconds scaled to nanoseconds, visible from now + delay, never a millisecond early |
| Keys.PaddedKeysInTimeOrder | engine/badger.go:79 | with 19-digit zero-padded times, key order is time order for every pair of non-negative int64 times |
| Keys.PaddedKeyRoundTrip | engine/bolt.go:22-30 | parseTs reads a padded time back unchanged |
| Store.Insert | engine/badger.go:83 | txn.Set / Put: the key now maps to the value, all other entries stay, the store stays sorted |
| Store.Remove | engine/badger.go:123 | committing the staged deletes removes exactly the entries with those keys and keeps the order |
| Store.SeekIndex | engine/badger.go:99 | it.Seek(p) lands on the first key not below p |
| Store.PrefixEnd | engine/badger.go:99 | ValidForPrefix(p) holds up to the first key without p |
| Store.ScanIsPrefixRange | engine/badger.go:99 | in a sorted store, a prefix scan visits exactly the entries carrying the prefix, in key order |
| Drain.Taken | engine/badger.go:99-121 | the walk takes at most max(limit, 1) entries and never runs past the last one |
| Drain.TakenReady | engine/badger.go:99-121 | every entry the walk takes was ready at its clock reading; unless the end or the limit stopped the walk, the next entry was not |
| Drain.ReadyRun | engine/badger.go:103-106 | the same for the parsed times of the visited keys: each taken key's time is not after its clock reading, and the key that stopped the walk is after it |
| Drain.TakenAllReady | engine/badger.go:111-120 | when the first max(limit, 1) entries are ready, the walk takes all of them |
| Drain.NoReadyLeftBehind | engine/badger.go:104-106 | with ascending times and one clock reading, no ready entry is left behind unless the limit stopped the walk |
| BadgerEngine.Resolve | engine/badger.go:27-48 | a returned id is the name's cached id; an error leaves the cache and the store unchanged; the counter never goes back and never passes its lease |
| BadgerEngine.RegisterMirrors | engine/badger.go:41-46 | writing the new id's registry key and caching the name under that id keep the registry and the cache in step |
| BadgerEngine.ResolveValid | engine/badger.go:27-48 | getQueueID keeps the store sorted and well-formed, cached ids distinct and below the counter, and the registry in step with the cache |
| BadgerEngine.ResolveCached | engine/badger.go:28-31 | a cached name returns its id and changes nothing |
| BadgerEngine.ResolveFresh | engine/badger.go:36-47 | a new name takes the next id, unused by any other name; it is cached and registered exactly when the write commits, and a failed write still consumes the id |
| BadgerEngine.ResolveSequenceError | engine/badger.go:36-39 | getQueueID fails with the counter's error exactly for an uncached name when the lease is used up and cannot be renewed |
| BadgerEngine.Engine.GetQueueID | engine/badger.go:27-48 | the method's new state and result are those of the getQueueID effect; the store and registry invariants are kept |
| BadgerEngine.PushEffect | engine/badger.go:71-85 | Push caches what getQueueID caches; its only error is a failed commit, which leaves the state getQueueID left |
| BadgerEngine.PushSwallowsResolveError | engine/badger.go:72-75 | when getQueueID fails, Push reports success and stores no item |
| BadgerEngine.PushStoresItem | engine/badger.go:76-84 | a committed Push adds exactly one entry under the queue's prefix; Pop reads its time back; the item is due at now + delay |
| BadgerEngine.PushValid | engine/badger.go:71-85 | Push keeps every store and registry invariant |
| BadgerEngine.Engine.Push | engine/badger.go:71-85 | the method's new state and result are those of the Push effect; the store and registry invariants are kept |
| BadgerEngine.ScanParsable | engine/badger.go:103 | every key in a queue's range can be parsed, so the walk never reaches Go's panic |
| BadgerEngine.Walk | engine/badger.go:97-121 | Pop's walk takes at most max(limit, 1) entries, all from the store and all carrying the queue's prefix |
| BadgerEngine.PopEffect | engine/badger.go:87-125 | at most max(limit, 1) values; an error leaves the state getQueueID left, and only a commit error returns values |
| BadgerEngine.PopQueue | engine/badger.go:93-124 | at most max(limit, 1) values; an error leaves the state unchanged; the cache and the counter are never touched |
| BadgerEngine.WalkIsReadyPrefix | engine/badger.go:99-121 | Pop's walk is a leading run of the queue's range in key order; each entry's time is not after its clock reading; it stops early only at an entry after the clock |
| BadgerEngine.PopFailureDeletesNothing | engine/badger.go:107-124 | a failed Pop deletes nothing; a value or delete error returns nothing; a commit error returns the walked values |
| BadgerEngine.PopRemovesExactlyTaken | engine/badger.go:99-124 | a successful Pop returns the walked values in order, at most max(limit, 1), and removes exactly those entries |
| BadgerEngine.PopIsolation | engine/badger.go:97-99 | Pop keeps every entry outside its own queue's range |
| BadgerEngine.PopValid | engine/badger.go:87-125 | Pop keeps every store and registry invariant |
| BadgerEngine.TakeReady | engine/badger.go:99-121 | the iterator loop returns the values and staged deletes of the walked entries, or reports the first failing item exactly when it falls inside the walk |
| BadgerEngine.Engine.Pop | engine/badger.go:87-125 | the method's new state, values and error are those of the Pop effect; the store and registry invariants are kept |
| BadgerEngine.Engine.PopTxn | engine/badger.go:93-124 | the transaction's new state, values and error are those of the walk and commit over the queue's range |
| BadgerEngine.Engine.Queues | engine/badger.go:136-143 | every cached name exactly once, and no other |
| BadgerEngine.ReplayEffect | engine/badger.go:177-192 | the replay as written restores at most one name |
| BadgerEngine.OpenEffect | engine/badger.go:152-197 | a failed lease fails the open; an opened engine's counter lies inside its lease, and its cache holds at most one name |
| BadgerEngine.ReplayRegistry | engine/badger.go:177-192 | the replay loop's result is that of the replay as written: the first registry key only, its id read in base 36 |
| BadgerEngine.Engine.Open | engine/badger.go:152-197 | opening fails exactly when the first lease or the replay fails; otherwise the engine holds the store, the counter's lease and the replayed cache |
| BadgerEngine.SegmentOfRegistryKey | engine/badger.go:183 | the second '.'-segment of a registry key is the decimal numeral of its id |
| BadgerEngine.DecimalReadInBase36 | engine/badger.go:184 | reading a decimal id in base 36 gives back the id, without error, exactly when it is below 10 |
| BadgerEngine.ReplayReadsIdCorrectlyIffBelowTen | engine/badger.go:177-192 | when the first registry key is that of id a for name n, the replay restores n at a, with no parse error, exactly when a < 10 |
| BadgerEngine.RegistryIdReadInBase36 | engine/badger.go:183-184 | reading a registry key's decimal id in base 36 gives back that id, with no error, exactly when it is below 10 |
| BadgerEngine.ReplayOfFirst | engine/badger.go:177-192 | the replay's result is the first registry key's value mapped to its second segment read in base 36, with a parse error exactly when that read fails |
| BadgerEngine.ReplayedIdMissesItems | engine/badger.go:152-197 | when the first registry key is that of id 10, the replay restores the name at 36 without error, opening succeeds with that cache, and item prefix 36 is not that of the queue's items |
| BadgerEngine.ReplayRestoresAtMostOne | engine/badger.go:181-190 | the replay restores at most one name, so any registry of two or more queues is not restored |
| BadgerEngine.ReplayFixedRestoresCache | engine/badger.go:177-192 | the intended replay (all registry keys, base 10) rebuilds exactly the cache that the registry mirrors |
| BoltEngine.EnsureEffect | engine/bolt.go:32-43 | nil bucket exactly for a cached name without a bucket; refusal exactly for an uncached empty name; otherwise a live bucket and the name cached; at most one empty bucket added |
| BoltEngine.SoundCacheNeverNil | engine/bolt.go:34-36 | while every cached name has its bucket, ensureBucket never yields nil |
| BoltEngine.Engine.constructor | engine/bolt.go:109-116 | a new engine holds the given buckets and an empty cache |
| BoltEngine.Engine.EnsureBucket | engine/bolt.go:32-43 | the method's transaction, cache and handle are those of the ensureBucket effect |
| BoltEngine.PushEffect | engine/bolt.go:46-59 | the cache is what ensureBucket left, even after a rollback; any outcome but success leaves the buckets as before; a committed Push leaves the queue's bucket non-empty |
| BoltEngine.PushOutcome | engine/bolt.go:46-59 | Push ends normally exactly when the bucket is usable, the value fits and the commit succeeds; it panics exactly on a cached name without a bucket; otherwise the buckets are unchanged |
| BoltEngine.PushStoresItem | engine/bolt.go:52-57 | a committed Push puts exactly one entry into the queue's bucket and leaves other buckets alone; its time reads back; the item is due at now + delay |
| BoltEngine.PushValid | engine/bolt.go:46-59 | Push keeps every bucket sorted and parsable; a committed Push keeps the cache sound |
| BoltEngine.Engine.Push | engine/bolt.go:46-59 | the method's new state and outcome are those of the Push effect |
| BoltEngine.PopEffect | engine/bolt.go:61-90 | at most `limit` values; the cache is what ensureBucket left (untouched for a limit of 0); any outcome but success leaves the buckets as before; a successful Pop with a positive limit leaves the queue's bucket in place |
| BoltEngine.PopLimitZero | engine/bolt.go:62-65 | a limit of 0 returns nothing and changes nothing |
| BoltEngine.PopTakesReadyPrefix | engine/bolt.go:66-89 | a successful Pop takes at most `limit` leading entries of the bucket, each not after `now`; it stops early only at one after `now`; the rest of the bucket remains; other buckets are untouched |
| BoltEngine.PopFailureRollsBack | engine/bolt.go:73-89 | a failed Pop leaves the buckets unchanged; a failed delete still returns the values up to and including the failing item, all still stored |
| BoltEngine.PopCachesNewQueue | engine/bolt.go:38-41 | a Pop with a positive limit on a new, non-empty name caches it however the Pop ends, a rollback included; the bucket exists afterwards exactly when the Pop succeeded or it existed before |
| BoltEngine.PopValid | engine/bolt.go:61-90 | Pop keeps every bucket valid; a successful Pop keeps the cache sound |
| BoltEngine.CursorWalk | engine/bolt.go:72-86 | the cursor loop returns the walked values and leaves the rest of the bucket, or reports the first failing delete exactly when it falls inside the walk, with the values appended up to it |
| BoltEngine.BucketParsable | engine/bolt.go:74 | every key of a valid bucket can be parsed, so the cursor loop never reaches Go's panic |
| BoltEngine.Engine.Pop | engine/bolt.go:61-90 | the method's new state, values and outcome are those of the Pop effect |
| BoltEngine.StaleCacheAfterRollback | engine/bolt.go:38-41 | when the transaction creating a bucket rolls back, the name stays cached without its bucket, and every later Push or Pop on it panics |
| BoltEngine.FixedNeverNil | engine/bolt.go:32-43 | the intended ensureBucket never yields a nil bucket |
| BoltEngine.FixedAgreesWhenSound | engine/bolt.go:32-43 | while the cache is sound, the intended ensureBucket behaves exactly as the written one |
| BoltEngine.DueItemHiddenBehindLaterOne | engine/bolt.go:73-77 | when a not-yet-due item sorts before a due one, Pop returns nothing though an item is due |
| BoltEngine.HiddenDueItemExample | engine/bolt.go:73-77 | with items due 10000 ms and 9999 ms after the epoch, a Pop at 9.5 s returns nothing though the second is due |

## Left out

- Opening and closing the databases (`badger.Open`, `bolt.Open`, `Close`) are not modelled. Neither is the value-log GC goroutine. An engine starts from given contents.
- The `Len` and `Del` stubs of both engines, and Bolt's `Queues` stub, are not modelled. They only panic with "not implemented".
- `engine/engine.go` is not part of this model. It holds only the interface.
- `server/main.go` is not part of this model. It is the server's entry point.
- Concurrency is not modelled: `sync.Map`, concurrent calls, and Badger's MVCC conflicts. Each call runs alone.
- The clock, the random id bytes and logging are outside the model. `now`, `clock` and `rand` are parameters, and the "Invalid key" message is not modelled.
- Database failures are not derived from the database's internals. They are fault parameters: the counter's lease, the registry write, an item's value read or delete, a cursor delete, and a commit.
- The counter's own key `queue_id` is not stored among the entries. The counter is the pair of fields `next` and `leased`.
- The bbolt cursor's positioning after `Delete` is not modelled. The walk takes the next key in order to be the one `Next` visits.
- Bolt's `Put` checks on key size are not modelled; only the value-size check is. The random part `rand` of an item key (`BadgerItemKey`, `BoltItemKey`) is left unconstrained in the model, although genID (engine/badger.go:63-68) always makes it 4 bytes long, so no bound on key length is stated.
- Size limits on Badger's `txn.Set` are not modelled.
- A negative `limit`, which panics in `make`, is not modelled: `limit` is a `nat`.
- `now + delay` overflowing an int64 is not modelled. The lemmas about Push assume that it fits.
- Keys.ParseTs: Go panics on a key without a '.' after the prefix. The function is total and reads the rest of the key instead. The stores' invariants (`StoreValid`, `Valid`) keep such keys out of every walk (`ScanParsable`, `BucketParsable`). What ParseTs computes is stated by `ParseTsOfComposed` and `ParseTsOfUnparsable`. The walk loops read the times through their `time` parameter.
- BadgerEngine.ReplayRegistry: the source's loop returns in its first iteration, so it is modelled as an `if` rather than a loop.
- BoltEngine.Engine.Pop: the values appended at engine/bolt.go:78 point into bbolt's pages and are valid only while the transaction is open. The model returns them as values, so a caller reading them after the transaction ends is not modelled.
- Keys.PaddedItemKey: the corrected fixed-width key covers non-negative times only. A ready time before 1970 would need a sign-aware encoding, which is not modelled.
- The engine classes model the code as written. The corrected members named under Findings stand beside them and are not wired into the classes.

## Findings

| source | as written | input that shows it | evidently intended | confidence | as-written member | corrected member |
|---|---|---|---|---|---|---|
| engine/badger.go:183-184 | the registry replay reads a decimal id in base 36, and its loop returns after the first registry key | a registry holding ids 0 and 10: only one name is restored, and id 10 would come back as 36 | every registry key is replayed, and each id is read in base 10 | high; not executed | BadgerEngine.ReplayRestoresAtMostOne | BadgerEngine.ReplayFixedRestoresCache |
| engine/badger.go:60 | time.Unix(ms/1000, ms%1000) reads the leftover milliseconds as nanoseconds | Push with delay 1.5 s at time 0: Pop sees it as due at 1 s + 500 ns | time.Unix(ms/1000, (ms%1000)*1e6), so an item is never visible before its delay | high; not executed | Keys.ReadyBeforeDue | Keys.IntendedReadyWindow |
| engine/bolt.go:52-53 | the ready time is written in variable-width decimal, so key order is not time order | items due 10000 ms and 9999 ms after the epoch in one queue: the key "10000." sorts before "9999.", so a Pop at 9.5 s returns nothing although the second item is due. With a real clock (after 2001-09-09, and before 2262 where UnixNano overflows) and a non-negative delay every ready time has 13 digits, so the defect needs a negative delay reaching back before 2001-09-09 | fixed-width times, so the walk meets due items first | medium; not executed | BoltEngine.HiddenDueItemExample | Keys.PaddedKeysInTimeOrder |
| engine/bolt.go:38-41 | ensureBucket caches the name before the transaction commits, and a rollback does not remove it | Push of a value over 2^31 - 2 bytes to a new queue, then any Push or Pop on that queue | cache the name only once the bucket exists, or recreate a missing bucket | high; not executed | BoltEngine.StaleCacheAfterRollback | BoltEngine.FixedNeverNil |
