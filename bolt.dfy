/** The Bolt engine: each queue is a bucket named after it, holding the
    queue's items under  decimal(ms) "." rand4 . The names of the buckets
    already ensured are cached in memory, and that cache is not rolled back
    with a failed transaction. */
module BoltEngine {
  import opened Bytes
  import opened Wrappers
  import opened Strconv
  import opened Keys
  import opened Store
  import opened Drain

  /** bbolt's MaxValueSize: the largest value Put accepts, 2^31 - 2 bytes. */
  const MaxValueSize: nat := 0x7FFF_FFFE

  datatype Error =
    | BucketNameRequired  // CreateBucketIfNotExists with an empty name
    | ValueTooLarge       // Put with a value above MaxValueSize
    | DeleteError         // Cursor.Delete refused
    | CommitError         // the update transaction could not commit

  /** How a call ends: normally, with an error (its transaction rolled
      back), or in a panic (a method called on a nil bucket). */
  datatype Outcome = Done | Failed(error: Error) | Panicked

  /** The failures the database may produce during one call; the caller
      decides them. deleteFailsAt is the position, in Pop's walk, of the
      first item whose Cursor.Delete fails. */
  datatype Faults = Faults(deleteFailsAt: Option<nat>, commitOk: bool)

  /** The committed buckets, by name, and the in-memory set of names that
      ensureBucket has seen created. */
  datatype State = State(buckets: map<Bytes, seq<Entry>>, cache: set<Bytes>)

  /** A bucket as the queue code relies on it: sorted, and every key holds
      the '.' that parseTs looks for. */
  predicate BucketValid(b: seq<Entry>)
  {
    Sorted(b) && forall e :: e in b ==> Dot in e.key
  }

  predicate Valid(s: State)
  {
    forall n :: n in s.buckets ==> BucketValid(s.buckets[n])
  }

  /** What the cache is meant to record: every cached name has its bucket. */
  predicate CacheSound(s: State)
  {
    s.cache <= s.buckets.Keys
  }

  /** The bucket of a queue as Pop sees it once the bucket is ensured. */
  function BucketOf(s: State, name: Bytes): seq<Entry>
  {
    if name in s.buckets then s.buckets[name] else []
  }

  /** ensureBucket yields a bucket to write to: a cached name whose bucket
      exists, or a non-empty name it may create. */
  predicate Usable(s: State, name: Bytes)
  {
    if name in s.cache then name in s.buckets else |name| > 0
  }

  /** What ensureBucket hands to the rest of the transaction. */
  datatype Handle = Live | Nil | Refused(error: Error)

  /** The transaction's buckets, the cache and the handle after ensureBucket. */
  datatype Ensured = Ensured(tx: map<Bytes, seq<Entry>>, cache: set<Bytes>, handle: Handle)

  /** ensureBucket inside a transaction over `tx`: a cached name is looked up
      with tx.Bucket, which yields nil when the bucket is not there; any
      other name goes to CreateBucketIfNotExists, which refuses the empty
      name and otherwise creates the bucket if needed, and the name is
      cached at once, before the transaction commits. */
  function EnsureEffect(tx: map<Bytes, seq<Entry>>, cache: set<Bytes>, name: Bytes): (r: Ensured)
    ensures r.handle == Nil <==> name in cache && name !in tx
    ensures r.handle.Refused? <==> name !in cache && |name| == 0
    ensures r.handle.Refused? ==> r.handle.error == BucketNameRequired
    ensures r.handle == Live ==> name in r.tx && r.cache == cache + {name}
    ensures r.handle != Live ==> r.cache == cache && r.tx == tx
    ensures forall n :: n in tx ==> n in r.tx && r.tx[n] == tx[n]
    ensures forall n :: n in r.tx && n !in tx ==> n == name && r.tx[n] == []
  {
    if name in cache then Ensured(tx, cache, if name in tx then Live else Nil)
    else if |name| == 0 then Ensured(tx, cache, Refused(BucketNameRequired))
    else Ensured(if name in tx then tx else tx[name := []], cache + {name}, Live)
  }

  /** Push: ensure the bucket, then Put the element under the composed key,
      all in one update transaction. An error rolls the buckets back, but
      not the cache. */
  function PushEffect(s: State, name: Bytes, element: Bytes, delay: int, now: int, rand: Bytes, f: Faults): (r: (State, Outcome))
    requires Valid(s)
    ensures r.0.cache == EnsureEffect(s.buckets, s.cache, name).cache
    ensures r.1 != Done ==> r.0.buckets == s.buckets
    ensures r.1 == Done ==> name in r.0.buckets && |r.0.buckets[name]| > 0
  {
    var r := EnsureEffect(s.buckets, s.cache, name);
    EnsureKeepsValid(s, name);
    var rolledBack := State(s.buckets, r.cache);
    match r.handle
    case Refused(e) => (rolledBack, Failed(e))
    case Nil => (rolledBack, Panicked)
    case Live =>
      if |element| > MaxValueSize then (rolledBack, Failed(ValueTooLarge))
      else if !f.commitOk then (rolledBack, Failed(CommitError))
      else
        var k := BoltItemKey(ReadyMillis(now, delay), rand);
        (State(r.tx[name := Insert(r.tx[name], k, element)], r.cache), Done)
  }

  /** What Pop hands back: the new state, the values, and how it ended. */
  datatype PopResult = PopResult(state: State, items: seq<Bytes>, outcome: Outcome)

  /** Pop: a limit of 0 returns at once, without a transaction. Otherwise
      ensure the bucket and walk it from its first key with one clock
      reading `now`, appending each value before deleting its entry. A
      failed delete rolls the transaction back but returns the values
      appended so far, the failing one included; a failed commit returns
      all the walked values; otherwise the walked entries are gone. */
  function PopEffect(s: State, name: Bytes, limit: nat, now: int, f: Faults): (r: PopResult)
    requires Valid(s)
    ensures |r.items| <= limit
    ensures r.state.cache == if limit == 0 then s.cache else EnsureEffect(s.buckets, s.cache, name).cache
    ensures r.outcome != Done ==> r.state.buckets == s.buckets
    ensures r.outcome == Done && limit > 0 ==> name in r.state.buckets
  {
    if limit == 0 then PopResult(s, [], Done)
    else
      var r := EnsureEffect(s.buckets, s.cache, name);
      var rolledBack := State(s.buckets, r.cache);
      match r.handle
      case Refused(e) => PopResult(rolledBack, [], Failed(e))
      case Nil => PopResult(rolledBack, [], Panicked)
      case Live =>
        var w := r.tx[name];
        var n := Taken(Times(w, 0), Constant(now), limit, 0);
        if f.deleteFailsAt.Some? && f.deleteFailsAt.value < n then
          PopResult(rolledBack, Values(w[..f.deleteFailsAt.value + 1]), Failed(DeleteError))
        else if !f.commitOk then PopResult(rolledBack, Values(w[..n]), Failed(CommitError))
        else PopResult(State(r.tx[name := w[n..]], r.cache), Values(w[..n]), Done)
  }

  /** ensureBucket as evidently intended: a cached name whose bucket is
      missing (its creation was rolled back) is created again. */
  function EnsureFixedEffect(tx: map<Bytes, seq<Entry>>, cache: set<Bytes>, name: Bytes): Ensured
  {
    if name in cache && name in tx then Ensured(tx, cache, Live)
    else if |name| == 0 then Ensured(tx, cache, Refused(BucketNameRequired))
    else Ensured(if name in tx then tx else tx[name := []], cache + {name}, Live)
  }

  // ---------------------------------------------------------------------
  // ensureBucket

  /** While the cache is sound, ensureBucket never yields a nil bucket. */
  lemma SoundCacheNeverNil(s: State, name: Bytes)
    requires CacheSound(s)
    ensures EnsureEffect(s.buckets, s.cache, name).handle != Nil
  {
  }

  /** The buckets ensureBucket leaves in the transaction stay valid. */
  lemma EnsureKeepsValid(s: State, name: Bytes)
    requires Valid(s)
    ensures var r := EnsureEffect(s.buckets, s.cache, name);
      forall n :: n in r.tx ==> BucketValid(r.tx[n])
  {
  }

  // ---------------------------------------------------------------------
  // Push

  /** Push ends normally exactly when the bucket is usable, the value fits
      and the commit succeeds; it panics exactly on a cached name without a
      bucket; whenever it does not end normally the buckets are as before. */
  lemma PushOutcome(s: State, name: Bytes, element: Bytes, delay: int, now: int, rand: Bytes, f: Faults)
    requires Valid(s)
    ensures var (s2, out) := PushEffect(s, name, element, delay, now, rand, f);
      && (out == Panicked <==> name in s.cache && name !in s.buckets)
      && (out == Failed(BucketNameRequired) <==> name !in s.cache && |name| == 0)
      && (out == Failed(ValueTooLarge) <==> Usable(s, name) && |element| > MaxValueSize)
      && (out == Failed(CommitError) <==> Usable(s, name) && |element| <= MaxValueSize && !f.commitOk)
      && (out == Done <==> Usable(s, name) && |element| <= MaxValueSize && f.commitOk)
      && (out != Done ==> s2.buckets == s.buckets)
  {
  }

  /** A committed Push puts exactly one entry into the queue's bucket
      (replacing one with the same key) and leaves every other bucket
      alone; Pop reads the ready time back from its key, the item is due at
      now + delay, and it never shows more than a second early. */
  lemma PushStoresItem(s: State, name: Bytes, element: Bytes, delay: int, now: int, rand: Bytes, f: Faults, t: int)
    requires Valid(s) && MinInt64 <= now + delay <= MaxInt64
    requires PushEffect(s, name, element, delay, now, rand, f).1 == Done
    ensures var s2 := PushEffect(s, name, element, delay, now, rand, f).0;
      var k := BoltItemKey(ReadyMillis(now, delay), rand);
      && s2.buckets.Keys == s.buckets.Keys + {name}
      && (forall n :: n in s.buckets && n != name ==> s2.buckets[n] == s.buckets[n])
      && (forall e :: e in s2.buckets[name] <==> (e in BucketOf(s, name) && e.key != k) || e == Entry(k, element))
      && ParseTs(k, 0) == UnixNanos(ReadyMillis(now, delay))
      && (0 <= now + delay <= t ==> ParseTs(k, 0) <= t)
      && (0 <= now + delay && ParseTs(k, 0) <= t ==> now + delay - 1_000_000_000 < t)
  {
    var r := EnsureEffect(s.buckets, s.cache, name);
    var k := BoltItemKey(ReadyMillis(now, delay), rand);
    CommittedPush(s, name, element, delay, now, rand, f);
    assert r.tx[name] == BucketOf(s, name);
    ReadyMillisInRange(now, delay);
    BoltKeyRoundTrip(ReadyMillis(now, delay), rand);
    if 0 <= now + delay {
      ReadyWindow(now, delay, t);
    }
  }

  /** The state a committed Push leaves: the transaction's buckets with the
      item put into the queue's bucket. */
  lemma CommittedPush(s: State, name: Bytes, element: Bytes, delay: int, now: int, rand: Bytes, f: Faults)
    requires Valid(s)
    requires PushEffect(s, name, element, delay, now, rand, f).1 == Done
    ensures var r := EnsureEffect(s.buckets, s.cache, name);
      && r.handle == Live && name in r.tx && Sorted(r.tx[name])
      && PushEffect(s, name, element, delay, now, rand, f).0 ==
           State(r.tx[name := Insert(r.tx[name], BoltItemKey(ReadyMillis(now, delay), rand), element)], r.cache)
  {
    EnsureKeepsValid(s, name);
  }

  lemma PushValid(s: State, name: Bytes, element: Bytes, delay: int, now: int, rand: Bytes, f: Faults)
    requires Valid(s) && MinInt64 <= now + delay <= MaxInt64
    ensures var r := PushEffect(s, name, element, delay, now, rand, f);
      && Valid(r.0)
      && (CacheSound(s) && r.1 == Done ==> CacheSound(r.0))
  {
    EnsureKeepsValid(s, name);
    var e := EnsureEffect(s.buckets, s.cache, name);
    if e.handle == Live && |element| <= MaxValueSize && f.commitOk {
      var ms := ReadyMillis(now, delay);
      ReadyMillisInRange(now, delay);
      BoltKeyRoundTrip(ms, rand);
      InsertKeepsBucketValid(e.tx[name], BoltItemKey(ms, rand), element);
    }
  }

  lemma InsertKeepsBucketValid(b: seq<Entry>, k: Bytes, v: Bytes)
    requires BucketValid(b) && TsDefined(k, 0)
    ensures BucketValid(Insert(b, k, v))
  {
    assert k[0..] == k;
    forall e | e in Insert(b, k, v) ensures Dot in e.key {
      if e != Entry(k, v) {
        assert e in b;
      }
    }
  }

  // ---------------------------------------------------------------------
  // Pop

  /** A limit of 0 returns nothing and touches nothing. */
  lemma PopLimitZero(s: State, name: Bytes, now: int, f: Faults)
    requires Valid(s)
    ensures PopEffect(s, name, 0, now, f) == PopResult(s, [], Done)
  {
  }

  /** A Pop that ends normally takes a leading run of the queue's bucket, in
      key order: at most `limit` entries, each with a time not after `now`,
      stopping early only at an entry whose time is after `now`. Those
      entries, and no others, are gone from the bucket; the values come back
      in the same order; other buckets are untouched. */
  lemma PopTakesReadyPrefix(s: State, name: Bytes, limit: nat, now: int, f: Faults)
    requires Valid(s)
    requires PopEffect(s, name, limit, now, f).outcome == Done
    ensures var r := PopEffect(s, name, limit, now, f);
      var w := BucketOf(s, name);
      var n := |r.items|;
      && n <= limit && n <= |w|
      && r.items == Values(w[..n])
      && (forall j :: 0 <= j < n ==> ParseTs(w[j].key, 0) <= now)
      && (n < limit && n < |w| ==> now < ParseTs(w[n].key, 0))
      && (limit > 0 ==> r.state.buckets == s.buckets[name := w[n..]])
  {
    if limit > 0 {
      var r := EnsureEffect(s.buckets, s.cache, name);
      var w := BucketOf(s, name);
      assert r.handle == Live && r.tx[name] == w && r.tx == s.buckets[name := w];
      var n := Taken(Times(w, 0), Constant(now), limit, 0);
      ReadyRun(w, 0, limit, Constant(now));
      assert PopEffect(s, name, limit, now, f) == PopResult(State(r.tx[name := w[n..]], r.cache), Values(w[..n]), Done);
    }
  }

  /** A Pop that fails or panics leaves every bucket as it was. A failed
      delete still returns values: those of the walked entries up to and
      including the one whose delete failed, all of which stay stored. */
  lemma PopFailureRollsBack(s: State, name: Bytes, limit: nat, now: int, f: Faults)
    requires Valid(s)
    ensures var r := PopEffect(s, name, limit, now, f);
      var w := BucketOf(s, name);
      && (r.outcome != Done ==> r.state.buckets == s.buckets)
      && (r.outcome == Failed(DeleteError) ==>
            && f.deleteFailsAt.Some?
            && |r.items| == f.deleteFailsAt.value + 1 <= limit
            && r.items == Values(w[..|r.items|])
            && forall j :: 0 <= j < |r.items| ==> w[j] in r.state.buckets[name])
      && (r.outcome == Failed(CommitError) ==> r.items == Values(w[..|r.items|]))
  {
    var r := PopEffect(s, name, limit, now, f);
    if r.outcome == Failed(DeleteError) {
      var w := BucketOf(s, name);
      assert |w| > 0;
      forall j | 0 <= j < |r.items| ensures w[j] in r.state.buckets[name] {
        assert w[j] in w;
      }
    }
  }

  /** A Pop with a positive limit caches a new, non-empty name however it
      ends, a rolled-back walk included; the bucket is there afterwards only
      if the Pop ended normally or it was there before. */
  lemma PopCachesNewQueue(s: State, name: Bytes, limit: nat, now: int, f: Faults)
    requires Valid(s) && limit > 0 && name !in s.cache && |name| > 0
    ensures var r := PopEffect(s, name, limit, now, f);
      && r.state.cache == s.cache + {name}
      && (name in r.state.buckets <==> r.outcome == Done || name in s.buckets)
  {
  }

  /** Pop keeps every bucket valid, and one that ends normally keeps the
      cache sound. */
  lemma PopValid(s: State, name: Bytes, limit: nat, now: int, f: Faults)
    requires Valid(s)
    ensures var r := PopEffect(s, name, limit, now, f);
      && Valid(r.state)
      && (CacheSound(s) && r.outcome == Done ==> CacheSound(r.state))
  {
    EnsureKeepsValid(s, name);
    var e := EnsureEffect(s.buckets, s.cache, name);
    if limit > 0 && e.handle == Live {
      var w := e.tx[name];
      var n := Taken(Times(w, 0), Constant(now), limit, 0);
      SuffixValid(w, n);
      assert Valid(State(e.tx[name := w[n..]], e.cache));
    }
  }

  lemma SuffixValid(b: seq<Entry>, n: nat)
    requires BucketValid(b) && n <= |b|
    ensures BucketValid(b[n..])
  {
    forall x | x in b[n..] ensures Dot in x.key {
      assert x in b;
    }
  }

  // ---------------------------------------------------------------------
  // The cache outlives a rolled-back bucket

  /** As written: when the transaction that created a queue's bucket rolls
      back (an oversized value, a failed commit), the name stays cached
      without its bucket, and from then on every Push and every Pop with a
      positive limit on that queue panics. */
  lemma StaleCacheAfterRollback(s: State, name: Bytes, element: Bytes, delay: int, now: int, rand: Bytes, f: Faults,
                                element2: Bytes, delay2: int, now2: int, rand2: Bytes, f2: Faults, limit2: nat)
    requires Valid(s) && name !in s.cache && name !in s.buckets && |name| > 0
    requires |element| > MaxValueSize || !f.commitOk
    requires limit2 > 0
    ensures var (s2, out) := PushEffect(s, name, element, delay, now, rand, f);
      && out.Failed?
      && name in s2.cache && name !in s2.buckets
      && !CacheSound(s2)
      && PushEffect(s2, name, element2, delay2, now2, rand2, f2).1 == Panicked
      && PopEffect(s2, name, limit2, now2, f2).outcome == Panicked
  {
    PushValid(s, name, element, 0, 0, rand, f);
  }

  /** The intended ensureBucket never yields a nil bucket, whatever the
      cache says. */
  lemma FixedNeverNil(tx: map<Bytes, seq<Entry>>, cache: set<Bytes>, name: Bytes)
    ensures var r := EnsureFixedEffect(tx, cache, name);
      && r.handle != Nil
      && (r.handle == Live ==> name in r.tx)
      && (r.handle.Refused? <==> |name| == 0 && !(name in cache && name in tx))
  {
  }

  /** While the cache is sound the intended ensureBucket behaves exactly as
      the written one. */
  lemma FixedAgreesWhenSound(s: State, name: Bytes)
    requires CacheSound(s)
    ensures EnsureFixedEffect(s.buckets, s.cache, name) == EnsureEffect(s.buckets, s.cache, name)
  {
  }

  // ---------------------------------------------------------------------
  // Ready times of different widths

  /** As written: the ready time is written in variable-width decimal, so
      key order is not time order (Keys.WiderTimeSortsFirst: the key of an
      item due at 10000 ms sorts before that of one due at 9999 ms). Whenever an
      item that is not yet due sorts before one that is, a Pop returns
      nothing although an item is due. */
  lemma DueItemHiddenBehindLaterOne(name: Bytes, m1: int, m2: int, r1: Bytes, r2: Bytes, v1: Bytes, v2: Bytes, now: int, limit: nat)
    requires MinInt64 <= m1 <= MaxInt64 && MinInt64 <= m2 <= MaxInt64
    requires Less(BoltItemKey(m1, r1), BoltItemKey(m2, r2))
    requires UnixNanos(m2) <= now < UnixNanos(m1) && 0 < limit
    ensures var w := [Entry(BoltItemKey(m1, r1), v1), Entry(BoltItemKey(m2, r2), v2)];
      var s := State(map[name := w], {name});
      && Valid(s)
      && ParseTs(w[1].key, 0) <= now
      && PopEffect(s, name, limit, now, Faults(None, true)) == PopResult(s, [], Done)
  {
    BoltKeyRoundTrip(m1, r1);
    BoltKeyRoundTrip(m2, r2);
    PopMissesDueItem(name, Entry(BoltItemKey(m1, r1), v1), Entry(BoltItemKey(m2, r2), v2), now, limit);
  }

  /** The defect on concrete times: items due 10000 ms and 9999 ms after
      the epoch, and a Pop at 9.5 s, when the second is due. */
  lemma HiddenDueItemExample(name: Bytes, r1: Bytes, r2: Bytes, v1: Bytes, v2: Bytes)
    ensures var w := [Entry(BoltItemKey(10000, r1), v1), Entry(BoltItemKey(9999, r2), v2)];
      var s := State(map[name := w], {name});
      && Valid(s)
      && ParseTs(w[1].key, 0) <= 9_500_000_000
      && PopEffect(s, name, 1, 9_500_000_000, Faults(None, true)) == PopResult(s, [], Done)
  {
    WiderTimeSortsFirst(r1, r2);
    DueItemHiddenBehindLaterOne(name, 10000, 9999, r1, r2, v1, v2, 9_500_000_000, 1);
  }

  lemma PopMissesDueItem(name: Bytes, e1: Entry, e2: Entry, now: int, limit: nat)
    requires TsDefined(e1.key, 0) && TsDefined(e2.key, 0) && Less(e1.key, e2.key)
    requires ParseTs(e2.key, 0) <= now < ParseTs(e1.key, 0) && 0 < limit
    ensures var s := State(map[name := [e1, e2]], {name});
      Valid(s) && PopEffect(s, name, limit, now, Faults(None, true)) == PopResult(s, [], Done)
  {
    var w := [e1, e2];
    var s := State(map[name := w], {name});
    TwoKeyBucketValid(w);
    assert Valid(s);
    NothingTakenFromLaterFirst(w, now, limit);
    assert s.buckets[name := w[0..]] == s.buckets;
  }

  lemma TwoKeyBucketValid(w: seq<Entry>)
    requires |w| == 2 && Less(w[0].key, w[1].key)
    requires TsDefined(w[0].key, 0) && TsDefined(w[1].key, 0)
    ensures BucketValid(w)
  {
    assert w[0].key[0..] == w[0].key && w[1].key[0..] == w[1].key;
  }

  lemma NothingTakenFromLaterFirst(w: seq<Entry>, now: int, limit: nat)
    requires 0 < |w| && now < ParseTs(w[0].key, 0)
    ensures Taken(Times(w, 0), Constant(now), limit, 0) == 0
  {
  }

  // ---------------------------------------------------------------------
  // The engine

  /** The cursor loop of Pop over the bucket w: from the first key, stop at
      the first entry whose time is after `now`; append each value, then
      delete its entry; stop once the limit, decremented after each item,
      reaches 0. time(i) is composedBoltKey.parseTs of the i-th key
      (Engine.Pop passes Reader, which applies ParseTs; taking it as a parameter keeps the
      key format out of the loop's proof). `rest` is what the cursor leaves
      of the bucket; `failed` reports a failed delete. */
  method CursorWalk(w: seq<Entry>, time: nat -> int, limit: nat, now: int, deleteFailsAt: Option<nat>)
    returns (items: seq<Bytes>, rest: seq<Entry>, failed: bool)
    requires 1 <= limit
    ensures var n := Taken(Stamps(time, |w|), Constant(now), limit, 0);
      && (failed <==> deleteFailsAt.Some? && deleteFailsAt.value < n)
      && (failed ==> items == Values(w[..deleteFailsAt.value + 1]))
      && (!failed ==> items == Values(w[..n]) && rest == w[n..])
  {
    ghost var ts := Stamps(time, |w|);
    ghost var n := Taken(ts, Constant(now), limit, 0);
    var i := 0;
    var left: int := limit;
    items := [];
    rest := w;
    while i < |w|
      invariant i <= |w|
      invariant left == limit - i && 1 <= left
      invariant Taken(ts, Constant(now), left, i) == n - i
      invariant items == Values(w[..i])
      invariant rest == w[i..]
      invariant deleteFailsAt.None? || i <= deleteFailsAt.value
    {
      var t := time(i);
      WalkStep(ts, Constant(now), left, i, n);
      if t > now {
        break;
      }
      SnocStep(w, i);
      items := items + [w[i].value];
      if deleteFailsAt.Some? && deleteFailsAt.value == i {
        return items, rest, true;
      }
      rest := rest[1..];
      left := left - 1;
      i := i + 1;
      if left <= 0 {
        break;
      }
    }
    assert i == n;
    return items, rest, false;
  }

  /** A valid bucket can be walked without a parse panic. */
  lemma BucketParsable(b: seq<Entry>)
    requires BucketValid(b)
    ensures Parsable(b, 0)
  {
    forall j | 0 <= j < |b| ensures TsDefined(b[j].key, 0) {
      assert b[j] in b;
      assert b[j].key[0..] == b[j].key;
    }
    ParsableAll(b, 0);
  }

  class Engine {
    var buckets: map<Bytes, seq<Entry>>
    var cache: set<Bytes>

    ghost function Snapshot(): State
      reads this
    {
      State(buckets, cache)
    }

    /** NewWithBolt over a database holding `bs`: the cache starts empty;
        opening the database file itself is not modelled. */
    constructor (bs: map<Bytes, seq<Entry>>)
      ensures Snapshot() == State(bs, {})
    {
      buckets := bs;
      cache := {};
    }

    /** ensureBucket inside the transaction whose buckets are `tx`. */
    method EnsureBucket(tx: map<Bytes, seq<Entry>>, name: Bytes) returns (tx2: map<Bytes, seq<Entry>>, handle: Handle)
      modifies this
      ensures Ensured(tx2, cache, handle) == EnsureEffect(tx, old(cache), name)
      ensures buckets == old(buckets)
    {
      if name in cache {
        return tx, if name in tx then Live else Nil;
      }
      if |name| == 0 {
        return tx, Refused(BucketNameRequired);
      }
      tx2 := if name in tx then tx else tx[name := []];
      cache := cache + {name};
      return tx2, Live;
    }

    /** Push; db.Update works on a copy of the buckets and installs it only
        when the commit succeeds. */
    method Push(name: Bytes, element: Bytes, delay: int, now: int, rand: Bytes, f: Faults) returns (out: Outcome)
      requires Valid(Snapshot())
      modifies this
      ensures (Snapshot(), out) == PushEffect(old(Snapshot()), name, element, delay, now, rand, f)
    {
      ghost var s0 := Snapshot();
      var tx, b := EnsureBucket(buckets, name);
      EnsureKeepsValid(s0, name);
      if b.Refused? {
        return Failed(b.error);
      }
      if b.Nil? {
        return Panicked;
      }
      var tsMillis := ReadyMillis(now, delay);
      var key := FormatInt(tsMillis) + [Dot] + rand;
      if |element| > MaxValueSize {
        return Failed(ValueTooLarge);
      }
      tx := tx[name := Insert(tx[name], key, element)];
      if !f.commitOk {
        return Failed(CommitError);
      }
      buckets := tx;
      return Done;
    }

    method Pop(name: Bytes, limit: nat, now: int, f: Faults) returns (items: seq<Bytes>, out: Outcome)
      requires Valid(Snapshot())
      modifies this
      ensures PopResult(Snapshot(), items, out) == PopEffect(old(Snapshot()), name, limit, now, f)
    {
      if limit == 0 {
        return [], Done;
      }
      ghost var s0 := Snapshot();
      var tx, b := EnsureBucket(buckets, name);
      EnsureKeepsValid(s0, name);
      if b.Refused? {
        return [], Failed(b.error);
      }
      if b.Nil? {
        return [], Panicked;
      }
      var taken, rest, failed := CursorWalk(tx[name], Reader(tx[name], 0), limit, now, f.deleteFailsAt);
      if failed {
        return taken, Failed(DeleteError);
      }
      if !f.commitOk {
        return taken, Failed(CommitError);
      }
      buckets := tx[name := rest];
      return taken, Done;
    }
  }
}
