/** The Badger engine: every queue shares one sorted key space. A queue name
    is mapped to a numeric id drawn from a durable counter; the mapping is
    recorded under "queue_name." decimal(id) and cached in memory, and the
    queue's items live under base36(id) "." decimal(ms) "." rand4. */
module BadgerEngine {
  import opened Bytes
  import opened Wrappers
  import opened Strconv
  import opened Keys
  import opened Store
  import opened Drain

  /** db.GetSequence(queueID, 4): the counter leases four ids at a time. */
  const Bandwidth: nat := 4

  datatype Error =
    | SequenceError   // the counter could not renew its lease
    | WriteError      // an update transaction could not commit
    | ItemError       // item.Value could not read a value, or txn.Delete refused
    | CommitError     // Pop's transaction could not commit
    | ParseError      // strconv rejected a registry id while reopening

  /** The failures the database may produce during one call; the caller
      decides them. itemFailsAt is the position, in Pop's walk, of the first
      item whose value read or staged delete fails. */
  datatype Faults = Faults(leaseOk: bool, registerOk: bool, itemFailsAt: Option<nat>, commitOk: bool)

  /** The key space, the id counter (the next id, and the end of the current
      lease, which is the value persisted under "queue_id") and the in-memory
      cache from queue name to id. */
  datatype State = State(entries: seq<Entry>, next: nat, leased: nat, queues: map<Bytes, nat>)

  /** A key is a registry key or has the shape of an item key. */
  predicate WellFormedKey(k: Bytes)
  {
    HasPrefix(k, RegistryPrefix) || TwoDots(k)
  }

  /** What the queue operations rely on: a sorted key space made of registry
      and item keys, and a counter inside its lease. */
  predicate StoreValid(s: State)
  {
    && Sorted(s.entries)
    && s.next <= s.leased
    && forall e :: e in s.entries ==> WellFormedKey(e.key)
  }

  /** Cached ids were handed out by the counter and name different queues. */
  predicate RegistryValid(s: State)
  {
    && (forall n :: n in s.queues ==> s.queues[n] < s.next)
    && (forall n, m :: n in s.queues && m in s.queues && n != m ==> s.queues[n] != s.queues[m])
  }

  /** The registry entries in the store are exactly the cached names, each
      under the key of its id. */
  predicate RegistryMirrors(s: State)
  {
    && (forall e :: e in s.entries && HasPrefix(e.key, RegistryPrefix) ==>
          e.value in s.queues && e.key == RegistryKey(s.queues[e.value]))
    && (forall n :: n in s.queues ==> Entry(RegistryKey(s.queues[n]), n) in s.entries)
  }

  /** getQueueID: a cached name gives its id and touches nothing. Otherwise
      the counter hands out its next id (renewing the lease when it is used
      up; a failed renewal is an error and hands out nothing), the registry
      key is written in its own transaction, and only when that write commits
      is the name cached. A failed write still consumes the id. */
  function Resolve(s: State, name: Bytes, leaseOk: bool, writeOk: bool): (r: (State, Result<nat, Error>))
    requires StoreValid(s)
    ensures r.1.Ok? ==> name in r.0.queues && r.0.queues[name] == r.1.value
    ensures r.1.Err? ==> r.0.queues == s.queues && r.0.entries == s.entries
    ensures s.next <= r.0.next <= r.0.leased
  {
    if name in s.queues then (s, Ok(s.queues[name]))
    else if s.next >= s.leased && !leaseOk then (s, Err(SequenceError))
    else
      var id := s.next;
      var s1 := s.(next := id + 1, leased := if s.next >= s.leased then id + Bandwidth else s.leased);
      if !writeOk then (s1, Err(WriteError))
      else (s1.(entries := Insert(s.entries, RegistryKey(id), name), queues := s.queues[name := id]), Ok(id))
  }

  /** Push: resolve the queue (an error there is swallowed: Push reports
      success and stores nothing more), then write the item under its
      composed key in one update transaction. */
  function PushEffect(s: State, name: Bytes, element: Bytes, delay: int, now: int, rand: Bytes, f: Faults): (r: (State, Option<Error>))
    requires StoreValid(s)
    ensures r.0.queues == Resolve(s, name, f.leaseOk, f.registerOk).0.queues
    ensures r.1.Some? ==> r.1 == Some(WriteError) && r.0 == Resolve(s, name, f.leaseOk, f.registerOk).0
  {
    var (s1, rid) := Resolve(s, name, f.leaseOk, f.registerOk);
    ResolveValid(s, name, f.leaseOk, f.registerOk);
    if rid.Err? then (s1, None)
    else if !f.commitOk then (s1, Some(WriteError))
    else (s1.(entries := Insert(s1.entries, BadgerItemKey(rid.value, ReadyMillis(now, delay), rand), element)), None)
  }

  /** The entries Pop's walk takes from the queue with id `a`: the first ones
      of its prefix range, in key order, as the clock lets them through. */
  function Walk(s: State, a: nat, limit: nat, clock: nat -> int): (taken: seq<Entry>)
    requires StoreValid(s)
    ensures |taken| <= Cap(limit)
    ensures forall e :: e in taken ==> e in s.entries && HasPrefix(e.key, ItemPrefix(a))
  {
    var p := ItemPrefix(a);
    var w := Scan(s.entries, p);
    ScanIsPrefixRange(s.entries, p);
    var n := Taken(Times(w, |p|), clock, limit, 0);
    assert forall j :: 0 <= j < n ==> w[..n][j] == w[j];
    w[..n]
  }

  /** What Pop hands back: the new state, the values, and the error. */
  datatype PopResult = PopResult(state: State, items: seq<Bytes>, err: Option<Error>)

  /** Pop: resolve the queue (an error is returned with no values), then
      walk the queue's range. */
  function PopEffect(s: State, name: Bytes, limit: nat, clock: nat -> int, f: Faults): (r: PopResult)
    requires StoreValid(s)
    ensures |r.items| <= Cap(limit)
    ensures r.err.Some? ==> r.state == Resolve(s, name, f.leaseOk, f.registerOk).0
    ensures r.err.Some? && r.err != Some(CommitError) ==> r.items == []
  {
    var (s1, rid) := Resolve(s, name, f.leaseOk, f.registerOk);
    ResolveValid(s, name, f.leaseOk, f.registerOk);
    if rid.Err? then PopResult(s1, [], Some(rid.error))
    else PopQueue(s1, rid.value, limit, clock, f)
  }

  /** The transaction of Pop for the queue with id `a`. A failed value read
      or delete discards it and returns no values; a failed commit returns
      the values with the error and deletes nothing; otherwise the walked
      entries are gone. */
  function PopQueue(s: State, a: nat, limit: nat, clock: nat -> int, f: Faults): (r: PopResult)
    requires StoreValid(s)
    ensures |r.items| <= Cap(limit)
    ensures r.err.Some? ==> r.state == s
    ensures r.state.queues == s.queues && r.state.next == s.next && r.state.leased == s.leased
  {
    var taken := Walk(s, a, limit, clock);
    if f.itemFailsAt.Some? && f.itemFailsAt.value < |taken| then PopResult(s, [], Some(ItemError))
    else if !f.commitOk then PopResult(s, Values(taken), Some(CommitError))
    else PopResult(s.(entries := Remove(s.entries, KeysOf(taken))), Values(taken), None)
  }

  /** bytes.Split(k, ".")[1]: the bytes between the first '.' and the next
      one, or the end. */
  function SecondSegment(k: Bytes): (seg: Bytes)
    requires Dot in k
    ensures Dot !in seg
  {
    var rest := k[IndexOf(k, Dot) + 1..];
    rest[..IndexOf(rest, Dot)]
  }

  /** The registry replay NewWithBadger runs, as written: it visits the
      first registry key only (the loop body returns), reads its id in base
      36, and stores the id whatever the parse reported; a parse error makes
      the whole open fail. */
  function ReplayEffect(es: seq<Entry>): (r: (map<Bytes, nat>, Option<Error>))
    ensures |r.0.Keys| <= 1
  {
    var i := SeekIndex(es, RegistryPrefix);
    if i < |es| && HasPrefix(es[i].key, RegistryPrefix) then
      RegistryKeyHasDot(es[i].key);
      var id := ParseUint(SecondSegment(es[i].key), 36);
      (map[es[i].value := id.value], if id.err.None? then None else Some(ParseError))
    else (map[], None)
  }

  /** NewWithBadger over a key space `es` whose counter was persisted as
      `counter`: acquire the first lease, then replay the registry. */
  function OpenEffect(es: seq<Entry>, counter: nat, leaseOk: bool): (r: Result<State, Error>)
    ensures !leaseOk ==> r == Err(SequenceError)
    ensures r.Ok? ==> r.value.next < r.value.leased && |r.value.queues.Keys| <= 1
  {
    if !leaseOk then Err(SequenceError)
    else
      var (qs, err) := ReplayEffect(es);
      if err.Some? then Err(err.value)
      else Ok(State(es, counter, counter + Bandwidth, qs))
  }

  /** The replay evidently intended: every registry key, in key order, read
      in base 10, stopping only at a parse error. */
  function Restore(w: seq<Entry>, acc: map<Bytes, nat>): Result<map<Bytes, nat>, Error>
    requires forall j :: 0 <= j < |w| ==> Dot in w[j].key
  {
    if |w| == 0 then Ok(acc)
    else
      var id := ParseUint(SecondSegment(w[0].key), 10);
      if id.err.Some? then Err(ParseError)
      else Restore(w[1..], acc[w[0].value := id.value])
  }

  function ReplayFixed(es: seq<Entry>): Result<map<Bytes, nat>, Error>
    requires Sorted(es)
  {
    var w := Scan(es, RegistryPrefix);
    ScanIsPrefixRange(es, RegistryPrefix);
    assert forall j :: 0 <= j < |w| ==> Dot in w[j].key by {
      forall j | 0 <= j < |w| ensures Dot in w[j].key {
        assert w[j] in w;
        RegistryKeyHasDot(w[j].key);
      }
    }
    Restore(w, map[])
  }

  // ---------------------------------------------------------------------
  // Helper facts about keys

  lemma RegistryKeyHasDot(k: Bytes)
    requires HasPrefix(k, RegistryPrefix)
    ensures Dot in k && IndexOf(k, Dot) == 10
  {
    assert k[10] == RegistryPrefix[10] == Dot;
    forall j | 0 <= j < 10 ensures k[j] != Dot {
      assert k[j] == RegistryPrefix[j];
    }
  }

  lemma RegistryKeyInjective(a: nat, b: nat)
    requires RegistryKey(a) == RegistryKey(b)
    ensures a == b
  {
    var n := |RegistryPrefix|;
    assert FormatUint(a, 10) == RegistryKey(a)[n..];
    assert FormatUint(b, 10) == RegistryKey(b)[n..];
    FormatUintInjective(a, b, 10);
  }

  /** An item key never carries the registry prefix. */
  lemma ItemKeyNotRegistry(k: Bytes, a: nat)
    requires HasPrefix(k, ItemPrefix(a))
    ensures !HasPrefix(k, RegistryPrefix)
  {
    if HasPrefix(k, RegistryPrefix) {
      RegistryKeyNotItem(k, a);
    }
  }

  /** Every key in a queue's prefix range can be parsed after the prefix. */
  lemma ScanParsable(s: State, a: nat)
    requires StoreValid(s)
    ensures Parsable(Scan(s.entries, ItemPrefix(a)), |ItemPrefix(a)|)
  {
    var w := Scan(s.entries, ItemPrefix(a));
    ScanIsPrefixRange(s.entries, ItemPrefix(a));
    forall j | 0 <= j < |w| ensures TsDefined(w[j].key, |ItemPrefix(a)|) {
      assert w[j] in w;
      ItemKeyNotRegistry(w[j].key, a);
      ItemKeyParsable(w[j].key, a);
    }
    ParsableAll(w, |ItemPrefix(a)|);
  }

  // ---------------------------------------------------------------------
  // getQueueID

  /** Resolving keeps the key space valid, and keeps cached ids distinct and
      below the counter, and the registry in step with the cache. */
  lemma ResolveValid(s: State, name: Bytes, leaseOk: bool, writeOk: bool)
    requires StoreValid(s)
    ensures StoreValid(Resolve(s, name, leaseOk, writeOk).0)
    ensures RegistryValid(s) ==> RegistryValid(Resolve(s, name, leaseOk, writeOk).0)
    ensures RegistryValid(s) && RegistryMirrors(s) ==> RegistryMirrors(Resolve(s, name, leaseOk, writeOk).0)
  {
    if name !in s.queues && (s.next < s.leased || leaseOk) && writeOk {
      var s2 := Resolve(s, name, leaseOk, writeOk).0;
      PrefixOfConcat(RegistryPrefix, FormatUint(s.next, 10));
      assert forall e :: e in s2.entries ==> WellFormedKey(e.key);
      if RegistryValid(s) && RegistryMirrors(s) {
        RegisterMirrors(s, s2, name);
      }
    }
  }

  /** Writing the registry key of the next id for a new name, and caching
      the name under that id, keeps the registry in step with the cache. */
  lemma RegisterMirrors(s: State, s2: State, name: Bytes)
    requires Sorted(s.entries) && RegistryValid(s) && RegistryMirrors(s) && name !in s.queues
    requires s2.entries == Insert(s.entries, RegistryKey(s.next), name)
    requires s2.queues == s.queues[name := s.next]
    ensures RegistryMirrors(s2)
  {
    var id := s.next;
    var k := RegistryKey(id);
    forall e | e in s2.entries && HasPrefix(e.key, RegistryPrefix)
      ensures e.value in s2.queues && e.key == RegistryKey(s2.queues[e.value])
    {
      if e != Entry(k, name) {
        assert e in s.entries;
        assert e.value != name;
      }
    }
    forall n | n in s2.queues ensures Entry(RegistryKey(s2.queues[n]), n) in s2.entries {
      if n != name {
        var e := Entry(RegistryKey(s.queues[n]), n);
        assert e in s.entries;
        if e.key == k {
          RegistryKeyInjective(s.queues[n], id);
        }
      }
    }
  }

  /** A cached name: its id, and nothing changes. */
  lemma ResolveCached(s: State, name: Bytes, leaseOk: bool, writeOk: bool)
    requires StoreValid(s) && name in s.queues
    ensures Resolve(s, name, leaseOk, writeOk) == (s, Ok(s.queues[name]))
  {
  }

  /** A new name takes the counter's next id, which no cached name holds;
      the name is cached, and its registry key written, exactly when the
      write succeeds, and the store changes by that one entry. */
  lemma ResolveFresh(s: State, name: Bytes, leaseOk: bool, writeOk: bool)
    requires StoreValid(s) && RegistryValid(s) && RegistryMirrors(s) && name !in s.queues
    requires s.next < s.leased || leaseOk
    ensures var (s2, r) := Resolve(s, name, leaseOk, writeOk);
      && s2.next == s.next + 1
      && (forall n :: n in s.queues ==> s.queues[n] != s.next)
      && (r == Ok(s.next) <==> writeOk)
      && (writeOk ==> s2.queues == s.queues[name := s.next])
      && (!writeOk ==> r == Err(WriteError) && s2.queues == s.queues && s2.entries == s.entries)
      && (writeOk ==> forall e :: e in s2.entries <==> e in s.entries || e == Entry(RegistryKey(s.next), name))
  {
    if writeOk {
      var s2 := Resolve(s, name, leaseOk, writeOk).0;
      forall e | e in s.entries ensures e in s2.entries {
        if e.key == RegistryKey(s.next) {
          PrefixOfConcat(RegistryPrefix, FormatUint(s.next, 10));
          RegistryKeyInjective(s.queues[e.value], s.next);
        }
      }
    }
  }

  /** Only a used-up lease can make getQueueID fail before handing out an id. */
  lemma ResolveSequenceError(s: State, name: Bytes, leaseOk: bool, writeOk: bool)
    requires StoreValid(s)
    ensures Resolve(s, name, leaseOk, writeOk).1 == Err(SequenceError) <==>
      name !in s.queues && s.next >= s.leased && !leaseOk
  {
  }

  // ---------------------------------------------------------------------
  // Push

  /** Push reports success when the queue cannot be resolved, and then
      stores no item. */
  lemma PushSwallowsResolveError(s: State, name: Bytes, element: Bytes, delay: int, now: int, rand: Bytes, f: Faults)
    requires StoreValid(s)
    requires Resolve(s, name, f.leaseOk, f.registerOk).1.Err?
    ensures PushEffect(s, name, element, delay, now, rand, f) == (Resolve(s, name, f.leaseOk, f.registerOk).0, None)
  {
  }

  /** A committed Push adds exactly one entry (replacing one with the same
      key), under the queue's own prefix, from which Pop reads back the
      ready time; the item is due at now + delay, and never shows more than
      a second early. */
  lemma PushStoresItem(s: State, name: Bytes, element: Bytes, delay: int, now: int, rand: Bytes, f: Faults, a: nat, t: int)
    requires StoreValid(s) && MinInt64 <= now + delay <= MaxInt64
    requires Resolve(s, name, f.leaseOk, f.registerOk).1 == Ok(a) && f.commitOk
    ensures var s1 := Resolve(s, name, f.leaseOk, f.registerOk).0;
      var (s2, err) := PushEffect(s, name, element, delay, now, rand, f);
      var k := BadgerItemKey(a, ReadyMillis(now, delay), rand);
      && err == None
      && (forall e :: e in s2.entries <==> (e in s1.entries && e.key != k) || e == Entry(k, element))
      && HasPrefix(k, ItemPrefix(a))
      && TsDefined(k, |ItemPrefix(a)|)
      && (0 <= now + delay <= t ==> ParseTs(k, |ItemPrefix(a)|) <= t)
      && (0 <= now + delay && ParseTs(k, |ItemPrefix(a)|) <= t ==> now + delay - 1_000_000_000 < t)
  {
    var ms := ReadyMillis(now, delay);
    ReadyMillisInRange(now, delay);
    BadgerKeyRoundTrip(a, ms, rand);
    if 0 <= now + delay {
      ReadyWindow(now, delay, t);
    }
  }

  /** Push keeps every invariant of the store and of the registry. */
  lemma PushValid(s: State, name: Bytes, element: Bytes, delay: int, now: int, rand: Bytes, f: Faults)
    requires StoreValid(s)
    ensures var s2 := PushEffect(s, name, element, delay, now, rand, f).0;
      && StoreValid(s2)
      && (RegistryValid(s) ==> RegistryValid(s2))
      && (RegistryValid(s) && RegistryMirrors(s) ==> RegistryMirrors(s2))
  {
    ResolveValid(s, name, f.leaseOk, f.registerOk);
    var (s1, rid) := Resolve(s, name, f.leaseOk, f.registerOk);
    if rid.Ok? && f.commitOk {
      InsertItemValid(s1, rid.value, ReadyMillis(now, delay), rand, element);
    }
  }

  lemma InsertItemValid(s: State, a: nat, ms: int, rand: Bytes, element: Bytes)
    requires StoreValid(s)
    ensures var s2 := s.(entries := Insert(s.entries, BadgerItemKey(a, ms, rand), element));
      && StoreValid(s2)
      && (RegistryValid(s) ==> RegistryValid(s2))
      && (RegistryMirrors(s) ==> RegistryMirrors(s2))
  {
    var k := BadgerItemKey(a, ms, rand);
    BadgerItemKeyTwoDots(a, ms, rand);
    ItemKeyNotRegistry(k, a);
    var s2 := s.(entries := Insert(s.entries, k, element));
    forall e | e in s2.entries ensures WellFormedKey(e.key) {
      if e != Entry(k, element) {
        assert e in s.entries;
      }
    }
    if RegistryMirrors(s) {
      forall n | n in s2.queues ensures Entry(RegistryKey(s2.queues[n]), n) in s2.entries {
        PrefixOfConcat(RegistryPrefix, FormatUint(s.queues[n], 10));
      }
    }
  }

  // ---------------------------------------------------------------------
  // Pop

  /** Pop's walk takes a leading run of the queue's prefix range, in key
      order: at most the limit (and one when the limit is 0), each entry's
      time not after the clock reading taken when it was visited, and it
      stops early only at an entry whose time is after the clock. */
  lemma WalkIsReadyPrefix(s: State, a: nat, limit: nat, clock: nat -> int)
    requires StoreValid(s)
    ensures var p := ItemPrefix(a);
      var w := Scan(s.entries, p);
      var taken := Walk(s, a, limit, clock);
      && taken == w[..|taken|]
      && |taken| <= Cap(limit)
      && (forall j :: 0 <= j < |taken| ==>
            HasPrefix(taken[j].key, p) && ParseTs(taken[j].key, |p|) <= clock(j))
      && (|taken| < |w| && |taken| < Cap(limit) ==> clock(|taken|) < ParseTs(w[|taken|].key, |p|))
  {
    var p := ItemPrefix(a);
    var w := Scan(s.entries, p);
    ScanIsPrefixRange(s.entries, p);
    ReadyRun(w, |p|, limit, clock);
    var taken := Walk(s, a, limit, clock);
    forall j | 0 <= j < |taken| ensures HasPrefix(taken[j].key, p) {
      assert taken[j] in taken;
    }
  }

  /** A failed Pop deletes nothing; a failed value read or delete also
      returns nothing, and a failed commit returns what was walked. */
  lemma PopFailureDeletesNothing(s: State, a: nat, limit: nat, clock: nat -> int, f: Faults)
    requires StoreValid(s)
    ensures var r := PopQueue(s, a, limit, clock, f);
      && (r.err.Some? ==> r.state == s)
      && (r.err == Some(ItemError) ==> r.items == [])
      && (r.err == Some(CommitError) ==> r.items == Values(Walk(s, a, limit, clock)))
  {
  }

  /** A successful Pop returns the values of the walked entries, at most the
      limit of them (one when the limit is 0), and removes exactly those
      entries from the store. */
  lemma PopRemovesExactlyTaken(s: State, a: nat, limit: nat, clock: nat -> int, f: Faults)
    requires StoreValid(s)
    ensures var r := PopQueue(s, a, limit, clock, f);
      var taken := Walk(s, a, limit, clock);
      r.err.None? ==>
        && r.items == Values(taken)
        && |r.items| <= Cap(limit)
        && forall e :: e in r.state.entries <==> e in s.entries && e !in taken
  {
    var taken := Walk(s, a, limit, clock);
    WalkIsReadyPrefix(s, a, limit, clock);
    var w := Scan(s.entries, ItemPrefix(a));
    ScanIsPrefixRange(s.entries, ItemPrefix(a));
    forall j | 0 <= j < |taken| ensures taken[j] in s.entries {
      assert taken[j] == w[j] && w[j] in w;
    }
    KeysNameEntries(s.entries, taken);
  }

  /** Pop touches only its own queue: every entry without the queue's item
      prefix (registry keys, other queues' items) stays. */
  lemma PopIsolation(s: State, a: nat, limit: nat, clock: nat -> int, f: Faults)
    requires StoreValid(s)
    ensures var r := PopQueue(s, a, limit, clock, f);
      forall e :: e in s.entries && !HasPrefix(e.key, ItemPrefix(a)) ==> e in r.state.entries
  {
    PopRemovesExactlyTaken(s, a, limit, clock, f);
    WalkIsReadyPrefix(s, a, limit, clock);
  }

  /** Pop keeps every invariant of the store and of the registry. */
  lemma PopValid(s: State, name: Bytes, limit: nat, clock: nat -> int, f: Faults)
    requires StoreValid(s)
    ensures var s2 := PopEffect(s, name, limit, clock, f).state;
      && StoreValid(s2)
      && (RegistryValid(s) ==> RegistryValid(s2))
      && (RegistryValid(s) && RegistryMirrors(s) ==> RegistryMirrors(s2))
  {
    ResolveValid(s, name, f.leaseOk, f.registerOk);
    var (s1, rid) := Resolve(s, name, f.leaseOk, f.registerOk);
    if rid.Ok? {
      PopQueueValid(s1, rid.value, limit, clock, f);
    }
  }

  lemma PopQueueValid(s: State, a: nat, limit: nat, clock: nat -> int, f: Faults)
    requires StoreValid(s)
    ensures var s2 := PopQueue(s, a, limit, clock, f).state;
      && StoreValid(s2)
      && (RegistryValid(s) ==> RegistryValid(s2))
      && (RegistryMirrors(s) ==> RegistryMirrors(s2))
  {
    var r := PopQueue(s, a, limit, clock, f);
    if r.err.None? {
      PopIsolation(s, a, limit, clock, f);
      if RegistryMirrors(s) {
        forall n | n in r.state.queues ensures Entry(RegistryKey(r.state.queues[n]), n) in r.state.entries {
          var e := Entry(RegistryKey(s.queues[n]), n);
          PrefixOfConcat(RegistryPrefix, FormatUint(s.queues[n], 10));
          RegistryKeyNotItem(e.key, a);
        }
      }
    }
  }

  // ---------------------------------------------------------------------
  // Reopening: the registry replay

  /** The id segment of a registry key is the decimal numeral of its id. */
  lemma SegmentOfRegistryKey(a: nat)
    ensures Dot in RegistryKey(a)
    ensures SecondSegment(RegistryKey(a)) == FormatUint(a, 10)
  {
    var k := RegistryKey(a);
    var digits := FormatUint(a, 10);
    PrefixOfConcat(RegistryPrefix, digits);
    RegistryKeyHasDot(k);
    assert k[11..] == digits;
    NoDotInDigits(digits, 10);
  }

  /** Read left to right, the same digits denote more in a larger base. */
  lemma {:induction false} FoldBaseOrder(s: Bytes, x: nat, y: nat)
    requires x < y
    ensures Fold(s, 10, x) < Fold(s, 36, y)
    decreases |s|
  {
    if |s| > 0 {
      var d := DigitValue(s[0]);
      assert x * 10 <= x * 36 < y * 36;
      FoldBaseOrder(s[1..], x * 10 + d, y * 36 + d);
    }
  }

  /** A numeral of two or more digits, not starting with 0, denotes more in
      base 36 than in base 10. */
  lemma WideNumeralGrows(digits: Bytes)
    requires |digits| >= 2 && DigitValue(digits[0]) != 0
    ensures Fold(digits, 10, 0) < Fold(digits, 36, 0)
  {
    var d0, d1 := DigitValue(digits[0]), DigitValue(digits[1]);
    assert digits[1..][1..] == digits[2..];
    assert Fold(digits, 10, 0) == Fold(digits[2..], 10, d0 * 10 + d1);
    assert Fold(digits, 36, 0) == Fold(digits[2..], 36, d0 * 36 + d1);
    FoldBaseOrder(digits[2..], d0 * 10 + d1, d0 * 36 + d1);
  }

  /** A decimal numeral read in base 36 gives back its number exactly when
      it has one digit. */
  lemma DecimalReadInBase36(a: nat)
    requires a <= MaxUint64
    ensures ParseUint(FormatUint(a, 10), 36) == Parsed(a, None) <==> a < 10
  {
    var digits := FormatUint(a, 10);
    if a < 10 {
      assert digits == [DigitByte(a)];
      assert Accumulate(digits, 36, 0) == Accumulate([], 36, a);
    } else if ParseUint(digits, 36).err == None {
      AccumulateValue(digits, 36, 0);
      FoldFormat(a, 10);
      assert |FormatUint(a / 10, 10)| >= 1;
      WideNumeralGrows(digits);
    }
  }

  /** A registry key's id, read as the replay reads it, comes back
      unchanged exactly when the id has a single decimal digit. */
  lemma RegistryIdReadInBase36(a: nat)
    requires a <= MaxUint64
    ensures ParseUint(SecondSegment(RegistryKey(a)), 36) == Parsed(a, None) <==> a < 10
  {
    SegmentOfRegistryKey(a);
    DecimalReadInBase36(a);
  }

  /** The replay of a store whose first registry entry is (k, n): n is
      cached at the id read from k in base 36, and a parse error is
      reported. */
  lemma ReplayOfFirst(es: seq<Entry>, k: Bytes, n: Bytes)
    requires SeekIndex(es, RegistryPrefix) < |es|
    requires es[SeekIndex(es, RegistryPrefix)] == Entry(k, n)
    requires HasPrefix(k, RegistryPrefix)
    ensures Dot in k
    ensures var id := ParseUint(SecondSegment(k), 36);
      ReplayEffect(es) == (map[n := id.value], if id.err.None? then None else Some(ParseError))
  {
    RegistryKeyHasDot(k);
  }

  /** The replay restores the first registered queue at its own id, with no
      parse error, exactly when that id is below 10. */
  lemma ReplayReadsIdCorrectlyIffBelowTen(es: seq<Entry>, a: nat, n: Bytes)
    requires a <= MaxUint64
    requires SeekIndex(es, RegistryPrefix) < |es|
    requires es[SeekIndex(es, RegistryPrefix)] == Entry(RegistryKey(a), n)
    ensures ReplayEffect(es) == (map[n := a], None) <==> a < 10
  {
    ReplayOfFirst(es, RegistryKey(a), n);
    RegistryIdReadInBase36(a);
    var id := ParseUint(SecondSegment(RegistryKey(a)), 36);
    assert map[n := id.value][n] == id.value;
  }

  /** Id 10 is written as "10" and read back in base 36 as 36: the replay
      caches the queue under id 36, and opening succeeds with that cache,
      whose item prefix is not the one the queue's items were pushed under. */
  lemma ReplayedIdMissesItems(es: seq<Entry>, n: Bytes, counter: nat)
    requires SeekIndex(es, RegistryPrefix) < |es|
    requires es[SeekIndex(es, RegistryPrefix)] == Entry(RegistryKey(10), n)
    ensures ReplayEffect(es) == (map[n := 36], None)
    ensures OpenEffect(es, counter, true) == Ok(State(es, counter, counter + Bandwidth, map[n := 36]))
    ensures ItemPrefix(36) != ItemPrefix(10)
  {
    ReplayOfFirst(es, RegistryKey(10), n);
    TenReadBackAs36();
    FirstDigitsDiffer();
  }

  /** The id 10, written in decimal and read in base 36, is 36. */
  lemma TenReadBackAs36()
    ensures Dot in RegistryKey(10)
    ensures ParseUint(SecondSegment(RegistryKey(10)), 36) == Parsed(36, None)
  {
    SegmentOfRegistryKey(10);
    TenInDecimal();
    TenReadInBase36();
  }


  lemma TenInDecimal()
    ensures FormatUint(10, 10) == [49, 48]
  {
    assert FormatUint(1, 10) == [49];
  }

  lemma TenReadInBase36()
    ensures ParseUint([49, 48], 36) == Parsed(36, None)
  {
    var s: Bytes := [49, 48];
    assert s[1..] == [48];
    assert Accumulate([48], 36, 1) == Accumulate([], 36, 36);
  }

  lemma FirstDigitsDiffer()
    ensures ItemPrefix(36)[0] != ItemPrefix(10)[0]
  {
    assert FormatUint(36, 36)[0] == FormatUint(1, 36)[0] == 49;
    assert FormatUint(10, 36) == [97];
  }

  /** The replay as written restores at most one name, so a store that
      registered two or more queues reopens without some of them. */
  lemma ReplayRestoresAtMostOne(es: seq<Entry>, queues: map<Bytes, nat>)
    requires 2 <= |queues.Keys|
    ensures |ReplayEffect(es).0.Keys| <= 1
    ensures ReplayEffect(es).0 != queues
  {
    var i := SeekIndex(es, RegistryPrefix);
    if i < |es| && HasPrefix(es[i].key, RegistryPrefix) {
      RegistryKeyHasDot(es[i].key);
      var id := ParseUint(SecondSegment(es[i].key), 36);
      assert ReplayEffect(es).0.Keys == {es[i].value};
    } else {
      assert ReplayEffect(es).0.Keys == {};
    }
  }

  /** The names a run of registry entries records. */
  function Names(w: seq<Entry>): set<Bytes>
  {
    if |w| == 0 then {} else {w[0].value} + Names(w[1..])
  }

  lemma {:induction false} NamesMember(w: seq<Entry>, e: Entry)
    requires e in w
    ensures e.value in Names(w)
    decreases |w|
  {
    if w[0] != e {
      assert e in w[1..];
      NamesMember(w[1..], e);
    }
  }

  /** The intended replay of registry entries whose ids read back as a
      cache q's extends its accumulator with exactly their names, at q's
      ids. */
  lemma {:induction false} RestoreMatches(w: seq<Entry>, acc: map<Bytes, nat>, q: map<Bytes, nat>)
    requires forall j :: 0 <= j < |w| ==> Dot in w[j].key
    requires forall j :: 0 <= j < |w| ==>
      w[j].value in q && ParseUint(SecondSegment(w[j].key), 10) == Parsed(q[w[j].value], None)
    requires forall n :: n in acc ==> n in q && acc[n] == q[n]
    ensures Restore(w, acc).Ok?
    ensures Restore(w, acc).value.Keys == acc.Keys + Names(w)
    ensures forall n :: n in Restore(w, acc).value ==> n in q && Restore(w, acc).value[n] == q[n]
    decreases |w|
  {
    if |w| > 0 {
      var n0 := w[0].value;
      RestoreMatches(w[1..], acc[n0 := q[n0]], q);
    }
  }

  /** Registry entries under the keys of their cached ids read those ids
      back in base 10. */
  lemma RegistryIdsParse(w: seq<Entry>, q: map<Bytes, nat>)
    requires forall j :: 0 <= j < |w| ==>
      w[j].value in q && w[j].key == RegistryKey(q[w[j].value]) && q[w[j].value] <= MaxUint64
    ensures forall j :: 0 <= j < |w| ==> Dot in w[j].key
    ensures forall j :: 0 <= j < |w| ==>
      w[j].value in q && ParseUint(SecondSegment(w[j].key), 10) == Parsed(q[w[j].value], None)
  {
    forall j | 0 <= j < |w|
      ensures Dot in w[j].key && ParseUint(SecondSegment(w[j].key), 10) == Parsed(q[w[j].value], None)
    {
      SegmentOfRegistryKey(q[w[j].value]);
      ParseFormatUint(q[w[j].value], 10);
    }
  }

  /** The intended replay reopens a store with exactly the cache it was
      closed with: every registered name, at its own id. */
  lemma ReplayFixedRestoresCache(s: State)
    requires StoreValid(s) && RegistryMirrors(s)
    requires forall n :: n in s.queues ==> s.queues[n] <= MaxUint64
    ensures ReplayFixed(s.entries) == Ok(s.queues)
  {
    var w := Scan(s.entries, RegistryPrefix);
    RegistryRun(s);
    RegistryIdsParse(w, s.queues);
    RestoreAll(w, s.queues);
  }

  /** A run of registry entries whose ids read back as q's, naming every
      name q caches, replays to exactly q. */
  lemma RestoreAll(w: seq<Entry>, q: map<Bytes, nat>)
    requires forall j :: 0 <= j < |w| ==> Dot in w[j].key
    requires forall j :: 0 <= j < |w| ==>
      w[j].value in q && ParseUint(SecondSegment(w[j].key), 10) == Parsed(q[w[j].value], None)
    requires forall n :: n in q ==> n in Names(w)
    ensures Restore(w, map[]) == Ok(q)
  {
    RestoreMatches(w, map[], q);
    SameMaps(Restore(w, map[]).value, q, Names(w));
  }

  lemma SameMaps(m: map<Bytes, nat>, q: map<Bytes, nat>, names: set<Bytes>)
    requires m.Keys == names && forall n :: n in q ==> n in names
    requires forall n :: n in m ==> n in q && m[n] == q[n]
    ensures m == q
  {
    assert m.Keys == q.Keys;
  }

  /** The registry range of a store that mirrors its cache holds exactly the
      cache's registry keys, and names every cached queue. */
  lemma RegistryRun(s: State)
    requires StoreValid(s) && RegistryMirrors(s)
    ensures var w := Scan(s.entries, RegistryPrefix);
      && (forall j :: 0 <= j < |w| ==> Dot in w[j].key)
      && (forall j :: 0 <= j < |w| ==> w[j].value in s.queues && w[j].key == RegistryKey(s.queues[w[j].value]))
      && (forall n :: n in s.queues ==> n in Names(w))
  {
    var w := Scan(s.entries, RegistryPrefix);
    ScanIsPrefixRange(s.entries, RegistryPrefix);
    forall j | 0 <= j < |w| ensures Dot in w[j].key
      ensures w[j].value in s.queues && w[j].key == RegistryKey(s.queues[w[j].value])
    {
      assert w[j] in w;
      RegistryKeyHasDot(w[j].key);
    }
    forall n | n in s.queues ensures n in Names(w) {
      var e := Entry(RegistryKey(s.queues[n]), n);
      PrefixOfConcat(RegistryPrefix, FormatUint(s.queues[n], 10));
      NamesMember(w, e);
    }
  }

  // ---------------------------------------------------------------------
  // The engine object

  /** The registry replay loop of NewWithBadger, as written: the loop body
      ends in a return, so only the first registry key is read. */
  method ReplayRegistry(es: seq<Entry>) returns (queues: map<Bytes, nat>, err: Option<Error>)
    ensures (queues, err) == ReplayEffect(es)
  {
    queues := map[];
    var i := SeekIndex(es, RegistryPrefix);
    // the source's loop returns from its first iteration, so it is an `if`
    if i < |es| && HasPrefix(es[i].key, RegistryPrefix) {
      RegistryKeyHasDot(es[i].key);
      var idVal := SecondSegment(es[i].key);
      var id := ParseUint(idVal, 36);
      queues := queues[es[i].value := id.value];
      err := if id.err.None? then None else Some(ParseError);
      return;
    }
    err := None;
  }

  /** The iterator loop of Pop over the entries w that an iterator scoped
      to the queue's prefix visits: time(i) is parseTs(len(prefix)) of the
      i-th visited key (Engine.PopTxn passes Reader, which applies ParseTs; taking it as a
      parameter keeps the key format out of the loop's proof). Stop at the
      first entry whose time is after the clock reading taken for it; copy
      each value and stage its delete; stop once the limit, decremented
      after each item, reaches 0. `failed` reports a failed value read or
      delete. */
  method TakeReady(w: seq<Entry>, time: nat -> int, limit: nat, clock: nat -> int, itemFailsAt: Option<nat>)
    returns (items: seq<Bytes>, deleted: seq<Bytes>, failed: bool)
    ensures var n := Taken(Stamps(time, |w|), clock, limit, 0);
      && (failed <==> itemFailsAt.Some? && itemFailsAt.value < n)
      && (!failed ==> items == Values(w[..n]) && deleted == KeysOf(w[..n]))
  {
    ghost var ts := Stamps(time, |w|);
    ghost var n := Taken(ts, clock, limit, 0);
    var i := 0;
    var left: int := limit;
    items, deleted := [], [];
    while i < |w|
      invariant i <= |w|
      invariant Taken(ts, clock, left, i) == n - i
      invariant left == limit - i
      invariant i == 0 || 1 <= left
      invariant items == Values(w[..i]) && deleted == KeysOf(w[..i])
      invariant itemFailsAt.None? || i <= itemFailsAt.value
    {
      var t := time(i);
      WalkStep(ts, clock, left, i, n);
      if t > clock(i) {
        break;
      }
      if itemFailsAt.Some? && itemFailsAt.value == i {
        return [], [], true;
      }
      SnocStep(w, i);
      items := items + [w[i].value];
      deleted := deleted + [w[i].key];
      left := left - 1;
      i := i + 1;
      if left <= 0 {
        break;
      }
    }
    assert i == n;
    return items, deleted, false;
  }

  class Engine {
    var entries: seq<Entry>
    var next: nat
    var leased: nat
    var queues: map<Bytes, nat>

    ghost function Snapshot(): State
      reads this
    {
      State(entries, next, leased, queues)
    }

    constructor (es: seq<Entry>, counter: nat, qs: map<Bytes, nat>)
      ensures Snapshot() == State(es, counter, counter + Bandwidth, qs)
    {
      entries := es;
      next := counter;
      leased := counter + Bandwidth;
      queues := qs;
    }

    /** NewWithBadger over the key space `es` with the persisted counter
        `counter`; opening the database itself is not modelled. */
    static method Open(es: seq<Entry>, counter: nat, leaseOk: bool) returns (r: Result<Engine, Error>)
      ensures r.Err? <==> OpenEffect(es, counter, leaseOk).Err?
      ensures r.Err? ==> r.error == OpenEffect(es, counter, leaseOk).error
      ensures r.Ok? ==> fresh(r.value) && r.value.Snapshot() == OpenEffect(es, counter, leaseOk).value
    {
      if !leaseOk {
        return Err(SequenceError);
      }
      var qs, err := ReplayRegistry(es);
      if err.Some? {
        return Err(err.value);
      }
      var e := new Engine(es, counter, qs);
      return Ok(e);
    }

    method GetQueueID(name: Bytes, leaseOk: bool, writeOk: bool) returns (r: Result<nat, Error>)
      requires StoreValid(Snapshot())
      modifies this
      ensures (Snapshot(), r) == Resolve(old(Snapshot()), name, leaseOk, writeOk)
      ensures StoreValid(Snapshot())
      ensures RegistryValid(old(Snapshot())) ==> RegistryValid(Snapshot())
      ensures RegistryValid(old(Snapshot())) && RegistryMirrors(old(Snapshot())) ==> RegistryMirrors(Snapshot())
    {
      ResolveValid(Snapshot(), name, leaseOk, writeOk);
      if name in queues {
        return Ok(queues[name]);
      }
      // seq.Next(): renew the lease when it is used up
      if next >= leased {
        if !leaseOk {
          return Err(SequenceError);
        }
        leased := next + Bandwidth;
      }
      var id := next;
      next := next + 1;
      if !writeOk {
        return Err(WriteError);
      }
      entries := Insert(entries, RegistryKey(id), name);
      queues := queues[name := id];
      return Ok(id);
    }

    method Push(name: Bytes, element: Bytes, delay: int, now: int, rand: Bytes, f: Faults) returns (err: Option<Error>)
      requires StoreValid(Snapshot())
      modifies this
      ensures (Snapshot(), err) == PushEffect(old(Snapshot()), name, element, delay, now, rand, f)
      ensures StoreValid(Snapshot())
      ensures RegistryValid(old(Snapshot())) ==> RegistryValid(Snapshot())
      ensures RegistryValid(old(Snapshot())) && RegistryMirrors(old(Snapshot())) ==> RegistryMirrors(Snapshot())
    {
      PushValid(Snapshot(), name, element, delay, now, rand, f);
      var id := GetQueueID(name, f.leaseOk, f.registerOk);
      if id.Err? {
        return None;
      }
      var prefix := FormatUint(id.value, 36);
      var tsMillis := ReadyMillis(now, delay);
      var key := prefix + [Dot] + FormatInt(tsMillis) + [Dot] + rand;
      if !f.commitOk {
        return Some(WriteError);
      }
      entries := Insert(entries, key, element);
      return None;
    }

    method Pop(name: Bytes, limit: nat, clock: nat -> int, f: Faults) returns (items: seq<Bytes>, err: Option<Error>)
      requires StoreValid(Snapshot())
      modifies this
      ensures PopResult(Snapshot(), items, err) == PopEffect(old(Snapshot()), name, limit, clock, f)
      ensures StoreValid(Snapshot())
      ensures RegistryValid(old(Snapshot())) ==> RegistryValid(Snapshot())
      ensures RegistryValid(old(Snapshot())) && RegistryMirrors(old(Snapshot())) ==> RegistryMirrors(Snapshot())
    {
      ghost var s0 := Snapshot();
      PopValid(s0, name, limit, clock, f);
      var rid := GetQueueID(name, f.leaseOk, f.registerOk);
      ResolveValid(s0, name, f.leaseOk, f.registerOk);
      if rid.Err? {
        return [], Some(rid.error);
      }
      items, err := PopTxn(rid.value, limit, clock, f);
    }

    /** The transaction of Pop over the queue with id `a`: the iterator
        loop, then a discard or a commit of the staged deletes. */
    method PopTxn(a: nat, limit: nat, clock: nat -> int, f: Faults) returns (items: seq<Bytes>, err: Option<Error>)
      requires StoreValid(Snapshot())
      modifies this
      ensures PopResult(Snapshot(), items, err) == PopQueue(old(Snapshot()), a, limit, clock, f)
    {
      var prefix := ItemPrefix(a);
      var w := Scan(entries, prefix);
      var taken, deleted, failed := TakeReady(w, Reader(w, |prefix|), limit, clock, f.itemFailsAt);
      if failed {
        return [], Some(ItemError);
      }
      if !f.commitOk {
        return taken, Some(CommitError);
      }
      entries := Remove(entries, deleted);
      return taken, None;
    }

    /** Queues: every cached name once, in no particular order. */
    method Queues() returns (names: seq<Bytes>)
      ensures forall n :: n in names <==> n in queues
      ensures forall i, j :: 0 <= i < j < |names| ==> names[i] != names[j]
    {
      names := [];
      var rest := queues.Keys;
      while rest != {}
        invariant rest <= queues.Keys
        invariant forall n :: n in names <==> n in queues && n !in rest
        invariant forall i, j :: 0 <= i < j < |names| ==> names[i] != names[j]
        decreases rest
      {
        var n :| n in rest;
        names := names + [n];
        rest := rest - {n};
      }
    }
  }
}
