/** The walk both Pops make over a queue's entries in key order: take an
    entry when its parsed time is not after the clock, stop at the first one
    that is, and stop once the limit is used up. The limit is decremented
    and compared only after an entry is taken, so a limit of 0 (or 1) still
    takes one ready entry. */
module Drain {
  import opened Bytes
  import opened Keys
  import opened Store

  /** Every visited key can be parsed after prefixSize bytes. */
  predicate Parsable(w: seq<Entry>, prefixSize: nat)
    decreases |w|
  {
    |w| == 0 || (TsDefined(w[0].key, prefixSize) && Parsable(w[1..], prefixSize))
  }

  lemma {:induction false} ParsableAll(w: seq<Entry>, prefixSize: nat)
    requires forall j :: 0 <= j < |w| ==> TsDefined(w[j].key, prefixSize)
    ensures Parsable(w, prefixSize)
    decreases |w|
  {
    if |w| > 0 {
      assert forall j :: 0 <= j < |w[1..]| ==> w[1..][j] == w[j + 1];
      ParsableAll(w[1..], prefixSize);
    }
  }

  /** The most entries one walk can take: the limit, but at least one. */
  function Cap(limit: int): nat
  {
    if limit < 1 then 1 else limit
  }

  /** The first count readings of a time source, in visiting order. */
  function Stamps(time: nat -> int, count: nat): (ts: seq<int>)
    ensures |ts| == count
    ensures forall j :: 0 <= j < count ==> ts[j] == time(j)
  {
    seq(count, j requires 0 <= j => time(j))
  }

  /** The time source of a walk over w: parseTs(prefixSize) of the j-th
      visited key (0 past the last one, where no walk reads). */
  function Reader(w: seq<Entry>, prefixSize: nat): nat -> int
  {
    (j: nat) => if j < |w| then ParseTs(w[j].key, prefixSize) else 0
  }

  /** The parsed times of the visited keys, in visiting order. */
  function Times(w: seq<Entry>, prefixSize: nat): (ts: seq<int>)
    ensures |ts| == |w|
    ensures forall j :: 0 <= j < |w| ==> ts[j] == ParseTs(w[j].key, prefixSize)
  {
    Stamps(Reader(w, prefixSize), |w|)
  }

  /** How many entries the walk takes from position i on, with `limit` left,
      where ts[j] is the parsed time of the j-th visited entry and clock(j)
      the time it is compared against. */
  function Taken(ts: seq<int>, clock: nat -> int, limit: int, i: nat): (n: nat)
    requires i <= |ts|
    ensures i + n <= |ts|
    ensures n <= Cap(limit)
    decreases |ts| - i
  {
    if i == |ts| then 0
    else if ts[i] > clock(i) then 0
    else if limit - 1 <= 0 then 1
    else 1 + Taken(ts, clock, limit - 1, i + 1)
  }

  /** Every entry the walk takes was ready when it was visited, and unless
      the end of the entries or the limit stopped the walk, the next entry
      was not. */
  lemma {:induction false} TakenReady(ts: seq<int>, clock: nat -> int, limit: int, i: nat)
    requires i <= |ts|
    ensures var n := Taken(ts, clock, limit, i);
      && (forall j :: i <= j < i + n ==> ts[j] <= clock(j))
      && (i + n < |ts| && n < Cap(limit) ==> clock(i + n) < ts[i + n])
    decreases |ts| - i
  {
    if i < |ts| && ts[i] <= clock(i) && limit - 1 > 0 {
      TakenReady(ts, clock, limit - 1, i + 1);
    }
  }

  /** The walk takes every entry it can: if the first `limit` entries (at
      least one) are ready, it takes them all. */
  lemma {:induction false} TakenAllReady(ts: seq<int>, clock: nat -> int, limit: int, i: nat)
    requires i <= |ts|
    requires forall j :: i <= j < |ts| && j < i + Cap(limit) ==> ts[j] <= clock(j)
    ensures Taken(ts, clock, limit, i) == if |ts| - i < Cap(limit) then |ts| - i else Cap(limit)
    decreases |ts| - i
  {
    if i < |ts| && limit - 1 > 0 {
      TakenAllReady(ts, clock, limit - 1, i + 1);
    }
  }

  /** TakenReady for the parsed times of the visited keys. */
  lemma ReadyRun(w: seq<Entry>, prefixSize: nat, limit: int, clock: nat -> int)
    ensures var n := Taken(Times(w, prefixSize), clock, limit, 0);
      && (forall j :: 0 <= j < n ==> ParseTs(w[j].key, prefixSize) <= clock(j))
      && (n < |w| && n < Cap(limit) ==> clock(n) < ParseTs(w[n].key, prefixSize))
  {
    ReadyTaken(w, prefixSize, limit, clock);
    ReadyStop(w, prefixSize, limit, clock);
  }

  lemma ReadyTaken(w: seq<Entry>, prefixSize: nat, limit: int, clock: nat -> int)
    ensures forall j :: 0 <= j < Taken(Times(w, prefixSize), clock, limit, 0) ==>
      ParseTs(w[j].key, prefixSize) <= clock(j)
  {
    var ts := Times(w, prefixSize);
    TakenReady(ts, clock, limit, 0);
    forall j | 0 <= j < Taken(ts, clock, limit, 0) ensures ParseTs(w[j].key, prefixSize) <= clock(j) {
      assert ts[j] <= clock(j);
    }
  }

  lemma ReadyStop(w: seq<Entry>, prefixSize: nat, limit: int, clock: nat -> int)
    ensures var n := Taken(Times(w, prefixSize), clock, limit, 0);
      n < |w| && n < Cap(limit) ==> clock(n) < ParseTs(w[n].key, prefixSize)
  {
    var ts := Times(w, prefixSize);
    TakenReady(ts, clock, limit, 0);
  }

  /** A clock that reads `now` at every step: one time.Now() for the whole
      walk. */
  function Constant(now: int): nat -> int
  {
    _ => now
  }

  /** When ready times ascend and the clock stands still, the walk leaves no
      ready entry behind unless the limit stopped it. */
  lemma NoReadyLeftBehind(ts: seq<int>, now: int, limit: int)
    requires forall i, j :: 0 <= i < j < |ts| ==> ts[i] <= ts[j]
    requires Taken(ts, Constant(now), limit, 0) < Cap(limit)
    ensures forall j :: Taken(ts, Constant(now), limit, 0) <= j < |ts| ==> now < ts[j]
  {
    var n := Taken(ts, Constant(now), limit, 0);
    TakenReady(ts, Constant(now), limit, 0);
    forall j | n <= j < |ts| ensures now < ts[j] {
      assert now < ts[n];
    }
  }

  /** One step of the walk, unfolded. */
  lemma TakenStep(ts: seq<int>, clock: nat -> int, limit: int, i: nat)
    requires i < |ts|
    ensures ts[i] > clock(i) ==> Taken(ts, clock, limit, i) == 0
    ensures ts[i] <= clock(i) && limit - 1 <= 0 ==> Taken(ts, clock, limit, i) == 1
    ensures ts[i] <= clock(i) && limit - 1 > 0 ==> Taken(ts, clock, limit, i) == 1 + Taken(ts, clock, limit - 1, i + 1)
  {
  }

  /** One step of the walk as seen from a loop that has taken i entries of
      n so far. */
  lemma WalkStep(ts: seq<int>, clock: nat -> int, left: int, i: nat, n: nat)
    requires i < |ts| && Taken(ts, clock, left, i) == n - i
    ensures ts[i] > clock(i) ==> n == i
    ensures ts[i] <= clock(i) ==> i < n
    ensures ts[i] <= clock(i) && left - 1 <= 0 ==> n == i + 1
    ensures ts[i] <= clock(i) && left - 1 > 0 ==> Taken(ts, clock, left - 1, i + 1) == n - (i + 1)
  {
    TakenStep(ts, clock, left, i);
  }
}
