/** The composed keys of both engines and the parsing of their ready time.

    Badger keeps every queue in one key space: an item of the queue with
    numeric id `a` lives under  base36(a) "." decimal(ms) "." rand4  and the
    registry keeps  "queue_name." decimal(a)  -> name.  Bolt gives each queue
    its own bucket and keys its items  decimal(ms) "." rand4.
    The ready time is written in plain, variable-width decimal. */
module Keys {
  import opened Bytes
  import opened Strconv
  import opened Wrappers

  /** "queue_name.", the prefix of every registry key. */
  const RegistryPrefix: Bytes := [113, 117, 101, 117, 101, 95, 110, 97, 109, 101, 46]

  /** The prefix Pop scans for the queue with id `a`: base36(a) ".". */
  function ItemPrefix(a: nat): Bytes
  {
    FormatUint(a, 36) + [Dot]
  }

  /** The key Badger's Push writes: base36(a), ms and the random bytes joined by ".". */
  function BadgerItemKey(a: nat, ms: int, rand: Bytes): (k: Bytes)
    ensures HasPrefix(k, ItemPrefix(a))
    ensures k[|ItemPrefix(a)|..] == BoltItemKey(ms, rand)
  {
    var k := FormatUint(a, 36) + [Dot] + FormatInt(ms) + [Dot] + rand;
    assert k == ItemPrefix(a) + BoltItemKey(ms, rand);
    PrefixOfConcat(ItemPrefix(a), BoltItemKey(ms, rand));
    k
  }

  /** The key Bolt's Push writes inside the queue's bucket. */
  function BoltItemKey(ms: int, rand: Bytes): (k: Bytes)
    ensures Dot in k && IndexOf(k, Dot) == |FormatInt(ms)|
    ensures k[..IndexOf(k, Dot)] == FormatInt(ms)
  {
    var digits := FormatInt(ms);
    var k := digits + [Dot] + rand;
    NoDotInFormatInt(ms);
    assert k[|digits|] == Dot;
    assert forall j :: 0 <= j < |digits| ==> k[j] == digits[j];
    assert k[..|digits|] == digits;
    k
  }

  /** The registry key getQueueID writes for id `a`: "queue_name." decimal(a). */
  function RegistryKey(a: nat): (k: Bytes)
    ensures HasPrefix(k, RegistryPrefix)
    ensures Dot !in k[|RegistryPrefix|..]
  {
    var digits := FormatUint(a, 10);
    PrefixOfConcat(RegistryPrefix, digits);
    NoDotInDigits(digits, 10);
    assert (RegistryPrefix + digits)[|RegistryPrefix|..] == digits;
    RegistryPrefix + digits
  }

  /** Go's integer division, which truncates toward zero. */
  function TruncDiv(a: int, b: nat): int
    requires 0 < b
  {
    if a >= 0 then a / b else -((-a) / b)
  }

  /** Go's remainder, which takes the sign of the dividend. */
  function TruncRem(a: int, b: nat): int
    requires 0 < b
  {
    a - b * TruncDiv(a, b)
  }

  /** The instant, in nanoseconds since the epoch, of time.Unix(ms/1000, ms%1000):
      whole seconds, plus the leftover milliseconds taken as nanoseconds. */
  function UnixNanos(ms: int): (t: int)
    ensures 0 <= ms ==> 0 <= t <= IntendedNanos(ms) < t + 1_000_000_000
    ensures ms < 0 ==> IntendedNanos(ms) <= t < 0
  {
    var q := TruncDiv(ms, 1000);
    var rm := TruncRem(ms, 1000);
    assert ms == q * 1000 + rm;
    assert IntendedNanos(ms) == q * 1_000_000_000 + rm * 1_000_000;
    assert 0 <= ms ==> 0 <= q && 0 <= rm < 1000;
    assert ms < 0 ==> q <= 0 && -1000 < rm <= 0 && (q < 0 || rm < 0);
    q * 1_000_000_000 + rm
  }

  /** tsMillis in both Pushes: time.Now().Add(delay).UnixNano() / int64(time.Millisecond),
      with `now` and `delay` in nanoseconds. */
  function ReadyMillis(now: int, delay: int): (ms: int)
    ensures 0 <= now + delay ==> 0 <= ms && ms * 1_000_000 <= now + delay < ms * 1_000_000 + 1_000_000
    ensures now + delay < 0 ==> ms <= 0 && ms * 1_000_000 - 1_000_000 < now + delay <= ms * 1_000_000
  {
    TruncDiv(now + delay, 1_000_000)
  }

  /** The ready time Push writes fits in an int64 when the instant does. */
  lemma ReadyMillisInRange(now: int, delay: int)
    requires MinInt64 <= now + delay <= MaxInt64
    ensures MinInt64 <= ReadyMillis(now, delay) <= MaxInt64
  {
  }

  /** parseTs runs on k after prefixSize bytes without a panic: a '.'
      follows them (otherwise the Go slice body[:i] panics with i == -1). */
  predicate TsDefined(k: Bytes, prefixSize: nat)
  {
    prefixSize <= |k| && Dot in k[prefixSize..]
  }

  /** composedKey.parseTs(prefixSize) and, with prefixSize 0,
      composedBoltKey.parseTs: the bytes between the prefix and the next '.'
      read by ParseInt (whose value, 0 after a syntax error, is used even
      when it reports an error), as an instant in nanoseconds. Where Go
      would panic (TsDefined fails) this reads the rest of the key instead;
      the stores' invariants keep such keys out of every walk. */
  function ParseTs(k: Bytes, prefixSize: nat): int
  {
    UnixNanos(ParseInt(TimeField(k, prefixSize)).value)
  }

  /** The bytes parseTs reads: from the end of the prefix to the next '.'. */
  function TimeField(k: Bytes, prefixSize: nat): Bytes
  {
    var body := if prefixSize <= |k| then k[prefixSize..] else [];
    body[..IndexOf(body, Dot)]
  }

  /** A time field that is not a number reads as the epoch, so its item
      counts as due at once; a field that overflows reads as the clamped
      bound. */
  lemma ParseTsOfUnparsable(k: Bytes, prefixSize: nat)
    ensures ParseInt(TimeField(k, prefixSize)).err == Some(ErrSyntax) ==> ParseTs(k, prefixSize) == 0
    ensures ParseInt(TimeField(k, prefixSize)).err == Some(ErrRange) ==>
      ParseTs(k, prefixSize) == UnixNanos(MinInt64) || ParseTs(k, prefixSize) == UnixNanos(MaxInt64)
  {
  }

  /** Keys of the shape Badger's Push writes: a second '.' after the first. */
  predicate TwoDots(k: Bytes)
  {
    Dot in k && Dot in k[IndexOf(k, Dot) + 1..]
  }

  /** parseTs of any key made of a prefix, a formatted time, '.' and more
      returns that time. */
  lemma ParseTsOfComposed(prefix: Bytes, ms: int, rest: Bytes)
    requires MinInt64 <= ms <= MaxInt64
    ensures TsDefined(prefix + FormatInt(ms) + [Dot] + rest, |prefix|)
    ensures ParseTs(prefix + FormatInt(ms) + [Dot] + rest, |prefix|) == UnixNanos(ms)
  {
    var k := prefix + FormatInt(ms) + [Dot] + rest;
    var body := k[|prefix|..];
    var digits := FormatInt(ms);
    assert body == digits + [Dot] + rest;
    NoDotInFormatInt(ms);
    assert body[|digits|] == Dot;
    assert IndexOf(body, Dot) == |digits| by {
      forall j | 0 <= j < |digits| ensures body[j] != Dot {
        assert body[j] == digits[j];
      }
    }
    assert body[..|digits|] == digits;
    ParseFormatInt(ms);
  }

  /** Round trip for Badger: parseTs(len(prefix)) of the key Push writes for
      queue id `a` gives back the pushed time, and the key carries the queue's
      prefix. */
  lemma BadgerKeyRoundTrip(a: nat, ms: int, rand: Bytes)
    requires MinInt64 <= ms <= MaxInt64
    ensures HasPrefix(BadgerItemKey(a, ms, rand), ItemPrefix(a))
    ensures TsDefined(BadgerItemKey(a, ms, rand), |ItemPrefix(a)|)
    ensures ParseTs(BadgerItemKey(a, ms, rand), |ItemPrefix(a)|) == UnixNanos(ms)
  {
    var p := ItemPrefix(a);
    var k := BadgerItemKey(a, ms, rand);
    assert k == p + FormatInt(ms) + [Dot] + rand;
    ParseTsOfComposed(p, ms, rand);
    ConcatAssoc(p, FormatInt(ms), [Dot], rand);
    PrefixOfConcat(p, FormatInt(ms) + [Dot] + rand);
  }

  /** Round trip for Bolt: parseTs of the key Push writes gives back the
      pushed time. */
  lemma BoltKeyRoundTrip(ms: int, rand: Bytes)
    requires MinInt64 <= ms <= MaxInt64
    ensures TsDefined(BoltItemKey(ms, rand), 0)
    ensures ParseTs(BoltItemKey(ms, rand), 0) == UnixNanos(ms)
  {
    var k := BoltItemKey(ms, rand);
    var e: Bytes := [];
    assert k == e + FormatInt(ms) + [Dot] + rand;
    ParseTsOfComposed(e, ms, rand);
  }

  /** In a key carrying an item prefix, the first '.' ends the prefix. */
  lemma FirstDotOfItemKey(k: Bytes, a: nat)
    requires HasPrefix(k, ItemPrefix(a))
    ensures IndexOf(k, Dot) == |FormatUint(a, 36)|
  {
    var digits := FormatUint(a, 36);
    NoDotInDigits(digits, 36);
    assert k[|digits|] == ItemPrefix(a)[|digits|] == Dot;
    forall j | 0 <= j < |digits| ensures k[j] != Dot {
      assert k[j] == ItemPrefix(a)[j] == digits[j];
    }
  }

  /** Prefix isolation: no key carries the prefixes of two different queues,
      so a Pop of one queue never sees another's items. */
  lemma ItemPrefixesDisjoint(k: Bytes, a: nat, b: nat)
    requires HasPrefix(k, ItemPrefix(a)) && HasPrefix(k, ItemPrefix(b))
    ensures a == b
  {
    FirstDotOfItemKey(k, a);
    FirstDotOfItemKey(k, b);
    var da, db := FormatUint(a, 36), FormatUint(b, 36);
    assert da == k[..|da|] by { assert ItemPrefix(a)[..|da|] == da; }
    assert db == k[..|db|] by { assert ItemPrefix(b)[..|db|] == db; }
    FormatUintInjective(a, b, 36);
  }

  /** No registry key lies in a queue's item range: '_' is not a base-36
      digit, and "queue" holds no '.'. */
  lemma RegistryKeyNotItem(k: Bytes, a: nat)
    requires HasPrefix(k, RegistryPrefix)
    ensures !HasPrefix(k, ItemPrefix(a))
  {
    var digits := FormatUint(a, 36);
    var n := |digits|;
    if n <= 5 {
      assert ItemPrefix(a)[n] == Dot;
      assert n < |k| && k[n] == RegistryPrefix[n] != Dot;
    } else {
      assert k[5] == RegistryPrefix[5] == 95;
      assert DigitValue(95) == 36;
      assert DigitValue(ItemPrefix(a)[5]) < 36;
    }
  }

  /** Every key of the shape Push writes can be parsed after the prefix of
      the queue it belongs to. */
  lemma ItemKeyParsable(k: Bytes, a: nat)
    requires HasPrefix(k, ItemPrefix(a)) && TwoDots(k)
    ensures TsDefined(k, |ItemPrefix(a)|)
  {
    FirstDotOfItemKey(k, a);
  }

  /** Badger's item keys have the shape the invariant asks for. */
  lemma BadgerItemKeyTwoDots(a: nat, ms: int, rand: Bytes)
    ensures TwoDots(BadgerItemKey(a, ms, rand))
  {
    var k := BadgerItemKey(a, ms, rand);
    FirstDotOfItemKey(k, a);
    assert IndexOf(k, Dot) + 1 == |ItemPrefix(a)|;
    assert k[|ItemPrefix(a)| - 1] == Dot;
    var b := BoltItemKey(ms, rand);
    assert b[IndexOf(b, Dot)] == Dot;
  }

  /** Where the ready times have the same number of digits, key order is
      time order (within one queue, and whatever the random bytes). */
  lemma SameWidthKeysInTimeOrder(a: nat, m1: nat, m2: nat, r1: Bytes, r2: Bytes)
    requires m1 < m2 && |FormatInt(m1)| == |FormatInt(m2)|
    ensures Less(BoltItemKey(m1, r1), BoltItemKey(m2, r2))
    ensures Less(BadgerItemKey(a, m1, r1), BadgerItemKey(a, m2, r2))
  {
    BoltSameWidthOrder(m1, m2, r1, r2);
    LessCommonPrefix(ItemPrefix(a), BoltItemKey(m1, r1), BoltItemKey(m2, r2));
    BadgerKeySplit(a, m1, r1);
    BadgerKeySplit(a, m2, r2);
  }

  /** Negative ready times of the same width sort in reverse: the key of
      the item ready at -1 ms sorts before that of the one at -2 ms. */
  lemma NegativeTimesSortReversed(r1: Bytes, r2: Bytes)
    ensures UnixNanos(-2) < UnixNanos(-1)
    ensures |FormatInt(-1)| == |FormatInt(-2)|
    ensures Less(BoltItemKey(-1, r1), BoltItemKey(-2, r2))
  {
    assert FormatInt(-1) == [Minus, 49];
    assert FormatInt(-2) == [Minus, 50];
    assert BoltItemKey(-1, r1)[..2] == [Minus, 49] && BoltItemKey(-2, r2)[..2] == [Minus, 50];
    assert BoltItemKey(-1, r1)[0] == BoltItemKey(-2, r2)[0];
    assert BoltItemKey(-1, r1)[1] == 49 && BoltItemKey(-2, r2)[1] == 50;
  }

  lemma BoltSameWidthOrder(m1: nat, m2: nat, r1: Bytes, r2: Bytes)
    requires m1 < m2 && |FormatInt(m1)| == |FormatInt(m2)|
    ensures Less(BoltItemKey(m1, r1), BoltItemKey(m2, r2))
  {
    EqualWidthOrder(m1, m2);
    LessSameLength(FormatInt(m1), FormatInt(m2), [Dot] + r1, [Dot] + r2);
    BoltKeySplit(m1, r1);
    BoltKeySplit(m2, r2);
  }

  lemma BoltKeySplit(ms: int, rand: Bytes)
    ensures BoltItemKey(ms, rand) == FormatInt(ms) + ([Dot] + rand)
  {
  }

  /** Badger's item key is the queue's prefix followed by Bolt's item key. */
  lemma BadgerKeySplit(a: nat, ms: int, rand: Bytes)
    ensures BadgerItemKey(a, ms, rand) == ItemPrefix(a) + BoltItemKey(ms, rand)
  {
    var k := BadgerItemKey(a, ms, rand);
    assert k == k[..|ItemPrefix(a)|] + k[|ItemPrefix(a)|..];
  }

  /** Where the widths differ the order breaks: the item ready at 10000 ms
      sorts before the one ready at 9999 ms. */
  lemma WiderTimeSortsFirst(r1: Bytes, r2: Bytes)
    ensures UnixNanos(9999) < UnixNanos(10000)
    ensures Less(BoltItemKey(10000, r1), BoltItemKey(9999, r2))
  {
    assert FormatUint(1, 10) == [49];
    assert FormatUint(10, 10)[0] == 49;
    assert FormatUint(100, 10)[0] == 49;
    assert FormatUint(1000, 10)[0] == 49;
    assert FormatInt(10000)[0] == 49;
    assert FormatUint(9, 10) == [57];
    assert FormatUint(99, 10)[0] == 57;
    assert FormatUint(999, 10)[0] == 57;
    assert FormatInt(9999)[0] == 57;
    assert BoltItemKey(10000, r1)[0] == 49 && BoltItemKey(9999, r2)[0] == 57;
  }

  /** When an item pushed at `now` with `delay` is visible to Pop: at every
      clock reading from now + delay on, and never more than a second before
      it (the leftover milliseconds are read back as nanoseconds). */
  lemma ReadyWindow(now: int, delay: int, clock: int)
    requires 0 <= now + delay
    ensures now + delay <= clock ==> UnixNanos(ReadyMillis(now, delay)) <= clock
    ensures UnixNanos(ReadyMillis(now, delay)) <= clock ==> now + delay - 1_000_000_000 < clock
  {
    var t := now + delay;
    var ms := ReadyMillis(now, delay);
    assert ms == t / 1_000_000;
    var q, r := ms / 1000, ms % 1000;
    assert UnixNanos(ms) == q * 1_000_000_000 + r;
    assert ms * 1_000_000 <= t < ms * 1_000_000 + 1_000_000;
    assert ms * 1_000_000 == q * 1_000_000_000 + r * 1_000_000;
  }

  /** The early visibility is real: an item due at 1.5 s is ready at 1 s plus
      500 ns. */
  lemma ReadyBeforeDue()
    ensures UnixNanos(ReadyMillis(0, 1_500_000_000)) == 1_000_000_500
  {
  }

  /** The instant that time.Unix(ms/1000, (ms%1000)*1e6) denotes: the
      milliseconds since the epoch as nanoseconds. */
  function IntendedNanos(ms: int): int
  {
    ms * 1_000_000
  }

  /** With the milliseconds scaled properly, an item pushed at `now` with
      `delay` is visible from now + delay on and never a millisecond early. */
  lemma IntendedReadyWindow(now: int, delay: int, clock: int)
    requires 0 <= now + delay
    ensures now + delay <= clock ==> IntendedNanos(ReadyMillis(now, delay)) <= clock
    ensures IntendedNanos(ReadyMillis(now, delay)) <= clock ==> now + delay - 1_000_000 < clock
  {
    var t := now + delay;
    var ms := ReadyMillis(now, delay);
    assert ms * 1_000_000 <= t < ms * 1_000_000 + 1_000_000;
  }

  /** A fixed-width ready time: 19 decimal digits hold every non-negative
      int64. */
  const TimeWidth: nat := 19

  /** An item key whose ready time is written zero-padded to TimeWidth
      digits. */
  function PaddedItemKey(ms: nat, rand: Bytes): Bytes
  {
    PadDecimal(ms, TimeWidth) + [Dot] + rand
  }

  /** Every non-negative int64 fits in TimeWidth digits. */
  lemma TimeWidthHoldsInt64()
    ensures MaxInt64 < Pow10(TimeWidth)
  {
    Pow10Add(3, 3);
    Pow10Add(6, 6);
    Pow10Add(12, 6);
    Pow10Add(18, 1);
  }

  /** With fixed-width times, key order is time order for every pair of
      times, whatever the random bytes. */
  lemma PaddedKeysInTimeOrder(m1: nat, m2: nat, r1: Bytes, r2: Bytes)
    requires m1 < m2 <= MaxInt64
    ensures Less(PaddedItemKey(m1, r1), PaddedItemKey(m2, r2))
  {
    TimeWidthHoldsInt64();
    PadDecimalOrder(m1, m2, TimeWidth);
    LessSameLength(PadDecimal(m1, TimeWidth), PadDecimal(m2, TimeWidth), [Dot] + r1, [Dot] + r2);
    assert PaddedItemKey(m1, r1) == PadDecimal(m1, TimeWidth) + ([Dot] + r1);
    assert PaddedItemKey(m2, r2) == PadDecimal(m2, TimeWidth) + ([Dot] + r2);
  }

  /** The padded time reads back as the number it encodes. */
  lemma PaddedKeyRoundTrip(ms: nat, rand: Bytes)
    requires ms <= MaxInt64
    ensures TsDefined(PaddedItemKey(ms, rand), 0)
    ensures ParseTs(PaddedItemKey(ms, rand), 0) == UnixNanos(ms)
  {
    PaddedTimeField(ms, rand);
    PaddedDigitsParse(ms);
  }

  /** The time field of a padded key is its TimeWidth digits. */
  lemma PaddedTimeField(ms: nat, rand: Bytes)
    ensures TsDefined(PaddedItemKey(ms, rand), 0)
    ensures TimeField(PaddedItemKey(ms, rand), 0) == PadDecimal(ms, TimeWidth)
  {
    var digits := PadDecimal(ms, TimeWidth);
    var k := PaddedItemKey(ms, rand);
    NoDotInDigits(digits, 10);
    assert k[..] == k && k[TimeWidth] == Dot;
    assert IndexOf(k, Dot) == TimeWidth by {
      forall j | 0 <= j < TimeWidth ensures k[j] != Dot {
        assert k[j] == digits[j];
      }
    }
    assert k[..TimeWidth] == digits;
  }

  /** TimeWidth zero-padded digits of a non-negative int64 parse back to it. */
  lemma PaddedDigitsParse(ms: nat)
    requires ms <= MaxInt64
    ensures ParseInt(PadDecimal(ms, TimeWidth)).value == ms
  {
    var digits := PadDecimal(ms, TimeWidth);
    TimeWidthHoldsInt64();
    NoDotInDigits(digits, 10);
    FoldPadDecimal(ms, TimeWidth);
    AccumulateFold(digits, 10, 0);
    assert DigitValue(Plus) == 36 && DigitValue(Minus) == 36;
  }
}
