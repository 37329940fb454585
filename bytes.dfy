/** Byte strings as both key-value engines see them: keys and values are
    sequences of octets, and iteration visits keys in lexicographic order
    (the order of Go's bytes.Compare). */
module Bytes {

  /** An octet. */
  type byte = b: int | 0 <= b < 256

  type Bytes = seq<byte>

  /** The separator byte '.' that joins the segments of every composed key. */
  const Dot: byte := 46

  predicate HasPrefix(s: Bytes, p: Bytes)
  {
    |p| <= |s| && s[..|p|] == p
  }

  lemma PrefixOfConcat(p: Bytes, x: Bytes)
    ensures HasPrefix(p + x, p)
  {
    assert (p + x)[..|p|] == p;
  }

  lemma ConcatAssoc(a: Bytes, b: Bytes, c: Bytes, d: Bytes)
    ensures a + b + c + d == a + (b + c + d)
  {
  }

  /** Strict lexicographic order on byte strings: a proper prefix sorts first,
      otherwise the first differing byte decides. */
  predicate Less(a: Bytes, b: Bytes)
    decreases |a|
  {
    if |a| == 0 then |b| > 0
    else if |b| == 0 then false
    else if a[0] != b[0] then a[0] < b[0]
    else Less(a[1..], b[1..])
  }

  lemma {:induction false} LessIrreflexive(a: Bytes)
    ensures !Less(a, a)
  {
    if |a| > 0 {
      LessIrreflexive(a[1..]);
    }
  }

  lemma {:induction false} LessAsymmetric(a: Bytes, b: Bytes)
    requires Less(a, b)
    ensures !Less(b, a)
  {
    if |a| > 0 && |b| > 0 && a[0] == b[0] {
      LessAsymmetric(a[1..], b[1..]);
    }
  }

  lemma {:induction false} LessTransitive(a: Bytes, b: Bytes, c: Bytes)
    requires Less(a, b) && Less(b, c)
    ensures Less(a, c)
  {
    if |a| > 0 && a[0] == b[0] && b[0] == c[0] {
      LessTransitive(a[1..], b[1..], c[1..]);
    }
  }

  /** Any two byte strings are equal or ordered one way or the other. */
  lemma {:induction false} LessTotal(a: Bytes, b: Bytes)
    ensures a == b || Less(a, b) || Less(b, a)
  {
    if |a| > 0 && |b| > 0 && a[0] == b[0] {
      LessTotal(a[1..], b[1..]);
      if a[1..] == b[1..] {
        assert a == [a[0]] + a[1..] && b == [b[0]] + b[1..];
      }
    }
  }

  /** A string never sorts before one of its prefixes. */
  lemma {:induction false} PrefixNotLess(k: Bytes, p: Bytes)
    requires HasPrefix(k, p)
    ensures !Less(k, p)
  {
    if |p| > 0 {
      assert k[0] == p[0];
      assert HasPrefix(k[1..], p[1..]) by {
        assert k[1..][..|p| - 1] == k[..|p|][1..];
      }
      PrefixNotLess(k[1..], p[1..]);
    }
  }

  /** The strings that carry a prefix form one contiguous run in
      lexicographic order: whatever lies between the prefix itself and a
      string carrying it carries it too. */
  lemma {:induction false} PrefixBetween(p: Bytes, b: Bytes, c: Bytes)
    requires !Less(b, p) && !Less(c, b) && HasPrefix(c, p)
    ensures HasPrefix(b, p)
  {
    if |p| > 0 {
      assert c[0] == p[0];
      assert b[0] == p[0];
      assert HasPrefix(c[1..], p[1..]) by {
        assert c[1..][..|p| - 1] == c[..|p|][1..];
      }
      PrefixBetween(p[1..], b[1..], c[1..]);
      assert b[..|p|] == [b[0]] + b[1..][..|p| - 1];
      assert p == [p[0]] + p[1..];
    }
  }

  /** A common prefix does not affect the order. */
  lemma {:induction false} LessCommonPrefix(p: Bytes, x: Bytes, y: Bytes)
    ensures Less(p + x, p + y) == Less(x, y)
  {
    if |p| > 0 {
      assert (p + x)[1..] == p[1..] + x;
      assert (p + y)[1..] == p[1..] + y;
      LessCommonPrefix(p[1..], x, y);
    } else {
      assert p + x == x && p + y == y;
    }
  }

  /** Between strings of equal length the order is decided inside them,
      whatever follows. */
  lemma {:induction false} LessSameLength(x: Bytes, y: Bytes, u: Bytes, v: Bytes)
    requires |x| == |y| && Less(x, y)
    ensures Less(x + u, y + v)
  {
    if x[0] == y[0] {
      assert (x + u)[1..] == x[1..] + u;
      assert (y + v)[1..] == y[1..] + v;
      LessSameLength(x[1..], y[1..], u, v);
    }
  }

  /** Position of the first occurrence of x in s (|s| when there is none),
      as Go's bytes.IndexByte reports it for a byte that occurs. */
  function IndexOf(s: Bytes, x: byte): (i: nat)
    ensures i <= |s|
    ensures i < |s| <==> x in s
    ensures i < |s| ==> s[i] == x
    ensures forall j :: 0 <= j < i ==> s[j] != x
  {
    if |s| == 0 then 0
    else if s[0] == x then 0
    else 1 + IndexOf(s[1..], x)
  }
}
