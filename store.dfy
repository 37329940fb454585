/** An ordered key-value store, as both engines present it to the queue
    code: entries kept strictly ascending by key, so that an iterator visits
    them in lexicographic key order. Badger's key space is one such
    sequence; each Bolt bucket is another. */
module Store {
  import opened Bytes

  datatype Entry = Entry(key: Bytes, value: Bytes)

  /** Keys strictly ascending, hence also distinct. */
  predicate Sorted(es: seq<Entry>)
  {
    forall i, j :: 0 <= i < j < |es| ==> Less(es[i].key, es[j].key)
  }

  /** Every entry of es has a key above k. */
  predicate Above(k: Bytes, es: seq<Entry>)
  {
    forall j :: 0 <= j < |es| ==> Less(k, es[j].key)
  }

  lemma SortedCons(x: Entry, t: seq<Entry>)
    requires Sorted(t) && Above(x.key, t)
    ensures Sorted([x] + t)
  {
    var s := [x] + t;
    forall i, j | 0 <= i < j < |s| ensures Less(s[i].key, s[j].key) {
      if i > 0 {
        assert s[i] == t[i - 1] && s[j] == t[j - 1];
      } else {
        assert s[j] == t[j - 1];
      }
    }
  }

  /** A key below the first key of a sorted sequence is below all of them. */
  lemma AboveAll(k: Bytes, es: seq<Entry>)
    requires Sorted(es) && |es| > 0 && Less(k, es[0].key)
    ensures Above(k, es)
  {
    forall j | 0 < j < |es| ensures Less(k, es[j].key) {
      LessTransitive(k, es[0].key, es[j].key);
    }
  }

  lemma AboveMember(k: Bytes, es: seq<Entry>, e: Entry)
    requires Above(k, es) && e in es
    ensures Less(k, e.key)
  {
    var j :| 0 <= j < |es| && es[j] == e;
  }

  /** A sorted sequence holds at most one entry per key. */
  lemma SortedKeysUnique(es: seq<Entry>, e1: Entry, e2: Entry)
    requires Sorted(es) && e1 in es && e2 in es && e1.key == e2.key
    ensures e1 == e2
  {
    var i :| 0 <= i < |es| && es[i] == e1;
    var j :| 0 <= j < |es| && es[j] == e2;
    if i != j {
      LessIrreflexive(e1.key);
    }
  }

  /** txn.Set / bucket.Put: the entry for k is now (k, v), replacing any
      earlier value; everything else stays, and the order is kept. */
  function Insert(es: seq<Entry>, k: Bytes, v: Bytes): (r: seq<Entry>)
    requires Sorted(es)
    ensures Sorted(r)
    ensures forall e :: e in r <==> (e in es && e.key != k) || e == Entry(k, v)
  {
    if |es| == 0 then [Entry(k, v)]
    else if es[0].key == k then
      var t := es[1..];
      assert Above(k, t) by {
        forall j | 0 <= j < |t| ensures Less(k, t[j].key) {
          assert t[j] == es[j + 1];
        }
      }
      assert forall e | e in t :: e.key != k by {
        forall e | e in t ensures e.key != k {
          AboveMember(k, t, e);
          LessIrreflexive(k);
        }
      }
      SortedCons(Entry(k, v), t);
      [Entry(k, v)] + t
    else if Less(k, es[0].key) then
      AboveAll(k, es);
      assert forall e | e in es :: e.key != k by {
        forall e | e in es ensures e.key != k {
          AboveMember(k, es, e);
          LessIrreflexive(k);
        }
      }
      SortedCons(Entry(k, v), es);
      [Entry(k, v)] + es
    else
      var t := Insert(es[1..], k, v);
      LessTotal(k, es[0].key);
      assert Above(es[0].key, t) by {
        forall j | 0 <= j < |t| ensures Less(es[0].key, t[j].key) {
          if t[j] != Entry(k, v) {
            assert t[j] in es[1..];
            var m :| 0 <= m < |es[1..]| && es[1..][m] == t[j];
            assert es[m + 1] == t[j];
          }
        }
      }
      SortedCons(es[0], t);
      assert es == [es[0]] + es[1..];
      [es[0]] + t
  }

  /** The entries whose keys are not among the staged deletions ks, in their
      order: what a commit of those deletions leaves. */
  function Remove(es: seq<Entry>, ks: seq<Bytes>): (r: seq<Entry>)
    requires Sorted(es)
    ensures Sorted(r)
    ensures forall e :: e in r <==> e in es && e.key !in ks
  {
    if |es| == 0 then []
    else
      var t := Remove(es[1..], ks);
      assert es == [es[0]] + es[1..];
      if es[0].key in ks then t
      else
        assert Above(es[0].key, t) by {
          forall j | 0 <= j < |t| ensures Less(es[0].key, t[j].key) {
            assert t[j] in es[1..];
            var m :| 0 <= m < |es[1..]| && es[1..][m] == t[j];
            assert es[m + 1] == t[j];
          }
        }
        SortedCons(es[0], t);
        [es[0]] + t
  }

  /** Where it.Seek(p) lands: the first entry whose key is not below p. */
  function SeekIndex(es: seq<Entry>, p: Bytes): (i: nat)
    ensures i <= |es|
    ensures forall j :: 0 <= j < i ==> Less(es[j].key, p)
    ensures i < |es| ==> !Less(es[i].key, p)
  {
    if |es| == 0 then 0
    else if Less(es[0].key, p) then 1 + SeekIndex(es[1..], p)
    else 0
  }

  /** Where it.ValidForPrefix(p) first fails walking on from i. */
  function PrefixEnd(es: seq<Entry>, p: Bytes, i: nat): (j: nat)
    requires i <= |es|
    ensures i <= j <= |es|
    ensures forall m :: i <= m < j ==> HasPrefix(es[m].key, p)
    ensures j < |es| ==> !HasPrefix(es[j].key, p)
    decreases |es| - i
  {
    if i == |es| || !HasPrefix(es[i].key, p) then i else PrefixEnd(es, p, i + 1)
  }

  /** The entries an iterator scoped to prefix p visits, in order:
      Seek(p), then Next while ValidForPrefix(p). */
  function Scan(es: seq<Entry>, p: Bytes): seq<Entry>
  {
    var s := SeekIndex(es, p);
    es[s..PrefixEnd(es, p, s)]
  }

  /** In a sorted store the scan of p visits exactly the entries whose keys
      carry p, in ascending key order: the prefix range is contiguous. */
  lemma ScanIsPrefixRange(es: seq<Entry>, p: Bytes)
    requires Sorted(es)
    ensures Sorted(Scan(es, p))
    ensures forall e :: e in Scan(es, p) <==> e in es && HasPrefix(e.key, p)
  {
    var s := SeekIndex(es, p);
    SliceSorted(es, s, PrefixEnd(es, p, s));
    ScanCovers(es, p);
    ScanOnly(es, p);
  }

  lemma ScanCovers(es: seq<Entry>, p: Bytes)
    requires Sorted(es)
    ensures forall e :: e in es && HasPrefix(e.key, p) ==> e in Scan(es, p)
  {
    var s := SeekIndex(es, p);
    var w := Scan(es, p);
    forall e | e in es && HasPrefix(e.key, p) ensures e in w {
      var j :| 0 <= j < |es| && es[j] == e;
      ScanReachesPrefixed(es, p, j);
      assert w[j - s] == e;
    }
  }

  lemma ScanOnly(es: seq<Entry>, p: Bytes)
    ensures forall e :: e in Scan(es, p) ==> e in es && HasPrefix(e.key, p)
  {
    var s := SeekIndex(es, p);
    var w := Scan(es, p);
    forall e | e in w ensures e in es && HasPrefix(e.key, p) {
      var j :| 0 <= j < |w| && w[j] == e;
      assert es[s + j] == e;
    }
  }

  lemma SliceSorted(es: seq<Entry>, i: nat, j: nat)
    requires Sorted(es) && i <= j <= |es|
    ensures Sorted(es[i..j])
  {
    var w := es[i..j];
    forall a, b | 0 <= a < b < |w| ensures Less(w[a].key, w[b].key) {
      assert w[a] == es[i + a] && w[b] == es[i + b];
    }
  }

  /** Every entry carrying p lies between the seek position and the end of
      the scan. */
  lemma ScanReachesPrefixed(es: seq<Entry>, p: Bytes, j: nat)
    requires Sorted(es) && j < |es| && HasPrefix(es[j].key, p)
    ensures SeekIndex(es, p) <= j < PrefixEnd(es, p, SeekIndex(es, p))
  {
    var s := SeekIndex(es, p);
    PrefixNotLess(es[j].key, p);
    assert s <= j;
    var t := PrefixEnd(es, p, s);
    if t <= j {
      // es[t] lies between p and es[j], so it would carry p as well
      assert !Less(es[t].key, p) by {
        if s < t && Less(es[t].key, p) {
          LessTransitive(es[s].key, es[t].key, p);
        }
      }
      if t < j {
        LessAsymmetric(es[t].key, es[j].key);
      }
      PrefixBetween(p, es[t].key, es[j].key);
      assert false;
    }
  }

  /** The values of es, in order. */
  function Values(es: seq<Entry>): (vs: seq<Bytes>)
    ensures |vs| == |es|
    ensures forall j :: 0 <= j < |es| ==> vs[j] == es[j].value
  {
    seq(|es|, j requires 0 <= j < |es| => es[j].value)
  }

  /** The keys of es, in order. */
  function KeysOf(es: seq<Entry>): (ks: seq<Bytes>)
    ensures |ks| == |es|
    ensures forall j :: 0 <= j < |es| ==> ks[j] == es[j].key
  {
    seq(|es|, j requires 0 <= j < |es| => es[j].key)
  }

  /** Extending a walked prefix by one entry extends its values and keys. */
  lemma SnocStep(w: seq<Entry>, t: nat)
    requires t < |w|
    ensures Values(w[..t + 1]) == Values(w[..t]) + [w[t].value]
    ensures KeysOf(w[..t + 1]) == KeysOf(w[..t]) + [w[t].key]
  {
    assert w[..t + 1][..t] == w[..t];
  }

  /** In a sorted store, a key of some entries taken from it names exactly
      those entries. */
  lemma KeysNameEntries(es: seq<Entry>, taken: seq<Entry>)
    requires Sorted(es)
    requires forall j :: 0 <= j < |taken| ==> taken[j] in es
    ensures forall e :: e in es ==> (e.key in KeysOf(taken) <==> e in taken)
  {
    forall e | e in es ensures e.key in KeysOf(taken) <==> e in taken {
      if e.key in KeysOf(taken) {
        var j :| 0 <= j < |taken| && KeysOf(taken)[j] == e.key;
        SortedKeysUnique(es, e, taken[j]);
      }
    }
  }
}
