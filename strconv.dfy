/** The integer formatting and parsing the engines rely on, following Go's
    strconv: FormatUint / FormatInt write digits most significant first with
    lower-case letters above 9; ParseUint / ParseInt read them left to right,
    reporting the first syntax or range error they meet. */
module Strconv {
  import opened Bytes
  import opened Wrappers

  const MaxUint64: nat := 0xFFFF_FFFF_FFFF_FFFF
  const MaxInt64: int := 0x7FFF_FFFF_FFFF_FFFF
  const MinInt64: int := -0x8000_0000_0000_0000

  const Plus: byte := 43
  const Minus: byte := 45

  datatype NumError = ErrSyntax | ErrRange

  /** What a Parse call hands back: the value (0 after a syntax error, the
      clamped bound after a range error) and the error, if any. */
  datatype Parsed = Parsed(value: int, err: Option<NumError>)

  /** The digit a byte stands for: '0'..'9', then letters of either case
      from 10 on; 36 (a digit of no base) for every other byte. */
  function DigitValue(c: byte): nat
  {
    if 48 <= c <= 57 then c - 48
    else if 97 <= c <= 122 then c - 87
    else if 65 <= c <= 90 then c - 55
    else 36
  }

  /** The byte written for digit d: '0'..'9', then 'a'..'z'. */
  function DigitByte(d: nat): (c: byte)
    requires d < 36
    ensures DigitValue(c) == d
  {
    if d < 10 then 48 + d else 87 + d
  }

  predicate AllDigits(s: Bytes, base: nat)
  {
    forall i :: 0 <= i < |s| ==> DigitValue(s[i]) < base
  }

  /** Neither the separator nor a sign is a digit of any base. */
  lemma NoDotInDigits(s: Bytes, base: nat)
    requires base <= 36 && AllDigits(s, base)
    ensures Dot !in s && Minus !in s
  {
    assert DigitValue(Dot) == 36 && DigitValue(Minus) == 36;
  }

  /** strconv.FormatUint(n, base). */
  function FormatUint(n: nat, base: nat): (s: Bytes)
    requires 2 <= base <= 36
    ensures 1 <= |s| && AllDigits(s, base)
    ensures DigitValue(s[0]) == 0 <==> n == 0
    decreases n
  {
    if n < base then [DigitByte(n)] else FormatUint(n / base, base) + [DigitByte(n % base)]
  }

  /** strconv.FormatInt(i, 10): an optional '-' and the decimal digits of |i|. */
  function FormatInt(i: int): (r: Bytes)
    ensures 1 <= |r|
    ensures r[0] == Minus <==> i < 0
  {
    if i < 0 then [Minus] + FormatUint(-i, 10)
    else
      var digits := FormatUint(i, 10);
      assert DigitValue(Minus) == 36 && DigitValue(digits[0]) < 10;
      digits
  }

  /** The number that the digits of s denote in the given base, read left to
      right starting from the running value acc. */
  function Fold(s: Bytes, base: nat, acc: nat): nat
    decreases |s|
  {
    if |s| == 0 then acc else Fold(s[1..], base, acc * base + DigitValue(s[0]))
  }

  /** The digit loop of strconv.ParseUint: the first byte that is not a digit
      of the base is a syntax error; a value that would pass 2^64 - 1 is a
      range error with the value clamped to 2^64 - 1. */
  function Accumulate(s: Bytes, base: nat, acc: nat): (r: Parsed)
    requires 2 <= base <= 36
    ensures 0 <= r.value && (acc <= MaxUint64 ==> r.value <= MaxUint64)
    ensures r.err == Some(ErrSyntax) ==> r.value == 0
    ensures r.err == Some(ErrRange) ==> r.value == MaxUint64
    decreases |s|
  {
    if |s| == 0 then Parsed(acc, None)
    else
      var d := DigitValue(s[0]);
      if d >= base then Parsed(0, Some(ErrSyntax))
      else if acc * base + d > MaxUint64 then Parsed(MaxUint64, Some(ErrRange))
      else Accumulate(s[1..], base, acc * base + d)
  }

  /** strconv.ParseUint(s, base, 64). */
  function ParseUint(s: Bytes, base: nat): (r: Parsed)
    requires 2 <= base <= 36
    ensures 0 <= r.value <= MaxUint64
    ensures r.err == Some(ErrSyntax) ==> r.value == 0
    ensures r.err == Some(ErrRange) ==> r.value == MaxUint64
    ensures r.err.None? <==> 0 < |s| && AllDigits(s, base) && Fold(s, base, 0) <= MaxUint64
  {
    if |s| == 0 then Parsed(0, Some(ErrSyntax))
    else
      AccumulateAccepts(s, base, 0);
      Accumulate(s, base, 0)
  }

  /** The digit loop succeeds exactly on digits of the base whose number
      stays within 2^64 - 1. */
  lemma {:induction false} AccumulateAccepts(s: Bytes, base: nat, acc: nat)
    requires 2 <= base <= 36 && acc <= MaxUint64
    ensures Accumulate(s, base, acc).err.None? <==> AllDigits(s, base) && Fold(s, base, acc) <= MaxUint64
    decreases |s|
  {
    if |s| > 0 {
      var d := DigitValue(s[0]);
      var acc' := acc * base + d;
      assert AllDigits(s, base) <==> d < base && AllDigits(s[1..], base) by {
        if d < base && AllDigits(s[1..], base) {
          forall i | 0 <= i < |s| ensures DigitValue(s[i]) < base {
            if i > 0 { assert s[i] == s[1..][i - 1]; }
          }
        }
      }
      if d < base {
        if acc' > MaxUint64 {
          FoldGrows(s[1..], base, acc');
        } else {
          AccumulateAccepts(s[1..], base, acc');
        }
      }
    }
  }

  /** strconv.ParseInt(s, 10, 64): an optional sign, then ParseUint of the
      rest; a magnitude outside the int64 range is clamped with ErrRange. */
  function ParseInt(s: Bytes): (r: Parsed)
    ensures MinInt64 <= r.value <= MaxInt64
    ensures r.err == Some(ErrSyntax) ==> r.value == 0
    ensures r.err == Some(ErrRange) ==> r.value == MinInt64 || r.value == MaxInt64
  {
    if |s| == 0 then Parsed(0, Some(ErrSyntax))
    else
      var neg := s[0] == Minus;
      var digits := if s[0] == Plus || s[0] == Minus then s[1..] else s;
      var u := ParseUint(digits, 10);
      if u.err == Some(ErrSyntax) then Parsed(0, Some(ErrSyntax))
      else if !neg && u.value >= 0x8000_0000_0000_0000 then Parsed(MaxInt64, Some(ErrRange))
      else if neg && u.value > 0x8000_0000_0000_0000 then Parsed(MinInt64, Some(ErrRange))
      else Parsed(if neg then -u.value else u.value, None)
  }

  lemma {:induction false} FoldSnoc(s: Bytes, c: byte, base: nat, acc: nat)
    ensures Fold(s + [c], base, acc) == Fold(s, base, acc) * base + DigitValue(c)
    decreases |s|
  {
    if |s| == 0 {
      assert s + [c] == [c];
    } else {
      assert (s + [c])[1..] == s[1..] + [c];
      FoldSnoc(s[1..], c, base, acc * base + DigitValue(s[0]));
    }
  }

  lemma {:induction false} FoldGrows(s: Bytes, base: nat, acc: nat)
    requires 1 <= base
    ensures acc <= Fold(s, base, acc)
    decreases |s|
  {
    if |s| > 0 {
      var acc' := acc * base + DigitValue(s[0]);
      MulGrows(acc, base);
      FoldGrows(s[1..], base, acc');
    }
  }

  lemma MulGrows(a: nat, b: nat)
    requires 1 <= b
    ensures a <= a * b
  {
  }

  lemma DivMod(n: nat, base: nat)
    requires 0 < base
    ensures (n / base) * base + n % base == n
  {
  }

  /** Reading back what FormatUint wrote gives the number. */
  lemma {:induction false} FoldFormat(n: nat, base: nat)
    requires 2 <= base <= 36
    ensures Fold(FormatUint(n, base), base, 0) == n
    decreases n
  {
    if n < base {
      assert FormatUint(n, base) == [DigitByte(n)];
      assert Fold([DigitByte(n)], base, 0) == Fold([], base, n);
    } else {
      FoldFormat(n / base, base);
      FoldFormatStep(n, base);
    }
  }

  lemma FoldFormatStep(n: nat, base: nat)
    requires 2 <= base <= 36 && base <= n
    requires Fold(FormatUint(n / base, base), base, 0) == n / base
    ensures Fold(FormatUint(n, base), base, 0) == n
  {
    var q, r := n / base, n % base;
    var head := FormatUint(q, base);
    FoldSnoc(head, DigitByte(r), base, 0);
    assert FormatUint(n, base) == head + [DigitByte(r)];
    DivMod(n, base);
  }

  /** Without an error, the digit loop yields exactly the number the digits
      denote. */
  lemma {:induction false} AccumulateFold(s: Bytes, base: nat, acc: nat)
    requires 2 <= base <= 36
    requires AllDigits(s, base) && Fold(s, base, acc) <= MaxUint64
    ensures Accumulate(s, base, acc) == Parsed(Fold(s, base, acc), None)
    decreases |s|
  {
    if |s| > 0 {
      var acc' := acc * base + DigitValue(s[0]);
      FoldGrows(s[1..], base, acc');
      AccumulateFold(s[1..], base, acc');
    }
  }

  /** Whatever the digit loop returns without an error is the number its
      input denotes. */
  lemma AccumulateValue(s: Bytes, base: nat, acc: nat)
    requires 2 <= base <= 36
    requires Accumulate(s, base, acc).err == None
    ensures Accumulate(s, base, acc).value == Fold(s, base, acc)
  {
    if |s| > 0 {
      // a running value already past 2^64 - 1 would end in a range error
      MulGrows(acc, base);
      AccumulateAccepts(s, base, acc);
      AccumulateFold(s, base, acc);
    }
  }


  /** Round trip: ParseUint(FormatUint(n, b), b) == n for every uint64 n. */
  lemma ParseFormatUint(n: nat, base: nat)
    requires 2 <= base <= 36 && n <= MaxUint64
    ensures ParseUint(FormatUint(n, base), base) == Parsed(n, None)
  {
    FoldFormat(n, base);
    AccumulateFold(FormatUint(n, base), base, 0);
  }

  /** Round trip: ParseInt(FormatInt(i)) == i for every int64 i. */
  lemma ParseFormatInt(i: int)
    requires MinInt64 <= i <= MaxInt64
    ensures ParseInt(FormatInt(i)) == Parsed(i, None)
  {
    var s := FormatInt(i);
    if i < 0 {
      ParseFormatUint(-i, 10);
      assert s[0] == Minus && s[1..] == FormatUint(-i, 10);
    } else {
      ParseFormatUint(i, 10);
      NoDotInDigits(s, 10);
      assert s[0] != Minus;
      assert DigitValue(Plus) == 36;
      assert s[0] != Plus;
    }
  }

  /** FormatInt never writes the separator. */
  lemma NoDotInFormatInt(i: int)
    ensures Dot !in FormatInt(i)
  {
    if i < 0 {
      NoDotInDigits(FormatUint(-i, 10), 10);
      assert FormatInt(i) == [Minus] + FormatUint(-i, 10);
    } else {
      NoDotInDigits(FormatUint(i, 10), 10);
    }
  }

  /** FormatUint is injective: distinct numbers are written differently. */
  lemma FormatUintInjective(a: nat, b: nat, base: nat)
    requires 2 <= base <= 36
    requires FormatUint(a, base) == FormatUint(b, base)
    ensures a == b
  {
    FoldFormat(a, base);
    FoldFormat(b, base);
  }

  function Pow10(w: nat): (p: nat)
    ensures 1 <= p
  {
    if w == 0 then 1 else 10 * Pow10(w - 1)
  }

  lemma {:induction false} Pow10Add(a: nat, b: nat)
    ensures Pow10(a + b) == Pow10(a) * Pow10(b)
    decreases a
  {
    if a > 0 {
      Pow10Add(a - 1, b);
    }
  }

  /** The last w decimal digits of n, zero-padded on the left: a fixed-width
      encoding of any n below 10^w. */
  function PadDecimal(n: nat, w: nat): (s: Bytes)
    ensures |s| == w && AllDigits(s, 10)
  {
    if w == 0 then [] else PadDecimal(n / 10, w - 1) + [DigitByte(n % 10)]
  }

  /** Among fixed-width decimal strings lexicographic order is numeric order. */
  lemma {:induction false} PadDecimalOrder(a: nat, b: nat, w: nat)
    requires a < b < Pow10(w)
    ensures Less(PadDecimal(a, w), PadDecimal(b, w))
  {
    if w == 0 {
    } else {
      var qa, qb := a / 10, b / 10;
      assert qb < Pow10(w - 1);
      if qa < qb {
        PadDecimalOrder(qa, qb, w - 1);
        LessSameLength(PadDecimal(qa, w - 1), PadDecimal(qb, w - 1), [DigitByte(a % 10)], [DigitByte(b % 10)]);
      } else {
        assert qa == qb && a % 10 < b % 10;
        LessCommonPrefix(PadDecimal(qa, w - 1), [DigitByte(a % 10)], [DigitByte(b % 10)]);
      }
    }
  }

  /** The fixed-width encoding reads back as the number. */
  lemma {:induction false} FoldPadDecimal(n: nat, w: nat)
    requires n < Pow10(w)
    ensures Fold(PadDecimal(n, w), 10, 0) == n
  {
    if w > 0 {
      FoldPadDecimal(n / 10, w - 1);
      FoldSnoc(PadDecimal(n / 10, w - 1), DigitByte(n % 10), 10, 0);
    }
  }

  /** A plain decimal numeral is its own fixed-width encoding at its own width. */
  lemma {:induction false} FormatIsPadded(n: nat)
    ensures FormatUint(n, 10) == PadDecimal(n, |FormatUint(n, 10)|)
    ensures n < Pow10(|FormatUint(n, 10)|)
    decreases n
  {
    if n >= 10 {
      FormatIsPadded(n / 10);
    }
  }

  /** Decimal numerals of equal length sort as their numbers do. */
  lemma EqualWidthOrder(a: nat, b: nat)
    requires a < b && |FormatUint(a, 10)| == |FormatUint(b, 10)|
    ensures Less(FormatUint(a, 10), FormatUint(b, 10))
  {
    FormatIsPadded(a);
    FormatIsPadded(b);
    PadDecimalOrder(a, b, |FormatUint(a, 10)|);
  }
}
