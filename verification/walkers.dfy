/** Snapshot directory names (src/walkers.cpp): the base volume is copied
    into "vss_base" and shadow store i of n into "vss_" + zeroPad(i, n),
    the number written in decimal and padded on the left with '0' to the
    width of n, so that directory order follows store order and the base
    comes last. */
module Walkers {
  import opened Common

  function Pow10(k: nat): (p: nat)
    ensures p >= 1
  {
    if k == 0 then 1 else 10 * Pow10(k - 1)
  }

  predicate IsDigit(c: char)
  {
    '0' <= c <= '9'
  }

  predicate AllDigits(s: string)
  {
    forall k :: 0 <= k < |s| ==> IsDigit(s[k])
  }

  function DigitChar(d: nat): (c: char)
    requires d < 10
    ensures IsDigit(c) && c as int - '0' as int == d
  {
    (d + '0' as int) as char
  }

  function DigitValue(c: char): (d: nat)
    requires IsDigit(c)
    ensures d < 10
  {
    c as int - '0' as int
  }

  /** The value of a string of decimal digits, most significant first. */
  function Value(s: string): nat
    requires AllDigits(s)
  {
    if |s| == 0 then 0 else DigitValue(s[0]) * Pow10(|s| - 1) + Value(s[1..])
  }

  /** std::to_string of a natural number: no leading zeros, "0" for 0. */
  function Digits(x: nat): (s: string)
    ensures |s| >= 1 && AllDigits(s)
  {
    if x < 10 then [DigitChar(x)] else Digits(x / 10) + [DigitChar(x % 10)]
  }

  /** std::to_string of an int. */
  function DecimalString(x: int): string
  {
    if x < 0 then "-" + Digits(-x) else Digits(x)
  }

  function Repeat(c: char, k: nat): (s: string)
    ensures |s| == k && forall j :: 0 <= j < k ==> s[j] == c
  {
    if k == 0 then "" else [c] + Repeat(c, k - 1)
  }

  /** zeroPad(i, n): i written in decimal, right-adjusted in a field as wide
      as n is, the rest filled with '0'. The fill goes to the left of the
      whole text, sign included. */
  function ZeroPad(i: int, n: int): string
  {
    var d := DecimalString(i);
    var w := |DecimalString(n)|;
    if |d| >= w then d else Repeat('0', w - |d|) + d
  }

  const BASE_NAME := "vss_base"
  const STORE_PREFIX := "vss_"

  /** The directory of shadow store i of n. */
  function StoreName(i: int, n: int): string
  {
    STORE_PREFIX + ZeroPad(i, n)
  }

  // ---------------------------------------------------------------------
  // Decimal arithmetic

  lemma MulLe(a: nat, b: nat, p: nat)
    requires a <= b
    ensures a * p <= b * p
  {
  }

  lemma {:induction false} AppendDigits(s: string, c: char)
    requires AllDigits(s) && IsDigit(c)
    ensures AllDigits(s + [c])
  {
    forall k | 0 <= k < |s + [c]|
      ensures IsDigit((s + [c])[k])
    {
      if k < |s| {
        assert (s + [c])[k] == s[k];
      }
    }
  }

  lemma Regroup(d: int, p: int, v: int, e: int)
    ensures d * (10 * p) + (10 * v + e) == 10 * (d * p + v) + e
  {
  }

  lemma {:induction false} ValueAppend(s: string, c: char)
    requires AllDigits(s) && IsDigit(c)
    ensures AllDigits(s + [c])
    ensures Value(s + [c]) == 10 * Value(s) + DigitValue(c)
    decreases |s|
  {
    AppendDigits(s, c);
    if |s| > 0 {
      var t := s + [c];
      assert t[0] == s[0];
      assert t[1..] == s[1..] + [c];
      ValueAppend(s[1..], c);
      var d := DigitValue(s[0]);
      var p := Pow10(|s| - 1);
      assert Pow10(|t| - 1) == 10 * p;
      assert Value(t) == d * (10 * p) + (10 * Value(s[1..]) + DigitValue(c));
      Regroup(d, p, Value(s[1..]), DigitValue(c));
    }
  }

  /** Digits and Value are inverse: the text reads back as the number. */
  lemma {:induction false} DigitsValue(x: nat)
    ensures Value(Digits(x)) == x
  {
    if x >= 10 {
      DigitsValue(x / 10);
      ValueAppend(Digits(x / 10), DigitChar(x % 10));
    }
  }

  /** A digit string of length L is below 10^L. */
  lemma {:induction false} ValueBound(s: string)
    requires AllDigits(s)
    ensures Value(s) < Pow10(|s|)
  {
    if |s| > 0 {
      ValueBound(s[1..]);
      MulLe(DigitValue(s[0]), 9, Pow10(|s| - 1));
    }
  }

  /** Leading zeros do not change the value. */
  lemma {:induction false} LeadingZeros(k: nat, s: string)
    requires AllDigits(s)
    ensures AllDigits(Repeat('0', k) + s)
    ensures Value(Repeat('0', k) + s) == Value(s)
  {
    var t := Repeat('0', k) + s;
    forall j | 0 <= j < |t|
      ensures IsDigit(t[j])
    {
      if j >= k {
        assert t[j] == s[j - k];
      }
    }
    if k > 0 {
      var u := Repeat('0', k - 1) + s;
      assert t[1..] == u;
      LeadingZeros(k - 1, s);
      assert t[0] == '0';
      assert Value(t) == DigitValue(t[0]) * Pow10(|t| - 1) + Value(u);
    } else {
      assert t == s;
    }
  }

  /** The number of digits: 10^(L-1) <= x < 10^L for a positive x. */
  lemma {:induction false} DigitsWidth(x: nat)
    ensures x < Pow10(|Digits(x)|)
    ensures x >= 1 ==> Pow10(|Digits(x)| - 1) <= x
  {
    if x >= 10 {
      DigitsWidth(x / 10);
    }
  }

  /** A smaller number never has more digits. */
  lemma {:induction false} DigitsMonotone(i: nat, n: nat)
    requires i <= n
    ensures |Digits(i)| <= |Digits(n)|
  {
    if i >= 10 {
      DigitsMonotone(i / 10, n / 10);
    }
  }

  lemma Dominate(da: nat, db: nat, p: nat, va: nat, vb: nat)
    requires db < da && vb < p
    ensures db * p + vb < da * p + va
  {
    MulLe(db + 1, da, p);
    assert (db + 1) * p == db * p + p;
  }

  /** Of two digit strings of one length, the one with the greater first
      digit is the greater number. */
  lemma LeadingDigitDominates(a: string, b: string)
    requires AllDigits(a) && AllDigits(b) && |a| == |b| > 0
    requires a[0] > b[0]
    ensures Value(b) < Value(a)
  {
    var p := Pow10(|a| - 1);
    ValueBound(b[1..]);
    Dominate(DigitValue(a[0]), DigitValue(b[0]), p, Value(a[1..]), Value(b[1..]));
  }

  /** For digit strings of one length, the smaller number sorts first. */
  lemma {:induction false} SameWidthOrder(a: string, b: string)
    requires AllDigits(a) && AllDigits(b) && |a| == |b|
    requires Value(a) < Value(b)
    ensures StrLess(a, b)
  {
    if a[0] == b[0] {
      assert Value(a[1..]) < Value(b[1..]);
      SameWidthOrder(a[1..], b[1..]);
    } else if a[0] > b[0] {
      LeadingDigitDominates(a, b);
    }
  }

  // ---------------------------------------------------------------------
  // Properties of zeroPad

  /** The padded text is as wide as the wider of i and n, and never
      shorter than i's own text. */
  lemma ZeroPadLength(i: int, n: int)
    ensures |ZeroPad(i, n)| == if |DecimalString(i)| >= |DecimalString(n)| then |DecimalString(i)| else |DecimalString(n)|
  {
  }

  /** For a natural i the result is digits only and reads back as i: the
      padding is zeros on the left of i's own digits. */
  lemma ZeroPadValue(i: nat, n: int)
    ensures AllDigits(ZeroPad(i, n))
    ensures Value(ZeroPad(i, n)) == i
    ensures exists k: nat :: ZeroPad(i, n) == Repeat('0', k) + Digits(i)
  {
    var w := |DecimalString(n)|;
    DigitsValue(i);
    if |Digits(i)| >= w {
      assert ZeroPad(i, n) == Repeat('0', 0) + Digits(i);
    } else {
      LeadingZeros(w - |Digits(i)|, Digits(i));
    }
  }

  /** Every store 0 <= i < n gets a name exactly as wide as n. */
  lemma StoreWidth(i: nat, n: nat)
    requires i < n
    ensures |ZeroPad(i, n)| == |Digits(n)|
  {
    DigitsMonotone(i, n);
  }

  /** Store directories sort in store order. */
  lemma StoreOrder(i: nat, j: nat, n: nat)
    requires i < j < n
    ensures StrLess(StoreName(i, n), StoreName(j, n))
  {
    StoreWidth(i, n);
    StoreWidth(j, n);
    ZeroPadValue(i, n);
    ZeroPadValue(j, n);
    SameWidthOrder(ZeroPad(i, n), ZeroPad(j, n));
    StrLessCommonPrefix(STORE_PREFIX, ZeroPad(i, n), ZeroPad(j, n));
  }

  /** "base" sorts after every store number: the name of any store comes
      before the base directory. */
  lemma BaseSortsLast(i: nat, n: int)
    ensures StrLess(StoreName(i, n), BASE_NAME)
    ensures !StrLess(BASE_NAME, StoreName(i, n))
  {
    ZeroPadValue(i, n);
    var z := ZeroPad(i, n);
    assert |z| >= 1 by {
      assert |z| >= |Digits(i)|;
    }
    assert BASE_NAME == STORE_PREFIX + "base";
    StrLessCommonPrefix(STORE_PREFIX, z, "base");
    StrLessCommonPrefix(STORE_PREFIX, "base", z);
    assert IsDigit(z[0]);
  }

  /** A negative number is padded outside its sign ("0-1" for -1 of 100);
      the walker only pads store indices, which are natural. */
  lemma NegativePadding()
    ensures ZeroPad(-1, 100) == "0-1"
  {
    assert Digits(100) == Digits(10) + [DigitChar(0)];
    assert Digits(10) == Digits(1) + [DigitChar(0)];
    assert DecimalString(-1) == "-" + [DigitChar(1)];
  }
}
