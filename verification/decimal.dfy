/** Decimal rendering of integers as Python's `str(i)` and `f"{i:03}"` produce it,
    and the decimal reading that inverts both. */
module Decimal {
  import opened Wrappers
  import Arith

  predicate IsDigit(c: char) {
    '0' <= c <= '9'
  }

  predicate AllDigits(s: string) {
    forall k :: 0 <= k < |s| ==> IsDigit(s[k])
  }

  function DigitChar(d: nat): (c: char)
    requires d < 10
    ensures IsDigit(c)
  {
    (d + '0' as int) as char
  }

  function DigitValue(c: char): (d: nat)
    requires IsDigit(c)
    ensures d < 10 && DigitChar(d) == c
  {
    c as int - '0' as int
  }

  /** The number a string of decimal digits denotes, most significant digit first. */
  function ValueOf(s: string): nat
    requires AllDigits(s)
  {
    if |s| == 0 then 0 else 10 * ValueOf(s[..|s| - 1]) + DigitValue(s[|s| - 1])
  }

  /** The decimal digits of `n` without leading zeros: Python's `str(n)` for `n >= 0`. */
  function Digits(n: nat): (s: string)
    ensures |s| >= 1 && AllDigits(s)
    ensures |s| > 1 ==> s[0] != '0'
    ensures s[0] == '0' <==> n == 0
    ensures ValueOf(s) == n
    decreases n
  {
    if n < 10 then [DigitChar(n)]
    else
      var s := Digits(n / 10) + [DigitChar(n % 10)];
      assert s[..|s| - 1] == Digits(n / 10);
      s
  }

  function Zeros(k: nat): (z: string)
    ensures |z| == k && AllDigits(z)
  {
    seq(k, _ => '0')
  }

  /** Leading zeros do not change the value a digit string denotes. */
  lemma {:induction false} ValueOfLeadingZeros(k: nat, s: string)
    requires AllDigits(s)
    ensures AllDigits(Zeros(k) + s) && ValueOf(Zeros(k) + s) == ValueOf(s)
    decreases |s|
  {
    var t := Zeros(k) + s;
    assert AllDigits(t) by {
      forall i | 0 <= i < |t| ensures IsDigit(t[i]) {
        if i < k { assert t[i] == '0'; } else { assert t[i] == s[i - k]; }
      }
    }
    if |s| == 0 {
      assert t == Zeros(k);
      ZerosValue(k);
    } else {
      var init := s[..|s| - 1];
      assert t[..|t| - 1] == Zeros(k) + init;
      ValueOfLeadingZeros(k, init);
    }
  }

  lemma {:induction false} ZerosValue(k: nat)
    ensures ValueOf(Zeros(k)) == 0
  {
    if k > 0 {
      assert Zeros(k)[..k - 1] == Zeros(k - 1);
      ZerosValue(k - 1);
    }
  }

  /** `s` left-padded with '0' to at least `width` characters. */
  function PadLeft(s: string, width: nat): (r: string)
    ensures |r| == if |s| < width then width else |s|
    ensures r[|r| - |s|..] == s
    ensures forall k :: 0 <= k < |r| - |s| ==> r[k] == '0'
  {
    if |s| < width then Zeros(width - |s|) + s else s
  }

  /** A non-empty digit string without leading zeros ("0" itself allowed). */
  predicate CanonicalDigits(s: string) {
    |s| >= 1 && AllDigits(s) && (|s| > 1 ==> s[0] != '0')
  }

  /** The shape of Python's `str(i)`: canonical digits, or a '-' before canonical
      digits other than "0". */
  predicate Canonical(s: string) {
    || CanonicalDigits(s)
    || (|s| >= 2 && s[0] == '-' && s[1] != '0' && CanonicalDigits(s[1..]))
  }

  /** Python's `str(i)` for an integer. */
  function Str(i: int): (s: string)
    ensures Canonical(s) && ParseInt(s) == Some(i)
  {
    if i >= 0 then Digits(i) else "-" + Digits(-i)
  }

  /** A digit string with a non-zero first digit denotes a positive number. */
  lemma {:induction false} LeadingNonzeroPositive(s: string)
    requires |s| >= 1 && AllDigits(s) && s[0] != '0'
    ensures ValueOf(s) >= 1
    decreases |s|
  {
    if |s| > 1 {
      LeadingNonzeroPositive(s[..|s| - 1]);
    }
  }

  /** `Digits(n)` is the only canonical digit string denoting `n`. */
  lemma {:induction false} DigitsUnique(s: string)
    requires CanonicalDigits(s)
    ensures s == Digits(ValueOf(s))
    decreases |s|
  {
    var n := ValueOf(s);
    if |s| > 1 {
      var init, d := s[..|s| - 1], DigitValue(s[|s| - 1]);
      LeadingNonzeroPositive(init);
      Arith.DivModUnique(n, 10, ValueOf(init), d);
      DigitsUnique(init);
      assert s == init + [s[|s| - 1]];
    }
  }

  /** `str(i)` is the only canonical string that reads as `i`. */
  lemma StrUnique(i: int, s: string)
    requires Canonical(s) && ParseInt(s) == Some(i)
    ensures s == Str(i)
  {
    if CanonicalDigits(s) {
      DigitsUnique(s);
    } else {
      LeadingNonzeroPositive(s[1..]);
      DigitsUnique(s[1..]);
      assert s == "-" + s[1..];
    }
  }

  /** What `f"{i:03}"` promises of its result `s`: it reads as `i`, is as wide as
      `str(i)` but at least three characters, and is all digits for `i >= 0` and
      signed otherwise. */
  predicate IsFormat03(s: string, i: int) {
    && |s| == (if |Str(i)| < 3 then 3 else |Str(i)|)
    && ParseInt(s) == Some(i)
    && (i >= 0 ==> AllDigits(s))
    && (i < 0 ==> s[0] == '-')
  }

  /** Python's `f"{i:03}"`: the sign, then the digits zero-padded so that the whole
      is at least three characters wide. */
  function Format03(i: int): (s: string)
    ensures IsFormat03(s, i)
  {
    if i >= 0 then
      var s := PadLeft(Digits(i), 3);
      PaddedValue(Digits(i), 3);
      s
    else
      var s := "-" + PadLeft(Digits(-i), 2);
      PaddedValue(Digits(-i), 2);
      assert s[1..] == PadLeft(Digits(-i), 2);
      s
  }

  /** Padding keeps the value of a digit string. */
  lemma PaddedValue(s: string, width: nat)
    requires AllDigits(s)
    ensures AllDigits(PadLeft(s, width)) && ValueOf(PadLeft(s, width)) == ValueOf(s)
  {
    if |s| < width {
      ValueOfLeadingZeros(width - |s|, s);
    }
  }

  /** Two digit strings of one width denoting the same number are equal. */
  lemma {:induction false} SameWidthSameValue(a: string, b: string)
    requires AllDigits(a) && AllDigits(b) && |a| == |b| && ValueOf(a) == ValueOf(b)
    ensures a == b
    decreases |a|
  {
    if |a| > 0 {
      var ia, ib := a[..|a| - 1], b[..|b| - 1];
      var da, db := DigitValue(a[|a| - 1]), DigitValue(b[|b| - 1]);
      Arith.DivModUnique(ValueOf(a), 10, ValueOf(ia), da);
      Arith.DivModUnique(ValueOf(b), 10, ValueOf(ib), db);
      SameWidthSameValue(ia, ib);
      assert a == ia + [a[|a| - 1]] && b == ib + [b[|b| - 1]];
    }
  }

  /** `Format03(i)` is the only string meeting what `f"{i:03}"` promises. */
  lemma Format03Unique(i: int, s: string)
    requires IsFormat03(s, i)
    ensures s == Format03(i)
  {
    var f := Format03(i);
    if i >= 0 {
      SameWidthSameValue(s, f);
    } else {
      SameWidthSameValue(s[1..], f[1..]);
      assert s == [s[0]] + s[1..] && f == [f[0]] + f[1..];
    }
  }

  /** Reads an optionally negative decimal integer; `None` when `s` is not one. */
  function ParseInt(s: string): (r: Option<int>)
    ensures r.Some? ==> |s| > 0
  {
    if |s| > 1 && s[0] == '-' && AllDigits(s[1..]) then Some(-(ValueOf(s[1..]) as int))
    else if |s| > 0 && AllDigits(s) then Some(ValueOf(s))
    else None
  }

  lemma Format03OneDigit(d: nat)
    requires d < 10
    ensures Format03(d) == ['0', '0', DigitChar(d)]
  {
    assert Zeros(2) == "00";
  }

  lemma Format03TwoDigits(d: nat)
    requires 10 <= d < 100
    ensures Format03(d) == ['0', DigitChar(d / 10), DigitChar(d % 10)]
  {
    assert Digits(d / 10) == [DigitChar(d / 10)];
    assert Zeros(1) == "0";
  }

  /** The renderings the lead-time request uses for typical hours. */
  lemma Format03Examples()
    ensures Format03(0) == "000"
    ensures Format03(6) == "006"
    ensures Format03(1234) == "1234"
    ensures Format03(-5) == "-05"
    ensures Format03(12) == "012" && Format03(18) == "018" && Format03(24) == "024"
  {
    Format03OneDigit(0);
    Format03OneDigit(6);
    Format03TwoDigits(12);
    Format03TwoDigits(18);
    Format03TwoDigits(24);
    assert Digits(5) == "5";
    assert Digits(1234) == Digits(123) + "4";
    assert Digits(123) == Digits(12) + "3";
    assert Digits(12) == "12";
  }
}
