/**
 * Decimal text: the digit strings that pandas reads as integers and writes
 * back out, and the code-point order in which Python compares strings.
 */
module Digits {
  import opened Wrappers

  predicate IsDigit(c: char) { '0' <= c <= '9' }

  predicate AllDigits(s: string) { forall i :: 0 <= i < |s| ==> IsDigit(s[i]) }

  function DigitValue(c: char): (d: nat)
    requires IsDigit(c)
    ensures d < 10
  {
    c as int - '0' as int
  }

  function DigitChar(d: nat): (c: char)
    requires d < 10
    ensures IsDigit(c) && DigitValue(c) == d
  {
    ('0' as int + d) as char
  }

  function Pow10(k: nat): (p: nat)
    ensures p >= 1
  {
    if k == 0 then 1 else 10 * Pow10(k - 1)
  }

  /** The number a digit string denotes, most significant digit first. */
  function ValueOf(s: string): nat
    requires AllDigits(s)
  {
    if s == [] then 0 else ValueOf(s[..|s| - 1]) * 10 + DigitValue(s[|s| - 1])
  }

  /** `n` written with exactly `width` digits, zero-padded on the left (as `%04d`). */
  function Padded(n: nat, width: nat): (s: string)
    ensures |s| == width && AllDigits(s)
  {
    if width == 0 then [] else Padded(n / 10, width - 1) + [DigitChar(n % 10)]
  }

  /** Decimal text of a natural number, without leading zeros (Python's `str`). */
  function NatToString(n: nat): (s: string)
    ensures 1 <= |s| && AllDigits(s) && ValueOf(s) == n
    ensures |s| > 1 ==> s[0] != '0'
  {
    if n < 10 then [DigitChar(n)]
    else
      var s := NatToString(n / 10) + [DigitChar(n % 10)];
      assert s[..|s| - 1] == NatToString(n / 10);
      s
  }

  /** Decimal text of an integer, with a leading minus sign when negative. */
  function IntToString(n: int): string
  {
    if n < 0 then "-" + NatToString(-n) else NatToString(n)
  }

  /**
   * An integer literal as `pd.to_numeric` reads it: an optional sign
   * followed by one or more decimal digits.
   */
  function ParseInt(s: string): Option<int>
  {
    if |s| > 1 && (s[0] == '-' || s[0] == '+') && AllDigits(s[1..]) then
      var v: int := ValueOf(s[1..]);
      Some(if s[0] == '-' then -v else v)
    else if |s| > 0 && AllDigits(s) then Some(ValueOf(s))
    else None
  }

  /** Reading back what `IntToString` writes gives the same integer. */
  lemma ParseIntToString(n: int)
    ensures ParseInt(IntToString(n)) == Some(n)
  {
    if n < 0 {
      assert ("-" + NatToString(-n))[1..] == NatToString(-n);
    }
  }

  /** `k` zero characters. */
  function Zeros(k: nat): (s: string)
    ensures |s| == k && AllDigits(s)
  {
    seq(k, _ => '0')
  }

  /**
   * `s` is decimal text for `n`: the canonical digits of `n`'s magnitude,
   * after any number of leading zeros, with a `-` sign when `n` is negative
   * (or zero) and optionally a `+` sign when it is not.
   */
  ghost predicate DecimalText(s: string, n: int)
  {
    exists k: nat :: DecimalForm(s, k, n)
  }

  /** `s` is the decimal text of `n` with `k` leading zeros. */
  predicate DecimalForm(s: string, k: nat, n: int)
  {
    || (n >= 0 && s == Zeros(k) + NatToString(n))
    || (n >= 0 && s == "+" + Zeros(k) + NatToString(n))
    || (n <= 0 && s == "-" + Zeros(k) + NatToString(-n))
  }

  lemma {:induction false} ValueOfZeros(k: nat)
    ensures ValueOf(Zeros(k)) == 0
  {
    if k > 0 {
      assert Zeros(k)[..k - 1] == Zeros(k - 1);
      ValueOfZeros(k - 1);
    }
  }

  /** Leading zeros do not change the value of a digit string. */
  lemma {:induction false} ValueOfZerosPrefix(k: nat, t: string)
    requires AllDigits(t)
    ensures ValueOf(Zeros(k) + t) == ValueOf(t)
  {
    if t == [] {
      assert Zeros(k) + t == Zeros(k);
      ValueOfZeros(k);
    } else {
      var u := Zeros(k) + t;
      assert u[..|u| - 1] == Zeros(k) + t[..|t| - 1];
      ValueOfZerosPrefix(k, t[..|t| - 1]);
    }
  }

  /** A digit string that does not start with zero denotes a positive number. */
  lemma {:induction false} ValuePositive(s: string)
    requires AllDigits(s) && s != [] && s[0] != '0'
    ensures ValueOf(s) > 0
  {
    if |s| > 1 {
      ValuePositive(s[..|s| - 1]);
    } else {
      assert s[..0] == [];
    }
  }

  /** A digit string without a leading zero is the canonical text of its value. */
  lemma {:induction false} NatToStringOfValue(s: string)
    requires AllDigits(s) && s != [] && (|s| > 1 ==> s[0] != '0')
    ensures NatToString(ValueOf(s)) == s
  {
    var init := s[..|s| - 1];
    var d := DigitValue(s[|s| - 1]);
    if |s| == 1 {
      assert init == [];
      assert DigitChar(d) == s[0];
    } else {
      NatToStringOfValue(init);
      ValuePositive(init);
      var n := ValueOf(s);
      assert n / 10 == ValueOf(init) && n % 10 == d;
      assert DigitChar(d) == s[|s| - 1];
      assert s == init + [s[|s| - 1]];
    }
  }

  /** Every non-empty digit string is leading zeros before its value's canonical text. */
  lemma {:induction false} CanonicalDigits(s: string)
    requires AllDigits(s) && s != []
    ensures exists k: nat :: s == Zeros(k) + NatToString(ValueOf(s))
  {
    if |s| == 1 || s[0] != '0' {
      NatToStringOfValue(s);
      assert s == Zeros(0) + NatToString(ValueOf(s));
    } else {
      var rest := s[1..];
      CanonicalDigits(rest);
      var k: nat :| rest == Zeros(k) + NatToString(ValueOf(rest));
      var t := NatToString(ValueOf(rest));
      assert s == Zeros(1) + rest;
      ValueOfZerosPrefix(1, rest);
      ZerosPrepend(k, t);
    }
  }

  /** A zero in front of `k` zeros makes `k + 1` of them. */
  lemma ZerosPrepend(k: nat, t: string)
    ensures Zeros(1) + (Zeros(k) + t) == Zeros(k + 1) + t
  {
    assert Zeros(1) + Zeros(k) == Zeros(k + 1);
  }

  lemma SignedForm(d: string, k: nat, v: nat)
    requires d == Zeros(k) + NatToString(v)
    ensures DecimalText(d, v) && DecimalText("+" + d, v) && DecimalText("-" + d, -(v as int))
  {
    assert DecimalForm(d, k, v);
    assert "+" + d == "+" + Zeros(k) + NatToString(v);
    assert DecimalForm("+" + d, k, v);
    assert "-" + d == "-" + Zeros(k) + NatToString(v);
    assert DecimalForm("-" + d, k, -(v as int));
  }

  /** Digits, with or without a sign in front, are decimal text for their value. */
  lemma DigitsAreDecimal(d: string)
    requires AllDigits(d) && d != []
    ensures DecimalText(d, ValueOf(d))
    ensures DecimalText("+" + d, ValueOf(d))
    ensures DecimalText("-" + d, -(ValueOf(d) as int))
  {
    var v := ValueOf(d);
    CanonicalDigits(d);
    var k: nat :| d == Zeros(k) + NatToString(v);
    SignedForm(d, k, v);
  }

  /** Whatever `ParseInt` reads is decimal text for the value it returns. */
  lemma ParseIntSound(s: string)
    requires ParseInt(s).Some?
    ensures DecimalText(s, ParseInt(s).value)
  {
    if |s| > 1 && (s[0] == '-' || s[0] == '+') && AllDigits(s[1..]) {
      DigitsAreDecimal(s[1..]);
      assert s == [s[0]] + s[1..];
    } else {
      DigitsAreDecimal(s);
    }
  }

  lemma ParseIntUnsigned(k: nat, n: nat)
    ensures ParseInt(Zeros(k) + NatToString(n)) == Some(n)
  {
    var s := Zeros(k) + NatToString(n);
    ValueOfZerosPrefix(k, NatToString(n));
    assert IsDigit(s[0]);
  }

  lemma ParseIntSigned(sign: char, k: nat, n: nat)
    requires sign == '-' || sign == '+'
    ensures ParseInt([sign] + Zeros(k) + NatToString(n)) == Some((if sign == '-' then -1 else 1) * n)
  {
    var t := Zeros(k) + NatToString(n);
    assert [sign] + Zeros(k) + NatToString(n) == [sign] + t;
    assert ([sign] + t)[1..] == t;
    ValueOfZerosPrefix(k, NatToString(n));
  }

  /**
   * `ParseInt` accepts exactly the decimal texts of integers, and reads each
   * as the integer it denotes.
   */
  lemma ParseIntDecimal(s: string, n: int)
    ensures ParseInt(s) == Some(n) <==> DecimalText(s, n)
  {
    if ParseInt(s) == Some(n) {
      ParseIntSound(s);
    }
    if DecimalText(s, n) {
      var k: nat :| DecimalForm(s, k, n);
      if n >= 0 && s == Zeros(k) + NatToString(n) {
        ParseIntUnsigned(k, n);
      } else if n >= 0 && s == "+" + Zeros(k) + NatToString(n) {
        ParseIntSigned('+', k, n);
      } else {
        ParseIntSigned('-', k, -n);
      }
    }
  }

  /** `ParseIntDecimal` for every candidate value at once. */
  lemma ParseIntIsDecimal(s: string)
    ensures forall n :: ParseInt(s) == Some(n) <==> DecimalText(s, n)
  {
    forall n ensures ParseInt(s) == Some(n) <==> DecimalText(s, n) {
      ParseIntDecimal(s, n);
    }
  }

  /** Padding the value of a digit string to its own width gives the string back. */
  lemma {:induction false} PaddedValueOf(s: string)
    requires AllDigits(s)
    ensures Padded(ValueOf(s), |s|) == s
  {
    if s != [] {
      var init := s[..|s| - 1];
      var v := ValueOf(s);
      assert v / 10 == ValueOf(init) && v % 10 == DigitValue(s[|s| - 1]);
      PaddedValueOf(init);
      assert s == init + [s[|s| - 1]];
    }
  }

  /** Reading a padded number gives the number back when it fits the width. */
  lemma {:induction false} ValueOfPadded(n: nat, width: nat)
    requires n < Pow10(width)
    ensures ValueOf(Padded(n, width)) == n
  {
    if width > 0 {
      var s := Padded(n, width);
      assert s[..|s| - 1] == Padded(n / 10, width - 1);
      assert s[|s| - 1] == DigitChar(n % 10);
      assert n / 10 < Pow10(width - 1);
      ValueOfPadded(n / 10, width - 1);
      assert ValueOf(s) == (n / 10) * 10 + n % 10;
    }
  }

  /** Python's `<` on strings: lexicographic order by code point. */
  predicate StrLess(a: string, b: string)
  {
    if a == [] then b != []
    else if b == [] then false
    else if a[0] != b[0] then a[0] < b[0]
    else StrLess(a[1..], b[1..])
  }

  lemma {:induction false} StrLessIrreflexive(a: string)
    ensures !StrLess(a, a)
  {
    if a != [] {
      StrLessIrreflexive(a[1..]);
    }
  }

  lemma {:induction false} StrLessTransitive(a: string, b: string, c: string)
    requires StrLess(a, b) && StrLess(b, c)
    ensures StrLess(a, c)
  {
    if a != [] && b != [] && c != [] && a[0] == b[0] && b[0] == c[0] {
      StrLessTransitive(a[1..], b[1..], c[1..]);
    }
  }

  lemma {:induction false} StrLessTotal(a: string, b: string)
    requires a != b
    ensures StrLess(a, b) || StrLess(b, a)
  {
    if a != [] && b != [] && a[0] == b[0] {
      assert a == [a[0]] + a[1..] && b == [b[0]] + b[1..];
      StrLessTotal(a[1..], b[1..]);
    }
  }

  /** Comparing two concatenations whose first parts have equal length: the first parts decide first. */
  lemma {:induction false} StrLessConcat(x: string, y: string, x': string, y': string)
    requires |x| == |x'|
    ensures StrLess(x + y, x' + y') <==> StrLess(x, x') || (x == x' && StrLess(y, y'))
  {
    if x != [] {
      assert (x + y)[0] == x[0] && (x' + y')[0] == x'[0];
      assert (x + y)[1..] == x[1..] + y && (x' + y')[1..] == x'[1..] + y';
      StrLessConcat(x[1..], y, x'[1..], y');
      if x[0] == x'[0] {
        assert x == x' <==> x[1..] == x'[1..] by {
          assert x == [x[0]] + x[1..] && x' == [x'[0]] + x'[1..];
        }
      }
    } else {
      assert x + y == y && x' + y' == y';
    }
  }

  /** Padding to a common width is injective on numbers that fit. */
  lemma PaddedInjective(n: nat, m: nat, width: nat)
    requires n < Pow10(width) && m < Pow10(width)
    ensures Padded(n, width) == Padded(m, width) <==> n == m
  {
    if Padded(n, width) == Padded(m, width) {
      ValueOfPadded(n, width);
      ValueOfPadded(m, width);
    }
  }

  /** On numbers padded to one width, string order is numeric order. */
  lemma {:induction false} PaddedOrder(n: nat, m: nat, width: nat)
    requires n < Pow10(width) && m < Pow10(width)
    ensures StrLess(Padded(n, width), Padded(m, width)) <==> n < m
  {
    if width == 0 {
      assert n == 0 && m == 0;
    } else {
      var hn, hm := Padded(n / 10, width - 1), Padded(m / 10, width - 1);
      var ln, lm := [DigitChar(n % 10)], [DigitChar(m % 10)];
      StrLessConcat(hn, ln, hm, lm);
      PaddedOrder(n / 10, m / 10, width - 1);
      PaddedInjective(n / 10, m / 10, width - 1);
      assert StrLess(ln, lm) <==> n % 10 < m % 10 by {
        assert ln[1..] == [] && lm[1..] == [];
        if n % 10 != m % 10 {
          assert ln[0] != lm[0] by { assert DigitValue(ln[0]) != DigitValue(lm[0]); }
        }
      }
    }
  }
}
