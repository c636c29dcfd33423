/**
 * Decimal numerals over ASCII digits: Python's `str(n)` for a
 * non-negative int, `int(t)` for a run of digits, and the
 * zero-padded rendering `f"{n:02d}"`.
 */
module Numerals {

  predicate IsDigit(c: char) {
    '0' <= c <= '9'
  }

  predicate AllDigits(s: string) {
    forall i :: 0 <= i < |s| ==> IsDigit(s[i])
  }

  function DigitValue(c: char): (d: nat)
    requires IsDigit(c)
    ensures d < 10
  {
    c as int - '0' as int
  }

  function DigitChar(d: nat): (c: char)
    requires d < 10
    ensures IsDigit(c) && DigitValue(c) == d
  {
    ('0' as int + d) as char
  }

  /** A numeral as `str(n)` writes it: at least one digit, no leading zero. */
  predicate Canonical(s: string) {
    |s| >= 1 && AllDigits(s) && (|s| > 1 ==> s[0] != '0')
  }

  /** `str(n)` for n >= 0. */
  function Decimal(n: nat): (s: string)
    ensures Canonical(s)
    ensures n > 0 ==> s[0] != '0'
    ensures |s| == 1 <==> n < 10
    ensures n < 100 ==> |s| <= 2
    decreases n
  {
    if n < 10 then [DigitChar(n)] else Decimal(n / 10) + [DigitChar(n % 10)]
  }

  /** `int(s)` for a run of ASCII digits (the empty run reads as 0). */
  function ValueOf(s: string): nat
    requires AllDigits(s)
    decreases |s|
  {
    if s == [] then 0 else ValueOf(s[..|s| - 1]) * 10 + DigitValue(s[|s| - 1])
  }

  /** Reading back what `str` wrote gives the number. */
  lemma {:induction false} ValueOfDecimal(n: nat)
    ensures ValueOf(Decimal(n)) == n
    decreases n
  {
    var s := Decimal(n);
    if n >= 10 {
      ValueOfDecimal(n / 10);
      assert s[..|s| - 1] == Decimal(n / 10);
    } else {
      assert s[..|s| - 1] == [];
    }
  }

  lemma {:induction false} ValueOfPositive(s: string)
    requires |s| >= 1 && AllDigits(s) && s[0] != '0'
    ensures ValueOf(s) >= 1
    decreases |s|
  {
    if |s| > 1 {
      ValueOfPositive(s[..|s| - 1]);
    } else {
      assert s[..|s| - 1] == [];
    }
  }

  /** Writing back a canonical numeral gives the same text. */
  lemma {:induction false} DecimalOfValue(s: string)
    requires Canonical(s)
    ensures Decimal(ValueOf(s)) == s
    decreases |s|
  {
    var p := s[..|s| - 1];
    if |s| == 1 {
      assert p == [];
      assert Decimal(ValueOf(s)) == [s[0]];
    } else {
      ValueOfPositive(p);
      DecimalOfValue(p);
      var v := ValueOf(s);
      assert v / 10 == ValueOf(p) && v % 10 == DigitValue(s[|s| - 1]);
      assert s == p + [s[|s| - 1]];
    }
  }

  /** `f"{n:02d}"`: at least two digits, zero-padded on the left. */
  function Pad2(n: nat): (s: string)
    ensures AllDigits(s) && |s| >= 2
    ensures n < 100 ==> |s| == 2
  {
    if n < 10 then ['0', DigitChar(n)] else Decimal(n)
  }

  lemma ValueOfTwo(s: string)
    requires |s| == 2 && AllDigits(s)
    ensures ValueOf(s) == DigitValue(s[0]) * 10 + DigitValue(s[1])
  {
    assert s[..1][..0] == [];
    assert ValueOf(s[..1]) == DigitValue(s[0]);
  }

  /** A two-digit rendering spells tens and units. */
  lemma Pad2Small(n: nat)
    requires n < 100
    ensures Pad2(n) == [DigitChar(n / 10), DigitChar(n % 10)]
  {
    if n >= 10 {
      assert Decimal(n / 10) == [DigitChar(n / 10)];
    }
  }

  /** The text `Pad2` may produce: two digits, or more without a leading zero. */
  predicate PaddedNumeral(s: string) {
    |s| >= 2 && AllDigits(s) && (|s| > 2 ==> s[0] != '0')
  }

  lemma Pad2Value(n: nat)
    ensures PaddedNumeral(Pad2(n)) && ValueOf(Pad2(n)) == n
  {
    var s := Pad2(n);
    if n < 10 {
      ValueOfTwo(s);
    } else {
      ValueOfDecimal(n);
    }
  }

  /** Every text `Pad2` may produce is the rendering of its own value. */
  lemma Pad2OfValue(s: string)
    requires PaddedNumeral(s)
    ensures Pad2(ValueOf(s)) == s
  {
    var v := ValueOf(s);
    if s[0] == '0' {
      assert |s| == 2;
      ValueOfTwo(s);
      assert v < 10;
    } else {
      ValueOfPositive(s[..1]);
      DecimalOfValue(s);
      assert |Decimal(v)| >= 2;
    }
  }
}
