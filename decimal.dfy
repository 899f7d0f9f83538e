/**
 * Decimal text of integers, as JavaScript renders them: `Number.prototype.toString()`
 * for the digits and `String.prototype.padStart` for the fixed-width fields, together
 * with the inverse reading of a digit string back into its value.
 */
module Decimal {

  predicate IsDigit(c: char) {
    '0' <= c <= '9'
  }

  predicate AllDigits(s: string) {
    forall i :: 0 <= i < |s| ==> IsDigit(s[i])
  }

  function DigitChar(d: int): (c: char)
    requires 0 <= d < 10
    ensures IsDigit(c) && c as int - 48 == d
  {
    (48 + d) as char
  }

  function DigitValue(c: char): (d: int)
    requires IsDigit(c)
    ensures 0 <= d < 10 && DigitChar(d) == c
  {
    c as int - 48
  }

  /** The decimal rendering of a non-negative number: no sign, no leading zero. */
  function NatToString(n: nat): (s: string)
    ensures |s| >= 1 && AllDigits(s)
    ensures n < 10 <==> |s| == 1
    ensures s[0] != '0' || n == 0
    decreases n
  {
    if n < 10 then [DigitChar(n)] else NatToString(n / 10) + [DigitChar(n % 10)]
  }

  /** `String(n)` for any integer: a minus sign in front of the magnitude when negative. */
  function IntToString(n: int): (s: string)
    ensures n >= 0 ==> s == NatToString(n)
    ensures n < 0 ==> |s| >= 2 && s[0] == '-' && AllDigits(s[1..])
    ensures n < 0 ==> s[1] != '0' && DigitsValue(s[1..]) == -n
  {
    if n < 0 then
      NatToStringValue(-n);
      assert ("-" + NatToString(-n))[1..] == NatToString(-n);
      "-" + NatToString(-n)
    else NatToString(n)
  }

  /** `s.padStart(width, fill)` with a one-character fill string. */
  function PadStart(s: string, width: nat, fill: char): (r: string)
    ensures |s| >= width ==> r == s
    ensures |s| < width ==> |r| == width
    ensures |r| >= |s| && r[|r| - |s|..] == s
    ensures forall i :: 0 <= i < |r| - |s| ==> r[i] == fill
  {
    if |s| >= width then s else seq(width - |s|, _ => fill) + s
  }

  /** The number a string of decimal digits denotes (the empty string denotes 0). */
  function DigitsValue(s: string): nat
    requires AllDigits(s)
  {
    if s == [] then 0 else DigitsValue(s[..|s| - 1]) * 10 + DigitValue(s[|s| - 1])
  }

  lemma {:induction false} NatToStringValue(n: nat)
    ensures DigitsValue(NatToString(n)) == n
    decreases n
  {
    if n >= 10 {
      var s := NatToString(n);
      assert s[..|s| - 1] == NatToString(n / 10);
      NatToStringValue(n / 10);
    }
  }

  /** Reading back any digit string without a leading zero gives the same string. */
  lemma {:induction false} DigitsValueRendering(s: string)
    requires |s| >= 1 && AllDigits(s) && s[0] != '0'
    ensures NatToString(DigitsValue(s)) == s
    decreases |s|
  {
    if |s| == 1 {
      assert s == [s[0]];
    } else {
      var p := s[..|s| - 1];
      assert p[0] == s[0];
      DigitsValueRendering(p);
      DigitsValuePositive(p);
      var v := DigitsValue(s);
      assert v == DigitsValue(p) * 10 + DigitValue(s[|s| - 1]);
      assert v / 10 == DigitsValue(p) && v % 10 == DigitValue(s[|s| - 1]);
      assert s == p + [s[|s| - 1]];
    }
  }

  lemma {:induction false} DigitsValuePositive(s: string)
    requires |s| >= 1 && AllDigits(s) && s[0] != '0'
    ensures DigitsValue(s) >= 1
    decreases |s|
  {
    if |s| > 1 {
      var p := s[..|s| - 1];
      assert p[0] == s[0];
      DigitsValuePositive(p);
    }
  }

  /** Leading zeros do not change the value a digit string denotes. */
  lemma {:induction false} LeadingZerosValue(z: nat, s: string)
    requires AllDigits(s)
    ensures AllDigits(seq(z, _ => '0') + s)
    ensures DigitsValue(seq(z, _ => '0') + s) == DigitsValue(s)
    decreases |s|
  {
    var t := seq(z, _ => '0') + s;
    assert AllDigits(t) by {
      forall i | 0 <= i < |t| ensures IsDigit(t[i]) {
        if i >= z { assert t[i] == s[i - z]; }
      }
    }
    if s == [] {
      ZerosValue(z);
      assert t == seq(z, _ => '0');
    } else {
      var p := s[..|s| - 1];
      LeadingZerosValue(z, p);
      assert t[..|t| - 1] == seq(z, _ => '0') + p;
    }
  }

  lemma {:induction false} ZerosValue(z: nat)
    ensures AllDigits(seq(z, _ => '0'))
    ensures DigitsValue(seq(z, _ => '0')) == 0
    decreases z
  {
    if z > 0 {
      ZerosValue(z - 1);
      assert seq(z, _ => '0')[..z - 1] == seq(z - 1, _ => '0');
    }
  }

  /** The two-character field `String(n).padStart(2, '0')` of a number below 100. */
  lemma TwoDigitField(n: nat)
    requires n < 100
    ensures PadStart(NatToString(n), 2, '0') == [DigitChar(n / 10), DigitChar(n % 10)]
  {
    if n >= 10 {
      assert NatToString(n / 10) == [DigitChar(n / 10)];
    }
  }

  lemma TwoCharValue(p: string)
    requires |p| == 2 && AllDigits(p)
    ensures DigitsValue(p) == DigitValue(p[0]) * 10 + DigitValue(p[1])
  {
    var head := p[..1];
    assert head[..0] == [] && head[0] == p[0];
    assert DigitsValue(head) == DigitValue(p[0]);
  }

  /** A two-character digit field reads back to a number below 100 that renders to the same field. */
  lemma TwoDigitFieldValue(p: string)
    requires |p| == 2 && AllDigits(p)
    ensures DigitsValue(p) < 100
    ensures PadStart(NatToString(DigitsValue(p)), 2, '0') == p
  {
    var hi, lo := DigitValue(p[0]), DigitValue(p[1]);
    var v := DigitsValue(p);
    assert v == 10 * hi + lo by { TwoCharValue(p); }
    assert v / 10 == hi && v % 10 == lo by { TensAndUnits(hi, lo); }
    assert PadStart(NatToString(v), 2, '0') == [DigitChar(hi), DigitChar(lo)] by { TwoDigitField(v); }
    assert [DigitChar(hi), DigitChar(lo)] == p by { DigitPair(p); }
  }

  /** A two-character digit string is the pair of its digits, rewritten from their values. */
  lemma DigitPair(p: string)
    requires |p| == 2 && AllDigits(p)
    ensures [DigitChar(DigitValue(p[0])), DigitChar(DigitValue(p[1]))] == p
  {
  }

  /** The tens and units digits of 10 * hi + lo are hi and lo. */
  lemma TensAndUnits(hi: int, lo: int)
    requires 0 <= hi < 10 && 0 <= lo < 10
    ensures (10 * hi + lo) / 10 == hi && (10 * hi + lo) % 10 == lo
  {
  }

  /** Four-digit numbers render to exactly four characters. */
  lemma FourDigitLength(n: nat)
    requires 1000 <= n <= 9999
    ensures |NatToString(n)| == 4
  {
    assert |NatToString(n / 10)| == 3 by {
      assert |NatToString(n / 100)| == 2 by {
        assert 10 <= n / 100 < 100;
      }
    }
  }
}
