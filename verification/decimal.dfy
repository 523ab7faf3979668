/**
 * Decimal digit strings: `Number.prototype.toString()` on non-negative integers, `padStart` with
 * a zero, and the numeric value of a digit string (the inverse the resolver's ordering relies on).
 */
module Decimal {
  import opened Text

  /** An ASCII digit, what `\d` matches in a JavaScript regular expression without the `u` flag. */
  predicate IsDigit(c: char)
  {
    '0' <= c <= '9'
  }

  predicate AllDigits(s: string)
  {
    forall i :: 0 <= i < |s| ==> IsDigit(s[i])
  }

  function DigitValue(c: char): (d: nat)
    requires IsDigit(c)
    ensures d < 10
  {
    c as int - '0' as int
  }

  function DigitChar(d: nat): (c: char)
    requires d < 10
    ensures IsDigit(c) && DigitValue(c) == d
  {
    ('0' as int + d) as char
  }

  /** The number a digit string denotes, most significant digit first. */
  function Value(s: string): nat
    requires AllDigits(s)
  {
    if s == [] then 0 else Value(s[..|s| - 1]) * 10 + DigitValue(s[|s| - 1])
  }

  function Pow10(w: nat): (p: nat)
    ensures p >= 1
  {
    if w == 0 then 1 else 10 * Pow10(w - 1)
  }

  /** `n.toString()` for a non-negative integer: its decimal digits without leading zeros. */
  function ToDecimal(n: nat): (r: string)
    ensures |r| >= 1 && AllDigits(r)
    ensures Value(r) == n
    ensures n == 0 ==> r == "0"
    ensures n > 0 ==> r[0] != '0'
  {
    if n < 10 then [DigitChar(n)]
    else
      var r := ToDecimal(n / 10) + [DigitChar(n % 10)];
      assert r[..|r| - 1] == ToDecimal(n / 10);
      r
  }

  /** `toString` takes at most `w` characters exactly when the number is below 10^w. */
  lemma {:induction false} ToDecimalWidth(n: nat, w: nat)
    requires w >= 1
    ensures |ToDecimal(n)| <= w <==> n < Pow10(w)
  {
    if n >= 10 {
      if w == 1 {
        assert |ToDecimal(n)| == |ToDecimal(n / 10)| + 1;
      } else {
        ToDecimalWidth(n / 10, w - 1);
      }
    }
  }

  /** `s.padStart(width, fill)` with a one-character fill string. */
  function PadStart(s: string, width: nat, fill: char): (r: string)
    ensures |r| == if |s| >= width then |s| else width
    ensures r[|r| - |s|..] == s
    ensures forall i :: 0 <= i < |r| - |s| ==> r[i] == fill
  {
    if |s| >= width then s else seq(width - |s|, _ => fill) + s
  }

  lemma {:induction false} ZerosValue(k: nat)
    ensures AllDigits(seq(k, _ => '0')) && Value(seq(k, _ => '0')) == 0
  {
    if k > 0 {
      assert seq(k, _ => '0')[..k - 1] == seq(k - 1, _ => '0');
      ZerosValue(k - 1);
    }
  }

  /** Leading zeros do not change the value of a digit string. */
  lemma {:induction false} LeadingZerosValue(k: nat, s: string)
    requires AllDigits(s)
    ensures AllDigits(seq(k, _ => '0') + s)
    ensures Value(seq(k, _ => '0') + s) == Value(s)
  {
    var z := seq(k, _ => '0');
    if s == [] {
      assert z + s == z;
      ZerosValue(k);
    } else {
      var t := z + s;
      assert t[..|t| - 1] == z + s[..|s| - 1];
      LeadingZerosValue(k, s[..|s| - 1]);
    }
  }

  /** `n.toString().padStart(w, '0')` for `n < 10^w`: exactly `w` digits denoting `n`. */
  lemma ZeroPaddedDecimal(n: nat, w: nat)
    requires w >= 1 && n < Pow10(w)
    ensures |PadStart(ToDecimal(n), w, '0')| == w
    ensures AllDigits(PadStart(ToDecimal(n), w, '0'))
    ensures Value(PadStart(ToDecimal(n), w, '0')) == n
  {
    var s := ToDecimal(n);
    ToDecimalWidth(n, w);
    var r := PadStart(s, w, '0');
    if |s| < w {
      assert r == seq(w - |s|, _ => '0') + s;
      LeadingZerosValue(w - |s|, s);
    } else {
      assert r == s;
    }
  }

  /** For digit strings of equal length, ordinal order is numeric order and equality is equal value. */
  lemma {:induction false} DigitsOrder(s: string, t: string)
    requires |s| == |t| && AllDigits(s) && AllDigits(t)
    ensures LexLess(s, t) <==> Value(s) < Value(t)
    ensures s == t <==> Value(s) == Value(t)
  {
    if s != [] {
      var n := |s| - 1;
      var s', t' := s[..n], t[..n];
      DigitsOrder(s', t');
      assert s == s' + [s[n]] && t == t' + [t[n]];
      LexConcat(s', [s[n]], t', [t[n]]);
      var a, b := DigitValue(s[n]), DigitValue(t[n]);
      assert Value(s) == Value(s') * 10 + a && Value(t) == Value(t') * 10 + b;
      if Value(s') < Value(t') {
        assert Value(s') * 10 + a < Value(t') * 10 + b;
      } else if Value(t') < Value(s') {
        assert Value(t') * 10 + b < Value(s') * 10 + a;
      }
      if s[n] != t[n] {
        assert a != b;
      }
    }
  }
}
