/**
  Decimal digits, the value of a digit string, and the number-to-text
  rendering the timer uses for its two-digit fields (`'' + num` and
  `padZero` in index.ts).
 */
module Decimal {

  /** An ASCII decimal digit, the class `\d` of a non-Unicode JavaScript regex. */
  predicate IsDigit(c: char) {
    '0' <= c <= '9'
  }

  predicate AllDigits(s: string) {
    forall i :: 0 <= i < |s| ==> IsDigit(s[i])
  }

  function DigitValue(c: char): (d: nat)
    requires IsDigit(c)
    ensures d < 10
  {
    (c as int) - ('0' as int)
  }

  function DigitChar(d: nat): (c: char)
    requires d < 10
    ensures IsDigit(c) && DigitValue(c) == d
  {
    (('0' as int) + d) as char
  }

  /** The base-10 value of a digit string, most significant digit first. */
  function Value(s: string): nat
    requires AllDigits(s)
  {
    if |s| == 0 then 0 else Value(s[..|s| - 1]) * 10 + DigitValue(s[|s| - 1])
  }

  lemma LemmaValueOne(s: string)
    requires |s| == 1 && AllDigits(s)
    ensures Value(s) == DigitValue(s[0])
  {
    assert s[..0] == [];
  }

  lemma LemmaValueTwo(s: string)
    requires |s| == 2 && AllDigits(s)
    ensures Value(s) == 10 * DigitValue(s[0]) + DigitValue(s[1])
  {
    LemmaValueOne(s[..1]);
  }

  /** A digit string without a leading zero denotes a positive number. */
  lemma {:induction false} LemmaNoLeadingZeroPositive(s: string)
    requires |s| >= 1 && AllDigits(s) && s[0] != '0'
    ensures Value(s) >= 1
  {
    if |s| == 1 {
      LemmaValueOne(s);
    } else {
      var p := s[..|s| - 1];
      assert p[0] == s[0];
      LemmaNoLeadingZeroPositive(p);
    }
  }

  /**
    Plain decimal rendering of a whole number, as JavaScript's `'' + num`
    gives it: at least one digit, no leading zero, denoting `n`.
   */
  function NatToString(n: nat): (r: string)
    ensures |r| >= 1 && AllDigits(r)
    ensures Value(r) == n
    ensures |r| > 1 ==> r[0] != '0'
    ensures n < 10 <==> |r| == 1
    decreases n
  {
    if n < 10 then [DigitChar(n)]
    else
      var p := NatToString(n / 10);
      var r := p + [DigitChar(n % 10)];
      assert r[..|r| - 1] == p;
      r
  }

  /** Every canonical digit string (no leading zero) is the rendering of its value. */
  lemma {:induction false} LemmaNatToStringOfValue(s: string)
    requires |s| >= 1 && AllDigits(s)
    requires |s| > 1 ==> s[0] != '0'
    ensures NatToString(Value(s)) == s
  {
    if |s| == 1 {
      LemmaValueOne(s);
      assert NatToString(Value(s)) == [s[0]];
    } else {
      var p := s[..|s| - 1];
      assert p[0] == s[0];
      LemmaNoLeadingZeroPositive(p);
      if |p| > 1 {
        assert p[0] != '0';
      }
      LemmaNatToStringOfValue(p);
      var n := Value(s);
      assert n == Value(p) * 10 + DigitValue(s[|s| - 1]);
      assert n / 10 == Value(p) && n % 10 == DigitValue(s[|s| - 1]);
      assert s == p + [s[|s| - 1]];
    }
  }

  /**
    `padZero`: a number below ten gets a leading `'0'`, any other number is
    rendered as is. The result always denotes `n`, has a leading zero
    exactly when `n < 10`, and is exactly two digits for `n <= 99`.
   */
  function PadZero(n: nat): (r: string)
    ensures |r| >= 2 && AllDigits(r)
    ensures Value(r) == n
    ensures r[0] == '0' <==> n < 10
    ensures n < 100 <==> |r| == 2
  {
    if n < 10 then
      var r := ['0'] + NatToString(n);
      LemmaValueTwo(r);
      r
    else
      var r := NatToString(n);
      assert |r| >= 2;
      assert |r| == 2 ==> n < 100 by {
        if |r| == 2 { LemmaValueTwo(r); }
      }
      assert n < 100 ==> |r| == 2 by {
        if n < 100 { assert NatToString(n / 10) == [DigitChar(n / 10)]; }
      }
      r
  }

  /** Every two-digit string is the padding of its own value. */
  lemma LemmaPadZeroOfValue(s: string)
    requires |s| == 2 && AllDigits(s)
    ensures PadZero(Value(s)) == s
  {
    LemmaValueTwo(s);
    var n := Value(s);
    if s[0] == '0' {
      assert NatToString(n) == [s[1]];
      assert s == ['0'] + [s[1]];
    } else {
      LemmaNatToStringOfValue(s);
    }
  }
}
