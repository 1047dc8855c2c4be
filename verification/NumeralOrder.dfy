/** Digits and numerals have the order of their texts, which leaves one value for each. */
module NumeralOrder {
  import opened Numerals

  /** The digits, in order. */
  const HEX_DIGITS := "0123456789abcdef"

  /** Each digit has its place among the digits as its value; capitals have the values of the lower
      case letters. */
  lemma DigitsInOrder(d: nat)
    requires d < 16
    ensures DigitChar(d) == HEX_DIGITS[d] && IsHex(HEX_DIGITS[d]) && DigitValue(HEX_DIGITS[d]) == d
    ensures d < 6 ==> IsHex("ABCDEF"[d]) && DigitValue("ABCDEF"[d]) == 10 + d
  {
  }

  ghost predicate DiffersAt(s: string, t: string, i: int) {
    0 <= i < |s| && i < |t| && s[..i] == t[..i] && s[i] < t[i]
  }

  /** `s` stands before `t`: it is shorter, or as long and smaller in the first place where they
      differ. */
  ghost predicate StandsBefore(s: string, t: string) {
    |s| < |t| || (|s| == |t| && exists i :: DiffersAt(s, t, i))
  }

  /** The number that digits of base `b` write. */
  ghost function BaseValue(s: string, b: nat): nat
    requires AllHex(s)
  {
    if s == "" then 0 else BaseValue(s[..|s| - 1], b) * b + DigitValue(s[|s| - 1])
  }

  ghost predicate DigitsOf(s: string, b: nat) {
    forall i :: 0 <= i < |s| ==> IsLowerHex(s[i]) && DigitValue(s[i]) < b
  }

  ghost function Power(b: nat, n: nat): nat {
    if n == 0 then 1 else Power(b, n - 1) * b
  }

  lemma DigitOrder(c: char, d: char)
    requires IsLowerHex(c) && IsLowerHex(d)
    ensures DigitValue(c) < DigitValue(d) <==> c < d
    ensures DigitValue(c) == DigitValue(d) <==> c == d
  {
  }

  lemma LexStep(s: string, t: string)
    requires |s| == |t| > 0
    ensures var x, y, c, d := s[..|s| - 1], t[..|t| - 1], s[|s| - 1], t[|t| - 1];
            && (StandsBefore(s, t) <==> StandsBefore(x, y) || (x == y && c < d))
            && (s == t <==> x == y && c == d)
  {
    var n := |s| - 1;
    var x, y := s[..n], t[..n];
    assert s == x + [s[n]] && t == y + [t[n]];
    if i :| DiffersAt(x, y, i) {
      assert s[..i] == x[..i] && t[..i] == y[..i];
      assert DiffersAt(s, t, i);
    }
    if x == y && s[n] < t[n] {
      assert DiffersAt(s, t, n);
    }
    if i :| DiffersAt(s, t, i) {
      assert i < n ==> x[..i] == s[..i] && y[..i] == t[..i];
      assert i < n ==> DiffersAt(x, y, i);
    }
  }

  lemma EmptyNotBefore()
    ensures !StandsBefore("", "")
  {
  }

  lemma StepUp(x: nat, y: nat, b: nat)
    requires x < y
    ensures x * b + b <= y * b
  {
    assert (y - x - 1) * b >= 0;
    assert y * b == x * b + b + (y - x - 1) * b;
  }

  lemma LastDigitOrder(x: nat, c: nat, y: nat, d: nat, b: nat)
    requires c < b && d < b
    ensures x * b + c < y * b + d <==> x < y || (x == y && c < d)
    ensures x * b + c == y * b + d <==> x == y && c == d
  {
    if x < y {
      StepUp(x, y, b);
    } else if y < x {
      StepUp(y, x, b);
    }
  }

  /** Among numerals of one length the values stand as the texts do. */
  lemma {:induction false} SameLengthOrder(s: string, t: string, b: nat)
    requires |s| == |t| && DigitsOf(s, b) && DigitsOf(t, b)
    ensures BaseValue(s, b) < BaseValue(t, b) <==> StandsBefore(s, t)
    ensures BaseValue(s, b) == BaseValue(t, b) <==> s == t
    decreases |s|
  {
    hide StandsBefore;
    if s == "" {
      assert !StandsBefore(s, t) by { EmptyNotBefore(); }
    } else {
      var x, y := s[..|s| - 1], t[..|t| - 1];
      var c, d := s[|s| - 1], t[|t| - 1];
      SameLengthOrder(x, y, b);
      LexStep(s, t);
      DigitOrder(c, d);
      LastDigitOrder(BaseValue(x, b), DigitValue(c), BaseValue(y, b), DigitValue(d), b);
    }
  }

  lemma Scale(x: nat, y: nat, b: nat)
    requires x <= y
    ensures x * b <= y * b
  {
    assert (y - x) * b >= 0;
    assert y * b == x * b + (y - x) * b;
  }

  lemma {:induction false} PowerBounds(s: string, b: nat)
    requires DigitsOf(s, b)
    ensures BaseValue(s, b) < Power(b, |s|)
    ensures s != "" && s[0] != '0' ==> Power(b, |s| - 1) <= BaseValue(s, b)
    decreases |s|
  {
    if s != "" {
      var x, d := s[..|s| - 1], DigitValue(s[|s| - 1]);
      PowerBounds(x, b);
      StepUp(BaseValue(x, b), Power(b, |x|), b);
      if s[0] != '0' {
        DigitOrder('0', s[0]);
        if x == "" {
          assert s == [s[0]];
        } else {
          assert x[0] == s[0];
          Scale(Power(b, |x| - 1), BaseValue(x, b), b);
        }
      }
    }
  }

  lemma {:induction false} PowerGrows(b: nat, m: nat, n: nat)
    requires b > 0 && m <= n
    ensures 1 <= Power(b, m) <= Power(b, n)
  {
    if n > 0 && m < n {
      PowerGrows(b, m, n - 1);
      Scale(1, b, Power(b, n - 1));
    } else if m > 0 {
      PowerGrows(b, m - 1, m - 1);
      Scale(1, b, Power(b, m - 1));
    }
  }

  lemma ShorterIsLess(s: string, t: string, b: nat)
    requires DigitsOf(s, b) && DigitsOf(t, b) && b > 0
    requires |s| < |t| && t[0] != '0'
    ensures BaseValue(s, b) < BaseValue(t, b)
  {
    PowerBounds(s, b);
    PowerBounds(t, b);
    PowerGrows(b, |s|, |t| - 1);
  }

  /** Numerals without leading zeros have the order of their texts: the digits, their places and the
      base leave one value for each. */
  lemma NumeralOrder(s: string, t: string, b: nat)
    requires s != "" && t != "" && DigitsOf(s, b) && DigitsOf(t, b) && NoLeadingZero(s) && NoLeadingZero(t)
    ensures BaseValue(s, b) < BaseValue(t, b) <==> StandsBefore(s, t)
  {
    hide BaseValue;
    if |s| == |t| {
      SameLengthOrder(s, t, b);
    } else if |s| < |t| {
      ShorterIsLess(s, t, b);
    } else {
      ShorterIsLess(t, s, b);
    }
  }

  lemma {:induction false} DecIsBase(s: string)
    requires AllDigits(s)
    ensures DigitsOf(s, 10) && DecValue(s) == BaseValue(s, 10)
  {
    if s != "" {
      DecIsBase(s[..|s| - 1]);
      assert s == s[..|s| - 1] + [s[|s| - 1]];
    }
  }

  lemma {:induction false} HexIsBase(s: string)
    requires AllHex(s)
    ensures HexValue(s) == BaseValue(s, 16)
  {
    if s != "" {
      HexIsBase(s[..|s| - 1]);
    }
  }

  lemma DecOrder(s: string, t: string)
    requires s != "" && t != "" && AllDigits(s) && AllDigits(t) && NoLeadingZero(s) && NoLeadingZero(t)
    ensures DecValue(s) < DecValue(t) <==> StandsBefore(s, t)
  {
    hide StandsBefore, BaseValue, DecValue;
    DecIsBase(s);
    DecIsBase(t);
    NumeralOrder(s, t, 10);
  }

  lemma HexOrder(s: string, t: string)
    requires s != "" && t != "" && AllLowerHex(s) && AllLowerHex(t) && NoLeadingZero(s) && NoLeadingZero(t)
    ensures HexValue(s) < HexValue(t) <==> StandsBefore(s, t)
  {
    hide StandsBefore, BaseValue, HexValue;
    HexIsBase(s);
    HexIsBase(t);
    NumeralOrder(s, t, 16);
  }
}
