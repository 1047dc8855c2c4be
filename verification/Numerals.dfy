/** Decimal and hexadecimal numerals, as strconv and net/netip write and read them. */
module Numerals {

  type Octet = n: nat | n < 0x100

  type Word = n: nat | n < 0x1_0000

  predicate IsDigit(c: char) {
    '0' <= c <= '9'
  }

  predicate IsHex(c: char) {
    IsDigit(c) || 'a' <= c <= 'f' || 'A' <= c <= 'F'
  }

  predicate IsLowerHex(c: char) {
    IsDigit(c) || 'a' <= c <= 'f'
  }

  predicate AllDigits(s: string) {
    forall i :: 0 <= i < |s| ==> IsDigit(s[i])
  }

  predicate AllHex(s: string) {
    forall i :: 0 <= i < |s| ==> IsHex(s[i])
  }

  predicate AllLowerHex(s: string) {
    forall i :: 0 <= i < |s| ==> IsLowerHex(s[i])
  }

  function DigitValue(c: char): (d: nat)
    requires IsHex(c)
    ensures d < 16 && (IsDigit(c) ==> d < 10)
  {
    if IsDigit(c) then c as int - '0' as int
    else if 'a' <= c <= 'f' then c as int - 'a' as int + 10
    else c as int - 'A' as int + 10
  }

  function DigitChar(d: nat): (c: char)
    requires d < 16
    ensures IsLowerHex(c) && DigitValue(c) == d && (d < 10 <==> IsDigit(c))
  {
    if d < 10 then ('0' as int + d) as char else ('a' as int + d - 10) as char
  }

  /** strconv.Itoa on a natural number. */
  function FormatDec(n: nat): (s: string)
    ensures |s| > 0 && AllDigits(s)
  {
    if n < 10 then [DigitChar(n)] else FormatDec(n / 10) + [DigitChar(n % 10)]
  }

  function DecValue(s: string): nat
    requires AllDigits(s)
  {
    if s == "" then 0 else DecValue(s[..|s| - 1]) * 10 + DigitValue(s[|s| - 1])
  }

  predicate NoLeadingZero(s: string) {
    |s| > 1 ==> s[0] != '0'
  }

  /** The printed form is the one numeral of its value without a leading zero. */
  lemma {:induction false} FormatDecValue(n: nat)
    ensures DecValue(FormatDec(n)) == n && NoLeadingZero(FormatDec(n))
    ensures FormatDec(n)[0] == '0' ==> n == 0
  {
    if n >= 10 {
      FormatDecValue(n / 10);
      var s := FormatDec(n);
      assert s[..|s| - 1] == FormatDec(n / 10);
    }
  }

  lemma DigitCharValue(c: char)
    requires IsDigit(c)
    ensures DigitChar(DigitValue(c)) == c
  {
  }

  lemma {:induction false} DecValuePositive(s: string)
    requires s != "" && AllDigits(s) && s[0] != '0'
    ensures DecValue(s) > 0
  {
    if |s| == 1 {
      assert DecValue(s[..0]) == 0;
    } else {
      DecValuePositive(s[..|s| - 1]);
    }
  }

  lemma {:induction false} DecValueFormat(s: string)
    requires s != "" && AllDigits(s) && NoLeadingZero(s)
    ensures FormatDec(DecValue(s)) == s
  {
    var p, c := s[..|s| - 1], s[|s| - 1];
    if p == "" {
      assert s == [c] && DecValue(p) == 0;
      DigitCharValue(c);
    } else {
      DecValueFormat(p);
      assert p[0] == s[0];
      DecValuePositive(p);
      assert DecValue(s) / 10 == DecValue(p) && DecValue(s) % 10 == DigitValue(c);
      DigitCharValue(c);
      assert s == p + [c];
    }
  }

  lemma ShortDecimal(n: nat)
    requires n < 1000
    ensures |FormatDec(n)| <= 3
  {
    assert n >= 10 ==> |FormatDec(n)| == |FormatDec(n / 10)| + 1;
    var w := n / 10;
    assert w >= 10 ==> |FormatDec(w)| == |FormatDec(w / 10)| + 1;
  }

  // ---------------------------------------------------------------- numerals of bounded value

  /** A decimal numeral without leading zeros, of value at most `max`. */
  predicate IsNumeral(s: string, max: nat) {
    s != "" && AllDigits(s) && NoLeadingZero(s) && DecValue(s) <= max
  }

  /** The value of a numeral of at most three digits, read off its digits. */
  lemma ShortNumeral(s: string)
    requires 1 <= |s| <= 3 && AllDigits(s)
    ensures DecValue(s) ==
            if |s| == 1 then DigitValue(s[0])
            else if |s| == 2 then DigitValue(s[0]) * 10 + DigitValue(s[1])
            else DigitValue(s[0]) * 100 + DigitValue(s[1]) * 10 + DigitValue(s[2])
  {
  }

  lemma NumeralIsShort(s: string, max: nat)
    requires IsNumeral(s, max) && max < 1000
    ensures |s| <= 3
  {
    DecValueFormat(s);
    ShortDecimal(DecValue(s));
  }

  lemma PrintedNumeral(n: nat, max: nat)
    ensures IsNumeral(FormatDec(n), max) <==> n <= max
  {
    FormatDecValue(n);
  }

  /** appendHex of net/netip: lower case, no leading zeros. */
  function FormatHex(n: nat): (s: string)
    ensures |s| > 0 && AllLowerHex(s)
  {
    if n < 16 then [DigitChar(n)] else FormatHex(n / 16) + [DigitChar(n % 16)]
  }

  function HexValue(s: string): nat
    requires AllHex(s)
  {
    if s == "" then 0 else HexValue(s[..|s| - 1]) * 16 + DigitValue(s[|s| - 1])
  }

  lemma {:induction false} FormatHexValue(n: nat)
    ensures HexValue(FormatHex(n)) == n && NoLeadingZero(FormatHex(n))
    ensures FormatHex(n)[0] == '0' ==> n == 0
  {
    var s := FormatHex(n);
    if n < 16 {
      assert s[..0] == "";
    } else {
      FormatHexValue(n / 16);
      assert s[..|s| - 1] == FormatHex(n / 16);
    }
  }

  lemma {:induction false} HexValueFormat(s: string)
    requires s != "" && AllLowerHex(s) && NoLeadingZero(s)
    ensures FormatHex(HexValue(s)) == s
    ensures s[0] != '0' ==> HexValue(s) > 0
  {
    var p, c := s[..|s| - 1], s[|s| - 1];
    assert DigitChar(DigitValue(c)) == c;
    if p == "" {
      assert s == [c] && HexValue(p) == 0;
    } else {
      HexValueFormat(p);
      assert p[0] == s[0];
      assert HexValue(s) / 16 == HexValue(p) && HexValue(s) % 16 == DigitValue(c);
      assert s == p + [c];
    }
  }

  lemma FormatHexLength(n: nat)
    requires n < 0x1_0000
    ensures |FormatHex(n)| <= 4
  {
    assert n >= 16 ==> |FormatHex(n)| == |FormatHex(n / 16)| + 1;
    var m := n / 16;
    assert m >= 16 ==> |FormatHex(m)| == |FormatHex(m / 16)| + 1;
    var k := m / 16;
    assert k >= 16 ==> |FormatHex(k)| == |FormatHex(k / 16)| + 1;
  }

  lemma HexValueBound(s: string)
    requires AllHex(s) && |s| <= 4
    ensures HexValue(s) < 0x1_0000
  {
    if |s| > 0 {
      var a := s[..|s| - 1];
      if |a| > 0 {
        var b := a[..|a| - 1];
        if |b| > 0 {
          var c := b[..|b| - 1];
          assert |c| > 0 ==> c[..|c| - 1] == "";
        }
      }
    }
  }

  /** A group of one to four hexadecimal digits. */
  predicate IsGroup(g: string) {
    1 <= |g| <= 4 && AllHex(g)
  }

  function GroupValue(g: string): Word
    requires IsGroup(g)
  {
    HexValueBound(g);
    HexValue(g)
  }
}
