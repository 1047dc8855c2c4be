/** Dotted-quad text, as net/netip scans and prints it. */
module IPv4 {
  import opened Wrappers
  import opened Numerals
  import opened Text

  /** Octets in decimal, separated by dots. */
  function Dotted(octets: seq<Octet>): (s: string)
    requires |octets| > 0
    ensures |s| > 0 && IsDigit(s[0])
  {
    if |octets| == 1 then FormatDec(octets[0])
    else FormatDec(octets[0]) + "." + Dotted(octets[1..])
  }

  function FormatV4(octets: seq<Octet>): string
    requires |octets| == 4
  {
    Dotted(octets)
  }

  /** The one-pass scanner behind netip.ParseAddr: `fields` are complete, `val` is the octet
      under way and `digits` counts its digits so far. */
  function ScanFields(s: string, fields: seq<Octet>, val: Octet, digits: nat): Option<seq<Octet>>
    requires |fields| <= 3
    decreases |s|
  {
    if s == "" then
      if |fields| < 3 then None else Some(fields + [val])
    else if IsDigit(s[0]) then
      if digits == 1 && val == 0 then None
      else if val * 10 + DigitValue(s[0]) > 255 then None
      else ScanFields(s[1..], fields, val * 10 + DigitValue(s[0]), digits + 1)
    else if s[0] == '.' then
      if digits == 0 || |s| == 1 then None
      else if |fields| == 3 then None
      else ScanFields(s[1..], fields + [val], 0, 0)
    else None
  }

  function ParseV4(s: string): Option<seq<Octet>> {
    ScanFields(s, [], 0, 0)
  }

  ghost function Pending(val: Octet, digits: nat): string {
    if digits == 0 then "" else FormatDec(val)
  }

  lemma PendingDigit(val: Octet, digits: nat, c: char)
    requires IsDigit(c) && val * 10 + DigitValue(c) <= 255
    requires digits == |Pending(val, digits)| && (digits == 0 ==> val == 0) && !(digits == 1 && val == 0)
    ensures Pending(val * 10 + DigitValue(c), digits + 1) == Pending(val, digits) + [c]
  {
  }

  lemma PrefixStep<T>(o: seq<T>, p: seq<T>, x: T)
    requires |p| < |o| && o[..|p| + 1] == p + [x]
    ensures o[..|p|] == p && o[|p|] == x
  {
  }

  lemma PendingLast(val: Octet, digits: nat)
    ensures digits > 0 ==> Pending(val, digits) == FormatDec(val) == Dotted([val])
    ensures Pending(0, 0) == ""
  {
  }

  lemma DottedCons(o: seq<Octet>, k: nat)
    requires k + 1 < |o|
    ensures Dotted(o[k..]) == FormatDec(o[k]) + "." + Dotted(o[k + 1..])
  {
  }

  /** What the head of a successfully scanned text must be. */
  lemma ScanHead(s: string, fields: seq<Octet>, val: Octet, digits: nat, o: seq<Octet>)
    requires |fields| <= 3 && ScanFields(s, fields, val, digits) == Some(o)
    ensures s == "" ==> |fields| == 3 && o == fields + [val]
    ensures s != "" && IsDigit(s[0]) ==>
              && !(digits == 1 && val == 0) && val * 10 + DigitValue(s[0]) <= 255
              && ScanFields(s[1..], fields, val * 10 + DigitValue(s[0]), digits + 1) == Some(o)
    ensures s != "" && !IsDigit(s[0]) ==>
              && s[0] == '.' && digits > 0 && |s| > 1 && |fields| < 3
              && ScanFields(s[1..], fields + [val], 0, 0) == Some(o)
  {
  }

  lemma {:induction false} ScanSound(s: string, fields: seq<Octet>, val: Octet, digits: nat, o: seq<Octet>)
    requires |fields| <= 3
    requires digits == |Pending(val, digits)| && (digits == 0 ==> val == 0)
    requires digits == 0 ==> s != "" || |fields| == 0
    requires ScanFields(s, fields, val, digits) == Some(o)
    ensures |o| == 4 && o[..|fields|] == fields && Pending(val, digits) + s == Dotted(o[|fields|..])
    decreases |s|
  {
    hide ScanFields, FormatDec, Dotted, Pending;
    ScanHead(s, fields, val, digits, o);
    if s == "" {
      assert o[3..] == [val];
      PendingLast(val, digits);
    } else if IsDigit(s[0]) {
      PendingDigit(val, digits, s[0]);
      var next := val * 10 + DigitValue(s[0]);
      ScanSound(s[1..], fields, next, digits + 1, o);
      Shift(Pending(val, digits), s);
    } else {
      PendingLast(val, digits);
      ScanSound(s[1..], fields + [val], 0, 0, o);
      PrefixStep(o, fields, val);
      DottedCons(o, |fields|);
      Shift(Pending(val, digits), s);
      assert "" + s[1..] == s[1..];
    }
  }

  /** One printed octet is read in full, whatever follows it. */
  lemma ScanOctet(v: Octet, rest: string, fields: seq<Octet>)
    requires |fields| <= 3
    ensures ScanFields(FormatDec(v) + rest, fields, 0, 0)
         == ScanFields(rest, fields, v, |FormatDec(v)|)
  {
    var s := FormatDec(v) + rest;
    if v < 10 {
      assert s[1..] == rest;
    } else {
      var w: Octet := v / 10;
      if w < 10 {
        assert FormatDec(v) == [DigitChar(w), DigitChar(v % 10)];
        assert s[1..][1..] == rest;
      } else {
        assert FormatDec(w) == [DigitChar(w / 10), DigitChar(w % 10)];
        assert FormatDec(v) == [DigitChar(w / 10), DigitChar(w % 10), DigitChar(v % 10)];
        var t := s[1..];
        assert t[0] == DigitChar(w % 10);
        assert ScanFields(s, fields, 0, 0) == ScanFields(t, fields, w / 10, 1);
        var u := t[1..];
        assert u[0] == DigitChar(v % 10) && u[1..] == rest;
        assert ScanFields(t, fields, w / 10, 1) == ScanFields(u, fields, w, 2);
      }
    }
  }

  lemma {:induction false} ScanComplete(todo: seq<Octet>, fields: seq<Octet>)
    requires |todo| > 0 && |fields| + |todo| == 4
    ensures ScanFields(Dotted(todo), fields, 0, 0) == Some(fields + todo)
    decreases |todo|
  {
    var v := todo[0];
    if |todo| == 1 {
      ScanOctet(v, "", fields);
      assert FormatDec(v) + "" == Dotted(todo);
      assert [v] == todo;
    } else {
      var rest := "." + Dotted(todo[1..]);
      ScanOctet(v, rest, fields);
      assert FormatDec(v) + rest == Dotted(todo);
      assert rest[1..] == Dotted(todo[1..]);
      ScanComplete(todo[1..], fields + [v]);
      assert fields + [v] + todo[1..] == fields + todo;
    }
  }

  /** Dotted quads have exactly one spelling: scanning undoes printing, and nothing but a
      printed quad is scanned. */
  lemma ParseV4Exact(s: string)
    ensures forall o: seq<Octet> | |o| == 4 :: ParseV4(s) == Some(o) <==> s == FormatV4(o)
    ensures ParseV4(s).Some? ==> |ParseV4(s).value| == 4
  {
    if ParseV4(s).Some? {
      var o := ParseV4(s).value;
      ScanSound(s, [], 0, 0, o);
      assert o[0..] == o && "" + s == s;
    }
    forall o: seq<Octet> | |o| == 4 && s == FormatV4(o)
      ensures ParseV4(s) == Some(o)
    {
      ScanComplete(o, []);
      assert [] + o == o;
    }
  }

  lemma ParseFormatV4(o: seq<Octet>)
    requires |o| == 4
    ensures ParseV4(FormatV4(o)) == Some(o)
  {
    ParseV4Exact(FormatV4(o));
  }

  /** The octets are written in order, first octet first. */
  lemma QuadText(o: seq<Octet>)
    requires |o| == 4
    ensures FormatV4(o) ==
            FormatDec(o[0]) + "." + (FormatDec(o[1]) + "." + (FormatDec(o[2]) + "." + FormatDec(o[3])))
  {
    DottedCons(o, 0);
    DottedCons(o, 1);
    DottedCons(o, 2);
    assert o[0..] == o && o[3..] == [o[3]];
  }
}
