/** The address and prefix values of Go's net/netip: parsing, printing and masking. */
module Netip {
  import opened Wrappers
  import opened Numerals
  import opened Text
  import opened Bits
  import opened IPv4
  import opened IPv6
  import opened IPv6Print

  datatype RawAddr = V4(octets: seq<Octet>) | V6(words: seq<Word>, zone: string) {
    predicate Valid() {
      match this
      case V4(o) => |o| == 4
      case V6(w, _) => |w| == 8
    }
  }

  type Addr = a: RawAddr | a.Valid() witness V4([0, 0, 0, 0])

  function BitLen(a: Addr): nat {
    if a.V4? then 32 else 128
  }

  predicate HasZone(a: Addr) {
    a.V6? && a.zone != ""
  }

  function WithoutZone(a: Addr): Addr {
    if a.V4? then a else V6(a.words, "")
  }

  predicate Is4In6(a: Addr) {
    a.V6? && IsMapped(a.words)
  }

  // ---------------------------------------------------------------- text

  /** The first of the characters that decide the family. */
  function FirstMark(s: string): Option<char> {
    if s == "" then None
    else if s[0] == '.' || s[0] == ':' || s[0] == '%' then Some(s[0])
    else FirstMark(s[1..])
  }

  lemma ParseV6Length(s: string)
    ensures ParseV6(s).Some? ==> |ParseV6(s).value| == 8
  {
    if ParseV6(s).Some? {
      var sp := ParseSound(s);
    }
  }

  /** An IPv6 text with an optional, non-empty zone. */
  function ParseZoned(s: string): Option<Addr> {
    var i := IndexOf(s, '%');
    if i + 1 == |s| then None
    else
      var ws := ParseV6(s[..i]);
      if ws.None? then None
      else
        ParseV6Length(s[..i]);
        Some(V6(ws.value, if i < |s| then s[i + 1..] else ""))
  }

  /** netip.ParseAddr. */
  function ParseAddr(s: string): Option<Addr> {
    match FirstMark(s)
    case Some(c) =>
      if c == '.' then
        ParseV4Exact(s);
        var o := ParseV4(s);
        if o.None? then None else Some(V4(o.value))
      else if c == ':' then ParseZoned(s)
      else None
    case None => None
  }

  function ZoneSuffix(zone: string): string {
    if zone == "" then "" else "%" + zone
  }

  /** Addr.String. */
  function Format(a: Addr): string {
    match a
    case V4(o) => FormatV4(o)
    case V6(w, z) => FormatV6(w) + ZoneSuffix(z)
  }

  // ---------------------------------------------------------------- what a parsable text looks like

  /** Only characters of a dotted quad. */
  predicate QuadChars(s: string) {
    forall i :: 0 <= i < |s| ==> IsDigit(s[i]) || s[i] == '.'
  }

  /** Only characters of an address without a zone. */
  predicate AddrChars(s: string) {
    forall i :: 0 <= i < |s| ==> IsHex(s[i]) || s[i] == ':' || s[i] == '.'
  }

  lemma {:induction false} DottedChars(o: seq<Octet>)
    requires |o| > 0
    ensures QuadChars(Dotted(o))
  {
    if |o| > 1 {
      DottedChars(o[1..]);
    }
  }

  lemma {:induction false} TailChars(t: Tail)
    requires t.Valid()
    ensures AddrChars(t.Text())
    decreases |t.groups|
  {
    if t.groups == [] {
      if t.quad.Some? {
        DottedChars(t.quad.value);
      }
    } else {
      TailChars(t.Rest());
    }
  }

  lemma SpellingChars(sp: Spelling)
    requires sp.Valid()
    ensures AddrChars(sp.Text())
  {
    match sp
    case Full(t) => TailChars(t);
    case Elided(l, r) =>
      TailChars(Tail(l, None));
      TailChars(r);
  }

  lemma {:induction false} FirstMarkAfter(g: string, rest: string)
    requires AllHex(g)
    ensures FirstMark(g + rest) == FirstMark(rest)
  {
    if g == "" {
      assert g + rest == rest;
    } else {
      assert (g + rest)[1..] == g[1..] + rest;
      FirstMarkAfter(g[1..], rest);
    }
  }

  lemma QuadMark(o: seq<Octet>)
    requires |o| == 4
    ensures FirstMark(FormatV4(o)) == Some('.')
  {
    FirstMarkAfter(FormatDec(o[0]), "." + Dotted(o[1..]));
    assert FormatV4(o) == FormatDec(o[0]) + ("." + Dotted(o[1..]));
  }

  lemma TailMark(t: Tail, rest: string)
    requires t.Valid() && |t.groups| > 0
    requires t.Rest().Empty() ==> rest != "" && rest[0] == ':'
    ensures FirstMark(t.Text() + rest) == Some(':')
  {
    var g := t.groups[0];
    if t.Rest().Empty() {
      FirstMarkAfter(g, rest);
    } else {
      var tail := ":" + t.Rest().Text() + rest;
      FirstMarkAfter(g, tail);
      assert t.Text() + rest == g + tail;
    }
  }

  lemma SpellingMark(sp: Spelling, rest: string)
    requires sp.Valid()
    ensures FirstMark(sp.Text() + rest) == Some(':')
  {
    match sp
    case Full(t) =>
      TailWordCount(t);
      TailMark(t, rest);
    case Elided(l, r) =>
      var left, tail := Tail(l, None), "::" + r.Text() + rest;
      assert sp.Text() + rest == left.Text() + tail;
      if l == [] {
        assert left.Text() + tail == tail;
      } else {
        TailMark(left, tail);
      }
  }

  /** A spelling, with or without a zone, parses to its words and zone. */
  lemma ParseSpelled(sp: Spelling, zone: string)
    requires sp.Valid()
    ensures ParseAddr(sp.Text() + ZoneSuffix(zone)) == Some(V6(sp.Words(), zone))
  {
    hide ParseV6, Spelling.Text, Spelling.Words, ParseV4;
    var body := sp.Text();
    var s := body + ZoneSuffix(zone);
    SpellingMark(sp, ZoneSuffix(zone));
    SpellingChars(sp);
    IndexUnique(s, '%', |body|);
    assert s[..|body|] == body;
    ParseComplete(sp);
    if zone != "" {
      assert s[|body| + 1..] == zone;
    }
  }

  /** The texts of IPv6 addresses are exactly the spellings, each perhaps with a zone. */
  lemma ParsedIsSpelled(s: string) returns (sp: Spelling)
    requires ParseAddr(s).Some? && ParseAddr(s).value.V6?
    ensures var a := ParseAddr(s).value;
            sp.Valid() && s == sp.Text() + ZoneSuffix(a.zone) && sp.Words() == a.words
  {
    hide ParseV6, Spelling.Text, Spelling.Words, ParseV4;
    var i := IndexOf(s, '%');
    sp := ParseSound(s[..i]);
    if i < |s| {
      assert s == s[..i] + ("%" + s[i + 1..]);
    } else {
      assert s == s[..i] + "";
    }
  }

  /** The texts of IPv4 addresses are exactly the printed ones. */
  lemma ParseAddrV4(s: string, o: seq<Octet>)
    requires |o| == 4
    ensures ParseAddr(s) == Some(V4(o)) <==> s == FormatV4(o)
  {
    ParseV4Exact(s);
    QuadMark(o);
  }

  lemma FormatIsSpelled(w: seq<Word>) returns (sp: Spelling)
    requires |w| == 8
    ensures sp.Valid() && sp.Text() == FormatV6(w) && sp.Words() == w
  {
    if IsMapped(w) {
      FormatMappedSpelling(w);
      sp := Elided([], Tail(["ffff"], Some(LowQuad(w))));
    } else {
      FormatWordsSpelling(w);
      sp := PrintedSpelling(w);
    }
  }

  /** Parsing undoes printing, for every address and zone. */
  lemma ParseFormat(a: Addr)
    ensures ParseAddr(Format(a)) == Some(a)
  {
    match a
    case V4(o) => ParseAddrV4(Format(a), o);
    case V6(w, z) =>
      var sp := FormatIsSpelled(w);
      ParseSpelled(sp, z);
  }

  /** Without a zone, an address text has no slash, no percent sign, and is not empty. */
  lemma ParsedChars(s: string)
    requires ParseAddr(s).Some? && !HasZone(ParseAddr(s).value)
    ensures AddrChars(s) && s != ""
    ensures ParseAddr(s).value.V4? ==> QuadChars(s)
  {
    match ParseAddr(s).value
    case V4(o) =>
      ParseAddrV4(s, o);
      DottedChars(o);
    case V6(_, _) =>
      var sp := ParsedIsSpelled(s);
      SpellingChars(sp);
      assert sp.Text() + "" == sp.Text();
  }

  // ---------------------------------------------------------------- prefixes

  datatype RawPrefix = RawPrefix(addr: Addr, bits: nat)

  /** A valid netip.Prefix: no zone, and a length the family allows. */
  type Prefix = p: RawPrefix | !HasZone(p.addr) && p.bits <= BitLen(p.addr) witness RawPrefix(V4([0, 0, 0, 0]), 0)

  /** netip.PrefixFrom with a length in range; it drops the zone. */
  function PrefixFrom(a: Addr, bits: nat): Prefix
    requires bits <= BitLen(a)
  {
    RawPrefix(WithoutZone(a), bits)
  }

  function MaskAddr(a: Addr, n: nat): Addr {
    match a
    case V4(o) => V4(KeepBits(o, 8, n))
    case V6(w, z) => V6(KeepBits(w, 16, n), z)
  }

  /** Prefix.Masked. */
  function Masked(p: Prefix): Prefix {
    RawPrefix(MaskAddr(p.addr, p.bits), p.bits)
  }

  /** Prefix.String. */
  function FormatPrefix(p: Prefix): string {
    Format(p.addr) + "/" + FormatDec(p.bits)
  }

  /** netip.ParsePrefix: cut at the last slash, no zone, no leading zero in the length. */
  function ParsePrefix(s: string): Option<Prefix> {
    var i := AfterLast(s, '/');
    if i == 0 then None
    else
      var a := ParseAddr(s[..i - 1]);
      var len := s[i..];
      if a.None? || HasZone(a.value) then None
      else if |len| > 1 && !('1' <= len[0] <= '9') then None
      else if len == "" || !AllDigits(len) then None
      else if DecValue(len) > BitLen(a.value) then None
      else Some(PrefixFrom(a.value, DecValue(len)))
  }

  /** Cutting a text whose tail after a slash holds digits only. */
  lemma CutAtSlash(body: string, len: string)
    requires AllDigits(len)
    ensures var s, i := body + "/" + len, |body| + 1;
            AfterLast(s, '/') == i && s[..i - 1] == body && s[i..] == len
    ensures '/' !in body ==> IndexOf(body + "/" + len, '/') == |body|
  {
    var s, i := body + "/" + len, |body| + 1;
    assert s[i..] == len && s[..i - 1] == body;
    AfterLastUnique(s, '/', i);
    if '/' !in body {
      IndexUnique(s, '/', |body|);
    }
  }

  /** Parsing undoes printing for prefixes too. */
  lemma ParseFormatPrefix(p: Prefix)
    ensures ParsePrefix(FormatPrefix(p)) == Some(p)
  {
    hide ParseAddr, Format, FormatDec, DecValue;
    ParseFormat(p.addr);
    FormatDecValue(p.bits);
    CutAtSlash(Format(p.addr), FormatDec(p.bits));
  }
}
