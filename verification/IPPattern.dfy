/** The pattern of IP.Validate (models/ip.go), compared with the parser behind IP.Normalize and
    with the texts that Normalize writes. */
module IPPattern {
  import opened Wrappers
  import opened Numerals
  import opened Text
  import opened Regex
  import opened IPv4
  import opened IPv6
  import opened IPv6Print
  import opened Netip
  import IP

  const DIGIT := OneOf(set c: char | '0' <= c <= '9')

  const HEX :=
    OneOf((set c: char | '0' <= c <= '9') + (set c: char | 'a' <= c <= 'f') + (set c: char | 'A' <= c <= 'F'))

  const DOT := Lit('.')
  const COLON := Lit(':')

  /** [0-9]{1,3} */
  const DIGITS := Rep(DIGIT, 1, Some(3))

  /** (?:r\.){3}r */
  function FourFields(r: Regex): Regex {
    Cat(Times(Cat(r, DOT), 3), r)
  }

  const LOOSE_QUAD := FourFields(DIGITS)

  /** [0-9a-fA-F]*:[0-9a-fA-F]* */
  const HEX_COLON_HEX := Cat(Star(HEX), Cat(COLON, Star(HEX)))

  /** (?:[0-9a-fA-F]*:[0-9a-fA-F]*){2,} */
  const LOOSE_COLONS := Rep(HEX_COLON_HEX, 2, None)

  /** ^(?:LOOSE_QUAD|LOOSE_COLONS)?$ */
  const IP_PATTERN := Opt(Alt(LOOSE_QUAD, LOOSE_COLONS))

  /** IP.Validate. */
  ghost predicate ValidIP(s: string) {
    Matches(IP_PATTERN, s)
  }

  lemma DigitClass(c: char)
    ensures InClass(DIGIT, c) <==> IsDigit(c)
  {
  }

  lemma HexClass(c: char)
    ensures InClass(HEX, c) <==> IsHex(c)
  {
  }

  lemma DigitRep(low: nat, high: Option<nat>, s: string)
    ensures Matches(Rep(DIGIT, low, high), s) <==> InRange(|s|, low, high) && AllDigits(s)
  {
    hide Matches;
    ClassRep(DIGIT, low, high, s);
    forall i | 0 <= i < |s|
      ensures InClass(DIGIT, s[i]) <==> IsDigit(s[i])
    {
      DigitClass(s[i]);
    }
  }

  lemma HexRep(low: nat, high: Option<nat>, s: string)
    ensures Matches(Rep(HEX, low, high), s) <==> InRange(|s|, low, high) && AllHex(s)
  {
    hide Matches;
    ClassRep(HEX, low, high, s);
    forall i | 0 <= i < |s|
      ensures InClass(HEX, s[i]) <==> IsHex(s[i])
    {
      HexClass(s[i]);
    }
  }

  // ---------------------------------------------------------------- hexadecimal digits and colons

  function Colons(s: string): nat {
    if s == "" then 0 else (if s[0] == ':' then 1 else 0) + Colons(s[1..])
  }

  predicate HexColon(s: string) {
    forall i :: 0 <= i < |s| ==> IsHex(s[i]) || s[i] == ':'
  }

  lemma {:induction false} ColonsAdd(x: string, y: string)
    ensures Colons(x + y) == Colons(x) + Colons(y)
  {
    if x == "" {
      assert x + y == y;
    } else {
      assert (x + y)[1..] == x[1..] + y;
      ColonsAdd(x[1..], y);
    }
  }

  lemma {:induction false} NoColons(s: string)
    requires ':' !in s
    ensures Colons(s) == 0
  {
    if s != "" {
      NoColons(s[1..]);
    }
  }

  lemma CutFirstColon(s: string) returns (x: string, z: string)
    requires Colons(s) >= 1
    ensures s == x + (":" + z) && ':' !in x && Colons(s) == 1 + Colons(z)
    ensures HexColon(s) ==> HexColon(x) && HexColon(z)
  {
    var i := IndexOf(s, ':');
    if ':' !in s {
      NoColons(s);
    }
    assert i < |s| by { assert s[..|s|] == s; }
    x, z := s[..i], s[i + 1..];
    NoColons(x);
    assert s == x + (":" + z) && (":" + z)[1..] == z;
    ColonsAdd(x, ":" + z);
  }

  lemma {:induction false} CountedColon(s: string)
    ensures Colons(s) == 0 ==> ':' !in s
  {
    if s != "" {
      CountedColon(s[1..]);
    }
  }

  lemma ColonPart(p: string)
    ensures Matches(HEX_COLON_HEX, p) <==> HexColon(p) && Colons(p) == 1
  {
    hide Matches;
    if Matches(HEX_COLON_HEX, p) {
      var x, y := CatElim(Star(HEX), Cat(COLON, Star(HEX)), p);
      var c, z := CatElim(COLON, Star(HEX), y);
      LitMeaning(':', c);
      HexRep(0, None, x);
      HexRep(0, None, z);
      NoColons(x);
      NoColons(z);
      ColonsAdd(x, y);
      assert y[1..] == z;
    }
    if HexColon(p) && Colons(p) == 1 {
      var x, z := CutFirstColon(p);
      CountedColon(z);
      HexRep(0, None, x);
      HexRep(0, None, z);
      LitMeaning(':', ":");
      CatIntro(COLON, Star(HEX), ":", z);
      CatIntro(Star(HEX), Cat(COLON, Star(HEX)), x, ":" + z);
    }
  }

  lemma {:induction false} PartsColons(parts: seq<string>)
    requires AllMatch(HEX_COLON_HEX, parts)
    ensures HexColon(Flatten(parts)) && Colons(Flatten(parts)) == |parts|
  {
    hide Matches;
    if parts != [] {
      ColonPart(parts[0]);
      PartsColons(parts[1..]);
      ColonsAdd(parts[0], Flatten(parts[1..]));
    }
  }

  /** A text with k colons is cut into k pieces with one colon each. */
  lemma {:induction false} CutColons(s: string) returns (parts: seq<string>)
    requires HexColon(s) && Colons(s) >= 1
    ensures AllMatch(HEX_COLON_HEX, parts) && Flatten(parts) == s && |parts| == Colons(s)
    decreases |s|
  {
    hide Matches;
    if Colons(s) == 1 {
      ColonPart(s);
      parts := [s];
      assert Flatten(parts) == s + Flatten([]) == s;
    } else {
      var x, rest := CutFirstColon(s);
      var piece := x + ":";
      assert s == piece + rest;
      ColonsAdd(piece, rest);
      ColonPart(piece);
      var more := CutColons(rest);
      parts := [piece] + more;
      assert parts[1..] == more;
    }
  }

  /** The IPv6 branch is exactly the hex-and-colon texts with at least two colons. */
  lemma ColonsExact(s: string)
    ensures Matches(LOOSE_COLONS, s) <==> HexColon(s) && Colons(s) >= 2
  {
    hide Matches;
    if Matches(LOOSE_COLONS, s) {
      var parts := RepElim(HEX_COLON_HEX, 2, None, s);
      PartsColons(parts);
    }
    if HexColon(s) && Colons(s) >= 2 {
      var parts := CutColons(s);
      RepIntro(HEX_COLON_HEX, 2, None, parts);
    }
  }

  // ---------------------------------------------------------------- dotted fields

  /** Fields separated by dots; `dots` separators are still to come. */
  predicate IsDotted(s: string, dots: nat, field: string -> bool)
    decreases dots
  {
    if dots == 0 then field(s)
    else
      var i := IndexOf(s, '.');
      i < |s| && field(s[..i]) && IsDotted(s[i + 1..], dots - 1, field)
  }

  /** `r` matches exactly the fields, and no field holds a dot. */
  ghost predicate IsField(r: Regex, field: string -> bool) {
    forall x: string :: (Matches(r, x) <==> field(x)) && (field(x) ==> '.' !in x)
  }

  lemma FieldMeaning(r: Regex, field: string -> bool, x: string)
    requires IsField(r, field)
    ensures (Matches(r, x) <==> field(x)) && (field(x) ==> '.' !in x)
  {
  }

  lemma DottedCut(x: string, rest: string, dots: nat, field: string -> bool)
    requires '.' !in x
    ensures IsDotted(x + ("." + rest), dots + 1, field) <==> field(x) && IsDotted(rest, dots, field)
  {
    var s := x + ("." + rest);
    IndexUnique(s, '.', |x|);
    assert s[..|x|] == x && s[|x| + 1..] == rest;
  }

  lemma LastField(s: string, field: string -> bool)
    ensures IsDotted(s, 0, field) <==> field(s)
  {
  }

  lemma FirstField(s: string, dots: nat, field: string -> bool) returns (x: string, rest: string)
    requires IsDotted(s, dots + 1, field)
    ensures s == x + ("." + rest) && field(x) && IsDotted(rest, dots, field) && '.' !in x
  {
    var i := IndexOf(s, '.');
    x, rest := s[..i], s[i + 1..];
  }

  lemma {:induction false} DottedOfParts(
      r: Regex, field: string -> bool, parts: seq<string>, last: string)
    requires IsField(r, field) && AllMatch(Cat(r, DOT), parts) && Matches(r, last)
    ensures IsDotted(Flatten(parts) + last, |parts|, field)
    decreases |parts|
  {
    hide Matches, IsField, IsDotted;
    FieldMeaning(r, field, last);
    if parts == [] {
      assert Flatten(parts) + last == last;
      LastField(last, field);
    } else {
      var x, p := CatElim(r, DOT, parts[0]);
      FieldMeaning(r, field, x);
      LitMeaning('.', p);
      DottedOfParts(r, field, parts[1..], last);
      var rest := Flatten(parts[1..]) + last;
      DottedCut(x, rest, |parts| - 1, field);
      assert Flatten(parts) + last == x + ("." + rest);
    }
  }

  lemma {:induction false} CutDotted(r: Regex, field: string -> bool, s: string, dots: nat)
    returns (parts: seq<string>, last: string)
    requires IsField(r, field) && IsDotted(s, dots, field)
    ensures AllMatch(Cat(r, DOT), parts) && |parts| == dots && Matches(r, last) && s == Flatten(parts) + last
    decreases dots
  {
    hide Matches, IsField, IsDotted;
    if dots == 0 {
      LastField(s, field);
      FieldMeaning(r, field, s);
      parts, last := [], s;
    } else {
      var x, rest := FirstField(s, dots - 1, field);
      FieldMeaning(r, field, x);
      LitMeaning('.', ".");
      CatIntro(r, DOT, x, ".");
      var more, l := CutDotted(r, field, rest, dots - 1);
      parts, last := [x + "."] + more, l;
      assert parts[1..] == more;
      assert s == x + "." + (Flatten(more) + l);
    }
  }

  /** A pattern for four dotted fields accepts exactly the four dotted fields. */
  lemma QuadFields(r: Regex, field: string -> bool, s: string)
    requires IsField(r, field)
    ensures Matches(FourFields(r), s) <==> IsDotted(s, 3, field)
  {
    hide Matches, IsDotted, IsField;
    if Matches(FourFields(r), s) {
      var x, y := CatElim(Times(Cat(r, DOT), 3), r, s);
      var parts := RepElim(Cat(r, DOT), 3, Some(3), x);
      DottedOfParts(r, field, parts, y);
    }
    if IsDotted(s, 3, field) {
      var parts, last := CutDotted(r, field, s, 3);
      RepIntro(Cat(r, DOT), 3, Some(3), parts);
      CatIntro(Times(Cat(r, DOT), 3), r, Flatten(parts), last);
    }
  }

  lemma {:induction false} DottedMonotone(s: string, dots: nat, weak: string -> bool, strong: string -> bool)
    requires forall x: string :: strong(x) ==> weak(x)
    ensures IsDotted(s, dots, strong) ==> IsDotted(s, dots, weak)
    decreases dots
  {
    if dots > 0 && IsDotted(s, dots, strong) {
      DottedMonotone(s[IndexOf(s, '.') + 1..], dots - 1, weak, strong);
    }
  }

  /** One to three digits. */
  predicate IsDigits(s: string) {
    1 <= |s| <= 3 && AllDigits(s)
  }

  /** A decimal octet without leading zeros. */
  predicate IsOctet(s: string) {
    IsNumeral(s, 255)
  }

  predicate IsLooseQuad(s: string) {
    IsDotted(s, 3, IsDigits)
  }

  lemma LooseQuadExact(s: string)
    ensures Matches(LOOSE_QUAD, s) <==> IsLooseQuad(s)
  {
    hide Matches, IsDotted;
    forall x: string
      ensures Matches(DIGITS, x) <==> IsDigits(x)
    {
      DigitRep(1, Some(3), x);
    }
    QuadFields(DIGITS, IsDigits, s);
  }

  lemma {:induction false} LooseChars(s: string, dots: nat)
    requires IsDotted(s, dots, IsDigits)
    ensures QuadChars(s) && (dots > 0 ==> '.' in s)
    decreases dots
  {
    hide IsDotted;
    if dots == 0 {
      LastField(s, IsDigits);
    } else {
      var x, rest := FirstField(s, dots - 1, IsDigits);
      LooseChars(rest, dots - 1);
    }
  }

  lemma LooseQuadChars(s: string)
    requires IsLooseQuad(s)
    ensures '.' in s && QuadChars(s)
  {
    LooseChars(s, 3);
  }

  // ---------------------------------------------------------------- loose quads and dotted quads

  lemma ReadOctet(s: string) returns (v: Octet)
    requires IsOctet(s)
    ensures s == FormatDec(v)
  {
    DecValueFormat(s);
    v := DecValue(s);
  }

  lemma {:induction false} ReadOctets(s: string, dots: nat) returns (o: seq<Octet>)
    requires IsDotted(s, dots, IsOctet)
    ensures |o| == dots + 1 && s == Dotted(o)
    decreases dots
  {
    hide IsOctet, FormatDec, IsDotted;
    if dots == 0 {
      LastField(s, IsOctet);
      var v := ReadOctet(s);
      o := [v];
    } else {
      var x, rest := FirstField(s, dots - 1, IsOctet);
      var v := ReadOctet(x);
      var more := ReadOctets(rest, dots - 1);
      o := [v] + more;
      assert o[1..] == more;
    }
  }

  lemma OctetText(v: Octet)
    ensures IsOctet(FormatDec(v)) && '.' !in FormatDec(v)
  {
    PrintedNumeral(v, 255);
  }

  lemma {:induction false} DottedOctets(o: seq<Octet>)
    requires |o| > 0
    ensures IsDotted(Dotted(o), |o| - 1, IsOctet)
    decreases |o|
  {
    hide IsOctet, FormatDec, IsDotted;
    OctetText(o[0]);
    if |o| == 1 {
      LastField(Dotted(o), IsOctet);
    } else {
      DottedOctets(o[1..]);
      DottedCut(FormatDec(o[0]), Dotted(o[1..]), |o| - 2, IsOctet);
      assert Dotted(o) == FormatDec(o[0]) + ("." + Dotted(o[1..]));
    }
  }

  /** The texts that parse as IPv4 are exactly four dotted octets without leading zeros. */
  lemma OctetsParse(s: string)
    ensures IsDotted(s, 3, IsOctet) <==> ParseAddr(s).Some? && ParseAddr(s).value.V4?
  {
    hide ParseAddr, IsDotted, Dotted;
    if IsDotted(s, 3, IsOctet) {
      var o := ReadOctets(s, 3);
      ParseAddrV4(s, o);
    }
    if ParseAddr(s).Some? && ParseAddr(s).value.V4? {
      var o := ParseAddr(s).value.octets;
      ParseAddrV4(s, o);
      DottedOctets(o);
    }
  }

  lemma {:induction false} MarkIn(s: string)
    ensures FirstMark(s).Some? ==> FirstMark(s).value in s
  {
    if s != "" {
      MarkIn(s[1..]);
    }
  }

  lemma V6HasColon(s: string)
    requires ParseAddr(s).Some? && ParseAddr(s).value.V6?
    ensures ':' in s
  {
    MarkIn(s);
  }

  /** The gap between the IPv4 branch and the parser: a loose quad parses exactly when each of its
      fields is an octet without leading zeros. */
  lemma LooseQuadParses(s: string)
    requires IsLooseQuad(s)
    ensures ParseAddr(s).Some? <==> IsDotted(s, 3, IsOctet)
  {
    hide ParseAddr, IsDotted;
    LooseQuadChars(s);
    OctetsParse(s);
    if ParseAddr(s).Some? && ParseAddr(s).value.V6? {
      V6HasColon(s);
    }
  }

  lemma OctetIsDigits()
    ensures forall x: string :: IsOctet(x) ==> IsDigits(x)
  {
    forall x: string | IsOctet(x)
      ensures IsDigits(x)
    {
      NumeralIsShort(x, 255);
    }
  }

  lemma PrintedQuadIsLoose(o: seq<Octet>)
    requires |o| == 4
    ensures IsLooseQuad(FormatV4(o))
  {
    hide IsDotted;
    DottedOctets(o);
    OctetIsDigits();
    DottedMonotone(FormatV4(o), 3, IsDigits, IsOctet);
  }

  // ---------------------------------------------------------------- IP.Validate

  /** What the pattern accepts: nothing, a loose quad, or hex and two colons. */
  predicate Decide(s: string) {
    s == "" || IsLooseQuad(s) || (HexColon(s) && Colons(s) >= 2)
  }

  lemma ValidIPMeaning(s: string)
    ensures ValidIP(s) <==> Decide(s)
  {
    hide Matches, IsLooseQuad;
    LooseQuadExact(s);
    OptMeaning(Alt(LOOSE_QUAD, LOOSE_COLONS), s);
    AltMeaning(LOOSE_QUAD, LOOSE_COLONS, s);
    ColonsExact(s);
  }

  lemma {:induction false} TailColons(t: Tail)
    requires t.Valid() && t.quad.None?
    ensures HexColon(t.Text()) && Colons(t.Text()) == if t.groups == [] then 0 else |t.groups| - 1
    decreases |t.groups|
  {
    if t.groups != [] {
      var g := t.groups[0];
      TailColons(t.Rest());
      NoColons(g);
      if !t.Rest().Empty() {
        ColonsAdd(g + ":", t.Rest().Text());
        ColonsAdd(g, ":");
        assert Colons(":") == 1;
      }
    }
  }

  ghost predicate HasQuad(sp: Spelling) {
    match sp
    case Full(t) => t.quad.Some?
    case Elided(_, r) => r.quad.Some?
  }

  lemma SpellingColons(sp: Spelling)
    requires sp.Valid() && !HasQuad(sp)
    ensures HexColon(sp.Text()) && Colons(sp.Text()) >= 2
  {
    match sp
    case Full(t) =>
      TailColons(t);
      TailWordCount(t);
    case Elided(l, r) =>
      var left := Tail(l, None);
      TailColons(left);
      TailColons(r);
      ColonsAdd(left.Text() + "::", r.Text());
      ColonsAdd(left.Text(), "::");
      assert "::"[1..] == ":" && Colons(":") == 1 && Colons("::") == 2;
  }

  lemma {:induction false} TailQuadDot(t: Tail)
    requires t.Valid() && t.quad.Some?
    ensures '.' in t.Text()
    decreases |t.groups|
  {
    if t.groups == [] {
      QuadMark(t.quad.value);
      MarkIn(FormatV4(t.quad.value));
    } else {
      TailQuadDot(t.Rest());
    }
  }

  lemma SpellingDot(sp: Spelling)
    requires sp.Valid()
    ensures HasQuad(sp) <==> '.' in sp.Text()
  {
    if HasQuad(sp) {
      match sp
      case Full(t) => TailQuadDot(t);
      case Elided(_, r) => TailQuadDot(r);
    } else {
      SpellingColons(sp);
    }
  }

  /** Every hex-and-colon text that parses is accepted. */
  lemma ParsableHexColonIsValid(s: string)
    requires HexColon(s) && ParseAddr(s).Some?
    ensures ValidIP(s)
  {
    hide ParseAddr, IsLooseQuad, Matches, Spelling.Text, Spelling.Words, HasQuad;
    ValidIPMeaning(s);
    match ParseAddr(s).value
    case V4(o) =>
      ParseAddrV4(s, o);
      PrintedQuadIsLoose(o);
    case V6(w, z) =>
      var sp := ParsedIsSpelled(s);
      assert z != "" ==> '%' in s;
      assert s == sp.Text();
      SpellingDot(sp);
      SpellingColons(sp);
  }

  /** Of the texts that parse, the pattern accepts exactly the IPv4 ones and those of hexadecimal
      digits and colons. */
  lemma ParsableIsValid(s: string)
    requires ParseAddr(s).Some?
    ensures ValidIP(s) <==> ParseAddr(s).value.V4? || HexColon(s)
  {
    hide ParseAddr, Matches, ValidIP, IsLooseQuad, Colons;
    ValidIPMeaning(s);
    IP.EmptyUnparsable();
    if HexColon(s) {
      ParsableHexColonIsValid(s);
    }
    if IsLooseQuad(s) {
      LooseQuadChars(s);
    }
    match ParseAddr(s).value
    case V4(o) =>
      ParseAddrV4(s, o);
      PrintedQuadIsLoose(o);
    case V6(_, _) => V6HasColon(s);
  }

  lemma FormatWordsColons(ws: seq<Word>)
    requires |ws| == 8
    ensures HexColon(FormatWords(ws)) && Colons(FormatWords(ws)) >= 2
  {
    FormatWordsSpelling(ws);
    SpellingColons(PrintedSpelling(ws));
  }

  lemma NotInLanguages(s: string, i: nat)
    requires i < |s| && (s[i] == '%' || (s[i] == ':' && '.' in s))
    ensures !IsLooseQuad(s) && !HexColon(s)
  {
    if IsLooseQuad(s) {
      LooseQuadChars(s);
    }
  }

  /** A normalized text is accepted exactly when the address has no zone and is not IPv4-mapped. */
  lemma NormalizedIsValid(m: string)
    requires ParseAddr(m).Some?
    ensures IP.Normalize(m).Ok?
    ensures ValidIP(IP.Normalize(m).value) <==> !HasZone(ParseAddr(m).value) && !Is4In6(ParseAddr(m).value)
  {
    hide ParseAddr, IsLooseQuad, Matches, FormatWords, FormatV4, ValidIP;
    IP.EmptyUnparsable();
    var a := ParseAddr(m).value;
    var s := Format(a);
    IP.NormalizeKeepsAddress(m);
    ValidIPMeaning(s);
    match a
    case V4(o) => PrintedQuadIsLoose(o);
    case V6(w, z) =>
      if z != "" {
        assert s[|FormatV6(w)|] == '%';
        NotInLanguages(s, |FormatV6(w)|);
      } else if IsMapped(w) {
        var q := FormatV4(LowQuad(w));
        QuadMark(LowQuad(w));
        MarkIn(q);
        assert s == "::ffff:" + q;
        assert '.' in s && s[0] == ':';
        NotInLanguages(s, 0);
      } else {
        FormatWordsColons(w);
        assert s == FormatWords(w);
      }
  }

  /** Normalize keeps accepted parsable texts accepted, except exactly the IPv4-mapped ones. */
  lemma NormalizeKeepsValid(m: string)
    requires ParseAddr(m).Some? && ValidIP(m)
    ensures IP.Normalize(m).Ok?
    ensures ValidIP(IP.Normalize(m).value) <==> !Is4In6(ParseAddr(m).value)
  {
    hide ParseAddr, IsLooseQuad, Matches, ValidIP, Spelling.Text, Spelling.Words;
    NormalizedIsValid(m);
    ValidIPMeaning(m);
    IP.EmptyUnparsable();
    if HasZone(ParseAddr(m).value) {
      var sp := ParsedIsSpelled(m);
      assert m[|sp.Text()|] == '%';
      NotInLanguages(m, |sp.Text()|);
    }
  }
}
