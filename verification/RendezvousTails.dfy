/** The rendezvous alternatives with a dotted tail, compared with the parser behind IP.Normalize. */
module RendezvousTails {
  import opened Wrappers
  import opened Numerals
  import opened Text
  import opened Regex
  import opened IPv4
  import opened IPv6
  import opened Netip
  import opened IPPattern
  import opened Rendezvous
  import IP

  // ---------------------------------------------------------------- tails

  /** A decimal octet, or one digit behind a padding zero. */
  predicate IsTailOctet(s: string) {
    IsOctet(s) || (|s| == 2 && s[0] == '0' && IsDigit(s[1]))
  }

  predicate IsTailQuad(s: string) {
    IsDotted(s, 3, IsTailOctet)
  }

  const TEENS := Cat(Opt(Lit('1')), DIGIT)
  const TAIL_HIGH := Alt(Cat(Lit('2'), UP_TO_4), TEENS)

  lemma OptOne(s: string)
    ensures Matches(TEENS, s) <==> (|s| == 1 && IsDigit(s[0])) || (|s| == 2 && s[0] == '1' && IsDigit(s[1]))
  {
    hide Matches;
    if Matches(TEENS, s) {
      var x, y := CatElim(Opt(Lit('1')), DIGIT, s);
      OptMeaning(Lit('1'), x);
      LitMeaning('1', x);
      ClassOne(DIGIT, y);
    }
    if |s| == 1 && IsDigit(s[0]) {
      OptMeaning(Lit('1'), "");
      ClassOne(DIGIT, s);
      CatIntro(Opt(Lit('1')), DIGIT, "", s);
      assert "" + s == s;
    }
    if |s| == 2 && s[0] == '1' && IsDigit(s[1]) {
      LitMeaning('1', s[..1]);
      OptMeaning(Lit('1'), s[..1]);
      ClassOne(DIGIT, s[1..]);
      CatIntro(Opt(Lit('1')), DIGIT, s[..1], s[1..]);
      assert s[..1] + s[1..] == s;
    }
  }

  lemma HighMeaning(s: string)
    ensures Matches(TAIL_HIGH, s) <==>
            || (|s| == 1 && IsDigit(s[0]))
            || (|s| == 2 && s[0] == '1' && IsDigit(s[1]))
            || (|s| == 2 && s[0] == '2' && '0' <= s[1] <= '4')
  {
    hide Matches;
    AltMeaning(Cat(Lit('2'), UP_TO_4), TEENS, s);
    OptOne(s);
    ClassCat(Lit('2'), UP_TO_4, s);
    if s != "" {
      ClassOne(UP_TO_4, s[1..]);
    }
  }

  /** An optional head and one digit. */
  lemma OptHead(r: Regex, s: string)
    ensures Matches(Cat(Opt(r), DIGIT), s) <==>
            s != "" && IsDigit(s[|s| - 1]) && (|s| == 1 || Matches(r, s[..|s| - 1]))
  {
    hide Matches;
    if Matches(Cat(Opt(r), DIGIT), s) {
      var x, y := CatElim(Opt(r), DIGIT, s);
      OptMeaning(r, x);
      ClassOne(DIGIT, y);
      assert x == s[..|s| - 1];
    }
    if s != "" && IsDigit(s[|s| - 1]) && (|s| == 1 || Matches(r, s[..|s| - 1])) {
      var x, y := s[..|s| - 1], s[|s| - 1..];
      OptMeaning(r, x);
      ClassOne(DIGIT, y);
      CatIntro(Opt(r), DIGIT, x, y);
      assert s == x + y;
    }
  }

  lemma TailOctetExact(s: string)
    ensures Matches(TAIL_OCTET, s) <==> IsTailOctet(s)
  {
    hide Matches, DecValue;
    var a := Cat(Lit('5'), UP_TO_5);
    AltMeaning(Cat(Lit('2'), a), Cat(Opt(TAIL_HIGH), DIGIT), s);
    ClassCat(Lit('2'), a, s);
    OptHead(TAIL_HIGH, s);
    if s != "" {
      ClassCat(Lit('5'), UP_TO_5, s[1..]);
      HighMeaning(s[..|s| - 1]);
    }
    if |s| > 1 {
      ClassOne(UP_TO_5, s[1..][1..]);
    }
    if IsOctet(s) {
      NumeralIsShort(s, 255);
    }
    if 1 <= |s| <= 3 && AllDigits(s) {
      ShortNumeral(s);
    }
  }

  lemma TailQuadExact(s: string)
    ensures Matches(TAIL_QUAD, s) <==> IsTailQuad(s)
  {
    hide Matches, IsDotted;
    forall x: string
      ensures (Matches(TAIL_OCTET, x) <==> IsTailOctet(x)) && (IsTailOctet(x) ==> '.' !in x)
    {
      TailOctetExact(x);
    }
    QuadFields(TAIL_OCTET, IsTailOctet, s);
  }

  lemma TailQuadChars(s: string)
    requires IsTailQuad(s)
    ensures QuadChars(s) && '.' in s && ':' !in s
  {
    hide IsDotted;
    forall x: string | IsTailOctet(x)
      ensures IsDigits(x)
    {
      if IsOctet(x) {
        NumeralIsShort(x, 255);
      }
    }
    DottedMonotone(s, 3, IsDigits, IsTailOctet);
    LooseQuadChars(s);
  }

  // ---------------------------------------------------------------- heads

  /** The text up to and with its last colon. */
  function UpToColon(s: string): string {
    s[..AfterLast(s, ':')]
  }

  /** The text after its last colon. */
  function AfterColon(s: string): string {
    s[AfterLast(s, ':')..]
  }

  lemma ColonCut(h: string, q: string)
    requires h != "" && h[|h| - 1] == ':' && ':' !in q
    ensures UpToColon(h + q) == h && AfterColon(h + q) == q
  {
    var s := h + q;
    assert s[|h|..] == q && s[..|h|] == h;
    AfterLastUnique(s, ':', |h|);
  }

  predicate IsZeros(z: string) {
    1 <= |z| <= 4 && forall i :: 0 <= i < |z| ==> z[i] == '0'
  }

  /** "::", "::ffff:", or "::ffff:" with a group of zeros and a colon. */
  ghost predicate MappedHead(h: string) {
    h == "::" || h == "::ffff:" || exists z :: IsZeros(z) && h == "::ffff:" + z + ":"
  }

  /** One to four groups and "::". */
  ghost predicate GroupsHead(h: string) {
    exists l :: AllGroups(l) && 1 <= |l| <= 4 && h == WithColons(l) + ":"
  }

  /** The heads that the pattern allows before a dotted tail. */
  ghost predicate TailHead(h: string) {
    MappedHead(h) || GroupsHead(h)
  }

  const FFFF := Cat(Lit('f'), Cat(Lit('f'), Cat(Lit('f'), Lit('f'))))
  const ZEROS := Rep(Lit('0'), 1, Some(4))

  lemma FfffMeaning(s: string)
    ensures Matches(FFFF, s) <==> s == "ffff"
  {
    hide Matches;
    ClassCat(Lit('f'), Cat(Lit('f'), Cat(Lit('f'), Lit('f'))), s);
    if s != "" {
      ClassCat(Lit('f'), Cat(Lit('f'), Lit('f')), s[1..]);
    }
    if |s| > 1 {
      ClassCat(Lit('f'), Lit('f'), s[1..][1..]);
    }
    if |s| > 2 {
      ClassOne(Lit('f'), s[1..][1..][1..]);
    }
  }

  lemma ZerosMeaning(s: string)
    ensures Matches(ZEROS, s) <==> IsZeros(s)
  {
    hide Matches;
    ClassRep(Lit('0'), 1, Some(4), s);
  }

  const INNER := Cat(FFFF, Cat(Opt(Cat(COLON, ZEROS)), COLON))

  /** What may stand between "::" and the tail of a mapped address. */
  ghost predicate IsInner(x: string) {
    x == "ffff:" || exists z :: IsZeros(z) && x == "ffff:" + z + ":"
  }

  lemma InnerIntro(o: string)
    requires o == "" || Matches(Cat(COLON, ZEROS), o)
    ensures Matches(INNER, "ffff" + (o + ":"))
  {
    hide Matches, FFFF, ZEROS;
    OptMeaning(Cat(COLON, ZEROS), o);
    LitMeaning(':', ":");
    FfffMeaning("ffff");
    CatIntro(Opt(Cat(COLON, ZEROS)), COLON, o, ":");
    CatIntro(FFFF, Cat(Opt(Cat(COLON, ZEROS)), COLON), "ffff", o + ":");
  }

  lemma InnerMeaning(s: string)
    ensures Matches(INNER, s) <==> IsInner(s)
  {
    hide Matches, FFFF, ZEROS, IsZeros;
    if Matches(INNER, s) {
      var f, y := CatElim(FFFF, Cat(Opt(Cat(COLON, ZEROS)), COLON), s);
      var o, c := CatElim(Opt(Cat(COLON, ZEROS)), COLON, y);
      FfffMeaning(f);
      LitMeaning(':', c);
      OptMeaning(Cat(COLON, ZEROS), o);
      if o != "" {
        ClassCat(COLON, ZEROS, o);
        var z := o[1..];
        ZerosMeaning(z);
        assert o == ":" + z;
        assert s == "ffff:" + z + ":";
      } else {
        assert s == "ffff" + ("" + ":") == "ffff:";
      }
    }
    if s == "ffff:" {
      InnerIntro("");
      assert "ffff" + ("" + ":") == s;
    }
    if z :| IsZeros(z) && s == "ffff:" + z + ":" {
      ZerosMeaning(z);
      LitMeaning(':', ":");
      CatIntro(COLON, ZEROS, ":", z);
      InnerIntro(":" + z);
      assert "ffff" + ((":" + z) + ":") == s;
    }
  }

  lemma MappedHeadInner(h: string)
    ensures MappedHead(h) <==> exists x :: (x == "" || IsInner(x)) && h == "::" + x
  {
    hide IsZeros;
    if MappedHead(h) {
      if h == "::" {
        assert h == "::" + "";
      } else if h == "::ffff:" {
        assert IsInner("ffff:") && h == "::" + "ffff:";
      } else {
        var z :| IsZeros(z) && h == "::ffff:" + z + ":";
        assert IsInner("ffff:" + z + ":") && h == "::" + ("ffff:" + z + ":");
      }
    }
    if x :| (x == "" || IsInner(x)) && h == "::" + x {
      if x != "" && x != "ffff:" {
        var z :| IsZeros(z) && x == "ffff:" + z + ":";
        assert h == "::ffff:" + z + ":";
      }
    }
  }

  lemma TwoColons(s: string)
    ensures Matches(Cat(COLON, COLON), s) <==> s == "::"
  {
    hide Matches;
    ClassCat(COLON, COLON, s);
    if s != "" {
      LitMeaning(':', s[1..]);
    }
  }

  lemma ReadMappedTail(s: string) returns (h: string, q: string)
    requires Matches(MAPPED_TAIL, s)
    ensures MappedHead(h) && IsTailQuad(q) && s == h + q
  {
    hide Matches, IsTailQuad, IsInner, MappedHead, TAIL_QUAD;
    assert MAPPED_TAIL == Cat(Cat(COLON, COLON), Cat(Opt(INNER), TAIL_QUAD));
    hide INNER, MAPPED_TAIL;
    var c, y := CatElim(Cat(COLON, COLON), Cat(Opt(INNER), TAIL_QUAD), s);
    var x, tail := CatElim(Opt(INNER), TAIL_QUAD, y);
    TwoColons(c);
    OptMeaning(INNER, x);
    InnerMeaning(x);
    TailQuadExact(tail);
    h, q := "::" + x, tail;
    MappedHeadInner(h);
  }

  lemma WriteMappedTail(h: string, q: string)
    requires MappedHead(h) && IsTailQuad(q)
    ensures Matches(MAPPED_TAIL, h + q)
  {
    hide Matches, IsTailQuad, IsInner, MappedHead, TAIL_QUAD;
    assert MAPPED_TAIL == Cat(Cat(COLON, COLON), Cat(Opt(INNER), TAIL_QUAD));
    hide INNER, MAPPED_TAIL;
    MappedHeadInner(h);
    var x :| (x == "" || IsInner(x)) && h == "::" + x;
    InnerMeaning(x);
    OptMeaning(INNER, x);
    TailQuadExact(q);
    TwoColons("::");
    CatIntro(Opt(INNER), TAIL_QUAD, x, q);
    CatIntro(Cat(COLON, COLON), Cat(Opt(INNER), TAIL_QUAD), "::", x + q);
    assert h + q == "::" + (x + q);
  }

  lemma MappedTailMeaning(s: string)
    ensures Matches(MAPPED_TAIL, s) <==> exists h, q :: MappedHead(h) && IsTailQuad(q) && s == h + q
  {
    hide Matches, IsTailQuad, MappedHead, MAPPED_TAIL;
    if Matches(MAPPED_TAIL, s) {
      var h, q := ReadMappedTail(s);
    }
    if h, q :| MappedHead(h) && IsTailQuad(q) && s == h + q {
      WriteMappedTail(h, q);
    }
  }

  lemma ReadGroupsTail(s: string) returns (h: string, q: string)
    requires Matches(GROUPS_TAIL, s)
    ensures GroupsHead(h) && IsTailQuad(q) && s == h + q
  {
    hide Matches, IsTailQuad, TAIL_QUAD, AllGroups;
    var x, y := CatElim(Before(4), Cat(COLON, TAIL_QUAD), s);
    var c, tail := CatElim(COLON, TAIL_QUAD, y);
    var l := ReadBefore(1, 4, x);
    LitMeaning(':', c);
    TailQuadExact(tail);
    h, q := x + ":", tail;
  }

  lemma WriteGroupsTail(h: string, q: string)
    requires GroupsHead(h) && IsTailQuad(q)
    ensures Matches(GROUPS_TAIL, h + q)
  {
    hide Matches, IsTailQuad, TAIL_QUAD, AllGroups;
    var l :| AllGroups(l) && 1 <= |l| <= 4 && h == WithColons(l) + ":";
    WriteBefore(1, 4, l);
    TailQuadExact(q);
    LitMeaning(':', ":");
    CatIntro(COLON, TAIL_QUAD, ":", q);
    CatIntro(Before(4), Cat(COLON, TAIL_QUAD), WithColons(l), ":" + q);
    assert h + q == WithColons(l) + (":" + q);
  }

  lemma GroupsTailMeaning(s: string)
    ensures Matches(GROUPS_TAIL, s) <==> exists h, q :: GroupsHead(h) && IsTailQuad(q) && s == h + q
  {
    hide Matches, IsTailQuad, GroupsHead, GROUPS_TAIL;
    if Matches(GROUPS_TAIL, s) {
      var h, q := ReadGroupsTail(s);
    }
    if h, q :| GroupsHead(h) && IsTailQuad(q) && s == h + q {
      WriteGroupsTail(h, q);
    }
  }

  lemma TailHeadEnds(h: string)
    requires TailHead(h)
    ensures h != "" && h[|h| - 1] == ':'
  {
  }

  lemma ColonParts(s: string)
    ensures s == UpToColon(s) + AfterColon(s)
  {
  }

  /** The alternatives with a dotted tail, on a text cut after its last colon. */
  lemma TailsExact(s: string)
    ensures Matches(MAPPED_TAIL, s) || Matches(GROUPS_TAIL, s) <==> TailHead(UpToColon(s)) && IsTailQuad(AfterColon(s))
  {
    hide Matches, IsTailQuad, MappedHead, GroupsHead, UpToColon, AfterColon;
    MappedTailMeaning(s);
    GroupsTailMeaning(s);
    if h, q :| TailHead(h) && IsTailQuad(q) && s == h + q {
      TailHeadEnds(h);
      TailQuadChars(q);
      ColonCut(h, q);
    }
    assert s == UpToColon(s) + AfterColon(s) by { ColonParts(s); }
  }

  // ---------------------------------------------------------------- the parser

  ghost function GapText(l: seq<string>): string {
    if l == [] then "::" else WithColons(l) + ":"
  }

  /** The heads that the parser allows before a dotted tail: six groups, or "::" among at most
      five. */
  ghost predicate QuadHead(h: string) {
    || (exists gs :: AllGroups(gs) && |gs| == 6 && h == WithColons(gs))
    || (exists l, gs :: AllGroups(l) && AllGroups(gs) && |l| + |gs| <= 5 && h == GapText(l) + WithColons(gs))
  }

  lemma {:induction false} TailWithQuad(gs: seq<string>, o: seq<Octet>)
    requires AllGroups(gs) && |o| == 4
    ensures Tail(gs, Some(o)).Valid() && Tail(gs, Some(o)).Text() == WithColons(gs) + FormatV4(o)
    decreases |gs|
  {
    var t := Tail(gs, Some(o));
    if gs == [] {
      assert "" + FormatV4(o) == FormatV4(o);
    } else {
      TailWithQuad(gs[1..], o);
      assert t.Rest() == Tail(gs[1..], Some(o));
      hide FormatV4;
      assert gs[0] + ":" + (WithColons(gs[1..]) + FormatV4(o)) == (gs[0] + ":" + WithColons(gs[1..])) + FormatV4(o);
    }
  }

  lemma LeftGap(l: seq<string>, rest: string)
    requires AllGroups(l)
    ensures Tail(l, None).Text() + "::" + rest == GapText(l) + rest
  {
    EmptyText();
    hide Tail.Text;
    if l != [] {
      TextBefore(l, ":" + rest);
      assert Tail(l, None).Text() + "::" + rest == Tail(l, None).Text() + ":" + (":" + rest);
    }
  }

  lemma ElidedWithQuad(l: seq<string>, gs: seq<string>, o: seq<Octet>)
    requires AllGroups(l) && AllGroups(gs) && |l| + |gs| <= 5 && |o| == 4
    ensures var sp := Elided(l, Tail(gs, Some(o)));
            sp.Valid() && sp.Text() == GapText(l) + WithColons(gs) + FormatV4(o)
  {
    hide Tail.Text, GapText, FormatV4;
    TailWithQuad(gs, o);
    TailWordCount(Tail(gs, Some(o)));
    LeftGap(l, WithColons(gs) + FormatV4(o));
  }

  lemma SpelledHead(sp: Spelling) returns (h: string, o: seq<Octet>)
    requires sp.Valid() && HasQuad(sp)
    ensures QuadHead(h) && |o| == 4 && sp.Text() == h + FormatV4(o)
  {
    hide Tail.Text, GapText, FormatV4;
    match sp
    case Full(t) =>
      o := t.quad.value;
      TailWithQuad(t.groups, o);
      TailWordCount(t);
      h := WithColons(t.groups);
      assert t == Tail(t.groups, Some(o));
    case Elided(l, r) =>
      o := r.quad.value;
      TailWordCount(r);
      ElidedWithQuad(l, r.groups, o);
      assert r == Tail(r.groups, Some(o));
      h := GapText(l) + WithColons(r.groups);
  }

  lemma QuadHeadSpells(h: string, o: seq<Octet>) returns (sp: Spelling)
    requires QuadHead(h) && |o| == 4
    ensures sp.Valid() && sp.Text() == h + FormatV4(o)
  {
    hide Tail.Text, GapText, FormatV4, AllGroups;
    if gs :| AllGroups(gs) && |gs| == 6 && h == WithColons(gs) {
      TailWithQuad(gs, o);
      TailWordCount(Tail(gs, Some(o)));
      sp := Full(Tail(gs, Some(o)));
    } else {
      var l, gs :| AllGroups(l) && AllGroups(gs) && |l| + |gs| <= 5 && h == GapText(l) + WithColons(gs);
      ElidedWithQuad(l, gs, o);
      sp := Elided(l, Tail(gs, Some(o)));
    }
  }

  lemma {:induction false} WithColonsEnds(gs: seq<string>)
    ensures gs != [] ==> WithColons(gs) != "" && WithColons(gs)[|WithColons(gs)| - 1] == ':'
  {
    if |gs| > 1 {
      WithColonsEnds(gs[1..]);
    }
  }

  lemma EmptyWithColons()
    ensures WithColons([]) == ""
  {
  }

  lemma QuadHeadEnds(h: string)
    requires QuadHead(h)
    ensures h != "" && h[|h| - 1] == ':'
  {
    hide AllGroups, WithColons;
    if gs :| AllGroups(gs) && |gs| == 6 && h == WithColons(gs) {
      WithColonsEnds(gs);
    } else {
      var l, gs :| AllGroups(l) && AllGroups(gs) && |l| + |gs| <= 5 && h == GapText(l) + WithColons(gs);
      WithColonsEnds(gs);
      if gs == [] {
        assert WithColons(gs) == "" by { OneColonGroup(""); EmptyWithColons(); }
      }
    }
  }

  lemma QuadTextChars(o: seq<Octet>)
    requires |o| == 4
    ensures ':' !in FormatV4(o) && FormatV4(o) == Dotted(o)
  {
    DottedChars(o);
  }

  /** On texts with colons and dots, and no zone, the parser reads exactly these. */
  lemma DottedParses(s: string)
    requires ':' in s && '.' in s && '%' !in s
    ensures ParseAddr(s).Some? <==> QuadHead(UpToColon(s)) && IsDotted(AfterColon(s), 3, IsOctet)
  {
    hide ParseAddr, IsDotted, QuadHead, UpToColon, AfterColon, FormatV4, Spelling.Text, Spelling.Words, HasQuad;
    ColonParts(s);
    if ParseAddr(s).Some? {
      if ParseAddr(s).value.V4? {
        ParsedChars(s);
      }
      var sp := ParsedIsSpelled(s);
      assert ParseAddr(s).value.zone != "" ==> '%' in s;
      assert s == sp.Text();
      SpellingDot(sp);
      var h, o := SpelledHead(sp);
      QuadHeadEnds(h);
      DottedOctets(o);
      QuadTextChars(o);
      ColonCut(h, FormatV4(o));
    }
    if QuadHead(UpToColon(s)) && IsDotted(AfterColon(s), 3, IsOctet) {
      var o := ReadOctets(AfterColon(s), 3);
      QuadTextChars(o);
      var sp := QuadHeadSpells(UpToColon(s), o);
      ParseSpelled(sp, "");
      assert sp.Text() + ZoneSuffix("") == s;
    }
  }

  // ---------------------------------------------------------------- colons and dots

  lemma PlainHasNoDot(s: string)
    requires Matches(PLAIN_V6, s)
    ensures '.' !in s && '%' !in s
  {
    hide Matches, Spelling.Text, HasQuad;
    PlainExact(s);
    if s != ":" {
      var sp: Spelling :| Plain(sp) && sp.Text() == s;
      SpellingDot(sp);
      SpellingChars(sp);
    }
  }

  lemma QuadHasNoColon(s: string)
    requires Matches(QUAD, s)
    ensures ':' !in s && '%' !in s
  {
    hide Matches, ParseAddr;
    QuadExact(s);
    ParsedChars(s);
  }

  lemma LinkLocalHasZone(s: string)
    requires Matches(LINK_LOCAL, s)
    ensures '%' in s
  {
    hide Matches;
    assert Must(Cat(Lit('%'), Plus(ALNUM)), '%');
    MustContain(LINK_LOCAL, '%', s);
  }

  /** On texts with colons and dots, and no zone, the pattern accepts exactly these. */
  lemma DottedAccepts(s: string)
    requires ':' in s && '.' in s && '%' !in s
    ensures Accepts(s) <==> TailHead(UpToColon(s)) && IsTailQuad(AfterColon(s))
  {
    hide Matches, Accepts, TailHead, IsTailQuad, UpToColon, AfterColon;
    AcceptsMeaning(s);
    TailsExact(s);
    if Matches(QUAD, s) {
      QuadHasNoColon(s);
    }
    if Matches(PLAIN_V6, s) {
      PlainHasNoDot(s);
    }
    AltMeaning(LINK_LOCAL, Alt(MAPPED_TAIL, GROUPS_TAIL), s);
    AltMeaning(MAPPED_TAIL, GROUPS_TAIL, s);
    if Matches(LINK_LOCAL, s) {
      LinkLocalHasZone(s);
    }
  }

  lemma ZeroGroup(z: string)
    requires IsZeros(z)
    ensures IsGroup(z)
  {
  }

  lemma QuadHeadIntro(l: seq<string>, gs: seq<string>)
    requires AllGroups(l) && AllGroups(gs) && |l| + |gs| <= 5
    ensures QuadHead(GapText(l) + WithColons(gs))
  {
  }

  lemma FfffThenZeros(z: string)
    ensures "::" + WithColons(["ffff", z]) == "::ffff:" + z + ":"
  {
    OneColonGroup(z);
    assert ["ffff", z][1..] == [z];
    hide WithColons;
    assert "ffff" + ":" + (z + ":") == "ffff:" + z + ":";
  }

  /** Every head that the pattern allows, the parser allows. */
  lemma TailHeadIsQuadHead(h: string)
    requires TailHead(h)
    ensures QuadHead(h)
  {
    EmptyWithColons();
    OneColonGroup("ffff");
    hide QuadHead, WithColons;
    if l :| AllGroups(l) && 1 <= |l| <= 4 && h == WithColons(l) + ":" {
      QuadHeadIntro(l, []);
      assert h + "" == h;
    } else if h == "::" {
      QuadHeadIntro([], []);
      assert h + "" == h;
    } else if h == "::ffff:" {
      QuadHeadIntro([], ["ffff"]);
      assert "::" + ("ffff" + ":") == h;
    } else {
      var z :| IsZeros(z) && h == "::ffff:" + z + ":";
      ZeroGroup(z);
      FfffThenZeros(z);
      QuadHeadIntro([], ["ffff", z]);
    }
  }

  lemma {:induction false} SameFields(s: string, dots: nat, p: string -> bool, a: string -> bool, b: string -> bool)
    requires IsDotted(s, dots, p) && forall x: string :: p(x) ==> (a(x) <==> b(x))
    ensures IsDotted(s, dots, a) <==> IsDotted(s, dots, b)
    decreases dots
  {
    if dots > 0 {
      SameFields(s[IndexOf(s, '.') + 1..], dots - 1, p, a, b);
    }
  }

  lemma UnpaddedOctet(x: string)
    requires IsTailOctet(x)
    ensures IsOctet(x) <==> NoLeadingZero(x)
  {
  }

  /** A dotted text that the pattern accepts is parsed exactly when no field of its tail is
      padded. */
  lemma AcceptedTailParses(s: string)
    requires ':' in s && '.' in s && '%' !in s && Accepts(s)
    ensures IP.Normalize(s).Ok? <==> IsDotted(AfterColon(s), 3, NoLeadingZero)
  {
    hide Accepts, ParseAddr, TailHead, QuadHead, IsDotted, UpToColon, AfterColon;
    DottedAccepts(s);
    DottedParses(s);
    TailHeadIsQuadHead(UpToColon(s));
    IP.NormalizeKeepsAddress(s);
    hide IsTailOctet, IsOctet, NoLeadingZero;
    forall x: string | IsTailOctet(x)
      ensures IsOctet(x) <==> NoLeadingZero(x)
    {
      UnpaddedOctet(x);
    }
    SameFields(AfterColon(s), 3, IsTailOctet, IsOctet, NoLeadingZero);
  }

  /** A dotted text that parses is accepted exactly when its head is one of the few that the
      pattern lists. */
  lemma ParsedTailAccepted(s: string)
    requires ':' in s && '.' in s && '%' !in s && IP.Normalize(s).Ok?
    ensures Accepts(s) <==> TailHead(UpToColon(s))
  {
    hide Accepts, ParseAddr, TailHead, QuadHead, IsDotted, UpToColon, AfterColon;
    DottedAccepts(s);
    DottedParses(s);
    IP.NormalizeKeepsAddress(s);
    DottedMonotone(AfterColon(s), 3, IsTailOctet, IsOctet);
  }
}
