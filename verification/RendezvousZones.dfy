/** The rendezvous alternative with a zone, compared with the parser behind IP.Normalize. */
module RendezvousZones {
  import opened Wrappers
  import opened Numerals
  import opened Text
  import opened Regex
  import opened IPv6
  import opened Netip
  import opened IPPattern
  import opened Rendezvous
  import opened RendezvousTails
  import IP

  // ---------------------------------------------------------------- zones

  /** The text before the first percent sign, and the text after it. */
  function Body(s: string): string {
    s[..IndexOf(s, '%')]
  }

  function Zone(s: string): string
    requires '%' in s
  {
    assert s[..|s|] == s;
    s[IndexOf(s, '%') + 1..]
  }

  predicate IsAlnum(c: char) {
    '0' <= c <= '9' || 'a' <= c <= 'z' || 'A' <= c <= 'Z'
  }

  predicate IsZoneName(z: string) {
    z != "" && forall i :: 0 <= i < |z| ==> IsAlnum(z[i])
  }

  ghost predicate ShortFields(gs: seq<string>) {
    forall i :: 0 <= i < |gs| ==> |gs[i]| <= 4 && AllHex(gs[i])
  }

  /** "fe80:" and up to four fields, each behind a colon and perhaps empty. */
  ghost predicate LinkBody(b: string) {
    exists gs :: ShortFields(gs) && |gs| <= 4 && b == "fe80:" + ColonsWith(gs)
  }

  const FE80 := Cat(Lit('f'), Cat(Lit('e'), Cat(Lit('8'), Cat(Lit('0'), COLON))))
  const FIELD := Rep(HEX, 0, Some(4))
  const COLON_FIELD := Cat(COLON, FIELD)

  lemma Fe80Meaning(s: string)
    ensures Matches(FE80, s) <==> s == "fe80:"
  {
    hide Matches;
    ClassCat(Lit('f'), Cat(Lit('e'), Cat(Lit('8'), Cat(Lit('0'), COLON))), s);
    if s != "" {
      ClassCat(Lit('e'), Cat(Lit('8'), Cat(Lit('0'), COLON)), s[1..]);
    }
    if |s| > 1 {
      ClassCat(Lit('8'), Cat(Lit('0'), COLON), s[1..][1..]);
    }
    if |s| > 2 {
      ClassCat(Lit('0'), COLON, s[1..][1..][1..]);
    }
    if |s| > 3 {
      ClassOne(COLON, s[1..][1..][1..][1..]);
    }
  }

  lemma {:induction false} ReadFields(parts: seq<string>) returns (gs: seq<string>)
    requires AllMatch(COLON_FIELD, parts)
    ensures ShortFields(gs) && |gs| == |parts| && Flatten(parts) == ColonsWith(gs)
  {
    hide Matches;
    if parts == [] {
      gs := [];
    } else {
      var c, g := CatElim(COLON, FIELD, parts[0]);
      HexRep(0, Some(4), g);
      LitMeaning(':', c);
      var more := ReadFields(parts[1..]);
      gs := [g] + more;
      assert gs[1..] == more;
    }
  }

  lemma {:induction false} WriteFields(gs: seq<string>) returns (parts: seq<string>)
    requires ShortFields(gs)
    ensures AllMatch(COLON_FIELD, parts) && |parts| == |gs| && Flatten(parts) == ColonsWith(gs)
  {
    hide Matches;
    if gs == [] {
      parts := [];
    } else {
      HexRep(0, Some(4), gs[0]);
      LitMeaning(':', ":");
      CatIntro(COLON, FIELD, ":", gs[0]);
      var more := WriteFields(gs[1..]);
      parts := [":" + gs[0]] + more;
      assert parts[1..] == more;
    }
  }

  lemma AlnumClass(c: char)
    ensures InClass(ALNUM, c) <==> IsAlnum(c)
  {
  }

  lemma ZoneMeaning(s: string)
    ensures Matches(Plus(ALNUM), s) <==> IsZoneName(s)
  {
    hide Matches;
    ClassRep(ALNUM, 1, None, s);
    forall i | 0 <= i < |s|
      ensures InClass(ALNUM, s[i]) <==> IsAlnum(s[i])
    {
      AlnumClass(s[i]);
    }
  }

  lemma {:induction false} FieldsChars(gs: seq<string>)
    requires ShortFields(gs)
    ensures HexColon(ColonsWith(gs)) && Colons(ColonsWith(gs)) == |gs|
  {
    if gs != [] {
      FieldsChars(gs[1..]);
      NoColons(gs[0]);
      ColonsAdd(":" + gs[0], ColonsWith(gs[1..]));
      ColonsAdd(":", gs[0]);
      assert Colons(":") == 1;
    }
  }

  lemma LinkBodyChars(b: string)
    requires LinkBody(b)
    ensures HexColon(b)
  {
    hide ColonsWith, ShortFields;
    var gs :| ShortFields(gs) && |gs| <= 4 && b == "fe80:" + ColonsWith(gs);
    FieldsChars(gs);
  }

  lemma ZoneCut(b: string, z: string)
    requires '%' !in b
    ensures var s := b + "%" + z; '%' in s && Body(s) == b && Zone(s) == z
  {
    var s := b + "%" + z;
    assert s[|b|] == '%';
    IndexUnique(s, '%', |b|);
    assert s[..|b|] == b && s[|b| + 1..] == z;
  }

  lemma BodyAndZone(s: string)
    requires '%' in s
    ensures s == Body(s) + "%" + Zone(s) && '%' !in Body(s)
  {
  }

  lemma LinkBodyIntro(gs: seq<string>)
    requires ShortFields(gs) && |gs| <= 4
    ensures LinkBody("fe80:" + ColonsWith(gs))
  {
  }

  lemma LinkBodyElim(b: string) returns (gs: seq<string>)
    requires LinkBody(b)
    ensures ShortFields(gs) && |gs| <= 4 && b == "fe80:" + ColonsWith(gs)
  {
    gs :| ShortFields(gs) && |gs| <= 4 && b == "fe80:" + ColonsWith(gs);
  }

  /** The zoned alternative, on a text cut at its first percent sign. */
  lemma LinkLocalExact(s: string)
    ensures Matches(LINK_LOCAL, s) <==> '%' in s && LinkBody(Body(s)) && IsZoneName(Zone(s))
  {
    hide Matches, LinkBody, IsZoneName, Body, Zone, ColonsWith, ShortFields;
    assert LINK_LOCAL == Cat(FE80, Cat(Rep(COLON_FIELD, 0, Some(4)), Cat(Lit('%'), Plus(ALNUM))));
    hide LINK_LOCAL, FE80, COLON_FIELD, ALNUM;
    if Matches(LINK_LOCAL, s) {
      var f, y := CatElim(FE80, Cat(Rep(COLON_FIELD, 0, Some(4)), Cat(Lit('%'), Plus(ALNUM))), s);
      var x, w := CatElim(Rep(COLON_FIELD, 0, Some(4)), Cat(Lit('%'), Plus(ALNUM)), y);
      var c, z := CatElim(Lit('%'), Plus(ALNUM), w);
      Fe80Meaning(f);
      LitMeaning('%', c);
      ZoneMeaning(z);
      var parts := RepElim(COLON_FIELD, 0, Some(4), x);
      var gs := ReadFields(parts);
      LinkBodyIntro(gs);
      LinkBodyChars("fe80:" + x);
      ZoneCut("fe80:" + x, z);
      assert s == "fe80:" + x + "%" + z;
    }
    if '%' in s && LinkBody(Body(s)) && IsZoneName(Zone(s)) {
      BodyAndZone(s);
      var gs := LinkBodyElim(Body(s));
      var parts := WriteFields(gs);
      RepIntro(COLON_FIELD, 0, Some(4), parts);
      ZoneMeaning(Zone(s));
      LitMeaning('%', "%");
      Fe80Meaning("fe80:");
      CatIntro(Lit('%'), Plus(ALNUM), "%", Zone(s));
      CatIntro(Rep(COLON_FIELD, 0, Some(4)), Cat(Lit('%'), Plus(ALNUM)), ColonsWith(gs), "%" + Zone(s));
      CatIntro(FE80, Cat(Rep(COLON_FIELD, 0, Some(4)), Cat(Lit('%'), Plus(ALNUM))), "fe80:",
               ColonsWith(gs) + ("%" + Zone(s)));
      assert s == "fe80:" + (ColonsWith(gs) + ("%" + Zone(s)));
    }
  }

  lemma {:induction false} WithColonsChars(gs: seq<string>)
    requires AllGroups(gs)
    ensures '%' !in WithColons(gs)
  {
    if gs != [] {
      assert AllHex(gs[0]);
      WithColonsChars(gs[1..]);
    }
  }

  lemma TailHeadHasNoZone(h: string)
    requires TailHead(h)
    ensures '%' !in h
  {
    if l :| AllGroups(l) && 1 <= |l| <= 4 && h == WithColons(l) + ":" {
      WithColonsChars(l);
    }
  }

  /** A text with a percent sign is accepted by the zoned alternative or not at all. */
  lemma ZonedAccepts(s: string)
    requires '%' in s
    ensures Accepts(s) <==> LinkBody(Body(s)) && IsZoneName(Zone(s))
  {
    hide Matches, Accepts, TailHead, IsTailQuad, UpToColon, AfterColon, LinkBody, IsZoneName, Body, Zone;
    AcceptsMeaning(s);
    LinkLocalExact(s);
    AltMeaning(LINK_LOCAL, Alt(MAPPED_TAIL, GROUPS_TAIL), s);
    AltMeaning(MAPPED_TAIL, GROUPS_TAIL, s);
    TailsExact(s);
    if Matches(QUAD, s) {
      QuadHasNoColon(s);
    }
    if Matches(PLAIN_V6, s) {
      PlainHasNoDot(s);
    }
    if TailHead(UpToColon(s)) && IsTailQuad(AfterColon(s)) {
      TailHeadHasNoZone(UpToColon(s));
      TailQuadChars(AfterColon(s));
      ColonParts(s);
    }
  }

  lemma ZonedIsSpelled(s: string)
    requires '%' in s && ParseAddr(s).Some?
    ensures ParseV6(Body(s)).Some? && Zone(s) != ""
  {
    hide ParseAddr, ParseV6, Spelling.Text, Spelling.Words, Body, Zone;
    if ParseAddr(s).value.V4? {
      ParsedChars(s);
    }
    var z := ParseAddr(s).value.zone;
    var sp := ParsedIsSpelled(s);
    SpellingChars(sp);
    assert z != "";
    ZoneCut(sp.Text(), z);
    assert s == sp.Text() + "%" + z;
    ParseComplete(sp);
  }

  lemma SpelledZoneParses(s: string)
    requires '%' in s && ParseV6(Body(s)).Some? && Zone(s) != ""
    ensures ParseAddr(s).Some?
  {
    hide ParseAddr, ParseV6, Spelling.Text, Spelling.Words, Body, Zone;
    BodyAndZone(s);
    var sp := ParseSound(Body(s));
    ParseSpelled(sp, Zone(s));
    assert s == sp.Text() + ZoneSuffix(Zone(s));
  }

  /** The parser cuts a zone off in the same way. */
  lemma ZonedParses(s: string)
    requires '%' in s
    ensures ParseAddr(s).Some? <==> ParseV6(Body(s)).Some? && Zone(s) != ""
  {
    hide ParseAddr, ParseV6, Body, Zone;
    if ParseAddr(s).Some? {
      ZonedIsSpelled(s);
    }
    if ParseV6(Body(s)).Some? && Zone(s) != "" {
      SpelledZoneParses(s);
    }
  }

  // ---------------------------------------------------------------- which zoned bodies parse

  /** Every colon has something other than a colon behind it. */
  predicate Filled(x: string) {
    forall i :: 0 <= i < |x| && x[i] == ':' ==> i + 1 < |x| && x[i + 1] != ':'
  }

  /** "fe80::", or "fe80:" and more without another gap or a colon at the end. */
  predicate OneGap(b: string) {
    b == "fe80::" || ("fe80:" < b && Filled(b[5..]))
  }

  lemma {:induction false} FilledFields(gs: seq<string>)
    requires ShortFields(gs)
    ensures Filled(ColonsWith(gs)) <==> AllGroups(gs)
  {
    if gs != [] {
      var g, rest := gs[0], ColonsWith(gs[1..]);
      var x := ":" + g + rest;
      FilledFields(gs[1..]);
      assert AllGroups(gs) <==> g != "" && AllGroups(gs[1..]);
      assert rest != "" ==> rest[0] == ':';
      if Filled(x) {
        assert x[0] == ':' && x[1] != ':';
        assert g == "" ==> x == ":" + rest;
        forall i | 0 <= i < |rest| && rest[i] == ':'
          ensures i + 1 < |rest| && rest[i + 1] != ':'
        {
          assert x[1 + |g| + i] == ':' && x[1 + |g| + (i + 1)] == rest[i + 1];
        }
      }
      if g != "" && Filled(rest) {
        forall i | 0 <= i < |x| && x[i] == ':'
          ensures i + 1 < |x| && x[i + 1] != ':'
        {
          if 0 < i {
            assert i > |g|;
            assert rest[i - 1 - |g|] == ':';
          }
        }
      }
    }
  }

  /** In the text of groups every colon stands between two characters that are not colons. */
  lemma {:induction false} TailHasNoGap(gs: seq<string>)
    requires AllGroups(gs)
    ensures Filled(Tail(gs, None).Text())
    decreases |gs|
  {
    var t := Tail(gs, None);
    if |gs| > 1 {
      var g, rest := gs[0], t.Rest().Text();
      TailHasNoGap(gs[1..]);
      TailStart(t.Rest());
      var x := g + ":" + rest;
      forall i | 0 <= i < |x| && x[i] == ':'
        ensures i + 1 < |x| && x[i + 1] != ':'
      {
        if i > |g| {
          assert rest[i - |g| - 1] == ':';
        }
      }
    }
  }

  lemma ManyGroups(l: seq<string>)
    requires AllGroups(l) && |l| > 1
    ensures ':' in Tail(l, None).Text()
  {
  }

  lemma Fe80Groups(l: seq<string>)
    requires AllGroups(l) && Tail(l, None).Text() == "fe80"
    ensures l == ["fe80"]
  {
    if |l| > 1 {
      ManyGroups(l);
    }
    assert l == [l[0]];
    OneGroup(l[0]);
  }

  /** A spelling without a quad that starts with "fe80::" elides right after its first group. */
  lemma GapAfterFe80(sp: Spelling)
    requires sp.Valid() && !HasQuad(sp) && "fe80::" <= sp.Text()
    ensures sp.Elided? && sp.left == ["fe80"]
  {
    var s := sp.Text();
    assert s[4] == "fe80::"[4] && s[5] == "fe80::"[5] && s[..4] == "fe80::"[..4] == "fe80";
    match sp
    case Full(t) =>
      assert t == Tail(t.groups, None);
      TailHasNoGap(t.groups);
    case Elided(l, r) =>
      var x := Tail(l, None).Text();
      TailHasNoGap(l);
      assert s == x + ("::" + r.Text());
      IndexUnique(s, ':', IndexOf(x, ':'));
      IndexUnique(s, ':', 4);
      assert x == s[..4] == "fe80";
      Fe80Groups(l);
  }

  lemma FirstColon(g: string, u: string, h: string, v: string)
    requires AllHex(g) && AllHex(h) && g + u == h + v
    requires (u != "" ==> u[0] == ':') && (v != "" ==> v[0] == ':')
    ensures g == h && u == v
  {
    var s := g + u;
    IndexUnique(s, ':', |g|);
    IndexUnique(s, ':', |h|);
    assert s[..|g|] == g && s[..|h|] == h && s[|g|..] == u && s[|h|..] == v;
  }

  lemma {:induction false} JoinInjective(gs: seq<string>, hs: seq<string>)
    requires ShortFields(gs) && AllGroups(hs) && ColonsWith(gs) == ColonsWith(hs)
    ensures gs == hs
  {
    if gs != [] && hs != [] {
      var x, y := ColonsWith(gs), ColonsWith(hs);
      var u, v := ColonsWith(gs[1..]), ColonsWith(hs[1..]);
      assert x == ":" + (gs[0] + u) && y == ":" + (hs[0] + v);
      assert x[1..] == gs[0] + u && y[1..] == hs[0] + v;
      FirstColon(gs[0], u, hs[0], v);
      JoinInjective(gs[1..], hs[1..]);
      assert gs == [gs[0]] + gs[1..] && hs == [hs[0]] + hs[1..];
    }
  }

  lemma Fe80Valid(gs: seq<string>)
    requires AllGroups(gs) && |gs| <= 6
    ensures var sp := Elided(["fe80"], Tail(gs, None)); sp.Valid() && !HasQuad(sp)
  {
    assert IsGroup("fe80");
    hide IsGroup;
    GroupsWords(gs);
  }

  lemma ElidedParts(l: seq<string>, r: Tail)
    requires Elided(l, r).Valid()
    ensures AllGroups(l) && r.Valid() && Elided(l, r).Text() == Tail(l, None).Text() + "::" + r.Text()
  {
  }

  lemma Fe80Gap(right: string)
    ensures GapText(["fe80"]) + right == "fe80:" + (":" + right)
  {
  }

  /** The text of "::" after "fe80", by the groups behind it. */
  lemma Fe80Text(gs: seq<string>)
    requires AllGroups(gs) && |gs| <= 6
    ensures var sp := Elided(["fe80"], Tail(gs, None));
            sp.Valid() && !HasQuad(sp) && sp.Text() == "fe80:" + if gs == [] then ":" else ColonsWith(gs)
  {
    hide Tail.Text, Spelling.Text, Spelling.Valid, HasQuad, WithColons, ColonsWith, GapText, AllGroups, IsGroup;
    Fe80Valid(gs);
    ElidedParts(["fe80"], Tail(gs, None));
    var right := Tail(gs, None).Text();
    LeftGap(["fe80"], right);
    Fe80Gap(right);
    EmptyText();
    if gs != [] {
      TextAfter(gs);
    }
  }

  lemma Fe80Colons()
    ensures Colons("fe80:") == 1
  {
  }

  lemma Fe80Parsed(b: string) returns (gs: seq<string>)
    requires ParseV6(b).Some? && HexColon(b) && "fe80:" <= b
    requires |b| > 5 ==> b[5] == ':'
    ensures AllGroups(gs) && b == "fe80:" + if gs == [] then ":" else ColonsWith(gs)
  {
    hide ParseV6, Spelling.Text, Spelling.Words, Tail.Text;
    var sp := ParseSound(b);
    SpellingDot(sp);
    if |b| == 5 {
      assert b == "fe80:";
      Fe80Colons();
      SpellingColons(sp);
    }
    GapAfterFe80(sp);
    TailWordCount(sp.right);
    gs := sp.right.groups;
    assert sp == Elided(["fe80"], Tail(gs, None));
    Fe80Text(gs);
  }

  lemma FieldsStart(gs: seq<string>)
    ensures ColonsWith(gs) != "" ==> ColonsWith(gs)[0] == ':'
    ensures gs == [] <==> ColonsWith(gs) == ""
  {
  }

  /** Of the bodies that the zoned alternative accepts, the parser reads exactly those with one
      "::" and no colon at the end, and "fe80::". */
  lemma LinkBodyParses(b: string)
    requires LinkBody(b)
    ensures ParseV6(b).Some? <==> OneGap(b)
  {
    hide ParseV6, Filled, ColonsWith, Spelling.Words;
    var gs := LinkBodyElim(b);
    LinkBodyChars(b);
    FieldsStart(gs);
    assert b[5..] == ColonsWith(gs);
    FilledFields(gs);
    if ParseV6(b).Some? {
      var hs := Fe80Parsed(b);
      if hs != [] {
        assert b[5..] == ColonsWith(hs);
        JoinInjective(gs, hs);
      }
    }
    if b == "fe80::" {
      Fe80Text([]);
      ParseComplete(Elided(["fe80"], Tail([], None)));
    } else if b != "fe80:" && Filled(b[5..]) {
      Fe80Text(gs);
      ParseComplete(Elided(["fe80"], Tail(gs, None)));
    }
  }

  lemma OneFieldText()
    ensures ColonsWith([""]) == ":"
  {
  }

  lemma GroupsAreShort(gs: seq<string>)
    requires AllGroups(gs)
    ensures ShortFields(gs) && ShortFields([""])
  {
  }

  /** Of the bodies that the parser reads, the zoned alternative accepts exactly those that start
      with "fe80::", hold no dot and have at most five colons. */
  lemma ParsedLinkBody(b: string)
    requires ParseV6(b).Some?
    ensures LinkBody(b) <==> "fe80::" <= b && '.' !in b && Colons(b) <= 5
  {
    hide ParseV6, ColonsWith, Spelling.Text, Spelling.Words, Colons, ShortFields;
    Fe80Colons();
    if LinkBody(b) {
      var gs := LinkBodyElim(b);
      LinkBodyChars(b);
      FieldsChars(gs);
      FieldsStart(gs);
      ColonsAdd("fe80:", ColonsWith(gs));
      assert b[5..] == ColonsWith(gs);
      var hs := Fe80Parsed(b);
      FieldsStart(hs);
      assert b[5] == ':';
    }
    if "fe80::" <= b && '.' !in b && Colons(b) <= 5 {
      var sp := ParseSound(b);
      SpellingDot(sp);
      SpellingColons(sp);
      var hs := Fe80Parsed(b);
      var gs := if hs == [] then [""] else hs;
      OneFieldText();
      assert ShortFields(gs) by { GroupsAreShort(hs); }
      FieldsChars(gs);
      ColonsAdd("fe80:", ColonsWith(gs));
      LinkBodyIntro(gs);
    }
  }

  // ---------------------------------------------------------------- zoned texts compared

  /** A zoned text that the pattern accepts is parsed exactly when its body has one gap. */
  lemma AcceptedZoneParses(s: string)
    requires '%' in s && Accepts(s)
    ensures IP.Normalize(s).Ok? <==> OneGap(Body(s))
  {
    hide Accepts, ParseAddr, ParseV6, LinkBody, OneGap, Body, Zone;
    ZonedAccepts(s);
    ZonedParses(s);
    LinkBodyParses(Body(s));
    IP.NormalizeKeepsAddress(s);
  }

  /** A zoned text that parses is accepted exactly when it is a link-local address with the gap
      right after "fe80", at most four groups behind it and an alphanumeric zone. */
  lemma ParsedZoneAccepted(s: string)
    requires '%' in s && IP.Normalize(s).Ok?
    ensures Accepts(s) <==>
            "fe80::" <= Body(s) && '.' !in Body(s) && Colons(Body(s)) <= 5 && IsZoneName(Zone(s))
  {
    hide Accepts, ParseAddr, ParseV6, LinkBody, Colons, Body, Zone, IsZoneName;
    ZonedAccepts(s);
    ZonedParses(s);
    IP.NormalizeKeepsAddress(s);
    ParsedLinkBody(Body(s));
  }
}
