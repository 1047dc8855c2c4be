/** The rendezvous address pattern of models/infra_env.go, in full, compared with the parser
    behind IP.Normalize. */
module Rendezvous {
  import opened Wrappers
  import opened Numerals
  import opened Regex
  import opened IPv6
  import opened Netip
  import opened IPPattern
  import IP
  import SubnetPattern

  const NONZERO := SubnetPattern.NONZERO
  const UP_TO_4 := OneOf(set c: char | '0' <= c <= '4')
  const UP_TO_5 := OneOf(set c: char | '0' <= c <= '5')
  const ALNUM :=
    OneOf((set c: char | '0' <= c <= '9') + (set c: char | 'a' <= c <= 'z') + (set c: char | 'A' <= c <= 'Z'))

  // ---------------------------------------------------------------- the pattern

  /** 25[0-5]|2[0-4][0-9]|1[0-9]{2}|[1-9]?[0-9] */
  const OCTET :=
    Alt(Cat(Lit('2'), Cat(Lit('5'), UP_TO_5)),
        Alt(Cat(Lit('2'), Cat(UP_TO_4, DIGIT)),
            Alt(Cat(Lit('1'), Times(DIGIT, 2)),
                Cat(Opt(NONZERO), DIGIT))))

  const QUAD := FourFields(OCTET)

  /** [0-9a-fA-F]{1,4}, with a colon behind it, and with a colon before it. */
  const GROUP := Rep(HEX, 1, Some(4))

  const GROUP_COLON := Cat(GROUP, COLON)
  const COLON_GROUP := Cat(COLON, GROUP)

  function Before(high: nat): Regex {
    Rep(GROUP_COLON, 1, Some(high))
  }

  function After(high: nat): Regex {
    Rep(COLON_GROUP, 1, Some(high))
  }

  const FULL := Cat(Times(GROUP_COLON, 7), GROUP)
  const ENDS_WITH_GAP := Cat(Before(7), COLON)
  const ONE_AFTER := Cat(Before(6), Cat(COLON, GROUP))
  const ONE_BEFORE := Cat(GROUP, Cat(COLON, After(6)))
  const STARTS_WITH_GAP := Cat(COLON, After(7))

  /** (25[0-5]|(2[0-4]|1?[0-9])?[0-9]): the octet of the dotted tails, which allows one padding zero. */
  const TAIL_OCTET :=
    Alt(Cat(Lit('2'), Cat(Lit('5'), UP_TO_5)),
        Cat(Opt(Alt(Cat(Lit('2'), UP_TO_4), Cat(Opt(Lit('1')), DIGIT))), DIGIT))

  const TAIL_QUAD := FourFields(TAIL_OCTET)

  /** fe80:(:[0-9a-fA-F]{0,4}){0,4}%[0-9a-zA-Z]{1,} */
  const LINK_LOCAL :=
    Cat(Cat(Lit('f'), Cat(Lit('e'), Cat(Lit('8'), Cat(Lit('0'), COLON)))),
        Cat(Rep(Cat(COLON, Rep(HEX, 0, Some(4))), 0, Some(4)), Cat(Lit('%'), Plus(ALNUM))))

  /** ::(ffff(:0{1,4}){0,1}:){0,1}TAIL_QUAD */
  const MAPPED_TAIL :=
    Cat(Cat(COLON, COLON),
        Cat(Opt(Cat(Cat(Lit('f'), Cat(Lit('f'), Cat(Lit('f'), Lit('f')))),
                    Cat(Opt(Cat(COLON, Rep(Lit('0'), 1, Some(4)))), COLON))),
            TAIL_QUAD))

  /** ([0-9a-fA-F]{1,4}:){1,4}:TAIL_QUAD */
  const GROUPS_TAIL := Cat(Before(4), Cat(COLON, TAIL_QUAD))

  /** The alternatives without dots or zones, in source order. */
  const PLAIN_V6 :=
    Alt(FULL, Alt(ENDS_WITH_GAP, Alt(ONE_AFTER,
    Alt(Cat(Before(5), After(2)), Alt(Cat(Before(4), After(3)),
    Alt(Cat(Before(3), After(4)), Alt(Cat(Before(2), After(5)),
    Alt(ONE_BEFORE, Alt(STARTS_WITH_GAP, COLON)))))))))

  const OTHER_V6 := Alt(LINK_LOCAL, Alt(MAPPED_TAIL, GROUPS_TAIL))
  const RENDEZVOUS_PATTERN := Alt(Eps, Alt(QUAD, Alt(PLAIN_V6, OTHER_V6)))

  /** What validateRendezvousIP accepts in a non-nil field. */
  ghost predicate Accepts(s: string) {
    Matches(RENDEZVOUS_PATTERN, s)
  }

  lemma AcceptsMeaning(s: string)
    ensures Accepts(s) <==> s == "" || Matches(QUAD, s) || Matches(PLAIN_V6, s) || Matches(OTHER_V6, s)
  {
    hide Matches;
    AltMeaning(Eps, Alt(QUAD, Alt(PLAIN_V6, OTHER_V6)), s);
    AltMeaning(QUAD, Alt(PLAIN_V6, OTHER_V6), s);
    AltMeaning(PLAIN_V6, OTHER_V6, s);
    EpsMeaning(s);
  }

  // ---------------------------------------------------------------- octets and quads

  lemma TwoDigitRep(s: string)
    ensures Matches(Times(DIGIT, 2), s) <==> |s| == 2 && AllDigits(s)
  {
    DigitRep(2, Some(2), s);
  }

  lemma OptDigit(s: string)
    ensures Matches(Cat(Opt(NONZERO), DIGIT), s) <==>
            || (|s| == 1 && IsDigit(s[0]))
            || (|s| == 2 && '1' <= s[0] <= '9' && IsDigit(s[1]))
  {
    hide Matches;
    if Matches(Cat(Opt(NONZERO), DIGIT), s) {
      var x, y := CatElim(Opt(NONZERO), DIGIT, s);
      OptMeaning(NONZERO, x);
      ClassOne(NONZERO, x);
      ClassOne(DIGIT, y);
    }
    if |s| == 1 && IsDigit(s[0]) {
      OptMeaning(NONZERO, "");
      ClassOne(DIGIT, s);
      CatIntro(Opt(NONZERO), DIGIT, "", s);
      assert "" + s == s;
    }
    if |s| == 2 && '1' <= s[0] <= '9' && IsDigit(s[1]) {
      ClassOne(NONZERO, s[..1]);
      OptMeaning(NONZERO, s[..1]);
      ClassOne(DIGIT, s[1..]);
      CatIntro(Opt(NONZERO), DIGIT, s[..1], s[1..]);
      assert s[..1] + s[1..] == s;
    }
  }

  /** The octet alternative is exactly the printed octets. */
  lemma OctetExact(s: string)
    ensures Matches(OCTET, s) <==> IsOctet(s)
  {
    hide Matches, DecValue;
    var a, b := Cat(Lit('5'), UP_TO_5), Cat(UP_TO_4, DIGIT);
    var c, d := Cat(Lit('1'), Times(DIGIT, 2)), Cat(Opt(NONZERO), DIGIT);
    AltMeaning(Cat(Lit('2'), a), Alt(Cat(Lit('2'), b), Alt(c, d)), s);
    AltMeaning(Cat(Lit('2'), b), Alt(c, d), s);
    AltMeaning(c, d, s);
    ClassCat(Lit('2'), a, s);
    ClassCat(Lit('2'), b, s);
    ClassCat(Lit('1'), Times(DIGIT, 2), s);
    OptDigit(s);
    if s != "" {
      ClassCat(Lit('5'), UP_TO_5, s[1..]);
      ClassCat(UP_TO_4, DIGIT, s[1..]);
      TwoDigitRep(s[1..]);
    }
    if |s| > 1 {
      ClassOne(UP_TO_5, s[1..][1..]);
      ClassOne(DIGIT, s[1..][1..]);
    }
    if IsOctet(s) {
      NumeralIsShort(s, 255);
    }
    if 1 <= |s| <= 3 && AllDigits(s) {
      ShortNumeral(s);
      assert |s| == 3 ==> s[1..][0] == s[1] && s[1..][1] == s[2] && s[1..][1..][0] == s[2];
    }
  }

  /** The IPv4 branch accepts exactly the texts that parse as IPv4, over all strings. */
  lemma QuadExact(s: string)
    ensures Matches(QUAD, s) <==> ParseAddr(s).Some? && ParseAddr(s).value.V4?
  {
    hide Matches, ParseAddr, IsDotted;
    forall x: string
      ensures (Matches(OCTET, x) <==> IsOctet(x)) && (IsOctet(x) ==> '.' !in x)
    {
      OctetExact(x);
    }
    QuadFields(OCTET, IsOctet, s);
    OctetsParse(s);
  }

  // ---------------------------------------------------------------- groups and their colons

  /** Groups, each followed by a colon. */
  ghost function WithColons(gs: seq<string>): string {
    if gs == [] then "" else gs[0] + ":" + WithColons(gs[1..])
  }

  /** Groups, each preceded by a colon. */
  ghost function ColonsWith(gs: seq<string>): string {
    if gs == [] then "" else ":" + gs[0] + ColonsWith(gs[1..])
  }

  lemma GroupMeaning(g: string)
    ensures Matches(GROUP, g) <==> IsGroup(g)
  {
    HexRep(1, Some(4), g);
  }

  lemma {:induction false} ReadGroupColons(parts: seq<string>) returns (gs: seq<string>)
    requires AllMatch(GROUP_COLON, parts)
    ensures AllGroups(gs) && |gs| == |parts| && Flatten(parts) == WithColons(gs)
  {
    hide Matches;
    if parts == [] {
      gs := [];
    } else {
      var g, c := CatElim(GROUP, COLON, parts[0]);
      GroupMeaning(g);
      LitMeaning(':', c);
      var more := ReadGroupColons(parts[1..]);
      gs := [g] + more;
      assert gs[1..] == more;
    }
  }

  lemma {:induction false} ReadColonGroups(parts: seq<string>) returns (gs: seq<string>)
    requires AllMatch(COLON_GROUP, parts)
    ensures AllGroups(gs) && |gs| == |parts| && Flatten(parts) == ColonsWith(gs)
  {
    hide Matches;
    if parts == [] {
      gs := [];
    } else {
      var c, g := CatElim(COLON, GROUP, parts[0]);
      GroupMeaning(g);
      LitMeaning(':', c);
      var more := ReadColonGroups(parts[1..]);
      gs := [g] + more;
      assert gs[1..] == more;
    }
  }

  lemma ReadBefore(low: nat, high: nat, s: string) returns (gs: seq<string>)
    requires Matches(Rep(GROUP_COLON, low, Some(high)), s)
    ensures AllGroups(gs) && low <= |gs| <= high && s == WithColons(gs)
  {
    hide Matches;
    var parts := RepElim(GROUP_COLON, low, Some(high), s);
    gs := ReadGroupColons(parts);
  }

  lemma ReadAfter(high: nat, s: string) returns (gs: seq<string>)
    requires Matches(After(high), s)
    ensures AllGroups(gs) && 1 <= |gs| <= high && s == ColonsWith(gs)
  {
    hide Matches;
    var parts := RepElim(COLON_GROUP, 1, Some(high), s);
    gs := ReadColonGroups(parts);
  }

  lemma {:induction false} WriteGroupColons(gs: seq<string>) returns (parts: seq<string>)
    requires AllGroups(gs)
    ensures AllMatch(GROUP_COLON, parts) && |parts| == |gs| && Flatten(parts) == WithColons(gs)
  {
    hide Matches;
    if gs == [] {
      parts := [];
    } else {
      GroupMeaning(gs[0]);
      LitMeaning(':', ":");
      CatIntro(GROUP, COLON, gs[0], ":");
      var more := WriteGroupColons(gs[1..]);
      parts := [gs[0] + ":"] + more;
      assert parts[1..] == more;
    }
  }

  lemma {:induction false} WriteColonGroups(gs: seq<string>) returns (parts: seq<string>)
    requires AllGroups(gs)
    ensures AllMatch(COLON_GROUP, parts) && |parts| == |gs| && Flatten(parts) == ColonsWith(gs)
  {
    hide Matches;
    if gs == [] {
      parts := [];
    } else {
      GroupMeaning(gs[0]);
      LitMeaning(':', ":");
      CatIntro(COLON, GROUP, ":", gs[0]);
      var more := WriteColonGroups(gs[1..]);
      parts := [":" + gs[0]] + more;
      assert parts[1..] == more;
    }
  }

  lemma WriteBefore(low: nat, high: nat, gs: seq<string>)
    requires AllGroups(gs) && low <= |gs| <= high
    ensures Matches(Rep(GROUP_COLON, low, Some(high)), WithColons(gs))
  {
    hide Matches;
    var parts := WriteGroupColons(gs);
    RepIntro(GROUP_COLON, low, Some(high), parts);
  }

  lemma WriteAfter(high: nat, gs: seq<string>)
    requires AllGroups(gs) && 1 <= |gs| <= high
    ensures Matches(After(high), ColonsWith(gs))
  {
    hide Matches;
    var parts := WriteColonGroups(gs);
    RepIntro(COLON_GROUP, 1, Some(high), parts);
  }

  lemma {:induction false} TextBefore(gs: seq<string>, rest: string)
    requires AllGroups(gs) && gs != []
    ensures Tail(gs, None).Text() + ":" + rest == WithColons(gs) + rest
    decreases |gs|
  {
    var t := Tail(gs, None);
    if |gs| == 1 {
      assert WithColons(gs[1..]) == "";
    } else {
      TextBefore(gs[1..], rest);
      assert t.Text() + ":" + rest == gs[0] + ":" + (t.Rest().Text() + ":" + rest);
      assert WithColons(gs) + rest == gs[0] + ":" + (WithColons(gs[1..]) + rest);
    }
  }

  lemma {:induction false} TextAfter(gs: seq<string>)
    requires AllGroups(gs) && gs != []
    ensures ":" + Tail(gs, None).Text() == ColonsWith(gs)
    decreases |gs|
  {
    var t := Tail(gs, None);
    if |gs| == 1 {
      assert ColonsWith(gs[1..]) == "";
    } else {
      TextAfter(gs[1..]);
      assert ":" + t.Text() == ":" + gs[0] + (":" + t.Rest().Text());
    }
  }

  lemma EmptyText()
    ensures Tail([], None).Text() == ""
  {
  }

  /** The text of "::" between two lists of groups, as the pattern's pieces write it. */
  lemma ElidedText(l: seq<string>, r: seq<string>)
    requires AllGroups(l) && AllGroups(r)
    ensures var s := Tail(l, None).Text() + "::" + Tail(r, None).Text();
            && (l != [] && r != [] ==> s == WithColons(l) + ColonsWith(r))
            && (l != [] && r == [] ==> s == WithColons(l) + ":")
            && (l == [] && r != [] ==> s == ":" + ColonsWith(r))
            && (l == [] && r == [] ==> s == "::")
  {
    hide Tail.Text;
    var left, right := Tail(l, None).Text(), Tail(r, None).Text();
    EmptyText();
    assert left + "::" + right == left + ":" + (":" + right);
    if l != [] {
      TextBefore(l, ":" + right);
    }
    if r != [] {
      TextAfter(r);
    }
  }

  /** A full address: seven groups with colons and one more. */
  lemma FullText(gs: seq<string>, g: string)
    requires AllGroups(gs) && gs != [] && IsGroup(g)
    ensures AllGroups(gs + [g]) && Tail(gs + [g], None).Text() == WithColons(gs) + g
    decreases |gs|
  {
    var all := gs + [g];
    var t := Tail(all, None);
    assert all[1..] == gs[1..] + [g];
    if |gs| == 1 {
      assert gs[1..] + [g] == [g];
      OneGroup(g);
      assert WithColons(gs[1..]) == "";
      assert t.Rest() == Tail([g], None);
    } else {
      FullText(gs[1..], g);
      assert t.Rest() == Tail(gs[1..] + [g], None);
      assert WithColons(gs) + g == gs[0] + ":" + (WithColons(gs[1..]) + g);
    }
  }

  // ---------------------------------------------------------------- the alternatives accept spellings

  /** A spelling without a quad that writes at least one group. */
  ghost predicate Plain(sp: Spelling) {
    sp.Valid() && !HasQuad(sp) && (sp.Elided? ==> sp.left != [] || sp.right.groups != [])
  }

  ghost predicate IsPlainSpelling(s: string) {
    exists sp: Spelling :: Plain(sp) && sp.Text() == s
  }

  lemma ElidedIsSpelling(l: seq<string>, r: seq<string>)
    requires AllGroups(l) && AllGroups(r) && 1 <= |l| + |r| <= 7
    ensures IsPlainSpelling(Tail(l, None).Text() + "::" + Tail(r, None).Text())
  {
    var sp := Elided(l, Tail(r, None));
    GroupsWords(r);
    assert Plain(sp);
    assert sp.Text() == Tail(l, None).Text() + "::" + Tail(r, None).Text();
  }

  lemma FullIsSpelling(s: string)
    requires Matches(FULL, s)
    ensures IsPlainSpelling(s)
  {
    hide Matches;
    var x, g := CatElim(Times(GROUP_COLON, 7), GROUP, s);
    var gs := ReadBefore(7, 7, x);
    GroupMeaning(g);
    FullText(gs, g);
    GroupsWords(gs + [g]);
    var sp := Full(Tail(gs + [g], None));
    assert Plain(sp) && sp.Text() == s;
  }

  lemma BothSidesIsSpelling(k: nat, j: nat, s: string)
    requires k + j <= 7 && Matches(Cat(Before(k), After(j)), s)
    ensures IsPlainSpelling(s)
  {
    hide Matches, Tail.Text;
    var x, y := CatElim(Before(k), After(j), s);
    var l := ReadBefore(1, k, x);
    var r := ReadAfter(j, y);
    ElidedText(l, r);
    ElidedIsSpelling(l, r);
  }

  lemma EndGapIsSpelling(s: string)
    requires Matches(ENDS_WITH_GAP, s)
    ensures IsPlainSpelling(s)
  {
    hide Matches, Tail.Text;
    var x, c := CatElim(Before(7), COLON, s);
    LitMeaning(':', c);
    var l := ReadBefore(1, 7, x);
    ElidedText(l, []);
    ElidedIsSpelling(l, []);
  }

  lemma OneColonGroup(g: string)
    ensures ColonsWith([g]) == ":" + g && WithColons([g]) == g + ":"
  {
  }

  lemma OneAfterIsSpelling(s: string)
    requires Matches(ONE_AFTER, s)
    ensures IsPlainSpelling(s)
  {
    hide Matches, Tail.Text;
    var x, y := CatElim(Before(6), Cat(COLON, GROUP), s);
    var c, g := CatElim(COLON, GROUP, y);
    LitMeaning(':', c);
    GroupMeaning(g);
    var l := ReadBefore(1, 6, x);
    OneColonGroup(g);
    ElidedText(l, [g]);
    ElidedIsSpelling(l, [g]);
  }

  lemma OneBeforeIsSpelling(s: string)
    requires Matches(ONE_BEFORE, s)
    ensures IsPlainSpelling(s)
  {
    hide Matches, Tail.Text;
    var g, y := CatElim(GROUP, Cat(COLON, After(6)), s);
    var c, z := CatElim(COLON, After(6), y);
    LitMeaning(':', c);
    GroupMeaning(g);
    var r := ReadAfter(6, z);
    OneColonGroup(g);
    ElidedText([g], r);
    ElidedIsSpelling([g], r);
    assert g + (":" + z) == g + ":" + z;
  }

  lemma StartGapIsSpelling(s: string)
    requires Matches(STARTS_WITH_GAP, s)
    ensures IsPlainSpelling(s)
  {
    hide Matches, Tail.Text;
    var c, y := CatElim(COLON, After(7), s);
    LitMeaning(':', c);
    var r := ReadAfter(7, y);
    ElidedText([], r);
    ElidedIsSpelling([], r);
  }

  /** The ten alternatives, one by one. */
  lemma PlainAlternatives(s: string)
    ensures Matches(PLAIN_V6, s) <==>
            || Matches(FULL, s) || Matches(ENDS_WITH_GAP, s) || Matches(ONE_AFTER, s)
            || Matches(Cat(Before(5), After(2)), s) || Matches(Cat(Before(4), After(3)), s)
            || Matches(Cat(Before(3), After(4)), s) || Matches(Cat(Before(2), After(5)), s)
            || Matches(ONE_BEFORE, s) || Matches(STARTS_WITH_GAP, s) || s == ":"
  {
    hide Matches;
    LitMeaning(':', s);
    var a9 := Alt(STARTS_WITH_GAP, COLON);
    var a8 := Alt(ONE_BEFORE, a9);
    var a7 := Alt(Cat(Before(2), After(5)), a8);
    var a6 := Alt(Cat(Before(3), After(4)), a7);
    var a5 := Alt(Cat(Before(4), After(3)), a6);
    var a4 := Alt(Cat(Before(5), After(2)), a5);
    var a3 := Alt(ONE_AFTER, a4);
    var a2 := Alt(ENDS_WITH_GAP, a3);
    AltMeaning(FULL, a2, s);
    AltMeaning(ENDS_WITH_GAP, a3, s);
    AltMeaning(ONE_AFTER, a4, s);
    AltMeaning(Cat(Before(5), After(2)), a5, s);
    AltMeaning(Cat(Before(4), After(3)), a6, s);
    AltMeaning(Cat(Before(3), After(4)), a7, s);
    AltMeaning(Cat(Before(2), After(5)), a8, s);
    AltMeaning(ONE_BEFORE, a9, s);
    AltMeaning(STARTS_WITH_GAP, COLON, s);
  }

  lemma PlainIsSpelling(s: string)
    requires Matches(PLAIN_V6, s) && s != ":"
    ensures IsPlainSpelling(s)
  {
    hide Matches, IsPlainSpelling;
    PlainAlternatives(s);
    if Matches(FULL, s) {
      FullIsSpelling(s);
    } else if Matches(ENDS_WITH_GAP, s) {
      EndGapIsSpelling(s);
    } else if Matches(ONE_AFTER, s) {
      OneAfterIsSpelling(s);
    } else if Matches(Cat(Before(5), After(2)), s) {
      BothSidesIsSpelling(5, 2, s);
    } else if Matches(Cat(Before(4), After(3)), s) {
      BothSidesIsSpelling(4, 3, s);
    } else if Matches(Cat(Before(3), After(4)), s) {
      BothSidesIsSpelling(3, 4, s);
    } else if Matches(Cat(Before(2), After(5)), s) {
      BothSidesIsSpelling(2, 5, s);
    } else if Matches(ONE_BEFORE, s) {
      OneBeforeIsSpelling(s);
    } else {
      StartGapIsSpelling(s);
    }
  }

  // ---------------------------------------------------------------- digits and dots

  lemma PlainHasColon(s: string)
    requires Matches(PLAIN_V6, s)
    ensures ':' in s
  {
    hide Matches, Spelling.Text;
    if s != ":" {
      PlainIsSpelling(s);
      var sp: Spelling :| Plain(sp) && sp.Text() == s;
      SpellingMark(sp, "");
      assert s + "" == s;
      MarkIn(s);
    }
  }

  lemma OtherHasColon(s: string)
    requires Matches(OTHER_V6, s)
    ensures ':' in s
  {
    hide Matches;
    AltMeaning(LINK_LOCAL, Alt(MAPPED_TAIL, GROUPS_TAIL), s);
    AltMeaning(MAPPED_TAIL, GROUPS_TAIL, s);
    if Matches(LINK_LOCAL, s) {
      assert Must(Cat(Lit('0'), COLON), ':');
      assert Must(Cat(Lit('8'), Cat(Lit('0'), COLON)), ':');
      assert Must(Cat(Lit('e'), Cat(Lit('8'), Cat(Lit('0'), COLON))), ':');
      assert Must(LINK_LOCAL, ':');
      MustContain(LINK_LOCAL, ':', s);
    } else if Matches(MAPPED_TAIL, s) {
      assert Must(Cat(COLON, COLON), ':');
      MustContain(MAPPED_TAIL, ':', s);
    } else {
      assert Must(Cat(COLON, TAIL_QUAD), ':');
      MustContain(GROUPS_TAIL, ':', s);
    }
  }

  /** On digits and dots the pattern and Normalize accept the same texts, without exception. */
  lemma QuadTextsAgree(s: string)
    requires QuadChars(s)
    ensures Accepts(s) <==> IP.Normalize(s).Ok?
  {
    hide Matches, ParseAddr, Accepts;
    AcceptsMeaning(s);
    QuadExact(s);
    IP.NormalizeKeepsAddress(s);
    if Matches(PLAIN_V6, s) {
      PlainHasColon(s);
    }
    if Matches(OTHER_V6, s) {
      OtherHasColon(s);
    }
    if ParseAddr(s).Some? && ParseAddr(s).value.V6? {
      V6HasColon(s);
    }
  }

  // ---------------------------------------------------------------- spellings are accepted

  lemma FullMatches(gs: seq<string>)
    requires AllGroups(gs) && |gs| == 8
    ensures Matches(FULL, Tail(gs, None).Text())
  {
    hide Matches;
    var init, g := gs[..7], gs[7];
    assert gs == init + [g];
    FullText(init, g);
    WriteBefore(7, 7, init);
    GroupMeaning(g);
    CatIntro(Times(GROUP_COLON, 7), GROUP, WithColons(init), g);
  }

  lemma BothSidesMatch(k: nat, j: nat, l: seq<string>, r: seq<string>)
    requires AllGroups(l) && AllGroups(r) && 1 <= |l| <= k && 1 <= |r| <= j
    ensures Matches(Cat(Before(k), After(j)), WithColons(l) + ColonsWith(r))
  {
    hide Matches;
    WriteBefore(1, k, l);
    WriteAfter(j, r);
    CatIntro(Before(k), After(j), WithColons(l), ColonsWith(r));
  }

  lemma ElidedEndMatches(l: seq<string>)
    requires AllGroups(l) && 1 <= |l| <= 7
    ensures Matches(ENDS_WITH_GAP, WithColons(l) + ":")
  {
    hide Matches;
    WriteBefore(1, 7, l);
    LitMeaning(':', ":");
    CatIntro(Before(7), COLON, WithColons(l), ":");
  }

  lemma ElidedStartMatches(r: seq<string>)
    requires AllGroups(r) && 1 <= |r| <= 7
    ensures Matches(STARTS_WITH_GAP, ":" + ColonsWith(r))
  {
    hide Matches;
    WriteAfter(7, r);
    LitMeaning(':', ":");
    CatIntro(COLON, After(7), ":", ColonsWith(r));
  }

  lemma OneAfterMatches(l: seq<string>, r: seq<string>)
    requires AllGroups(l) && AllGroups(r) && 1 <= |l| <= 6 && |r| == 1
    ensures Matches(ONE_AFTER, WithColons(l) + ColonsWith(r))
  {
    hide Matches;
    var g := r[0];
    assert r == [g];
    OneColonGroup(g);
    WriteBefore(1, 6, l);
    GroupMeaning(g);
    LitMeaning(':', ":");
    CatIntro(COLON, GROUP, ":", g);
    CatIntro(Before(6), Cat(COLON, GROUP), WithColons(l), ":" + g);
  }

  lemma OneBeforeText(g: string, rest: string)
    ensures g + (":" + rest) == WithColons([g]) + rest
  {
  }

  lemma OneBeforeMatches(g: string, r: seq<string>)
    requires IsGroup(g) && AllGroups(r) && 1 <= |r| <= 6
    ensures Matches(ONE_BEFORE, WithColons([g]) + ColonsWith(r))
  {
    hide Matches, WithColons, ColonsWith;
    WriteAfter(6, r);
    GroupMeaning(g);
    LitMeaning(':', ":");
    var after := ":" + ColonsWith(r);
    CatIntro(COLON, After(6), ":", ColonsWith(r));
    CatIntro(GROUP, Cat(COLON, After(6)), g, after);
    OneBeforeText(g, ColonsWith(r));
  }

  /** The bounded repetitions together cover every k + j <= 7 groups around "::" but none at all. */
  lemma ElidedMatches(l: seq<string>, r: seq<string>)
    requires AllGroups(l) && AllGroups(r) && 1 <= |l| + |r| <= 7
    ensures Matches(PLAIN_V6, Tail(l, None).Text() + "::" + Tail(r, None).Text())
  {
    hide Matches, Tail.Text;
    ElidedText(l, r);
    PlainAlternatives(Tail(l, None).Text() + "::" + Tail(r, None).Text());
    if l == [] {
      ElidedStartMatches(r);
    } else if r == [] {
      ElidedEndMatches(l);
    } else if |r| == 1 {
      OneAfterMatches(l, r);
    } else if |r| == 2 {
      BothSidesMatch(5, 2, l, r);
    } else if |r| == 3 {
      BothSidesMatch(4, 3, l, r);
    } else if |r| == 4 {
      BothSidesMatch(3, 4, l, r);
    } else if |r| == 5 {
      BothSidesMatch(2, 5, l, r);
    } else {
      assert l == [l[0]];
      OneBeforeMatches(l[0], r);
    }
  }

  lemma SpellingMatches(sp: Spelling)
    requires Plain(sp)
    ensures Matches(PLAIN_V6, sp.Text())
  {
    hide Matches;
    match sp
    case Full(t) =>
      TailWordCount(t);
      FullMatches(t.groups);
      PlainAlternatives(t.Text());
      assert t == Tail(t.groups, None);
    case Elided(l, r) =>
      TailWordCount(r);
      assert r == Tail(r.groups, None);
      ElidedMatches(l, r.groups);
  }

  /** The plain alternatives accept the plain spellings, and the lone colon. */
  lemma PlainExact(s: string)
    ensures Matches(PLAIN_V6, s) <==> IsPlainSpelling(s) || s == ":"
  {
    hide Matches;
    PlainAlternatives(s);
    if Matches(PLAIN_V6, s) && s != ":" {
      PlainIsSpelling(s);
    }
    if IsPlainSpelling(s) {
      var sp: Spelling :| Plain(sp) && sp.Text() == s;
      SpellingMatches(sp);
    }
  }

  // ---------------------------------------------------------------- hexadecimal digits and colons

  lemma TailQuadMustDot()
    ensures Must(GROUPS_TAIL, '.') && Must(MAPPED_TAIL, '.')
  {
    assert Must(DOT, '.');
    assert Must(Cat(TAIL_OCTET, DOT), '.');
    assert Must(Times(Cat(TAIL_OCTET, DOT), 3), '.');
    assert Must(TAIL_QUAD, '.');
    assert Must(Cat(COLON, TAIL_QUAD), '.');
  }

  lemma OtherNeedsMark(s: string)
    requires Matches(OTHER_V6, s)
    ensures '.' in s || '%' in s
  {
    hide Matches;
    AltMeaning(LINK_LOCAL, Alt(MAPPED_TAIL, GROUPS_TAIL), s);
    AltMeaning(MAPPED_TAIL, GROUPS_TAIL, s);
    TailQuadMustDot();
    if Matches(LINK_LOCAL, s) {
      assert Must(Cat(Lit('%'), Plus(ALNUM)), '%');
      assert Must(Cat(Rep(Cat(COLON, Rep(HEX, 0, Some(4))), 0, Some(4)), Cat(Lit('%'), Plus(ALNUM))), '%');
      MustContain(LINK_LOCAL, '%', s);
    } else if Matches(MAPPED_TAIL, s) {
      MustContain(MAPPED_TAIL, '.', s);
    } else {
      MustContain(GROUPS_TAIL, '.', s);
    }
  }

  lemma LoneColon()
    ensures ParseAddr(":").None? && ParseAddr("::").Some?
  {
  }

  /** "::" is the one spelling without a quad that writes no group. */
  lemma PlainIsNotLoneGap(sp: Spelling)
    requires sp.Valid() && !HasQuad(sp)
    ensures Plain(sp) <==> sp.Text() != "::"
  {
  }

  /** An IPv6 text without dots or zones is "::" or a plain spelling. */
  lemma HexColonIsPlain(s: string)
    requires HexColon(s)
    ensures IsPlainSpelling(s) <==> s != "::" && ParseAddr(s).Some? && ParseAddr(s).value.V6?
  {
    hide ParseAddr, Spelling.Text, Spelling.Words, HasQuad;
    if ParseAddr(s).Some? && ParseAddr(s).value.V6? {
      var sp := ParsedIsSpelled(s);
      assert ParseAddr(s).value.zone != "" ==> '%' in s;
      assert s == sp.Text();
      SpellingDot(sp);
      PlainIsNotLoneGap(sp);
    }
    if IsPlainSpelling(s) {
      var sp: Spelling :| Plain(sp) && sp.Text() == s;
      PlainIsNotLoneGap(sp);
      ParseSpelled(sp, "");
      assert s + "" == s;
    }
  }

  lemma QuadNotHexColon(s: string)
    requires HexColon(s)
    ensures !(ParseAddr(s).Some? && ParseAddr(s).value.V4?)
  {
    MarkIn(s);
  }

  /** On hexadecimal digits and colons the pattern and Normalize accept the same texts except ":",
      which only the pattern accepts, and "::", which only Normalize accepts. */
  lemma HexColonTextsAgree(s: string)
    requires HexColon(s)
    ensures Accepts(s) <==> (IP.Normalize(s).Ok? && s != "::") || s == ":"
  {
    hide Matches, ParseAddr, Accepts, IsPlainSpelling;
    AcceptsMeaning(s);
    QuadExact(s);
    PlainExact(s);
    IP.NormalizeKeepsAddress(s);
    HexColonIsPlain(s);
    QuadNotHexColon(s);
    if Matches(OTHER_V6, s) {
      OtherNeedsMark(s);
    }
  }

  /** The two texts on which they differ are indeed decided differently. */
  lemma ExceptionsAreReal()
    ensures Accepts(":") && IP.Normalize(":").Err?
    ensures !Accepts("::") && IP.Normalize("::").Ok?
  {
    hide Accepts, ParseAddr, IP.Normalize;
    LoneColon();
    HexColonTextsAgree(":");
    HexColonTextsAgree("::");
    IP.NormalizeKeepsAddress(":");
    IP.NormalizeKeepsAddress("::");
  }
}
