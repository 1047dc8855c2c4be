/** The whole rendezvous pattern, compared with the parser behind IP.Normalize over all strings. */
module RendezvousCompared {
  import opened Wrappers
  import opened Numerals
  import opened Regex
  import opened IPv6
  import opened Netip
  import opened IPPattern
  import opened Rendezvous
  import opened RendezvousTails
  import opened RendezvousZones
  import IP

  // ---------------------------------------------------------------- all texts compared

  /** Colons and dots, and no zone. */
  predicate IsMixed(s: string) {
    ':' in s && '.' in s && '%' !in s
  }

  lemma ParsedKinds(s: string)
    requires ParseAddr(s).Some? && '%' !in s
    ensures IsMixed(s) || QuadChars(s) || HexColon(s)
  {
    hide ParseAddr, Spelling.Text, Spelling.Words, HasQuad;
    if ParseAddr(s).value.V4? {
      ParsedChars(s);
    } else {
      var sp := ParsedIsSpelled(s);
      assert ParseAddr(s).value.zone != "" ==> '%' in s;
      assert s == sp.Text();
      SpellingDot(sp);
      if HasQuad(sp) {
        V6HasColon(s);
      } else {
        SpellingColons(sp);
      }
    }
  }

  /** Whatever is accepted or parsed is mixed, zoned, digits and dots, or hex and colons. */
  lemma FourKinds(s: string)
    requires Accepts(s) || IP.Normalize(s).Ok?
    ensures '%' in s || IsMixed(s) || QuadChars(s) || HexColon(s)
  {
    hide Matches, Accepts, ParseAddr, Spelling.Text, Spelling.Words, HasQuad;
    AcceptsMeaning(s);
    QuadExact(s);
    IP.NormalizeKeepsAddress(s);
    if Matches(OTHER_V6, s) {
      OtherHasColon(s);
      OtherNeedsMark(s);
    } else if Matches(PLAIN_V6, s) {
      PlainExact(s);
      if s != ":" {
        var sp: Spelling :| Plain(sp) && sp.Text() == s;
        SpellingColons(sp);
      }
    } else if ParseAddr(s).Some? && '%' !in s {
      ParsedKinds(s);
    }
  }

  lemma MixedCompared(s: string)
    requires IsMixed(s)
    ensures Accepts(s) <==> TailHead(UpToColon(s)) && IsTailQuad(AfterColon(s))
    ensures IP.Normalize(s).Ok? <==> QuadHead(UpToColon(s)) && IsDotted(AfterColon(s), 3, IsOctet)
    ensures Accepts(s) ==> (IP.Normalize(s).Ok? <==> IsDotted(AfterColon(s), 3, NoLeadingZero))
    ensures IP.Normalize(s).Ok? ==> (Accepts(s) <==> TailHead(UpToColon(s)))
    ensures !QuadChars(s) && !HexColon(s)
  {
    hide Accepts, ParseAddr, TailHead, QuadHead, IsTailQuad, IsDotted, UpToColon, AfterColon;
    DottedAccepts(s);
    DottedParses(s);
    IP.NormalizeKeepsAddress(s);
    if Accepts(s) {
      AcceptedTailParses(s);
    }
    if IP.Normalize(s).Ok? {
      ParsedTailAccepted(s);
    }
  }

  lemma ZonedCompared(s: string)
    requires '%' in s
    ensures Accepts(s) <==> LinkBody(Body(s)) && IsZoneName(Zone(s))
    ensures IP.Normalize(s).Ok? <==> ParseV6(Body(s)).Some? && Zone(s) != ""
    ensures Accepts(s) ==> (IP.Normalize(s).Ok? <==> OneGap(Body(s)))
    ensures IP.Normalize(s).Ok? ==>
            (Accepts(s) <==> "fe80::" <= Body(s) && '.' !in Body(s) && Colons(Body(s)) <= 5 && IsZoneName(Zone(s)))
    ensures !QuadChars(s) && !HexColon(s)
  {
    hide Accepts, ParseAddr, ParseV6, LinkBody, OneGap, Colons, Body, Zone, IsZoneName;
    ZonedAccepts(s);
    ZonedParses(s);
    IP.NormalizeKeepsAddress(s);
    if Accepts(s) {
      AcceptedZoneParses(s);
    }
    if IP.Normalize(s).Ok? {
      ParsedZoneAccepted(s);
    }
  }

  lemma PlainTextsCompared(s: string)
    requires !IsMixed(s) && '%' !in s
    ensures Accepts(s) && IP.Normalize(s).Err? <==> s == ":"
    ensures IP.Normalize(s).Ok? && !Accepts(s) <==> s == "::"
  {
    hide Accepts, IP.Normalize;
    ExceptionsAreReal();
    if Accepts(s) || IP.Normalize(s).Ok? {
      FourKinds(s);
      if QuadChars(s) {
        QuadTextsAgree(s);
      } else {
        HexColonTextsAgree(s);
      }
    }
  }

  /** Over all strings, these and no others are accepted by the pattern and not parsed: the lone
      colon, a dotted tail with a padded field, and a link-local body without exactly one gap. */
  lemma AcceptedButUnparsable(s: string)
    ensures Accepts(s) && IP.Normalize(s).Err? <==>
            || s == ":"
            || (IsMixed(s) && TailHead(UpToColon(s))
                && IsTailQuad(AfterColon(s)) && !IsDotted(AfterColon(s), 3, NoLeadingZero))
            || ('%' in s && LinkBody(Body(s)) && IsZoneName(Zone(s)) && !OneGap(Body(s)))
  {
    hide Accepts, IP.Normalize, ParseV6, TailHead, QuadHead, IsTailQuad, IsDotted, UpToColon, AfterColon;
    hide LinkBody, OneGap, Colons, Body, Zone, IsZoneName, QuadChars, HexColon;
    if IsMixed(s) {
      MixedCompared(s);
    } else if '%' in s {
      ZonedCompared(s);
    } else {
      PlainTextsCompared(s);
    }
  }

  /** Over all strings, these and no others are parsed and not accepted: "::", a dotted tail behind
      a head that the pattern does not list, and a zoned address of another shape than it lists. */
  lemma ParsedButRejected(s: string)
    ensures IP.Normalize(s).Ok? && !Accepts(s) <==>
            || s == "::"
            || (IsMixed(s) && QuadHead(UpToColon(s)) && IsDotted(AfterColon(s), 3, IsOctet) && !TailHead(UpToColon(s)))
            || ('%' in s && ParseV6(Body(s)).Some? && Zone(s) != ""
                && !("fe80::" <= Body(s) && '.' !in Body(s) && Colons(Body(s)) <= 5 && IsZoneName(Zone(s))))
  {
    hide Accepts, IP.Normalize, ParseV6, TailHead, QuadHead, IsTailQuad, IsDotted, UpToColon, AfterColon;
    hide LinkBody, OneGap, Colons, Body, Zone, IsZoneName, QuadChars, HexColon;
    if IsMixed(s) {
      MixedCompared(s);
    } else if '%' in s {
      ZonedCompared(s);
    } else {
      PlainTextsCompared(s);
    }
  }

  // ---------------------------------------------------------------- one text of each kind

  lemma FourParts(a: string, field: string -> bool)
    requires '.' !in a
    ensures IsDotted(a + ("." + "2.3.4"), 3, field) <==> field(a) && field("2") && field("3") && field("4")
  {
    LastField("4", field);
    DottedCut("3", "4", 0, field);
    DottedCut("2", "3.4", 1, field);
    DottedCut(a, "2.3.4", 2, field);
    assert "3" + ("." + "4") == "3.4";
    assert "2" + ("." + "3.4") == "2.3.4";
  }

  lemma SmallOctets()
    ensures IsOctet("1") && IsOctet("2") && IsOctet("3") && IsOctet("4")
    ensures !NoLeadingZero("01") && IsTailOctet("01")
  {
  }

  /** A tail whose first field is padded. */
  ghost const PADDED_TAIL := "01" + ("." + "2.3.4")

  lemma PaddedTail()
    ensures IsTailQuad(PADDED_TAIL) && !IsDotted(PADDED_TAIL, 3, NoLeadingZero)
  {
    SmallOctets();
    hide IsOctet, NoLeadingZero, IsDotted;
    FourParts("01", IsTailOctet);
    FourParts("01", NoLeadingZero);
  }

  lemma HeadThenTail(h: string, q: string)
    requires h != "" && h[|h| - 1] == ':' && '%' !in h && IsTailQuad(q)
    ensures IsMixed(h + q) && UpToColon(h + q) == h && AfterColon(h + q) == q
  {
    hide IsTailQuad, UpToColon, AfterColon;
    TailQuadChars(q);
    ColonCut(h, q);
    assert (h + q)[|h| - 1] == ':';
  }

  /** A padded field: accepted, not parsed. */
  lemma PaddedTailIsAccepted()
    ensures Accepts("::" + PADDED_TAIL) && IP.Normalize("::" + PADDED_TAIL).Err?
  {
    PaddedTail();
    hide Accepts, IP.Normalize, IsTailQuad, IsDotted, PADDED_TAIL, IsMixed, UpToColon, AfterColon;
    HeadThenTail("::", PADDED_TAIL);
    AcceptedButUnparsable("::" + PADDED_TAIL);
  }

  ghost const PLAIN_TAIL := "1" + ("." + "2.3.4")

  lemma PlainTail()
    ensures IsTailQuad(PLAIN_TAIL) && IsDotted(PLAIN_TAIL, 3, IsOctet)
  {
    SmallOctets();
    hide IsOctet, NoLeadingZero, IsDotted;
    FourParts("1", IsTailOctet);
    FourParts("1", IsOctet);
  }

  lemma InnerIsQuadHead()
    ensures QuadHead("1::2:")
  {
    OneColonGroup("1");
    OneColonGroup("2");
    assert IsGroup("1") && IsGroup("2");
    hide WithColons, QuadHead, IsGroup;
    QuadHeadIntro(["1"], ["2"]);
    assert ("1" + ":" + ":") + ("2" + ":") == "1::2:";
  }

  lemma NotGroupsHead(h: string)
    requires |h| > 1 && h[|h| - 2] != ':'
    ensures !GroupsHead(h)
  {
    hide WithColons;
    forall l | AllGroups(l) && 1 <= |l| <= 4
      ensures h != WithColons(l) + ":"
    {
      WithColonsEnds(l);
    }
  }

  lemma InnerHead()
    ensures QuadHead("1::2:") && !TailHead("1::2:")
  {
    InnerIsQuadHead();
    assert "1::2:"[0] == '1' && "1::2:"[3] == '2';
    hide QuadHead, GroupsHead;
    NotGroupsHead("1::2:");
  }

  /** Groups on both sides of "::" before the tail: parsed, not accepted. */
  lemma InnerGapIsRejected()
    ensures IP.Normalize("1::2:" + PLAIN_TAIL).Ok? && !Accepts("1::2:" + PLAIN_TAIL)
  {
    PlainTail();
    InnerHead();
    hide Accepts, IP.Normalize, IsTailQuad, IsDotted, PLAIN_TAIL, IsMixed, UpToColon, AfterColon, TailHead, QuadHead;
    HeadThenTail("1::2:", PLAIN_TAIL);
    ParsedButRejected("1::2:" + PLAIN_TAIL);
  }

  /** No gap after "fe80:": accepted, not parsed. */
  lemma BareLinkLocalIsAccepted()
    ensures Accepts("fe80:" + "%" + "eth0") && IP.Normalize("fe80:" + "%" + "eth0").Err?
  {
    ZoneCut("fe80:", "eth0");
    assert LinkBody("fe80:") by {
      LinkBodyIntro([]);
      assert "fe80:" + ColonsWith([]) == "fe80:";
    }
    assert IsZoneName("eth0") && !OneGap("fe80:");
    hide Accepts, IP.Normalize, Body, Zone, LinkBody, IsZoneName, OneGap, IsMixed;
    AcceptedButUnparsable("fe80:" + "%" + "eth0");
  }

  lemma OtherParses()
    ensures ParseV6("fe81::").Some? && !("fe80::" <= "fe81::")
  {
    OneGroup("fe81");
    EmptyText();
    var sp := Elided(["fe81"], Tail([], None));
    hide Tail.Text, ParseV6;
    assert sp.Text() == "fe81" + "::" + "" == "fe81::";
    ParseComplete(sp);
    assert "fe80::"[3] != "fe81::"[3];
  }

  /** Another prefix than fe80: parsed, not accepted. */
  lemma OtherZonedIsRejected()
    ensures IP.Normalize("fe81::" + "%" + "eth0").Ok? && !Accepts("fe81::" + "%" + "eth0")
  {
    ZoneCut("fe81::", "eth0");
    OtherParses();
    hide ParseV6, Accepts, IP.Normalize, Body, Zone, IsMixed, Colons, IsZoneName;
    ParsedButRejected("fe81::" + "%" + "eth0");
  }
}
