/** The pattern of Subnet.Validate (models/subnet.go), which also guards the network fields of
    models/cluster.go. */
module SubnetPattern {
  import opened Numerals
  import opened Text
  import opened Regex
  import opened IPv4
  import opened IPv6Print
  import opened Netip
  import opened Net
  import opened Networks
  import opened IPPattern
  import Subnet

  const SLASH := Lit('/')
  const NONZERO := OneOf(set c: char | '1' <= c <= '9')
  const UP_TO_8 := OneOf(set c: char | '0' <= c <= '8')

  /** (?:[0-9])|(?:[1-2][0-9])|(?:3[0-2]) */
  const LENGTH_32 := Alt(DIGIT, Alt(Cat(OneOf({'1', '2'}), DIGIT), Cat(Lit('3'), OneOf({'0', '1', '2'}))))

  /** (?:[0-9])|(?:[1-9][0-9])|(?:1[0-1][0-9])|(?:12[0-8]) */
  const LENGTH_128 :=
    Alt(DIGIT,
        Alt(Cat(NONZERO, DIGIT),
            Alt(Cat(Lit('1'), Cat(OneOf({'0', '1'}), DIGIT)),
                Cat(Lit('1'), Cat(Lit('2'), UP_TO_8)))))

  /** ^(?:LOOSE_QUAD\/LENGTH_32|LOOSE_COLONS/LENGTH_128)$ */
  const SUBNET_PATTERN :=
    Alt(Cat(LOOSE_QUAD, Cat(SLASH, LENGTH_32)), Cat(LOOSE_COLONS, Cat(SLASH, LENGTH_128)))

  /** Subnet.Validate. */
  ghost predicate ValidSubnet(s: string) {
    Matches(SUBNET_PATTERN, s)
  }

  // ---------------------------------------------------------------- the lengths

  lemma Length32Exact(s: string)
    ensures Matches(LENGTH_32, s) <==> IsNumeral(s, 32)
  {
    hide Matches, DecValue;
    AltMeaning(DIGIT, Alt(Cat(OneOf({'1', '2'}), DIGIT), Cat(Lit('3'), OneOf({'0', '1', '2'}))), s);
    AltMeaning(Cat(OneOf({'1', '2'}), DIGIT), Cat(Lit('3'), OneOf({'0', '1', '2'})), s);
    ClassOne(DIGIT, s);
    ClassCat(OneOf({'1', '2'}), DIGIT, s);
    ClassCat(Lit('3'), OneOf({'0', '1', '2'}), s);
    if s != "" {
      ClassOne(DIGIT, s[1..]);
      ClassOne(OneOf({'0', '1', '2'}), s[1..]);
    }
    if IsNumeral(s, 32) {
      NumeralIsShort(s, 32);
    }
    if 1 <= |s| <= 3 && AllDigits(s) {
      ShortNumeral(s);
    }
  }

  lemma Length128Exact(s: string)
    ensures Matches(LENGTH_128, s) <==> IsNumeral(s, 128)
  {
    hide Matches, DecValue;
    var a, b := Cat(OneOf({'0', '1'}), DIGIT), Cat(Lit('2'), UP_TO_8);
    AltMeaning(DIGIT, Alt(Cat(NONZERO, DIGIT), Alt(Cat(Lit('1'), a), Cat(Lit('1'), b))), s);
    AltMeaning(Cat(NONZERO, DIGIT), Alt(Cat(Lit('1'), a), Cat(Lit('1'), b)), s);
    AltMeaning(Cat(Lit('1'), a), Cat(Lit('1'), b), s);
    ClassOne(DIGIT, s);
    ClassCat(NONZERO, DIGIT, s);
    ClassCat(Lit('1'), a, s);
    ClassCat(Lit('1'), b, s);
    if s != "" {
      ClassOne(DIGIT, s[1..]);
      ClassCat(OneOf({'0', '1'}), DIGIT, s[1..]);
      ClassCat(Lit('2'), UP_TO_8, s[1..]);
    }
    if |s| > 1 {
      ClassOne(DIGIT, s[1..][1..]);
      ClassOne(UP_TO_8, s[1..][1..]);
    }
    if IsNumeral(s, 128) {
      NumeralIsShort(s, 128);
    }
    if 1 <= |s| <= 3 && AllDigits(s) {
      ShortNumeral(s);
    }
  }

  // ---------------------------------------------------------------- Subnet.Validate

  lemma BodyHasNoSlash(body: string)
    ensures IsLooseQuad(body) || HexColon(body) ==> '/' !in body
  {
    if IsLooseQuad(body) {
      LooseQuadChars(body);
    }
  }

  lemma SlashCut(body: string, r: Regex, len: string, x: string, y: string)
    requires '/' !in body && '/' !in x && Matches(Cat(SLASH, r), y) && body + "/" + len == x + y
    ensures x == body && Matches(r, len)
  {
    hide Matches;
    ClassCat(SLASH, r, y);
    assert y == "/" + y[1..];
    assert x + "/" + y[1..] == x + y;
    CutUnique(body, len, x, y[1..], '/');
  }

  lemma BranchMeaning(a: Regex, r: Regex, body: string, len: string)
    requires '/' !in body && forall x: string :: Matches(a, x) ==> '/' !in x
    ensures Matches(Cat(a, Cat(SLASH, r)), body + "/" + len) <==> Matches(a, body) && Matches(r, len)
  {
    hide Matches;
    if Matches(Cat(a, Cat(SLASH, r)), body + "/" + len) {
      var x, y := CatElim(a, Cat(SLASH, r), body + "/" + len);
      SlashCut(body, r, len, x, y);
    }
    if Matches(a, body) && Matches(r, len) {
      LitMeaning('/', "/");
      CatIntro(SLASH, r, "/", len);
      CatIntro(a, Cat(SLASH, r), body, "/" + len);
      assert body + ("/" + len) == body + "/" + len;
    }
  }

  /** What the pattern accepts, on a text cut at its first slash. */
  lemma ValidSubnetMeaning(body: string, len: string)
    requires '/' !in body
    ensures ValidSubnet(body + "/" + len) <==>
            || (IsLooseQuad(body) && IsNumeral(len, 32))
            || (HexColon(body) && Colons(body) >= 2 && IsNumeral(len, 128))
  {
    hide Matches, IsLooseQuad, IsNumeral;
    forall x: string
      ensures Matches(LOOSE_QUAD, x) ==> '/' !in x
      ensures Matches(LOOSE_COLONS, x) ==> '/' !in x
    {
      BodyHasNoSlash(x);
      LooseQuadExact(x);
      ColonsExact(x);
    }
    var s := body + "/" + len;
    AltMeaning(Cat(LOOSE_QUAD, Cat(SLASH, LENGTH_32)), Cat(LOOSE_COLONS, Cat(SLASH, LENGTH_128)), s);
    BranchMeaning(LOOSE_QUAD, LENGTH_32, body, len);
    BranchMeaning(LOOSE_COLONS, LENGTH_128, body, len);
    Length32Exact(len);
    Length128Exact(len);
    LooseQuadExact(body);
    ColonsExact(body);
  }

  lemma MappedTextShape(w: seq<Word>)
    requires |w| == 8 && IsMapped(w)
    ensures var s := Format(V6(w, "")); s != "" && s[0] == ':' && '.' in s
  {
  }

  lemma BodyIsValid(body: string)
    requires ParseAddr(body).Some? && !HasZone(ParseAddr(body).value)
    ensures ParseAddr(body).value.V4? ==> IsLooseQuad(body) && QuadChars(body)
    ensures ParseAddr(body).value.V6? ==> !IsLooseQuad(body) && ':' in body
    ensures ParseAddr(body).value.V6? ==> (HexColon(body) && Colons(body) >= 2 <==> '.' !in body)
  {
    hide ParseAddr, ValidIP, IsLooseQuad, Colons;
    ParsedChars(body);
    ParsableIsValid(body);
    ValidIPMeaning(body);
    if IsLooseQuad(body) {
      LooseQuadChars(body);
    }
    match ParseAddr(body).value
    case V4(o) =>
      ParseAddrV4(body, o);
      PrintedQuadIsLoose(o);
    case V6(_, _) => V6HasColon(body);
  }

  /** Of the texts that Normalize reads, the pattern accepts exactly those without a dotted tail and
      without a padded length. */
  lemma ReadIsValid(m: string)
    requires ReadCIDR(m).Some?
    ensures ValidSubnet(m) <==> !(':' in m && '.' in m) && NoLeadingZero(Subnet.LengthText(m))
  {
    hide ReadCIDR, ParseAddr, ValidSubnet, IsLooseQuad, Colons, DecValue, Subnet.LengthText, NoLeadingZero;
    var body, len := Subnet.ReadCIDRParts(m);
    ReadCIDRForm(body, len);
    BodyIsValid(body);
    ValidSubnetMeaning(body, len);
    assert ':' !in len && '.' !in len && ':' !in "/" && '.' !in "/";
    assert ':' in m <==> ':' in body;
    assert '.' in m <==> '.' in body;
  }

  /** A printed prefix is accepted exactly when its address is not IPv4-mapped. */
  lemma PrintedPrefixIsValid(p: Prefix)
    ensures ValidSubnet(FormatPrefix(p)) <==> !Is4In6(p.addr)
  {
    hide Matches, ValidSubnet, FormatWords, FormatV4, FormatDec, IsNumeral, ParseAddr, IsMapped, LowQuad, IsLooseQuad;
    var body := Format(p.addr);
    ParseFormat(p.addr);
    ParsedChars(body);
    ValidSubnetMeaning(body, FormatDec(p.bits));
    PrintedNumeral(p.bits, 32);
    PrintedNumeral(p.bits, 128);
    match p.addr
    case V4(o) => PrintedQuadIsLoose(o);
    case V6(w, _) =>
      if IsMapped(w) {
        MappedTextShape(w);
        NotInLanguages(body, 0);
      } else {
        FormatWordsColons(w);
        assert body == FormatWords(w);
      }
  }

  lemma CanonicalUnmapped(p: Prefix)
    ensures !Is4In6(Canonical(p).addr)
  {
  }

  /** Whatever Normalize writes passes Validate. */
  lemma NormalizedIsValid(m: string)
    requires ReadCIDR(m).Some?
    ensures Subnet.Normalize(m).Ok? && ValidSubnet(Subnet.Normalize(m).value)
  {
    hide ReadCIDR, FormatPrefix, ValidSubnet, Canonical, Subnet.Normalize;
    Subnet.NormalizeReads(m);
    var p := ReadCIDR(m).value;
    CanonicalUnmapped(p);
    PrintedPrefixIsValid(Canonical(p));
  }

  /** What Value writes passes Validate except exactly for IPv4-mapped networks. */
  lemma WrittenIsValid(m: string)
    requires m != "" && Subnet.Value(m).Ok?
    ensures Subnet.Value(m).value.Some? && ParsePrefix(m).Some?
    ensures ValidSubnet(Subnet.Value(m).value.value) <==> !IsMappedNet(ParsePrefix(m).value)
  {
    hide ParsePrefix, FormatPrefix, ValidSubnet, IsMapped;
    var p := ParsePrefix(m).value;
    PrintedPrefixIsValid(Masked(p));
    if p.addr.V6? {
      MappedMask(p.addr.words, p.bits);
    }
  }

  // ---------------------------------------------------------------- deciding the pattern

  /** The pattern as a computation. */
  predicate Decide(s: string) {
    var i := IndexOf(s, '/');
    i < |s| &&
    var body, len := s[..i], s[i + 1..];
    (IsLooseQuad(body) && IsNumeral(len, 32)) || (HexColon(body) && Colons(body) >= 2 && IsNumeral(len, 128))
  }

  /** The computation decides the pattern, over all strings. */
  lemma DecideExact(s: string)
    ensures Decide(s) <==> ValidSubnet(s)
  {
    hide Matches, IsLooseQuad, IsNumeral, Colons;
    var i := IndexOf(s, '/');
    if i < |s| {
      assert s == s[..i] + "/" + s[i + 1..];
      ValidSubnetMeaning(s[..i], s[i + 1..]);
    } else if ValidSubnet(s) {
      assert Must(SLASH, '/');
      assert Must(Cat(SLASH, LENGTH_32), '/') && Must(Cat(SLASH, LENGTH_128), '/');
      MustContain(SUBNET_PATTERN, '/', s);
    }
  }
}
