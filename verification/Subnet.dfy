/** The Subnet type of models/custom.go. Normalize goes through net.ParseCIDR and Value through
    netip.ParsePrefix; the lemmas say where the two routes meet and where they part. */
module Subnet {
  import opened Wrappers
  import opened Numerals
  import opened Text
  import opened Bits
  import opened IPv6Print
  import opened Netip
  import opened Net
  import opened Networks
  import opened Driver
  import opened Runs
  import IP

  function Normalize(m: string): Result<string> {
    if m == "" then Ok(m)
    else
      match ParseCIDR(m)
      case Some(n) => Ok(NetString(n))
      case None => Err("invalid CIDR")
  }

  predicate Equal(m: string, other: string) {
    var a, b := Normalize(m), Normalize(other);
    if a.Err? || b.Err? then m == other else a.value == b.value
  }

  /** The driver value written for `m`; None is SQL null. */
  function Value(m: string): Result<Option<string>> {
    if m == "" then Ok(None)
    else
      match ParsePrefix(m)
      case Some(p) => Ok(Some(FormatPrefix(Masked(p))))
      case None => Err("invalid CIDR")
  }

  /** The text and error after scanning `v` over `old_`. */
  function Scanned(old_: string, v: DriverValue): (string, Option<string>) {
    match v
    case Nil => ("", None)
    case Text(s) => (s, None)
    case ByteText(s) => (s, None)
    case NetPtr(Some(n)) => (NetString(n), None)
    case NetPtr(None) => ("", None)
    case NetValue(n) => (NetString(n), None)
    case PrefixValue(Some(p)) => (FormatPrefix(Masked(p)), None)
    case PrefixValue(None) => ("", None)
    case PrefixPtr(Some(Some(p))) => (FormatPrefix(Masked(p)), None)
    case PrefixPtr(_) => ("", None)
    case _ => (old_, Some("cannot convert " + v.TypeName() + " to Subnet"))
  }

  /** A stored Subnet, overwritten in place by Scan. */
  class Column {
    var text: string

    constructor ()
      ensures text == ""
    {
      text := "";
    }

    method Scan(v: DriverValue) returns (err: Option<string>)
      modifies this
      ensures (text, err) == Scanned(old(text), v)
      ensures err.Some? ==> text == old(text)
    {
      err := None;
      match v {
        case Nil => text := "";
        case Text(s) => text := s;
        case ByteText(s) => text := s;
        case NetPtr(n) =>
          if n.Some? {
            text := NetString(n.value);
          } else {
            text := "";
          }
        case NetValue(n) => text := NetString(n);
        case PrefixValue(p) =>
          if p.None? {
            text := "";
            return;
          }
          text := FormatPrefix(Masked(p.value));
        case PrefixPtr(t) =>
          if t.None? || t.value.None? {
            text := "";
            return;
          }
          text := FormatPrefix(Masked(t.value.value));
        case _ => err := Some("cannot convert " + v.TypeName() + " to Subnet");
      }
    }
  }

  // ---------------------------------------------------------------- canonical form

  lemma EmptyUnreadable()
    ensures ReadCIDR("").None? && ParsePrefix("").None?
  {
  }

  /** Normalize writes the canonical network of what it reads. */
  lemma NormalizeReads(m: string)
    ensures Normalize(m).Ok? <==> m == "" || ReadCIDR(m).Some?
    ensures ReadCIDR(m).Some? ==> Normalize(m) == Ok(FormatPrefix(Canonical(ReadCIDR(m).value)))
  {
    hide ReadCIDR, NetString, CIDRNet, FormatPrefix, Canonical;
    EmptyUnreadable();
    if ReadCIDR(m).Some? {
      PrintedNet(ReadCIDR(m).value);
    }
  }

  lemma CanonicalTwice(p: Prefix)
    ensures Canonical(Canonical(p)) == Canonical(p)
    ensures SameSet(Canonical(p), p)
  {
    hide ClearLow, Embed, Canonical, IsMappedNet, SameSet;
    var c := Canonical(p);
    EmbedCanonical(p);
    EmbedCanonical(c);
    var low := 128 - FixedBits(p);
    ClearTwice(Embed(p.addr), low, low);
    EmbedInjective(Canonical(c), c);
    SameSetCanonical(c, p);
  }

  /** A canonical subnet is a canonical address, a slash and the length in decimal. */
  lemma NormalizeParts(m: string) returns (body: string)
    requires ReadCIDR(m).Some?
    ensures var c := Canonical(ReadCIDR(m).value);
            && Normalize(m) == Ok(body + "/" + FormatDec(c.bits))
            && IP.Normalize(body) == Ok(body) && ParseAddr(body) == Some(c.addr)
  {
    hide ReadCIDR, ParseAddr, Format, FormatDec, Canonical, Normalize;
    NormalizeReads(m);
    var c := Canonical(ReadCIDR(m).value);
    body := Format(c.addr);
    ParseFormat(c.addr);
    IP.FormatIsCanonical(c.addr);
  }

  /** Normalizing keeps the set of addresses, and normalizing again changes nothing. */
  lemma NormalizeKeepsNetwork(m: string)
    requires ReadCIDR(m).Some?
    ensures Normalize(m).Ok? && Normalize(Normalize(m).value) == Normalize(m)
    ensures ReadCIDR(Normalize(m).value).Some? && SameSet(ReadCIDR(Normalize(m).value).value, ReadCIDR(m).value)
  {
    hide ReadCIDR, Canonical, FormatPrefix, SameSet, Normalize;
    var p := ReadCIDR(m).value;
    NormalizeReads(m);
    ReadFormatPrefix(Canonical(p));
    NormalizeReads(FormatPrefix(Canonical(p)));
    CanonicalTwice(p);
  }

  lemma FormatPrefixInjective(p: Prefix, q: Prefix)
    ensures FormatPrefix(p) == FormatPrefix(q) <==> p == q
  {
    hide FormatPrefix, ParsePrefix;
    ParseFormatPrefix(p);
    ParseFormatPrefix(q);
  }

  // ---------------------------------------------------------------- equality

  lemma NormalizeEmpty()
    ensures Normalize("") == Ok("")
  {
  }

  lemma EmptyNormal(m: string)
    ensures Normalize(m).Ok? ==> (Normalize(m).value == "" <==> m == "")
  {
    hide ReadCIDR, Normalize, Canonical, Format, FormatDec;
    NormalizeReads(m);
    EmptyUnreadable();
    assert Normalize("") == Ok("") by { NormalizeEmpty(); }
  }

  /** Equal holds for identical texts and for texts that denote the same set of 128-bit
      addresses, and for no others. */
  lemma EqualMeaning(m: string, other: string)
    ensures Equal(m, other) <==>
            || m == other
            || (ReadCIDR(m).Some? && ReadCIDR(other).Some? && SameSet(ReadCIDR(m).value, ReadCIDR(other).value))
  {
    hide ReadCIDR, Normalize, FormatPrefix, Canonical, SameSet;
    NormalizeReads(m);
    NormalizeReads(other);
    EmptyUnreadable();
    EmptyNormal(m);
    EmptyNormal(other);
    if ReadCIDR(m).Some? && ReadCIDR(other).Some? {
      SameSetCanonical(ReadCIDR(m).value, ReadCIDR(other).value);
      FormatPrefixInjective(Canonical(ReadCIDR(m).value), Canonical(ReadCIDR(other).value));
    }
  }

  lemma SameSetEquality()
    ensures forall p: Prefix, q: Prefix :: SameSet(p, q) <==> Canonical(p) == Canonical(q)
  {
    hide SameSet, Canonical;
    forall p: Prefix, q: Prefix
      ensures SameSet(p, q) <==> Canonical(p) == Canonical(q)
    {
      SameSetCanonical(p, q);
    }
  }

  /** Equal is an equivalence on all strings; a normal form stands for its class, and no class
      holds both a readable and an unreadable text. */
  lemma EqualIsEquivalence(a: string, b: string, c: string)
    ensures Equal(a, a)
    ensures Equal(a, b) ==> Equal(b, a)
    ensures Equal(a, b) && Equal(b, c) ==> Equal(a, c)
    ensures Equal(a, b) ==> ReadCIDR(a).Some? == ReadCIDR(b).Some?
    ensures Normalize(a).Ok? ==> Equal(Normalize(a).value, a)
  {
    hide ReadCIDR, Equal, SameSet, Normalize;
    assert forall p: Prefix, q: Prefix :: SameSet(p, q) <==> Canonical(p) == Canonical(q) by { SameSetEquality(); }
    hide Canonical;
    if ReadCIDR(a).Some? {
      NormalizeKeepsNetwork(a);
      EqualMeaning(Normalize(a).value, a);
    } else if Normalize(a).Ok? {
      NormalizeReads(a);
      EmptyNormal(a);
    }
    EqualMeaning(a, a);
    EqualMeaning(a, b);
    EqualMeaning(b, a);
    EqualMeaning(b, c);
    EqualMeaning(a, c);
  }

  // ---------------------------------------------------------------- the two parsers

  /** netip.ParsePrefix on a text whose part after a slash holds digits only. */
  lemma ParsePrefixForm(body: string, len: string)
    requires len != "" && AllDigits(len)
    ensures var a := ParseAddr(body);
            ParsePrefix(body + "/" + len) ==
            if a.None? || HasZone(a.value) || !NoLeadingZero(len) || DecValue(len) > BitLen(a.value) then None
            else Some(PrefixFrom(a.value, DecValue(len)))
  {
    hide ParseAddr, DecValue;
    CutAtSlash(body, len);
    assert IsDigit(len[0]);
  }

  /** The text of the prefix length. */
  function LengthText(m: string): string {
    var i := IndexOf(m, '/');
    if i == |m| then "" else m[i + 1..]
  }

  lemma ReadCIDRParts(m: string) returns (body: string, len: string)
    requires ReadCIDR(m).Some?
    ensures m == body + "/" + len && '/' !in body && len != "" && AllDigits(len) && len == LengthText(m)
  {
    var i := IndexOf(m, '/');
    body, len := m[..i], m[i + 1..];
    assert m == body + "/" + len;
    hide ReadCIDR;
    ReadCIDRForm(body, len);
  }

  lemma ParsePrefixParts(m: string) returns (body: string, len: string)
    requires ParsePrefix(m).Some?
    ensures m == body + "/" + len && '/' !in body && len != "" && AllDigits(len) && NoLeadingZero(len)
    ensures len == LengthText(m)
  {
    hide ParseAddr;
    var i := AfterLast(m, '/');
    body, len := m[..i - 1], m[i..];
    assert m == body + "/" + len;
    ParsedChars(body);
    CutAtSlash(body, len);
  }

  /** netip.ParsePrefix accepts what net.ParseCIDR accepts except lengths with leading zeros,
      and reads the same prefix. */
  lemma ParsersAgree(m: string)
    ensures ParsePrefix(m) == if ReadCIDR(m).Some? && NoLeadingZero(LengthText(m)) then ReadCIDR(m) else None
  {
    hide ReadCIDR, ParsePrefix, ParseAddr, DecValue, LengthText;
    if ReadCIDR(m).Some? {
      var body, len := ReadCIDRParts(m);
      ReadCIDRForm(body, len);
      ParsePrefixForm(body, len);
    } else if ParsePrefix(m).Some? {
      var body, len := ParsePrefixParts(m);
      ReadCIDRForm(body, len);
      ParsePrefixForm(body, len);
    }
  }

  // ---------------------------------------------------------------- Value against Normalize

  /** The empty text and no other is written as null; a text that is not read is not written. */
  lemma NullIsEmpty(m: string)
    ensures Value(m) == Ok(None) <==> m == ""
    ensures Value(m).Ok? <==> m == "" || ParsePrefix(m).Some?
    ensures Normalize("") == Ok("")
  {
    hide ReadCIDR, ParsePrefix, FormatPrefix;
  }

  /** Null comes back as what null is written for. */
  lemma NullRoundTrip(old_: string)
    ensures Scanned(old_, Nil) == ("", None) && Value(Scanned(old_, Nil).0) == Ok(None)
  {
    hide ParsePrefix;
  }

  /** The exact gap between the two: Value fails where Normalize succeeds only on a padded length. */
  lemma ValueDomain(m: string)
    ensures Value(m).Ok? ==> Normalize(m).Ok?
    ensures Normalize(m).Ok? && m != "" ==> (Value(m).Ok? <==> NoLeadingZero(LengthText(m)))
  {
    hide ReadCIDR, ParsePrefix, Masked, FormatPrefix, LengthText, Normalize;
    NormalizeReads(m);
    ParsersAgree(m);
  }

  lemma MaskedTwice(p: Prefix)
    ensures Masked(Masked(p)) == Masked(p)
  {
    hide KeepBits;
    match p.addr
    case V4(o) => KeepTwice(o, 8, p.bits);
    case V6(w, _) => KeepTwice(w, 16, p.bits);
  }

  lemma MaskedIsCanonical(p: Prefix)
    ensures Masked(p) == Canonical(p) <==> !IsMappedNet(p)
    ensures Canonical(Masked(p)) == Canonical(p)
    ensures IsMappedNet(Masked(p)) <==> IsMappedNet(p)
    ensures Masked(Masked(p)) == Masked(p)
  {
    MaskedTwice(p);
    hide KeepBits, IsMapped, LowQuad;
    CanonicalMapped(p);
    CanonicalMapped(Masked(p));
    if p.addr.V6? {
      MappedMask(p.addr.words, p.bits);
    }
  }

  lemma MaskedSameSet(p: Prefix)
    ensures SameSet(Masked(p), p)
  {
    hide Canonical, SameSet, Masked;
    MaskedIsCanonical(p);
    SameSetCanonical(Masked(p), p);
  }

  /** Both routes denote the same addresses; their texts differ exactly for IPv4-mapped networks. */
  lemma ValueAgrees(m: string)
    requires m != "" && Value(m).Ok?
    ensures ParsePrefix(m).Some? && Value(m).value.Some? && Normalize(m).Ok?
    ensures var v, n, p := Value(m).value.value, Normalize(m).value, ParsePrefix(m).value;
            && ReadCIDR(v).Some? && ReadCIDR(n).Some?
            && SameSet(ReadCIDR(v).value, p) && SameSet(ReadCIDR(n).value, p)
            && (v == n <==> !IsMappedNet(p))
  {
    hide ReadCIDR, ParsePrefix, Masked, FormatPrefix, Normalize, Canonical, SameSet, IsMappedNet;
    ParsersAgree(m);
    NormalizeReads(m);
    NormalizeKeepsNetwork(m);
    var p := ParsePrefix(m).value;
    ReadFormatPrefix(Masked(p));
    MaskedSameSet(p);
    FormatPrefixInjective(Masked(p), Canonical(p));
    MaskedIsCanonical(p);
  }

  // ---------------------------------------------------------------- writing, then reading back

  /** Writing a subnet and scanning the netip.Prefix of what was written always gives an equal
      subnet; the text is the canonical one except exactly for IPv4-mapped networks. */
  lemma RoundTripPrefix(m: string, old_: string)
    requires m != "" && Value(m).Ok?
    ensures Value(m).value.Some? && ParsePrefix(m).Some?
    ensures var v := ParsePrefix(Value(m).value.value);
            var back := Scanned(old_, PrefixValue(v)).0;
            && v.Some? && Scanned(old_, PrefixPtr(Some(v))).0 == back
            && Equal(back, m)
            && (Normalize(m) == Ok(back) <==> !IsMappedNet(ParsePrefix(m).value))
  {
    hide ReadCIDR, ParsePrefix, Masked, FormatPrefix, Normalize, SameSet, IsMappedNet, Equal;
    var p := ParsePrefix(m).value;
    ValueAgrees(m);
    ParseFormatPrefix(Masked(p));
    MaskedIsCanonical(p);
    ParsersAgree(m);
    EqualMeaning(FormatPrefix(Masked(p)), m);
  }

  /** Scanning the net.IPNet of what was written always restores the canonical text. */
  lemma RoundTripNet(m: string, old_: string)
    requires m != "" && Value(m).Ok?
    ensures Value(m).value.Some?
    ensures var n := ParseCIDR(Value(m).value.value);
            && n.Some?
            && Normalize(m) == Ok(Scanned(old_, NetPtr(n)).0)
            && Scanned(old_, NetValue(n.value)).0 == Scanned(old_, NetPtr(n)).0
            && Equal(Scanned(old_, NetPtr(n)).0, m)
  {
    hide ReadCIDR, ParsePrefix, Masked, FormatPrefix, Normalize, SameSet, Canonical, IsMappedNet;
    hide Equal, NetString, CIDRNet;
    var p := ParsePrefix(m).value;
    ParsersAgree(m);
    NormalizeReads(m);
    ReadFormatPrefix(Masked(p));
    PrintedNet(Masked(p));
    MaskedIsCanonical(p);
    NormalizeKeepsNetwork(m);
    EqualMeaning(Normalize(m).value, m);
  }

  // ---------------------------------------------------------------- runs of Scan

  /** Empty or a fixed point of Normalize. */
  predicate IsCanonical(m: string) {
    Normalize(m) == Ok(m)
  }

  /** Values that a scan turns into a canonical text. */
  ghost predicate WellFormed(v: DriverValue) {
    match v
    case Text(s) => IsCanonical(s)
    case ByteText(s) => IsCanonical(s)
    case NetPtr(Some(n)) => Fits(n) && HostBitsClear(n)
    case NetValue(n) => Fits(n) && HostBitsClear(n)
    case PrefixValue(Some(p)) => !IsMappedNet(p)
    case PrefixPtr(Some(Some(p))) => !IsMappedNet(p)
    case _ => true
  }

  lemma FormatPrefixCanonical(p: Prefix)
    ensures IsCanonical(FormatPrefix(p)) <==> Canonical(p) == p
  {
    hide ReadCIDR, FormatPrefix, Canonical, Normalize;
    ReadFormatPrefix(p);
    NormalizeReads(FormatPrefix(p));
    FormatPrefixInjective(Canonical(p), p);
  }

  /** The text can be written to the database. */
  predicate CanWrite(m: string) {
    Value(m).Ok?
  }

  lemma NoSlashUnreadable(s: string)
    requires s != "" && '/' !in s
    ensures !IsCanonical(s) && !CanWrite(s)
  {
    IndexUnique(s, '/', |s|);
    AfterLastUnique(s, '/', 0);
  }

  lemma CanonicalForm(s: string) returns (c: Prefix)
    requires s != "" && IsCanonical(s)
    ensures s == FormatPrefix(c)
  {
    hide ReadCIDR, Canonical, FormatPrefix;
    NormalizeReads(s);
    c := Canonical(ReadCIDR(s).value);
  }

  lemma LastCutUnique(x: string, u: string, y: string, v: string)
    requires '/' !in u && '/' !in v && x + "/" + u == y + "/" + v
    ensures u == v
  {
    var s, t := x + "/" + u, y + "/" + v;
    assert s[|x| + 1..] == u && t[|y| + 1..] == v;
    AfterLastUnique(s, '/', |x| + 1);
    AfterLastUnique(t, '/', |y| + 1);
  }

  lemma LongLengthUnreadable(body: string, len: string)
    requires |len| > 3
    ensures ParsePrefix(body + "/" + len).None? || '/' in len
  {
    hide ParsePrefix, ParseAddr, DecValue;
    if ParsePrefix(body + "/" + len).Some? && '/' !in len {
      var b, l := ParsePrefixParts(body + "/" + len);
      LastCutUnique(body, len, b, l);
      ParsePrefixForm(b, l);
      DecValueFormat(l);
      ShortDecimal(DecValue(l));
    }
  }

  lemma {:induction false} HexBytesNoSlash(b: Bytes)
    ensures '/' !in HexBytes(b)
  {
    if b != [] {
      HexBytesNoSlash(b[1..]);
    }
  }

  lemma FormatPrefixWritable(p: Prefix)
    ensures CanWrite(FormatPrefix(p))
  {
    hide ParsePrefix, FormatPrefix, Masked;
    ParseFormatPrefix(p);
  }

  lemma CanonicalIsWritable(s: string)
    requires s != "" && IsCanonical(s)
    ensures CanWrite(s)
  {
    hide FormatPrefix, IsCanonical, CanWrite;
    var c := CanonicalForm(s);
    FormatPrefixWritable(c);
  }

  /** A mask printed in hexadecimal is never read as a length. */
  lemma HexMaskUnreadable(body: string, mask: Bytes)
    requires |mask| >= 4
    ensures !CanWrite(body + "/" + HexBytes(mask)) && !IsCanonical(body + "/" + HexBytes(mask))
  {
    hide ParsePrefix, IsCanonical;
    HexBytesLength(mask);
    HexBytesNoSlash(mask);
    LongLengthUnreadable(body, HexBytes(mask));
    if IsCanonical(body + "/" + HexBytes(mask)) {
      CanonicalIsWritable(body + "/" + HexBytes(mask));
    }
  }

  /** A net.IPNet that does not carry a network prints as a text that nothing reads. */
  lemma NetStringUnreadable(n: IPNet)
    requires CarriedNet(n).None?
    ensures !CanWrite(NetString(n)) && !IsCanonical(NetString(n))
  {
    hide IsCanonical, Format, FormatDec, HexBytes, MaskLength, ToAddr, NetworkNumberAndMask;
    NumberIsUnmapped(n);
    match NetworkNumberAndMask(n)
    case None => NoSlashUnreadable("<nil>");
    case Some((ip, m)) => HexMaskUnreadable(IPString(ip), m);
  }

  /** The text of a net.IPNet is canonical exactly when its lengths fit, its mask is contiguous
      where it covers the address, and no host bit is set there. */
  lemma NetStringCanonical(n: IPNet)
    ensures IsCanonical(NetString(n)) <==> Fits(n) && HostBitsClear(n)
  {
    hide IsCanonical, CanWrite, FormatPrefix, NetString, CarriedNet, Fits, HostBitsClear;
    hide Masked, Canonical, IsMappedNet;
    CarriedExact(n);
    match CarriedNet(n)
    case None => NetStringUnreadable(n);
    case Some(p) =>
      CarriedText(n);
      CarriedHostBits(n);
      FormatPrefixCanonical(p);
      MaskedIsCanonical(p);
  }

  lemma MaskedTextCanonical(p: Prefix)
    ensures IsCanonical(FormatPrefix(Masked(p))) <==> !IsMappedNet(p)
  {
    hide IsCanonical, FormatPrefix, Masked, Canonical, IsMappedNet;
    FormatPrefixCanonical(Masked(p));
    MaskedIsCanonical(p);
    MaskedIsCanonical(Masked(p));
  }

  /** One scan over a canonical text leaves a canonical text exactly for well-formed values. */
  lemma ScanKeepsCanonical(old_: string, v: DriverValue)
    requires IsCanonical(old_)
    ensures IsCanonical(Scanned(old_, v).0) <==> WellFormed(v)
  {
    hide Normalize, FormatPrefix, NetString, Masked, IsMappedNet, Fits, HostBitsClear;
    assert IsCanonical("") by { NormalizeEmpty(); }
    match v
    case NetPtr(Some(n)) => NetStringCanonical(n);
    case NetValue(n) => NetStringCanonical(n);
    case PrefixValue(Some(p)) => MaskedTextCanonical(p);
    case PrefixPtr(Some(Some(p))) => MaskedTextCanonical(p);
    case _ =>
  }

  /** The text that a scan stores. */
  function Stored(old_: string, v: DriverValue): string {
    Scanned(old_, v).0
  }

  /** Over any run from a canonical start, the stored text stays canonical at every step exactly
      when every value is well-formed. */
  lemma RunStaysCanonical(start: string, vs: seq<DriverValue>)
    requires IsCanonical(start)
    ensures Always(Stored, IsCanonical, start, vs) <==> All(WellFormed, vs)
  {
    hide Scanned, IsCanonical, WellFormed, Always, All;
    forall old_, v | IsCanonical(old_)
      ensures IsCanonical(Stored(old_, v)) <==> WellFormed(v)
    {
      ScanKeepsCanonical(old_, v);
    }
    RunKeeps(Stored, IsCanonical, WellFormed, start, vs);
  }

  // ---------------------------------------------------------------- what a scan stores

  /** The network that a structured value carries, if it is one that Scan supports. */
  function Carried(v: DriverValue): Option<Prefix> {
    match v
    case NetPtr(Some(n)) => CarriedNet(n)
    case NetValue(n) => CarriedNet(n)
    case PrefixValue(Some(p)) => Some(p)
    case PrefixPtr(Some(Some(p))) => Some(p)
    case _ => None
  }

  lemma PrefixTextMeaning(p: Prefix)
    ensures var s := FormatPrefix(Masked(p));
            ReadCIDR(s) == ParsePrefix(s) == Some(Masked(p)) && SameSet(Masked(p), p)
  {
    hide ReadCIDR, ParsePrefix, FormatPrefix, Masked, SameSet;
    ReadFormatPrefix(Masked(p));
    ParseFormatPrefix(Masked(p));
    MaskedSameSet(p);
  }

  lemma NetTextMeaning(n: IPNet)
    ensures CarriedNet(n).Some? ==>
            && NetString(n) == FormatPrefix(CarriedNet(n).value)
            && ReadCIDR(NetString(n)) == ParsePrefix(NetString(n)) == CarriedNet(n)
    ensures forall p: Prefix :: SameSet(p, p)
  {
    hide ReadCIDR, ParsePrefix, FormatPrefix, NetString, CarriedNet;
    if CarriedNet(n).Some? {
      CarriedText(n);
      ReadFormatPrefix(CarriedNet(n).value);
      ParseFormatPrefix(CarriedNet(n).value);
    }
  }

  /** What the text of a stored prefix is: a netip.Prefix is masked first, a net.IPNet is not. */
  function Kept(v: DriverValue): Option<Prefix> {
    match v
    case NetPtr(Some(n)) => CarriedNet(n)
    case NetValue(n) => CarriedNet(n)
    case PrefixValue(Some(p)) => Some(Masked(p))
    case PrefixPtr(Some(Some(p))) => Some(Masked(p))
    case _ => None
  }

  /** What a scan stores: the text of the network carried, masked if it came as a netip.Prefix, which
      Normalize and Value read as that network; the text given; nothing for a null; and what was
      there before when the type is not supported. */
  lemma ScanMeaning(old_: string, v: DriverValue)
    ensures Carried(v).Some? <==> Kept(v).Some?
    ensures Carried(v).Some? ==>
            var s := Scanned(old_, v).0;
            && s == FormatPrefix(Kept(v).value) && ParsePrefix(s) == ReadCIDR(s) == Kept(v)
            && SameSet(Kept(v).value, Carried(v).value)
    ensures v.IsNull() ==> Scanned(old_, v).0 == ""
    ensures v.Text? || v.ByteText? ==> Scanned(old_, v).0 == v.text
    ensures Scanned(old_, v).1.Some? <==> v.NetAddr? || v.Other?
    ensures Scanned(old_, v).1.Some? ==> Scanned(old_, v).0 == old_
  {
    hide ReadCIDR, ParsePrefix, FormatPrefix, NetString, Masked, SameSet, CarriedNet;
    match v
    case NetPtr(Some(n)) => NetTextMeaning(n);
    case NetValue(n) => NetTextMeaning(n);
    case PrefixValue(Some(p)) => PrefixTextMeaning(p);
    case PrefixPtr(Some(Some(p))) => PrefixTextMeaning(p);
    case _ =>
  }

  // ---------------------------------------------------------------- Value never fails

  /** Values that a scan turns into a text that can be written. IPv4-mapped prefixes and networks
      with host bits are allowed here. */
  ghost predicate Writable(v: DriverValue) {
    match v
    case Text(s) => CanWrite(s)
    case ByteText(s) => CanWrite(s)
    case NetPtr(Some(n)) => Fits(n)
    case NetValue(n) => Fits(n)
    case _ => true
  }

  /** The text of a net.IPNet can be written exactly when its lengths fit and its mask is
      contiguous where it covers the address. */
  lemma NetStringWritable(n: IPNet)
    ensures CanWrite(NetString(n)) <==> Fits(n)
  {
    hide CanWrite, FormatPrefix, NetString, CarriedNet, Fits;
    CarriedExact(n);
    match CarriedNet(n)
    case None => NetStringUnreadable(n);
    case Some(p) =>
      CarriedText(n);
      FormatPrefixWritable(p);
  }

  lemma ScanKeepsWritable(old_: string, v: DriverValue)
    requires CanWrite(old_)
    ensures CanWrite(Scanned(old_, v).0) <==> Writable(v)
  {
    hide ParsePrefix, FormatPrefix, NetString, Fits, Masked;
    match v
    case NetPtr(Some(n)) => NetStringWritable(n);
    case NetValue(n) => NetStringWritable(n);
    case PrefixValue(Some(p)) => FormatPrefixWritable(Masked(p));
    case PrefixPtr(Some(Some(p))) => FormatPrefixWritable(Masked(p));
    case _ =>
  }

  /** Over any run, Value succeeds after every step exactly when every value is writable. */
  lemma RunNeverFails(start: string, vs: seq<DriverValue>)
    requires CanWrite(start)
    ensures Always(Stored, CanWrite, start, vs) <==> All(Writable, vs)
  {
    hide Scanned, CanWrite, Writable, Always, All;
    forall old_, v | CanWrite(old_)
      ensures CanWrite(Stored(old_, v)) <==> Writable(v)
    {
      ScanKeepsWritable(old_, v);
    }
    RunKeeps(Stored, CanWrite, Writable, start, vs);
  }

  // ---------------------------------------------------------------- what is not a network

  /** The text of a net.IPNet that does not fit: the number and the mask in hexadecimal, or "<nil>"
      when their lengths do not go together. */
  lemma UnfitText(n: IPNet)
    requires !Fits(n)
    ensures var ip := if To4(n.ip).Some? then To4(n.ip).value else n.ip;
            NetString(n) ==
            if (|ip| == 4 || |ip| == 16) && |n.mask| == |ip| then IPString(ip) + "/" + HexBytes(n.mask)
            else if |ip| == 4 && |n.mask| == 16 then IPString(ip) + "/" + HexBytes(n.mask[12..])
            else "<nil>"
  {
    hide MaskLength, Contiguous, To4, IPString, HexBytes;
    CarriedExact(n);
  }

  /** The types that Scan does not support, as its error names them. */
  lemma UnsupportedTypes(old_: string, ip: Bytes, name: string)
    ensures Scanned(old_, NetAddr(ip)) == (old_, Some("cannot convert net.IP to Subnet"))
    ensures Scanned(old_, Other(name)) == (old_, Some("cannot convert " + name + " to Subnet"))
  {
    assert "cannot convert " + "net.IP" + " to Subnet" == "cannot convert net.IP to Subnet";
  }
}
