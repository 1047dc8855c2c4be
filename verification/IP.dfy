/** The IP type of models/custom.go: a text with a canonical form, an equality that sees through
    spelling, a database writer and a database reader. */
module IP {
  import opened Wrappers
  import opened Numerals
  import opened Bits
  import opened IPv4
  import opened IPv6
  import opened IPv6Print
  import opened Netip
  import opened Net
  import opened Driver
  import opened Runs

  function Normalize(m: string): Result<string> {
    if m == "" then Ok(m)
    else
      match ParseAddr(m)
      case Some(a) => Ok(Format(a))
      case None => Err("invalid IP address")
  }

  predicate Equal(m: string, other: string) {
    var a, b := Normalize(m), Normalize(other);
    if a.Err? || b.Err? then m == other else a == b
  }

  /** The driver value written for `m`; None is SQL null. */
  function Value(m: string): Result<Option<string>> {
    if m == "" then Ok(None)
    else
      match ParseAddr(m)
      case Some(a) => Ok(Some(FormatPrefix(PrefixFrom(a, BitLen(a)))))
      case None => Err("invalid IP address")
  }

  /** The text and error after scanning `v` over `old`. */
  function Scanned(old_: string, v: DriverValue): (string, Option<string>) {
    match v
    case Nil => ("", None)
    case Text(s) => (s, None)
    case ByteText(s) => (s, None)
    case NetPtr(Some(n)) => (IPString(n.ip), None)
    case NetPtr(None) => ("", None)
    case NetAddr(ip) => (IPString(ip), None)
    case PrefixValue(Some(p)) => (Format(p.addr), None)
    case PrefixValue(None) => ("", None)
    case PrefixPtr(Some(Some(p))) => (Format(p.addr), None)
    case PrefixPtr(_) => ("", None)
    case _ => (old_, Some("cannot convert " + v.TypeName() + " to IP"))
  }

  /** A stored IP, overwritten in place by Scan. */
  class Column {
    var text: string

    constructor ()
      ensures text == ""
    {
      text := "";
    }

    method Scan(v: DriverValue) returns (err: Option<string>)
      modifies this
      ensures (text, err) == Scanned(old(text), v)
      ensures err.Some? ==> text == old(text)
    {
      err := None;
      match v {
        case Nil => text := "";
        case Text(s) => text := s;
        case ByteText(s) => text := s;
        case NetPtr(n) =>
          if n.Some? {
            text := IPString(n.value.ip);
          } else {
            text := "";
          }
        case NetAddr(ip) => text := IPString(ip);
        case PrefixValue(p) =>
          if p.None? {
            text := "";
            return;
          }
          text := Format(p.value.addr);
        case PrefixPtr(t) =>
          if t.None? || t.value.None? {
            text := "";
            return;
          }
          text := Format(t.value.value.addr);
        case _ => err := Some("cannot convert " + v.TypeName() + " to IP");
      }
    }
  }

  // ---------------------------------------------------------------- canonical form

  lemma EmptyUnparsable()
    ensures ParseAddr("").None?
  {
  }

  /** Normalize keeps the address: family, bits and zone. */
  lemma NormalizeKeepsAddress(m: string)
    ensures Normalize(m).Ok? <==> m == "" || ParseAddr(m).Some?
    ensures ParseAddr(m).Some? ==> Normalize(m).Ok? && ParseAddr(Normalize(m).value) == ParseAddr(m)
    ensures Normalize(m).Ok? ==> (Normalize(m).value == "" <==> m == "")
  {
    hide ParseAddr, Format;
    EmptyUnparsable();
    if ParseAddr(m).Some? {
      ParseFormat(ParseAddr(m).value);
    }
  }

  lemma NormalizeIdempotent(m: string)
    requires Normalize(m).Ok?
    ensures Normalize(Normalize(m).value) == Normalize(m)
  {
    hide ParseAddr, Format;
    NormalizeKeepsAddress(m);
    EmptyUnparsable();
  }

  /** However an IPv6 address is spelled, with whatever case, leading zeros, placement of "::" or
      dotted tail, it normalizes to the same text. */
  lemma SpellingsMeet(sp: Spelling, other: Spelling, zone: string)
    requires sp.Valid() && other.Valid()
    ensures Normalize(sp.Text() + ZoneSuffix(zone)) == Normalize(other.Text() + ZoneSuffix(zone))
       <==> sp.Words() == other.Words()
  {
    hide ParseAddr, Format, Spelling.Text, Spelling.Words;
    ParseSpelled(sp, zone);
    ParseSpelled(other, zone);
    EmptyUnparsable();
    ParseFormat(V6(sp.Words(), zone));
    ParseFormat(V6(other.Words(), zone));
  }

  lemma SameSuffix(x: string, y: string, z: string)
    ensures x + z == y + z <==> x == y
  {
    if x + z == y + z {
      assert (x + z)[..|x|] == x && (y + z)[..|y|] == y;
    }
  }

  /** The canonical text, zone included, is the one that section 4 of RFC 5952 recommends exactly
      outside the IPv4-mapped block. */
  lemma NormalizeIsRecommended(sp: Spelling, zone: string, m: string)
    requires sp.Valid() && Recommended(sp)
    ensures ParseAddr(m) == Some(V6(sp.Words(), zone)) ==>
            Normalize(m).Ok? && (Normalize(m).value == sp.Text() + ZoneSuffix(zone) <==> !IsMapped(sp.Words()))
  {
    hide ParseAddr, FormatWords, FormatV4, ZoneSuffix, Spelling.Text, Spelling.Words, Recommended, IsMapped;
    RecommendedIsPrinted(sp);
    EmptyUnparsable();
    SameSuffix(FormatV6(sp.Words()), sp.Text(), ZoneSuffix(zone));
    if IsMapped(sp.Words()) {
      MappedPrintsApart(sp.Words());
    }
  }

  /** Inside the IPv4-mapped block it is "::ffff:" and the last two words as a dotted quad. */
  lemma NormalizeMapped(m: string, w: seq<Word>, zone: string)
    requires |w| == 8 && IsMapped(w) && ParseAddr(m) == Some(V6(w, zone))
    ensures Normalize(m) ==
            Ok("::ffff:" + (FormatDec(w[6] / 256) + "." + (FormatDec(w[6] % 256) + "." +
               (FormatDec(w[7] / 256) + "." + FormatDec(w[7] % 256)))) + ZoneSuffix(zone))
  {
    hide ParseAddr, FormatV4, FormatWords, FormatDec, ZoneSuffix, IsMapped;
    EmptyUnparsable();
    QuadText(LowQuad(w));
  }

  /** An IPv4 address has one text. */
  lemma NormalizeV4(m: string)
    requires ParseAddr(m).Some? && ParseAddr(m).value.V4?
    ensures Normalize(m) == Ok(m)
    ensures var o := ParseAddr(m).value.octets;
            m == FormatDec(o[0]) + "." + (FormatDec(o[1]) + "." + (FormatDec(o[2]) + "." + FormatDec(o[3])))
  {
    hide ParseAddr, FormatV4, FormatDec;
    EmptyUnparsable();
    var o := ParseAddr(m).value.octets;
    ParseAddrV4(m, o);
    QuadText(o);
  }

  // ---------------------------------------------------------------- equality

  /** Equal is textual identity, widened to equality of the addresses that parse. */
  lemma EqualMeaning(m: string, other: string)
    ensures Equal(m, other) <==> m == other || (ParseAddr(m).Some? && ParseAddr(m) == ParseAddr(other))
  {
    hide ParseAddr;
    EmptyUnparsable();
    NormalizeKeepsAddress(m);
    NormalizeKeepsAddress(other);
  }

  /** Equal is an equivalence on all strings; a normal form stands for its class, and no class
      holds both a parsable and an unparsable text. */
  lemma EqualIsEquivalence(a: string, b: string, c: string)
    ensures Equal(a, a)
    ensures Equal(a, b) ==> Equal(b, a)
    ensures Equal(a, b) && Equal(b, c) ==> Equal(a, c)
    ensures Equal(a, b) ==> ParseAddr(a).Some? == ParseAddr(b).Some?
    ensures Normalize(a).Ok? ==> Equal(Normalize(a).value, a)
  {
    hide ParseAddr, Equal, Format;
    if Normalize(a).Ok? {
      NormalizeKeepsAddress(a);
      EqualMeaning(Normalize(a).value, a);
    }
    EqualMeaning(a, a);
    EqualMeaning(a, b);
    EqualMeaning(b, a);
    EqualMeaning(b, c);
    EqualMeaning(a, c);
  }

  // ---------------------------------------------------------------- the database writer

  lemma FormatZone(a: Addr)
    ensures Format(WithoutZone(a)) == Format(a) <==> !HasZone(a)
  {
  }

  lemma FullLengthMask(a: Addr)
    ensures Masked(PrefixFrom(a, BitLen(a))) == PrefixFrom(a, BitLen(a))
  {
  }

  lemma LengthTexts()
    ensures "/" + FormatDec(32) == "/32" && "/" + FormatDec(128) == "/128"
  {
    assert FormatDec(3) == "3" && FormatDec(1) == "1";
    assert FormatDec(32) == "32";
    assert FormatDec(12) == "12";
    assert FormatDec(128) == "128";
  }

  /** The empty text and no other is written as null; an unparsable text is not written. */
  lemma NullIsEmpty(m: string)
    ensures Value(m) == Ok(None) <==> m == ""
    ensures Value(m).Ok? <==> m == "" || ParseAddr(m).Some?
    ensures Normalize("") == Ok("")
  {
    hide ParseAddr, FormatPrefix;
  }

  /** Null comes back as what null is written for. */
  lemma NullRoundTrip(old_: string)
    ensures Scanned(old_, Nil) == ("", None) && Value(Scanned(old_, Nil).0) == Ok(None)
  {
    hide ParseAddr;
  }

  /** Value is Normalize with a full prefix length, except that it drops a zone; reading the
      prefix back gives the address with no host bits lost. */
  lemma ValueIsNormalized(m: string)
    requires ParseAddr(m).Some?
    ensures var a := ParseAddr(m).value;
            && Value(m).Ok? && Value(m).value.Some?
            && (Value(m).value.value == Normalize(m).value + (if a.V4? then "/32" else "/128") <==> !HasZone(a))
            && ParsePrefix(Value(m).value.value) == Some(RawPrefix(WithoutZone(a), BitLen(a)))
            && Masked(RawPrefix(WithoutZone(a), BitLen(a))) == RawPrefix(WithoutZone(a), BitLen(a))
  {
    hide ParseAddr, Format, Masked, ParsePrefix;
    var a := ParseAddr(m).value;
    EmptyUnparsable();
    LengthTexts();
    ParseFormatPrefix(PrefixFrom(a, BitLen(a)));
    FormatZone(a);
    FullLengthMask(a);
    var len := if a.V4? then "/32" else "/128";
    assert Value(m).value.value == Format(WithoutZone(a)) + len;
    SameSuffix(Format(WithoutZone(a)), Format(a), len);
  }

  // ---------------------------------------------------------------- writing, then reading back

  lemma IPStringOf(a: Addr)
    ensures IPString(As16(a)) == Format(if Is4In6(a) then V4(LowQuad(a.words)) else WithoutZone(a))
  {
    hide Format, FormatV6, FormatV4, WordBytes, IsMapped, LowQuad, BytesWords;
    match a
    case V4(o) =>
      assert As16(a)[..12] == MappedHead() && As16(a)[12..] == o;
    case V6(w, _) =>
      To4Words(w);
      WordsOfBytes(w);
  }

  lemma IPStringV4(o: seq<Octet>)
    requires |o| == 4
    ensures IPString(o) == Format(V4(o))
  {
  }

  lemma CIDRBytesV4(o: seq<Octet>)
    requires |o| == 4
    ensures CIDRNet(RawPrefix(V4(o), 32)).ip == o
  {
    hide CIDRMask, KeepBits, AndBytes;
    var ip := MappedHead() + o;
    assert ip[..12] == MappedHead() && ip[12..] == o;
    AndCIDRMask(o, 32);
    KeepAll(o, 8, 32);
  }

  lemma CIDRBytesV6(w: seq<Word>)
    requires |w| == 8
    ensures CIDRNet(RawPrefix(V6(w, ""), 128)).ip == WordBytes(w)
  {
    hide CIDRMask, KeepBits, AndBytes, WordBytes;
    AndCIDRMask(WordBytes(w), 128);
    KeepAll(WordBytes(w), 8, 128);
  }

  lemma CIDRAddr(a: Addr)
    ensures IPString(CIDRNet(PrefixFrom(a, BitLen(a))).ip)
         == Format(if Is4In6(a) then V4(LowQuad(a.words)) else WithoutZone(a))
  {
    hide CIDRNet, IPString, Format, WordBytes, IsMapped, LowQuad;
    match a
    case V4(o) =>
      CIDRBytesV4(o);
      assert IPString(o) == Format(V4(o)) by { IPStringV4(o); }
    case V6(w, z) =>
      CIDRBytesV6(w);
      IPStringOf(a);
  }

  /** Writing an address and scanning the netip.Prefix of what was written restores the canonical
      text, and one Equal to the original, exactly when there is no zone to lose. */
  lemma RoundTripPrefix(m: string, old_: string)
    requires ParseAddr(m).Some?
    ensures Value(m).Ok? && Value(m).value.Some?
    ensures var v := ParsePrefix(Value(m).value.value);
            var back := Scanned(old_, PrefixValue(v)).0;
            && v.Some? && Scanned(old_, PrefixPtr(Some(v))).0 == back
            && (Normalize(m) == Ok(back) <==> !HasZone(ParseAddr(m).value))
            && (Equal(back, m) <==> !HasZone(ParseAddr(m).value))
  {
    hide ParseAddr, Format, ParsePrefix, Masked, Equal, Value;
    var a := ParseAddr(m).value;
    ValueIsNormalized(m);
    EmptyUnparsable();
    FormatZone(a);
    ParseFormat(WithoutZone(a));
    EqualMeaning(Format(WithoutZone(a)), m);
  }

  /** The byte-slice values of package net also turn an IPv4-mapped address into IPv4, so they
      restore the text exactly when the address is neither zoned nor mapped. */
  lemma RoundTripNet(m: string, old_: string)
    requires ParseAddr(m).Some?
    ensures Value(m).Ok? && Value(m).value.Some?
    ensures var a, n := ParseAddr(m).value, ParseCIDR(Value(m).value.value);
            var back := Scanned(old_, NetPtr(n)).0;
            && n.Some? && Scanned(old_, NetAddr(n.value.ip)).0 == back && Scanned(old_, NetAddr(As16(a))).0 == back
            && (Normalize(m) == Ok(back) <==> !HasZone(a) && !Is4In6(a))
            && (Equal(back, m) <==> !HasZone(a) && !Is4In6(a))
  {
    hide ParseAddr, Format, ReadCIDR, CIDRNet, Equal, IPString, As16, IsMapped, LowQuad;
    var a := ParseAddr(m).value;
    EmptyUnparsable();
    var p := PrefixFrom(a, BitLen(a));
    ReadFormatPrefix(p);
    CIDRAddr(a);
    IPStringOf(a);
    var b := if Is4In6(a) then V4(LowQuad(a.words)) else WithoutZone(a);
    ParseFormat(b);
    ParseFormat(a);
    EqualMeaning(Format(b), m);
  }

  // ---------------------------------------------------------------- runs of Scan

  /** The address that a structured value carries, if it is one that Scan supports. */
  function Carried(v: DriverValue): Option<Addr> {
    match v
    case NetPtr(Some(n)) => if |n.ip| == 4 || |n.ip| == 16 then Some(ToAddr(n.ip)) else None
    case NetAddr(ip) => if |ip| == 4 || |ip| == 16 then Some(ToAddr(ip)) else None
    case PrefixValue(Some(p)) => Some(p.addr)
    case PrefixPtr(Some(Some(p))) => Some(p.addr)
    case _ => None
  }

  /** Empty or a fixed point of Normalize. */
  predicate IsCanonical(m: string) {
    Normalize(m) == Ok(m)
  }

  lemma FormatIsCanonical(a: Addr)
    ensures IsCanonical(Format(a))
  {
    hide ParseAddr, Format;
    ParseFormat(a);
  }

  /** What a scan stores: the canonical text of the address carried, the text given, nothing for a
      null, and what was there before when the type is not supported. */
  lemma ScanMeaning(old_: string, v: DriverValue)
    ensures Carried(v).Some? ==> ParseAddr(Scanned(old_, v).0) == Carried(v) && IsCanonical(Scanned(old_, v).0)
    ensures v.IsNull() ==> Scanned(old_, v).0 == ""
    ensures v.Text? || v.ByteText? ==> Scanned(old_, v).0 == v.text
    ensures Scanned(old_, v).1.Some? <==> v.NetValue? || v.Other?
    ensures Scanned(old_, v).1.Some? ==> Scanned(old_, v).0 == old_
  {
    hide ParseAddr, Format, IsCanonical;
    if Carried(v).Some? {
      ParseFormat(Carried(v).value);
      FormatIsCanonical(Carried(v).value);
    }
  }

  /** Values that a scan turns into a canonical text. */
  predicate WellFormed(v: DriverValue) {
    match v
    case Text(s) => IsCanonical(s)
    case ByteText(s) => IsCanonical(s)
    case NetPtr(Some(n)) => |n.ip| == 4 || |n.ip| == 16
    case NetAddr(ip) => |ip| == 4 || |ip| == 16
    case _ => true
  }

  lemma {:induction false} HexBytesMark(b: Bytes)
    ensures FirstMark(HexBytes(b)).None?
  {
    if b != [] {
      HexBytesMark(b[1..]);
      assert HexBytes(b)[1..][1..] == HexBytes(b[1..]);
    }
  }

  lemma IPStringCanonical(ip: Bytes)
    ensures IsCanonical(IPString(ip)) <==> |ip| == 4 || |ip| == 16
    ensures Value(IPString(ip)).Ok? <==> |ip| == 4 || |ip| == 16
  {
    if |ip| == 4 || |ip| == 16 {
      hide ParseAddr, Format;
      ParseFormat(ToAddr(ip));
      FormatIsCanonical(ToAddr(ip));
    } else if |ip| == 0 {
      var s := "<nil>";
      assert FirstMark(s[5..]).None?;
      assert FirstMark(s[4..]).None?;
      assert FirstMark(s[3..]).None?;
      assert FirstMark(s[2..]).None?;
      assert FirstMark(s[1..]).None?;
    } else {
      HexBytesMark(ip);
      assert ("?" + HexBytes(ip))[1..] == HexBytes(ip);
    }
  }

  /** One scan over a canonical text leaves a canonical text exactly for well-formed values. */
  lemma ScanKeepsCanonical(old_: string, v: DriverValue)
    requires IsCanonical(old_)
    ensures IsCanonical(Scanned(old_, v).0) <==> WellFormed(v)
  {
    hide ParseAddr, Format, IPString;
    match v
    case NetPtr(Some(n)) => IPStringCanonical(n.ip);
    case NetAddr(ip) => IPStringCanonical(ip);
    case PrefixValue(Some(p)) => FormatIsCanonical(p.addr);
    case PrefixPtr(Some(Some(p))) => FormatIsCanonical(p.addr);
    case _ =>
  }

  /** The text that a scan stores. */
  function Stored(old_: string, v: DriverValue): string {
    Scanned(old_, v).0
  }

  /** Over any run from a canonical start, the stored text stays canonical at every step exactly
      when every value is well-formed. */
  lemma RunStaysCanonical(start: string, vs: seq<DriverValue>)
    requires IsCanonical(start)
    ensures Always(Stored, IsCanonical, start, vs) <==> All(WellFormed, vs)
  {
    hide Scanned, IsCanonical, WellFormed, Always, All;
    forall old_, v | IsCanonical(old_)
      ensures IsCanonical(Stored(old_, v)) <==> WellFormed(v)
    {
      ScanKeepsCanonical(old_, v);
    }
    RunKeeps(Stored, IsCanonical, WellFormed, start, vs);
  }

  /** The text can be written to the database. */
  predicate CanWrite(m: string) {
    Value(m).Ok?
  }

  /** Values that a scan turns into a text that can be written. */
  predicate Writable(v: DriverValue) {
    match v
    case Text(s) => CanWrite(s)
    case ByteText(s) => CanWrite(s)
    case _ => WellFormed(v)
  }

  lemma FormatWritable(a: Addr)
    ensures CanWrite(Format(a))
  {
    hide ParseAddr, Format;
    ParseFormat(a);
  }

  lemma ScanKeepsWritable(old_: string, v: DriverValue)
    requires CanWrite(old_)
    ensures CanWrite(Scanned(old_, v).0) <==> Writable(v)
  {
    hide ParseAddr, Format, IPString;
    match v
    case NetPtr(Some(n)) => IPStringCanonical(n.ip);
    case NetAddr(ip) => IPStringCanonical(ip);
    case PrefixValue(Some(p)) => FormatWritable(p.addr);
    case PrefixPtr(Some(Some(p))) => FormatWritable(p.addr);
    case _ =>
  }

  /** Over any run, Value succeeds after every step exactly when every value is writable. */
  lemma RunNeverFails(start: string, vs: seq<DriverValue>)
    requires CanWrite(start)
    ensures Always(Stored, CanWrite, start, vs) <==> All(Writable, vs)
  {
    hide Scanned, CanWrite, Writable, Always, All;
    forall old_, v | CanWrite(old_)
      ensures CanWrite(Stored(old_, v)) <==> Writable(v)
    {
      ScanKeepsWritable(old_, v);
    }
    RunKeeps(Stored, CanWrite, Writable, start, vs);
  }

  // ---------------------------------------------------------------- what is not an address

  /** The text of a net.IP whose length is neither 4 nor 16. */
  lemma OddAddressText(old_: string, ip: Bytes)
    requires |ip| != 4 && |ip| != 16
    ensures Scanned(old_, NetAddr(ip)) == (if ip == [] then "<nil>" else "?" + HexBytes(ip), None)
  {
    hide Format, ToAddr, HexBytes;
  }

  /** The types that Scan does not support, as its error names them. */
  lemma UnsupportedTypes(old_: string, n: IPNet, name: string)
    ensures Scanned(old_, NetValue(n)) == (old_, Some("cannot convert net.IPNet to IP"))
    ensures Scanned(old_, Other(name)) == (old_, Some("cannot convert " + name + " to IP"))
  {
    assert "cannot convert " + "net.IPNet" + " to IP" == "cannot convert net.IPNet to IP";
  }
}
