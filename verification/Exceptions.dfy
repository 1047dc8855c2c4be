/** Inputs at which the conditional laws about addresses and subnets fail. */
module Exceptions {
  import opened Wrappers
  import opened Numerals
  import opened Text
  import opened IPv4
  import opened IPv6
  import opened IPv6Print
  import opened Netip
  import opened Net
  import opened Networks
  import opened Driver
  import opened Runs
  import IPPattern
  import SubnetPattern
  import IP
  import Subnet

  // ---------------------------------------------------------------- the texts

  const ZONED := "::%eth0"
  const MAPPED := "::ffff:1.2.3.4"
  const MAPPED_NET := "::ffff:1.2.3.4/104"
  const PADDED := "10.0.0.0/08"
  ghost const MAPPED_WORDS: seq<Word> := [0, 0, 0, 0, 0, 0xffff, 0x102, 0x304]

  /** The mapped address in hexadecimal, "::ffff:102:304". */
  ghost const MAPPED_HEX: string := FormatWords(MAPPED_WORDS)

  lemma ZonedParses()
    ensures ParseAddr(ZONED).Some? && HasZone(ParseAddr(ZONED).value)
  {
  }

  lemma QuadText(a: Octet, b: Octet, c: Octet, d: Octet)
    requires a < 10 && b < 10 && c < 10 && d < 10
    ensures FormatV4([a, b, c, d])
         == [DigitChar(a), '.', DigitChar(b), '.', DigitChar(c), '.', DigitChar(d)]
  {
    var o := [a, b, c, d];
    DottedCons(o, 0);
    DottedCons(o, 1);
    DottedCons(o, 2);
    assert o[0..] == o && o[3..] == [d];
  }

  lemma MappedQuad()
    ensures IsMapped(MAPPED_WORDS) && LowQuad(MAPPED_WORDS) == [1, 2, 3, 4]
  {
  }

  lemma MappedText()
    ensures Format(V6(MAPPED_WORDS, "")) == MAPPED
  {
    MappedQuad();
    QuadText(1, 2, 3, 4);
    hide FormatV4, FormatWords, IsMapped, LowQuad, MAPPED_WORDS;
  }

  lemma MappedParses()
    ensures ParseAddr(MAPPED) == Some(V6(MAPPED_WORDS, "")) && IsMapped(MAPPED_WORDS)
  {
    hide ParseAddr, Format, MAPPED;
    MappedQuad();
    MappedText();
    ParseFormat(V6(MAPPED_WORDS, ""));
  }

  ghost const MAPPED_PREFIX: Prefix := RawPrefix(V6(MAPPED_WORDS, ""), 104)

  lemma LengthText104()
    ensures FormatDec(104) == "104"
  {
  }

  lemma MappedPrefixText()
    ensures FormatPrefix(MAPPED_PREFIX) == MAPPED_NET
  {
    MappedText();
    LengthText104();
    hide Format, FormatDec, MAPPED_WORDS;
    assert MAPPED + "/" + "104" == MAPPED_NET;
  }

  lemma MappedNetReads()
    ensures ReadCIDR(MAPPED_NET) == ParsePrefix(MAPPED_NET) == Some(MAPPED_PREFIX) && IsMappedNet(MAPPED_PREFIX)
  {
    MappedQuad();
    assert IsMappedNet(MAPPED_PREFIX);
    hide ReadCIDR, ParsePrefix, FormatPrefix, MAPPED_NET, IsMappedNet, MAPPED_PREFIX;
    MappedPrefixText();
    ReadFormatPrefix(MAPPED_PREFIX);
    ParseFormatPrefix(MAPPED_PREFIX);
  }

  // ---------------------------------------------------------------- addresses

  /** A zone is lost on the way to the database and back. */
  lemma ZoneIsLost(old_: string)
    ensures IP.Normalize(ZONED).Ok? && IP.Value(ZONED).Ok? && IP.Value(ZONED).value.Some?
    ensures IP.Value(ZONED).value.value != IP.Normalize(ZONED).value + "/128"
    ensures var back := IP.Scanned(old_, PrefixValue(ParsePrefix(IP.Value(ZONED).value.value))).0;
            IP.Normalize(ZONED) != Ok(back) && !IP.Equal(back, ZONED)
    ensures var back := IP.Scanned(old_, NetPtr(ParseCIDR(IP.Value(ZONED).value.value))).0;
            IP.Normalize(ZONED) != Ok(back) && !IP.Equal(back, ZONED)
    ensures !IPPattern.ValidIP(IP.Normalize(ZONED).value)
  {
    hide ParseAddr, ParsePrefix, Format, FormatPrefix, IP.Equal, IP.Scanned, IP.Value, IP.Normalize, IPPattern.ValidIP;
    ZonedParses();
    IP.NormalizeKeepsAddress(ZONED);
    IP.ValueIsNormalized(ZONED);
    IP.RoundTripPrefix(ZONED, old_);
    IP.RoundTripNet(ZONED, old_);
    IPPattern.NormalizedIsValid(ZONED);
  }

  /** An IPv4-mapped address comes back from package net as another address, and its normal form
      does not pass IP.Validate. */
  lemma MappedAddressChanges(old_: string)
    ensures IP.Normalize(MAPPED).Ok? && IP.Value(MAPPED).Ok? && IP.Value(MAPPED).value.Some?
    ensures var back := IP.Scanned(old_, NetPtr(ParseCIDR(IP.Value(MAPPED).value.value))).0;
            IP.Normalize(MAPPED) != Ok(back) && !IP.Equal(back, MAPPED)
    ensures !IPPattern.ValidIP(IP.Normalize(MAPPED).value)
  {
    hide ParseAddr, ParseCIDR, Format, FormatPrefix, IP.Equal, IP.Scanned, IP.Value, IP.Normalize, IPPattern.ValidIP;
    MappedParses();
    IP.NormalizeKeepsAddress(MAPPED);
    IP.RoundTripNet(MAPPED, old_);
    IPPattern.NormalizedIsValid(MAPPED);
  }

  lemma MappedHexParses()
    ensures ParseAddr(MAPPED_HEX) == Some(V6(MAPPED_WORDS, ""))
  {
    hide ParseAddr, FormatWords, PrintedSpelling, Spelling.Text, Spelling.Words, Recommended;
    FormatWordsSpelling(MAPPED_WORDS);
    var sp := PrintedSpelling(MAPPED_WORDS);
    ParseSpelled(sp, "");
    assert sp.Text() + "" == sp.Text();
  }

  /** IP.Validate accepts a mapped address in hexadecimal and rejects its normal form. */
  lemma NormalFormIsRejected()
    ensures IPPattern.ValidIP(MAPPED_HEX) && IP.Normalize(MAPPED_HEX).Ok?
    ensures !IPPattern.ValidIP(IP.Normalize(MAPPED_HEX).value)
  {
    MappedQuad();
    MappedHexParses();
    hide ParseAddr, FormatWords, IP.Normalize, IPPattern.ValidIP, IPPattern.HexColon, IsMapped;
    IPPattern.FormatWordsColons(MAPPED_WORDS);
    IPPattern.ParsableHexColonIsValid(MAPPED_HEX);
    IPPattern.NormalizeKeepsValid(MAPPED_HEX);
  }

  /** After an empty net.IP is scanned Value fails. */
  lemma EmptyAddressIsNotWritable()
    ensures !Always(IP.Stored, IP.CanWrite, "", [NetAddr([])])
  {
    var v := NetAddr([]);
    assert !IP.Writable(v) && IP.CanWrite("");
    hide Always, IP.CanWrite, IP.Stored, IP.Writable;
    assert [v][0] == v;
    IP.RunNeverFails("", [v]);
  }

  // ---------------------------------------------------------------- subnets

  lemma TenText()
    ensures FormatV4([10, 0, 0, 0]) == "10.0.0.0"
  {
  }

  lemma PaddedEight()
    ensures AllDigits("08") && DecValue("08") == 8
  {
  }

  lemma PaddedReads()
    ensures ReadCIDR(PADDED).Some?
  {
    TenText();
    PaddedEight();
    hide ParseAddr, ReadCIDR, FormatV4, DecValue;
    ParseAddrV4("10.0.0.0", [10, 0, 0, 0]);
    ReadCIDRForm("10.0.0.0", "08");
    assert "10.0.0.0" + "/" + "08" == PADDED;
  }

  lemma PaddedLengthText()
    ensures Subnet.LengthText(PADDED) == "08"
  {
    IndexUnique(PADDED, '/', 8);
  }

  /** Normalize reads a padded prefix length and Value does not. */
  lemma PaddedLengthDiffers()
    ensures Subnet.Normalize(PADDED).Ok? && Subnet.Value(PADDED).Err?
  {
    PaddedLengthText();
    PaddedReads();
    hide ReadCIDR, Subnet.Normalize, Subnet.Value, Subnet.LengthText;
    Subnet.NormalizeReads(PADDED);
    Subnet.ValueDomain(PADDED);
  }

  /** An IPv4-mapped network is written in another text than the normal one; read back as a
      netip.Prefix that text stays, is not canonical and does not pass Subnet.Validate, though it
      can still be written. */
  lemma MappedNetworkDiffers(old_: string)
    ensures Subnet.Normalize(MAPPED_NET).Ok? && Subnet.Value(MAPPED_NET).Ok? && Subnet.Value(MAPPED_NET).value.Some?
    ensures var v := Subnet.Value(MAPPED_NET).value.value;
            && v != Subnet.Normalize(MAPPED_NET).value
            && !SubnetPattern.ValidSubnet(v)
            && Subnet.Scanned(old_, PrefixValue(ParsePrefix(v))).0 != Subnet.Normalize(MAPPED_NET).value
  {
    hide ParseAddr, ReadCIDR, ParsePrefix, FormatPrefix, Masked, IsMappedNet, SameSet, SubnetPattern.ValidSubnet;
    hide Subnet.Normalize, Subnet.Scanned, Subnet.Equal;
    MappedNetReads();
    Subnet.ValueAgrees(MAPPED_NET);
    Subnet.RoundTripPrefix(MAPPED_NET, old_);
    SubnetPattern.WrittenIsValid(MAPPED_NET);
  }

  lemma EmptySubnet()
    ensures Subnet.IsCanonical("") && Subnet.CanWrite("")
  {
  }

  /** One scan of an IPv4-mapped network ends the canonical run that starts with an empty subnet,
      and Value still succeeds at every step. */
  lemma MappedScanEndsTheRun()
    ensures var vs := [PrefixValue(ParsePrefix(MAPPED_NET))];
            && !Always(Subnet.Stored, Subnet.IsCanonical, "", vs)
            && Always(Subnet.Stored, Subnet.CanWrite, "", vs)
  {
    EmptySubnet();
    MappedNetReads();
    hide ParsePrefix, IsMappedNet, MAPPED_NET, MAPPED_PREFIX, Always;
    hide Subnet.IsCanonical, Subnet.CanWrite, Subnet.Stored;
    var v := PrefixValue(ParsePrefix(MAPPED_NET));
    assert !Subnet.WellFormed(v) && Subnet.Writable(v);
    assert [v][0] == v;
    Subnet.RunStaysCanonical("", [v]);
    Subnet.RunNeverFails("", [v]);
  }

  lemma GapMask()
    ensures var mask: Bytes := [0, 0, 0, 0, 0, 0, 0, 0, 0, 0, 0, 1, 0, 0, 0, 0];
            MaskLength(mask).None? && Contiguous(mask[12..]) && mask[12..] == [0, 0, 0, 0]
  {
    var mask: Bytes := [0, 0, 0, 0, 0, 0, 0, 0, 0, 0, 0, 1, 0, 0, 0, 0];
    assert mask[11] != 0;
    MaskByteEnds(0);
    assert mask[12..] == CIDRMask(0, 4);
  }

  /** A net.IPNet without an address does not fit: after it is scanned Value fails. */
  lemma EmptyNetIsNotWritable()
    ensures !Always(Subnet.Stored, Subnet.CanWrite, "", [NetValue(IPNet([], []))])
  {
    EmptySubnet();
    var v := NetValue(IPNet([], []));
    assert !Subnet.Writable(v);
    hide Always, Subnet.CanWrite, Subnet.Stored, Subnet.Writable;
    assert [v][0] == v;
    Subnet.RunNeverFails("", [v]);
  }

  /** A mask with a gap in its first twelve bytes does no harm to an IPv4 address: it prints as a
      canonical text that can be written. */
  lemma GapBeforeTheCover()
    ensures var n := IPNet([0, 0, 0, 0], [0, 0, 0, 0, 0, 0, 0, 0, 0, 0, 0, 1, 0, 0, 0, 0]);
            !Contiguous(n.mask) && Subnet.IsCanonical(NetString(n)) && Subnet.CanWrite(NetString(n))
  {
    GapMask();
    var mask: Bytes := [0, 0, 0, 0, 0, 0, 0, 0, 0, 0, 0, 1, 0, 0, 0, 0];
    var n := IPNet([0, 0, 0, 0], mask);
    ContiguousLength(mask);
    assert AndBytes([0, 0, 0, 0], [0, 0, 0, 0]) == [0, 0, 0, 0];
    hide NetString, Contiguous, MaskLength, AndBytes, Subnet.IsCanonical, Subnet.CanWrite;
    Subnet.NetStringCanonical(n);
    Subnet.NetStringWritable(n);
  }
}
