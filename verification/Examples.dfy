/** The cases of models/custom_test.go: texts whose normal form is written out. */
module Examples {
  import opened Wrappers
  import opened Numerals
  import opened Bits
  import opened IPv4
  import opened IPv6
  import opened IPv6Print
  import opened Netip
  import opened Net
  import opened Networks
  import Text
  import IP
  import Subnet

  // ---------------------------------------------------------------- decimal texts

  lemma TwoDigitText(n: nat)
    requires 10 <= n < 100
    ensures FormatDec(n) == [DigitChar(n / 10), DigitChar(n % 10)]
  {
  }

  lemma ThreeDigitText(n: nat)
    requires 100 <= n < 1000
    ensures FormatDec(n) == [DigitChar(n / 100), DigitChar(n / 10 % 10), DigitChar(n % 10)]
  {
    TwoDigitText(n / 10);
    assert n / 10 / 10 == n / 100;
  }

  lemma Decimals()
    ensures FormatDec(0) == "0" && FormatDec(1) == "1" && FormatDec(5) == "5"
    ensures FormatDec(10) == "10" && FormatDec(16) == "16" && FormatDec(24) == "24"
    ensures FormatDec(128) == "128" && FormatDec(168) == "168" && FormatDec(192) == "192"
  {
    TwoDigitText(10);
    TwoDigitText(16);
    TwoDigitText(24);
    ThreeDigitText(128);
    ThreeDigitText(168);
    ThreeDigitText(192);
  }

  lemma QuadOf(a: Octet, b: Octet, c: Octet, d: Octet)
    ensures FormatV4([a, b, c, d]) == FormatDec(a) + "." + (FormatDec(b) + "." + (FormatDec(c) + "." + FormatDec(d)))
  {
    QuadText([a, b, c, d]);
  }

  // ---------------------------------------------------------------- IPv4

  lemma HostText()
    ensures FormatV4([192, 168, 1, 1]) == "192.168.1.1"
    ensures FormatV4([192, 168, 1, 5]) == "192.168.1.5"
    ensures FormatV4([192, 168, 1, 0]) == "192.168.1.0"
  {
    Decimals();
    QuadOf(192, 168, 1, 1);
    QuadOf(192, 168, 1, 5);
    QuadOf(192, 168, 1, 0);
    hide FormatV4, FormatDec;
    assert "192" + "." + ("168" + "." + ("1" + "." + "1")) == "192.168.1.1";
    assert "192" + "." + ("168" + "." + ("1" + "." + "5")) == "192.168.1.5";
    assert "192" + "." + ("168" + "." + ("1" + "." + "0")) == "192.168.1.0";
  }

  /** "IPv4 unchanged". */
  lemma V4IsUnchanged()
    ensures IP.Normalize("192.168.1.1") == Ok("192.168.1.1")
  {
    HostText();
    hide ParseAddr, FormatV4, IP.Normalize;
    ParseAddrV4("192.168.1.1", [192, 168, 1, 1]);
    IP.NormalizeV4("192.168.1.1");
  }

  lemma V4NetText(o: seq<Octet>, n: nat, body: string, len: string)
    requires |o| == 4 && n <= 32 && FormatV4(o) == body && FormatDec(n) == len
    ensures ReadCIDR(body + "/" + len) == Some(RawPrefix(V4(o), n))
    ensures Subnet.Normalize(body + "/" + len) == Ok(FormatV4(KeepBits(o, 8, n)) + "/" + len)
  {
    hide ReadCIDR, FormatV4, FormatDec, Subnet.Normalize, KeepBits;
    var p := RawPrefix(V4(o), n);
    assert FormatPrefix(p) == body + "/" + len;
    ReadFormatPrefix(p);
    Subnet.NormalizeReads(body + "/" + len);
    CanonicalMapped(p);
  }

  /** A length of whole octets keeps those and clears the others. */
  lemma WholeOctets(o: seq<Octet>, k: nat)
    requires |o| == 4 && k <= 4
    ensures KeepBits(o, 8, 8 * k) == o[..k] + seq(4 - k, _ => 0)
  {
    Pow2Values();
    hide ClearLow, Pow2;
    forall i | 0 <= i < 4
      ensures KeepBits(o, 8, 8 * k)[i] == if i < k then o[i] else 0
    {
      if i < k {
        ModOne(o[i]);
      } else {
        ClearWhole(o[i], 8);
      }
    }
  }

  lemma ClearedOctets()
    ensures KeepBits([192, 168, 1, 5], 8, 24) == [192, 168, 1, 0]
    ensures KeepBits([10, 0, 128, 0], 8, 16) == [10, 0, 0, 0]
  {
    hide KeepBits;
    WholeOctets([192, 168, 1, 5], 3);
    WholeOctets([10, 0, 128, 0], 2);
  }

  /** "IPv4 host bits masked". */
  lemma V4HostBitsAreMasked()
    ensures Subnet.Normalize("192.168.1.5" + "/" + "24") == Ok("192.168.1.0" + "/" + "24")
  {
    Decimals();
    HostText();
    ClearedOctets();
    hide FormatV4, FormatDec, KeepBits, Subnet.Normalize, ReadCIDR;
    V4NetText([192, 168, 1, 5], 24, "192.168.1.5", "24");
  }

  lemma TenText()
    ensures FormatV4([10, 0, 128, 0]) == "10.0.128.0"
    ensures FormatV4([10, 0, 0, 0]) == "10.0.0.0"
  {
    Decimals();
    QuadOf(10, 0, 128, 0);
    QuadOf(10, 0, 0, 0);
    hide FormatV4, FormatDec;
    assert "10" + "." + ("0" + "." + ("128" + "." + "0")) == "10.0.128.0";
    assert "10" + "." + ("0" + "." + ("0" + "." + "0")) == "10.0.0.0";
  }

  /** A length of 16 clears the third octet. */
  lemma ThirdOctetIsMasked()
    ensures Subnet.Normalize("10.0.128.0" + "/" + "16") == Ok("10.0.0.0" + "/" + "16")
  {
    Decimals();
    TenText();
    ClearedOctets();
    hide FormatV4, FormatDec, KeepBits, Subnet.Normalize, ReadCIDR;
    V4NetText([10, 0, 128, 0], 16, "10.0.128.0", "16");
  }

  // ---------------------------------------------------------------- IPv6

  lemma FourDigits(a: char, b: char, c: char, d: char)
    requires IsHex(a) && IsHex(b) && IsHex(c) && IsHex(d)
    ensures IsGroup([a, b, c, d])
    ensures GroupValue([a, b, c, d]) ==
            ((DigitValue(a) * 16 + DigitValue(b)) * 16 + DigitValue(c)) * 16 + DigitValue(d)
  {
    assert [a, b, c, d][..3] == [a, b, c] && [a, b, c][..2] == [a, b] && [a, b][..1] == [a] && [a][..0] == "";
    assert HexValue([a]) == DigitValue(a);
    assert HexValue([a, b]) == DigitValue(a) * 16 + DigitValue(b);
    assert HexValue([a, b, c]) == (DigitValue(a) * 16 + DigitValue(b)) * 16 + DigitValue(c);
  }

  lemma Groups()
    ensures IsGroup("2001") && GroupValue("2001") == 0x2001
    ensures IsGroup("0DB8") && GroupValue("0DB8") == 0xdb8
    ensures IsGroup("ABCD") && GroupValue("ABCD") == 0xabcd
  {
    FourDigits('2', '0', '0', '1');
    FourDigits('0', 'D', 'B', '8');
    FourDigits('A', 'B', 'C', 'D');
  }

  ghost const MIXED_CASE: Spelling := Elided(["2001", "0DB8"], Tail(["ABCD"], None))

  ghost const MIXED_WORDS: seq<Word> := [0x2001, 0xdb8, 0, 0, 0, 0, 0, 0xabcd]

  lemma MixedCaseMeaning()
    ensures MIXED_CASE.Valid() && MIXED_CASE.Words() == MIXED_WORDS
    ensures MIXED_CASE.Text() == "2001:0DB8" + "::" + "ABCD"
  {
    Groups();
    OneGroup("0DB8");
    OneGroup("ABCD");
    hide IsGroup, GroupValue;
    var l := Tail(["2001", "0DB8"], None);
    assert l.Rest() == Tail(["0DB8"], None);
    assert l.Text() == "2001" + ":" + "0DB8";
    assert l.Words() == [0x2001, 0xdb8];
  }

  lemma HexStep(n: nat, d: nat)
    requires n > 0 && d < 16
    ensures FormatHex(n * 16 + d) == FormatHex(n) + [DigitChar(d)]
  {
    var x := n * 16 + d;
    assert x / 16 == n && x % 16 == d;
  }

  lemma HexTexts()
    ensures FormatHex(0x2001) == "2001" && FormatHex(0xdb8) == "db8" && FormatHex(0xabcd) == "abcd"
  {
    assert FormatHex(0x2) == "2" && FormatHex(0xd) == "d" && FormatHex(0xa) == "a";
    hide FormatHex;
    HexStep(0x2, 0);
    HexStep(0x20, 0);
    HexStep(0x200, 1);
    HexStep(0xd, 0xb);
    HexStep(0xdb, 8);
    HexStep(0xa, 0xb);
    HexStep(0xab, 0xc);
    HexStep(0xabc, 0xd);
  }

  lemma RunIsBest(ws: seq<Word>, r: Run)
    requires |ws| == 8 && LongestLeftmost(ws, r)
    ensures BestRun(ws) == r
  {
    hide BestRun;
    BestRunIsLongestLeftmost(ws);
    assert ZeroRun(ws, r.start, r.end);
    assert BestRun(ws) != NO_RUN ==> ZeroRun(ws, BestRun(ws).start, BestRun(ws).end);
  }

  lemma MixedRun()
    ensures BestRun(MIXED_WORDS) == Run(2, 7)
  {
    hide BestRun;
    var ws := MIXED_WORDS;
    assert ws[0] != 0 && ws[1] != 0 && ws[7] != 0;
    RunIsBest(ws, Run(2, 7));
  }

  lemma MixedParts()
    ensures |MIXED_WORDS| == 8 && !IsMapped(MIXED_WORDS)
    ensures MIXED_WORDS[..2] == [0x2001, 0xdb8] && MIXED_WORDS[7..] == [0xabcd]
  {
  }

  lemma MixedGroups()
    ensures FormatGroups([0x2001, 0xdb8]) == "2001:db8" && FormatGroups([0xabcd]) == "abcd"
  {
    HexTexts();
    hide FormatHex;
    assert [0x2001, 0xdb8][1..] == [0xdb8];
    assert FormatGroups([0xdb8]) == "db8";
    assert "2001" + ":" + "db8" == "2001:db8";
  }

  lemma MixedText()
    ensures FormatV6(MIXED_WORDS) == "2001:db8::abcd"
  {
    MixedParts();
    MixedRun();
    MixedGroups();
    hide FormatGroups, BestRun, IsMapped, MIXED_WORDS;
    assert FormatWords(MIXED_WORDS) == "2001:db8" + "::" + "abcd";
    assert "2001:db8" + "::" + "abcd" == "2001:db8::abcd";
  }

  /** "IPv6 mixed case". */
  lemma MixedCaseIsLowered()
    ensures IP.Normalize("2001:0DB8" + "::" + "ABCD") == Ok("2001:db8::abcd")
  {
    MixedCaseMeaning();
    MixedText();
    hide ParseAddr, FormatV6, Spelling.Text, Spelling.Words, MIXED_WORDS, MIXED_CASE;
    ParseSpelled(MIXED_CASE, "");
    IP.EmptyUnparsable();
    assert MIXED_CASE.Text() + "" == MIXED_CASE.Text();
    assert FormatV6(MIXED_WORDS) + "" == FormatV6(MIXED_WORDS);
  }

  // ---------------------------------------------------------------- no address at all

  lemma {:induction false} NoMark(s: string)
    requires forall i :: 0 <= i < |s| ==> s[i] != '.' && s[i] != ':' && s[i] != '%'
    ensures FirstMark(s).None?
    decreases |s|
  {
    if s != "" {
      NoMark(s[1..]);
    }
  }

  lemma NoSlash(s: string)
    requires '/' !in s
    ensures ReadCIDR(s).None?
  {
    Text.IndexUnique(s, '/', |s|);
  }

  lemma PlainWord(s: string)
    requires s != "" && forall i :: 0 <= i < |s| ==> 'a' <= s[i] <= 'z'
    ensures IP.Normalize(s).Err? && Subnet.Normalize(s).Err?
  {
    NoMark(s);
    NoSlash(s);
    hide ReadCIDR, FirstMark;
  }

  /** "invalid returns error". */
  lemma InvalidIsAnError()
    ensures IP.Normalize("invalid").Err? && Subnet.Normalize("invalid").Err?
  {
    hide IP.Normalize, Subnet.Normalize;
    PlainWord("invalid");
  }
}
