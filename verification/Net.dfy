/** The byte-slice addresses and masks of Go's package net, and net.ParseCIDR. */
module Net {
  import opened Wrappers
  import opened Numerals
  import opened Text
  import opened Bits
  import opened IPv6
  import opened IPv6Print
  import opened Netip

  /** A net.IP or net.IPMask; nil is the empty slice. */
  type Bytes = seq<Octet>

  datatype IPNet = IPNet(ip: Bytes, mask: Bytes)

  // ---------------------------------------------------------------- masks

  /** One mask byte with `k` leading ones: ^byte(0xff >> k). */
  function MaskByte(k: nat): (m: Octet)
    requires k <= 8
  {
    Pow2Monotone(8 - k, 8);
    Pow2Values();
    256 - Pow2(8 - k)
  }

  /** net.CIDRMask for a length in range; `size` counts bytes. */
  function CIDRMask(ones: nat, size: nat): (m: Bytes)
    ensures |m| == size
  {
    seq(size, i requires 0 <= i < size => MaskByte(Clamp(ones - 8 * i, 8)))
  }

  /** Bitwise and of two numbers. */
  function BitAnd(a: nat, b: nat): (r: nat)
    ensures r <= a
  {
    if a == 0 || b == 0 then 0
    else 2 * BitAnd(a / 2, b / 2) + if a % 2 == 1 && b % 2 == 1 then 1 else 0
  }

  function AndBytes(a: Bytes, b: Bytes): (r: Bytes)
    requires |a| == |b|
    ensures |r| == |a|
  {
    seq(|a|, i requires 0 <= i < |a| => BitAnd(a[i], b[i]))
  }

  /** ::ffff:0:0/96 as bytes. */
  function MappedHead(): (b: Bytes)
    ensures |b| == 12 && forall i :: 0 <= i < 12 ==> b[i] == if i < 10 then 0 else 0xff
  {
    [0, 0, 0, 0, 0, 0, 0, 0, 0, 0, 0xff, 0xff]
  }

  /** IP.Mask, with both of its length adjustments; nil when the lengths still differ. */
  function MaskIP(ip: Bytes, mask: Bytes): Bytes {
    var m := if |mask| == 16 && |ip| == 4 && (forall i :: 0 <= i < 12 ==> mask[i] == 0xff) then mask[12..] else mask;
    var a := if |m| == 4 && |ip| == 16 && ip[..12] == MappedHead() then ip[12..] else ip;
    if |a| != |m| then [] else AndBytes(a, m)
  }

  /** How many leading ones `v` has, provided that only zeros follow them. */
  function LeadingOnes(v: Octet): Option<nat> {
    if v < 128 then
      if v == 0 then Some(0) else None
    else
      match LeadingOnes(2 * (v as nat) - 256)
      case Some(n) => Some(n + 1)
      case None => None
  }

  /** simpleMaskLength: the length of a contiguous mask. */
  function MaskLength(mask: Bytes): Option<nat> {
    if mask == [] then Some(0)
    else if mask[0] == 0xff then
      match MaskLength(mask[1..])
      case Some(n) => Some(8 + n)
      case None => None
    else if forall i :: 1 <= i < |mask| ==> mask[i] == 0 then LeadingOnes(mask[0])
    else None
  }

  // ---------------------------------------------------------------- addresses as bytes

  function WordBytes(ws: seq<Word>): (b: Bytes)
    ensures |b| == 2 * |ws|
  {
    seq(2 * |ws|, i requires 0 <= i < 2 * |ws| => Octets(ws[i / 2])[i % 2])
  }

  function BytesWords(b: Bytes): (ws: seq<Word>)
    requires |b| == 16
    ensures |ws| == 8
  {
    seq(8, i requires 0 <= i < 8 => Pack(b[2 * i], b[2 * i + 1]))
  }

  /** Addr.As16. */
  function As16(a: Addr): (b: Bytes)
    ensures |b| == 16
  {
    match a
    case V4(o) => MappedHead() + o
    case V6(w, _) => WordBytes(w)
  }

  /** IP.To4. */
  function To4(ip: Bytes): (r: Option<Bytes>)
    ensures r.Some? ==> |r.value| == 4
  {
    if |ip| == 4 then Some(ip)
    else if |ip| == 16 && ip[..12] == MappedHead() then Some(ip[12..])
    else None
  }

  /** The address that a 4- or 16-byte slice stands for when it is printed. */
  function ToAddr(ip: Bytes): Addr
    requires |ip| == 4 || |ip| == 16
  {
    match To4(ip)
    case Some(o) => V4(o)
    case None => V6(BytesWords(ip), "")
  }

  function HexBytes(b: Bytes): string {
    if b == [] then ""
    else [DigitChar(b[0] / 16), DigitChar(b[0] % 16)] + HexBytes(b[1..])
  }

  /** IP.String. */
  function IPString(ip: Bytes): string {
    if |ip| == 0 then "<nil>"
    else if |ip| != 4 && |ip| != 16 then "?" + HexBytes(ip)
    else Format(ToAddr(ip))
  }

  /** networkNumberAndMask: the address and mask that are printed. */
  function NetworkNumberAndMask(n: IPNet): Option<(Bytes, Bytes)> {
    var ip := match To4(n.ip) case Some(o) => o case None => n.ip;
    if |ip| != 4 && |ip| != 16 then None
    else if |n.mask| == 4 then
      if |ip| == 4 then Some((ip, n.mask)) else None
    else if |n.mask| == 16 then Some((ip, if |ip| == 4 then n.mask[12..] else n.mask))
    else None
  }

  /** IPNet.String. */
  function NetString(n: IPNet): string {
    match NetworkNumberAndMask(n)
    case None => "<nil>"
    case Some((ip, m)) =>
      match MaskLength(m)
      case Some(l) => IPString(ip) + "/" + FormatDec(l)
      case None => IPString(ip) + "/" + HexBytes(m)
  }

  // ---------------------------------------------------------------- ParseCIDR

  const BIG := 0xFFFFFF

  /** dtoi: the number at the head of `s` and how many characters it took. */
  function Dtoi(s: string, i: nat, n: nat): Option<(nat, nat)>
    requires i <= |s|
    decreases |s| - i
  {
    if i < |s| && IsDigit(s[i]) then
      var next := n * 10 + DigitValue(s[i]);
      if next >= BIG then None else Dtoi(s, i + 1, next)
    else if i == 0 then None
    else Some((n, i))
  }

  /** The address and prefix length that net.ParseCIDR reads: cut at the first slash, no zone. */
  function ReadCIDR(s: string): Option<Prefix> {
    var i := IndexOf(s, '/');
    if i == |s| then None
    else
      var a := ParseAddr(s[..i]);
      var mask := s[i + 1..];
      if a.None? || HasZone(a.value) then None
      else
        match Dtoi(mask, 0, 0)
        case None => None
        case Some((n, used)) =>
          if used != |mask| || n > BitLen(a.value) then None else Some(PrefixFrom(a.value, n))
  }

  /** The network that net.ParseCIDR returns for an address and length. */
  function CIDRNet(p: Prefix): IPNet {
    var mask := CIDRMask(p.bits, BitLen(p.addr) / 8);
    IPNet(MaskIP(As16(p.addr), mask), mask)
  }

  function ParseCIDR(s: string): Option<IPNet> {
    match ReadCIDR(s)
    case Some(p) => Some(CIDRNet(p))
    case None => None
  }

  // ---------------------------------------------------------------- the length is a decimal numeral

  lemma {:induction false} DecValueGrows(s: string, i: nat)
    requires AllDigits(s) && i <= |s|
    ensures DecValue(s[..i]) <= DecValue(s)
    decreases |s| - i
  {
    if i < |s| {
      assert s[..i + 1][..i] == s[..i];
      DecValueGrows(s, i + 1);
    } else {
      assert s[..i] == s;
    }
  }

  lemma {:induction false} DtoiReads(s: string, i: nat, n: nat)
    requires i <= |s| && AllDigits(s[..i]) && n == DecValue(s[..i])
    ensures AllDigits(s) && s != "" && DecValue(s) < BIG ==> Dtoi(s, i, n) == Some((DecValue(s), |s|))
    ensures forall v :: Dtoi(s, i, n) == Some((v, |s|)) ==> AllDigits(s) && s != "" && v == DecValue(s)
    decreases |s| - i
  {
    if i < |s| && IsDigit(s[i]) {
      assert s[..i + 1][..i] == s[..i];
      if AllDigits(s) {
        DecValueGrows(s, i + 1);
      }
      if n * 10 + DigitValue(s[i]) < BIG {
        DtoiReads(s, i + 1, n * 10 + DigitValue(s[i]));
      }
    } else if i == |s| {
      assert s[..i] == s;
    }
  }

  /** ReadCIDR on a text cut at its only slash. */
  lemma ReadCIDRForm(body: string, len: string)
    requires '/' !in body
    ensures var a := ParseAddr(body);
            ReadCIDR(body + "/" + len) ==
            if a.None? || HasZone(a.value) || len == "" || !AllDigits(len) || DecValue(len) > BitLen(a.value) then None
            else Some(PrefixFrom(a.value, DecValue(len)))
  {
    hide ParseAddr, Dtoi;
    var s := body + "/" + len;
    IndexUnique(s, '/', |body|);
    assert s[..|body|] == body && s[|body| + 1..] == len;
    assert len[..0] == "";
    DtoiReads(len, 0, 0);
  }

  /** net.ParseCIDR reads every printed prefix. */
  lemma ReadFormatPrefix(p: Prefix)
    ensures ReadCIDR(FormatPrefix(p)) == Some(p)
  {
    hide ParseAddr, Format, FormatDec, DecValue, ReadCIDR;
    ParseFormat(p.addr);
    ParsedChars(Format(p.addr));
    FormatDecValue(p.bits);
    ReadCIDRForm(Format(p.addr), FormatDec(p.bits));
  }

  // ---------------------------------------------------------------- masking bytes is masking words

  lemma Pow2Step(k: nat)
    requires k > 0
    ensures Pow2(k) == 2 * Pow2(k - 1)
  {
  }

  lemma AndEven(a: nat, m: nat)
    ensures BitAnd(a, 2 * m) == 2 * BitAnd(a / 2, m)
  {
  }

  lemma ClearBit(a: nat, low: nat)
    requires low > 0
    ensures ClearLow(a, low) == 2 * ClearLow(a / 2, low - 1)
  {
    assert Pow2(1) == 2;
    hide ClearLow, Pow2;
    ClearDigitAndMore(a / 2, a % 2, 1, low - 1);
  }

  lemma {:induction false} AndOnes(a: nat, k: nat)
    requires a < Pow2(k)
    ensures BitAnd(a, Pow2(k) - 1) == a
  {
    if k > 0 && a > 0 {
      AndOnes(a / 2, k - 1);
      assert (Pow2(k) - 1) / 2 == Pow2(k - 1) - 1;
    }
  }

  lemma {:induction false} AndMask(a: nat, k: nat, low: nat)
    requires a < Pow2(k) && low <= k
    ensures Pow2(low) <= Pow2(k) && BitAnd(a, Pow2(k) - Pow2(low)) == ClearLow(a, low)
  {
    Pow2Monotone(low, k);
    assert Pow2(0) == 1;
    assert BitAnd(a, 0) == 0;
    hide Pow2, ClearLow, BitAnd;
    if low == k {
      ClearWhole(a, k);
    } else if low == 0 {
      ModOne(a);
      AndOnes(a, k);
    } else {
      Pow2Step(k);
      Pow2Step(low);
      Pow2Monotone(low - 1, k - 1);
      AndMask(a / 2, k - 1, low - 1);
      ClearBit(a, low);
      AndEven(a, Pow2(k - 1) - Pow2(low - 1));
    }
  }

  lemma AndMaskByte(a: Octet, k: nat)
    requires k <= 8
    ensures BitAnd(a, MaskByte(k)) == ClearLow(a, 8 - k)
  {
    Pow2Values();
    hide BitAnd, ClearLow, Pow2;
    AndMask(a, 8, 8 - k);
  }

  lemma AndCIDRMask(b: Bytes, n: nat)
    ensures AndBytes(b, CIDRMask(n, |b|)) == KeepBits(b, 8, n)
  {
    hide BitAnd, ClearLow, MaskByte, Pow2;
    forall i | 0 <= i < |b|
      ensures AndBytes(b, CIDRMask(n, |b|))[i] == KeepBits(b, 8, n)[i]
    {
      AndMaskByte(b[i], Clamp(n - 8 * i, 8));
    }
  }

  lemma ClearWord(w: Word, low: nat)
    requires low <= 16
    ensures Octets(ClearLow(w, low))
         == [ClearLow(w / 256, Clamp(low - 8, 8)), ClearLow(w % 256, Clamp(low, 8))]
  {
    Pow2Values();
    hide ClearLow, Pow2;
    var high, d := w / 256, w % 256;
    if low >= 8 {
      ClearDigitAndMore(high, d, 8, low - 8);
      ClearWhole(d, 8);
    } else {
      ClearInDigit(high, d, 8, low);
      ModOne(high);
    }
  }

  lemma KeepWordBytes(ws: seq<Word>, n: nat)
    ensures KeepBits(WordBytes(ws), 8, n) == WordBytes(KeepBits(ws, 16, n))
  {
    hide ClearLow, Pow2;
    forall i | 0 <= i < 2 * |ws|
      ensures KeepBits(WordBytes(ws), 8, n)[i] == WordBytes(KeepBits(ws, 16, n))[i]
    {
      var j := i / 2;
      ClearWord(ws[j], 16 - Clamp(n - 16 * j, 16));
    }
  }

  // ---------------------------------------------------------------- contiguous masks

  lemma MaskByteStep(k: nat)
    requires 1 <= k <= 8
    ensures MaskByte(k) >= 128 && 2 * (MaskByte(k) as nat) - 256 == MaskByte(k - 1)
  {
    Pow2Values();
    Pow2Monotone(8 - k, 7);
    assert Pow2(8) == 2 * Pow2(7);
  }

  lemma MaskByteEnds(k: nat)
    requires k <= 8
    ensures (MaskByte(k) == 0xff <==> k == 8) && (MaskByte(k) == 0 <==> k == 0)
  {
    Pow2Values();
    Pow2Monotone(0, 8 - k);
    Pow2Monotone(8 - k, 8);
  }

  lemma {:induction false} LeadingOnesOf(k: nat)
    requires k <= 8
    ensures LeadingOnes(MaskByte(k)) == Some(k)
  {
    MaskByteEnds(k);
    hide MaskByte, Pow2;
    if k > 0 {
      MaskByteStep(k);
      LeadingOnesOf(k - 1);
    }
  }

  lemma {:induction false} LeadingOnesOnly(v: Octet)
    ensures LeadingOnes(v).Some? ==> LeadingOnes(v).value <= 8 && v == MaskByte(LeadingOnes(v).value)
  {
    hide MaskByte, Pow2;
    MaskByteEnds(0);
    MaskByteEnds(8);
    if v >= 128 && LeadingOnes(v).Some? {
      LeadingOnesOnly(2 * (v as nat) - 256);
      MaskByteStep(LeadingOnes(v).value);
    }
  }

  lemma CIDRMaskRest(n: nat, size: nat)
    requires size > 0
    ensures CIDRMask(n, size)[1..] == CIDRMask(if n < 8 then 0 else n - 8, size - 1)
    ensures CIDRMask(n, size)[0] == MaskByte(Clamp(n, 8))
  {
    var m := if n < 8 then 0 else n - 8;
    forall i | 0 <= i < size - 1
      ensures CIDRMask(n, size)[1..][i] == CIDRMask(m, size - 1)[i]
    {
      assert Clamp(n - 8 * (i + 1), 8) == Clamp(m - 8 * i, 8);
    }
  }

  lemma {:induction false} MaskLengthOf(n: nat, size: nat)
    requires n <= 8 * size
    ensures MaskLength(CIDRMask(n, size)) == Some(n)
  {
    var m := CIDRMask(n, size);
    if size > 0 {
      CIDRMaskRest(n, size);
      MaskByteEnds(Clamp(n, 8));
      if n >= 8 {
        MaskLengthOf(n - 8, size - 1);
      } else {
        forall i | 1 <= i < size
          ensures m[i] == 0
        {
          MaskByteEnds(0);
          assert Clamp(n - 8 * i, 8) == 0;
        }
        LeadingOnesOf(n);
      }
    }
  }

  lemma {:induction false} MaskLengthOnly(m: Bytes)
    ensures MaskLength(m).Some? ==> MaskLength(m).value <= 8 * |m| && m == CIDRMask(MaskLength(m).value, |m|)
  {
    hide LeadingOnes, MaskByte, Pow2;
    if m != [] && MaskLength(m).Some? {
      var n := MaskLength(m).value;
      if m[0] == 0xff {
        MaskLengthOnly(m[1..]);
        CIDRMaskRest(n, |m|);
        MaskByteEnds(8);
        assert m == [m[0]] + m[1..];
        assert CIDRMask(n, |m|) == [CIDRMask(n, |m|)[0]] + CIDRMask(n, |m|)[1..];
      } else {
        LeadingOnesOnly(m[0]);
        MaskByteEnds(n);
        forall i | 0 <= i < |m|
          ensures m[i] == CIDRMask(n, |m|)[i]
        {
          MaskByteEnds(0);
          assert i > 0 ==> Clamp(n - 8 * i, 8) == 0;
        }
      }
    }
  }

  /** A mask is printed as a length exactly when it is contiguous. */
  lemma MaskLengthExact(m: Bytes, n: nat)
    requires n <= 8 * |m|
    ensures MaskLength(m) == Some(n) <==> m == CIDRMask(n, |m|)
  {
    MaskLengthOf(n, |m|);
    MaskLengthOnly(m);
  }

  // ---------------------------------------------------------------- bytes and words

  lemma BytePair(ws: seq<Word>, j: nat)
    requires j < |ws|
    ensures Octets(ws[j]) == [WordBytes(ws)[2 * j], WordBytes(ws)[2 * j + 1]]
  {
  }

  lemma WordsOfBytes(ws: seq<Word>)
    requires |ws| == 8
    ensures BytesWords(WordBytes(ws)) == ws
  {
  }

  lemma BytesOfWords(b: Bytes)
    requires |b| == 16
    ensures WordBytes(BytesWords(b)) == b
  {
    hide WordBytes;
    forall i | 0 <= i < 16
      ensures WordBytes(BytesWords(b))[i] == b[i]
    {
      var j := i / 2;
      BytePair(BytesWords(b), j);
      assert i == 2 * j || i == 2 * j + 1;
    }
  }

  lemma MappedBytes(ws: seq<Word>)
    requires |ws| == 8
    ensures WordBytes(ws)[..12] == MappedHead() <==> IsMapped(ws)
  {
    hide WordBytes;
    var b := WordBytes(ws);
    if b[..12] == MappedHead() {
      forall i | 0 <= i < 6
        ensures ws[i] == if i < 5 then 0 else 0xffff
      {
        BytePair(ws, i);
        assert b[2 * i] == b[..12][2 * i] && b[2 * i + 1] == b[..12][2 * i + 1];
      }
    }
    if IsMapped(ws) {
      forall i | 0 <= i < 12
        ensures b[i] == MappedHead()[i]
      {
        var j := i / 2;
        BytePair(ws, j);
        assert i == 2 * j || i == 2 * j + 1;
      }
    }
  }

  /** IP.To4 recognises exactly the IPv4-mapped block. */
  lemma To4Words(ws: seq<Word>)
    requires |ws| == 8
    ensures To4(WordBytes(ws)) == if IsMapped(ws) then Some(LowQuad(ws)) else None
  {
    hide IsMapped, WordBytes;
    MappedBytes(ws);
    var b := WordBytes(ws);
    BytePair(ws, 6);
    BytePair(ws, 7);
    assert b[12..] == [b[12], b[13], b[14], b[15]];
    assert LowQuad(ws) == [b[12], b[13], b[14], b[15]];
  }

  // ---------------------------------------------------------------- bytes in hexadecimal

  lemma {:induction false} HexBytesLength(b: Bytes)
    ensures |HexBytes(b)| == 2 * |b|
  {
    if b != [] {
      HexBytesLength(b[1..]);
    }
  }

  /** Two digits for each byte, the high one first. */
  lemma {:induction false} HexBytesAt(b: Bytes, i: nat)
    requires i < |b|
    ensures |HexBytes(b)| == 2 * |b|
    ensures HexBytes(b)[2 * i] == DigitChar(b[i] / 16) && HexBytes(b)[2 * i + 1] == DigitChar(b[i] % 16)
    decreases i
  {
    HexBytesLength(b);
    var rest := HexBytes(b[1..]);
    assert HexBytes(b)[2..] == rest;
    if i > 0 {
      HexBytesAt(b[1..], i - 1);
      assert HexBytes(b)[2 * i] == rest[2 * (i - 1)] && HexBytes(b)[2 * i + 1] == rest[2 * (i - 1) + 1];
    }
  }
}
