/** What a prefix denotes: a set of 128-bit addresses, with IPv4 embedded at ::ffff:0:0/96.
    The text that package net prints is a canonical name of that set. */
module Networks {
  import opened Wrappers
  import opened Numerals
  import opened Bits
  import opened IPv6
  import opened IPv6Print
  import opened Netip
  import opened Net

  // ---------------------------------------------------------------- denotation

  /** The 128-bit number of an address. */
  ghost function Embed(a: Addr): nat {
    match a
    case V4(o) => 0xffff * Pow2(32) + ToNat(o, 8)
    case V6(w, _) => ToNat(w, 16)
  }

  /** How many leading bits of the 128 the prefix fixes. */
  function FixedBits(p: Prefix): (n: nat)
    ensures n <= 128
  {
    if p.addr.V4? then 96 + p.bits else p.bits
  }

  /** Equal but for the `low` low-order bits. */
  ghost predicate SameBlock(x: nat, y: nat, low: nat) {
    x / Pow2(low) == y / Pow2(low)
  }

  ghost predicate Contains(p: Prefix, x: nat) {
    x < Pow2(128) && SameBlock(x, Embed(p.addr), 128 - FixedBits(p))
  }

  ghost predicate SameSet(p: Prefix, q: Prefix) {
    forall x: nat :: Contains(p, x) <==> Contains(q, x)
  }

  // ---------------------------------------------------------------- canonical networks

  lemma OddKeepsAll(x: nat, low: nat)
    requires ClearLow(x, low) % 2 == 1
    ensures low == 0 && ClearLow(x, low) == x
  {
    if low > 0 {
      ClearBit(x, low);
    } else {
      ModOne(x);
    }
  }

  /** Masking leaves an address mapped exactly when it was mapped and the length reaches past
      the block's own 96 bits. */
  lemma MappedMask(w: seq<Word>, n: nat)
    requires |w| == 8
    ensures IsMapped(KeepBits(w, 16, n)) <==> IsMapped(w) && n >= 96
  {
    hide ClearLow, Pow2;
    var kept := KeepBits(w, 16, n);
    if kept[5] == 0xffff {
      OddKeepsAll(w[5], 16 - Clamp(n - 80, 16));
    }
    if n >= 96 {
      forall i | 0 <= i < 6
        ensures kept[i] == w[i]
      {
        ModOne(w[i]);
      }
    }
  }

  /** Masked and, inside the IPv4-mapped block, rewritten as IPv4: the network that is printed. */
  function Canonical(p: Prefix): Prefix {
    var m := Masked(p);
    if Is4In6(m.addr) then
      MappedMask(p.addr.words, p.bits);
      RawPrefix(V4(LowQuad(m.addr.words)), m.bits - 96)
    else m
  }

  /** An IPv4-mapped network, which package net prints as IPv4 and net/netip does not. */
  predicate IsMappedNet(p: Prefix) {
    Is4In6(p.addr) && p.bits >= 96
  }

  lemma CanonicalMapped(p: Prefix)
    ensures Canonical(p) ==
            if IsMappedNet(p) then RawPrefix(V4(LowQuad(Masked(p).addr.words)), p.bits - 96) else Masked(p)
  {
    if p.addr.V6? {
      MappedMask(p.addr.words, p.bits);
    }
  }

  // ---------------------------------------------------------------- the printed form

  lemma PrintedV4(o: seq<Octet>, n: nat)
    requires |o| == 4 && n <= 32
    ensures NetString(CIDRNet(RawPrefix(V4(o), n))) == FormatPrefix(RawPrefix(V4(KeepBits(o, 8, n)), n))
  {
    hide KeepBits, MaskLength, CIDRMask, Format, FormatDec, AndBytes;
    var mask, ip := CIDRMask(n, 4), MappedHead() + o;
    assert ip[..12] == MappedHead() && ip[12..] == o;
    AndCIDRMask(o, n);
    assert MaskIP(ip, mask) == KeepBits(o, 8, n);
    MaskLengthOf(n, 4);
  }

  lemma CIDRMaskLow(n: nat)
    requires 96 <= n <= 128
    ensures CIDRMask(n, 16)[12..] == CIDRMask(n - 96, 4)
  {
  }

  lemma To4Quad(o: Bytes)
    requires |o| == 4
    ensures To4(o) == Some(o)
  {
  }

  lemma PrintedV6(w: seq<Word>, n: nat)
    requires |w| == 8 && n <= 128
    ensures IsMapped(KeepBits(w, 16, n)) ==> n >= 96
    ensures NetString(CIDRNet(RawPrefix(V6(w, ""), n))) ==
            if IsMapped(KeepBits(w, 16, n)) then FormatPrefix(RawPrefix(V4(LowQuad(KeepBits(w, 16, n))), n - 96))
            else FormatPrefix(RawPrefix(V6(KeepBits(w, 16, n), ""), n))
  {
    hide KeepBits, MaskLength, CIDRMask, Format, FormatDec, AndBytes, IsMapped, WordBytes, To4;
    var mask, ip, kept := CIDRMask(n, 16), WordBytes(w), KeepBits(w, 16, n);
    AndCIDRMask(ip, n);
    KeepWordBytes(w, n);
    assert MaskIP(ip, mask) == WordBytes(kept);
    To4Words(kept);
    MappedMask(w, n);
    if IsMapped(kept) {
      CIDRMaskLow(n);
      MaskLengthOf(n - 96, 4);
      assert To4(LowQuad(kept)) == Some(LowQuad(kept)) by { To4Quad(LowQuad(kept)); }
    } else {
      MaskLengthOf(n, 16);
      WordsOfBytes(kept);
    }
  }

  /** IPNet.String on ParseCIDR's network prints the canonical network. */
  lemma PrintedNet(p: Prefix)
    ensures NetString(CIDRNet(p)) == FormatPrefix(Canonical(p))
  {
    match p.addr
    case V4(o) => PrintedV4(o, p.bits);
    case V6(w, z) =>
      CanonicalMapped(p);
      PrintedV6(w, p.bits);
  }

  // ---------------------------------------------------------------- masking and the denotation

  lemma OctetsBelow(o: seq<Octet>)
    ensures Below(o, Pow2(8))
  {
  }

  lemma WordsBelow(w: seq<Word>)
    ensures Below(w, Pow2(16))
  {
    Pow2Values();
  }

  /** Masking an address clears the bits that the prefix leaves free. */
  lemma EmbedMasked(p: Prefix)
    ensures Embed(Masked(p).addr) == ClearLow(Embed(p.addr), 128 - FixedBits(p))
  {
    hide Pow2, ToNat, KeepBits, ClearLow;
    match p.addr
    case V4(o) =>
      OctetsBelow(o);
      KeepBitsClears(o, 8, p.bits);
      ClearInDigit(0xffff, ToNat(o, 8), 32, 32 - p.bits);
    case V6(w, _) =>
      WordsBelow(w);
      KeepBitsClears(w, 16, p.bits);
  }

  /** The mapped words of a dotted quad. */
  ghost function MappedWords(o: seq<Octet>): (w: seq<Word>)
    requires |o| == 4
    ensures |w| == 8
  {
    [0, 0, 0, 0, 0, 0xffff] + QuadWords(o)
  }

  lemma {:induction false} ToNatQuad(o: seq<nat>)
    requires |o| == 4
    ensures ToNat(o, 8) == ((o[0] * 256 + o[1]) * 256 + o[2]) * 256 + o[3]
  {
    Pow2Values();
    hide Pow2;
    assert o[..3][..2] == o[..2] && o[..2][..1] == o[..1] && o[..1][..0] == [];
    assert ToNat(o[..1], 8) == o[0];
    assert ToNat(o[..2], 8) == o[0] * 256 + o[1];
    assert ToNat(o[..3], 8) == (o[0] * 256 + o[1]) * 256 + o[2];
  }

  lemma ToNatPair(w: seq<nat>)
    requires |w| == 2
    ensures ToNat(w, 16) == w[0] * 65536 + w[1]
  {
    Pow2Values();
    hide Pow2;
    assert w[..1][..0] == [];
    assert ToNat(w[..1], 16) == w[0];
  }

  lemma ToNatMappedHead()
    ensures ToNat([0, 0, 0, 0, 0, 0xffff], 16) == 0xffff
  {
    var h: seq<nat> := [0, 0, 0, 0, 0, 0xffff];
    var z: seq<nat> := seq(5, _ => 0);
    ToNatZeros(5, 16);
    assert h[..5] == z;
  }

  /** A mapped address and its dotted quad are the same number. */
  lemma EmbedMapped(o: seq<Octet>)
    requires |o| == 4
    ensures ToNat(MappedWords(o), 16) == 0xffff * Pow2(32) + ToNat(o, 8)
  {
    var h: seq<nat>, q: seq<Word> := [0, 0, 0, 0, 0, 0xffff], QuadWords(o);
    ToNatSplit(h, q, 16);
    ToNatMappedHead();
    ToNatPair(q);
    ToNatQuad(o);
    hide Pow2, ToNat;
    assert MappedWords(o) == h + q;
  }

  lemma MappedWordsOf(w: seq<Word>)
    requires |w| == 8 && IsMapped(w)
    ensures MappedWords(LowQuad(w)) == w
  {
  }

  lemma EmbedCanonical(p: Prefix)
    ensures Embed(Canonical(p).addr) == ClearLow(Embed(p.addr), 128 - FixedBits(p))
    ensures FixedBits(Canonical(p)) == FixedBits(p)
    ensures !IsMappedNet(Canonical(p)) && !HasZone(Canonical(p).addr)
  {
    hide Pow2, ToNat, KeepBits, ClearLow, IsMapped, LowQuad;
    EmbedMasked(p);
    CanonicalMapped(p);
    var m := Masked(p);
    if p.addr.V6? {
      MappedMask(p.addr.words, p.bits);
    }
    if IsMappedNet(p) {
      MappedWordsOf(m.addr.words);
      EmbedMapped(LowQuad(m.addr.words));
    }
  }

  // ---------------------------------------------------------------- the canonical network names the set

  ghost predicate InBlock(x: nat, base: nat, low: nat) {
    base <= x < base + Pow2(low)
  }

  lemma EmbedBound(a: Addr)
    ensures Embed(a) < Pow2(128)
  {
    match a
    case V4(o) =>
      OctetsBelow(o);
      ToNatBound(o, 8);
      Pow2Add(96, 32);
      Pow2Values();
      Pow2Monotone(16, 96);
      MulBelow(0xffff, Pow2(96), Pow2(32), ToNat(o, 8));
    case V6(w, _) =>
      WordsBelow(w);
      ToNatBound(w, 16);
  }

  lemma BlockInterval(e: nat, x: nat, low: nat)
    ensures SameBlock(x, e, low) <==> InBlock(x, ClearLow(e, low), low)
  {
    var h := Pow2(low);
    var q := e / h;
    hide Pow2;
    assert ClearLow(e, low) == q * h;
    if q * h <= x < q * h + h {
      DivModUnique(x, h, q, x - q * h);
    }
    assert x == (x / h) * h + x % h;
  }

  lemma ClearQuotient(e: nat, low: nat) returns (q: nat)
    ensures ClearLow(e, low) == q * Pow2(low) && e < ClearLow(e, low) + Pow2(low)
  {
    hide Pow2;
    var h := Pow2(low);
    q := e / h;
    assert e == q * h + e % h;
    assert ClearLow(e, low) == q * h;
  }

  lemma TopArithmetic(q: nat, r: nat, h: nat, blocks: nat)
    requires q * h + r < blocks * h
    ensures q * h + h <= blocks * h
  {
    MulSucc(h, q);
    if q >= blocks {
      MulMonotone(blocks, q, h);
    } else {
      MulMonotone(q + 1, blocks, h);
    }
  }

  lemma BlockTop(e: nat, low: nat, blocks: nat)
    requires e < blocks * Pow2(low)
    ensures ClearLow(e, low) + Pow2(low) <= blocks * Pow2(low)
  {
    hide ClearLow, Pow2;
    var q := ClearQuotient(e, low);
    TopArithmetic(q, e - ClearLow(e, low), Pow2(low), blocks);
  }

  /** A network is the interval from its masked address on. */
  lemma ContainsInterval(p: Prefix, x: nat)
    ensures Contains(p, x) <==> InBlock(x, ClearLow(Embed(p.addr), 128 - FixedBits(p)), 128 - FixedBits(p))
  {
    var low := 128 - FixedBits(p);
    EmbedBound(p.addr);
    Pow2Add(FixedBits(p), low);
    hide ClearLow, Embed, Pow2, SameBlock;
    BlockInterval(Embed(p.addr), x, low);
    BlockTop(Embed(p.addr), low, Pow2(FixedBits(p)));
  }

  lemma Pow2Strict(a: nat, b: nat)
    requires Pow2(a) == Pow2(b)
    ensures a == b
  {
  }

  lemma SameSetInterval(p: Prefix, q: Prefix)
    ensures SameSet(p, q) <==>
            && ClearLow(Embed(p.addr), 128 - FixedBits(p)) == ClearLow(Embed(q.addr), 128 - FixedBits(q))
            && FixedBits(p) == FixedBits(q)
  {
    hide ClearLow, Embed, Contains, Pow2;
    var b, h := ClearLow(Embed(p.addr), 128 - FixedBits(p)), Pow2(128 - FixedBits(p));
    var c, k := ClearLow(Embed(q.addr), 128 - FixedBits(q)), Pow2(128 - FixedBits(q));
    forall x: nat
      ensures Contains(p, x) <==> b <= x < b + h
      ensures Contains(q, x) <==> c <= x < c + k
    {
      ContainsInterval(p, x);
      ContainsInterval(q, x);
    }
    if SameSet(p, q) {
      assert Contains(p, b) && Contains(p, b + h - 1) && Contains(q, c) && Contains(q, c + k - 1);
      assert b == c && h == k;
      Pow2Strict(128 - FixedBits(p), 128 - FixedBits(q));
    }
  }

  lemma MixedApart(o: seq<Octet>, w: seq<Word>)
    requires |o| == 4 && |w| == 8 && ToNat(w, 16) == 0xffff * Pow2(32) + ToNat(o, 8)
    ensures IsMapped(w)
  {
    hide Pow2, ToNat;
    EmbedMapped(o);
    WordsBelow(w);
    WordsBelow(MappedWords(o));
    ToNatInjective(w, MappedWords(o), 16);
  }

  /** Fixed length, number and family-by-block determine a canonical network. */
  lemma EmbedInjective(a: Prefix, b: Prefix)
    requires !IsMappedNet(a) && !IsMappedNet(b)
    requires Embed(a.addr) == Embed(b.addr) && FixedBits(a) == FixedBits(b)
    ensures a == b
  {
    hide Pow2, ToNat;
    match (a.addr, b.addr)
    case (V4(o), V4(u)) =>
      OctetsBelow(o);
      OctetsBelow(u);
      ToNatInjective(o, u, 8);
    case (V6(w, _), V6(v, _)) =>
      WordsBelow(w);
      WordsBelow(v);
      ToNatInjective(w, v, 16);
    case (V4(o), V6(v, _)) => MixedApart(o, v);
    case (V6(w, _), V4(u)) => MixedApart(u, w);
  }

  /** Two prefixes denote the same addresses exactly when they have the same canonical network. */
  lemma SameSetCanonical(p: Prefix, q: Prefix)
    ensures SameSet(p, q) <==> Canonical(p) == Canonical(q)
  {
    hide ClearLow, Embed, Contains, Pow2, Canonical, SameSet, IsMappedNet;
    EmbedCanonical(p);
    EmbedCanonical(q);
    SameSetInterval(p, q);
    if SameSet(p, q) {
      EmbedInjective(Canonical(p), Canonical(q));
    }
  }

  // ---------------------------------------------------------------- net.IPNet values

  /** Ones, then zeros, over the whole mask. */
  ghost predicate Contiguous(mask: Bytes) {
    exists n: nat :: n <= 8 * |mask| && mask == CIDRMask(n, |mask|)
  }

  /** The lengths fit and the mask is contiguous where it covers the address. For an IPv4 or
      IPv4-mapped address only the last four of 16 mask bytes matter. */
  ghost predicate Fits(n: IPNet) {
    || (To4(n.ip).Some? && |n.mask| == 4 && Contiguous(n.mask))
    || (To4(n.ip).Some? && |n.mask| == 16 && Contiguous(n.mask[12..]))
    || (To4(n.ip).None? && |n.ip| == 16 && |n.mask| == 16 && Contiguous(n.mask))
  }

  /** No bit of the address is set where the mask has a zero. */
  ghost predicate HostBitsClear(n: IPNet)
    requires Fits(n)
  {
    match To4(n.ip)
    case Some(o) => AndBytes(o, if |n.mask| == 4 then n.mask else n.mask[12..]) == o
    case None => AndBytes(n.ip, n.mask) == n.ip
  }

  lemma NumberIsUnmapped(n: IPNet)
    ensures match NetworkNumberAndMask(n)
            case None => true
            case Some((ip, m)) =>
              && (|ip| == 4 || |ip| == 16) && !Is4In6(ToAddr(ip)) && !HasZone(ToAddr(ip))
              && 8 * |m| == BitLen(ToAddr(ip))
  {
    hide IsMapped, WordBytes, BytesWords;
    match NetworkNumberAndMask(n)
    case None =>
    case Some((ip, m)) =>
      if |ip| == 16 {
        BytesOfWords(ip);
        To4Words(BytesWords(ip));
      }
  }

  /** The network that a net.IPNet prints as, if it prints as one. */
  function CarriedNet(n: IPNet): Option<Prefix> {
    match NetworkNumberAndMask(n)
    case None => None
    case Some((ip, m)) =>
      NumberIsUnmapped(n);
      MaskLengthOnly(m);
      if MaskLength(m).Some? then Some(RawPrefix(ToAddr(ip), MaskLength(m).value)) else None
  }

  lemma CarriedText(n: IPNet)
    requires CarriedNet(n).Some?
    ensures NetString(n) == FormatPrefix(CarriedNet(n).value)
  {
  }

  lemma ContiguousLength(mask: Bytes)
    ensures Contiguous(mask) <==> MaskLength(mask).Some?
    ensures MaskLength(mask).Some? ==>
            MaskLength(mask).value <= 8 * |mask| && mask == CIDRMask(MaskLength(mask).value, |mask|)
  {
    hide CIDRMask, MaskLength;
    MaskLengthOnly(mask);
    if n: nat :| n <= 8 * |mask| && mask == CIDRMask(n, |mask|) {
      MaskLengthOf(n, |mask|);
    }
  }

  /** A net.IPNet carries a network exactly when it fits: the address of its bytes, and the length
      of the part of its mask that covers the address. */
  lemma CarriedExact(n: IPNet)
    ensures CarriedNet(n).Some? <==> Fits(n)
    ensures CarriedNet(n).Some? ==>
            var p := CarriedNet(n).value;
            && (|n.ip| == 4 || |n.ip| == 16) && p.addr == ToAddr(n.ip)
            && (To4(n.ip).Some? && |n.mask| == 4 ==> n.mask == CIDRMask(p.bits, 4))
            && (To4(n.ip).Some? && |n.mask| == 16 ==> n.mask[12..] == CIDRMask(p.bits, 4))
            && (To4(n.ip).None? ==> n.mask == CIDRMask(p.bits, 16))
  {
    hide MaskLength, CIDRMask, Contiguous, BytesWords, MappedHead;
    ContiguousLength(n.mask);
    if |n.mask| == 16 {
      ContiguousLength(n.mask[12..]);
    }
  }

  /** Masking an address of four or 16 bytes that is not IPv4-mapped is masking its bytes. */
  lemma MaskedBytes(ip: Bytes, l: nat)
    requires |ip| == 4 || (|ip| == 16 && To4(ip).None?)
    ensures MaskAddr(ToAddr(ip), l) == ToAddr(ip) <==> AndBytes(ip, CIDRMask(l, |ip|)) == ip
  {
    hide KeepBits, CIDRMask, AndBytes, WordBytes, BytesWords, MappedHead;
    AndCIDRMask(ip, l);
    if |ip| == 16 {
      var w := BytesWords(ip);
      BytesOfWords(ip);
      KeepWordBytes(w, l);
      WordsOfBytes(w);
      WordsOfBytes(KeepBits(w, 16, l));
    }
  }

  /** The network carried is masked exactly when no host bit is set. */
  lemma CarriedHostBits(n: IPNet)
    requires CarriedNet(n).Some?
    ensures Fits(n)
    ensures IsMappedNet(CarriedNet(n).value) == false
    ensures Masked(CarriedNet(n).value) == CarriedNet(n).value <==> HostBitsClear(n)
  {
    CarriedExact(n);
    NumberIsUnmapped(n);
    var (ip, m) := NetworkNumberAndMask(n).value;
    MaskLengthOnly(m);
    MaskedBytes(ip, MaskLength(m).value);
  }

  // ---------------------------------------------------------------- numbers, written out

  lemma WordsStep(w: seq<nat>, k: nat)
    requires 0 < k <= |w|
    ensures ToNat(w[..k], 16) == ToNat(w[..k - 1], 16) * 65536 + w[k - 1]
  {
    Pow2Values();
    assert w[..k][..k - 1] == w[..k - 1];
  }

  /** The number of eight words, first word highest. */
  lemma WordsNumber(w: seq<nat>)
    requires |w| == 8
    ensures ToNat(w, 16) ==
            ((((((w[0] * 65536 + w[1]) * 65536 + w[2]) * 65536 + w[3]) * 65536 + w[4]) * 65536 + w[5]) * 65536
             + w[6]) * 65536 + w[7]
  {
    Pow2Values();
    WordsStep(w, 8);
    WordsStep(w, 7);
    WordsStep(w, 6);
    WordsStep(w, 5);
    WordsStep(w, 4);
    WordsStep(w, 3);
    WordsStep(w, 2);
    WordsStep(w, 1);
    assert w[..0] == [] && w[..8] == w;
  }

  lemma EmptyNumber()
    ensures ToNat([], 8) == ToNat([], 16) == 0
  {
  }

  lemma PairNumber(o: seq<nat>)
    requires |o| == 2
    ensures ToNat(o, 8) == o[0] * 256 + o[1]
  {
    Pow2Values();
    assert o[..1][..0] == [];
    assert ToNat(o[..1], 8) == o[0];
  }

  /** Two bytes for each word, high byte first, make the same number. */
  lemma {:induction false} WordBytesNumber(w: seq<Word>)
    ensures ToNat(WordBytes(w), 8) == ToNat(w, 16)
  {
    hide Pow2, ToNat;
    if w == [] {
      assert WordBytes(w) == [];
      assert ToNat([], 8) == ToNat([], 16) == 0 by { EmptyNumber(); }
    } else {
      var k := |w| - 1;
      var init, o := w[..k], Octets(w[k]);
      BytePair(w, k);
      assert WordBytes(w) == WordBytes(init) + o;
      WordBytesNumber(init);
      ToNatSplit(WordBytes(init), o, 8);
      PairNumber(o);
      WordsStep(w, |w|);
      assert w[..|w|] == w;
      Pow2Values();
    }
  }

  lemma MappedHeadNumber()
    ensures ToNat(MappedHead(), 8) == 0xffff
  {
    var w: seq<Word> := [0, 0, 0, 0, 0, 0xffff];
    assert WordBytes(w) == MappedHead();
    WordBytesNumber(w);
    ToNatMappedHead();
  }

  /** The address of 16 bytes is the number that they write, and that of four bytes is the number
      behind ::ffff:0:0; it is IPv4 exactly when To4 gives its octets. */
  lemma BytesNumber(ip: Bytes)
    requires |ip| == 4 || |ip| == 16
    ensures Embed(ToAddr(ip)) == if |ip| == 16 then ToNat(ip, 8) else 0xffff * Pow2(32) + ToNat(ip, 8)
    ensures ToAddr(ip).V4? <==> |ip| == 4 || ip[..12] == MappedHead()
  {
    hide Pow2, ToNat, WordBytes, BytesWords, MappedHead;
    if |ip| == 16 {
      if ip[..12] == MappedHead() {
        assert ip == MappedHead() + ip[12..];
        ToNatSplit(MappedHead(), ip[12..], 8);
        MappedHeadNumber();
      } else {
        BytesOfWords(ip);
        WordBytesNumber(BytesWords(ip));
      }
    }
  }
}
