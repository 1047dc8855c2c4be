/** IPv6 text without a zone: the one-pass scanner of net/netip, and the grammar of
    section 2.2 of RFC 4291 that it accepts. */
module IPv6 {
  import opened Wrappers
  import opened Numerals
  import opened Text
  import opened IPv4

  // ---------------------------------------------------------------- the scanner

  /** Words read so far and, if "::" was met, the position it stands at. */
  datatype Groups = Groups(words: seq<Word>, gap: Option<nat>)

  /** The number of hexadecimal digits at the head of `s`. */
  function HexRun(s: string): (n: nat)
    ensures n <= |s| && AllHex(s[..n])
    ensures n < |s| ==> !IsHex(s[n])
  {
    if s == "" || !IsHex(s[0]) then 0 else 1 + HexRun(s[1..])
  }

  function Pack(high: nat, low: nat): Word
    requires high < 256 && low < 256
  {
    high * 256 + low
  }

  /** The two words that an embedded dotted quad stands for. */
  function QuadWords(o: seq<Octet>): (w: seq<Word>)
    requires |o| == 4
    ensures |w| == 2
  {
    [Pack(o[0], o[1]), Pack(o[2], o[3])]
  }

  /** One turn of the scanner's loop reads one group, or a dotted quad that ends the text. */
  function ScanGroups(s: string, words: seq<Word>, gap: Option<nat>): (r: Option<Groups>)
    requires |words| <= 8
    ensures r.Some? ==> |r.value.words| <= 8
    decreases 8 - |words|
  {
    if |words| == 8 then
      if s == "" then Some(Groups(words, gap)) else None
    else
      var n := HexRun(s);
      if n == 0 || n > 4 then None
      else if n < |s| && s[n] == '.' then
        if gap.None? && |words| != 6 then None
        else if |words| + 2 > 8 then None
        else
          var quad := ParseV4(s);
          ParseV4Exact(s);
          if quad.None? then None else Some(Groups(words + QuadWords(quad.value), gap))
      else
        var more := words + [GroupValue(s[..n])];
        var rest := s[n..];
        if rest == "" then Some(Groups(more, gap))
        else if rest[0] != ':' || |rest| == 1 then None
        else if rest[1] != ':' then ScanGroups(rest[1..], more, gap)
        else if gap.Some? then None
        else if |rest| == 2 then Some(Groups(more, Some(|more|)))
        else ScanGroups(rest[2..], more, Some(|more|))
  }

  /** Fills the gap with zeros; "::" must stand for at least one group. */
  function Expand(g: Groups): Option<seq<Word>> {
    if |g.words| >= 8 then
      if g.gap.Some? then None else Some(g.words)
    else if g.gap.None? || g.gap.value > |g.words| then None
    else Some(g.words[..g.gap.value] + Zeros(8 - |g.words|) + g.words[g.gap.value..])
  }

  function ParseV6(s: string): Option<seq<Word>> {
    if "::" <= s then
      if |s| == 2 then Some(Zeros(8))
      else
        var g := ScanGroups(s[2..], [], Some(0));
        if g.None? then None else Expand(g.value)
    else
      var g := ScanGroups(s, [], None);
      if g.None? then None else Expand(g.value)
  }

  // ---------------------------------------------------------------- the grammar

  /** Colon-separated groups, perhaps ended by a dotted quad. */
  datatype Tail = Tail(groups: seq<string>, quad: Option<seq<Octet>>) {
    ghost predicate Valid() {
      (forall i :: 0 <= i < |groups| ==> IsGroup(groups[i])) && (quad.Some? ==> |quad.value| == 4)
    }

    ghost predicate Empty() {
      groups == [] && quad.None?
    }

    ghost function Rest(): Tail
      requires groups != []
    {
      Tail(groups[1..], quad)
    }

    ghost function Text(): string
      requires Valid()
      decreases |groups|
    {
      if groups == [] then
        if quad.None? then "" else FormatV4(quad.value)
      else if Rest().Empty() then groups[0]
      else groups[0] + ":" + Rest().Text()
    }

    ghost function Words(): seq<Word>
      requires Valid()
      decreases |groups|
    {
      if groups == [] then
        if quad.None? then [] else QuadWords(quad.value)
      else [GroupValue(groups[0])] + Rest().Words()
    }
  }

  ghost predicate AllGroups(gs: seq<string>) {
    Tail(gs, None).Valid()
  }

  lemma {:induction false} GroupsWords(gs: seq<string>)
    requires AllGroups(gs)
    ensures |Tail(gs, None).Words()| == |gs|
    decreases |gs|
  {
    if gs != [] {
      GroupsWords(gs[1..]);
    }
  }

  /** The two shapes of an address: all eight words, or "::" for at least one of them. */
  datatype Spelling = Full(tail: Tail) | Elided(left: seq<string>, right: Tail) {
    ghost predicate Valid() {
      match this
      case Full(t) => t.Valid() && |t.Words()| == 8
      case Elided(l, r) => AllGroups(l) && r.Valid() && |l| + |r.Words()| <= 7
    }

    ghost function Text(): string
      requires Valid()
    {
      match this
      case Full(t) => t.Text()
      case Elided(l, r) => Tail(l, None).Text() + "::" + r.Text()
    }

    ghost function Words(): (w: seq<Word>)
      requires Valid()
      ensures |w| == 8
    {
      match this
      case Full(t) => t.Words()
      case Elided(l, r) =>
        GroupsWords(l);
        Tail(l, None).Words() + Zeros(8 - |l| - |r.Words()|) + r.Words()
    }
  }

  lemma {:induction false} TailWordCount(t: Tail)
    requires t.Valid()
    ensures |t.Words()| == |t.groups| + (if t.quad.None? then 0 else 2)
    ensures t.Text() == "" <==> t.Empty()
    decreases |t.groups|
  {
    if t.groups != [] {
      TailWordCount(t.Rest());
    }
  }

  // ---------------------------------------------------------------- every spelling is read

  lemma {:induction false} HexRunOf(g: string, rest: string)
    requires AllHex(g) && (rest != "" ==> !IsHex(rest[0]))
    ensures HexRun(g + rest) == |g|
  {
    if g != "" {
      assert (g + rest)[1..] == g[1..] + rest;
      HexRunOf(g[1..], rest);
    } else {
      assert g + rest == rest;
    }
  }

  lemma TailStart(t: Tail)
    requires t.Valid() && !t.Empty()
    ensures t.Text() != "" && IsHex(t.Text()[0])
  {
  }

  lemma ScanLast(g: string, words: seq<Word>, gap: Option<nat>)
    requires IsGroup(g) && |words| < 8
    ensures ScanGroups(g, words, gap) == Some(Groups(words + [GroupValue(g)], gap))
  {
    HexRunOf(g, "");
    assert g + "" == g && g[..|g|] == g;
  }

  lemma ScanColon(g: string, rest: string, words: seq<Word>, gap: Option<nat>)
    requires IsGroup(g) && |words| < 8 && rest != "" && rest[0] != ':'
    ensures ScanGroups(g + ":" + rest, words, gap) == ScanGroups(rest, words + [GroupValue(g)], gap)
  {
    var s, tail := g + ":" + rest, ":" + rest;
    HexRunOf(g, tail);
    assert s == g + tail;
    assert s[..|g|] == g && s[|g|..] == tail && tail[1..] == rest;
  }

  lemma ScanGap(g: string, rest: string, words: seq<Word>)
    requires IsGroup(g) && |words| < 8
    ensures var more := words + [GroupValue(g)];
            ScanGroups(g + "::" + rest, words, None) ==
            if rest == "" then Some(Groups(more, Some(|more|))) else ScanGroups(rest, more, Some(|more|))
  {
    var s, tail := g + "::" + rest, "::" + rest;
    HexRunOf(g, tail);
    assert s == g + tail;
    assert s[..|g|] == g && s[|g|..] == tail && tail[2..] == rest;
  }

  lemma ScanQuad(o: seq<Octet>, words: seq<Word>, gap: Option<nat>)
    requires |o| == 4 && |words| <= 6 && (gap.Some? || |words| == 6)
    ensures ScanGroups(FormatV4(o), words, gap) == Some(Groups(words + QuadWords(o), gap))
  {
    var d, rest := FormatDec(o[0]), "." + Dotted(o[1..]);
    assert FormatV4(o) == d + rest;
    HexRunOf(d, rest);
    ShortDecimal(o[0]);
    ParseFormatV4(o);
  }

  lemma {:induction false} ScanTail(t: Tail, words: seq<Word>, gap: Option<nat>)
    requires t.Valid() && !t.Empty()
    requires |words| + |t.Words()| <= 8
    requires t.quad.Some? ==> gap.Some? || |words| + |t.groups| == 6
    ensures ScanGroups(t.Text(), words, gap) == Some(Groups(words + t.Words(), gap))
    decreases |t.groups|
  {
    TailWordCount(t);
    if t.groups == [] {
      ScanQuad(t.quad.value, words, gap);
    } else {
      var g, u := t.groups[0], t.Rest();
      var more := words + [GroupValue(g)];
      assert more + u.Words() == words + t.Words();
      if u.Empty() {
        ScanLast(g, words, gap);
        assert more + [] == more;
      } else {
        TailStart(u);
        ScanColon(g, u.Text(), words, gap);
        ScanTail(u, more, gap);
      }
    }
  }

  lemma {:induction false} ScanElided(left: seq<string>, right: Tail, words: seq<Word>)
    requires AllGroups(left) && left != [] && right.Valid()
    requires |words| + |left| + |right.Words()| <= 7
    ensures ScanGroups(Tail(left, None).Text() + "::" + right.Text(), words, None)
         == Some(Groups(words + Tail(left, None).Words() + right.Words(), Some(|words| + |left|)))
    decreases |left|
  {
    hide ScanGroups;
    var l := Tail(left, None);
    var g, u := left[0], l.Rest();
    var more := words + [GroupValue(g)];
    assert more + u.Words() == words + l.Words();
    if |left| == 1 {
      assert u.Words() == [] && l.Text() == g;
      ScanGap(g, right.Text(), words);
      TailWordCount(right);
      if right.Empty() {
        assert words + l.Words() + right.Words() == more;
      } else {
        ScanTail(right, more, Some(|more|));
        assert more == words + l.Words();
      }
    } else {
      var rest := u.Text() + "::" + right.Text();
      TailStart(u);
      ScanColon(g, rest, words, None);
      assert l.Text() + "::" + right.Text() == g + ":" + rest;
      ScanElided(left[1..], right, more);
    }
  }

  lemma ParseFull(t: Tail)
    requires t.Valid() && |t.Words()| == 8
    ensures ParseV6(t.Text()) == Some(t.Words())
  {
    hide ScanGroups;
    TailWordCount(t);
    TailStart(t);
    ScanTail(t, [], None);
    assert [] + t.Words() == t.Words();
  }

  lemma ParseLeadingGap(r: Tail)
    requires r.Valid() && |r.Words()| <= 7
    ensures ParseV6("::" + r.Text()) == Some(Zeros(8 - |r.Words()|) + r.Words())
  {
    hide ScanGroups;
    var s, words := "::" + r.Text(), r.Words();
    assert s[2..] == r.Text();
    TailWordCount(r);
    if r.Empty() {
      assert Zeros(8) + [] == Zeros(8);
    } else {
      ScanTail(r, [], Some(0));
      assert [] + words == words && words[..0] == [] && words[0..] == words;
      assert [] + Zeros(8 - |words|) == Zeros(8 - |words|);
    }
  }

  lemma ParseInnerGap(l: seq<string>, r: Tail)
    requires AllGroups(l) && l != [] && r.Valid() && |l| + |r.Words()| <= 7
    ensures ParseV6(Elided(l, r).Text()) == Some(Elided(l, r).Words())
  {
    hide ScanGroups, Tail.Text, Tail.Words;
    var lt := Tail(l, None);
    var s := Elided(l, r).Text();
    GroupsWords(l);
    TailStart(lt);
    assert s[0] == lt.Text()[0];
    ScanElided(l, r, []);
    var words := [] + lt.Words() + r.Words();
    assert [] + lt.Words() == lt.Words();
    assert words[..|l|] == lt.Words() && words[|l|..] == r.Words();
  }

  lemma ParseComplete(sp: Spelling)
    requires sp.Valid()
    ensures ParseV6(sp.Text()) == Some(sp.Words())
  {
    hide ScanGroups, ParseV6;
    match sp
    case Full(t) => ParseFull(t);
    case Elided(l, r) =>
      if l == [] {
        ParseLeadingGap(r);
        assert Tail([], None).Text() + "::" + r.Text() == "::" + r.Text();
        assert sp.Words() == Zeros(8 - |r.Words()|) + r.Words();
      } else {
        ParseInnerGap(l, r);
      }
  }

  // ---------------------------------------------------------------- nothing else is read

  /** What one turn of a successful scan can have read. */
  datatype Turn =
    | Quad(octets: seq<Octet>)
    | Last(g: string)
    | Colon(g: string, rest: string)
    | Gap(g: string, rest: string)

  ghost predicate Reads(turn: Turn, s: string) {
    match turn
    case Quad(o) => |o| == 4 && s == FormatV4(o)
    case Last(g) => IsGroup(g) && s == g
    case Colon(g, rest) => IsGroup(g) && rest != "" && rest[0] != ':' && s == g + ":" + rest
    case Gap(g, rest) => IsGroup(g) && s == g + "::" + rest
  }

  lemma ScanFull(s: string, words: seq<Word>, gap: Option<nat>)
    requires |words| == 8 && ScanGroups(s, words, gap).Some?
    ensures s == ""
  {
  }

  /** What must stand at the head of a successfully scanned text. */
  lemma ScanHead(s: string, words: seq<Word>, gap: Option<nat>)
    requires |words| < 8 && ScanGroups(s, words, gap).Some?
    ensures var n := HexRun(s);
            && IsGroup(s[..n])
            && (n < |s| && s[n] == '.' ==> ParseV4(s).Some? && |words| <= 6 && (gap.Some? || |words| == 6))
            && (n < |s| && s[n] != '.' ==>
                  var rest, more := s[n..], words + [GroupValue(s[..n])];
                  && rest[0] == ':' && |rest| > 1
                  && (rest[1] != ':' ==> ScanGroups(rest[1..], more, gap).Some?)
                  && (rest[1] == ':' ==> gap.None? && (|rest| > 2 ==> ScanGroups(rest[2..], more, Some(|more|)).Some?)))
  {
  }

  lemma ScanTurn(s: string, words: seq<Word>, gap: Option<nat>) returns (turn: Turn)
    requires |words| < 8 && ScanGroups(s, words, gap).Some?
    ensures Reads(turn, s)
    ensures turn.Quad? ==> |words| <= 6 && (gap.Some? || |words| == 6)
    ensures turn.Colon? ==> |words| < 7
    ensures turn.Gap? ==> gap.None? && (turn.rest != "" ==> |words| < 7)
  {
    hide ParseV4, FormatV4, GroupValue, ScanGroups, HexRun;
    ScanHead(s, words, gap);
    var n := HexRun(s);
    var g, rest := s[..n], s[n..];
    var more := words + [GroupValue(g)];
    if n < |s| && s[n] == '.' {
      ParseV4Exact(s);
      turn := Quad(ParseV4(s).value);
    } else if rest == "" {
      turn := Last(g);
    } else if rest[1] != ':' {
      turn := Colon(g, rest[1..]);
      assert s == g + ":" + rest[1..];
      if |more| == 8 {
        ScanFull(rest[1..], more, gap);
      }
    } else {
      turn := Gap(g, rest[2..]);
      assert s == g + "::" + rest[2..];
      if |more| == 8 && |rest| > 2 {
        ScanFull(rest[2..], more, Some(|more|));
      }
    }
  }

  lemma {:induction false} ScanKeepsGap(s: string, words: seq<Word>, gap: Option<nat>)
    requires |words| <= 8 && gap.Some? && ScanGroups(s, words, gap).Some?
    ensures ScanGroups(s, words, gap).value.gap == gap
    decreases 8 - |words|
  {
    if |words| < 8 {
      var turn := ScanTurn(s, words, gap);
      match turn
      case Quad(o) => ScanQuad(o, words, gap);
      case Last(g) => ScanLast(g, words, gap);
      case Colon(g, rest) =>
        ScanColon(g, rest, words, gap);
        ScanKeepsGap(rest, words + [GroupValue(g)], gap);
      case Gap(_, _) =>
    }
  }

  ghost function Cons(g: string, t: Tail): (u: Tail)
    requires IsGroup(g) && t.Valid()
    ensures u.Valid() && u.groups != [] && u.groups[0] == g && u.Rest() == t
  {
    Tail([g] + t.groups, t.quad)
  }

  lemma ConsText(g: string, t: Tail)
    requires IsGroup(g) && t.Valid()
    ensures Cons(g, t).Text() == if t.Empty() then g else g + ":" + t.Text()
    ensures Cons(g, t).Words() == [GroupValue(g)] + t.Words()
  {
  }

  lemma OneGroup(g: string)
    requires IsGroup(g)
    ensures AllGroups([g]) && Tail([g], None).Text() == g && Tail([g], None).Words() == [GroupValue(g)]
    ensures Tail([], None).Text() == "" && Tail([], None).Words() == []
  {
  }

  lemma Regroup<T>(a: seq<T>, x: T, b: seq<T>)
    ensures a + [x] + b == a + ([x] + b)
  {
  }

  /** A successful scan that does not move the gap has read exactly a tail. */
  lemma {:induction false} ScanSameGap(s: string, words: seq<Word>, gap: Option<nat>) returns (t: Tail)
    requires |words| < 8
    requires ScanGroups(s, words, gap).Some? && ScanGroups(s, words, gap).value.gap == gap
    ensures t.Valid() && s == t.Text() && !t.Empty()
    ensures ScanGroups(s, words, gap).value.words == words + t.Words()
    decreases 8 - |words|
  {
    hide ScanGroups;
    var turn := ScanTurn(s, words, gap);
    match turn
    case Quad(o) =>
      ScanQuad(o, words, gap);
      t := Tail([], Some(o));
    case Last(g) =>
      hide Tail.Text, Tail.Words;
      ScanLast(g, words, gap);
      OneGroup(g);
      t := Tail([g], None);
    case Colon(g, rest) =>
      hide Tail.Text, Tail.Words;
      ScanColon(g, rest, words, gap);
      var more := words + [GroupValue(g)];
      var u := ScanSameGap(rest, more, gap);
      t := Cons(g, u);
      ConsText(g, u);
      Regroup(words, GroupValue(g), u.Words());
    case Gap(g, rest) =>
      ScanGap(g, rest, words);
      if rest != "" {
        ScanKeepsGap(rest, words + [GroupValue(g)], Some(|words| + 1));
      }
      t := Tail([], None);
  }

  /** A successful scan that sets the gap has read groups, "::" and a tail. */
  lemma {:induction false} ScanSetsGap(s: string, words: seq<Word>)
    returns (left: seq<string>, right: Tail)
    requires |words| < 8
    requires ScanGroups(s, words, None).Some? && ScanGroups(s, words, None).value.gap.Some?
    ensures AllGroups(left) && left != [] && right.Valid()
    ensures s == Tail(left, None).Text() + "::" + right.Text()
    ensures ScanGroups(s, words, None).value
         == Groups(words + Tail(left, None).Words() + right.Words(), Some(|words| + |left|))
    decreases 8 - |words|
  {
    hide ScanGroups, Tail.Text, Tail.Words;
    left, right := [], Tail([], None);
    var turn := ScanTurn(s, words, None);
    match turn
    case Quad(o) => ScanQuad(o, words, None);
    case Last(g) => ScanLast(g, words, None);
    case Colon(g, rest) =>
      ScanColon(g, rest, words, None);
      var l, r := ScanSetsGap(rest, words + [GroupValue(g)]);
      var u := Tail(l, None);
      left, right := [g] + l, r;
      assert Tail(left, None) == Cons(g, u);
      ConsText(g, u);
      Regroup(words, GroupValue(g), u.Words());
      assert s == (g + ":" + u.Text()) + "::" + r.Text();
    case Gap(g, rest) =>
      ScanGap(g, rest, words);
      left := [g];
      OneGroup(g);
      var more := words + [GroupValue(g)];
      if rest == "" {
        assert more + [] == more;
      } else {
        ScanKeepsGap(rest, more, Some(|more|));
        right := ScanSameGap(rest, more, Some(|more|));
      }
  }

  lemma ParseSoundLeading(s: string) returns (sp: Spelling)
    requires ParseV6(s).Some? && "::" <= s
    ensures sp.Valid() && sp.Text() == s
  {
    hide ScanGroups;
    var r := Tail([], None);
    if |s| > 2 {
      ScanKeepsGap(s[2..], [], Some(0));
      r := ScanSameGap(s[2..], [], Some(0));
      assert [] + r.Words() == r.Words();
    }
    assert s == "::" + s[2..];
    sp := Elided([], r);
    assert sp.Text() == "" + "::" + s[2..];
  }

  lemma ParseSound(s: string) returns (sp: Spelling)
    requires ParseV6(s).Some?
    ensures sp.Valid() && sp.Text() == s && sp.Words() == ParseV6(s).value
  {
    hide ScanGroups, Tail.Words, Spelling.Words;
    if "::" <= s {
      sp := ParseSoundLeading(s);
    } else if ScanGroups(s, [], None).value.gap.None? {
      var t := ScanSameGap(s, [], None);
      assert [] + t.Words() == t.Words();
      sp := Full(t);
    } else {
      var l, r := ScanSetsGap(s, []);
      GroupsWords(l);
      sp := Elided(l, r);
    }
    ParseComplete(sp);
  }

  /** The scanner decides the grammar: it succeeds exactly on the spellings, with their words. */
  lemma ParseV6Grammar(s: string, ws: seq<Word>)
    ensures ParseV6(s) == Some(ws)
       <==> exists sp: Spelling :: sp.Valid() && sp.Text() == s && sp.Words() == ws
  {
    if ParseV6(s) == Some(ws) {
      var sp := ParseSound(s);
    }
    forall sp: Spelling | sp.Valid() && sp.Text() == s && sp.Words() == ws
      ensures ParseV6(s) == Some(ws)
    {
      ParseComplete(sp);
    }
  }
}
