/** The canonical printed form of an IPv6 address: section 4 of RFC 5952, with the dotted tail
    of its section 5 for IPv4-mapped addresses. */
module IPv6Print {
  import opened Wrappers
  import opened Numerals
  import opened Text
  import opened IPv4
  import opened IPv6

  // ---------------------------------------------------------------- the zero run

  datatype Run = Run(start: nat, end: nat)

  /** The end of the run of zero words that starts at `i`. */
  function ZeroEnd(ws: seq<Word>, i: nat): (j: nat)
    requires i <= |ws|
    ensures i <= j <= |ws|
    ensures forall k :: i <= k < j ==> ws[k] == 0
    ensures j < |ws| ==> ws[j] != 0
    decreases |ws| - i
  {
    if i < |ws| && ws[i] == 0 then ZeroEnd(ws, i + 1) else i
  }

  /** The printer's search: a run replaces the best one only if it is strictly longer. */
  function FindRun(ws: seq<Word>, i: nat, best: Run): Run
    requires i <= |ws| && best.start <= best.end
    decreases |ws| - i
  {
    if i == |ws| then best
    else
      var j := ZeroEnd(ws, i);
      FindRun(ws, i + 1, if j - i >= 2 && j - i > best.end - best.start then Run(i, j) else best)
  }

  const NO_RUN := Run(255, 255)

  function BestRun(ws: seq<Word>): Run {
    FindRun(ws, 0, NO_RUN)
  }

  ghost predicate ZeroRun(ws: seq<Word>, a: int, b: int) {
    0 <= a <= b <= |ws| && forall k :: a <= k < b ==> ws[k] == 0
  }

  /** `r` is at least two zero words, no run is longer, and no equally long run starts earlier. */
  ghost predicate LongestLeftmost(ws: seq<Word>, r: Run) {
    && ZeroRun(ws, r.start, r.end) && r.end - r.start >= 2
    && forall a, b | ZeroRun(ws, a, b) :: b - a <= r.end - r.start && (b - a == r.end - r.start ==> r.start <= a)
  }

  ghost predicate NoLongRun(ws: seq<Word>) {
    forall a, b | ZeroRun(ws, a, b) :: b - a < 2
  }

  ghost predicate BestBelow(ws: seq<Word>, i: nat, best: Run) {
    if best == NO_RUN then
      forall a, b | ZeroRun(ws, a, b) && a < i :: b - a < 2
    else
      && ZeroRun(ws, best.start, best.end) && best.end - best.start >= 2
      && forall a, b | ZeroRun(ws, a, b) && a < i ::
           b - a <= best.end - best.start && (b - a == best.end - best.start ==> best.start <= a)
  }

  lemma {:induction false} FindRunIsBest(ws: seq<Word>, i: nat, best: Run)
    requires |ws| == 8 && i <= |ws| && best.start <= best.end
    requires BestBelow(ws, i, best) && (best == NO_RUN || best.start < i)
    ensures BestBelow(ws, 8, FindRun(ws, i, best))
    decreases |ws| - i
  {
    if i < |ws| {
      var j := ZeroEnd(ws, i);
      var next := if j - i >= 2 && j - i > best.end - best.start then Run(i, j) else best;
      forall b | ZeroRun(ws, i, b)
        ensures b <= j
      {
      }
      FindRunIsBest(ws, i + 1, next);
    }
  }

  /** Sections 4.2.2 and 4.2.3 of RFC 5952: what "::" replaces. */
  lemma BestRunIsLongestLeftmost(ws: seq<Word>)
    requires |ws| == 8
    ensures if BestRun(ws) == NO_RUN then NoLongRun(ws) else LongestLeftmost(ws, BestRun(ws))
  {
    FindRunIsBest(ws, 0, NO_RUN);
    var r := BestRun(ws);
    assert BestBelow(ws, 8, r);
    forall a, b | ZeroRun(ws, a, b)
      ensures a < 8 || b - a == 0
    {
    }
  }

  // ---------------------------------------------------------------- the printer

  /** Groups in lower case without leading zeros, separated by colons. */
  function FormatGroups(ws: seq<Word>): string {
    if |ws| == 0 then ""
    else if |ws| == 1 then FormatHex(ws[0])
    else FormatHex(ws[0]) + ":" + FormatGroups(ws[1..])
  }

  function FormatWords(ws: seq<Word>): string
    requires |ws| == 8
  {
    BestRunIsLongestLeftmost(ws);
    var r := BestRun(ws);
    if r == NO_RUN then FormatGroups(ws)
    else FormatGroups(ws[..r.start]) + "::" + FormatGroups(ws[r.end..])
  }

  /** The IPv4-mapped block ::ffff:0:0/96. */
  predicate IsMapped(ws: seq<Word>)
    requires |ws| == 8
  {
    (forall i :: 0 <= i < 5 ==> ws[i] == 0) && ws[5] == 0xffff
  }

  function Octets(w: Word): (o: seq<Octet>)
    ensures |o| == 2 && Pack(o[0], o[1]) == w
  {
    [w / 256, w % 256]
  }

  /** The dotted quad of the last two words. */
  function LowQuad(ws: seq<Word>): (o: seq<Octet>)
    requires |ws| == 8
    ensures |o| == 4 && QuadWords(o) == ws[6..]
  {
    Octets(ws[6]) + Octets(ws[7])
  }

  function FormatV6(ws: seq<Word>): string
    requires |ws| == 8
  {
    if IsMapped(ws) then "::ffff:" + FormatV4(LowQuad(ws)) else FormatWords(ws)
  }

  // ---------------------------------------------------------------- printing is a spelling

  ghost function HexGroups(ws: seq<Word>): (gs: seq<string>)
    ensures |gs| == |ws|
  {
    if ws == [] then [] else [FormatHex(ws[0])] + HexGroups(ws[1..])
  }

  lemma {:induction false} HexGroupsTail(ws: seq<Word>)
    ensures var t := Tail(HexGroups(ws), None);
            t.Valid() && t.Text() == FormatGroups(ws) && t.Words() == ws
  {
    var t := Tail(HexGroups(ws), None);
    if ws != [] {
      HexGroupsTail(ws[1..]);
      FormatHexLength(ws[0]);
      FormatHexValue(ws[0]);
      var u := Tail(HexGroups(ws[1..]), None);
      assert t == Cons(FormatHex(ws[0]), u);
      assert ws == [ws[0]] + ws[1..];
    }
  }

  ghost predicate ShortGroups(gs: seq<string>) {
    forall i :: 0 <= i < |gs| ==> AllLowerHex(gs[i]) && NoLeadingZero(gs[i])
  }

  /** Section 4 of RFC 5952 as a property of a spelling: lower case, no leading zeros, and "::"
      exactly for the longest, leftmost run of two or more zero words. */
  ghost predicate Recommended(sp: Spelling)
    requires sp.Valid()
  {
    match sp
    case Full(t) => t.quad.None? && ShortGroups(t.groups) && NoLongRun(sp.Words())
    case Elided(l, r) =>
      TailWordCount(r);
      && r.quad.None? && ShortGroups(l) && ShortGroups(r.groups)
      && LongestLeftmost(sp.Words(), Run(|l|, 8 - |r.groups|))
  }

  lemma {:induction false} ShortGroupsText(gs: seq<string>)
    requires AllGroups(gs) && ShortGroups(gs)
    ensures gs == HexGroups(Tail(gs, None).Words())
  {
    if gs != [] {
      var t := Tail(gs, None);
      HexValueFormat(gs[0]);
      ShortGroupsText(gs[1..]);
      assert t.Words()[1..] == t.Rest().Words();
    }
  }

  lemma {:induction false} HexGroupsShort(ws: seq<Word>)
    ensures ShortGroups(HexGroups(ws))
  {
    if ws != [] {
      HexGroupsShort(ws[1..]);
      FormatHexValue(ws[0]);
    }
  }

  /** The spelling that FormatWords writes. */
  ghost function PrintedSpelling(ws: seq<Word>): Spelling
    requires |ws| == 8
  {
    BestRunIsLongestLeftmost(ws);
    var r := BestRun(ws);
    if r == NO_RUN then Full(Tail(HexGroups(ws), None))
    else Elided(HexGroups(ws[..r.start]), Tail(HexGroups(ws[r.end..]), None))
  }

  lemma FormatWordsSpelling(ws: seq<Word>)
    requires |ws| == 8
    ensures var sp := PrintedSpelling(ws);
            sp.Valid() && sp.Text() == FormatWords(ws) && sp.Words() == ws && Recommended(sp)
  {
    hide FindRun, HexGroups, FormatGroups, Tail.Text, Tail.Words;
    BestRunIsLongestLeftmost(ws);
    var r := BestRun(ws);
    if r == NO_RUN {
      HexGroupsTail(ws);
      HexGroupsShort(ws);
    } else {
      var left, right := ws[..r.start], ws[r.end..];
      HexGroupsTail(left);
      HexGroupsTail(right);
      HexGroupsShort(left);
      HexGroupsShort(right);
      assert ws == left + Zeros(8 - |left| - |right|) + right;
    }
  }

  /** The printer writes the one spelling that the recommendation allows. */
  lemma RecommendedIsPrinted(sp: Spelling)
    requires sp.Valid() && Recommended(sp)
    ensures sp.Text() == FormatWords(sp.Words())
  {
    hide FindRun, HexGroups, FormatGroups, Tail.Text, Tail.Words;
    var ws := sp.Words();
    BestRunIsLongestLeftmost(ws);
    var r := BestRun(ws);
    match sp
    case Full(t) =>
      ShortGroupsText(t.groups);
      assert r != NO_RUN ==> ZeroRun(ws, r.start, r.end);
      HexGroupsTail(ws);
    case Elided(left, right) =>
      GroupsWords(left);
      TailWordCount(right);
      var q := Run(|left|, 8 - |right.groups|);
      assert ZeroRun(ws, q.start, q.end);
      assert r != NO_RUN ==> ZeroRun(ws, r.start, r.end);
      assert r == q;
      ShortGroupsText(left);
      ShortGroupsText(right.groups);
      assert ws[..r.start] == Tail(left, None).Words() && ws[r.end..] == right.Words();
      HexGroupsTail(ws[..r.start]);
      HexGroupsTail(ws[r.end..]);
  }

  lemma MappedGroup()
    ensures IsGroup("ffff") && GroupValue("ffff") == 0xffff
  {
    assert "f"[..0] == "" && "ff"[..1] == "f" && "fff"[..2] == "ff" && "ffff"[..3] == "fff";
    assert HexValue("f") == 0xf;
    assert HexValue("ff") == 0xff;
    assert HexValue("fff") == 0xfff;
  }

  /** Printing a mapped address is a spelling too. */
  lemma FormatMappedSpelling(ws: seq<Word>)
    requires |ws| == 8 && IsMapped(ws)
    ensures var sp := Elided([], Tail(["ffff"], Some(LowQuad(ws))));
            sp.Valid() && sp.Text() == FormatV6(ws) && sp.Words() == ws
  {
    var o := LowQuad(ws);
    var quad, t := Tail([], Some(o)), Tail(["ffff"], Some(o));
    MappedGroup();
    assert t == Cons("ffff", quad);
    ConsText("ffff", quad);
    assert quad.Text() == FormatV4(o) && quad.Words() == ws[6..];
    hide Tail.Text, Tail.Words, FormatV4;
    assert ws == Zeros(5) + ([0xffff] + ws[6..]);
    assert Tail([], None).Text() == "" && Tail([], None).Words() == [] by { OneGroup("ffff"); }
    assert "" + "::" + ("ffff" + ":" + FormatV4(o)) == "::ffff:" + FormatV4(o);
    assert [] + Zeros(5) + t.Words() == Zeros(5) + t.Words();
  }

  /** Parsing undoes printing, over all 2^128 addresses. */
  lemma ParseFormatV6(ws: seq<Word>)
    requires |ws| == 8
    ensures ParseV6(FormatV6(ws)) == Some(ws)
  {
    hide ParseV6, FormatWords;
    if IsMapped(ws) {
      FormatMappedSpelling(ws);
      ParseComplete(Elided([], Tail(["ffff"], Some(LowQuad(ws)))));
    } else {
      FormatWordsSpelling(ws);
      ParseComplete(PrintedSpelling(ws));
    }
  }

  lemma {:induction false} GroupsHaveNoDot(ws: seq<Word>)
    ensures '.' !in FormatGroups(ws)
  {
    if |ws| > 1 {
      GroupsHaveNoDot(ws[1..]);
    }
  }

  /** The dotted form of a mapped address is not the one in hexadecimal. */
  lemma MappedPrintsApart(ws: seq<Word>)
    requires |ws| == 8 && IsMapped(ws)
    ensures FormatV6(ws) != FormatWords(ws)
  {
    var o := LowQuad(ws);
    assert FormatV4(o)[|FormatDec(o[0])|] == '.';
    var r := BestRun(ws);
    BestRunIsLongestLeftmost(ws);
    if r == NO_RUN {
      GroupsHaveNoDot(ws);
    } else {
      GroupsHaveNoDot(ws[..r.start]);
      GroupsHaveNoDot(ws[r.end..]);
    }
    hide FormatGroups, FormatV4, BestRun;
    assert '.' in FormatV6(ws) && '.' !in FormatWords(ws);
  }
}
