/** The quoted-word language of kernel arguments (models/kernel_argument.go). */
module KernelArgumentValue {
  import opened Wrappers
  import opened Regex

  predicate IsSpace(c: char) {
    c == ' ' || c == '\t' || c == '\n' || c == '\r'
  }

  const PLAIN := NoneOf({' ', '\t', '\n', '\r', '"'})
  const NOT_QUOTE := NoneOf({'"'})
  const QUOTED := Cat(Lit('"'), Cat(Star(NOT_QUOTE), Lit('"')))

  /** ^(?:(?:[^ \t\n\r"]+)|(?:"[^"]*"))+$ */
  const VALUE_PATTERN := Plus(Alt(Plus(PLAIN), QUOTED))

  // ---------------------------------------------------------------- the language, by counting

  /** The number of quotes among the first `k` characters. */
  function Quotes(s: string, k: nat): nat
    requires k <= |s|
  {
    if k == 0 then 0 else Quotes(s, k - 1) + if s[k - 1] == '"' then 1 else 0
  }

  /** Quotes pair up, and white space occurs only inside a pair. */
  ghost predicate Balanced(s: string) {
    && Quotes(s, |s|) % 2 == 0
    && forall i :: 0 <= i < |s| && IsSpace(s[i]) ==> Quotes(s, i) % 2 == 1
  }

  // ---------------------------------------------------------------- the language, by one pass

  /** One pass over the text; `inside` says whether an odd number of quotes was met. */
  predicate Scan(s: string, inside: bool) {
    if s == "" then !inside
    else if s[0] == '"' then Scan(s[1..], !inside)
    else (inside || !IsSpace(s[0])) && Scan(s[1..], inside)
  }

  lemma {:induction false} ScanCounts(s: string, k: nat)
    requires k <= |s|
    ensures Scan(s[k..], Quotes(s, k) % 2 == 1) <==>
            Quotes(s, |s|) % 2 == 0 && forall i :: k <= i < |s| && IsSpace(s[i]) ==> Quotes(s, i) % 2 == 1
    decreases |s| - k
  {
    if k < |s| {
      assert s[k..][1..] == s[k + 1..];
      ScanCounts(s, k + 1);
    }
  }

  /** The scanner decides the counting definition. */
  lemma ScanDecides(s: string)
    ensures Scan(s, false) <==> Balanced(s)
  {
    ScanCounts(s, 0);
    assert s[0..] == s;
  }

  // ---------------------------------------------------------------- the language, by the pattern

  lemma {:induction false} ScanPlain(p: string, rest: string, inside: bool)
    requires '"' !in p && (inside || forall i :: 0 <= i < |p| ==> !IsSpace(p[i]))
    ensures Scan(p + rest, inside) == Scan(rest, inside)
  {
    if p == "" {
      assert p + rest == rest;
    } else {
      assert (p + rest)[1..] == p[1..] + rest;
      ScanPlain(p[1..], rest, inside);
    }
  }

  lemma ScanQuoted(q: string, rest: string)
    requires '"' !in q
    ensures Scan("\"" + (q + ("\"" + rest)), false) == Scan(rest, false)
  {
    var after := "\"" + rest;
    var s := "\"" + (q + after);
    assert s[1..] == q + after && after[1..] == rest;
    assert Scan(s, false) == Scan(q + after, true);
    ScanPlain(q, after, true);
  }

  /** A piece of the pattern leaves the scanner where it was. */
  lemma ScanPiece(p: string, rest: string)
    requires Matches(Alt(Plus(PLAIN), QUOTED), p)
    ensures p != "" && Scan(p + rest, false) == Scan(rest, false)
  {
    hide Matches, Scan;
    AltMeaning(Plus(PLAIN), QUOTED, p);
    if Matches(Plus(PLAIN), p) {
      ClassRep(PLAIN, 1, None, p);
      ScanPlain(p, rest, false);
    } else {
      var open, y := CatElim(Lit('"'), Cat(Star(NOT_QUOTE), Lit('"')), p);
      var q, close := CatElim(Star(NOT_QUOTE), Lit('"'), y);
      LitMeaning('"', open);
      LitMeaning('"', close);
      ClassRep(NOT_QUOTE, 0, None, q);
      ScanQuoted(q, rest);
      assert p + rest == "\"" + (q + ("\"" + rest));
    }
  }

  lemma {:induction false} ScanPieces(parts: seq<string>)
    requires AllMatch(Alt(Plus(PLAIN), QUOTED), parts)
    ensures Scan(Flatten(parts), false) && (parts != [] ==> Flatten(parts) != "")
  {
    if parts != [] {
      ScanPiece(parts[0], Flatten(parts[1..]));
      ScanPieces(parts[1..]);
    }
  }

  /** An accepted scan inside quotes reaches the closing quote. */
  lemma {:induction false} ClosingQuote(s: string) returns (j: nat)
    requires Scan(s, true)
    ensures j < |s| && s[j] == '"' && '"' !in s[..j] && Scan(s[j + 1..], false)
  {
    if s[0] == '"' {
      j := 0;
    } else {
      j := ClosingQuote(s[1..]);
      j := j + 1;
      assert s[..j] == [s[0]] + s[1..][..j - 1];
      assert s[1..][j..] == s[j + 1..];
    }
  }

  lemma OnePlain(c: char)
    requires c != '"' && !IsSpace(c)
    ensures Matches(Alt(Plus(PLAIN), QUOTED), [c])
  {
    hide Matches;
    ClassRep(PLAIN, 1, None, [c]);
    AltMeaning(Plus(PLAIN), QUOTED, [c]);
  }

  lemma OneQuoted(q: string)
    requires '"' !in q
    ensures Matches(Alt(Plus(PLAIN), QUOTED), "\"" + (q + "\""))
  {
    hide Matches;
    LitMeaning('"', "\"");
    ClassRep(NOT_QUOTE, 0, None, q);
    CatIntro(Star(NOT_QUOTE), Lit('"'), q, "\"");
    CatIntro(Lit('"'), Cat(Star(NOT_QUOTE), Lit('"')), "\"", q + "\"");
    AltMeaning(Plus(PLAIN), QUOTED, "\"" + (q + "\""));
  }

  /** Any accepted scan can be cut back into the pattern's pieces. */
  lemma {:induction false} CutPieces(s: string) returns (parts: seq<string>)
    requires Scan(s, false)
    ensures AllMatch(Alt(Plus(PLAIN), QUOTED), parts) && Flatten(parts) == s && (s != "" ==> parts != [])
    decreases |s|
  {
    hide Matches;
    if s == "" {
      parts := [];
    } else if s[0] == '"' {
      var j := ClosingQuote(s[1..]);
      var q, rest := s[1..][..j], s[1..][j + 1..];
      var piece := "\"" + (q + "\"");
      OneQuoted(q);
      assert s == piece + rest;
      var more := CutPieces(rest);
      parts := [piece] + more;
      assert parts[1..] == more;
    } else {
      OnePlain(s[0]);
      var more := CutPieces(s[1..]);
      parts := [[s[0]]] + more;
      assert parts[1..] == more;
    }
  }

  /** The pattern accepts exactly the non-empty balanced texts. */
  lemma PatternIsBalanced(s: string)
    ensures Matches(VALUE_PATTERN, s) <==> s != "" && Balanced(s)
  {
    hide Matches;
    ScanDecides(s);
    if Matches(VALUE_PATTERN, s) {
      var parts := RepElim(Alt(Plus(PLAIN), QUOTED), 1, None, s);
      ScanPieces(parts);
    }
    if s != "" && Scan(s, false) {
      var parts := CutPieces(s);
      RepIntro(Alt(Plus(PLAIN), QUOTED), 1, None, parts);
    }
  }
}
