/** Regular expressions as a syntax tree, with matching of a whole string defined by recursion
    on the expression: the meaning of validate.Pattern on an anchored pattern. */
module Regex {
  import opened Wrappers

  datatype Regex =
    | Eps
    | OneOf(cs: set<char>)
    | NoneOf(cs: set<char>)
    | Cat(left: Regex, right: Regex)
    | Alt(left: Regex, right: Regex)
    | Rep(body: Regex, low: nat, high: Option<nat>)  // None: unbounded

  function Flatten(parts: seq<string>): string {
    if parts == [] then "" else parts[0] + Flatten(parts[1..])
  }

  ghost predicate InRange(n: nat, low: nat, high: Option<nat>) {
    low <= n && (high.Some? ==> n <= high.value)
  }

  ghost predicate Matches(r: Regex, s: string)
    decreases r
  {
    match r
    case Eps => s == ""
    case OneOf(cs) => |s| == 1 && s[0] in cs
    case NoneOf(cs) => |s| == 1 && s[0] !in cs
    case Cat(a, b) => exists i :: 0 <= i <= |s| && Matches(a, s[..i]) && Matches(b, s[i..])
    case Alt(a, b) => Matches(a, s) || Matches(b, s)
    case Rep(b, low, high) =>
      exists parts: seq<string> ::
        && InRange(|parts|, low, high) && Flatten(parts) == s
        && forall i :: 0 <= i < |parts| ==> Matches(b, parts[i])
  }

  /** Every part matches `r`. */
  ghost predicate AllMatch(r: Regex, parts: seq<string>) {
    forall i :: 0 <= i < |parts| ==> Matches(r, parts[i])
  }

  function Lit(c: char): Regex {
    OneOf({c})
  }

  function Opt(r: Regex): Regex {
    Rep(r, 0, Some(1))
  }

  function Times(r: Regex, n: nat): Regex {
    Rep(r, n, Some(n))
  }

  function Star(r: Regex): Regex {
    Rep(r, 0, None)
  }

  function Plus(r: Regex): Regex {
    Rep(r, 1, None)
  }

  // ---------------------------------------------------------------- introduction and elimination

  lemma CatIntro(a: Regex, b: Regex, x: string, y: string)
    requires Matches(a, x) && Matches(b, y)
    ensures Matches(Cat(a, b), x + y)
  {
    var s := x + y;
    assert s[..|x|] == x && s[|x|..] == y;
  }

  lemma CatElim(a: Regex, b: Regex, s: string) returns (x: string, y: string)
    requires Matches(Cat(a, b), s)
    ensures s == x + y && Matches(a, x) && Matches(b, y)
  {
    var i :| 0 <= i <= |s| && Matches(a, s[..i]) && Matches(b, s[i..]);
    x, y := s[..i], s[i..];
  }

  lemma AltMeaning(a: Regex, b: Regex, s: string)
    ensures Matches(Alt(a, b), s) <==> Matches(a, s) || Matches(b, s)
  {
  }

  lemma EpsMeaning(s: string)
    ensures Matches(Eps, s) <==> s == ""
  {
  }

  lemma RepIntro(r: Regex, low: nat, high: Option<nat>, parts: seq<string>)
    requires InRange(|parts|, low, high) && AllMatch(r, parts)
    ensures Matches(Rep(r, low, high), Flatten(parts))
  {
  }

  lemma RepElim(r: Regex, low: nat, high: Option<nat>, s: string) returns (parts: seq<string>)
    requires Matches(Rep(r, low, high), s)
    ensures InRange(|parts|, low, high) && AllMatch(r, parts) && s == Flatten(parts)
  {
    parts :| InRange(|parts|, low, high) && Flatten(parts) == s
             && forall i :: 0 <= i < |parts| ==> Matches(r, parts[i]);
  }

  lemma LitMeaning(c: char, s: string)
    ensures Matches(Lit(c), s) <==> s == [c]
  {
  }

  lemma OptMeaning(r: Regex, s: string)
    ensures Matches(Opt(r), s) <==> s == "" || Matches(r, s)
  {
    if s == "" {
      assert Flatten([]) == s;
    }
    if Matches(r, s) {
      assert Flatten([s]) == s + Flatten([]) == s;
      assert AllMatch(r, [s]);
      RepIntro(r, 0, Some(1), [s]);
    }
    if Matches(Opt(r), s) {
      var parts := RepElim(r, 0, Some(1), s);
      if parts != [] {
        assert Flatten(parts) == parts[0] + Flatten([]) == parts[0];
      }
    }
  }

  // ---------------------------------------------------------------- repeated classes

  ghost predicate InClass(r: Regex, c: char) {
    match r
    case OneOf(cs) => c in cs
    case NoneOf(cs) => c !in cs
    case _ => false
  }

  ghost predicate IsClass(r: Regex) {
    r.OneOf? || r.NoneOf?
  }

  ghost predicate AllIn(r: Regex, s: string) {
    forall i :: 0 <= i < |s| ==> InClass(r, s[i])
  }

  lemma {:induction false} FlattenSingles(r: Regex, parts: seq<string>)
    requires IsClass(r) && AllMatch(r, parts)
    ensures |Flatten(parts)| == |parts| && AllIn(r, Flatten(parts))
  {
    if parts != [] {
      FlattenSingles(r, parts[1..]);
    }
  }

  function Singles(s: string): seq<string> {
    seq(|s|, i requires 0 <= i < |s| => [s[i]])
  }

  lemma {:induction false} FlattenOfSingles(s: string)
    ensures Flatten(Singles(s)) == s
  {
    if s != "" {
      assert Singles(s)[1..] == Singles(s[1..]);
      FlattenOfSingles(s[1..]);
    }
  }

  /** A repeated class matches by length and alphabet. */
  lemma ClassRep(r: Regex, low: nat, high: Option<nat>, s: string)
    requires IsClass(r)
    ensures Matches(Rep(r, low, high), s) <==> InRange(|s|, low, high) && AllIn(r, s)
  {
    if Matches(Rep(r, low, high), s) {
      var parts := RepElim(r, low, high, s);
      FlattenSingles(r, parts);
    }
    if InRange(|s|, low, high) && AllIn(r, s) {
      FlattenOfSingles(s);
      assert AllMatch(r, Singles(s));
      RepIntro(r, low, high, Singles(s));
    }
  }

  lemma ClassOne(a: Regex, s: string)
    requires IsClass(a)
    ensures Matches(a, s) <==> |s| == 1 && InClass(a, s[0])
  {
  }

  lemma ClassCat(a: Regex, r: Regex, s: string)
    requires IsClass(a)
    ensures Matches(Cat(a, r), s) <==> s != "" && InClass(a, s[0]) && Matches(r, s[1..])
  {
  }

  // ---------------------------------------------------------------- letters every match contains

  /** Syntactically, every string matched contains `c`. */
  predicate Must(r: Regex, c: char) {
    match r
    case OneOf(cs) => cs == {c}
    case Cat(a, b) => Must(a, c) || Must(b, c)
    case Alt(a, b) => Must(a, c) && Must(b, c)
    case Rep(b, low, _) => low > 0 && Must(b, c)
    case _ => false
  }

  lemma {:induction false} MustContain(r: Regex, c: char, s: string)
    requires Must(r, c) && Matches(r, s)
    ensures c in s
    decreases r
  {
    match r
    case OneOf(cs) =>
    case Cat(a, b) =>
      var x, y := CatElim(a, b, s);
      if Must(a, c) {
        MustContain(a, c, x);
      } else {
        MustContain(b, c, y);
      }
    case Alt(a, b) =>
      if Matches(a, s) {
        MustContain(a, c, s);
      } else {
        MustContain(b, c, s);
      }
    case Rep(b, low, high) =>
      var parts := RepElim(b, low, high, s);
      MustContain(b, c, parts[0]);
  }
}
