/** Searching and joining strings. */
module Text {

  /** strings.Index for one character; the length when it is absent. */
  function IndexOf(s: string, c: char): (i: nat)
    ensures i <= |s| && forall j :: 0 <= j < i ==> s[j] != c
    ensures i < |s| ==> s[i] == c
  {
    if s == "" || s[0] == c then 0 else 1 + IndexOf(s[1..], c)
  }

  /** strings.LastIndex for one character, plus one; zero when it is absent. */
  function AfterLast(s: string, c: char): (i: nat)
    ensures i <= |s| && forall j :: i <= j < |s| ==> s[j] != c
    ensures i > 0 ==> s[i - 1] == c
  {
    if s == "" then 0
    else if s[|s| - 1] == c then |s|
    else
      var i := AfterLast(s[..|s| - 1], c);
      assert s[i..] == s[..|s| - 1][i..] + [s[|s| - 1]];
      i
  }

  lemma IndexUnique(s: string, c: char, i: nat)
    requires i <= |s| && c !in s[..i]
    requires i < |s| ==> s[i] == c
    ensures IndexOf(s, c) == i
  {
  }

  lemma AfterLastUnique(s: string, c: char, i: nat)
    requires i <= |s| && c !in s[i..]
    requires i > 0 ==> s[i - 1] == c
    ensures AfterLast(s, c) == i
  {
  }

  /** A text is cut in one way at its only separator. */
  lemma CutUnique(x: string, u: string, y: string, v: string, c: char)
    requires c !in x && c !in y && x + [c] + u == y + [c] + v
    ensures x == y && u == v
  {
    var s, t := x + [c] + u, y + [c] + v;
    IndexUnique(s, c, |x|);
    IndexUnique(t, c, |y|);
    assert s[..|x|] == x && t[..|y|] == y && s[|x| + 1..] == u && t[|y| + 1..] == v;
  }

  lemma Shift(p: string, s: string)
    requires s != ""
    ensures p + s == p + [s[0]] + s[1..]
  {
  }

  function Zeros(n: nat): (z: seq<nat>)
    ensures |z| == n && forall i :: 0 <= i < n ==> z[i] == 0
  {
    seq(n, _ => 0)
  }
}
