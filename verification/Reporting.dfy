/** What the validators report: nothing exactly when every constraint holds, and otherwise exactly
    the dotted names that lead to a failing value past no earlier bad list element. */
module Reporting {
  import opened Wrappers
  import opened Numerals
  import opened Text
  import opened Validation
  import KernelArgumentValue
  import IPPattern
  import SubnetPattern

  // ---------------------------------------------------------------- nil exactly when all holds

  lemma CheckExact(c: Check, v: string, formats: Formats)
    ensures CheckFault(c, v, formats).None? <==> CheckHolds(c, v, formats)
  {
    match c
    case Address => IPPattern.ValidIPMeaning(v);
    case Cidr => SubnetPattern.DecideExact(v);
    case KernelWords =>
      KernelArgumentValue.PatternIsBalanced(v);
      KernelArgumentValue.ScanDecides(v);
    case _ =>
  }

  lemma RuleExact(r: Rule, formats: Formats)
    ensures RuleFault(r, formats).None? <==> RuleHolds(r, formats)
  {
    hide CheckFault, CheckHolds;
    match r
    case Optional(Some(v), c) => CheckExact(c, v, formats);
    case Needed(Some(v), c) => CheckExact(c, v, formats);
    case Typed(Some(v), c) => CheckExact(c, v, formats);
    case _ =>
  }

  lemma CheckFaultExact(c: Check, v: string, t: Fault, formats: Formats)
    ensures CheckFault(c, v, formats) == Some(t) <==> CheckFailsWith(c, v, t, formats)
  {
    hide IPPattern.Decide, IPPattern.ValidIP, SubnetPattern.Decide, SubnetPattern.ValidSubnet;
    CheckExact(c, v, formats);
  }

  /** The fault of a rule is of the kind that the failing value calls for. */
  lemma RuleFaultExact(r: Rule, t: Fault, formats: Formats)
    ensures RuleFault(r, formats) == Some(t) <==> FailsWith(r, t, formats)
  {
    hide CheckFault, CheckFailsWith;
    match r
    case Optional(Some(v), c) => CheckFaultExact(c, v, t, formats);
    case Needed(Some(v), c) => CheckFaultExact(c, v, t, formats);
    case Typed(Some(v), c) => CheckFaultExact(c, v, t, formats);
    case _ =>
  }

  lemma {:induction false} NodeExact(n: Node, formats: Formats)
    ensures NodeError(n, formats).None? <==> Holds(n, formats)
    decreases n
  {
    FieldsExact(n.fields, formats);
  }

  lemma {:induction false} FieldsExact(fs: seq<Field>, formats: Formats)
    ensures FieldErrors(fs, formats) == [] <==> forall k :: 0 <= k < |fs| ==> FieldHolds(fs[k], formats)
    decreases fs
  {
    hide FieldError, FieldHolds;
    if fs != [] {
      FieldExact(fs[0], formats);
      FieldsExact(fs[1..], formats);
      assert forall k :: 1 <= k < |fs| ==> fs[k] == fs[1..][k - 1];
      assert forall k :: 0 <= k < |fs| - 1 ==> fs[1..][k] == fs[k + 1];
    }
  }

  lemma ItemsMeaning(elems: seq<Option<Node>>, formats: Formats)
    ensures ItemsHold(elems, formats) <==>
            forall i :: 0 <= i < |elems| && elems[i].Some? ==> Holds(elems[i].value, formats)
  {
  }

  /** Value `i` is the first bad one. */
  ghost predicate FirstBadValue(values: seq<string>, c: Check, i: nat, formats: Formats) {
    && i < |values| && !CheckHolds(c, values[i], formats)
    && forall j :: 0 <= j < i ==> CheckHolds(c, values[j], formats)
  }

  lemma {:induction false} ScalarsExact(name: string, values: seq<string>, c: Check, formats: Formats, i: nat)
    requires i <= |values| && forall j :: 0 <= j < i ==> CheckHolds(c, values[j], formats)
    ensures ScalarsError(name, values, c, formats, i).None? <==>
            forall j :: 0 <= j < |values| ==> CheckHolds(c, values[j], formats)
    ensures forall k: nat :: FirstBadValue(values, c, k, formats) ==>
            var f := CheckFault(c, values[k], formats);
            f.Some? && ScalarsError(name, values, c, formats, i) == Some(Invalid(Prefixed(name, FormatDec(k)), f.value))
    decreases |values| - i
  {
    hide CheckFault, CheckHolds, Prefixed, FormatDec;
    if i < |values| {
      CheckExact(c, values[i], formats);
      if CheckHolds(c, values[i], formats) {
        ScalarsExact(name, values, c, formats, i + 1);
      }
    }
  }

  lemma {:induction false} FieldExact(f: Field, formats: Formats)
    ensures FieldError(f, formats).None? <==> FieldHolds(f, formats)
    decreases f
  {
    hide RuleFault, RuleHolds, NodeError, Holds;
    match f
    case Leaf(_, r) => RuleExact(r, formats);
    case Child(_, _, Some(c)) => NodeExact(c, formats);
    case Child(_, _, None) =>
    case Items(_, elems) =>
      ItemsExact(f, 0, formats);
      ItemsMeaning(elems, formats);
    case Scalars(name, values, c) => ScalarsExact(name, values, c, formats, 0);
  }

  /** Element `i` is the first bad one. */
  ghost predicate FirstBad(f: Field, i: nat, formats: Formats)
    requires f.Items?
  {
    && i < |f.elems| && f.elems[i].Some? && !Holds(f.elems[i].value, formats)
    && forall j :: 0 <= j < i && f.elems[j].Some? ==> Holds(f.elems[j].value, formats)
  }

  lemma {:induction false} ItemsExact(f: Field, i: nat, formats: Formats)
    requires f.Items? && i <= |f.elems|
    requires forall j :: 0 <= j < i && f.elems[j].Some? ==> Holds(f.elems[j].value, formats)
    ensures ItemsError(f, i, formats).None? <==>
            forall j :: 0 <= j < |f.elems| && f.elems[j].Some? ==> Holds(f.elems[j].value, formats)
    ensures forall k: nat :: FirstBad(f, k, formats) ==>
            ItemsError(f, i, formats) == Nested(Prefixed(f.name, FormatDec(k)), NodeError(f.elems[k].value, formats))
    decreases f, |f.elems| - i
  {
    hide NodeError, Holds;
    if i < |f.elems| {
      if f.elems[i].Some? {
        NodeExact(f.elems[i].value, formats);
      }
      if f.elems[i].None? || Holds(f.elems[i].value, formats) {
        ItemsExact(f, i + 1, formats);
      }
    }
  }

  // ---------------------------------------------------------------- renaming

  lemma {:induction false} RenameReports(e: Err, x: string, m: string, f: Fault)
    ensures (m, f) in Reports(Rename(e, x)) <==> exists n :: (n, f) in Reports(e) && m == Prefixed(x, n)
    decreases e
  {
    match e
    case Invalid(n, g) =>
      if f == g && m == Prefixed(x, n) {
        assert (n, f) in Reports(e);
      }
    case Composite(es) => RenameReportsOf(es, x, m, f);
  }

  lemma {:induction false} RenameReportsOf(es: seq<Err>, x: string, m: string, f: Fault)
    ensures (m, f) in ReportsOf(RenameAll(es, x)) <==> exists n :: (n, f) in ReportsOf(es) && m == Prefixed(x, n)
    decreases es
  {
    hide Rename, Reports, Prefixed;
    if es != [] {
      RenameReports(es[0], x, m, f);
      RenameReportsOf(es[1..], x, m, f);
      assert RenameAll(es, x)[1..] == RenameAll(es[1..], x);
    }
  }

  // ---------------------------------------------------------------- dotted names

  /** Name segments joined by dots. */
  ghost function Dots(p: seq<string>): string {
    if p == [] then "" else if |p| == 1 then p[0] else p[0] + "." + Dots(p[1..])
  }

  ghost predicate GoodPath(p: seq<string>) {
    p != [] && forall i :: 0 <= i < |p| ==> GoodName(p[i])
  }

  lemma DotsCons(s: string, p: seq<string>)
    requires GoodName(s) && GoodPath(p)
    ensures GoodPath([s] + p) && Dots(p) != "" && Dots([s] + p) == Prefixed(s, Dots(p))
  {
  }

  lemma DotsHaveDot(p: seq<string>)
    requires p != []
    ensures |p| > 1 ==> '.' in Dots(p)
    ensures |p| == 1 ==> Dots(p) == p[0]
  {
  }

  /** A dotted name has one path. */
  lemma {:induction false} DotsInjective(p: seq<string>, q: seq<string>)
    requires GoodPath(p) && GoodPath(q) && Dots(p) == Dots(q)
    ensures p == q
    decreases |p|
  {
    if |p| > 1 && |q| > 1 {
      CutUnique(p[0], Dots(p[1..]), q[0], Dots(q[1..]), '.');
      assert GoodPath(p[1..]) && GoodPath(q[1..]);
      DotsInjective(p[1..], q[1..]);
      assert p == [p[0]] + p[1..] && q == [q[0]] + q[1..];
    } else {
      DotsHaveDot(p);
      DotsHaveDot(q);
      assert p == [p[0]] && q == [q[0]];
    }
  }

  // ---------------------------------------------------------------- what is reported

  /** Following `p` from the node reaches a value that fails with fault `t`; at every list on the
      way the index is that of the first bad element. */
  ghost predicate Visible(n: Node, p: seq<string>, t: Fault, formats: Formats)
    decreases n
  {
    exists k :: 0 <= k < |n.fields| && VisibleField(n.fields[k], p, t, formats)
  }

  ghost predicate VisibleField(f: Field, p: seq<string>, t: Fault, formats: Formats)
    decreases f
  {
    && p != [] && p[0] == f.name
    && match f
       case Leaf(_, r) => |p| == 1 && FailsWith(r, t, formats)
       case Child(_, required, None) => |p| == 1 && required && t == RequiredFail
       case Child(_, _, Some(c)) => Visible(c, p[1..], t, formats)
       case Items(_, elems) =>
         && |p| > 1
         && exists i: nat ::
              FirstBad(f, i, formats) && p[1] == FormatDec(i) && Visible(elems[i].value, p[2..], t, formats)
       case Scalars(_, values, c) =>
         && |p| == 2
         && exists i: nat ::
              && FirstBadValue(values, c, i, formats) && p[1] == FormatDec(i)
              && CheckFailsWith(c, values[i], t, formats)
  }

  lemma IndexIsGood(i: nat)
    ensures GoodName(FormatDec(i))
  {
  }

  lemma {:induction false} VisibleIsGood(n: Node, p: seq<string>, t: Fault, formats: Formats)
    requires Visible(n, p, t, formats)
    ensures GoodPath(p)
    decreases n
  {
    var k :| 0 <= k < |n.fields| && VisibleField(n.fields[k], p, t, formats);
    VisibleFieldIsGood(n.fields[k], p, t, formats);
  }

  lemma {:induction false} VisibleFieldIsGood(f: Field, p: seq<string>, t: Fault, formats: Formats)
    requires VisibleField(f, p, t, formats)
    ensures GoodPath(p)
    decreases f
  {
    hide Holds, FailsWith, FormatDec;
    match f
    case Leaf(_, _) =>
    case Child(_, _, None) =>
    case Child(_, _, Some(c)) =>
      VisibleIsGood(c, p[1..], t, formats);
      assert p == [p[0]] + p[1..];
    case Items(_, elems) =>
      var i: nat :| FirstBad(f, i, formats) && p[1] == FormatDec(i) && Visible(elems[i].value, p[2..], t, formats);
      VisibleIsGood(elems[i].value, p[2..], t, formats);
      IndexIsGood(i);
      assert p == [p[0], p[1]] + p[2..];
    case Scalars(_, values, c) =>
      var i: nat :| FirstBadValue(values, c, i, formats) && p[1] == FormatDec(i);
      IndexIsGood(i);
      assert p == [p[0], p[1]];
  }

  ghost predicate HasPath(n: Node, m: string, t: Fault, formats: Formats) {
    exists p :: Visible(n, p, t, formats) && Dots(p) == m
  }

  ghost predicate FieldHasPath(f: Field, m: string, t: Fault, formats: Formats) {
    exists p :: VisibleField(f, p, t, formats) && Dots(p) == m
  }

  lemma NodeErrorReports(n: Node, m: string, t: Fault, formats: Formats)
    ensures Reported(NodeError(n, formats), m, t) <==> (m, t) in ReportsOf(FieldErrors(n.fields, formats))
  {
  }

  lemma NodePaths(n: Node, m: string, t: Fault, formats: Formats)
    ensures HasPath(n, m, t, formats) <==> exists k :: 0 <= k < |n.fields| && FieldHasPath(n.fields[k], m, t, formats)
  {
    hide VisibleField, Dots;
    if HasPath(n, m, t, formats) {
      var p :| Visible(n, p, t, formats) && Dots(p) == m;
      var k :| 0 <= k < |n.fields| && VisibleField(n.fields[k], p, t, formats);
      assert FieldHasPath(n.fields[k], m, t, formats);
    }
    if k :| 0 <= k < |n.fields| && FieldHasPath(n.fields[k], m, t, formats) {
      var p :| VisibleField(n.fields[k], p, t, formats) && Dots(p) == m;
      assert Visible(n, p, t, formats);
    }
  }

  /** The names reported are exactly the visible paths, for trees of any width and depth. */
  lemma {:induction false} ReportsVisible(n: Node, m: string, t: Fault, formats: Formats)
    ensures Reported(NodeError(n, formats), m, t) <==> HasPath(n, m, t, formats)
    decreases n, 0
  {
    FieldsReport(n.fields, m, t, formats);
    NodePaths(n, m, t, formats);
    hide FieldHasPath, HasPath, FieldErrors, ReportsOf;
    assert Reported(NodeError(n, formats), m, t) <==> (m, t) in ReportsOf(FieldErrors(n.fields, formats)) by {
      NodeErrorReports(n, m, t, formats);
    }
  }

  lemma {:induction false} FieldsReport(fs: seq<Field>, m: string, t: Fault, formats: Formats)
    ensures (m, t) in ReportsOf(FieldErrors(fs, formats))
       <==> exists k :: 0 <= k < |fs| && FieldHasPath(fs[k], m, t, formats)
    decreases fs
  {
    hide FieldHasPath, FieldError, Reports;
    if fs != [] {
      var e, more := FieldError(fs[0], formats), FieldErrors(fs[1..], formats);
      FieldReports(fs[0], m, t, formats);
      FieldsReport(fs[1..], m, t, formats);
      if e.Some? {
        assert ([e.value] + more)[1..] == more;
      } else {
        assert [] + more == more;
      }
      assert forall k :: 1 <= k < |fs| ==> fs[k] == fs[1..][k - 1];
      assert forall k :: 0 <= k < |fs| - 1 ==> fs[1..][k] == fs[k + 1];
    }
  }

  lemma LeafReports(f: Field, m: string, t: Fault, formats: Formats)
    requires f.Leaf?
    ensures Reported(FieldError(f, formats), m, t) <==> FieldHasPath(f, m, t, formats)
  {
    hide RuleFault, FailsWith;
    RuleFaultExact(f.rule, t, formats);
    assert Dots([f.name]) == f.name;
    if FailsWith(f.rule, t, formats) {
      assert VisibleField(f, [f.name], t, formats);
    }
  }

  lemma MissingReports(f: Field, m: string, t: Fault, formats: Formats)
    requires f.Child? && f.child.None?
    ensures Reported(FieldError(f, formats), m, t) <==> FieldHasPath(f, m, t, formats)
  {
    assert Dots([f.name]) == f.name;
    if f.required && t == RequiredFail {
      assert VisibleField(f, [f.name], t, formats);
    }
  }

  lemma ChildPaths(f: Field, m: string, t: Fault, formats: Formats)
    requires f.Child? && f.child.Some?
    ensures FieldHasPath(f, m, t, formats) <==>
            exists q :: Visible(f.child.value, q, t, formats) && m == Prefixed(f.name, Dots(q))
  {
    hide Visible, Prefixed, Dots;
    var c, name: string := f.child.value, f.name;
    if FieldHasPath(f, m, t, formats) {
      var p :| VisibleField(f, p, t, formats) && Dots(p) == m;
      var q := p[1..];
      VisibleIsGood(c, q, t, formats);
      DotsCons(name, q);
      assert [name] + q == p;
      assert Visible(c, q, t, formats) && m == Prefixed(f.name, Dots(q));
    }
    if q :| Visible(c, q, t, formats) && m == Prefixed(f.name, Dots(q)) {
      VisibleIsGood(c, q, t, formats);
      DotsCons(name, q);
      var p := [name] + q;
      assert p[1..] == q;
      assert VisibleField(f, p, t, formats);
    }
  }

  lemma ValuePath(name: string, i: nat)
    requires GoodName(name)
    ensures Prefixed(name, FormatDec(i)) == Dots([name, FormatDec(i)])
  {
  }

  lemma NoBadValue(values: seq<string>, c: Check, formats: Formats)
    requires forall i: nat :: !FirstBadValue(values, c, i, formats)
    ensures forall i :: 0 <= i < |values| ==> CheckHolds(c, values[i], formats)
  {
    hide CheckHolds;
    var i := 0;
    while i < |values|
      invariant 0 <= i <= |values|
      invariant forall j :: 0 <= j < i ==> CheckHolds(c, values[j], formats)
    {
      assert !FirstBadValue(values, c, i, formats);
      i := i + 1;
    }
  }

  lemma FirstBadValueUnique(values: seq<string>, c: Check, i: nat, j: nat, formats: Formats)
    requires FirstBadValue(values, c, i, formats) && FirstBadValue(values, c, j, formats)
    ensures i == j
  {
    hide CheckHolds;
  }

  /** The path of the first bad value is the only one that a list of values shows. */
  lemma ValueVisible(f: Field, i: nat, q: seq<string>, t: Fault, formats: Formats)
    requires f.Scalars? && FirstBadValue(f.values, f.check, i, formats)
    ensures VisibleField(f, q, t, formats) <==>
            q == [f.name, FormatDec(i)] && CheckFailsWith(f.check, f.values[i], t, formats)
  {
    hide FormatDec, CheckFailsWith, CheckHolds;
    if VisibleField(f, q, t, formats) {
      var j: nat :| FirstBadValue(f.values, f.check, j, formats) && q[1] == FormatDec(j)
                    && CheckFailsWith(f.check, f.values[j], t, formats);
      FirstBadValueUnique(f.values, f.check, i, j, formats);
      assert q == [q[0], q[1]];
    }
  }

  lemma NoneVisible(f: Field, t: Fault, formats: Formats)
    requires f.Scalars? && forall i: nat :: !FirstBadValue(f.values, f.check, i, formats)
    ensures forall q :: !VisibleField(f, q, t, formats)
  {
  }

  lemma ScalarsReport(f: Field, m: string, t: Fault, formats: Formats)
    requires f.Scalars?
    ensures Reported(FieldError(f, formats), m, t) <==> FieldHasPath(f, m, t, formats)
  {
    hide FormatDec, CheckFault, CheckHolds, CheckFailsWith, VisibleField;
    ScalarsExact(f.name, f.values, f.check, formats, 0);
    if i: nat :| FirstBadValue(f.values, f.check, i, formats) {
      ValuePath(f.name, i);
      CheckFaultExact(f.check, f.values[i], t, formats);
      forall q
        ensures VisibleField(f, q, t, formats) <==>
                q == [f.name, FormatDec(i)] && CheckFailsWith(f.check, f.values[i], t, formats)
      {
        ValueVisible(f, i, q, t, formats);
      }
    } else {
      NoBadValue(f.values, f.check, formats);
      assert forall q :: !VisibleField(f, q, t, formats) by { NoneVisible(f, t, formats); }
    }
  }

  lemma {:induction false} FieldReports(f: Field, m: string, t: Fault, formats: Formats)
    ensures Reported(FieldError(f, formats), m, t) <==> FieldHasPath(f, m, t, formats)
    decreases f
  {
    match f
    case Leaf(name, r) => LeafReports(f, m, t, formats);
    case Child(name, required, None) => MissingReports(f, m, t, formats);
    case Child(name, required, Some(c)) =>
      NestedReports(name, c, m, t, formats);
      ChildPaths(f, m, t, formats);
    case Items(name, elems) => ItemsReport(f, m, t, formats);
    case Scalars(name, values, c) => ScalarsReport(f, m, t, formats);
  }

  /** A child's reports under a prefix are its paths under that prefix. */
  lemma {:induction false} NestedReports(x: string, c: Node, m: string, t: Fault, formats: Formats)
    ensures Reported(Nested(x, NodeError(c, formats)), m, t) <==>
            exists q :: Visible(c, q, t, formats) && m == Prefixed(x, Dots(q))
    decreases c, 1
  {
    hide Visible, Prefixed, Dots, NodeError, Reports;
    var e := NodeError(c, formats);
    if e.Some? {
      RenameReports(e.value, x, m, t);
    }
    if q :| Visible(c, q, t, formats) && m == Prefixed(x, Dots(q)) {
      assert HasPath(c, Dots(q), t, formats);
      ReportsVisible(c, Dots(q), t, formats);
    }
    if Reported(Nested(x, e), m, t) {
      var n :| (n, t) in Reports(e.value) && m == Prefixed(x, n);
      ReportsVisible(c, n, t, formats);
      assert HasPath(c, n, t, formats);
      var q :| Visible(c, q, t, formats) && Dots(q) == n;
      assert Visible(c, q, t, formats) && m == Prefixed(x, Dots(q));
    }
  }

  lemma {:induction false} NoBadItem(f: Field, formats: Formats)
    requires f.Items? && forall i: nat :: !FirstBad(f, i, formats)
    ensures forall i :: 0 <= i < |f.elems| && f.elems[i].Some? ==> Holds(f.elems[i].value, formats)
  {
    hide Holds;
    var i := 0;
    while i < |f.elems|
      invariant 0 <= i <= |f.elems|
      invariant forall j :: 0 <= j < i && f.elems[j].Some? ==> Holds(f.elems[j].value, formats)
    {
      assert !FirstBad(f, i, formats);
      i := i + 1;
    }
  }

  lemma TwoSegments(name: string, i: nat, q: seq<string>)
    requires GoodName(name) && GoodPath(q)
    ensures Dots([name, FormatDec(i)] + q) == Prefixed(Prefixed(name, FormatDec(i)), Dots(q))
  {
  }

  lemma ItemPaths(f: Field, i: nat, m: string, t: Fault, formats: Formats)
    requires f.Items? && FirstBad(f, i, formats)
    ensures FieldHasPath(f, m, t, formats) <==>
            exists q ::
              Visible(f.elems[i].value, q, t, formats) && m == Prefixed(Prefixed(f.name, FormatDec(i)), Dots(q))
  {
    hide Visible, Dots, Holds, FormatDec, Prefixed;
    var c := f.elems[i].value;
    if FieldHasPath(f, m, t, formats) {
      var p :| VisibleField(f, p, t, formats) && Dots(p) == m;
      var j: nat :| FirstBad(f, j, formats) && p[1] == FormatDec(j) && Visible(f.elems[j].value, p[2..], t, formats);
      assert i == j;
      VisibleIsGood(c, p[2..], t, formats);
      TwoSegments(f.name, i, p[2..]);
      assert p == [f.name, FormatDec(i)] + p[2..];
    }
    if q :| Visible(c, q, t, formats) && m == Prefixed(Prefixed(f.name, FormatDec(i)), Dots(q)) {
      VisibleIsGood(c, q, t, formats);
      TwoSegments(f.name, i, q);
      var p := [f.name, FormatDec(i)] + q;
      assert p[2..] == q && p[1] == FormatDec(i);
      assert VisibleField(f, p, t, formats);
    }
  }

  lemma {:induction false} ItemsReport(f: Field, m: string, t: Fault, formats: Formats)
    requires f.Items?
    ensures Reported(FieldError(f, formats), m, t) <==> FieldHasPath(f, m, t, formats)
    decreases f, 0
  {
    hide Visible, Prefixed, Dots, Holds, NodeError, Reports, Nested, FormatDec;
    ItemsExact(f, 0, formats);
    if i: nat :| FirstBad(f, i, formats) {
      var c := f.elems[i].value;
      NestedReports(Prefixed(f.name, FormatDec(i)), c, m, t, formats);
      ItemPaths(f, i, m, t, formats);
    } else {
      NoBadItem(f, formats);
    }
  }

  /** A path is reported under its dotted name exactly when it is visible. */
  lemma PathReported(n: Node, p: seq<string>, t: Fault, formats: Formats)
    requires GoodPath(p)
    ensures Reported(NodeError(n, formats), Dots(p), t) <==> Visible(n, p, t, formats)
  {
    hide Visible, NodeError, Reports;
    ReportsVisible(n, Dots(p), t, formats);
    if HasPath(n, Dots(p), t, formats) {
      var q :| Visible(n, q, t, formats) && Dots(q) == Dots(p);
      VisibleIsGood(n, q, t, formats);
      DotsInjective(p, q);
    }
    if Visible(n, p, t, formats) {
      assert HasPath(n, Dots(p), t, formats);
    }
  }
}
