/** What each field of a struct reports, by name, and the order in which the reports stand. */
module FieldReporting {
  import opened Wrappers
  import opened Numerals
  import opened Validation
  import opened Reporting

  // ---------------------------------------------------------------- what each field reports

  /** A field reports the name `m` with fault `t`. */
  ghost predicate ReportedBy(f: Field, m: string, t: Fault, formats: Formats) {
    match f
    case Leaf(name, r) => m == name && FailsWith(r, t, formats)
    case Child(name, required, None) => m == name && required && t == RequiredFail
    case Child(name, _, Some(c)) => exists n :: Reported(NodeError(c, formats), n, t) && m == name + "." + n
    case Items(name, elems) =>
      exists i: nat, n ::
        && FirstBad(f, i, formats) && Reported(NodeError(elems[i].value, formats), n, t)
        && m == name + "." + FormatDec(i) + "." + n
    case Scalars(name, values, c) =>
      exists i: nat ::
        && FirstBadValue(values, c, i, formats) && CheckFailsWith(c, values[i], t, formats)
        && m == name + "." + FormatDec(i)
  }

  lemma ReportedNameIsNotEmpty(n: Node, m: string, t: Fault, formats: Formats)
    requires Reported(NodeError(n, formats), m, t)
    ensures m != ""
  {
    hide Visible, NodeError, Reports;
    ReportsVisible(n, m, t, formats);
    var p :| Visible(n, p, t, formats) && Dots(p) == m;
    VisibleIsGood(n, p, t, formats);
    if |p| > 1 {
      DotsHaveDot(p);
    }
  }

  lemma NestedNames(x: string, c: Node, m: string, t: Fault, formats: Formats)
    requires x != ""
    ensures Reported(Nested(x, NodeError(c, formats)), m, t) <==>
            exists n :: Reported(NodeError(c, formats), n, t) && m == x + "." + n
  {
    hide NodeError, Reports;
    var e := NodeError(c, formats);
    if e.Some? {
      RenameReports(e.value, x, m, t);
    }
    forall n | Reported(e, n, t)
      ensures n != ""
    {
      ReportedNameIsNotEmpty(c, n, t, formats);
    }
    if n :| e.Some? && (n, t) in Reports(e.value) && m == Prefixed(x, n) {
      assert Reported(e, n, t);
    }
  }

  lemma PrefixedText(x: string, n: string)
    requires x != "" && n != ""
    ensures Prefixed(x, n) == x + "." + n
  {
  }

  lemma ItemsNames(f: Field, m: string, t: Fault, formats: Formats)
    requires f.Items?
    ensures Reported(FieldError(f, formats), m, t) <==> ReportedBy(f, m, t, formats)
  {
    hide NodeError, Reports, Holds, Nested, FormatDec, Prefixed;
    ItemsExact(f, 0, formats);
    if i: nat :| FirstBad(f, i, formats) {
      var x := f.name + "." + FormatDec(i);
      assert Prefixed(f.name, FormatDec(i)) == x by { PrefixedText(f.name, FormatDec(i)); }
      NestedNames(x, f.elems[i].value, m, t, formats);
    } else {
      NoBadItem(f, formats);
    }
  }

  lemma ScalarsNames(f: Field, m: string, t: Fault, formats: Formats)
    requires f.Scalars?
    ensures Reported(FieldError(f, formats), m, t) <==> ReportedBy(f, m, t, formats)
  {
    hide CheckFault, CheckHolds, CheckFailsWith, FormatDec, Prefixed;
    ScalarsExact(f.name, f.values, f.check, formats, 0);
    if i: nat :| FirstBadValue(f.values, f.check, i, formats) {
      PrefixedText(f.name, FormatDec(i));
      CheckFaultExact(f.check, f.values[i], t, formats);
    } else {
      NoBadValue(f.values, f.check, formats);
    }
  }

  lemma ReportedByExact(f: Field, m: string, t: Fault, formats: Formats)
    ensures Reported(FieldError(f, formats), m, t) <==> ReportedBy(f, m, t, formats)
  {
    match f
    case Leaf(_, r) =>
      hide RuleFault, FailsWith;
      RuleFaultExact(r, t, formats);
    case Child(_, _, None) =>
    case Child(name, _, Some(c)) =>
      hide NodeError;
      NestedNames(name, c, m, t, formats);
    case Items(_, _) => ItemsNames(f, m, t, formats);
    case Scalars(_, _, _) => ScalarsNames(f, m, t, formats);
  }

  ghost predicate ReportedByAny(fs: seq<Field>, m: string, t: Fault, formats: Formats) {
    exists k :: 0 <= k < |fs| && ReportedBy(fs[k], m, t, formats)
  }

  /** A struct reports exactly what its fields report. */
  lemma NodeReportsFields(n: Node, m: string, t: Fault, formats: Formats)
    ensures Reported(NodeError(n, formats), m, t) <==> ReportedByAny(n.fields, m, t, formats)
  {
    hide FieldHasPath, ReportedBy, NodeError, FieldError, Reports, HasPath;
    ReportsVisible(n, m, t, formats);
    NodePaths(n, m, t, formats);
    forall f: Field
      ensures FieldHasPath(f, m, t, formats) <==> ReportedBy(f, m, t, formats)
    {
      FieldReports(f, m, t, formats);
      ReportedByExact(f, m, t, formats);
    }
  }

  // ---------------------------------------------------------------- the order of the reports

  /** The faults reported, in the order in which they stand. */
  ghost function ReportList(e: Err): seq<(string, Fault)> {
    match e
    case Invalid(n, f) => [(n, f)]
    case Composite(es) => ReportListOf(es)
  }

  ghost function ReportListOf(es: seq<Err>): seq<(string, Fault)> {
    if es == [] then [] else ReportList(es[0]) + ReportListOf(es[1..])
  }

  ghost function Listed(e: Option<Err>): seq<(string, Fault)> {
    if e.None? then [] else ReportList(e.value)
  }

  lemma {:induction false} ReportListSet(e: Err, x: (string, Fault))
    ensures x in ReportList(e) <==> x in Reports(e)
    decreases e
  {
    match e
    case Invalid(_, _) =>
    case Composite(es) => ReportListOfSet(es, x);
  }

  lemma {:induction false} ReportListOfSet(es: seq<Err>, x: (string, Fault))
    ensures x in ReportListOf(es) <==> x in ReportsOf(es)
    decreases es
  {
    if es != [] {
      ReportListSet(es[0], x);
      ReportListOfSet(es[1..], x);
    }
  }

  lemma {:induction false} ReportListAppend(a: seq<Err>, b: seq<Err>)
    ensures ReportListOf(a + b) == ReportListOf(a) + ReportListOf(b)
  {
    if a == [] {
      assert a + b == b;
    } else {
      assert (a + b)[1..] == a[1..] + b;
      ReportListAppend(a[1..], b);
    }
  }

  function AsList(e: Option<Err>): seq<Err> {
    if e.Some? then [e.value] else []
  }

  lemma FirstFieldError(fs: seq<Field>, formats: Formats)
    ensures fs == [] ==> FieldErrors(fs, formats) == []
    ensures fs != [] ==> FieldErrors(fs, formats) == AsList(FieldError(fs[0], formats)) + FieldErrors(fs[1..], formats)
  {
  }

  lemma Regroup<T>(x: seq<T>, y: seq<T>, z: seq<T>)
    ensures x + (y + z) == x + y + z
  {
  }

  lemma {:induction false} FieldErrorsAppend(a: seq<Field>, b: seq<Field>, formats: Formats)
    ensures FieldErrors(a + b, formats) == FieldErrors(a, formats) + FieldErrors(b, formats)
    decreases |a|
  {
    hide FieldError, FieldErrors;
    FirstFieldError(a, formats);
    FirstFieldError(a + b, formats);
    if a == [] {
      assert a + b == b;
      assert [] + FieldErrors(b, formats) == FieldErrors(b, formats);
    } else {
      assert (a + b)[1..] == a[1..] + b;
      FieldErrorsAppend(a[1..], b, formats);
      Regroup(AsList(FieldError(a[0], formats)), FieldErrors(a[1..], formats), FieldErrors(b, formats));
    }
  }

  lemma NodeListed(n: Node, formats: Formats)
    ensures Listed(NodeError(n, formats)) == ReportListOf(FieldErrors(n.fields, formats))
    ensures NodeError(n, formats).Some? ==> NodeError(n, formats).value.Composite?
  {
  }

  lemma OneField(f: Field, formats: Formats)
    ensures ReportListOf(FieldErrors([f], formats)) == Listed(FieldError(f, formats))
  {
    hide FieldError;
    var e := FieldError(f, formats);
    assert [f][1..] == [];
    if e.Some? {
      assert FieldErrors([f], formats) == [e.value];
      assert [e.value][1..] == [] && ReportListOf([]) == [];
    }
  }

  /** The reports of a struct stand in the order of its fields: those of earlier fields come first,
      and a field alone gives its own. The error of a struct is always a composite. */
  lemma ReportsFollowFields(a: seq<Field>, f: Field, b: seq<Field>, formats: Formats)
    ensures Listed(NodeError(Node(a + [f] + b), formats)) ==
            Listed(NodeError(Node(a), formats)) + Listed(FieldError(f, formats)) + Listed(NodeError(Node(b), formats))
    ensures forall n: Node :: NodeError(n, formats).Some? ==> NodeError(n, formats).value.Composite?
  {
    forall n: Node
      ensures Listed(NodeError(n, formats)) == ReportListOf(FieldErrors(n.fields, formats))
      ensures NodeError(n, formats).Some? ==> NodeError(n, formats).value.Composite?
    {
      NodeListed(n, formats);
    }
    FieldErrorsAppend(a + [f], b, formats);
    FieldErrorsAppend(a, [f], formats);
    var x, y, z := FieldErrors(a, formats), FieldErrors([f], formats), FieldErrors(b, formats);
    ReportListAppend(x + y, z);
    ReportListAppend(x, y);
    OneField(f, formats);
    hide NodeError, FieldErrors, FieldError, ReportListOf;
    assert Listed(NodeError(Node(a + [f] + b), formats)) == ReportListOf(x + y + z);
  }

  /** Every name of a list, with a prefix. */
  ghost function PrefixedList(x: string, l: seq<(string, Fault)>): (r: seq<(string, Fault)>)
    ensures |r| == |l|
  {
    seq(|l|, i requires 0 <= i < |l| => (Prefixed(x, l[i].0), l[i].1))
  }

  lemma PrefixedAppend(x: string, a: seq<(string, Fault)>, b: seq<(string, Fault)>)
    ensures PrefixedList(x, a + b) == PrefixedList(x, a) + PrefixedList(x, b)
  {
  }

  /** Renaming keeps the order. */
  lemma {:induction false} RenameKeepsOrder(e: Err, x: string)
    ensures ReportList(Rename(e, x)) == PrefixedList(x, ReportList(e))
    decreases e
  {
    match e
    case Invalid(_, _) =>
    case Composite(es) => RenameAllKeepsOrder(es, x);
  }

  lemma {:induction false} RenameAllKeepsOrder(es: seq<Err>, x: string)
    ensures ReportListOf(RenameAll(es, x)) == PrefixedList(x, ReportListOf(es))
    decreases es
  {
    if es != [] {
      hide Rename, Prefixed, ReportList, PrefixedList;
      RenameKeepsOrder(es[0], x);
      RenameAllKeepsOrder(es[1..], x);
      assert RenameAll(es, x)[1..] == RenameAll(es[1..], x);
      PrefixedAppend(x, ReportList(es[0]), ReportListOf(es[1..]));
    } else {
      assert PrefixedList(x, []) == [];
    }
  }
}
