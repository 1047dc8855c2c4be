/** KernelArgument.Validate and the list loop of KernelArguments.Validate (models/kernel_argument.go,
    models/kernel_arguments.go). */
module KernelArguments {
  import opened Wrappers
  import opened Numerals
  import opened Validation
  import opened Reporting
  import opened KernelArgumentValue

  datatype KernelArgument = KernelArgument(operation: string, value: string)

  const OPERATIONS := ["append", "replace", "delete"]

  function ArgumentNode(a: KernelArgument): Node {
    Node([
      Leaf("operation", Optional(NonZero(a.operation), Enum(OPERATIONS))),
      Leaf("value", Optional(NonZero(a.value), KernelWords))])
  }

  ghost predicate GoodOperation(a: KernelArgument) {
    a.operation == "" || a.operation == "append" || a.operation == "replace" || a.operation == "delete"
  }

  ghost predicate GoodValue(a: KernelArgument) {
    Balanced(a.value)
  }

  /** An empty or listed operation, and an empty or quote-balanced value. */
  ghost predicate GoodArgument(a: KernelArgument) {
    GoodOperation(a) && GoodValue(a)
  }

  lemma EmptyBalanced()
    ensures Balanced("")
  {
  }

  lemma RulesExact(a: KernelArgument, formats: Formats)
    ensures RuleFault(Optional(NonZero(a.operation), Enum(OPERATIONS)), formats)
         == if GoodOperation(a) then None else Some(EnumFail)
    ensures RuleFault(Optional(NonZero(a.value), KernelWords), formats)
         == if GoodValue(a) then None else Some(PatternFail)
  {
    EmptyBalanced();
    ScanDecides(a.value);
  }

  lemma TwoErrors(x: Err, y: Err)
    ensures ReportsOf([x, y]) == Reports(x) + Reports(y) && ReportsOf([x]) == Reports(x)
  {
    assert [x, y][1..] == [y] && [y][1..] == [] && [x][1..] == [];
    assert ReportsOf([y]) == Reports(y) + ReportsOf([]);
  }

  /** One argument: what its Validate reports. */
  lemma ArgumentReports(a: KernelArgument, formats: Formats, m: string, t: Fault)
    ensures NodeError(ArgumentNode(a), formats).None? <==> GoodArgument(a)
    ensures Reported(NodeError(ArgumentNode(a), formats), m, t) <==>
            || (m == "operation" && t == EnumFail && !GoodOperation(a))
            || (m == "value" && t == PatternFail && !GoodValue(a))
  {
    RulesExact(a, formats);
    hide RuleFault, GoodOperation, GoodValue, OPERATIONS;
    var fs := ArgumentNode(a).fields;
    var o, v := FieldError(fs[0], formats), FieldError(fs[1], formats);
    assert fs[1..] == [fs[1]] && fs[1..][1..] == [];
    assert FieldErrors(fs[1..], formats) == if v.Some? then [v.value] else [];
    assert FieldErrors(fs, formats) == (if o.Some? then [o.value] else []) + FieldErrors(fs[1..], formats);
    assert o == if GoodOperation(a) then None else Some(Invalid("operation", EnumFail));
    assert v == if GoodValue(a) then None else Some(Invalid("value", PatternFail));
    hide FieldError, FieldErrors;
    var es := FieldErrors(fs, formats);
    if o.Some? && v.Some? {
      assert es == [o.value, v.value];
      TwoErrors(o.value, v.value);
    } else if o.Some? {
      assert es == [o.value];
      TwoErrors(o.value, o.value);
    } else if v.Some? {
      assert es == [v.value];
      TwoErrors(v.value, v.value);
    }
  }

  method ValidateArgument(a: KernelArgument, formats: Formats) returns (err: Option<Err>)
    ensures err.None? <==> GoodArgument(a)
    ensures err == NodeError(ArgumentNode(a), formats)
  {
    ArgumentReports(a, formats, "", EnumFail);
    err := Validate(ArgumentNode(a), formats);
  }

  ghost predicate FirstBadArgument(args: seq<Option<KernelArgument>>, k: nat) {
    && k < |args| && args[k].Some? && !GoodArgument(args[k].value)
    && forall j :: 0 <= j < k && args[j].Some? ==> GoodArgument(args[j].value)
  }

  /** Nil exactly when every non-nil element is good; otherwise the errors of the first bad
      element, with its index in front. */
  method ValidateArguments(args: seq<Option<KernelArgument>>, formats: Formats) returns (err: Option<Err>)
    ensures err.None? <==> forall i :: 0 <= i < |args| && args[i].Some? ==> GoodArgument(args[i].value)
    ensures forall k: nat :: FirstBadArgument(args, k) ==>
            err == Nested(FormatDec(k), NodeError(ArgumentNode(args[k].value), formats))
  {
    hide GoodArgument, NodeError, ArgumentNode;
    var i := 0;
    while i < |args|
      invariant 0 <= i <= |args|
      invariant forall j :: 0 <= j < i && args[j].Some? ==> GoodArgument(args[j].value)
    {
      if args[i].None? {
        i := i + 1;
        continue;
      }
      var e := ValidateArgument(args[i].value, formats);
      if e.Some? {
        assert FirstBadArgument(args, i);
        return Some(Rename(e.value, FormatDec(i)));
      }
      i := i + 1;
    }
    return None;
  }

  /** The names reported for a bad element at `k`: its index, and which of its two fields is bad. */
  lemma NamesOfArgument(a: KernelArgument, k: nat, formats: Formats, m: string, t: Fault)
    ensures Reported(Nested(FormatDec(k), NodeError(ArgumentNode(a), formats)), m, t) <==>
            || (m == FormatDec(k) + "." + "operation" && t == EnumFail && !GoodOperation(a))
            || (m == FormatDec(k) + "." + "value" && t == PatternFail && !GoodValue(a))
  {
    hide GoodOperation, GoodValue, NodeError, Reports, FormatDec, ArgumentNode;
    forall n: string
      ensures Reported(NodeError(ArgumentNode(a), formats), n, t) <==>
              || (n == "operation" && t == EnumFail && !GoodOperation(a))
              || (n == "value" && t == PatternFail && !GoodValue(a))
    {
      ArgumentReports(a, formats, n, t);
    }
    var e := NodeError(ArgumentNode(a), formats);
    if e.Some? {
      RenameReports(e.value, FormatDec(k), m, t);
      if m == FormatDec(k) + "." + "operation" && t == EnumFail && !GoodOperation(a) {
        assert Reported(e, "operation", t);
      }
      if m == FormatDec(k) + "." + "value" && t == PatternFail && !GoodValue(a) {
        assert Reported(e, "value", t);
      }
      if n :| (n, t) in Reports(e.value) && m == Prefixed(FormatDec(k), n) {
        assert Reported(e, n, t);
      }
    } else {
      assert !Reported(e, "operation", t) && !Reported(e, "value", t);
    }
  }
}
