/** The generated validators: a struct checks its fields in order and collects their errors, a
    list stops at its first bad element, and errors are renamed on the way up. */
module Validation {
  import opened Wrappers
  import opened Numerals
  import opened Regex
  import KernelArgumentValue
  import IPPattern
  import SubnetPattern

  // ---------------------------------------------------------------- errors

  datatype Fault = RequiredFail | InvalidType | EnumFail | PatternFail | MinFail | MaxFail | ShortFail

  /** errors.Validation and errors.CompositeError. */
  datatype Err = Invalid(name: string, fault: Fault) | Composite(errors: seq<Err>)

  function Prefixed(prefix: string, name: string): string {
    if prefix == "" then name else if name == "" then prefix else prefix + "." + name
  }

  /** ValidateName: renames one error, or every error of a composite. */
  function Rename(e: Err, prefix: string): Err {
    match e
    case Invalid(n, f) => Invalid(Prefixed(prefix, n), f)
    case Composite(es) => Composite(RenameAll(es, prefix))
  }

  function RenameAll(es: seq<Err>, prefix: string): seq<Err> {
    if es == [] then [] else [Rename(es[0], prefix)] + RenameAll(es[1..], prefix)
  }

  /** The faults reported, each with its full dotted name. */
  ghost function Reports(e: Err): set<(string, Fault)> {
    match e
    case Invalid(n, f) => {(n, f)}
    case Composite(es) => ReportsOf(es)
  }

  ghost function ReportsOf(es: seq<Err>): set<(string, Fault)> {
    if es == [] then {} else Reports(es[0]) + ReportsOf(es[1..])
  }

  ghost predicate Reported(e: Option<Err>, name: string, f: Fault) {
    e.Some? && (name, f) in Reports(e.value)
  }

  // ---------------------------------------------------------------- values and their rules

  /** Whether a text has a format, as the strfmt registry decides. */
  type Formats = (string, string) -> bool

  datatype Check =
    | Any
    | Format(format: string)
    | Enum(allowed: seq<string>)
    | MinLength(length: nat)
    | Address      // IP.Validate
    | Cidr         // Subnet.Validate, and the same pattern on a plain field
    | KernelWords  // the value of a kernel argument

  /** A scalar field with its rule. None is a nil pointer or a zero value. */
  datatype Rule =
    | Optional(value: Option<string>, check: Check)
    | Needed(value: Option<string>, check: Check)
    | Ranged(number: int, min: int, max: int)
    | Typed(value: Option<string>, check: Check)  // a type with a Validate of its own

  predicate GoodName(s: string) {
    s != "" && forall i :: 0 <= i < |s| ==> s[i] != '.'
  }

  /** The name of a field: not empty, and without dots. */
  type FieldName = s: string | GoodName(s) witness "x"

  datatype Node = Node(fields: seq<Field>)

  datatype Field =
    | Leaf(name: FieldName, rule: Rule)
    | Child(name: FieldName, required: bool, child: Option<Node>)
    | Items(name: FieldName, elems: seq<Option<Node>>)             // list of pointers, nil skipped
    | Scalars(name: FieldName, values: seq<string>, check: Check)  // list of values, all checked

  /** A string field: empty is the zero value and is skipped. */
  function NonZero(s: string): Option<string> {
    if s == "" then None else Some(s)
  }

  // ---------------------------------------------------------------- what the constraints ask for

  ghost predicate CheckHolds(c: Check, v: string, formats: Formats) {
    match c
    case Any => true
    case Format(f) => formats(f, v)
    case Enum(allowed) => v in allowed
    case MinLength(n) => |v| >= n
    case Address => IPPattern.ValidIP(v)
    case Cidr => SubnetPattern.ValidSubnet(v)
    case KernelWords => Matches(KernelArgumentValue.VALUE_PATTERN, v)
  }

  /** The value fails the check, and the check is of the kind that fails with `t`. */
  ghost predicate CheckFailsWith(c: Check, v: string, t: Fault, formats: Formats) {
    && !CheckHolds(c, v, formats)
    && match t
       case InvalidType => c.Format?
       case EnumFail => c.Enum?
       case ShortFail => c.MinLength?
       case PatternFail => c.Address? || c.Cidr? || c.KernelWords?
       case _ => false
  }

  /** The rule fails with `t`: a needed value is absent, a number is under or over its range, or a
      value that is there fails its check. */
  ghost predicate FailsWith(r: Rule, t: Fault, formats: Formats) {
    match r
    case Optional(v, c) => v.Some? && CheckFailsWith(c, v.value, t, formats)
    case Typed(v, c) => v.Some? && CheckFailsWith(c, v.value, t, formats)
    case Needed(v, c) => if v.None? then t == RequiredFail else CheckFailsWith(c, v.value, t, formats)
    case Ranged(n, min, max) => n != 0 && ((t == MinFail && n < min) || (t == MaxFail && min <= n && n > max))
  }

  ghost predicate RuleHolds(r: Rule, formats: Formats) {
    match r
    case Optional(v, c) => v.Some? ==> CheckHolds(c, v.value, formats)
    case Needed(v, c) => v.Some? && CheckHolds(c, v.value, formats)
    case Ranged(n, min, max) => n != 0 ==> min <= n <= max
    case Typed(v, c) => v.Some? ==> CheckHolds(c, v.value, formats)
  }

  /** Every constraint at every depth. */
  ghost predicate Holds(n: Node, formats: Formats) {
    forall k :: 0 <= k < |n.fields| ==> FieldHolds(n.fields[k], formats)
  }

  ghost predicate FieldHolds(f: Field, formats: Formats) {
    match f
    case Leaf(_, r) => RuleHolds(r, formats)
    case Child(_, required, c) => (required ==> c.Some?) && ChildHolds(c, formats)
    case Items(_, elems) => ItemsHold(elems, formats)
    case Scalars(_, values, c) => forall i :: 0 <= i < |values| ==> CheckHolds(c, values[i], formats)
  }

  /** Absent, or with every constraint of its own met. */
  ghost predicate ChildHolds(c: Option<Node>, formats: Formats) {
    c.Some? ==> Holds(c.value, formats)
  }

  ghost predicate ItemsHold(elems: seq<Option<Node>>, formats: Formats) {
    forall i :: 0 <= i < |elems| ==> ChildHolds(elems[i], formats)
  }

  // ---------------------------------------------------------------- the validators

  function CheckFault(c: Check, v: string, formats: Formats): Option<Fault> {
    match c
    case Any => None
    case Format(f) => if formats(f, v) then None else Some(InvalidType)
    case Enum(allowed) => if v in allowed then None else Some(EnumFail)
    case MinLength(n) => if |v| >= n then None else Some(ShortFail)
    case Address => if IPPattern.Decide(v) then None else Some(PatternFail)
    case Cidr => if SubnetPattern.Decide(v) then None else Some(PatternFail)
    case KernelWords => if v != "" && KernelArgumentValue.Scan(v, false) then None else Some(PatternFail)
  }

  /** The first check of a rule that fails. */
  function RuleFault(r: Rule, formats: Formats): Option<Fault> {
    match r
    case Optional(v, c) => if v.None? then None else CheckFault(c, v.value, formats)
    case Needed(v, c) => if v.None? then Some(RequiredFail) else CheckFault(c, v.value, formats)
    case Ranged(n, min, max) =>
      if n == 0 then None else if n < min then Some(MinFail) else if n > max then Some(MaxFail) else None
    case Typed(v, c) => if v.None? then None else CheckFault(c, v.value, formats)
  }

  function LeafError(name: string, r: Rule, formats: Formats): Option<Err> {
    match RuleFault(r, formats)
    case None => None
    case Some(f) => if r.Typed? then Some(Rename(Invalid("", f), name)) else Some(Invalid(name, f))
  }

  function Nested(name: string, e: Option<Err>): Option<Err> {
    match e
    case Some(x) => Some(Rename(x, name))
    case None => None
  }

  function NodeError(n: Node, formats: Formats): Option<Err> {
    var es := FieldErrors(n.fields, formats);
    if es == [] then None else Some(Composite(es))
  }

  function FieldErrors(fs: seq<Field>, formats: Formats): seq<Err> {
    if fs == [] then []
    else
      var e := FieldError(fs[0], formats);
      (if e.Some? then [e.value] else []) + FieldErrors(fs[1..], formats)
  }

  /** The error of the first bad value from `i` on, named by its index. */
  function ScalarsError(name: string, values: seq<string>, c: Check, formats: Formats, i: nat): Option<Err>
    requires i <= |values|
    decreases |values| - i
  {
    if i == |values| then None
    else
      match CheckFault(c, values[i], formats)
      case Some(f) => Some(Invalid(Prefixed(name, FormatDec(i)), f))
      case None => ScalarsError(name, values, c, formats, i + 1)
  }

  function FieldError(f: Field, formats: Formats): Option<Err> {
    match f
    case Leaf(name, r) => LeafError(name, r, formats)
    case Child(name, required, None) => if required then Some(Invalid(name, RequiredFail)) else None
    case Child(name, _, Some(c)) => Nested(name, NodeError(c, formats))
    case Items(_, _) => ItemsError(f, 0, formats)
    case Scalars(name, values, c) => ScalarsError(name, values, c, formats, 0)
  }

  /** The error of the first bad element from `i` on, named by its index. */
  function ItemsError(f: Field, i: nat, formats: Formats): Option<Err>
    requires f.Items? && i <= |f.elems|
    decreases f, |f.elems| - i
  {
    if i == |f.elems| then None
    else if f.elems[i].Some? && NodeError(f.elems[i].value, formats).Some? then
      Nested(Prefixed(f.name, FormatDec(i)), NodeError(f.elems[i].value, formats))
    else ItemsError(f, i + 1, formats)
  }

  // ---------------------------------------------------------------- the validators as they run

  /** A struct's Validate: one guarded append to `res` for each field, in order. */
  method Validate(n: Node, formats: Formats) returns (err: Option<Err>)
    ensures err == NodeError(n, formats)
    decreases n, 1
  {
    var res: seq<Err> := [];
    for i := 0 to |n.fields|
      invariant res + FieldErrors(n.fields[i..], formats) == FieldErrors(n.fields, formats)
    {
      var e := ValidateField(n.fields[i], formats);
      assert n.fields[i..][1..] == n.fields[i + 1..];
      if e.Some? {
        res := res + [e.value];
      }
    }
    assert n.fields[|n.fields|..] == [] && res + [] == res;
    if |res| > 0 {
      return Some(Composite(res));
    }
    return None;
  }

  /** A list of values: every element is checked, zero values too. */
  method ValidateScalars(name: string, values: seq<string>, c: Check, formats: Formats) returns (err: Option<Err>)
    ensures err == ScalarsError(name, values, c, formats, 0)
  {
    var i := 0;
    while i < |values|
      invariant 0 <= i <= |values|
      invariant ScalarsError(name, values, c, formats, i) == ScalarsError(name, values, c, formats, 0)
    {
      var f := CheckFault(c, values[i], formats);
      if f.Some? {
        return Some(Invalid(Prefixed(name, FormatDec(i)), f.value));
      }
      i := i + 1;
    }
    return None;
  }

  method ValidateField(f: Field, formats: Formats) returns (err: Option<Err>)
    ensures err == FieldError(f, formats)
    decreases f, 1
  {
    match f {
      case Leaf(name, r) => err := LeafError(name, r, formats);
      case Child(name, required, c) =>
        if c.None? {
          err := if required then Some(Invalid(name, RequiredFail)) else None;
        } else {
          err := Validate(c.value, formats);
          if err.Some? {
            err := Some(Rename(err.value, name));
          }
        }
      case Items(_, _) => err := ValidateItems(f, formats);
      case Scalars(name, values, c) => err := ValidateScalars(name, values, c, formats);
    }
  }

  /** A list validator: skip nil elements, return at the first bad one with its index in front. */
  method ValidateItems(f: Field, formats: Formats) returns (err: Option<Err>)
    requires f.Items?
    ensures err == ItemsError(f, 0, formats)
    decreases f, 0
  {
    var i := 0;
    while i < |f.elems|
      invariant 0 <= i <= |f.elems|
      invariant ItemsError(f, i, formats) == ItemsError(f, 0, formats)
    {
      if f.elems[i].None? {
        i := i + 1;
        continue;
      }
      var e := Validate(f.elems[i].value, formats);
      if e.Some? {
        return Some(Rename(e.value, Prefixed(f.name, FormatDec(i))));
      }
      i := i + 1;
    }
    return None;
  }
}
