/** Runs of scans over one stored text. */
module Runs {
  import opened Driver

  /** The text stored by one scan, from the text before it and the value scanned. */
  type Step = (string, DriverValue) -> string

  /** The text after scanning a list of values in order. */
  function After(step: Step, start: string, vs: seq<DriverValue>): string {
    if vs == [] then start else step(After(step, start, vs[..|vs| - 1]), vs[|vs| - 1])
  }

  /** `ok` holds before the run and after every step of it. */
  ghost predicate Always(step: Step, ok: string -> bool, start: string, vs: seq<DriverValue>) {
    forall i :: 0 <= i <= |vs| ==> ok(After(step, start, vs[..i]))
  }

  ghost predicate All(good: DriverValue -> bool, vs: seq<DriverValue>) {
    forall i :: 0 <= i < |vs| ==> good(vs[i])
  }

  /** One step keeps `ok` exactly for good values. */
  ghost predicate KeptExactly(step: Step, ok: string -> bool, good: DriverValue -> bool) {
    forall old_: string, v: DriverValue :: ok(old_) ==> (ok(step(old_, v)) <==> good(v))
  }

  lemma AlwaysSnoc(step: Step, ok: string -> bool, start: string, vs: seq<DriverValue>)
    requires vs != []
    ensures Always(step, ok, start, vs) <==> Always(step, ok, start, vs[..|vs| - 1]) && ok(After(step, start, vs))
    ensures Always(step, ok, start, vs[..|vs| - 1]) ==> ok(After(step, start, vs[..|vs| - 1]))
  {
    hide After;
    var k := |vs| - 1;
    var init := vs[..k];
    assert forall i :: 0 <= i <= k ==> vs[..i] == init[..i];
    assert vs[..k + 1] == vs && init[..k] == init;
  }

  /** What one step keeps exactly for good values, a run keeps at every step exactly when all its
      values are good. */
  lemma {:induction false} RunKeeps(
      step: Step, ok: string -> bool, good: DriverValue -> bool, start: string, vs: seq<DriverValue>)
    requires ok(start) && KeptExactly(step, ok, good)
    ensures Always(step, ok, start, vs) <==> All(good, vs)
    decreases |vs|
  {
    if vs == [] {
      assert forall i :: 0 <= i <= |vs| ==> vs[..i] == [];
    } else {
      var init, last := vs[..|vs| - 1], vs[|vs| - 1];
      RunKeeps(step, ok, good, start, init);
      AlwaysSnoc(step, ok, start, vs);
      hide Always;
      assert All(good, vs) <==> All(good, init) && good(last);
    }
  }
}
