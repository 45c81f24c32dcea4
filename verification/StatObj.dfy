/** The counter map of `StatCounters`. */
module StatObj {

  class StatCounters {
    /** Value of each counter and whether it changed since the last report. */
    var values: map<string, (int, bool)>

    constructor ()
      ensures values == map[]
    {
      values := map[];
    }

    /** A counter that was never added to reads as zero. */
    function Value(name: string): int
      reads this
    {
      if name in values then values[name].0 else 0
    }

    /** `values[name]` creates a missing entry; then the value grows and the entry is marked as changed. */
    method Add(name: string, value: int)
      modifies this
      ensures Value(name) == old(Value(name)) + value
      ensures name in values && values[name].1
      ensures values.Keys == old(values.Keys) + {name}
      ensures forall other :: other in old(values) && other != name ==> values[other] == old(values[other])
    {
      var v := if name in values then values[name] else (0, false);
      values := values[name := (v.0 + value, true)];
    }
  }
}
