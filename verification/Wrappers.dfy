/** The conventional option type, usable with `:-`, lists without repetition, and lookups that must all succeed. */
module Wrappers {

  datatype Option<+T> = None | Some(value: T) {

    predicate IsFailure() {
      None?
    }

    function PropagateFailure<U>(): Option<U>
      requires None?
    {
      None
    }

    function Extract(): T
      requires Some?
    {
      value
    }
  }

  predicate Distinct<T(==)>(s: seq<T>) {
    forall i, j | 0 <= i < j < |s| :: s[i] != s[j]
  }

  /** What the lookup finds for each number, if it finds something for every one. */
  function Traverse<T>(lookup: nat -> Option<T>, ids: seq<nat>): Option<seq<T>> {
    if ids == [] then Some([])
    else
      var found := Traverse(lookup, ids[..|ids| - 1]);
      var last := lookup(ids[|ids| - 1]);
      if found.None? || last.None? then None else Some(found.value + [last.value])
  }

  lemma {:induction false} TraverseAll<T>(lookup: nat -> Option<T>, ids: seq<nat>, values: seq<T>)
    requires |ids| == |values|
    requires forall i | 0 <= i < |ids| :: lookup(ids[i]) == Some(values[i])
    ensures Traverse(lookup, ids) == Some(values)
  {
    if ids != [] {
      var last := |ids| - 1;
      TraverseAll(lookup, ids[..last], values[..last]);
      assert values == values[..last] + [values[last]];
    }
  }
}
