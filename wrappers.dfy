/** Optional values for the scripts' "nothing found" and "raised" outcomes. */
module Wrappers {

  datatype Option<+T> = None | Some(value: T)

  /** A list built element by element where any element may raise: the
      whole list when every element is present, `None` otherwise. */
  function AllSome<T>(xs: seq<Option<T>>): (r: Option<seq<T>>)
    ensures r.Some? <==> forall k :: 0 <= k < |xs| ==> xs[k].Some?
    ensures r.Some? ==> |r.value| == |xs| && forall k :: 0 <= k < |xs| ==> xs[k] == Some(r.value[k])
  {
    if xs == [] then Some([])
    else
      var front := AllSome(xs[..|xs| - 1]);
      assert forall k :: 0 <= k < |xs| - 1 ==> xs[..|xs| - 1][k] == xs[k];
      if front.Some? && xs[|xs| - 1].Some? then Some(front.value + [xs[|xs| - 1].value]) else None
  }

  /** The sequence `f(0), ..., f(n - 1)`. */
  function Tabulate<T>(f: int --> T, n: nat): (r: seq<T>)
    requires forall k :: 0 <= k < n ==> f.requires(k)
    ensures |r| == n
  {
    if n == 0 then [] else Tabulate(f, n - 1) + [f(n - 1)]
  }

  lemma {:induction false} TabulateAt<T>(f: int --> T, n: nat, idx: nat)
    requires forall k :: 0 <= k < n ==> f.requires(k)
    requires idx < n
    ensures Tabulate(f, n)[idx] == f(idx)
  {
    if idx < n - 1 {
      TabulateAt(f, n - 1, idx);
    }
  }
}
