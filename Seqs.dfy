/** Generic sequence operations: Python slicing and list comprehensions with a condition. */
module Seqs {
  import opened Wrappers

  /** Python's `s[:n]` for a non-negative `n`. */
  function Take<T>(s: seq<T>, n: nat): (r: seq<T>)
    ensures |r| == if |s| <= n then |s| else n
    ensures r == s[..|r|]
  {
    if |s| <= n then s else s[..n]
  }

  /** Keeps, in order, the values `f` produces for the elements it accepts. */
  function FilterMap<T, U>(s: seq<T>, f: T -> Option<U>): (r: seq<U>)
    ensures |r| <= |s|
  {
    if s == [] then []
    else
      var rest := FilterMap(s[..|s| - 1], f);
      match f(s[|s| - 1])
      case Some(y) => rest + [y]
      case None => rest
  }

  /**
   * The positions of `s` that FilterMap keeps: strictly increasing, each one
   * accepted by `f` and giving the corresponding output, and containing every
   * accepted position. It witnesses that FilterMap's output is an
   * order-preserving selection of the input.
   */
  function KeptAt<T, U>(s: seq<T>, f: T -> Option<U>): (ix: seq<nat>)
    ensures |ix| == |FilterMap(s, f)|
    ensures forall k :: 0 <= k < |ix| ==>
      ix[k] < |s| && f(s[ix[k]]) == Some(FilterMap(s, f)[k])
    ensures forall k, l :: 0 <= k < l < |ix| ==> ix[k] < ix[l]
    ensures forall i :: 0 <= i < |s| && f(s[i]).Some? ==> i in ix
  {
    if s == [] then []
    else
      var init := s[..|s| - 1];
      var rest := KeptAt(init, f);
      assert forall j :: 0 <= j < |init| ==> init[j] == s[j];
      if f(s[|s| - 1]).Some? then rest + [|s| - 1] else rest
  }
}
