/** Vector helpers that reuse a buffer by value (src/misc.rs). A `Vec` moved
    in and out is a sequence here. */
module Misc {

  /** `into_default`: truncate to length zero and hand the buffer back. */
  method IntoDefault<T>(v: seq<T>) returns (r: seq<T>)
    ensures r == []
  {
    r := v[..0];
  }

  /** `into_extend`: push every element of `source`, in order, onto `v`. */
  method IntoExtend<T>(v: seq<T>, source: seq<T>) returns (r: seq<T>)
    ensures |r| == |v| + |source|
    ensures r[..|v|] == v
    ensures forall i :: 0 <= i < |source| ==> r[|v| + i] == source[i]
  {
    r := v;
    var i := 0;
    while i < |source|
      invariant 0 <= i <= |source|
      invariant |r| == |v| + i
      invariant r[..|v|] == v
      invariant forall j :: 0 <= j < i ==> r[|v| + j] == source[j]
    {
      r := r + [source[i]];
      i := i + 1;
    }
  }
}
