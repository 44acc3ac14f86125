/** Linear search for the first element satisfying a predicate (Rust's `iter().find`). */
module Lists {
  import opened Wrappers

  /** `i` is the position of the first element of `xs` satisfying `p`. */
  ghost predicate IsFirst<T>(xs: seq<T>, p: T -> bool, i: int)
  {
    && 0 <= i < |xs|
    && p(xs[i])
    && forall j :: 0 <= j < i ==> !p(xs[j])
  }

  /** Position of the first element of `xs` satisfying `p`, scanning front to back. */
  function FindFirst<T>(xs: seq<T>, p: T -> bool): (r: Option<nat>)
    ensures r.None? <==> forall i :: 0 <= i < |xs| ==> !p(xs[i])
    ensures r.Some? ==> IsFirst(xs, p, r.value)
  {
    if |xs| == 0 then None
    else if p(xs[0]) then Some(0)
    else match FindFirst(xs[1..], p)
      case None => None
      case Some(i) => Some(i + 1)
  }
}
