/**
 * The hand-rolled `any` and `all` of checkbugs.py (written for Pythons older
 * than 2.6) and the generator expressions the status rule feeds them.
 */
module Iterables {

  /** Some element is true. */
  predicate AnyTrue(xs: seq<bool>) {
    exists i | 0 <= i < |xs| :: xs[i]
  }

  /** Every element is true. */
  predicate AllTrue(xs: seq<bool>) {
    forall i | 0 <= i < |xs| :: xs[i]
  }

  /** The generator expression `(p(x) for x in xs)`, as the sequence of values it yields. */
  function Flags<T>(xs: seq<T>, p: T -> bool): (r: seq<bool>)
    ensures |r| == |xs|
    ensures forall i | 0 <= i < |xs| :: r[i] == p(xs[i])
  {
    if xs == [] then [] else [p(xs[0])] + Flags(xs[1..], p)
  }

  /** `any(iterable)`: a loop that returns True at the first true element. */
  method Any(xs: seq<bool>) returns (r: bool)
    ensures r == AnyTrue(xs)
  {
    for i := 0 to |xs|
      invariant forall j | 0 <= j < i :: !xs[j]
    {
      if xs[i] {
        return true;
      }
    }
    return false;
  }

  /** `all(iterable)`: a loop that returns False at the first false element. */
  method All(xs: seq<bool>) returns (r: bool)
    ensures r == AllTrue(xs)
  {
    for i := 0 to |xs|
      invariant forall j | 0 <= j < i :: xs[j]
    {
      if !xs[i] {
        return false;
      }
    }
    return true;
  }

  /** On an empty iterable `any` is false and `all` is true. */
  lemma EmptyIterable()
    ensures !AnyTrue([]) && AllTrue([])
  {
  }
}
