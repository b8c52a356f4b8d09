/** First-match search over sequences, the shape of Python's
    `next(x for x in xs if p(x))` and of a `for ... break` scan. */
module Seqs {
  import opened Wrappers

  /** The first index at or after `from` whose element satisfies `p`. */
  function FirstIndex<T>(xs: seq<T>, p: T -> bool, from: nat): (r: Option<nat>)
    requires from <= |xs|
    ensures r.Some? ==> from <= r.value < |xs| && p(xs[r.value])
    ensures forall j :: from <= j < (if r.Some? then r.value else |xs|) ==> !p(xs[j])
    decreases |xs| - from
  {
    if from == |xs| then None
    else if p(xs[from]) then Some(from)
    else FirstIndex(xs, p, from + 1)
  }

  /** A first match inside `xs` stays the first match when more elements follow. */
  lemma FirstIndexExtend<T>(xs: seq<T>, ys: seq<T>, p: T -> bool, from: nat)
    requires from <= |xs| && FirstIndex(xs, p, from).Some?
    ensures FirstIndex(xs + ys, p, from) == FirstIndex(xs, p, from)
  {
    var i := FirstIndex(xs, p, from).value;
    var r := FirstIndex(xs + ys, p, from);
    assert (xs + ys)[i] == xs[i];
  }
}
