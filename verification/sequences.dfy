/**
 * Positions in a sequence, shared by the interpolation proofs and the tally.
 */
module Sequences {

  /** The position of the first occurrence of v in xs. */
  function FirstIndex<T(==)>(xs: seq<T>, v: T): (p: nat)
    requires v in xs
    ensures p < |xs| && xs[p] == v && v !in xs[..p]
  {
    var init := xs[..|xs| - 1];
    if v in init then
      var p := FirstIndex(init, v);
      assert xs[..p] == init[..p];
      p
    else |xs| - 1
  }

  /** Appending to a sequence does not move a first occurrence. */
  lemma {:induction false} FirstIndexPrefix<T>(xs: seq<T>, ys: seq<T>, v: T)
    requires v in xs
    ensures FirstIndex(xs + ys, v) == FirstIndex(xs, v)
  {
    var p := FirstIndex(xs, v);
    assert (xs + ys)[p] == v;
  }
}
