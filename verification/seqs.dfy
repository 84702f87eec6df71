/** Order-preserving filtering: JavaScript's `Array.prototype.filter`. */
module Seqs {

  function Filter<T(==)>(xs: seq<T>, keep: T -> bool): (ys: seq<T>)
    ensures |ys| <= |xs|
    ensures forall i :: 0 <= i < |ys| ==> ys[i] in xs && keep(ys[i])
    ensures forall i :: 0 <= i < |xs| && keep(xs[i]) ==> xs[i] in ys
  {
    if xs == [] then []
    else
      var init := xs[..|xs| - 1];
      var last := xs[|xs| - 1];
      assert xs == init + [last];
      Filter(init, keep) + (if keep(last) then [last] else [])
  }

  /** Filtering works batch by batch, so the kept elements stay in their original order. */
  lemma {:induction false} FilterAppend<T>(a: seq<T>, b: seq<T>, keep: T -> bool)
    ensures Filter(a + b, keep) == Filter(a, keep) + Filter(b, keep)
    decreases |b|
  {
    if b == [] {
      assert a + b == a;
    } else {
      var init := b[..|b| - 1];
      assert (a + b)[..|a + b| - 1] == a + init;
      assert (a + b)[|a + b| - 1] == b[|b| - 1];
      FilterAppend(a, init, keep);
    }
  }

  /** Nothing is dropped when every element is kept. */
  lemma {:induction false} FilterKeepsAll<T>(xs: seq<T>, keep: T -> bool)
    requires forall i :: 0 <= i < |xs| ==> keep(xs[i])
    ensures Filter(xs, keep) == xs
  {
    if xs != [] {
      var init := xs[..|xs| - 1];
      assert forall i :: 0 <= i < |init| ==> init[i] == xs[i];
      FilterKeepsAll(init, keep);
      assert xs == init + [xs[|xs| - 1]];
    }
  }

  /** Filtering twice with the same test is filtering once. */
  lemma FilterIdempotent<T>(xs: seq<T>, keep: T -> bool)
    ensures Filter(Filter(xs, keep), keep) == Filter(xs, keep)
  {
    var ys := Filter(xs, keep);
    assert forall i :: 0 <= i < |ys| ==> ys[i] in ys;
    FilterKeepsAll(ys, keep);
  }
}
