/** Left folds. */
module Folding {
  function FoldLeft<S, T>(f: (S, T) -> S, init: S, xs: seq<T>): S
    decreases |xs|
  {
    if xs == [] then init else FoldLeft(f, f(init, xs[0]), xs[1..])
  }

  lemma {:induction false} FoldConcat<S, T>(f: (S, T) -> S, init: S, a: seq<T>, b: seq<T>)
    ensures FoldLeft(f, FoldLeft(f, init, a), b) == FoldLeft(f, init, a + b)
    decreases |a|
  {
    if a == [] {
      assert a + b == b;
    } else {
      FoldConcat(f, f(init, a[0]), a[1..], b);
      assert (a + b)[1..] == a[1..] + b;
    }
  }

  lemma FoldSnoc<S, T>(f: (S, T) -> S, init: S, xs: seq<T>, x: T)
    ensures FoldLeft(f, init, xs + [x]) == f(FoldLeft(f, init, xs), x)
  {
    FoldConcat(f, init, xs, [x]);
    assert [x][1..] == [];
  }
}
