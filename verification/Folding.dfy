/** Left folds over sequences, shared by the streaming algorithms. */
module Folding {

  function Fold<S, B>(step: (S, B) -> S, start: S, items: seq<B>): S
    decreases |items|
  {
    if items == [] then start else Fold(step, step(start, items[0]), items[1..])
  }

  /** Folding is continued, not restarted, by the items that follow. */
  lemma {:induction false} FoldConcat<S, B>(step: (S, B) -> S, start: S, a: seq<B>, b: seq<B>)
    ensures Fold(step, start, a + b) == Fold(step, Fold(step, start, a), b)
    decreases |a|
  {
    if a == [] {
      assert a + b == b;
    } else {
      assert (a + b)[1..] == a[1..] + b;
      FoldConcat(step, step(start, a[0]), a[1..], b);
    }
  }
}
