/** The reduction protocol a rope serves: a folding function that may ask to
    stop early by wrapping its result (Clojure's `Reduced`). */
module Folding {

  /** What the folding function returns: carry on with a new accumulator, or
      stop and make this value the result of the whole reduction. */
  datatype Step<T> = Continue(value: T) | Stop(value: T)

  /** Folds f over xs from the left, starting from acc and halting at the
      first Stop; the result says whether the fold stopped early. */
  function Fold<E, T>(f: (T, E) -> Step<T>, acc: T, xs: seq<E>): Step<T>
    decreases |xs|
  {
    if xs == [] then Continue(acc)
    else
      match f(acc, xs[0])
      case Stop(v) => Stop(v)
      case Continue(v) => Fold(f, v, xs[1..])
  }

  /** The fold over a concatenation is the fold over the first part,
      continued over the second part unless the first part already stopped. */
  lemma {:induction false} FoldConcat<E, T>(f: (T, E) -> Step<T>, acc: T, xs: seq<E>, ys: seq<E>)
    ensures Fold(f, acc, xs + ys) ==
      match Fold(f, acc, xs)
      case Stop(v) => Stop(v)
      case Continue(v) => Fold(f, v, ys)
    decreases |xs|
  {
    if xs == [] {
      assert xs + ys == ys;
    } else {
      assert (xs + ys)[0] == xs[0];
      assert (xs + ys)[1..] == xs[1..] + ys;
      match f(acc, xs[0])
      case Stop(v) =>
      case Continue(v) => FoldConcat(f, v, xs[1..], ys);
    }
  }
}
