/** Failure-carrying results shared by every module of the model. */
module Wrappers {

  /** An optional value: the model's stand-in for `std::optional` and for a
      lookup that may find nothing. */
  datatype Option<+T> = None | Some(value: T)

  /** A value or an error: the model's stand-in for a C++ function that
      either returns or throws. Usable with `:-`. */
  datatype Result<+T, +E> = Ok(value: T) | Err(error: E) {

    predicate IsFailure() {
      Err?
    }

    function PropagateFailure<U>(): Result<U, E>
      requires Err?
    {
      Err(error)
    }

    function Extract(): T
      requires Ok?
    {
      value
    }
  }

  /** `f` accepts every element. */
  predicate AllOk<X, T, E>(xs: seq<X>, f: X -> Result<T, E>)
  {
    forall i | 0 <= i < |xs| :: f(xs[i]).Ok?
  }

  /** Past its head, a run `f` accepts is still one. */
  lemma AllOkTail<X, T, E>(xs: seq<X>, f: X -> Result<T, E>)
    requires |xs| > 0 && AllOk(xs, f)
    ensures f(xs[0]).Ok? && AllOk(xs[1..], f)
  {
    assert forall i | 0 <= i < |xs| - 1 :: xs[1..][i] == xs[i + 1];
  }

  /** A concatenation is accepted iff both parts are. */
  lemma AllOkAppend<X, T, E>(a: seq<X>, b: seq<X>, f: X -> Result<T, E>)
    ensures AllOk(a + b, f) <==> AllOk(a, f) && AllOk(b, f)
  {
    assert forall i | 0 <= i < |a| :: (a + b)[i] == a[i];
    assert forall i | 0 <= i < |b| :: (a + b)[|a| + i] == b[i];
  }

  /** The index of the first element `f` fails on, or the length. */
  function FirstErr<X, T, E>(xs: seq<X>, f: X -> Result<T, E>): (n: nat)
    ensures n <= |xs|
    ensures n < |xs| ==> f(xs[n]).Err?
    ensures forall i | 0 <= i < n :: f(xs[i]).Ok?
    ensures n == |xs| <==> AllOk(xs, f)
  {
    if |xs| == 0 || f(xs[0]).Err? then 0
    else
      var n := FirstErr(xs[1..], f);
      assert forall i | 0 <= i < n :: xs[i + 1] == xs[1..][i];
      1 + n
  }

  /** Past an accepted head, the first failure is found in the tail. */
  lemma FirstErrCons<X, T, E>(xs: seq<X>, f: X -> Result<T, E>)
    requires |xs| > 0 && f(xs[0]).Ok?
    ensures FirstErr(xs, f) == 1 + FirstErr(xs[1..], f)
    ensures FirstErr(xs, f) < |xs| ==> xs[FirstErr(xs, f)] == xs[1..][FirstErr(xs[1..], f)]
  {
  }
}
