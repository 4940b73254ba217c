/** Option and a first-success search, the two shapes the watermarking
    pipeline uses for "try these in order, the first that works wins". */
module Wrappers {

  /** A value that may be absent: the model's counterpart of a Python
      function that returns either a result or `None`. */
  datatype Option<+T> = None | Some(value: T) {

    /** The carried value when there is one, otherwise the fallback given. */
    function GetOr(default: T): (r: T)
      ensures Some? ==> r == value
      ensures None? ==> r == default
    {
      match this
      case Some(v) => v
      case None => default
    }
  }

  /** Tries `f` on each element of `xs` in order and returns the first result
      that is Some; None when every attempt fails.  This is the shape of a
      Python `for` loop whose body `return`s on success and `continue`s on
      failure. */
  function FirstSome<T, U>(xs: seq<T>, f: T -> Option<U>): (r: Option<U>)
    ensures r.None? <==> forall i :: 0 <= i < |xs| ==> f(xs[i]).None?
    ensures r.Some? ==>
      exists i :: 0 <= i < |xs| && f(xs[i]) == r &&
        forall j :: 0 <= j < i ==> f(xs[j]).None?
  {
    if |xs| == 0 then None
    else if f(xs[0]).Some? then f(xs[0])
    else
      var rest := FirstSome(xs[1..], f);
      assert forall i :: 1 <= i < |xs| ==> xs[i] == xs[1..][i - 1];
      rest
  }

  /** The first success is the one at the first index where `f` succeeds:
      whatever comes after it is never consulted. */
  lemma {:induction false} FirstSomeAt<T, U>(xs: seq<T>, f: T -> Option<U>, i: nat)
    requires i < |xs| && f(xs[i]).Some?
    requires forall j :: 0 <= j < i ==> f(xs[j]).None?
    ensures FirstSome(xs, f) == f(xs[i])
  {
    if i > 0 {
      assert f(xs[0]).None?;
      assert xs[1..][i - 1] == xs[i];
      FirstSomeAt(xs[1..], f, i - 1);
    }
  }

  /** The search only looks at the results of `f` on `xs`: two attempt
      functions that agree there find the same first success. */
  lemma {:induction false} FirstSomeCongruent<T, U>(xs: seq<T>, f: T -> Option<U>, g: T -> Option<U>)
    requires forall i :: 0 <= i < |xs| ==> f(xs[i]) == g(xs[i])
    ensures FirstSome(xs, f) == FirstSome(xs, g)
  {
    if |xs| > 0 {
      assert forall i :: 0 <= i < |xs| - 1 ==> xs[1..][i] == xs[i + 1];
      FirstSomeCongruent(xs[1..], f, g);
    }
  }
}
