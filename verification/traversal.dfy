/** Applying a fallible step to every element of a sequence, stopping at the first
    failure, and what that means element by element. */
module Traversal {
  import opened Wrappers

  /** Applies `f` to the elements of `xs` in order and collects the results; the
      first failure is the result of the whole traversal. */
  function MapResult<A, B, E>(xs: seq<A>, f: A -> Result<B, E>): Result<seq<B>, E>
  {
    if xs == [] then Success([])
    else
      match f(xs[0])
      case Failure(e) => Failure(e)
      case Success(y) =>
        match MapResult(xs[1..], f)
        case Failure(e) => Failure(e)
        case Success(ys) => Success([y] + ys)
  }

  /** The traversal succeeds exactly when every step does; it then holds exactly one
      result per element, the i-th result being the i-th element's. */
  lemma {:induction false} MapResultPointwise<A, B, E>(xs: seq<A>, f: A -> Result<B, E>)
    ensures MapResult(xs, f).Success? <==> forall i :: 0 <= i < |xs| ==> f(xs[i]).Success?
    ensures MapResult(xs, f).Success? ==>
      && |MapResult(xs, f).value| == |xs|
      && forall i :: 0 <= i < |xs| ==> MapResult(xs, f).value[i] == f(xs[i]).value
  {
    if xs != [] {
      MapResultPointwise(xs[1..], f);
      assert forall i :: 1 <= i < |xs| ==> xs[1..][i - 1] == xs[i];
    }
  }

  /** Results matching the elements one by one are the whole traversal's result. */
  lemma AllStepsSucceed<A, B, E>(xs: seq<A>, f: A -> Result<B, E>, ys: seq<B>)
    requires |ys| == |xs|
    requires forall i :: 0 <= i < |xs| ==> f(xs[i]) == Success(ys[i])
    ensures MapResult(xs, f) == Success(ys)
  {
    MapResultPointwise(xs, f);
    var out := MapResult(xs, f).value;
    assert forall i :: 0 <= i < |out| ==> out[i] == ys[i];
    assert out == ys;
  }

  /** When every step before element k succeeds and element k's fails, the whole
      traversal fails with element k's error. */
  lemma {:induction false} FirstFailureStops<A, B, E>(xs: seq<A>, f: A -> Result<B, E>, k: nat)
    requires k < |xs|
    requires forall j :: 0 <= j < k ==> f(xs[j]).Success?
    requires f(xs[k]).Failure?
    ensures MapResult(xs, f) == Failure(f(xs[k]).error)
  {
    if k > 0 {
      assert f(xs[0]).Success?;
      assert forall j :: 0 <= j < k - 1 ==> xs[1..][j] == xs[j + 1];
      FirstFailureStops(xs[1..], f, k - 1);
    }
  }

  /** A failed traversal has a first failing element: every step before it succeeds,
      and its error is the traversal's error. */
  lemma {:induction false} FailureHasFirstCause<A, B, E>(xs: seq<A>, f: A -> Result<B, E>) returns (k: nat)
    requires MapResult(xs, f).Failure?
    ensures k < |xs|
    ensures forall j :: 0 <= j < k ==> f(xs[j]).Success?
    ensures f(xs[k]) == Failure(MapResult(xs, f).error)
  {
    if f(xs[0]).Failure? {
      k := 0;
    } else {
      var k' := FailureHasFirstCause(xs[1..], f);
      k := k' + 1;
      assert forall j :: 1 <= j < k ==> xs[j] == xs[1..][j - 1];
    }
  }

  /** Steps that agree on every element give the same traversal. */
  lemma {:induction false} MapResultCongruent<A, B, E>(xs: seq<A>, ys: seq<A>, f: A -> Result<B, E>)
    requires |xs| == |ys|
    requires forall i :: 0 <= i < |xs| ==> f(xs[i]) == f(ys[i])
    ensures MapResult(xs, f) == MapResult(ys, f)
  {
    if xs != [] {
      assert forall i :: 0 <= i < |xs| - 1 ==> xs[1..][i] == xs[i + 1] && ys[1..][i] == ys[i + 1];
      MapResultCongruent(xs[1..], ys[1..], f);
    }
  }
}
