/** Option and Result values, and the exceptions the Python package raises,
    modelled as failure values. */
module Wrappers {

  datatype Option<+T> = None | Some(value: T)

  /** The exceptions the modelled code can raise. Each carries the text the
      failing call was given, where there is one. */
  datatype Exception =
    | InvalidVersion(version: string)     // AssertionError raised by SemanticVersion.parse
    | NoExpressionMatch(text: string)     // ValueError raised by Expression.parse
    | UnknownOperator(token: string)      // ValueError raised by Operator(token)
    | NotImplemented                      // NotImplementedError raised for `===`
    | TypeError                           // list + None, or calling None

  datatype Result<+T> = Success(value: T) | Failure(error: Exception)

  /** `[f(x) for x in xs]` where `f` may raise: evaluated left to right,
      the first failure ends the comprehension. */
  function MapResult<A, B>(f: A -> Result<B>, xs: seq<A>): (r: Result<seq<B>>)
    ensures r.Success? ==> |r.value| == |xs|
    ensures r.Success? ==> forall i :: 0 <= i < |xs| ==> f(xs[i]) == Success(r.value[i])
    decreases |xs|
  {
    if xs == [] then Success([])
    else
      match f(xs[0])
      case Failure(e) => Failure(e)
      case Success(first) =>
        match MapResult(f, xs[1..])
        case Failure(e) => Failure(e)
        case Success(rest) =>
          assert forall i :: 1 <= i < |xs| ==> xs[i] == xs[1..][i - 1];
          Success([first] + rest)
  }

  /** The comprehension succeeds exactly when every call does. */
  lemma {:induction false} MapResultSucceeds<A, B>(f: A -> Result<B>, xs: seq<A>)
    ensures MapResult(f, xs).Success? <==> forall i :: 0 <= i < |xs| ==> f(xs[i]).Success?
    decreases |xs|
  {
    if xs != [] {
      MapResultSucceeds(f, xs[1..]);
      assert forall i :: 1 <= i < |xs| ==> xs[i] == xs[1..][i - 1];
      if f(xs[0]).Success? && !MapResult(f, xs[1..]).Success? {
        var j :| 0 <= j < |xs[1..]| && f(xs[1..][j]).Failure?;
        assert xs[j + 1] == xs[1..][j];
      }
    }
  }

  /** A comprehension over two succeeding calls gives their two values. */
  lemma MapResultPair<A, B>(f: A -> Result<B>, x1: A, x2: A)
    requires f(x1).Success? && f(x2).Success?
    ensures MapResult(f, [x1, x2]) == Success([f(x1).value, f(x2).value])
  {
    var xs := [x1, x2];
    MapResultSucceeds(f, xs);
    var r := MapResult(f, xs);
    assert f(xs[0]) == Success(r.value[0]);
    assert f(xs[1]) == Success(r.value[1]);
    assert r.value == [r.value[0], r.value[1]];
  }

  /** When some call fails, the comprehension raises what the first failing call raises. */
  lemma {:induction false} MapResultFirstFailure<A, B>(f: A -> Result<B>, xs: seq<A>, i: nat)
    requires i < |xs| && f(xs[i]).Failure?
    requires forall j :: 0 <= j < i ==> f(xs[j]).Success?
    ensures MapResult(f, xs) == Failure(f(xs[i]).error)
    decreases i
  {
    if i > 0 {
      assert forall j :: 0 <= j < i - 1 ==> xs[1..][j] == xs[j + 1];
      MapResultFirstFailure(f, xs[1..], i - 1);
    }
  }
}
