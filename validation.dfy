/**
 * `readonlyArray.sequence` over the validation applicative
 * (`taskEither.getApplicativeTaskValidation` with the array semigroup), after
 * every failure has been wrapped in a one-element list: every element is
 * evaluated, and the result is either all the values or all the errors, in
 * list order.
 */
module Validation {
  import opened Wrappers

  predicate AllSucceed<A, E>(rs: seq<Result<A, E>>)
  {
    forall i :: 0 <= i < |rs| ==> rs[i].Success?
  }

  /** The errors of the failed elements, in list order. */
  function Errors<A, E>(rs: seq<Result<A, E>>): seq<E>
  {
    if rs == [] then []
    else (if rs[0].Failure? then [rs[0].error] else []) + Errors(rs[1..])
  }

  /** All values when every element succeeds, otherwise every error. */
  function CollectAll<A, E>(rs: seq<Result<A, E>>): (r: Result<seq<A>, seq<E>>)
    ensures r.Success? <==> AllSucceed(rs)
    ensures r.Success? ==> |r.value| == |rs| && forall i :: 0 <= i < |rs| ==> rs[i] == Success(r.value[i])
    ensures r.Failure? ==> r.error == Errors(rs)
  {
    if rs == [] then Success([])
    else
      var rest := CollectAll(rs[1..]);
      ErrorsEmpty(rs[1..]);
      assert forall i :: 1 <= i < |rs| ==> rs[i] == rs[1..][i - 1];
      match (rs[0], rest)
      case (Success(a), Success(xs)) => Success([a] + xs)
      case (Success(_), Failure(es)) => Failure(es)
      case (Failure(e), Success(_)) => Failure([e])
      case (Failure(e), Failure(es)) => Failure([e] + es)
  }

  /** An error is reported exactly when some element failed with it. */
  lemma {:induction false} ErrorsMembership<A, E>(rs: seq<Result<A, E>>, e: E)
    ensures e in Errors(rs) <==> exists i :: 0 <= i < |rs| && rs[i] == Failure(e)
  {
    if rs != [] {
      ErrorsMembership(rs[1..], e);
      if exists i :: 1 <= i < |rs| && rs[i] == Failure(e) {
        var i :| 1 <= i < |rs| && rs[i] == Failure(e);
        assert rs[1..][i - 1] == Failure(e);
      }
      if e in Errors(rs[1..]) {
        var i :| 0 <= i < |rs[1..]| && rs[1..][i] == Failure(e);
        assert rs[i + 1] == Failure(e);
      }
    }
  }

  /** There is no error exactly when every element succeeds. */
  lemma {:induction false} ErrorsEmpty<A, E>(rs: seq<Result<A, E>>)
    ensures Errors(rs) == [] <==> AllSucceed(rs)
  {
    if rs != [] {
      ErrorsEmpty(rs[1..]);
      assert forall i :: 1 <= i < |rs| ==> rs[i] == rs[1..][i - 1];
    }
  }

  /** The errors of two lists evaluated one after the other keep their order. */
  lemma {:induction false} ErrorsAppend<A, E>(xs: seq<Result<A, E>>, ys: seq<Result<A, E>>)
    ensures Errors(xs + ys) == Errors(xs) + Errors(ys)
  {
    if xs == [] {
      assert xs + ys == ys;
    } else {
      assert (xs + ys)[1..] == xs[1..] + ys;
      ErrorsAppend(xs[1..], ys);
      var h := if xs[0].Failure? then [xs[0].error] else [];
      assert h + (Errors(xs[1..]) + Errors(ys)) == (h + Errors(xs[1..])) + Errors(ys);
    }
  }
}
