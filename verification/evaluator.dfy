/**
  Queries on a `KrigingInterpolant`: `eval` retrains the model only when
  `updated` says points reached it since its last training pass, `evals`
  runs `eval` over a batch in order, and `deriv` is not implemented.
 */
module Evaluator {
  import opened Wrappers
  import opened KrigingEngine
  import opened KrigingInterpolant
  import opened Lifecycle

  /**
    `eval(xx)`: if `updated`, train the model; clear `updated`; return the
    model's prediction at `xx`. Raises when no model was ever built.
   */
  function Eval<E, F>(s: Interpolant<E, F>, q: seq<E>, predict: Predictor<E, F>)
    : (r: Result<(Interpolant<E, F>, F), Error>)
    ensures r.Failure? <==> s.k.None?
    ensures r.Failure? ==> r.error == NoModel
    ensures r.Success? ==>
      var (s', v) := r.value;
      // only the model and the flag change
      && s' == s.(k := s'.k, updated := false)
      && s'.k.Some?
      // the model keeps its rows and is trained exactly when it was stale
      && s'.k.value.xs == s.k.value.xs && s'.k.value.fxs == s.k.value.fxs
      && s'.k.value.hint == s.k.value.hint
      && (s.updated ==> s'.k.value == s.k.value.Train())
      && (!s.updated ==> s'.k.value == s.k.value)
      // the answer is the refreshed model's prediction
      && v == predict(s'.k.value, q)
  {
    match s.k
    case None => Failure(NoModel)
    case Some(m) =>
      var m' := if s.updated then m.Train() else m;
      Success((s.(k := Some(m'), updated := false), predict(m', q)))
  }

  /**
    `evals(xx)`: one `eval` per query row, in order. The first `eval`
    refreshes the model if needed; the rest find it fresh, so each answer
    is what a lone `eval` of that query would return and the batch trains
    at most once. An empty batch evaluates nothing and so never raises.
   */
  method Evals<E, F>(s: Interpolant<E, F>, qs: seq<seq<E>>, predict: Predictor<E, F>)
    returns (r: Result<(Interpolant<E, F>, seq<F>), Error>)
    ensures |qs| == 0 ==> r == Success((s, []))
    ensures |qs| > 0 ==> (r.Failure? <==> s.k.None?)
    ensures r.Failure? ==> r.error == NoModel
    ensures r.Success? ==> |r.value.1| == |qs|
    ensures r.Success? ==> forall i :: 0 <= i < |qs| ==>
      Eval(s, qs[i], predict).Success? && r.value.1[i] == Eval(s, qs[i], predict).value.1
    ensures r.Success? && |qs| > 0 ==> r.value.0 == Eval(s, qs[0], predict).value.0
    ensures r.Success? && |qs| > 0 ==>
      r.value.0.k.value.trainCount <= s.k.value.trainCount + 1
  {
    if |qs| == 0 {
      return Success((s, []));
    }
    var first := Eval(s, qs[0], predict);
    if first.Failure? {
      return Failure(first.error);
    }
    var cur := first.value.0;
    var vals := [first.value.1];
    var i := 1;
    while i < |qs|
      invariant 1 <= i <= |qs|
      invariant cur == first.value.0
      invariant |vals| == i
      invariant forall j :: 0 <= j < i ==>
        Eval(s, qs[j], predict).Success? && vals[j] == Eval(s, qs[j], predict).value.1
    {
      var e := Eval(cur, qs[i], predict);
      vals := vals + [e.value.1];
      cur := e.value.0;
      i := i + 1;
    }
    return Success((cur, vals));
  }

  /** `deriv(x)`: always raises NotImplementedError and changes nothing. */
  function Deriv<E, F>(s: Interpolant<E, F>, q: seq<E>): (r: Result<seq<F>, Error>)
    ensures r.Failure? && r.error == NotImplemented
  {
    Failure(NotImplemented)
  }
}
