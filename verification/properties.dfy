/**
  Guarantees that relate several calls: lazy refresh, the "train at most
  once between insertions" rule, and readiness of the model.
 */
module Properties {
  import opened Wrappers
  import opened KrigingEngine
  import opened KrigingInterpolant
  import opened Lifecycle
  import opened Evaluator

  /**
    `eval` keeps the class invariant and leaves a model that saw every row
    it holds; the instance is never stale afterwards.
   */
  lemma EvalKeepsValid<E, F>(s: Interpolant<E, F>, q: seq<E>, predict: Predictor<E, F>)
    requires Valid(s)
    requires Eval(s, q, predict).Success?
    ensures var s' := Eval(s, q, predict).value.0;
      && Valid(s') && s'.k.value.Fresh() && PhaseOf(s') != Stale
      && GetX(s') == GetX(s) && GetFx(s') == GetFx(s)
  {
  }

  /**
    Once the count reached `initp`, `eval` answers, retrains exactly when
    the instance was stale, and leaves it fitted.
   */
  lemma EvalAfterThreshold<E, F>(s: Interpolant<E, F>, q: seq<E>, predict: Predictor<E, F>)
    requires Valid(s)
    requires s.nump >= s.initp
    ensures Eval(s, q, predict).Success?
    ensures var s' := Eval(s, q, predict).value.0;
      && PhaseOf(s') == Fitted
      && (s'.k.value.trainCount == s.k.value.trainCount + 1 <==> PhaseOf(s) == Stale)
      && (s'.k.value.trainCount == s.k.value.trainCount <==> PhaseOf(s) == Fitted)
  {
  }

  /**
    Two queries with no insertion between them: the second trains nothing,
    changes nothing, and answers a repeated query with the same value.
   */
  lemma EvalTwiceTrainsOnce<E, F>(s: Interpolant<E, F>, q1: seq<E>, q2: seq<E>, predict: Predictor<E, F>)
    requires Eval(s, q1, predict).Success?
    ensures var (s1, v1) := Eval(s, q1, predict).value;
      && Eval(s1, q2, predict) == Success((s1, predict(s1.k.value, q2)))
      && Eval(s1, q1, predict) == Success((s1, v1))
      && s1.k.value.trainCount <= s.k.value.trainCount + 1
  {
  }

  /**
    Insertion past the threshold makes the instance stale without training;
    the next `eval` performs exactly one training pass and fits it again.
   */
  lemma AddThenEval<E, F>(s: Interpolant<E, F>, xx: seq<E>, fx: F, q: seq<E>, predict: Predictor<E, F>)
    requires Valid(s)
    requires Fits(s, xx)
    requires s.nump >= s.initp
    ensures var s1 := AddPoint(s, xx, fx);
      && PhaseOf(s1) == Stale
      && s1.k.value.trainCount == s.k.value.trainCount
      && Eval(s1, q, predict).Success?
      && PhaseOf(Eval(s1, q, predict).value.0) == Fitted
      && Eval(s1, q, predict).value.0.k.value.trainCount == s.k.value.trainCount + 1
  {
    AddPointPreservesValid(s, xx, fx);
    AddPointTransition(s, xx, fx);
  }

  /**
    From construction, `eval` raises until `initp` points were added and
    answers from then on.
   */
  lemma EvalReadyAtThreshold<E, F>(initp: nat, maxp: nat, pts: seq<(seq<E>, F)>, d: nat,
                                   q: seq<E>, predict: Predictor<E, F>)
    requires initp >= 1 && maxp >= 1
    requires forall i :: 0 <= i < |pts| ==> |pts[i].0| == d
    ensures var s := AddAll(Init<E, F>(initp, maxp), pts, d);
      && (Eval(s, q, predict).Failure? <==> |pts| < initp)
      && (|pts| < initp ==> Eval(s, q, predict).error == NoModel)
  {
    ModelBuiltAtThreshold(Init<E, F>(initp, maxp), pts, d);
  }

  /**
    `reset` does not drop the model: a reset instance that had one still
    answers queries, from the model built before the reset.
   */
  lemma ResetKeepsAnswering<E, F>(s: Interpolant<E, F>, q: seq<E>, predict: Predictor<E, F>)
    ensures Eval(Reset(s), q, predict).Success? <==> Eval(s, q, predict).Success?
    ensures Eval(s, q, predict).Success? ==>
      Eval(Reset(s), q, predict).value.1 == Eval(s, q, predict).value.1
  {
  }

  /** A freshly constructed instance cannot answer a query. */
  lemma FreshEvalFails<E, F>(initp: nat, maxp: nat, q: seq<E>, predict: Predictor<E, F>)
    ensures Eval(Init<E, F>(initp, maxp), q, predict) == Failure(NoModel)
  {
  }

  /** The constructor called without arguments gives a usable instance with
      threshold 10 and capacity 100, which cannot answer yet. */
  lemma DefaultConstruction<E, F>(q: seq<E>, predict: Predictor<E, F>)
    ensures Init<E, F>().initp == 10 && Init<E, F>().maxp == 100
    ensures Valid(Init<E, F>())
    ensures Eval(Init<E, F>(), q, predict) == Failure(NoModel)
  {
  }
}
