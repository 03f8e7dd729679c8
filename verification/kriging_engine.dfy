/**
  The pyKriging `kriging` object, seen only through what the interpolant
  hands to it and asks of it: a constructor taking rows, values and a
  capacity hint, `train`, `addPoint` and `predict`. Its fitting and
  prediction mathematics are not part of this model.
 */
module KrigingEngine {

  /** One row of the interpolant's numpy storage: `Zero` is a row that still
      holds the zero fill of `np.zeros`/`ndarray.resize`, `Val` a row that
      `add_point` wrote. */
  datatype Cell<+T> = Zero | Val(v: T)

  /** The observable state of a `kriging` instance: the point rows and value
      rows it holds, the capacity hint it was built with, how many times
      `train` ran, and how many of its rows the latest `train` saw. */
  datatype Model<E, F> = Model(
    xs: seq<Cell<seq<E>>>,
    fxs: seq<Cell<F>>,
    hint: nat,
    trainCount: nat,
    trainedRows: nat)
  {
    /** The latest training pass saw every row the model holds. */
    predicate Fresh() {
      trainedRows == |xs|
    }

    /** `train`: a full fitting pass over every row held. */
    function Train(): (m: Model<E, F>)
      ensures m.Fresh()
      ensures m.trainCount == trainCount + 1
      ensures m.xs == xs && m.fxs == fxs && m.hint == hint
    {
      this.(trainCount := trainCount + 1, trainedRows := |xs|)
    }

    /** `addPoint(xx, fx)`: takes one more sample without retraining. */
    function AddPoint(xx: seq<E>, fx: F): (m: Model<E, F>)
      ensures m.xs == xs + [Val(xx)] && m.fxs == fxs + [Val(fx)]
      ensures m.trainCount == trainCount && m.trainedRows == trainedRows
      ensures m.hint == hint
    {
      this.(xs := xs + [Val(xx)], fxs := fxs + [Val(fx)])
    }
  }

  /** `kriging(X, y, maxp)`: a model holding the given rows, never trained. */
  function Construct<E, F>(xs: seq<Cell<seq<E>>>, fxs: seq<Cell<F>>, hint: nat): Model<E, F> {
    Model(xs, fxs, hint, 0, 0)
  }

  /** `predict`, left uninterpreted: any function of the model and the query. */
  type Predictor<!E, !F> = (Model<E, F>, seq<E>) -> F
}
