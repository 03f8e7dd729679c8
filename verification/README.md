# KrigingInterpolant, modelled in Dafny

A model of pySOT's `KrigingInterpolant` (`pySOT/kriging_interpolant.py`). This class
manages a Kriging surrogate while an optimisation loop hands it samples one at a time.
It has three parts:

- **Sample buffer.** Dense numpy storage for the points `x` and the values `fx`, with a
  count `nump` and a capacity `maxp`. The first insertion allocates the storage, and a
  full buffer grows to `max(2*maxp, maxp+1)` rows. `get_x` and `get_fx` return the first
  `nump` rows.
- **Model lifecycle.** `add_point` compares the new count with `initp`. Below `initp` it
  keeps collecting. At `initp` it builds a pyKriging model and trains it once. Above
  `initp` it passes the sample to the model and sets `updated` to mark the model stale.
- **Lazy evaluator.** `eval` retrains only when `updated` is set, then clears the flag
  and predicts. `evals` runs `eval` over a batch. `deriv` always raises.

The model is functional. An instance is an immutable `Interpolant<E, F>` record that
holds every attribute of the class, and each method is a pure function from one record
to the next. Coordinates (`E`) and values (`F`) are generic, so no floating point is
involved. A storage row is a `Cell`: either `Zero`, the zero fill that numpy allocates,
or `Val(v)`, a row written by `add_point`. This keeps the zero rows visible.

The pyKriging `kriging` object is an external collaborator. It appears as a `Model`
record holding:

- the rows it was given;
- the third constructor argument, `maxp`;
- how many times `train` ran;
- how many rows the latest `train` saw.

`predict` is a function parameter: any function of that model and the query.

A Python exception appears as a `Failure` of `Result`:

- `NoStorage`: slicing `x` or `fx` while they are None.
- `NoModel`: calling `train` or `predict` while `k` is None.
- `NotImplemented`: calling `deriv`.

`KrigingInterpolant.Valid` is the class invariant. It holds of every state reachable from
a constructor call with `initp >= 1` and `maxp >= 1`, and it says:

- storage exists exactly when points do;
- exactly the first `nump` rows are written, the rest are zero fill;
- once the count has reached `initp`, the model holds the first `initp` samples, then
  the zero row its build read (when the storage had room), then every later sample;
- a model is fresh (its last training pass saw all its rows) unless `updated` is set.

Modules: `Wrappers` (Option, Result), `KrigingEngine` (the collaborator),
`KrigingInterpolant` (state, buffer, lifecycle), `Lifecycle` (phases and guarantees of
`add_point`/`reset`), `Evaluator` (`eval`, `evals`, `deriv`) and `Properties` (guarantees
that span several calls).

The model follows the code in three places where a reader might expect otherwise:

- `_model` reads one row past the samples. See Findings.
- The code never checks the width of a point, so no error is modelled for a point of
  another width. Instead, a point must have the width of the stored points (`Fits`).
- `reset` keeps the model, `updated`, `dim` and a grown `maxp`. It does not return the
  instance to a model-less state.

## Model

| member | source | states |
|---|---|---|
| KrigingInterpolant.Init | pySOT/kriging_interpolant.py:29-37 | A new instance has no storage, no model, and `updated` unset. Called without arguments it takes `initp = 10` and `maxp = 100`. It satisfies the class invariant exactly when `initp >= 1` and `maxp >= 1`. |
| KrigingInterpolant.Reset | pySOT/kriging_interpolant.py:39-45 | `reset` zeroes the count and drops both arrays. `maxp`, `initp`, `dim`, the model and `updated` all survive, and the class invariant is kept. |
| KrigingInterpolant.Alloc | pySOT/kriging_interpolant.py:47-56 | Allocation records the width and creates `maxp` zero rows in each array. Nothing else changes. |
| KrigingInterpolant.Realloc | pySOT/kriging_interpolant.py:58-70 | The first insertion allocates at the current `maxp`. Later, storage changes only when `extra` more rows do not fit. It then grows to at least twice and at least `maxp+extra` rows, equal to one of the two, keeping every old row and zero-filling the new ones. |
| KrigingInterpolant.SetUpModel | pySOT/kriging_interpolant.py:72-78 | The build gives the model `x[:nump+1]` and `fx[:nump+1]` (clamped to the storage) with hint `maxp`, trains it exactly once, and changes nothing else. |
| KrigingInterpolant.GetX | pySOT/kriging_interpolant.py:80-86 | `get_x` raises exactly when there is no storage. Otherwise it returns the first `nump` point rows and never the unused tail. |
| KrigingInterpolant.GetFx | pySOT/kriging_interpolant.py:88-94 | `get_fx` raises exactly when there is no storage. Otherwise it returns the first `nump` value rows. |
| KrigingInterpolant.Store | pySOT/kriging_interpolant.py:103-107 | After the write, the storage is well formed. The written rows are the old rows followed by the new sample, the count rose by one, and the model and `updated` are untouched. The capacity stays put while a row is free and doubles when the storage was full. |
| KrigingInterpolant.Dispatch | pySOT/kriging_interpolant.py:108-119 | On the new count: below `initp` the model and flag are untouched. At `initp` a model is built, trained once, and fresh, with `updated` unchanged. Above `initp` the model receives `addPoint(xx, fx)` and `updated` is set. |
| KrigingInterpolant.AddPoint | pySOT/kriging_interpolant.py:96-119 | `add_point` raises the count by exactly one, keeps it within capacity, records the point's width, and leaves the capacity alone while a row is free. |
| Lifecycle.StoredRowsAreWritten | pySOT/kriging_interpolant.py:80-94 | In every reachable state, the accessors succeed exactly when points exist. They return `nump` rows, each written by `add_point`, with points of the recorded width. |
| Lifecycle.AddPointPreservesValid | pySOT/kriging_interpolant.py:96-119 | `add_point` keeps the class invariant, including the model mirroring the storage. |
| Lifecycle.AddPointAppends | pySOT/kriging_interpolant.py:80-107 | After `add_point(xx, fx)`, `get_x` is the old `get_x` with `xx` appended and `get_fx` is the old `get_fx` with `fx` appended, across a resize too. |
| Lifecycle.AddPointTransition | pySOT/kriging_interpolant.py:108-119 | The transition table, read through the phases. Below `initp`: collecting, model and flag untouched. At `initp`: one training pass, `updated` kept, fitted unless it was already set. Above `initp`: the model gains the row without training and the instance is stale. |
| Lifecycle.BuildSnapshotHasPhantomRow | pySOT/kriging_interpolant.py:72-78 | When the threshold is reached with room to spare, the model receives the samples plus one zero row. Only full storage gives exactly the samples. The hint is the current `maxp`. |
| Lifecycle.SetUpModelExact | pySOT/kriging_interpolant.py:72-78 | The corrected build. The model holds exactly the stored point rows and value rows and is trained once. |
| Lifecycle.ExactBuildHoldsOnlySamples | pySOT/kriging_interpolant.py:72-78 | With the corrected build at the threshold, the model holds `initp` rows, all written samples, in insertion order. |
| Lifecycle.ResetThenAdd | pySOT/kriging_interpolant.py:39-70 | After `reset` the accessors raise. The next insertion reallocates at the `maxp` reached before the reset and starts the rows with the new sample alone. Model and flag survive when `initp > 1`. |
| Lifecycle.FullStorageDoubles | pySOT/kriging_interpolant.py:65-70 | An insertion into full storage doubles the capacity (with `maxp = 4`, the fifth point finds 8 rows) and keeps every stored row. |
| Lifecycle.AddPointWithRoomKeepsCapacity | pySOT/kriging_interpolant.py:58-70 | An insertion that finds a free row, or the first insertion into fresh storage, leaves `maxp` unchanged. |
| Lifecycle.AddPointOverallocation | pySOT/kriging_interpolant.py:67-68 | One insertion keeps the bound "capacity at most twice the count, or the capacity `m` chosen at construction" once it holds. |
| Lifecycle.AddAllCapacity | pySOT/kriging_interpolant.py:58-70 | Any number of insertions keeps that bound, by induction. `reset` keeps a grown `maxp` while zeroing the count, so the bound counts insertions since construction, not since the last reset. |
| Lifecycle.ConstructedCapacity | pySOT/kriging_interpolant.py:58-70 | From construction with capacity `m`, `n` insertions leave at most `max(m, 2n)` rows. |
| Lifecycle.AddAllAppends | pySOT/kriging_interpolant.py:103-107 | Any number of insertions, through any number of resizes, leaves earlier rows in place and appends the new samples in order. |
| Lifecycle.ModelBuiltAtThreshold | pySOT/kriging_interpolant.py:108-114 | Starting without a model, the insertions produce one exactly when the count reaches `initp`: never before, always after. |
| Evaluator.Eval | pySOT/kriging_interpolant.py:121-132 | `eval` raises exactly when no model exists. Otherwise it trains exactly when `updated` is set and clears the flag. Rows, buffer and the other attributes stay unchanged, and it returns the prediction of the refreshed model. |
| Evaluator.Evals | pySOT/kriging_interpolant.py:134-145 | `evals` gives one answer per query, in order, each equal to a lone `eval` of that query. The final state is that of the first `eval`, so the batch trains at most once. It raises only when the batch is non-empty and there is no model. |
| Evaluator.Deriv | pySOT/kriging_interpolant.py:147-155 | `deriv` always raises NotImplementedError. |
| Properties.EvalKeepsValid | pySOT/kriging_interpolant.py:121-132 | `eval` keeps the class invariant and the samples, and leaves a fresh model, so the instance is not stale afterwards. |
| Properties.EvalAfterThreshold | pySOT/kriging_interpolant.py:128-131 | From `initp` points on, `eval` succeeds and leaves the instance fitted. It trains once exactly when the instance was stale, and not at all when it was fitted. |
| Properties.EvalTwiceTrainsOnce | pySOT/kriging_interpolant.py:128-131 | After one `eval`, another with no insertion between changes nothing and trains nothing. A repeated query gets the same answer. The pair trains at most once. |
| Properties.AddThenEval | pySOT/kriging_interpolant.py:115-131 | An insertion past the threshold makes the instance stale without training. The next `eval` trains exactly once and fits it again. |
| Properties.EvalReadyAtThreshold | pySOT/kriging_interpolant.py:108-131 | From construction, `eval` raises with no model until `initp` points have been added, and answers from then on. |
| Properties.ResetKeepsAnswering | pySOT/kriging_interpolant.py:39-45 | A reset instance that had a model still answers `eval`, with the old model's prediction. |
| Properties.FreshEvalFails | pySOT/kriging_interpolant.py:29-37 | `eval` on a freshly constructed instance raises: `k` is None. |
| Properties.DefaultConstruction | pySOT/kriging_interpolant.py:29-37 | The constructor called without arguments gives a usable instance with threshold 10 and capacity 100, and `eval` on it raises. |

## Findings

| source | as written | input that shows it | evidently intended | confidence | as-written member | corrected member |
|---|---|---|---|---|---|---|
| pySOT/kriging_interpolant.py:76-77 | `_model` builds from `x[:nump+1]`, `fx[:nump+1]`, one row past the `nump` samples | `initp = 3`, `maxp = 4`, three `add_point` calls: the model receives four rows, the last a zero row with value zero | build from `x[:nump]`, `fx[:nump]`, exactly the samples | high; not executed | Lifecycle.BuildSnapshotHasPhantomRow | Lifecycle.SetUpModelExact |

`Lifecycle.ExactBuildHoldsOnlySamples` proves the intended property of the corrected build.
`KrigingInterpolant.AddPoint` keeps the as-written build because this is a model of the
code. The invariant `Mirrored` records the phantom row wherever the code produces one.

## Left out

- pyKriging's training, covariance fitting and prediction mathematics. The model is only
  a record of the rows it was given and of its training passes, and `predict` is an
  arbitrary function parameter.
- `_main`: a demonstration with random data, `sin`/`cos` and printing.
- numpy's `resize` reference-check failure and broadcasting. Rows are generic sequences
  of one fixed width (`Fits`), so a point of another width is outside the model rather
  than scrambled by a flat resize. `xx.ravel()` and `np.asarray` in the evaluator are
  left out, and a query is a sequence of coordinates.
- KrigingInterpolant.GetX, KrigingInterpolant.GetFx: `x[:nump, :]` and `fx[:nump, :]` are
  numpy views that share memory with the storage. A caller writing through them would
  change the stored samples and so the rows a later `_model` passes on. The model
  returns values, so this aliasing is not modelled.
- KrigingInterpolant.AddPoint: requires the class invariant, which includes `maxp >= 1`
  and `initp >= 1`. With `maxp = 0` the code raises IndexError at line 105. With
  `initp = 0` it raises AttributeError at line 118 after the sample was already written.
  Neither partial mutation is modelled.
- `updated` starts as None in the code. It is modelled as false, the only reading any
  branch makes of it.
- The `extra` argument of `_realloc` is modelled in general, but `add_point` always
  passes 1. With `nump = 0` the code allocates `maxp` rows whatever `extra` asks for,
  and the model does the same.
- Thread safety: the class has no locking. The model is sequential.
