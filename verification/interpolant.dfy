/**
  The state of a `KrigingInterpolant` and the operations that change it:
  the growable sample buffer (`_alloc`, `_realloc`, `get_x`, `get_fx`),
  the model lifecycle driven by `add_point`, and `reset`.
 */
module KrigingInterpolant {
  import opened Wrappers
  import opened KrigingEngine

  /** What the Python code raises. */
  datatype Error =
    | NoStorage       // `x`/`fx` are None, so slicing them raises TypeError
    | NoModel         // `k` is None, so `k.train`/`k.predict` raise AttributeError
    | NotImplemented  // `deriv` raises NotImplementedError

  /**
    The instance attributes. `x` and `fx` are the numpy arrays (None before
    the first insertion and after `reset`), `maxp` their row count, `nump`
    how many rows are filled, `k` the pyKriging model and `updated` whether
    points reached `k` since its last training pass. The source starts
    `updated` at None, which reads as false wherever it is tested.
   */
  datatype Interpolant<E, F> = Interpolant(
    nump: nat,
    maxp: nat,
    initp: nat,
    x: Option<seq<Cell<seq<E>>>>,
    fx: Option<seq<Cell<F>>>,
    dim: Option<nat>,
    k: Option<Model<E, F>>,
    updated: bool)

  /** Python's `a[:n]` for `n >= 0`: at most the first `n` rows. */
  function Slice<T>(a: seq<T>, n: nat): (r: seq<T>)
    ensures |r| == if n <= |a| then n else |a|
    ensures forall i :: 0 <= i < |r| ==> r[i] == a[i]
  {
    if n <= |a| then a[..n] else a
  }

  /** The rows `np.zeros` creates. */
  function Zeros<T>(n: nat): (r: seq<Cell<T>>)
    ensures |r| == n
    ensures forall i :: 0 <= i < n ==> r[i] == Zero
  {
    seq(n, _ => Zero)
  }

  /** `ndarray.resize` to `n` rows of the same width: keeps every row and
      zero-fills the new ones. */
  function Grow<T>(a: seq<Cell<T>>, n: nat): (r: seq<Cell<T>>)
    requires |a| <= n
    ensures |r| == n
    ensures r[..|a|] == a
    ensures forall i :: |a| <= i < n ==> r[i] == Zero
  {
    a + Zeros(n - |a|)
  }

  function Max(a: int, b: int): int {
    if a >= b then a else b
  }

  // ---------------------------------------------------------------------
  // Class invariant
  // ---------------------------------------------------------------------

  /**
    The storage holds `maxp` rows of each array; exactly the first `nump`
    were written, all with `dim` coordinates; the rest are zero fill.
   */
  ghost predicate Stored<E, F>(s: Interpolant<E, F>) {
    && s.x.Some? && s.fx.Some? && s.dim.Some? && s.nump <= s.maxp
    && |s.x.value| == s.maxp && |s.fx.value| == s.maxp
    && (forall i :: 0 <= i < s.maxp ==> (s.x.value[i].Val? <==> i < s.nump))
    && (forall i :: 0 <= i < s.maxp ==> (s.fx.value[i].Val? <==> i < s.nump))
    && (forall i :: 0 <= i < s.nump ==> |s.x.value[i].v| == s.dim.value)
  }

  /** The extra row `_model` hands over: the zero row just past the `rows`
      filled ones, present unless the storage of `hint` rows was full. */
  function Phantom<T>(rows: nat, hint: nat): (r: seq<Cell<T>>)
    ensures |r| <= 1
    ensures forall i :: 0 <= i < |r| ==> r[i] == Zero
  {
    if rows < hint then [Zero] else []
  }

  /**
    The model `k` holds the first `initp` samples, then the phantom row of
    its build (when the storage had room for one), then every sample added
    since, in insertion order.
   */
  ghost predicate Mirrored<E, F>(s: Interpolant<E, F>) {
    && s.x.Some? && s.fx.Some? && s.k.Some?
    && s.initp <= s.nump <= |s.x.value| && s.nump <= |s.fx.value|
    && s.initp <= s.k.value.hint <= s.maxp
    && s.k.value.xs
       == s.x.value[..s.initp] + Phantom(s.initp, s.k.value.hint) + s.x.value[s.initp..s.nump]
    && s.k.value.fxs
       == s.fx.value[..s.initp] + Phantom(s.initp, s.k.value.hint) + s.fx.value[s.initp..s.nump]
  }

  /**
    Every state reachable from a constructor call with `initp >= 1` and
    `maxp >= 1`. Storage exists exactly when points do; the model exists
    once `initp` points were seen; a model is fresh unless `updated`.
   */
  ghost predicate Valid<E, F>(s: Interpolant<E, F>) {
    && s.maxp >= 1 && s.initp >= 1
    && s.nump <= s.maxp
    && (s.nump == 0 <==> s.x.None?)
    && (s.nump == 0 <==> s.fx.None?)
    && (s.nump > 0 ==> Stored(s))
    && (s.nump >= s.initp ==> Mirrored(s))
    && (s.k.Some? ==> s.k.value.trainCount >= 1)
    && (s.k.Some? && !s.updated ==> s.k.value.Fresh())
  }

  // ---------------------------------------------------------------------
  // Construction and reset
  // ---------------------------------------------------------------------

  /** `KrigingInterpolant(initp=10, maxp=100)`: no storage, no model. The
      later operations are well defined exactly when both bounds are positive. */
  function Init<E, F>(initp: nat := 10, maxp: nat := 100): (s: Interpolant<E, F>)
    ensures Valid(s) <==> initp >= 1 && maxp >= 1
    ensures s.nump == 0 && s.x.None? && s.fx.None? && s.k.None? && !s.updated
    ensures s.initp == initp && s.maxp == maxp
  {
    Interpolant(0, maxp, initp, None, None, None, None, false)
  }

  /** `reset`: forgets the samples; capacity, threshold, width, model and
      staleness flag all survive. */
  function Reset<E, F>(s: Interpolant<E, F>): (s': Interpolant<E, F>)
    ensures s'.nump == 0 && s'.x.None? && s'.fx.None?
    ensures s'.maxp == s.maxp && s'.initp == s.initp && s'.dim == s.dim
    ensures s'.k == s.k && s'.updated == s.updated
    ensures Valid(s) ==> Valid(s')
  {
    s.(nump := 0, x := None, fx := None)
  }

  // ---------------------------------------------------------------------
  // Sample buffer
  // ---------------------------------------------------------------------

  /** `_alloc(dim)`: fresh zero-filled storage of the current `maxp` rows. */
  function Alloc<E, F>(s: Interpolant<E, F>, dim: nat): (s': Interpolant<E, F>)
    ensures s' == s.(dim := Some(dim), x := s'.x, fx := s'.fx)
    ensures s'.x.Some? && |s'.x.value| == s.maxp
    ensures s'.fx.Some? && |s'.fx.value| == s.maxp
    ensures forall i :: 0 <= i < s.maxp ==> s'.x.value[i] == Zero && s'.fx.value[i] == Zero
  {
    s.(dim := Some(dim), x := Some(Zeros(s.maxp)), fx := Some(Zeros(s.maxp)))
  }

  /**
    `_realloc(dim, extra)`: allocates on the first insertion, and otherwise
    grows the storage only when `extra` more rows do not fit, to
    `max(2*maxp, maxp+extra)` rows, keeping every existing row.
   */
  function Realloc<E, F>(s: Interpolant<E, F>, dim: nat, extra: nat): (s': Interpolant<E, F>)
    requires s.nump > 0 ==> s.x.Some? && s.fx.Some?
    requires s.nump > 0 ==> |s.x.value| == s.maxp && |s.fx.value| == s.maxp
    ensures s' == s.(maxp := s'.maxp, x := s'.x, fx := s'.fx, dim := s'.dim)
    ensures s'.x.Some? && s'.fx.Some?
    ensures |s'.x.value| == s'.maxp && |s'.fx.value| == s'.maxp
    // first insertion: the current capacity, however far it grew before a reset
    ensures s.nump == 0 ==> s' == Alloc(s, dim)
    // room left: nothing changes
    ensures s.nump > 0 && s.nump + extra <= s.maxp ==> s' == s
    // full: the larger of doubling and the exact need, old rows kept, new rows zero
    ensures s.nump > 0 && s.nump + extra > s.maxp ==>
      && s'.maxp >= 2 * s.maxp && s'.maxp >= s.maxp + extra
      && (s'.maxp == 2 * s.maxp || s'.maxp == s.maxp + extra)
      && s'.x.value[..s.maxp] == s.x.value && s'.fx.value[..s.maxp] == s.fx.value
      && (forall i :: s.maxp <= i < s'.maxp ==> s'.x.value[i] == Zero && s'.fx.value[i] == Zero)
      && s'.dim == s.dim
  {
    if s.nump == 0 then
      Alloc(s, dim)
    else if s.nump + extra > s.maxp then
      var maxp := Max(s.maxp * 2, s.maxp + extra);
      s.(maxp := maxp, x := Some(Grow(s.x.value, maxp)), fx := Some(Grow(s.fx.value, maxp)))
    else
      s
  }

  /** `get_x`: the first `nump` point rows; raises while there is no storage. */
  function GetX<E, F>(s: Interpolant<E, F>): (r: Result<seq<Cell<seq<E>>>, Error>)
    ensures r.Failure? <==> s.x.None?
    ensures r.Failure? ==> r.error == NoStorage
    ensures r.Success? ==> r.value == Slice(s.x.value, s.nump)
  {
    match s.x
    case None => Failure(NoStorage)
    case Some(x) => Success(Slice(x, s.nump))
  }

  /** `get_fx`: the first `nump` value rows; raises while there is no storage. */
  function GetFx<E, F>(s: Interpolant<E, F>): (r: Result<seq<Cell<F>>, Error>)
    ensures r.Failure? <==> s.fx.None?
    ensures r.Failure? ==> r.error == NoStorage
    ensures r.Success? ==> r.value == Slice(s.fx.value, s.nump)
  {
    match s.fx
    case None => Failure(NoStorage)
    case Some(fx) => Success(Slice(fx, s.nump))
  }

  // ---------------------------------------------------------------------
  // Model lifecycle
  // ---------------------------------------------------------------------

  /**
    `_model`: a new pyKriging model over the rows `x[:nump+1]`, `fx[:nump+1]`
    with capacity hint `maxp`, trained once.
   */
  function SetUpModel<E, F>(s: Interpolant<E, F>): (s': Interpolant<E, F>)
    requires s.x.Some? && s.fx.Some?
    ensures s' == s.(k := s'.k)
    ensures s'.k.Some? && s'.k.value.Fresh()
    ensures s'.k.value.trainCount == 1 && s'.k.value.hint == s.maxp
    ensures s'.k.value.xs == Slice(s.x.value, s.nump + 1)
    ensures s'.k.value.fxs == Slice(s.fx.value, s.nump + 1)
  {
    var m := Construct(Slice(s.x.value, s.nump + 1), Slice(s.fx.value, s.nump + 1), s.maxp);
    s.(k := Some(m.Train()))
  }

  /** The width `add_point` needs: that of the stored points, if any. */
  predicate Fits<E, F>(s: Interpolant<E, F>, xx: seq<E>) {
    s.nump > 0 ==> s.dim == Some(|xx|)
  }

  /**
    The buffer half of `add_point(xx, fx)`: makes room, writes the sample
    into row `nump` and counts it. The stored rows become the old ones with
    the new sample appended, across a resize too.
   */
  function Store<E, F>(s: Interpolant<E, F>, xx: seq<E>, fx: F): (w: Interpolant<E, F>)
    requires Valid(s)
    requires Fits(s, xx)
    ensures Stored(w)
    ensures w.nump == s.nump + 1
    ensures w == s.(nump := w.nump, maxp := w.maxp, x := w.x, fx := w.fx, dim := w.dim)
    ensures w.dim == Some(|xx|)
    ensures s.nump < s.maxp ==> w.maxp == s.maxp
    ensures 0 < s.nump == s.maxp ==> w.maxp == 2 * s.maxp
    ensures w.x.value[..w.nump] == GetX(s).GetOr([]) + [Val(xx)]
    ensures w.fx.value[..w.nump] == GetFx(s).GetOr([]) + [Val(fx)]
  {
    var r := Realloc(s, |xx|, 1);
    r.(x := Some(r.x.value[r.nump := Val(xx)]),
       fx := Some(r.fx.value[r.nump := Val(fx)]),
       nump := r.nump + 1)
  }

  /**
    The lifecycle half of `add_point(xx, fx)`, on the count after the
    insertion: below `initp` nothing happens, at `initp` the model is built
    and trained, above it the sample goes to the model, which turns stale.
   */
  function Dispatch<E, F>(w: Interpolant<E, F>, xx: seq<E>, fx: F): (s': Interpolant<E, F>)
    requires w.x.Some? && w.fx.Some?
    requires w.nump > w.initp ==> w.k.Some?
    ensures s'.nump == w.nump && s'.maxp == w.maxp && s'.x == w.x && s'.fx == w.fx
    ensures s'.initp == w.initp && s'.dim == w.dim
    ensures w.nump < w.initp ==> s'.k == w.k && s'.updated == w.updated
    ensures w.nump == w.initp ==>
      && s'.updated == w.updated
      && s'.k.Some? && s'.k.value.trainCount == 1 && s'.k.value.Fresh()
      && s'.k.value.hint == w.maxp
    ensures w.nump > w.initp ==>
      && s'.updated
      && s'.k.Some? && s'.k.value == w.k.value.AddPoint(xx, fx)
  {
    if w.nump < w.initp then
      w
    else if w.nump == w.initp then
      SetUpModel(w)
    else
      w.(k := Some(w.k.value.AddPoint(xx, fx)), updated := true)
  }

  /** `add_point(xx, fx)`: store the sample, then step the lifecycle. */
  function AddPoint<E, F>(s: Interpolant<E, F>, xx: seq<E>, fx: F): (s': Interpolant<E, F>)
    requires Valid(s)
    requires Fits(s, xx)
    ensures s'.nump == s.nump + 1
    ensures s'.nump <= s'.maxp
    ensures s'.initp == s.initp
    ensures s'.dim == Some(|xx|)
    ensures s.nump < s.maxp ==> s'.maxp == s.maxp
  {
    Dispatch(Store(s, xx, fx), xx, fx)
  }
}
