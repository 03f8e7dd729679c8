/**
  The lifecycle of a `KrigingInterpolant` as a four-phase machine, and the
  guarantees of `add_point` and `reset` stated over whole states: the class
  invariant is kept, the sample rows grow by exactly the new sample, the
  model is built exactly when the count reaches `initp`.
 */
module Lifecycle {
  import opened Wrappers
  import opened KrigingEngine
  import opened KrigingInterpolant

  /** Collecting before `initp` points, then fitted or stale with `updated`. */
  datatype Phase = Empty | Collecting | Fitted | Stale

  function PhaseOf<E, F>(s: Interpolant<E, F>): Phase {
    if s.nump == 0 then Empty
    else if s.nump < s.initp then Collecting
    else if s.updated then Stale
    else Fitted
  }

  /** The rows currently stored, empty when there is no storage. */
  function Rows<E, F>(s: Interpolant<E, F>): seq<Cell<seq<E>>> {
    GetX(s).GetOr([])
  }

  function Values<E, F>(s: Interpolant<E, F>): seq<Cell<F>> {
    GetFx(s).GetOr([])
  }

  /** Every stored row was written by `add_point`, with the recorded width. */
  lemma StoredRowsAreWritten<E, F>(s: Interpolant<E, F>)
    requires Valid(s)
    ensures GetX(s).Success? <==> s.nump > 0
    ensures GetFx(s).Success? <==> s.nump > 0
    ensures |Rows(s)| == s.nump && |Values(s)| == s.nump
    ensures forall i :: 0 <= i < s.nump ==> Rows(s)[i].Val? && |Rows(s)[i].v| == s.dim.value
    ensures forall i :: 0 <= i < s.nump ==> Values(s)[i].Val?
  {
  }

  /** `add_point` keeps the class invariant. */
  lemma AddPointPreservesValid<E, F>(s: Interpolant<E, F>, xx: seq<E>, fx: F)
    requires Valid(s)
    requires Fits(s, xx)
    ensures Valid(AddPoint(s, xx, fx))
  {
    if s.nump + 1 == s.initp {
      BuildKeepsValid(s, xx, fx);
    } else if s.nump + 1 > s.initp {
      ForwardKeepsValid(s, xx, fx);
    }
  }

  /** At the threshold the freshly built model mirrors the storage. */
  lemma BuildKeepsValid<E, F>(s: Interpolant<E, F>, xx: seq<E>, fx: F)
    requires Valid(s)
    requires Fits(s, xx)
    requires s.nump + 1 == s.initp
    ensures Valid(AddPoint(s, xx, fx))
  {
    var w := Store(s, xx, fx);
    assert AddPoint(s, xx, fx) == SetUpModel(w);
    SetUpModelMirrors(w);
  }

  /** The rows `_model` hands over are the stored ones, then the phantom row. */
  lemma SetUpModelMirrors<E, F>(w: Interpolant<E, F>)
    requires Stored(w)
    requires w.nump == w.initp
    ensures Mirrored(SetUpModel(w))
  {
    var xw, fw := w.x.value, w.fx.value;
    var p: seq<Cell<seq<E>>> := Phantom(w.initp, w.maxp);
    var q: seq<Cell<F>> := Phantom(w.initp, w.maxp);
    if w.initp < w.maxp {
      assert xw[w.initp] == Zero && fw[w.initp] == Zero;
      assert xw[..w.initp + 1] == xw[..w.initp] + p + xw[w.initp..w.nump];
      assert fw[..w.initp + 1] == fw[..w.initp] + q + fw[w.initp..w.nump];
    } else {
      assert xw == xw[..w.initp] + p + xw[w.initp..w.nump];
      assert fw == fw[..w.initp] + q + fw[w.initp..w.nump];
    }
  }

  /** Above the threshold the forwarded sample extends the model's rows just
      as it extends the storage. */
  lemma ForwardKeepsValid<E, F>(s: Interpolant<E, F>, xx: seq<E>, fx: F)
    requires Valid(s)
    requires Fits(s, xx)
    requires s.nump + 1 > s.initp
    ensures Valid(AddPoint(s, xx, fx))
  {
    var w := Store(s, xx, fx);
    assert AddPoint(s, xx, fx) == w.(k := Some(w.k.value.AddPoint(xx, fx)), updated := true);
    ForwardMirrors(s, w, xx, fx);
  }

  lemma ForwardMirrors<E, F>(s: Interpolant<E, F>, w: Interpolant<E, F>, xx: seq<E>, fx: F)
    requires Mirrored(s)
    requires w.x.Some? && w.fx.Some? && w.k == s.k && w.initp == s.initp
    requires w.nump == s.nump + 1 <= |w.x.value| && w.nump <= |w.fx.value|
    requires s.maxp <= w.maxp
    requires w.x.value[..w.nump] == s.x.value[..s.nump] + [Val(xx)]
    requires w.fx.value[..w.nump] == s.fx.value[..s.nump] + [Val(fx)]
    ensures Mirrored(w.(k := Some(w.k.value.AddPoint(xx, fx)), updated := true))
  {
    var x, xw := s.x.value, w.x.value;
    var f, fw := s.fx.value, w.fx.value;
    var n, i := s.nump, s.initp;
    assert xw[..i] == x[..i] by {
      assert xw[..i] == xw[..n + 1][..i];
    }
    assert fw[..i] == f[..i] by {
      assert fw[..i] == fw[..n + 1][..i];
    }
    assert xw[i..n + 1] == x[i..n] + [Val(xx)] by {
      assert xw[i..n + 1] == xw[..n + 1][i..];
    }
    assert fw[i..n + 1] == f[i..n] + [Val(fx)] by {
      assert fw[i..n + 1] == fw[..n + 1][i..];
    }
  }

  /**
    Append and preserve: after `add_point(xx, fx)` the stored rows are the
    old ones followed by the new sample, whether or not the storage grew.
   */
  lemma AddPointAppends<E, F>(s: Interpolant<E, F>, xx: seq<E>, fx: F)
    requires Valid(s)
    requires Fits(s, xx)
    ensures GetX(AddPoint(s, xx, fx)) == Success(Rows(s) + [Val(xx)])
    ensures GetFx(AddPoint(s, xx, fx)) == Success(Values(s) + [Val(fx)])
  {
  }

  /**
    The transition table of `add_point`, on the count after the insertion:
    below `initp` the model is untouched; at `initp` a model is built and
    trained exactly once and `updated` keeps its value; above `initp` the
    sample reaches the existing model without training and it turns stale.
   */
  lemma AddPointTransition<E, F>(s: Interpolant<E, F>, xx: seq<E>, fx: F)
    requires Valid(s)
    requires Fits(s, xx)
    ensures var s' := AddPoint(s, xx, fx);
      && (s'.nump < s.initp ==>
            PhaseOf(s') == Collecting && s'.k == s.k && s'.updated == s.updated)
      && (s'.nump == s.initp ==>
            && s'.k.Some? && s'.k.value.trainCount == 1 && s'.k.value.Fresh()
            && s'.updated == s.updated
            && PhaseOf(s') == (if s.updated then Stale else Fitted))
      && (s'.nump > s.initp ==>
            && s.k.Some? && s'.k.Some?
            && s'.k.value.xs == s.k.value.xs + [Val(xx)]
            && s'.k.value.fxs == s.k.value.fxs + [Val(fx)]
            && s'.k.value.trainCount == s.k.value.trainCount
            && s'.updated && PhaseOf(s') == Stale)
  {
  }

  /**
    The build step as written hands the model `nump + 1` rows whenever the
    storage has room: the samples and then one zero-filled row that is no
    sample. Only a storage filled to capacity gives exactly the samples.
   */
  lemma BuildSnapshotHasPhantomRow<E, F>(s: Interpolant<E, F>, xx: seq<E>, fx: F)
    requires Valid(s)
    requires Fits(s, xx)
    requires s.nump + 1 == s.initp
    ensures var s' := AddPoint(s, xx, fx);
      && s'.k.Some? && GetX(s').Success? && GetFx(s').Success?
      && s'.k.value.hint == s'.maxp
      && (s'.nump < s'.maxp ==>
            && s'.k.value.xs == GetX(s').value + [Zero]
            && s'.k.value.fxs == GetFx(s').value + [Zero])
      && (s'.nump == s'.maxp ==>
            && s'.k.value.xs == GetX(s').value
            && s'.k.value.fxs == GetFx(s').value)
  {
    AddPointPreservesValid(s, xx, fx);
    var s' := AddPoint(s, xx, fx);
    assert Mirrored(s');
    var x, f := s'.x.value, s'.fx.value;
    assert x[s'.initp..s'.nump] == [] && f[s'.initp..s'.nump] == [];
    assert x[..s'.initp] + Phantom(s'.initp, s'.maxp) + [] == x[..s'.initp] + Phantom(s'.initp, s'.maxp);
    assert f[..s'.initp] + Phantom(s'.initp, s'.maxp) + [] == f[..s'.initp] + Phantom(s'.initp, s'.maxp);
  }

  /**
    The build step as evidently intended: the model over exactly the
    `nump` stored samples, `x[:nump]` and `fx[:nump]`.
   */
  function SetUpModelExact<E, F>(s: Interpolant<E, F>): (s': Interpolant<E, F>)
    requires s.x.Some? && s.fx.Some?
    ensures s' == s.(k := s'.k)
    ensures s'.k.Some? && s'.k.value.Fresh() && s'.k.value.trainCount == 1
    ensures s'.k.value.xs == Rows(s) && s'.k.value.fxs == Values(s)
  {
    var m := Construct(Slice(s.x.value, s.nump), Slice(s.fx.value, s.nump), s.maxp);
    s.(k := Some(m.Train()))
  }

  /**
    Built the intended way at the threshold, the model holds the samples
    and nothing else: as many rows as points, each one written by
    `add_point`, whether or not the storage had room to spare.
   */
  lemma ExactBuildHoldsOnlySamples<E, F>(s: Interpolant<E, F>, xx: seq<E>, fx: F)
    requires Valid(s)
    requires Fits(s, xx)
    requires s.nump + 1 == s.initp
    ensures var w := Store(s, xx, fx);
      var m := SetUpModelExact(w).k.value;
      && |m.xs| == |m.fxs| == s.initp
      && (forall i :: 0 <= i < |m.xs| ==> m.xs[i].Val? && m.fxs[i].Val?)
      && m.xs == Rows(s) + [Val(xx)] && m.fxs == Values(s) + [Val(fx)]
  {
  }

  /**
    `reset` keeps the class invariant and forgets the samples only: the next
    insertion allocates storage of the capacity reached before the reset
    and starts the rows afresh.
   */
  lemma ResetThenAdd<E, F>(s: Interpolant<E, F>, xx: seq<E>, fx: F)
    requires Valid(s)
    ensures Valid(Reset(s)) && PhaseOf(Reset(s)) == Empty
    ensures GetX(Reset(s)).Failure? && GetFx(Reset(s)).Failure?
    ensures var s' := AddPoint(Reset(s), xx, fx);
      && s'.maxp == s.maxp && |s'.x.value| == s.maxp
      && GetX(s') == Success([Val(xx)]) && GetFx(s') == Success([Val(fx)])
      && (s.initp > 1 ==> s'.k == s.k && s'.updated == s.updated)
  {
    AddPointAppends(Reset(s), xx, fx);
    assert Rows(Reset(s)) + [Val(xx)] == [Val(xx)];
    assert Values(Reset(s)) + [Val(fx)] == [Val(fx)];
  }

  /**
    An insertion into full storage doubles it and keeps every stored row:
    with `maxp = 4`, the fifth point finds eight rows.
   */
  lemma FullStorageDoubles<E, F>(s: Interpolant<E, F>, xx: seq<E>, fx: F)
    requires Valid(s)
    requires Fits(s, xx)
    requires 0 < s.nump == s.maxp
    ensures AddPoint(s, xx, fx).maxp == 2 * s.maxp
    ensures GetX(AddPoint(s, xx, fx)) == Success(GetX(s).value + [Val(xx)])
    ensures GetFx(AddPoint(s, xx, fx)) == Success(GetFx(s).value + [Val(fx)])
  {
    AddPointAppends(s, xx, fx);
  }

  /** An insertion that finds a free row, or the first insertion into fresh
      storage, leaves the capacity as it was. */
  lemma AddPointWithRoomKeepsCapacity<E, F>(s: Interpolant<E, F>, xx: seq<E>, fx: F)
    requires Valid(s)
    requires Fits(s, xx)
    requires s.nump + 1 <= s.maxp
    ensures AddPoint(s, xx, fx).maxp == s.maxp
    ensures AddPoint(s, xx, fx).nump <= s.maxp
  {
  }

  /**
    Growth never overallocates by more than a factor of two over the count,
    unless the capacity `m` chosen at construction is larger.
   */
  lemma AddPointOverallocation<E, F>(s: Interpolant<E, F>, xx: seq<E>, fx: F, m: nat)
    requires Valid(s)
    requires Fits(s, xx)
    requires s.maxp <= Max(m, 2 * s.nump)
    ensures AddPoint(s, xx, fx).maxp <= Max(m, 2 * (s.nump + 1))
  {
  }

  // ---------------------------------------------------------------------
  // Sequences of insertions
  // ---------------------------------------------------------------------

  /** A width every point of `pts` has, and the stored points have too. */
  predicate FitsAll<E, F>(s: Interpolant<E, F>, pts: seq<(seq<E>, F)>, d: nat) {
    && (s.nump > 0 ==> s.dim == Some(d))
    && forall i :: 0 <= i < |pts| ==> |pts[i].0| == d
  }

  /** `add_point` on each sample of `pts` in turn, as an optimisation loop does. */
  function AddAll<E, F>(s: Interpolant<E, F>, pts: seq<(seq<E>, F)>, d: nat): (s': Interpolant<E, F>)
    requires Valid(s)
    requires FitsAll(s, pts, d)
    ensures Valid(s')
    ensures s'.nump == s.nump + |pts| && s'.initp == s.initp
    ensures FitsAll(s', [], d)
    decreases |pts|
  {
    if |pts| == 0 then
      s
    else
      var before := AddAll(s, pts[..|pts| - 1], d);
      var (xx, fx) := pts[|pts| - 1];
      AddPointPreservesValid(before, xx, fx);
      AddPoint(before, xx, fx)
  }

  function PointRows<E, F>(pts: seq<(seq<E>, F)>): (r: seq<Cell<seq<E>>>)
    ensures |r| == |pts|
    ensures forall i :: 0 <= i < |pts| ==> r[i] == Val(pts[i].0)
  {
    seq(|pts|, i requires 0 <= i < |pts| => Val(pts[i].0))
  }

  function ValueRows<E, F>(pts: seq<(seq<E>, F)>): (r: seq<Cell<F>>)
    ensures |r| == |pts|
    ensures forall i :: 0 <= i < |pts| ==> r[i] == Val(pts[i].1)
  {
    seq(|pts|, i requires 0 <= i < |pts| => Val(pts[i].1))
  }

  /** A non-empty batch is the batch without its last sample, then that
      sample. */
  lemma AddAllSnoc<E, F>(s: Interpolant<E, F>, pts: seq<(seq<E>, F)>, d: nat)
    requires Valid(s)
    requires FitsAll(s, pts, d)
    requires |pts| > 0
    ensures FitsAll(s, pts[..|pts| - 1], d)
    ensures Valid(AddAll(s, pts[..|pts| - 1], d))
    ensures Fits(AddAll(s, pts[..|pts| - 1], d), pts[|pts| - 1].0)
    ensures AddAll(s, pts, d) ==
      AddPoint(AddAll(s, pts[..|pts| - 1], d), pts[|pts| - 1].0, pts[|pts| - 1].1)
  {
  }

  /** The rows of a non-empty batch are those of all but its last sample,
      then the last sample's. */
  lemma RowsOfSnoc<E, F>(pts: seq<(seq<E>, F)>)
    requires |pts| > 0
    ensures PointRows(pts) == PointRows(pts[..|pts| - 1]) + [Val(pts[|pts| - 1].0)]
    ensures ValueRows(pts) == ValueRows(pts[..|pts| - 1]) + [Val(pts[|pts| - 1].1)]
  {
  }

  lemma ConcatAssoc<T>(a: seq<T>, b: seq<T>, c: seq<T>)
    ensures (a + b) + c == a + (b + c)
  {
  }

  /**
    Any number of insertions, through any number of resizes, leaves the
    earlier rows in place and appends the new samples in order.
   */
  lemma {:induction false} AddAllAppends<E, F>(s: Interpolant<E, F>, pts: seq<(seq<E>, F)>, d: nat)
    requires Valid(s)
    requires FitsAll(s, pts, d)
    ensures Rows(AddAll(s, pts, d)) == Rows(s) + PointRows(pts)
    ensures Values(AddAll(s, pts, d)) == Values(s) + ValueRows(pts)
    decreases |pts|
  {
    if |pts| == 0 {
      assert AddAll(s, pts, d) == s;
      assert Rows(s) + PointRows(pts) == Rows(s);
      assert Values(s) + ValueRows(pts) == Values(s);
    } else {
      var init := pts[..|pts| - 1];
      var (xx, fx) := pts[|pts| - 1];
      var before := AddAll(s, init, d);
      assert AddAll(s, pts, d) == AddPoint(before, xx, fx);
      AddAllAppends(s, init, d);
      AddPointAppends(before, xx, fx);
      RowsOfSnoc(pts);
      ConcatAssoc(Rows(s), PointRows(init), [Val(xx)]);
      ConcatAssoc(Values(s), ValueRows(init), [Val(fx)]);
    }
  }

  /**
    Starting without a model, a model exists after the insertions exactly
    when the count reached `initp`: never before, always from then on.
   */
  lemma {:induction false} ModelBuiltAtThreshold<E, F>(s: Interpolant<E, F>, pts: seq<(seq<E>, F)>, d: nat)
    requires Valid(s)
    requires FitsAll(s, pts, d)
    requires s.k.None?
    ensures AddAll(s, pts, d).k.Some? <==> s.nump + |pts| >= s.initp
    decreases |pts|
  {
    if |pts| > 0 {
      var init := pts[..|pts| - 1];
      var (xx, fx) := pts[|pts| - 1];
      var before := AddAll(s, init, d);
      assert AddAll(s, pts, d) == AddPoint(before, xx, fx);
      ModelBuiltAtThreshold(s, init, d);
      AddPointTransition(before, xx, fx);
    }
  }

  /**
    Amortised capacity: however many insertions follow, doubling keeps the
    capacity within twice the count, unless the capacity `m` chosen at
    construction is larger. `reset` keeps a grown capacity, so the bound is
    about the insertions since construction, not since the latest reset.
   */
  lemma {:induction false} AddAllCapacity<E, F>(s: Interpolant<E, F>, pts: seq<(seq<E>, F)>, d: nat, m: nat)
    requires Valid(s)
    requires FitsAll(s, pts, d)
    requires s.maxp <= Max(m, 2 * s.nump)
    ensures AddAll(s, pts, d).maxp <= Max(m, 2 * (s.nump + |pts|))
    decreases |pts|
  {
    if |pts| == 0 {
      assert AddAll(s, pts, d) == s;
    } else {
      var init := pts[..|pts| - 1];
      var before := AddAll(s, init, d);
      AddAllSnoc(s, pts, d);
      AddAllCapacity(s, init, d, m);
      AddPointOverallocation(before, pts[|pts| - 1].0, pts[|pts| - 1].1, m);
    }
  }

  /** From construction, the capacity after `n` insertions is at most
      `max(maxp, 2 * n)`. */
  lemma ConstructedCapacity<E, F>(initp: nat, m: nat, pts: seq<(seq<E>, F)>, d: nat)
    requires initp >= 1 && m >= 1
    requires FitsAll(Init<E, F>(initp, m), pts, d)
    ensures AddAll(Init<E, F>(initp, m), pts, d).maxp <= Max(m, 2 * |pts|)
  {
    AddAllCapacity(Init<E, F>(initp, m), pts, d, m);
  }
}
