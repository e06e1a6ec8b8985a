/**
 * Forward re-derivation of leaf indices from root indices, and the
 * transpose swizzle of shared-memory tensors built on it: the second
 * swizzled axis is shifted by the first, modulo its extent, and the change
 * is propagated back to the roots through the expressions it affects.
 */
module Swizzle {
  import opened Wrappers
  import opened IndexExpr
  import opened Axes
  import IndexCompute
  import CArith

  datatype LeafError = MissingInner | MissingSplitInput | MissingOuter | MissingMergeInner

  /** The index and extent maps the forward pass updates. */
  datatype Leaves = Leaves(index: map<Axis, IExpr>, extent: map<Axis, IExpr>)

  function LeafExtent(attrs: Attrs, extent: map<Axis, IExpr>, a: Axis): IExpr {
    if a in extent then extent[a] else Extent(attrs, a)
  }

  /**
   * The forward split: nothing to do when outer is already indexed (inner
   * must then be too); otherwise inner is the input index modulo the factor
   * and outer the quotient, with the factor and the rounded-up quotient of
   * the extent as their extents. An input without an index has no value to
   * divide, which the IR builder refuses.
   */
  function LeafSplit(attrs: Attrs, m: Leaves, inp: Axis, outer: Axis, inner: Axis, factor: IExpr): (r: Result<Leaves, LeafError>)
    ensures outer in m.index ==> r == (if inner in m.index then Ok(m) else Err(MissingInner))
    ensures outer !in m.index ==> (r.Ok? <==> inp in m.index)
    ensures r.Ok? && outer !in m.index && outer != inner ==>
      && inner in r.value.index && outer in r.value.index
      && r.value.index[inner] == Mod(m.index[inp], factor) && r.value.index[outer] == Div(m.index[inp], factor)
      && inner in r.value.extent && r.value.extent[inner] == factor
  {
    if outer in m.index then
      if inner in m.index then Ok(m) else Err(MissingInner)
    else if inp !in m.index then Err(MissingSplitInput)
    else
      var idx := m.index[inp];
      var e1 := m.extent[inner := factor];
      Ok(Leaves(m.index[inner := Mod(idx, factor)][outer := Div(idx, factor)],
                e1[outer := CeilDiv(LeafExtent(attrs, e1, inp), factor)]))
  }

  /**
   * The forward merge as written: nothing to do when the output is indexed;
   * both inputs must be; the output's index is `inner * (outer * ext(inner))`,
   * which is not a linearisation of the two, and its extent is the product.
   */
  function LeafMerge(attrs: Attrs, m: Leaves, outer: Axis, inner: Axis, out: Axis): (r: Result<Leaves, LeafError>)
    ensures out in m.index ==> r == Ok(m)
    ensures out !in m.index ==> (r.Ok? <==> outer in m.index && inner in m.index)
    ensures r.Ok? && out !in m.index ==>
      && out in r.value.extent && out in r.value.index
      && forall env :: Eval(LeafExtent(attrs, m.extent, outer), env).Some? && Eval(LeafExtent(attrs, m.extent, inner), env).Some? ==>
           Eval(r.value.extent[out], env).Some? &&
           Eval(r.value.extent[out], env).value ==
             Eval(LeafExtent(attrs, m.extent, outer), env).value * Eval(LeafExtent(attrs, m.extent, inner), env).value
    ensures r.Ok? ==>
      && (forall a :: a != out ==> (a in r.value.index <==> a in m.index) && (a in r.value.index ==> r.value.index[a] == m.index[a]))
      && (forall a :: a != out ==> (a in r.value.extent <==> a in m.extent) && (a in r.value.extent ==> r.value.extent[a] == m.extent[a]))
  {
    if out in m.index then Ok(m)
    else if outer !in m.index then Err(MissingOuter)
    else if inner !in m.index then Err(MissingMergeInner)
    else
      var ie := LeafExtent(attrs, m.extent, inner);
      Ok(Leaves(m.index[out := Mul(m.index[inner], Mul(m.index[outer], ie))],
                m.extent[out := Mul(LeafExtent(attrs, m.extent, outer), ie)]))
  }

  /** The index the forward merge stores evaluates to `inner * (outer * ext(inner))`. */
  lemma LeafMergeIndexValue(attrs: Attrs, m: Leaves, outer: Axis, inner: Axis, out: Axis, env: Env)
    requires out !in m.index && outer in m.index && inner in m.index
    requires Eval(m.index[inner], env).Some? && Eval(m.index[outer], env).Some? && Eval(LeafExtent(attrs, m.extent, inner), env).Some?
    ensures LeafMerge(attrs, m, outer, inner, out).Ok?
    ensures LeafMerge(attrs, m, outer, inner, out).value.index[out] == Mul(m.index[inner], Mul(m.index[outer], LeafExtent(attrs, m.extent, inner)))
    ensures Eval(LeafMerge(attrs, m, outer, inner, out).value.index[out], env) ==
      Some(Eval(m.index[inner], env).value * (Eval(m.index[outer], env).value * Eval(LeafExtent(attrs, m.extent, inner), env).value))
  {
    var ie := LeafExtent(attrs, m.extent, inner);
    assert LeafMerge(attrs, m, outer, inner, out).value.index[out] == Mul(m.index[inner], Mul(m.index[outer], ie));
  }

  /**
   * The forward merge's index is not the linearisation `outer * ext(inner) + inner`:
   * with outer and inner both at 1 and an inner extent of 2 it is 2, where the
   * linearisation is 3, and the backward merge of 2 gives back outer 1 but inner 0.
   */
  lemma LeafMergeNotLinearisation(attrs: Attrs, env: Env)
    ensures var m := Leaves(map[0 := Lit(1), 1 := Lit(1)], map[1 := Lit(2)]);
      var r := LeafMerge(attrs, m, 0, 1, 2);
      && r.Ok?
      && Eval(r.value.index[2], env) == Some(2)
      && Eval(Add(Mul(Lit(1), Lit(2)), Lit(1)), env) == Some(3)
      && Eval(Div(r.value.index[2], Lit(2)), env) == Some(1)
      && Eval(Mod(r.value.index[2], Lit(2)), env) == Some(0)
  {
    var m := Leaves(map[0 := Lit(1), 1 := Lit(1)], map[1 := Lit(2)]);
    assert 2 !in m.index && m.index[0] == Lit(1) && m.index[1] == Lit(1);
    assert LeafExtent(attrs, m.extent, 1) == Lit(2);
    LeafMergeIndexValue(attrs, m, 0, 1, 2, env);
    var idx := LeafMerge(attrs, m, 0, 1, 2).value.index[2];
    assert idx == Mul(Lit(1), Mul(Lit(1), Lit(2)));
    assert Eval(idx, env) == Some(2);
    assert Eval(Div(idx, Lit(2)), env) == Some(CArith.TruncDiv(2, 2));
    assert Eval(Mod(idx, Lit(2)), env) == Some(CArith.TruncMod(2, 2));
  }

  /** The forward pass over the first `n` steps; steps other than splits and merges are passed over. */
  function UpdateLeafIndices(attrs: Attrs, h: seq<Transform>, n: nat, m: Leaves): Result<Leaves, LeafError>
    requires n <= |h|
    decreases n
  {
    if n == 0 then Ok(m)
    else
      var m1 :- UpdateLeafIndices(attrs, h, n - 1, m);
      match h[n - 1]
      case Split(inp, outer, inner, factor) => LeafSplit(attrs, m1, inp, outer, inner, factor)
      case Merge(outer, inner, out) => LeafMerge(attrs, m1, outer, inner, out)
      case Other(_, _) => Ok(m1)
  }

  /** The backward split of a forward split's leaves rebuilds the input's index as `(i / f) * f + i % f`. */
  lemma BackSplitOfForward(ctx: IndexCompute.Ctx, m: Leaves, inp: Axis, outer: Axis, inner: Axis, factor: IExpr)
    requires inp != outer && inp != inner && outer != inner
    requires inp in m.index && outer !in m.index
    ensures var fwd := LeafSplit(ctx.attrs, m, inp, outer, inner, factor);
      && fwd.Ok?
      && var st := IndexCompute.St(fwd.value.index, fwd.value.extent, {}, {});
         var back := IndexCompute.HandleSplit(ctx, st, inp, outer, inner);
         && inp in back.index
         && back.index[inp] == Add(Mul(Div(m.index[inp], factor), factor), Mod(m.index[inp], factor))
  {
    var fwd := LeafSplit(ctx.attrs, m, inp, outer, inner, factor).value;
    var st := IndexCompute.St(fwd.index, fwd.extent, {}, {});
    assert IndexCompute.GetExtent(ctx, st, inner) == factor;
  }

  /**
   * A forward split followed by the backward split rebuilds the input's
   * index: `(i / f) * f + i % f` evaluates to `i` for every non-zero factor,
   * and for `i >= 0`, `f > 0` the two parts are the Euclidean quotient and a
   * remainder in `[0, f)`.
   */
  lemma SplitRoundTrip(ctx: IndexCompute.Ctx, m: Leaves, inp: Axis, outer: Axis, inner: Axis, factor: IExpr, env: Env)
    requires inp != outer && inp != inner && outer != inner
    requires inp in m.index && outer !in m.index
    requires Eval(m.index[inp], env).Some? && Eval(factor, env).Some? && Eval(factor, env).value != 0
    ensures var fwd := LeafSplit(ctx.attrs, m, inp, outer, inner, factor);
      && fwd.Ok?
      && var st := IndexCompute.St(fwd.value.index, fwd.value.extent, {}, {});
         var back := IndexCompute.HandleSplit(ctx, st, inp, outer, inner);
         && inp in back.index
         && Eval(back.index[inp], env) == Eval(m.index[inp], env)
    ensures var i := Eval(m.index[inp], env).value;
      var f := Eval(factor, env).value;
      i >= 0 && f > 0 ==>
        && Eval(Div(m.index[inp], factor), env) == Some(i / f)
        && Eval(Mod(m.index[inp], factor), env) == Some(i % f)
        && 0 <= i % f < f
  {
    var e := m.index[inp];
    BackSplitOfForward(ctx, m, inp, outer, inner, factor);
    DivModRelinearise(e, factor, env);
    SplitPartsEuclid(e, factor, env);
  }

  /** For a non-negative index and a positive factor the split's parts are the Euclidean quotient and remainder. */
  lemma SplitPartsEuclid(e: IExpr, factor: IExpr, env: Env)
    requires Eval(e, env).Some? && Eval(factor, env).Some? && Eval(factor, env).value != 0
    ensures var i := Eval(e, env).value;
      var f := Eval(factor, env).value;
      i >= 0 && f > 0 ==>
        && Eval(Div(e, factor), env) == Some(i / f)
        && Eval(Mod(e, factor), env) == Some(i % f)
        && 0 <= i % f < f
  {
    var i := Eval(e, env).value;
    var f := Eval(factor, env).value;
    if i >= 0 && f > 0 {
      CArith.TruncAgreesWithEuclid(i, f);
      assert Eval(Div(e, factor), env) == Some(CArith.TruncDiv(i, f));
      assert Eval(Mod(e, factor), env) == Some(CArith.TruncMod(i, f));
    }
  }

  datatype SwizzleType = NoSwizzle | Transpose | OtherSwizzle

  datatype MemoryType = Local | Shared | Global

  datatype SwizzleError =
    | InvalidSwizzleType | NotShared | WrongAxisCount
    | LeafFailure(leaf: LeafError) | IndexFailure(index: IndexCompute.IndexError)

  /** `(i + j) % ext(j)`, the transpose swizzle of the second axis by the first. */
  function SwizzledIndex(i: IExpr, j: IExpr, extJ: IExpr): IExpr {
    Mod(Add(i, j), extJ)
  }

  /** For non-negative indices and a positive extent the swizzled index is `(i + j) mod ext`, inside `[0, ext)`. */
  lemma SwizzleBound(i: IExpr, j: IExpr, extJ: IExpr, env: Env)
    requires Eval(i, env).Some? && Eval(j, env).Some? && Eval(extJ, env).Some?
    requires Eval(i, env).value >= 0 && Eval(j, env).value >= 0 && Eval(extJ, env).value > 0
    ensures var v := Eval(SwizzledIndex(i, j, extJ), env);
      && v == Some((Eval(i, env).value + Eval(j, env).value) % Eval(extJ, env).value)
      && 0 <= v.value < Eval(extJ, env).value
  {
    var s := Eval(i, env).value + Eval(j, env).value;
    assert Eval(Add(i, j), env) == Some(s);
    CArith.TruncAgreesWithEuclid(s, Eval(extJ, env).value);
  }

  /** The inputs of an expression, as a set. */
  function InputSet(t: Transform): set<Axis> {
    set x | x in Inputs(t)
  }

  /** Whether some output of `t` is marked swizzled. */
  predicate TouchesSwizzled(t: Transform, swizzled: set<Axis>) {
    exists k :: 0 <= k < |Outputs(t)| && Outputs(t)[k] in swizzled
  }

  /**
   * The backward pass of the swizzle: only expressions with a swizzled
   * output are handled, and their inputs become swizzled in turn.
   */
  function RunSwizzled(ctx: IndexCompute.Ctx, st: IndexCompute.St, swizzled: set<Axis>, n: nat): Result<IndexCompute.St, IndexCompute.IndexError>
    requires n <= |ctx.h|
    decreases n
  {
    if n == 0 then Ok(st)
    else
      var t := ctx.h[n - 1];
      if !TouchesSwizzled(t, swizzled) then RunSwizzled(ctx, st, swizzled, n - 1)
      else
        var st1 :- IndexCompute.Dispatch(ctx, st, n - 1);
        RunSwizzled(ctx, st1, swizzled + InputSet(t), n - 1)
  }

  /** Where no expression produces a swizzled axis, the pass changes nothing. */
  lemma {:induction false} RunSwizzledUntouched(ctx: IndexCompute.Ctx, st: IndexCompute.St, swizzled: set<Axis>, n: nat)
    requires n <= |ctx.h|
    requires forall k, a :: 0 <= k < n && a in Outputs(ctx.h[k]) ==> a !in swizzled
    ensures RunSwizzled(ctx, st, swizzled, n) == Ok(st)
    decreases n
  {
    if n > 0 {
      assert !TouchesSwizzled(ctx.h[n - 1], swizzled);
      RunSwizzledUntouched(ctx, st, swizzled, n - 1);
    }
  }

  /**
   * `IndexSwizzle::run`: only no swizzle or a transpose is accepted; a
   * transpose needs shared memory and exactly two axes, re-derives the leaf
   * indices, and when both axes are indexed replaces the second's index by
   * the swizzled one before propagating it back. The engine it runs has no
   * contiguous axes, preferred paths or reference halo extents.
   */
  function IndexSwizzleRun(h: seq<Transform>, attrs: Attrs, rootDom: seq<Axis>, st: IndexCompute.St,
                           swizzleType: SwizzleType, memType: MemoryType, axes: seq<Axis>): (r: Result<IndexCompute.St, SwizzleError>)
    ensures swizzleType == OtherSwizzle ==> r == Err(InvalidSwizzleType)
    ensures swizzleType == NoSwizzle ==> r == Ok(st)
    ensures swizzleType == Transpose && memType != Shared ==> r == Err(NotShared)
    ensures swizzleType == Transpose && memType == Shared && |axes| != 2 ==> r == Err(WrongAxisCount)
  {
    if swizzleType == OtherSwizzle then Err(InvalidSwizzleType)
    else if swizzleType == NoSwizzle then Ok(st)
    else if memType != Shared then Err(NotShared)
    else if |axes| != 2 then Err(WrongAxisCount)
    else
      match UpdateLeafIndices(attrs, h, |h|, Leaves(st.index, st.extent))
      case Err(e) => Err(LeafFailure(e))
      case Ok(leaves) =>
        var st1 := IndexCompute.St(leaves.index, leaves.extent, st.zero, st.zeroMergedIn);
        var i := axes[0];
        var j := axes[1];
        if i in st1.index && j in st1.index then
          var st2 := st1.(index := st1.index[j := SwizzledIndex(st1.index[i], st1.index[j], Extent(attrs, j))]);
          match RunSwizzled(IndexCompute.Ctx(h, attrs, rootDom, [], {}, map[]), st2, {j}, |h|)
          case Err(e) => Err(IndexFailure(e))
          case Ok(st3) => Ok(st3)
        else Ok(st1)
  }

  /** Without contiguous axes, one backward step writes the index of no axis but its own inputs. */
  lemma DispatchWritesInputsOnly(ctx: IndexCompute.Ctx, st: IndexCompute.St, k: nat, a: Axis)
    requires k < |ctx.h| && ctx.contig == []
    requires a in st.index && a !in Inputs(ctx.h[k])
    ensures IndexCompute.Dispatch(ctx, st, k).Ok? ==>
      a in IndexCompute.Dispatch(ctx, st, k).value.index && IndexCompute.Dispatch(ctx, st, k).value.index[a] == st.index[a]
  {
    match ctx.h[k]
    case Split(inp, outer, inner, _) =>
      assert a != inp;
    case Merge(outer, inner, out) =>
      assert a != outer && a != inner;
      assert IndexCompute.MergeCaseOf(ctx, st, outer, inner, out) != IndexCompute.ContigPath;
    case Other(_, _) =>
  }

  /** Without contiguous axes, a backward step fails only on an expression other than a split or a merge. */
  lemma DispatchSucceeds(ctx: IndexCompute.Ctx, st: IndexCompute.St, k: nat)
    requires k < |ctx.h| && ctx.contig == [] && !ctx.h[k].Other?
    ensures IndexCompute.Dispatch(ctx, st, k).Ok?
  {
    if ctx.h[k].Merge? {
      var t := ctx.h[k];
      assert IndexCompute.MergeCaseOf(ctx, st, t.outer, t.inner, t.out) != IndexCompute.ContigPath;
    }
  }

  /** One step of the pass on an expression that produces a swizzled axis. */
  lemma RunSwizzledTouchedStep(ctx: IndexCompute.Ctx, st: IndexCompute.St, swizzled: set<Axis>, n: nat, st1: IndexCompute.St)
    requires 0 < n <= |ctx.h| && TouchesSwizzled(ctx.h[n - 1], swizzled)
    requires IndexCompute.Dispatch(ctx, st, n - 1) == Ok(st1)
    ensures RunSwizzled(ctx, st, swizzled, n) == RunSwizzled(ctx, st1, swizzled + InputSet(ctx.h[n - 1]), n - 1)
  {
  }

  /** Without contiguous axes, the pass keeps the index of an axis that no expression consumes. */
  lemma {:induction false} RunSwizzledKeeps(ctx: IndexCompute.Ctx, st: IndexCompute.St, swizzled: set<Axis>, n: nat, a: Axis)
    requires n <= |ctx.h| && ctx.contig == []
    requires a in st.index && forall k :: 0 <= k < n ==> a !in Inputs(ctx.h[k])
    ensures RunSwizzled(ctx, st, swizzled, n).Ok? ==>
      a in RunSwizzled(ctx, st, swizzled, n).value.index && RunSwizzled(ctx, st, swizzled, n).value.index[a] == st.index[a]
    decreases n
  {
    if n > 0 {
      var t := ctx.h[n - 1];
      var r := RunSwizzled(ctx, st, swizzled, n);
      if !TouchesSwizzled(t, swizzled) {
        assert r == RunSwizzled(ctx, st, swizzled, n - 1);
        RunSwizzledKeeps(ctx, st, swizzled, n - 1, a);
      } else {
        var d := IndexCompute.Dispatch(ctx, st, n - 1);
        DispatchWritesInputsOnly(ctx, st, n - 1, a);
        if d.Ok? {
          RunSwizzledTouchedStep(ctx, st, swizzled, n, d.value);
          RunSwizzledKeeps(ctx, d.value, swizzled + InputSet(t), n - 1, a);
        }
      }
    }
  }

  /** Without contiguous axes, the pass completes on a history of splits and merges. */
  lemma {:induction false} RunSwizzledSucceeds(ctx: IndexCompute.Ctx, st: IndexCompute.St, swizzled: set<Axis>, n: nat)
    requires n <= |ctx.h| && ctx.contig == []
    requires forall k :: 0 <= k < n ==> !ctx.h[k].Other?
    ensures RunSwizzled(ctx, st, swizzled, n).Ok?
    decreases n
  {
    if n > 0 {
      var t := ctx.h[n - 1];
      if !TouchesSwizzled(t, swizzled) {
        RunSwizzledSucceeds(ctx, st, swizzled, n - 1);
      } else {
        DispatchSucceeds(ctx, st, n - 1);
        RunSwizzledSucceeds(ctx, IndexCompute.Dispatch(ctx, st, n - 1).value, swizzled + InputSet(t), n - 1);
      }
    }
  }

  /**
   * When no expression of the history consumes the second axis (it is a
   * leaf), the transpose leaves it with the swizzled index of the two
   * re-derived leaf indices; the pass back to the roots then completes on
   * a history of splits and merges.
   */
  lemma TransposeSetsSwizzledIndex(h: seq<Transform>, attrs: Attrs, rootDom: seq<Axis>, st: IndexCompute.St, axes: seq<Axis>)
    requires |axes| == 2
    requires forall k :: 0 <= k < |h| ==> axes[1] !in Inputs(h[k])
    requires UpdateLeafIndices(attrs, h, |h|, Leaves(st.index, st.extent)).Ok?
    ensures var leaves := UpdateLeafIndices(attrs, h, |h|, Leaves(st.index, st.extent)).value;
      var r := IndexSwizzleRun(h, attrs, rootDom, st, Transpose, Shared, axes);
      axes[0] in leaves.index && axes[1] in leaves.index ==>
        && ((forall k :: 0 <= k < |h| ==> !h[k].Other?) ==> r.Ok?)
        && (r.Ok? ==>
              && axes[1] in r.value.index
              && r.value.index[axes[1]] == SwizzledIndex(leaves.index[axes[0]], leaves.index[axes[1]], Extent(attrs, axes[1])))
  {
    var leaves := UpdateLeafIndices(attrs, h, |h|, Leaves(st.index, st.extent)).value;
    if axes[0] in leaves.index && axes[1] in leaves.index {
      var st1 := IndexCompute.St(leaves.index, leaves.extent, st.zero, st.zeroMergedIn);
      var st2 := st1.(index := st1.index[axes[1] := SwizzledIndex(st1.index[axes[0]], st1.index[axes[1]], Extent(attrs, axes[1]))]);
      var ctx := IndexCompute.Ctx(h, attrs, rootDom, [], {}, map[]);
      RunSwizzledKeeps(ctx, st2, {axes[1]}, |h|, axes[1]);
      if forall k :: 0 <= k < |h| ==> !h[k].Other? {
        RunSwizzledSucceeds(ctx, st2, {axes[1]}, |h|);
      }
    }
  }
}
