/**
 * Assembly of the per-root-axis strided indices of a tensor access. Global
 * tensors are addressed through named runtime strides, collapsed into
 * running products over contiguous dimensions; shared and local buffers are
 * laid out densely, so the stride of an axis is the product of the extents
 * of the axes after it. A double-buffered buffer gets one more index that
 * selects the half in use.
 */
module StridedIndices {
  import opened Wrappers
  import opened IndexExpr
  import opened Axes
  import Names
  import ProducerOffsets
  import CArith

  datatype Side = ProducerSide | ConsumerSide

  datatype StrideError =
    | ContiguityMismatch
    | MissingRootIndex(dim: nat)
    | OffsetFailure(reason: ProducerOffsets.OffsetError)
    | IndexCountMismatch

  /** The index adjustments made before striding. */
  datatype Adjust =
      /** A producer read: halo, gather and partial-split offsets. */
    | ProducerAdjust(p2c: map<Axis, Axis>, shift: Option<seq<int>>, gather: Option<ProducerOffsets.GatherOp>,
                     consumerRoot: seq<Axis>, lookup: ProducerOffsets.RefLookup, refIndex: map<Axis, IExpr>,
                     starts: map<Axis, IExpr>)
      /** A consumer write: a global tensor adds its partial-split start offset. */
    | ConsumerAdjust(starts: map<Axis, IExpr>)

  /** The double-buffering state of a tensor: the loop index is absent when the double-buffer loop is not among the enclosing loops. */
  datatype DoubleBuffer = NotDoubleBuffered | DoubleBuffered(loopIndex: Option<IExpr>, allocSize: IExpr)

  /** Everything the assemblers read about one tensor access. */
  datatype Indexing = Indexing(
    tv: nat, global: bool, attrs: Attrs, hm: HaloMap, trivial: set<Axis>,
    leaf: seq<Axis>, root: seq<Axis>, contiguity: seq<bool>,
    index: map<Axis, IExpr>, extents: map<Axis, IExpr>, zero: set<Axis>,
    p2cAlloc: map<Axis, Axis>, adjust: Adjust, db: DoubleBuffer)

  function SideOf(ix: Indexing): Side {
    if ix.adjust.ProducerAdjust? then ProducerSide else ConsumerSide
  }

  predicate WellFormed(ix: Indexing) {
    ix.adjust.ProducerAdjust? && ix.adjust.gather.Some? ==> ProducerOffsets.ValidGather(ix.adjust.gather.value)
  }

  /** `getHaloExtentOfRootAxis`: an axis with halo is widened by its total halo. */
  function HaloExtent(hm: HaloMap, a: Axis, normal: IExpr): (r: IExpr)
    ensures forall env :: Eval(normal, env).Some? ==>
      Eval(r, env) == Some(Eval(normal, env).value + HaloTotal(hm, a))
  {
    if HasHalo(hm, a) then Add(normal, Lit(HaloTotal(hm, a))) else normal
  }

  // ---------------------------------------------------------------------------
  // Stride names
  // ---------------------------------------------------------------------------

  /**
   * Axes that take no stride name: reductions and broadcasts without a
   * stride, and on the consumer side stride axes too.
   */
  predicate Unstrided(attrs: Attrs, side: Side, a: Axis) {
    IsReduction(attrs, a) || Info(attrs, a).kind == BroadcastWithoutStride
    || (side == ConsumerSide && IsStride(attrs, a))
  }

  /** How many axes of `s` take a stride name. */
  function CountStrided(attrs: Attrs, side: Side, s: seq<Axis>): (r: nat)
    ensures r <= |s|
  {
    if s == [] then 0
    else CountStrided(attrs, side, s[..|s| - 1]) + (if Unstrided(attrs, side, s[|s| - 1]) then 0 else 1)
  }

  /**
   * The strides before contiguity is taken into account: one for an
   * unstrided axis, and `T<tv>.stride[k]` for the `k`-th strided axis.
   */
  function InitialStrides(tv: nat, attrs: Attrs, side: Side, root: seq<Axis>): (r: seq<IExpr>)
    ensures |r| == |root|
  {
    seq(|root|, d requires 0 <= d < |root| =>
      if Unstrided(attrs, side, root[d]) then Lit(1)
      else Var(Names.StrideName(tv, CountStrided(attrs, side, root[..d]))))
  }

  /** A strided axis is counted in every longer prefix. */
  lemma {:induction false} CountStridedGrows(attrs: Attrs, side: Side, root: seq<Axis>, d1: nat, d2: nat)
    requires d1 < d2 <= |root| && !Unstrided(attrs, side, root[d1])
    ensures CountStrided(attrs, side, root[..d1]) < CountStrided(attrs, side, root[..d2])
    decreases d2
  {
    assert root[..d2][..d2 - 1] == root[..d2 - 1];
    if d2 - 1 > d1 {
      CountStridedGrows(attrs, side, root, d1, d2 - 1);
    }
  }

  /** The stride numbers handed out are exactly `0 .. CountStrided(root) - 1`, one per strided axis. */
  lemma StrideNumbersInRange(attrs: Attrs, side: Side, root: seq<Axis>, d: nat)
    requires d < |root| && !Unstrided(attrs, side, root[d])
    ensures CountStrided(attrs, side, root[..d]) < CountStrided(attrs, side, root)
  {
    CountStridedGrows(attrs, side, root, d, |root|);
    assert root[..|root|] == root;
  }

  /** No two strided axes of a tensor share a stride name. */
  lemma StrideNamesDistinct(tv: nat, attrs: Attrs, side: Side, root: seq<Axis>, d1: nat, d2: nat)
    requires d1 < d2 < |root|
    requires !Unstrided(attrs, side, root[d1]) && !Unstrided(attrs, side, root[d2])
    ensures InitialStrides(tv, attrs, side, root)[d1] != InitialStrides(tv, attrs, side, root)[d2]
  {
    CountStridedGrows(attrs, side, root, d1, d2);
    if InitialStrides(tv, attrs, side, root)[d1] == InitialStrides(tv, attrs, side, root)[d2] {
      Names.StrideNameInjective(tv, CountStrided(attrs, side, root[..d1]), tv, CountStrided(attrs, side, root[..d2]));
    }
  }

  // ---------------------------------------------------------------------------
  // Contiguous strides of a global tensor
  // ---------------------------------------------------------------------------

  predicate Strided(ix: Indexing, d: nat)
    requires d < |ix.root|
  {
    !Unstrided(ix.attrs, SideOf(ix), ix.root[d])
  }

  /** The first strided axis at or after `from`. */
  function NextStrided(ix: Indexing, from: nat): (r: Option<nat>)
    requires from <= |ix.root|
    ensures r.Some? ==> from <= r.value < |ix.root| && Strided(ix, r.value)
    ensures r.Some? ==> forall j :: from <= j < r.value ==> !Strided(ix, j)
    ensures r.None? ==> forall j :: from <= j < |ix.root| ==> !Strided(ix, j)
    decreases |ix.root| - from
  {
    if from == |ix.root| then None
    else if Strided(ix, from) then Some(from)
    else NextStrided(ix, from + 1)
  }

  /** The halo-widened extent of root axis `d`. */
  function RootExtent(ix: Indexing, d: nat): IExpr
    requires d < |ix.root|
  {
    HaloExtent(ix.hm, ix.root[d], Extent(ix.attrs, ix.root[d]))
  }

  /**
   * What a contiguous axis just before `from` is strided by: the next
   * strided axis's stride times its extent, or one when there is none.
   */
  function Carry(ix: Indexing, strides: seq<IExpr>, from: nat): IExpr
    requires from <= |ix.root| == |strides|
  {
    match NextStrided(ix, from)
    case None => Lit(1)
    case Some(e) => Mul(strides[e], RootExtent(ix, e))
  }

  /** A strided axis that needs a root index has one, or is a broadcast with stride. */
  predicate HasRootIndex(ix: Indexing, d: nat)
    requires d < |ix.root|
  {
    ix.root[d] in ix.index || Info(ix.attrs, ix.root[d]).kind == BroadcastWithStride
  }

  /** The innermost-first pass over axes `n - 1` down to `0`. */
  function Assemble(ix: Indexing, n: nat, cur: IExpr, strides: seq<IExpr>): Result<seq<IExpr>, StrideError>
    requires n <= |ix.root| == |strides| == |ix.contiguity|
    decreases n
  {
    if n == 0 then Ok(strides)
    else
      var d := n - 1;
      if !Strided(ix, d) then Assemble(ix, d, cur, strides)
      else if !HasRootIndex(ix, d) then Err(MissingRootIndex(d))
      else if ix.contiguity[d] then Assemble(ix, d, Mul(cur, RootExtent(ix, d)), strides[d := cur])
      else Assemble(ix, d, Mul(strides[d], RootExtent(ix, d)), strides)
  }

  /** Every contiguous strided axis in `[from, |root|)` is strided by what follows it. */
  predicate Settled(ix: Indexing, strides: seq<IExpr>, from: nat)
    requires from <= |ix.root| == |strides| == |ix.contiguity|
  {
    forall d :: from <= d < |ix.root| && Strided(ix, d) && ix.contiguity[d] ==> strides[d] == Carry(ix, strides, d + 1)
  }

  lemma CarryAgree(ix: Indexing, s1: seq<IExpr>, s2: seq<IExpr>, from: nat)
    requires from <= |ix.root| == |s1| == |s2|
    requires forall d :: from <= d < |ix.root| ==> s1[d] == s2[d]
    ensures Carry(ix, s1, from) == Carry(ix, s2, from)
  {
  }

  /** Giving a contiguous strided axis its carry keeps the later axes settled and settles it too. */
  lemma SettleContiguous(ix: Indexing, n: nat, cur: IExpr, strides: seq<IExpr>)
    requires 0 < n <= |ix.root| == |strides| == |ix.contiguity|
    requires cur == Carry(ix, strides, n) && Settled(ix, strides, n)
    requires Strided(ix, n - 1) && ix.contiguity[n - 1]
    ensures Mul(cur, RootExtent(ix, n - 1)) == Carry(ix, strides[n - 1 := cur], n - 1)
    ensures Settled(ix, strides[n - 1 := cur], n - 1)
  {
    var s2 := strides[n - 1 := cur];
    assert NextStrided(ix, n - 1) == Some(n - 1);
    forall e | n - 1 <= e < |ix.root| && Strided(ix, e) && ix.contiguity[e]
      ensures s2[e] == Carry(ix, s2, e + 1)
    {
      CarryAgree(ix, strides, s2, e + 1);
      if e >= n {
        assert s2[e] == strides[e] == Carry(ix, strides, e + 1);
      }
    }
  }

  lemma {:induction false} AssembleSpec(ix: Indexing, n: nat, cur: IExpr, strides: seq<IExpr>)
    requires n <= |ix.root| == |strides| == |ix.contiguity|
    requires cur == Carry(ix, strides, n)
    requires Settled(ix, strides, n)
    ensures Assemble(ix, n, cur, strides).Ok? <==> forall d :: 0 <= d < n && Strided(ix, d) ==> HasRootIndex(ix, d)
    ensures Assemble(ix, n, cur, strides).Ok? ==>
      var r := Assemble(ix, n, cur, strides).value;
      |r| == |strides| && Settled(ix, r, 0)
      && (forall d :: 0 <= d < |ix.root| && (n <= d || !Strided(ix, d) || !ix.contiguity[d]) ==> r[d] == strides[d])
    decreases n
  {
    if n > 0 {
      var d := n - 1;
      if !Strided(ix, d) {
        assert Carry(ix, strides, d) == Carry(ix, strides, n);
        AssembleSpec(ix, d, cur, strides);
      } else if HasRootIndex(ix, d) {
        if ix.contiguity[d] {
          SettleContiguous(ix, n, cur, strides);
          AssembleSpec(ix, d, Mul(cur, RootExtent(ix, d)), strides[d := cur]);
        } else {
          AssembleSpec(ix, d, Mul(strides[d], RootExtent(ix, d)), strides);
        }
      }
    }
  }

  /**
   * The strides of a global tensor: named strides for discontiguous axes,
   * and for each contiguous axis the stride of the next strided axis times
   * that axis's halo-widened extent (one for the innermost).
   */
  function GlobalStrides(ix: Indexing): (r: Result<seq<IExpr>, StrideError>)
    ensures |ix.contiguity| != |ix.root| ==> r == Err(ContiguityMismatch)
    ensures |ix.contiguity| == |ix.root| ==>
      (r.Ok? <==> forall d :: 0 <= d < |ix.root| && Strided(ix, d) ==> HasRootIndex(ix, d))
    ensures r.Ok? ==> |r.value| == |ix.root| && |ix.contiguity| == |ix.root|
    ensures r.Ok? ==> forall d :: 0 <= d < |ix.root| ==>
      if !Strided(ix, d) then r.value[d] == Lit(1)
      else if ix.contiguity[d] then r.value[d] == Carry(ix, r.value, d + 1)
      else r.value[d] == Var(Names.StrideName(ix.tv, CountStrided(ix.attrs, SideOf(ix), ix.root[..d])))
  {
    if |ix.contiguity| != |ix.root| then Err(ContiguityMismatch)
    else
      var init := InitialStrides(ix.tv, ix.attrs, SideOf(ix), ix.root);
      AssembleSpec(ix, |ix.root|, Lit(1), init);
      Assemble(ix, |ix.root|, Lit(1), init)
  }

  /** The product of the halo-widened extents of the strided axes from `from` on. */
  function ExtentProduct(ix: Indexing, env: Env, from: nat): Option<int>
    requires from <= |ix.root|
    decreases |ix.root| - from
  {
    if from == |ix.root| then Some(1)
    else
      var rest :- ExtentProduct(ix, env, from + 1);
      if !Strided(ix, from) then Some(rest)
      else var x :- Eval(RootExtent(ix, from), env); Some(rest * x)
  }

  /** The stride of a contiguous strided axis of a global tensor, read off the assembled strides. */
  lemma ContiguousStrideAt(ix: Indexing, strides: seq<IExpr>, d: nat)
    requires GlobalStrides(ix) == Ok(strides)
    requires d < |ix.root| && Strided(ix, d) && ix.contiguity[d]
    ensures strides[d] == Carry(ix, strides, d + 1)
  {
  }

  /** One step of the extent product. */
  lemma ExtentProductStep(ix: Indexing, env: Env, from: nat, p: int)
    requires from < |ix.root| && ExtentProduct(ix, env, from) == Some(p)
    ensures ExtentProduct(ix, env, from + 1).Some?
    ensures Strided(ix, from) ==>
      Eval(RootExtent(ix, from), env).Some? && p == ExtentProduct(ix, env, from + 1).value * Eval(RootExtent(ix, from), env).value
    ensures !Strided(ix, from) ==> ExtentProduct(ix, env, from + 1) == Some(p)
  {
  }

  /** What an axis before a strided axis is strided by: that axis's stride times its extent. */
  lemma CarryStep(ix: Indexing, strides: seq<IExpr>, from: nat)
    requires from < |ix.root| == |strides|
    ensures Strided(ix, from) ==> Carry(ix, strides, from) == Mul(strides[from], RootExtent(ix, from))
    ensures !Strided(ix, from) ==> Carry(ix, strides, from) == Carry(ix, strides, from + 1)
  {
  }

  lemma MulEval(a: IExpr, b: IExpr, env: Env, x: int, y: int)
    requires Eval(a, env) == Some(x) && Eval(b, env) == Some(y)
    ensures Eval(Mul(a, b), env) == Some(x * y)
  {
  }

  /**
   * Over a fully contiguous stretch, what an axis before `from` is strided
   * by is the product of the extents of the strided axes from `from` on.
   */
  lemma {:induction false} CarryIsProduct(ix: Indexing, strides: seq<IExpr>, from: nat, env: Env)
    requires GlobalStrides(ix) == Ok(strides)
    requires from <= |ix.root|
    requires forall e :: from <= e < |ix.root| && Strided(ix, e) ==> ix.contiguity[e]
    requires ExtentProduct(ix, env, from).Some?
    ensures Eval(Carry(ix, strides, from), env) == ExtentProduct(ix, env, from)
    decreases |ix.root| - from
  {
    if from < |ix.root| {
      ExtentProductStep(ix, env, from, ExtentProduct(ix, env, from).value);
      CarryIsProduct(ix, strides, from + 1, env);
      CarryStep(ix, strides, from);
      if Strided(ix, from) {
        ContiguousStrideAt(ix, strides, from);
        MulEval(strides[from], RootExtent(ix, from), env,
                ExtentProduct(ix, env, from + 1).value, Eval(RootExtent(ix, from), env).value);
      }
    }
  }

  /**
   * Over a fully contiguous stretch, the stride of an axis is the product
   * of the extents of the strided axes after it; the innermost is one.
   */
  lemma ContiguousStrideIsProduct(ix: Indexing, strides: seq<IExpr>, d: nat, env: Env)
    requires GlobalStrides(ix) == Ok(strides)
    requires d < |ix.root| && Strided(ix, d)
    requires forall e :: d <= e < |ix.root| && Strided(ix, e) ==> ix.contiguity[e]
    requires ExtentProduct(ix, env, d + 1).Some?
    ensures Eval(strides[d], env) == ExtentProduct(ix, env, d + 1)
    ensures NextStrided(ix, d + 1).None? ==> strides[d] == Lit(1)
  {
    CarryIsProduct(ix, strides, d + 1, env);
  }

  // ---------------------------------------------------------------------------
  // Index adjustments and the per-axis strided index
  // ---------------------------------------------------------------------------

  /** The root index of axis `i` after the offsets a producer or a global consumer needs. */
  function AdjustIndex(ix: Indexing, i: nat, ind: IExpr): (r: Result<IExpr, StrideError>)
    requires WellFormed(ix) && i < |ix.root|
    ensures ix.adjust.ConsumerAdjust? && !ix.global ==> r == Ok(ind)
    ensures ix.adjust.ConsumerAdjust? && ix.global ==>
      r == Ok(AddFolded(ind, ProducerOffsets.StartOffset(ix.adjust.starts, ix.root[i])))
    ensures ix.adjust.ProducerAdjust? ==>
      (r.Err? <==> ProducerOffsets.HaloOffset(ix.root, i, ix.adjust.p2c, ix.hm, ix.adjust.shift).Err?
                   || ProducerOffsets.IndexWithGather(
                        ProducerOffsets.IndexWithHalo(ind, ix.root, i, ix.adjust.p2c, ix.hm, ix.adjust.shift).value,
                        ix.attrs, ix.root, i, ix.adjust.gather, ix.adjust.consumerRoot,
                        ix.adjust.lookup, ix.adjust.refIndex).Err?
                   || ProducerOffsets.IndexWithPartialSplit(
                        ProducerOffsets.IndexWithGather(
                          ProducerOffsets.IndexWithHalo(ind, ix.root, i, ix.adjust.p2c, ix.hm, ix.adjust.shift).value,
                          ix.attrs, ix.root, i, ix.adjust.gather, ix.adjust.consumerRoot,
                          ix.adjust.lookup, ix.adjust.refIndex).value,
                        ix.root[i], ix.adjust.p2c, ix.adjust.starts, ix.global).Err?)
  {
    match ix.adjust
    case ConsumerAdjust(starts) =>
      if ix.global then Ok(AddFolded(ind, ProducerOffsets.StartOffset(starts, ix.root[i]))) else Ok(ind)
    case ProducerAdjust(p2c, shift, gather, consumerRoot, lookup, refIndex, starts) =>
      var a := ProducerOffsets.IndexWithHalo(ind, ix.root, i, p2c, ix.hm, shift);
      if a.Err? then Err(OffsetFailure(a.error))
      else
        var b := ProducerOffsets.IndexWithGather(a.value, ix.attrs, ix.root, i, gather, consumerRoot, lookup, refIndex);
        if b.Err? then Err(OffsetFailure(b.error))
        else
          var c := ProducerOffsets.IndexWithPartialSplit(b.value, ix.root[i], p2c, starts, ix.global);
          if c.Err? then Err(OffsetFailure(c.error)) else Ok(c.value)
  }

  /** Axes a global access does not index at all. */
  predicate GlobalSkipped(ix: Indexing, a: Axis) {
    IsReduction(ix.attrs, a) || IsBroadcast(ix.attrs, a) || a in ix.trivial
    || (SideOf(ix) == ConsumerSide && IsStride(ix.attrs, a))
  }

  /** The strided index of root axis `i` of a global tensor. */
  function GlobalIndexAt(ix: Indexing, strides: seq<IExpr>, i: nat): (r: Result<IExpr, StrideError>)
    requires WellFormed(ix) && i < |ix.root| == |strides|
    ensures GlobalSkipped(ix, ix.root[i]) ==> r == Ok(Lit(0))
    ensures !GlobalSkipped(ix, ix.root[i]) && ix.root[i] !in ix.index ==> r == Err(MissingRootIndex(i))
    ensures !GlobalSkipped(ix, ix.root[i]) && ix.root[i] in ix.index ==>
      (r.Ok? <==> AdjustIndex(ix, i, ix.index[ix.root[i]]).Ok?)
  {
    var a := ix.root[i];
    if GlobalSkipped(ix, a) then Ok(Lit(0))
    else if a !in ix.index then Err(MissingRootIndex(i))
    else
      var ind :- AdjustIndex(ix, i, ix.index[a]);
      if IsZeroInt(ind) then Ok(Lit(0)) else Ok(Mul(ind, strides[i]))
  }

  /** A global strided index is the adjusted root index times the axis's stride. */
  lemma GlobalIndexValue(ix: Indexing, strides: seq<IExpr>, i: nat, env: Env)
    requires WellFormed(ix) && i < |ix.root| == |strides|
    requires !GlobalSkipped(ix, ix.root[i]) && ix.root[i] in ix.index
    requires AdjustIndex(ix, i, ix.index[ix.root[i]]).Ok?
    requires Eval(AdjustIndex(ix, i, ix.index[ix.root[i]]).value, env).Some?
    requires Eval(strides[i], env).Some?
    ensures Eval(GlobalIndexAt(ix, strides, i).value, env)
            == Some(Eval(AdjustIndex(ix, i, ix.index[ix.root[i]]).value, env).value * Eval(strides[i], env).value)
  {
    var ind := AdjustIndex(ix, i, ix.index[ix.root[i]]).value;
    if IsZeroInt(ind) {
      assert Eval(ind, env) == Some(0);
    }
  }

  /** `get{Producer,Consumer}GlobalStridedIndices`. */
  function GlobalStridedIndices(ix: Indexing): (r: Result<seq<IExpr>, StrideError>)
    requires WellFormed(ix)
    ensures r.Ok? ==> GlobalStrides(ix).Ok? && |r.value| == |ix.root|
    ensures r.Ok? ==> forall i :: 0 <= i < |ix.root| ==> Ok(r.value[i]) == GlobalIndexAt(ix, GlobalStrides(ix).value, i)
    ensures GlobalStrides(ix).Ok? ==>
      (r.Ok? <==> forall i :: 0 <= i < |ix.root| ==> GlobalIndexAt(ix, GlobalStrides(ix).value, i).Ok?)
  {
    var strides :- GlobalStrides(ix);
    CollectAll(|ix.root|, (i: nat) => if i < |ix.root| then GlobalIndexAt(ix, strides, i) else Ok(Lit(0)))
  }

  // ---------------------------------------------------------------------------
  // Shared and local buffers
  // ---------------------------------------------------------------------------

  /** Axes a shared or local access does not index. */
  predicate LocalSkipped(ix: Indexing, a: Axis) {
    IsBroadcast(ix.attrs, a) || IsReduction(ix.attrs, a) || a in ix.trivial || IsStride(ix.attrs, a)
    || (SideOf(ix) == ProducerSide && a !in ix.index && a in ix.p2cAlloc && ix.p2cAlloc[a] in ix.trivial)
  }

  /** The extent root axis `j` takes up in the buffer: the computed extent if any, widened by its halo. */
  function LocalExtent(ix: Indexing, j: nat): IExpr
    requires j < |ix.root|
  {
    var a := ix.root[j];
    HaloExtent(ix.hm, a, if a in ix.extents then ix.extents[a] else Extent(ix.attrs, a))
  }

  /** Axes that contribute to the strides of the axes before them. */
  predicate Counted(ix: Indexing, j: nat)
    requires j < |ix.root|
  {
    !LocalSkipped(ix, ix.root[j]) && ix.root[j] !in ix.zero
  }

  /**
   * The stride of an axis, accumulated over the axes from `j` on: every
   * indexed axis must have a root index, and zero domains are left out of
   * the product. No contributing axis leaves the stride out altogether.
   */
  function LocalStride(ix: Indexing, j: nat, acc: Option<IExpr>): Result<Option<IExpr>, StrideError>
    requires j <= |ix.root|
    decreases |ix.root| - j
  {
    if j == |ix.root| then Ok(acc)
    else
      var a := ix.root[j];
      if LocalSkipped(ix, a) then LocalStride(ix, j + 1, acc)
      else if a !in ix.index then Err(MissingRootIndex(j))
      else if a in ix.zero then LocalStride(ix, j + 1, acc)
      else
        assert Counted(ix, j);
        var ext := LocalExtent(ix, j);
        LocalStride(ix, j + 1, Some(if acc.None? then ext else Mul(acc.value, ext)))
  }

  /**
   * The accumulation succeeds iff every later indexed axis has a root index,
   * and leaves no stride exactly when nothing was accumulated and no later
   * axis counts.
   */
  lemma {:induction false} LocalStrideMeaning(ix: Indexing, j: nat, acc: Option<IExpr>)
    requires j <= |ix.root|
    ensures LocalStride(ix, j, acc).Ok? <==>
      forall k :: j <= k < |ix.root| && !LocalSkipped(ix, ix.root[k]) ==> ix.root[k] in ix.index
    ensures LocalStride(ix, j, acc).Ok? ==>
      (LocalStride(ix, j, acc).value.None? <==> acc.None? && forall k :: j <= k < |ix.root| ==> !Counted(ix, k))
    decreases |ix.root| - j
  {
    if j < |ix.root| {
      if Counted(ix, j) {
        LocalStrideMeaning(ix, j + 1, LocalNext(ix, j, acc));
      } else {
        LocalStrideMeaning(ix, j + 1, acc);
      }
    }
  }

  /** The product of the buffer extents of the counted axes from `j` on. */
  function LocalExtentProduct(ix: Indexing, env: Env, j: nat): Option<int>
    requires j <= |ix.root|
    decreases |ix.root| - j
  {
    if j == |ix.root| then Some(1)
    else
      var rest :- LocalExtentProduct(ix, env, j + 1);
      if !Counted(ix, j) then Some(rest)
      else var x :- Eval(LocalExtent(ix, j), env); Some(x * rest)
  }

  /** The accumulator after a counted axis. */
  function LocalNext(ix: Indexing, j: nat, acc: Option<IExpr>): Option<IExpr>
    requires j < |ix.root|
  {
    var ext := LocalExtent(ix, j);
    Some(if acc.None? then ext else Mul(acc.value, ext))
  }

  /** One step of the stride accumulation. */
  lemma LocalStrideStep(ix: Indexing, j: nat, acc: Option<IExpr>)
    requires j < |ix.root| && LocalStride(ix, j, acc).Ok?
    ensures Counted(ix, j) ==> LocalStride(ix, j, acc) == LocalStride(ix, j + 1, LocalNext(ix, j, acc))
    ensures !Counted(ix, j) ==> LocalStride(ix, j, acc) == LocalStride(ix, j + 1, acc)
  {
  }

  /** One step of the extent product. */
  lemma LocalProductStep(ix: Indexing, env: Env, j: nat)
    requires j < |ix.root| && LocalExtentProduct(ix, env, j).Some?
    ensures LocalExtentProduct(ix, env, j + 1).Some?
    ensures Counted(ix, j) ==>
      Eval(LocalExtent(ix, j), env).Some?
      && LocalExtentProduct(ix, env, j).value == Eval(LocalExtent(ix, j), env).value * LocalExtentProduct(ix, env, j + 1).value
    ensures !Counted(ix, j) ==> LocalExtentProduct(ix, env, j) == LocalExtentProduct(ix, env, j + 1)
  {
  }

  /** The value of the accumulator after a counted axis. */
  lemma LocalNextValue(ix: Indexing, j: nat, acc: Option<IExpr>, env: Env, v: int, x: int)
    requires j < |ix.root| && Eval(LocalExtent(ix, j), env) == Some(x)
    requires acc.Some? ==> Eval(acc.value, env) == Some(v)
    requires acc.None? ==> v == 1
    ensures Eval(LocalNext(ix, j, acc).value, env) == Some(v * x)
  {
  }

  lemma MulRegroup(v: int, x: int, rest: int)
    ensures (v * x) * rest == v * (x * rest)
  {
  }

  /** The accumulated stride is the product of the counted extents after the axis. */
  lemma {:induction false} LocalStrideIsProduct(ix: Indexing, j: nat, acc: Option<IExpr>, env: Env)
    requires j <= |ix.root|
    requires LocalStride(ix, j, acc).Ok? && LocalStride(ix, j, acc).value.Some?
    requires LocalExtentProduct(ix, env, j).Some?
    requires acc.Some? ==> Eval(acc.value, env).Some?
    ensures Eval(LocalStride(ix, j, acc).value.value, env)
            == Some((if acc.Some? then Eval(acc.value, env).value else 1) * LocalExtentProduct(ix, env, j).value)
    decreases |ix.root| - j
  {
    if j < |ix.root| {
      LocalStrideStep(ix, j, acc);
      LocalProductStep(ix, env, j);
      var rest := LocalExtentProduct(ix, env, j + 1).value;
      var v := if acc.Some? then Eval(acc.value, env).value else 1;
      if Counted(ix, j) {
        var x := Eval(LocalExtent(ix, j), env).value;
        LocalNextValue(ix, j, acc, env, v, x);
        LocalStrideIsProduct(ix, j + 1, LocalNext(ix, j, acc), env);
        MulRegroup(v, x, rest);
      } else {
        LocalStrideIsProduct(ix, j + 1, acc, env);
      }
    }
  }

  /** The strided index of root axis `i` of a shared or local buffer. */
  function LocalIndexAt(ix: Indexing, i: nat): (r: Result<IExpr, StrideError>)
    requires WellFormed(ix) && i < |ix.root|
    ensures LocalSkipped(ix, ix.root[i]) ==> r == Ok(Lit(0))
    ensures !LocalSkipped(ix, ix.root[i]) && ix.root[i] !in ix.index ==> r == Err(MissingRootIndex(i))
    ensures r.Ok? && !LocalSkipped(ix, ix.root[i]) ==>
      var ind := AdjustIndex(ix, i, ix.index[ix.root[i]]);
      ind.Ok? && (IsZeroInt(ind.value) ==> r.value == Lit(0))
      && (!IsZeroInt(ind.value) && (forall k :: i < k < |ix.root| ==> !Counted(ix, k)) ==> r.value == ind.value)
  {
    var a := ix.root[i];
    if LocalSkipped(ix, a) then Ok(Lit(0))
    else if a !in ix.index then Err(MissingRootIndex(i))
    else
      var ind :- AdjustIndex(ix, i, ix.index[a]);
      if IsZeroInt(ind) then Ok(Lit(0))
      else
        LocalStrideMeaning(ix, i + 1, None);
        var stride :- LocalStride(ix, i + 1, None);
        match stride
        case None => Ok(ind)
        case Some(s) => Ok(Mul(ind, s))
  }

  /** A local strided index is the adjusted index times the product of the later counted extents. */
  lemma LocalIndexValue(ix: Indexing, i: nat, env: Env)
    requires WellFormed(ix) && i < |ix.root|
    requires LocalIndexAt(ix, i).Ok? && !LocalSkipped(ix, ix.root[i])
    requires Eval(AdjustIndex(ix, i, ix.index[ix.root[i]]).value, env).Some?
    requires LocalExtentProduct(ix, env, i + 1).Some?
    ensures Eval(LocalIndexAt(ix, i).value, env)
            == Some(Eval(AdjustIndex(ix, i, ix.index[ix.root[i]]).value, env).value
                    * LocalExtentProduct(ix, env, i + 1).value)
  {
    var ind := AdjustIndex(ix, i, ix.index[ix.root[i]]).value;
    var v := Eval(ind, env).value;
    if IsZeroInt(ind) {
      assert v == 0;
    } else {
      var stride := LocalStride(ix, i + 1, None);
      LocalStrideMeaning(ix, i + 1, None);
      if stride.value.Some? {
        LocalStrideIsProduct(ix, i + 1, None, env);
      } else {
        AllUncountedProductOne(ix, env, i + 1);
      }
    }
  }

  /** With no counted axis left, the extent product is one. */
  lemma {:induction false} AllUncountedProductOne(ix: Indexing, env: Env, j: nat)
    requires j <= |ix.root|
    requires forall k :: j <= k < |ix.root| ==> !Counted(ix, k)
    ensures LocalExtentProduct(ix, env, j) == Some(1)
    decreases |ix.root| - j
  {
    if j < |ix.root| {
      AllUncountedProductOne(ix, env, j + 1);
    }
  }

  // ---------------------------------------------------------------------------
  // Double buffering
  // ---------------------------------------------------------------------------

  /**
   * The extra index of a double-buffered buffer: a producer reads half
   * `idx % 2`, a consumer writes half `1 - idx % 2`.
   */
  function DoubleBufferIndex(side: Side, loopIndex: IExpr, allocSize: IExpr): IExpr {
    match side
    case ProducerSide => Mul(Mod(loopIndex, Lit(2)), allocSize)
    case ConsumerSide => Mul(Sub(Lit(1), Mod(loopIndex, Lit(2))), allocSize)
  }

  /**
   * On every iteration the reader and the writer use opposite halves: one
   * offset is zero, the other is the allocation size, and they swap on the
   * next iteration.
   */
  lemma DoubleBufferHalves(loopIndex: IExpr, allocSize: IExpr, env: Env)
    requires Eval(loopIndex, env).Some? && Eval(loopIndex, env).value >= 0
    requires Eval(allocSize, env).Some?
    ensures var p := Eval(DoubleBufferIndex(ProducerSide, loopIndex, allocSize), env);
            var c := Eval(DoubleBufferIndex(ConsumerSide, loopIndex, allocSize), env);
            var i := Eval(loopIndex, env).value;
            var size := Eval(allocSize, env).value;
            p.Some? && c.Some? && p.value + c.value == size
            && (i % 2 == 0 ==> p.value == 0 && c.value == size)
            && (i % 2 == 1 ==> p.value == size && c.value == 0)
  {
    var i := Eval(loopIndex, env).value;
    var size := Eval(allocSize, env).value;
    CArith.TruncAgreesWithEuclid(i, 2);
    assert Eval(Mod(loopIndex, Lit(2)), env) == Some(i % 2);
    assert Eval(Sub(Lit(1), Mod(loopIndex, Lit(2))), env) == Some(1 - i % 2);
    if i % 2 == 0 {
      assert Eval(DoubleBufferIndex(ProducerSide, loopIndex, allocSize), env) == Some(0 * size);
      assert Eval(DoubleBufferIndex(ConsumerSide, loopIndex, allocSize), env) == Some((1 - 0) * size);
    } else {
      assert Eval(DoubleBufferIndex(ProducerSide, loopIndex, allocSize), env) == Some(1 * size);
      assert Eval(DoubleBufferIndex(ConsumerSide, loopIndex, allocSize), env) == Some((1 - 1) * size);
    }
  }

  /** The double-buffer index an access appends, if any. */
  function DoubleBufferTail(ix: Indexing): (r: seq<IExpr>)
    ensures |r| <= 1
    ensures |r| == 1 <==> ix.db.DoubleBuffered? && ix.db.loopIndex.Some?
  {
    if ix.db.DoubleBuffered? && ix.db.loopIndex.Some? then
      [DoubleBufferIndex(SideOf(ix), ix.db.loopIndex.value, ix.db.allocSize)]
    else []
  }

  /** `getNonGlobal{Producer,Consumer}StridedIndices`. */
  function LocalStridedIndices(ix: Indexing): (r: Result<seq<IExpr>, StrideError>)
    requires WellFormed(ix)
    ensures r.Ok? <==> forall i :: 0 <= i < |ix.root| ==> LocalIndexAt(ix, i).Ok?
    ensures r.Ok? ==> |r.value| == |ix.root| + |DoubleBufferTail(ix)|
    ensures r.Ok? ==> forall i :: 0 <= i < |ix.root| ==> Ok(r.value[i]) == LocalIndexAt(ix, i)
    ensures r.Ok? ==> r.value[|ix.root|..] == DoubleBufferTail(ix)
  {
    var f := (i: nat) => if i < |ix.root| then LocalIndexAt(ix, i) else Ok(Lit(0));
    assert forall i :: 0 <= i < |ix.root| ==> f(i) == LocalIndexAt(ix, i);
    var inds :- CollectAll(|ix.root|, f);
    Ok(inds + DoubleBufferTail(ix))
  }

  /** Whether the tensor's leaf domain has an axis other than a reduction. */
  predicate HasNonReductionLeaf(ix: Indexing) {
    exists k :: 0 <= k < |ix.leaf| && !IsReduction(ix.attrs, ix.leaf[k])
  }

  /**
   * `get{Producer,Consumer}StridedIndices`: all zeros when every leaf
   * axis is a reduction; otherwise the global or the local assembly. A
   * producer must end up with one index per root axis plus one when it is
   * double buffered.
   */
  function StridedIndicesOf(ix: Indexing): (r: Result<seq<IExpr>, StrideError>)
    requires WellFormed(ix)
    ensures !HasNonReductionLeaf(ix) ==> r.Ok? && |r.value| == |ix.root|
                                         && forall i :: 0 <= i < |ix.root| ==> r.value[i] == Lit(0)
    ensures r.Ok? && HasNonReductionLeaf(ix) && SideOf(ix) == ProducerSide ==>
      |r.value| == |ix.root| + (if ix.db.DoubleBuffered? then 1 else 0)
    ensures HasNonReductionLeaf(ix) && SideOf(ix) == ConsumerSide ==>
      r == (if ix.global then GlobalStridedIndices(ix) else LocalStridedIndices(ix))
  {
    if !HasNonReductionLeaf(ix) then Ok(seq(|ix.root|, _ => Lit(0)))
    else
      var inds :- if ix.global then GlobalStridedIndices(ix) else LocalStridedIndices(ix);
      if SideOf(ix) == ProducerSide && |inds| != |ix.root| + (if ix.db.DoubleBuffered? then 1 else 0) then
        Err(IndexCountMismatch)
      else Ok(inds)
  }

  /**
   * A double-buffered producer read from a shared or local buffer succeeds
   * only inside the double-buffer loop, and then carries exactly one extra
   * index; a global producer can never be double buffered.
   */
  lemma ProducerCountNeedsLoop(ix: Indexing)
    requires WellFormed(ix) && HasNonReductionLeaf(ix) && SideOf(ix) == ProducerSide
    requires ix.db.DoubleBuffered?
    ensures StridedIndicesOf(ix).Ok? ==> !ix.global && ix.db.loopIndex.Some?
  {
    if ix.global {
      var g := GlobalStridedIndices(ix);
      assert g.Ok? ==> |g.value| == |ix.root|;
    } else {
      var l := LocalStridedIndices(ix);
      assert l.Ok? ==> |l.value| == |ix.root| + |DoubleBufferTail(ix)|;
    }
  }
}
