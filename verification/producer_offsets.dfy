/**
 * Adjustments of a producer index computed from its consumer's loop
 * structure: the halo offset (different paddings and shifts), the gather
 * window offset, and the partial-split start offsets. Root-domain maps,
 * halo widths and split start offsets are given tables.
 */
module ProducerOffsets {
  import opened Wrappers
  import opened IndexExpr
  import opened Axes

  datatype OffsetError =
    | NoConsumerMapping
    | ShiftAxisOutOfRange
    | InvalidConsumerAxis
    | WindowAxisOutOfRange
    | MissingConcrete
    | MissingReference
    | MissingWindowIndex
    | InvalidPartialSplit

  /** The index a producer root axis needs once `offset` is added to it. */
  function Offset(index: IExpr, offset: int): IExpr {
    if offset == 0 then index else AddFolded(index, Lit(offset))
  }

  /** An offset expression adds its value; a zero offset returns the index itself. */
  lemma OffsetEval(index: IExpr, offset: int, env: Env)
    requires Eval(index, env).Some?
    ensures Eval(Offset(index, offset), env) == Some(Eval(index, env).value + offset)
    ensures offset == 0 ==> Offset(index, offset) == index
  {
    AddFoldedEval(index, Lit(offset), env);
  }

  /**
   * `getProducerHaloOffset`: the producer's start-side halo minus the
   * consumer's, minus the shift amount on that axis when the consumer is
   * the result of a shift. `shift` holds the shift offsets of the consumer's
   * definition when that definition is a shift.
   */
  function HaloOffset(producerRoot: seq<Axis>, axis: nat, p2c: map<Axis, Axis>, hm: HaloMap,
                      shift: Option<seq<int>>): (r: Result<int, OffsetError>)
    requires axis < |producerRoot|
    ensures r.Err? <==> producerRoot[axis] !in p2c || (shift.Some? && axis >= |shift.value|)
    ensures r.Ok? && shift.None? ==>
      r.value + Halo(hm, p2c[producerRoot[axis]]).start == Halo(hm, producerRoot[axis]).start
    ensures r.Ok? && shift.Some? ==>
      r.value + Halo(hm, p2c[producerRoot[axis]]).start + shift.value[axis]
        == Halo(hm, producerRoot[axis]).start
  {
    var p := producerRoot[axis];
    if p !in p2c then Err(NoConsumerMapping)
    else
      var offset := Halo(hm, p).start - Halo(hm, p2c[p]).start;
      match shift
      case None => Ok(offset)
      case Some(amounts) =>
        if axis < |amounts| then Ok(offset - amounts[axis]) else Err(ShiftAxisOutOfRange)
  }

  /** `getProducerIndexWithHalo`. */
  function IndexWithHalo(index: IExpr, producerRoot: seq<Axis>, axis: nat, p2c: map<Axis, Axis>,
                         hm: HaloMap, shift: Option<seq<int>>): (r: Result<IExpr, OffsetError>)
    requires axis < |producerRoot|
    ensures r.Err? <==> HaloOffset(producerRoot, axis, p2c, hm, shift).Err?
    ensures r.Ok? ==> r.value == Offset(index, HaloOffset(producerRoot, axis, p2c, hm, shift).value)
  {
    var offset :- HaloOffset(producerRoot, axis, p2c, hm, shift);
    Ok(Offset(index, offset))
  }

  /**
   * A shift with no halo on either side moves the producer index against the
   * shift: the producer element read is the consumer's minus the shift amount.
   */
  lemma HaloShiftMovesIndex(index: IExpr, producerRoot: seq<Axis>, axis: nat, p2c: map<Axis, Axis>,
                            hm: HaloMap, amounts: seq<int>, env: Env)
    requires axis < |producerRoot| && axis < |amounts| && producerRoot[axis] in p2c
    requires !HasHalo(hm, producerRoot[axis]) && !HasHalo(hm, p2c[producerRoot[axis]])
    requires Eval(index, env).Some?
    ensures IndexWithHalo(index, producerRoot, axis, p2c, hm, Some(amounts)).Ok?
    ensures Eval(IndexWithHalo(index, producerRoot, axis, p2c, hm, Some(amounts)).value, env)
            == Some(Eval(index, env).value - amounts[axis])
  {
    var o := HaloOffset(producerRoot, axis, p2c, hm, Some(amounts)).value;
    assert o == -amounts[axis];
    OffsetEval(index, o, env);
  }

  /**
   * A gather expression: per consumer root axis, its window extent, its
   * padding on the start and on the stop side, and the consumer root
   * position of its window axis.
   */
  datatype GatherOp = GatherOp(windowShape: seq<int>, padStart: seq<int>, padStop: seq<int>, windowAxis: seq<nat>)

  predicate ValidGather(g: GatherOp) {
    |g.padStart| == |g.windowShape| && |g.padStop| == |g.windowShape| && |g.windowAxis| == |g.windowShape|
  }

  /** How the window axis is looked up when the index table is keyed by reference axes. */
  datatype RefLookup = RefLookup(concrete: map<Axis, Axis>, concreteToRef: map<Axis, Axis>)

  /** Whether an axis needs a window offset at all. */
  predicate GatherApplies(axis: nat, gather: Option<GatherOp>) {
    gather.Some? && axis < |gather.value.windowShape| && gather.value.windowShape[axis] != 1
  }

  /**
   * `getProducerOffsetWithGather`: zero unless the consumer is a gather
   * with a window wider than one on this axis; then the window index less
   * the start padding.
   */
  function GatherOffset(axis: nat, gather: Option<GatherOp>, consumerRoot: seq<Axis>,
                        indexMap: map<Axis, IExpr>, lookup: Option<RefLookup>): (r: Result<IExpr, OffsetError>)
    requires gather.Some? ==> ValidGather(gather.value)
    ensures !GatherApplies(axis, gather) ==> r == Ok(Lit(0))
    ensures GatherApplies(axis, gather) && r.Ok? ==>
      exists w :: w in indexMap && r.value == AddFolded(indexMap[w], Lit(-gather.value.padStart[axis]))
    ensures GatherApplies(axis, gather) && lookup.None? ==>
      (r.Ok? <==> gather.value.windowAxis[axis] < |consumerRoot|
                  && consumerRoot[gather.value.windowAxis[axis]] in indexMap)
    ensures GatherApplies(axis, gather) && lookup.None? && r.Ok? ==>
      r.value == AddFolded(indexMap[consumerRoot[gather.value.windowAxis[axis]]], Lit(-gather.value.padStart[axis]))
  {
    if !GatherApplies(axis, gather) then Ok(Lit(0))
    else
      var g := gather.value;
      var wa := g.windowAxis[axis];
      if wa >= |consumerRoot| then Err(WindowAxisOutOfRange)
      else
        var w :- WindowId(consumerRoot[wa], lookup);
        if w !in indexMap then Err(MissingWindowIndex)
        else Ok(AddFolded(indexMap[w], Lit(-g.padStart[axis])))
  }

  /** The key of the window axis in the index table. */
  function WindowId(id: Axis, lookup: Option<RefLookup>): (r: Result<Axis, OffsetError>)
    ensures lookup.None? ==> r == Ok(id)
    ensures lookup.Some? ==>
      (r.Ok? <==> id in lookup.value.concrete && lookup.value.concrete[id] in lookup.value.concreteToRef)
    ensures lookup.Some? && r.Ok? ==> r.value == lookup.value.concreteToRef[lookup.value.concrete[id]]
  {
    match lookup
    case None => Ok(id)
    case Some(l) =>
      if id !in l.concrete then Err(MissingConcrete)
      else if l.concrete[id] !in l.concreteToRef then Err(MissingReference)
      else Ok(l.concreteToRef[l.concrete[id]])
  }

  /** Without a reference table, the gather offset is the window position less the start padding. */
  lemma GatherOffsetEval(axis: nat, g: GatherOp, consumerRoot: seq<Axis>, indexMap: map<Axis, IExpr>, env: Env)
    requires ValidGather(g) && GatherApplies(axis, Some(g))
    requires g.windowAxis[axis] < |consumerRoot| && consumerRoot[g.windowAxis[axis]] in indexMap
    requires Eval(indexMap[consumerRoot[g.windowAxis[axis]]], env).Some?
    ensures GatherOffset(axis, Some(g), consumerRoot, indexMap, None).Ok?
    ensures Eval(GatherOffset(axis, Some(g), consumerRoot, indexMap, None).value, env)
            == Some(Eval(indexMap[consumerRoot[g.windowAxis[axis]]], env).value - g.padStart[axis])
  {
    AddFoldedEval(indexMap[consumerRoot[g.windowAxis[axis]]], Lit(-g.padStart[axis]), env);
  }

  /** Root axes the consumer also has: neither reductions nor strides. */
  predicate KeptInConsumer(attrs: Attrs, a: Axis) {
    !IsReduction(attrs, a) && !IsStride(attrs, a)
  }

  /** The root axes among the first `n` that have a consumer counterpart, in order. */
  function KeptUpTo(attrs: Attrs, s: seq<Axis>, n: nat): (r: seq<Axis>)
    requires n <= |s|
    ensures |r| <= n
  {
    if n == 0 then []
    else KeptUpTo(attrs, s, n - 1) + (if KeptInConsumer(attrs, s[n - 1]) then [s[n - 1]] else [])
  }

  /** The root axes that have a consumer counterpart, in order. */
  function KeptAxes(attrs: Attrs, s: seq<Axis>): (r: seq<Axis>)
    ensures |r| <= |s|
  {
    KeptUpTo(attrs, s, |s|)
  }

  /** The kept axes among the first `n` start the kept axes among the first `m`, for `n <= m`. */
  lemma {:induction false} KeptUpToPrefix(attrs: Attrs, s: seq<Axis>, n: nat, m: nat)
    requires n <= m <= |s|
    ensures |KeptUpTo(attrs, s, n)| <= |KeptUpTo(attrs, s, m)|
    ensures KeptUpTo(attrs, s, n) == KeptUpTo(attrs, s, m)[..|KeptUpTo(attrs, s, n)|]
    decreases m
  {
    if n < m {
      KeptUpToPrefix(attrs, s, n, m - 1);
      var k := KeptUpTo(attrs, s, m - 1);
      assert KeptUpTo(attrs, s, m)[..|k|] == k;
    }
  }

  /** The kept axes of a prefix of the root start the kept axes of the whole root. */
  lemma KeptAxesPrefix(attrs: Attrs, s: seq<Axis>, n: nat)
    requires n <= |s|
    ensures |KeptUpTo(attrs, s, n)| <= |KeptAxes(attrs, s)|
    ensures KeptUpTo(attrs, s, n) == KeptAxes(attrs, s)[..|KeptUpTo(attrs, s, n)|]
  {
    KeptUpToPrefix(attrs, s, n, |s|);
  }

  /**
   * The consumer axis of a producer root axis: the number of kept axes up to
   * and including it, less one.
   */
  function ConsumerAxis(attrs: Attrs, producerRoot: seq<Axis>, axis: nat): (r: int)
    requires axis < |producerRoot|
    ensures -1 <= r <= axis
  {
    |KeptUpTo(attrs, producerRoot, axis + 1)| - 1
  }

  /** A kept producer axis sits at its consumer axis among the kept axes. */
  lemma ConsumerAxisLocates(attrs: Attrs, producerRoot: seq<Axis>, axis: nat)
    requires axis < |producerRoot| && KeptInConsumer(attrs, producerRoot[axis])
    ensures 0 <= ConsumerAxis(attrs, producerRoot, axis) < |KeptAxes(attrs, producerRoot)|
    ensures KeptAxes(attrs, producerRoot)[ConsumerAxis(attrs, producerRoot, axis)] == producerRoot[axis]
  {
    KeptAxesPrefix(attrs, producerRoot, axis + 1);
  }

  /**
   * `getProducerIndexWithGather`: the producer index plus the window offset
   * of its consumer axis; the consumer axis must lie within the window.
   */
  function IndexWithGather(index: IExpr, attrs: Attrs, producerRoot: seq<Axis>, axis: nat,
                           gather: Option<GatherOp>, consumerRoot: seq<Axis>,
                           lookup: RefLookup, refIndex: map<Axis, IExpr>): (r: Result<IExpr, OffsetError>)
    requires axis < |producerRoot|
    requires gather.Some? ==> ValidGather(gather.value)
    ensures gather.None? ==> r == Ok(index)
    ensures gather.Some? && (ConsumerAxis(attrs, producerRoot, axis) < 0
                             || ConsumerAxis(attrs, producerRoot, axis) >= |gather.value.windowShape|)
            ==> r == Err(InvalidConsumerAxis)
    ensures gather.Some? && r.Ok? ==>
      var offset := GatherOffset(ConsumerAxis(attrs, producerRoot, axis), gather,
                                 consumerRoot, refIndex, Some(lookup));
      offset.Ok? && r.value == AddFolded(index, offset.value)
  {
    if gather.None? then Ok(index)
    else
      var c := ConsumerAxis(attrs, producerRoot, axis);
      if c < 0 || c >= |gather.value.windowShape| then Err(InvalidConsumerAxis)
      else
        var offset :- GatherOffset(c, gather, consumerRoot, refIndex, Some(lookup));
        Ok(AddFolded(index, offset))
  }

  /** `getStartOffset` of the partial-split table, with zero for an axis it does not hold. */
  function StartOffset(starts: map<Axis, IExpr>, a: Axis): (r: IExpr)
    ensures a !in starts ==> IsZeroInt(r)
  {
    if a in starts then starts[a] else Lit(0)
  }

  /**
   * `getProducerIndexWithPartialSplit`: a global producer is allocated
   * untrimmed, so the consumer's start offset is added; otherwise the
   * difference of the two start offsets is added, and it must be a
   * constant.
   */
  function IndexWithPartialSplit(index: IExpr, pRoot: Axis, p2c: map<Axis, Axis>,
                                 starts: map<Axis, IExpr>, global: bool): (r: Result<IExpr, OffsetError>)
    ensures pRoot !in p2c ==> r == Ok(index)
    ensures r.Err? <==> pRoot in p2c && !global
                        && ConstValue(Sub(StartOffset(starts, p2c[pRoot]), StartOffset(starts, pRoot))).None?
    ensures pRoot in p2c && global && IsZeroInt(StartOffset(starts, p2c[pRoot])) ==> r == Ok(index)
  {
    if pRoot !in p2c then Ok(index)
    else
      var c := StartOffset(starts, p2c[pRoot]);
      var p := StartOffset(starts, pRoot);
      if global then Ok(PartialSplitGlobal(index, c))
      else PartialSplitTrimmed(index, c, p)
  }

  /** The global case of `getProducerIndexWithPartialSplit`: the consumer start offset is added. */
  function PartialSplitGlobal(index: IExpr, c: IExpr): IExpr {
    if IsZeroInt(c) then index else Add(index, c)
  }

  /** The trimmed case: the constant difference of the two start offsets is added. */
  function PartialSplitTrimmed(index: IExpr, c: IExpr, p: IExpr): Result<IExpr, OffsetError> {
    match ConstValue(Sub(c, p))
    case None => Err(InvalidPartialSplit)
    case Some(d) => if d == 0 then Ok(index) else Ok(Add(index, Lit(d)))
  }

  /**
   * Under any binding where the index and the start offsets have values,
   * the adjusted index is the producer index plus the consumer start
   * offset (global) or plus the consumer's start offset less the
   * producer's (otherwise).
   */
  lemma PartialSplitEval(index: IExpr, pRoot: Axis, p2c: map<Axis, Axis>, starts: map<Axis, IExpr>,
                         global: bool, env: Env, x: int, cv: int, pv: int)
    requires pRoot in p2c
    requires IndexWithPartialSplit(index, pRoot, p2c, starts, global).Ok?
    requires Eval(index, env) == Some(x)
    requires Eval(StartOffset(starts, p2c[pRoot]), env) == Some(cv)
    requires Eval(StartOffset(starts, pRoot), env) == Some(pv)
    ensures global ==> Eval(IndexWithPartialSplit(index, pRoot, p2c, starts, global).value, env) == Some(x + cv)
    ensures !global ==> Eval(IndexWithPartialSplit(index, pRoot, p2c, starts, global).value, env) == Some(x + cv - pv)
  {
    var c := StartOffset(starts, p2c[pRoot]);
    var p := StartOffset(starts, pRoot);
    if global {
      assert IndexWithPartialSplit(index, pRoot, p2c, starts, global) == Ok(PartialSplitGlobal(index, c));
      PartialSplitGlobalEval(index, c, env, x, cv);
    } else {
      assert IndexWithPartialSplit(index, pRoot, p2c, starts, global) == PartialSplitTrimmed(index, c, p);
      PartialSplitTrimmedEval(index, c, p, env, x, cv, pv);
    }
  }

  lemma PartialSplitGlobalEval(index: IExpr, c: IExpr, env: Env, x: int, cv: int)
    requires Eval(index, env) == Some(x) && Eval(c, env) == Some(cv)
    ensures Eval(PartialSplitGlobal(index, c), env) == Some(x + cv)
  {
    if !IsZeroInt(c) {
      assert PartialSplitGlobal(index, c) == Add(index, c);
    }
  }

  lemma PartialSplitTrimmedEval(index: IExpr, c: IExpr, p: IExpr, env: Env, x: int, cv: int, pv: int)
    requires PartialSplitTrimmed(index, c, p).Ok?
    requires Eval(index, env) == Some(x) && Eval(c, env) == Some(cv) && Eval(p, env) == Some(pv)
    ensures Eval(PartialSplitTrimmed(index, c, p).value, env) == Some(x + cv - pv)
  {
    var d := ConstValue(Sub(c, p)).value;
    ConstValueEverywhere(Sub(c, p), env);
    SubEval(c, p, env, cv, pv);
    if d != 0 {
      AddLitEval(index, d, env, x);
    }
  }

  lemma SubEval(c: IExpr, p: IExpr, env: Env, cv: int, pv: int)
    requires Eval(c, env) == Some(cv) && Eval(p, env) == Some(pv)
    ensures Eval(Sub(c, p), env) == Some(cv - pv)
  {
  }

  lemma AddLitEval(index: IExpr, d: int, env: Env, x: int)
    requires Eval(index, env) == Some(x)
    ensures Eval(Add(index, Lit(d)), env) == Some(x + d)
  {
  }
}
