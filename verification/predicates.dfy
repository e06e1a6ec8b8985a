/**
 * Predicates that guard a consumer's accesses: which axes are predicated
 * (the contiguous merges of its root axes and the inputs of non-divisible
 * splits), the offsets each predicate adds to its index (shift and gather
 * windows, partial-split starts, halo, unswitch), the boundary indices an
 * unswitched loop nest is predicated at, and the start and stop
 * predicates themselves. The index maps of the consumer, its halo widths,
 * the loop map's concrete axes and the parallel dimensions are given
 * tables.
 */
module Predicates {
  import opened Wrappers
  import opened IndexExpr
  import opened Axes
  import Ir
  import ContigIds
  import ProducerOffsets

  datatype PredicateError =
    | NotARootAxis
    | OffsetFailure(reason: ProducerOffsets.OffsetError)
    | UnswitchWithPadding
    | MissingStartIndex
    | InvalidReference
    | MissingParallelDim
    | MissingDoubleBufferLoop

  // ---------------------------------------------------------------------------
  // Builder folding
  // ---------------------------------------------------------------------------

  /** The simplifying builder's negation: a literal folds. */
  function NegFolded(a: IExpr): (r: IExpr)
    ensures a.Lit? ==> r == Lit(-a.n)
    ensures forall env :: Eval(r, env) == Eval(Neg(a), env)
  {
    if a.Lit? then Lit(-a.n) else Neg(a)
  }

  /** The simplifying builder's subtraction: the sum with the negation. */
  function SubFolded(a: IExpr, b: IExpr): (r: IExpr)
    ensures IsZeroInt(b) ==> r == a
    ensures a.Lit? && b.Lit? ==> r == Lit(a.n - b.n)
  {
    AddFolded(a, NegFolded(b))
  }

  /** Folding never changes the value of a difference. */
  lemma SubFoldedEval(a: IExpr, b: IExpr, env: Env)
    ensures Eval(SubFolded(a, b), env) == Eval(Sub(a, b), env)
  {
    AddFoldedEval(a, NegFolded(b), env);
  }

  /** The simplifying builder's minimum: two literals fold. */
  function MinFolded(a: IExpr, b: IExpr): (r: IExpr)
    ensures forall env :: Eval(r, env) == Eval(Min(a, b), env)
  {
    if a.Lit? && b.Lit? then Lit(if a.n < b.n then a.n else b.n) else Min(a, b)
  }

  /** The simplifying builder's maximum: two literals fold. */
  function MaxFolded(a: IExpr, b: IExpr): (r: IExpr)
    ensures forall env :: Eval(r, env) == Eval(Max(a, b), env)
  {
    if a.Lit? && b.Lit? then Lit(if a.n < b.n then b.n else a.n) else Max(a, b)
  }

  // ---------------------------------------------------------------------------
  // The consumer
  // ---------------------------------------------------------------------------

  /** The start of a partially computed axis and how far short of its extent it stops. */
  datatype AxisBounds = AxisBounds(start: IExpr, stopOffset: IExpr)

  /** What defines the consumer: a shift (offsets and pad widths per root axis), a gather, or anything else. */
  datatype Definition =
    | Plain
    | ShiftDef(offsets: seq<int>, padWidth: seq<nat>)
    | GatherDef(op: ProducerOffsets.GatherOp)

  /**
   * A consumer tensor: its root and leaf axes and their history, its
   * definition, and the tables lowering has built for it. `hm` holds the
   * halo of root axes and `haloWidths` the halo width of any other axis;
   * `inherits` holds the (root, leaf) pairs where the leaf inherits the
   * root's halo; `concrete` is the loop map's concrete axis; `trivial` the
   * axes derived from trivial reductions; `starts` the partial-split start
   * offsets; `nonDivisible` the inputs of the non-divisible splits to
   * predicate.
   */
  datatype Consumer = Consumer(
    root: seq<Axis>,
    leaves: seq<Axis>,
    history: seq<Transform>,
    attrs: Attrs,
    def: Definition,
    hm: HaloMap,
    haloWidths: map<Axis, nat>,
    inherits: set<(Axis, Axis)>,
    bounds: map<Axis, AxisBounds>,
    concrete: map<Axis, Axis>,
    trivial: set<Axis>,
    starts: map<Axis, IExpr>,
    nonDivisible: seq<Axis>)

  /** A shift has an offset and a pad width per root axis; a gather is well formed. */
  predicate WellFormed(c: Consumer) {
    match c.def
    case Plain => true
    case ShiftDef(offsets, padWidth) => |offsets| == |c.root| && |padWidth| == |c.root|
    case GatherDef(g) => ProducerOffsets.ValidGather(g)
  }

  /** Root axes are not produced by the history. */
  predicate RootsUnproduced(c: Consumer) {
    forall k, x :: 0 <= k < |c.history| && x in c.root ==> x !in Outputs(c.history[k])
  }

  function Bounds(c: Consumer, a: Axis): AxisBounds {
    if a in c.bounds then c.bounds[a] else AxisBounds(Lit(0), Lit(0))
  }

  /** `maybePartial`: the axis may start late or stop early. */
  predicate MaybePartial(c: Consumer, a: Axis) {
    !IsZeroInt(Bounds(c, a).start) || !IsZeroInt(Bounds(c, a).stopOffset)
  }

  function Concrete(c: Consumer, a: Axis): Axis {
    if a in c.concrete then c.concrete[a] else a
  }

  /** Whether the axis has a definition in the history, i.e. is not a root. */
  predicate HasDefinition(c: Consumer, a: Axis) {
    Producer(c.history, |c.history|, a).Some?
  }

  /** `hasPadding` of the definition. */
  predicate NeedsPadding(def: Definition) {
    match def
    case Plain => false
    case ShiftDef(_, padWidth) => exists k :: 0 <= k < |padWidth| && padWidth[k] > 0
    case GatherDef(g) =>
      exists k :: 0 <= k < |g.padStart| && k < |g.padStop| && (g.padStart[k] > 0 || g.padStop[k] > 0)
  }

  /** The first position of `x` in `s`. */
  function FirstIndexOf(s: seq<Axis>, x: Axis): (r: Option<nat>)
    ensures r.None? <==> x !in s
    ensures r.Some? ==> r.value < |s| && s[r.value] == x && x !in s[..r.value]
  {
    if s == [] then None
    else if s[0] == x then Some(0)
    else
      match FirstIndexOf(s[1..], x)
      case None => None
      case Some(k) =>
        assert s[1..][..k] == s[1..k + 1];
        assert s[..k + 1] == [s[0]] + s[1..k + 1];
        Some(k + 1)
  }

  /** `rootPosOf`: the position of a root axis. */
  function RootPos(c: Consumer, a: Axis): (r: Result<nat, PredicateError>)
    ensures r.Ok? <==> a in c.root
    ensures r.Ok? ==> r.value < |c.root| && c.root[r.value] == a
  {
    match FirstIndexOf(c.root, a)
    case None => Err(NotARootAxis)
    case Some(k) => Ok(k)
  }

  // ---------------------------------------------------------------------------
  // Predicated axes
  // ---------------------------------------------------------------------------

  /** An axis to predicate and the root axes it covers. */
  datatype PredicateDomain = PredicateDomain(id: Axis, covered: set<Axis>, nonDivisible: bool)

  /** A shifted or gathered root position must be predicated on its own. */
  predicate ShiftedOrGathered(def: Definition, pos: nat) {
    match def
    case Plain => false
    case ShiftDef(offsets, _) => pos < |offsets| && offsets[pos] != 0
    case GatherDef(g) => pos < |g.windowShape| && g.windowShape[pos] != 1
  }

  /**
   * Root axes that may not be merged for predication: with halo, partial,
   * broadcast onto a non-broadcast concrete axis, shifted, or gathered
   * with a window wider than one.
   */
  predicate Excluded(c: Consumer, pos: nat)
    requires pos < |c.root|
  {
    var a := c.root[pos];
    || HasHalo(c.hm, a)
    || MaybePartial(c, a)
    || (IsBroadcast(c.attrs, a) && !IsBroadcast(c.attrs, Concrete(c, a)))
    || ShiftedOrGathered(c.def, pos)
  }

  function ExcludedIds(c: Consumer): set<Axis> {
    set pos | 0 <= pos < |c.root| && Excluded(c, pos) :: c.root[pos]
  }

  /** `vector::erase` of the first occurrence of `x`. */
  function RemoveFirst(s: seq<Axis>, x: Axis): (r: seq<Axis>)
    ensures x in s ==> |r| == |s| - 1
    ensures x !in s ==> r == s
    ensures forall y :: y in r ==> y in s
    ensures forall y :: y in s && y != x ==> y in r
  {
    if s == [] then []
    else if s[0] == x then s[1..]
    else [s[0]] + RemoveFirst(s[1..], x)
  }

  /** One step of the walk: a merge of two listed, non-excluded axes replaces them by its output. */
  function ContigMerge(t: Transform, excluded: set<Axis>, ids: seq<Axis>): (r: seq<Axis>)
    ensures |r| <= |ids|
    ensures forall x :: x in ids && x in excluded ==> x in r
    ensures forall x :: x in r ==> x in ids || (t.Merge? && x == t.out)
  {
    match t
    case Merge(o, i, out) =>
      if o in excluded || i in excluded then ids
      else if i in ids && o in ids then RemoveFirst(RemoveFirst(ids, o), i) + [out]
      else ids
    case _ => ids
  }

  /** The walk over the first `n` steps of the history. */
  function ContigWalk(h: seq<Transform>, n: nat, excluded: set<Axis>, ids0: seq<Axis>): (r: seq<Axis>)
    requires n <= |h|
    ensures |r| <= |ids0|
    ensures forall x :: x in ids0 && x in excluded ==> x in r
  {
    if n == 0 then ids0 else ContigMerge(h[n - 1], excluded, ContigWalk(h, n - 1, excluded, ids0))
  }

  /** Every axis the walk lists was listed at the start or is the output of a merge. */
  lemma {:induction false} ContigWalkOrigin(h: seq<Transform>, n: nat, excluded: set<Axis>, ids0: seq<Axis>, x: Axis)
    requires n <= |h| && x in ContigWalk(h, n, excluded, ids0)
    ensures x in ids0 || ContigIds.IsMergeOutput(h, n, x)
  {
    if n > 0 {
      var prev := ContigWalk(h, n - 1, excluded, ids0);
      if x in prev {
        ContigWalkOrigin(h, n - 1, excluded, ids0, x);
        if ContigIds.IsMergeOutput(h, n - 1, x) {
          var k :| 0 <= k < n - 1 && h[k].Merge? && h[k].out == x;
          assert 0 <= k < n;
        }
      } else {
        assert h[n - 1].Merge? && h[n - 1].out == x;
      }
    }
  }

  /** `getPredicateContigIds`: the contiguous axes to predicate and the root axes each covers. */
  function PredicateContigIds(c: Consumer): (r: seq<PredicateDomain>)
    ensures |r| <= |c.root|
    ensures forall k :: 0 <= k < |r| ==> !r[k].nonDivisible
  {
    if c.root == [] then []
    else
      var ids := ContigWalk(c.history, |c.history|, ExcludedIds(c), c.root);
      seq(|ids|, k requires 0 <= k < |ids| =>
        PredicateDomain(ids[k], InputsOf(c.history, |c.history|, ids[k]), false))
  }

  /**
   * An excluded root axis is predicated on its own, covering only itself;
   * every predicated axis is a root axis or the output of a merge.
   */
  lemma ContigIdsKeepExcluded(c: Consumer, pos: nat)
    requires pos < |c.root| && Excluded(c, pos) && RootsUnproduced(c)
    ensures exists k :: (0 <= k < |PredicateContigIds(c)|
                         && PredicateContigIds(c)[k].id == c.root[pos]
                         && PredicateContigIds(c)[k].covered == {c.root[pos]})
  {
    var x := c.root[pos];
    assert x in ExcludedIds(c);
    var ids := ContigWalk(c.history, |c.history|, ExcludedIds(c), c.root);
    assert x in ids;
    var k :| 0 <= k < |ids| && ids[k] == x;
    InputsOfUnproduced(c.history, |c.history|, x);
    assert PredicateContigIds(c)[k].id == x;
  }

  lemma ContigIdsOrigin(c: Consumer, k: nat)
    requires k < |PredicateContigIds(c)|
    ensures PredicateContigIds(c)[k].id in c.root
            || ContigIds.IsMergeOutput(c.history, |c.history|, PredicateContigIds(c)[k].id)
  {
    var ids := ContigWalk(c.history, |c.history|, ExcludedIds(c), c.root);
    ContigWalkOrigin(c.history, |c.history|, ExcludedIds(c), c.root, ids[k]);
  }

  /** `getNonDivisibleConsumerDomainsToPredicate`: each split input covers itself. */
  function NonDivisibleDomains(splits: seq<Axis>): (r: seq<PredicateDomain>)
    ensures |r| == |splits|
    ensures forall k :: 0 <= k < |r| ==> r[k].nonDivisible && r[k].covered == {r[k].id}
  {
    seq(|splits|, k requires 0 <= k < |splits| => PredicateDomain(splits[k], {splits[k]}, true))
  }

  // ---------------------------------------------------------------------------
  // Offsets
  // ---------------------------------------------------------------------------

  /**
   * `getStartAndStopOffsetsForShift` outside the padding predicate: the pad
   * width is taken off the start of a positive shift and off the stop of a
   * negative one.
   */
  function ShiftOffsets(offset: int, pad: nat): (int, int) {
    if offset > 0 then (-(pad as int), 0)
    else if offset < 0 then (0, pad)
    else (0, 0)
  }

  /**
   * `getStartAndStopOffsetsForGather` outside the padding predicate: the
   * producer's offsets from the start and the stop index maps; the start
   * offset is the smaller of zero and the producer's when there is start
   * padding, the stop offset the larger of zero and the producer's,
   * shifted by the producer's extent adjustment, when there is stop
   * padding.
   */
  function GatherOffsets(g: ProducerOffsets.GatherOp, pos: nat, root: seq<Axis>,
                         startMap: map<Axis, IExpr>, stopMap: map<Axis, IExpr>): (r: Result<(IExpr, IExpr), ProducerOffsets.OffsetError>)
    requires ProducerOffsets.ValidGather(g)
    ensures !ProducerOffsets.GatherApplies(pos, Some(g)) ==> r == Ok((Lit(0), Lit(0)))
    ensures r.Ok? && pos < |g.windowShape| && g.padStart[pos] == 0 ==> r.value.0 == Lit(0)
    ensures r.Ok? && pos < |g.windowShape| && g.padStop[pos] == 0 ==> r.value.1 == Lit(0)
  {
    var ps :- ProducerOffsets.GatherOffset(pos, Some(g), root, startMap, None);
    var pe :- ProducerOffsets.GatherOffset(pos, Some(g), root, stopMap, None);
    if IsZeroInt(ps) && IsZeroInt(pe) then Ok((Lit(0), Lit(0)))
    else
      Ok((GatherStart(ps, g.padStart[pos]), GatherStop(pe, g.padStart[pos], g.padStop[pos], g.windowShape[pos])))
  }

  /** The start offset of a gather: the smaller of zero and the producer's, under start padding. */
  function GatherStart(ps: IExpr, padL: int): IExpr {
    if padL == 0 then Lit(0) else MinFolded(Lit(0), ps)
  }

  /**
   * The stop offset of a gather: the larger of zero and the producer's,
   * less the producer's extent adjustment, under stop padding.
   */
  function GatherStop(pe: IExpr, padL: int, padR: int, window: int): IExpr {
    if padR == 0 then Lit(0) else MaxFolded(Lit(0), SubFolded(pe, Lit(window - 1 - padL - padR)))
  }

  /** The gather start offset keeps both the consumer and the producer index non-negative. */
  lemma GatherStartMeaning(ps: IExpr, padL: int, env: Env, t: int, ws: int)
    requires padL >= 0 && ws >= 0 && Eval(ps, env) == Some(ws - padL)
    ensures Eval(GatherStart(ps, padL), env).Some?
    ensures t + Eval(GatherStart(ps, padL), env).value >= 0 <==> t >= 0 && t + ws - padL >= 0
  {
  }

  /** The gather stop offset keeps the consumer index below its extent and the producer index below its own. */
  lemma GatherStopMeaning(pe: IExpr, padL: int, padR: int, window: int, env: Env, s: int, we: int, extent: int)
    requires padL >= 0 && padR >= 0 && padL + padR <= window - 1 && 0 <= we < window
    requires Eval(pe, env) == Some(we - padL)
    ensures Eval(GatherStop(pe, padL, padR, window), env).Some?
    ensures s + Eval(GatherStop(pe, padL, padR, window), env).value < extent
            <==> s < extent && s + we - padL < extent + window - 1 - padL - padR
  {
    if padR != 0 {
      SubFoldedEval(pe, Lit(window - 1 - padL - padR), env);
    }
  }

  /**
   * With window positions inside the window, the gather predicates guard
   * both the consumer and the producer position: the start predicate
   * holds iff the consumer index is at least zero and so is the producer
   * index (consumer index plus window position less start padding); the
   * stop predicate holds iff the consumer index is below the consumer
   * extent and the producer index is below the producer extent (the
   * consumer extent plus window less one less both paddings).
   */
  lemma GatherGuardsBoth(g: ProducerOffsets.GatherOp, pos: nat, root: seq<Axis>,
                         startMap: map<Axis, IExpr>, stopMap: map<Axis, IExpr>, env: Env,
                         t: int, s: int, extent: int)
    requires ProducerOffsets.ValidGather(g) && ProducerOffsets.GatherApplies(pos, Some(g))
    requires g.padStart[pos] >= 0 && g.padStop[pos] >= 0
    requires g.padStart[pos] + g.padStop[pos] <= g.windowShape[pos] - 1
    requires g.windowAxis[pos] < |root|
    requires root[g.windowAxis[pos]] in startMap && root[g.windowAxis[pos]] in stopMap
    requires Eval(startMap[root[g.windowAxis[pos]]], env).Some?
    requires Eval(stopMap[root[g.windowAxis[pos]]], env).Some?
    requires 0 <= Eval(startMap[root[g.windowAxis[pos]]], env).value < g.windowShape[pos]
    requires 0 <= Eval(stopMap[root[g.windowAxis[pos]]], env).value < g.windowShape[pos]
    ensures GatherOffsets(g, pos, root, startMap, stopMap).Ok?
    ensures var r := GatherOffsets(g, pos, root, startMap, stopMap).value;
      var ws := Eval(startMap[root[g.windowAxis[pos]]], env).value;
      var we := Eval(stopMap[root[g.windowAxis[pos]]], env).value;
      && Eval(r.0, env).Some? && Eval(r.1, env).Some?
      && (t + Eval(r.0, env).value >= 0 <==> t >= 0 && t + ws - g.padStart[pos] >= 0)
      && (s + Eval(r.1, env).value < extent <==>
            s < extent && s + we - g.padStart[pos] < extent + g.windowShape[pos] - 1 - g.padStart[pos] - g.padStop[pos])
  {
    var wid := root[g.windowAxis[pos]];
    ProducerOffsets.GatherOffsetEval(pos, g, root, startMap, env);
    ProducerOffsets.GatherOffsetEval(pos, g, root, stopMap, env);
    var ps := ProducerOffsets.GatherOffset(pos, Some(g), root, startMap, None).value;
    var pe := ProducerOffsets.GatherOffset(pos, Some(g), root, stopMap, None).value;
    var ws := Eval(startMap[wid], env).value;
    var we := Eval(stopMap[wid], env).value;
    if !(IsZeroInt(ps) && IsZeroInt(pe)) {
      GatherStartMeaning(ps, g.padStart[pos], env, t, ws);
      GatherStopMeaning(pe, g.padStart[pos], g.padStop[pos], g.windowShape[pos], env, s, we, extent);
    }
  }

  /** `getStartAndStopLimitOffsets`: the start and stop limits of the axis' valid range. */
  function LimitOffsets(c: Consumer, a: Axis, padding: bool, nonDivisible: bool): (IExpr, IExpr) {
    var startLimit := Bounds(c, a).start;
    var stopLimit := NegFolded(Bounds(c, a).stopOffset);
    if !nonDivisible then
      if !padding then
        (AddFolded(startLimit, Lit(Halo(c.hm, a).start)), AddFolded(stopLimit, Lit(Halo(c.hm, a).start)))
      else
        (startLimit, AddFolded(stopLimit, Lit(HaloTotal(c.hm, a))))
    else if a in c.haloWidths then (startLimit, AddFolded(stopLimit, Lit(c.haloWidths[a])))
    else (startLimit, stopLimit)
  }

  /** The position of the first leaf that is unswitched, unrolled or vectorized. */
  function FirstUnswitched(leaves: seq<Axis>, attrs: Attrs): (r: nat)
    ensures r <= |leaves|
    ensures forall k :: 0 <= k < r ==> Info(attrs, leaves[k]).parallel !in {Ir.Unswitch, Ir.Unroll, Ir.Vectorize}
    ensures r < |leaves| ==> Info(attrs, leaves[r]).parallel in {Ir.Unswitch, Ir.Unroll, Ir.Vectorize}
  {
    if leaves == [] then 0
    else if Info(attrs, leaves[0]).parallel in {Ir.Unswitch, Ir.Unroll, Ir.Vectorize} then 0
    else 1 + FirstUnswitched(leaves[1..], attrs)
  }

  /**
   * `getUnswitchStopOffset`: the halo width of a root axis when one of the
   * unswitched leaves inherits its halo, zero otherwise.
   */
  function UnswitchStopOffset(c: Consumer, a: Axis): (r: nat)
    ensures r == 0 || r == HaloTotal(c.hm, a)
    ensures r > 0 <==> HasHalo(c.hm, a)
                       && exists k :: FirstUnswitched(c.leaves, c.attrs) <= k < |c.leaves| && (a, c.leaves[k]) in c.inherits
  {
    if !HasHalo(c.hm, a) then 0
    else
      var u := FirstUnswitched(c.leaves, c.attrs);
      if exists k :: u <= k < |c.leaves| && (a, c.leaves[k]) in c.inherits then HaloTotal(c.hm, a) else 0
  }

  /** The offsets of the consumer's definition, before partial splits and unswitch. */
  function DefinitionOffsets(c: Consumer, a: Axis, startMap: map<Axis, IExpr>, stopMap: map<Axis, IExpr>,
                             padding: bool): (r: Result<(IExpr, IExpr), PredicateError>)
    requires WellFormed(c)
    ensures c.def.Plain? || padding ==> r == Ok((Lit(0), Lit(0)))
    ensures r.Err? && c.def.ShiftDef? ==> a !in c.root
  {
    match c.def
    case Plain => Ok((Lit(0), Lit(0)))
    case ShiftDef(offsets, padWidth) =>
      if padding then Ok((Lit(0), Lit(0)))
      else
        var pos :- RootPos(c, a);
        var o := ShiftOffsets(offsets[pos], padWidth[pos]);
        Ok((Lit(o.0), Lit(o.1)))
    case GatherDef(g) =>
      if padding then Ok((Lit(0), Lit(0)))
      else
        var pos :- RootPos(c, a);
        match GatherOffsets(g, pos, c.root, startMap, stopMap)
        case Err(e) => Err(OffsetFailure(e))
        case Ok(o) => Ok(o)
  }

  /**
   * The offsets added to the index before the limits are taken off: the
   * definition's, plus the partial-split start offset, plus the unswitch
   * stop offset on the stop side. Unswitch never uses the padding
   * predicate.
   */
  function RawOffsets(c: Consumer, a: Axis, startMap: map<Axis, IExpr>, stopMap: map<Axis, IExpr>,
                      padding: bool, unswitch: bool, nonDivisible: bool): (r: Result<(IExpr, IExpr), PredicateError>)
    requires WellFormed(c)
    ensures nonDivisible ==> r == Ok((Lit(0), Lit(0)))
    ensures !nonDivisible && unswitch && padding ==> r.Err?
  {
    if nonDivisible then Ok((Lit(0), Lit(0)))
    else
      var d :- DefinitionOffsets(c, a, startMap, stopMap, padding);
      var split := ProducerOffsets.StartOffset(c.starts, a);
      var start := AddFolded(d.0, split);
      var stop := AddFolded(d.1, split);
      if unswitch then
        if padding then Err(UnswitchWithPadding)
        else Ok((start, AddFolded(stop, Lit(UnswitchStopOffset(c, a)))))
      else Ok((start, stop))
  }

  /**
   * `getStartAndStopOffsets`: a non-root axis outside a non-divisible split
   * needs no offsets; otherwise the raw offsets less the limits, so that
   * the predicates read `index + start >= 0` and `index + stop < extent`.
   */
  function StartAndStopOffsets(c: Consumer, a: Axis, startMap: map<Axis, IExpr>, stopMap: map<Axis, IExpr>,
                               padding: bool, unswitch: bool, nonDivisible: bool): (r: Result<(IExpr, IExpr), PredicateError>)
    requires WellFormed(c)
    ensures HasDefinition(c, a) && !nonDivisible ==> r == Ok((Lit(0), Lit(0)))
    ensures r.Err? <==> !(HasDefinition(c, a) && !nonDivisible)
                        && RawOffsets(c, a, startMap, stopMap, padding, unswitch, nonDivisible).Err?
  {
    if HasDefinition(c, a) && !nonDivisible then Ok((Lit(0), Lit(0)))
    else
      var raw :- RawOffsets(c, a, startMap, stopMap, padding, unswitch, nonDivisible);
      var limits := LimitOffsets(c, a, padding, nonDivisible);
      Ok((SubFolded(raw.0, limits.0), SubFolded(raw.1, limits.1)))
  }

  /**
   * The organised predicates are the natural ones: `index + start >= 0`
   * iff the index plus the raw start offset reaches the start limit, and
   * `index + stop < extent` iff the index plus the raw stop offset is below
   * the extent plus the stop limit.
   */
  lemma OffsetsAgainstLimits(c: Consumer, a: Axis, startMap: map<Axis, IExpr>, stopMap: map<Axis, IExpr>,
                             padding: bool, unswitch: bool, nonDivisible: bool, env: Env, x: int, extent: int)
    requires WellFormed(c)
    requires !(HasDefinition(c, a) && !nonDivisible)
    requires RawOffsets(c, a, startMap, stopMap, padding, unswitch, nonDivisible).Ok?
    requires var raw := RawOffsets(c, a, startMap, stopMap, padding, unswitch, nonDivisible).value;
      Eval(raw.0, env).Some? && Eval(raw.1, env).Some?
    requires var lim := LimitOffsets(c, a, padding, nonDivisible);
      Eval(lim.0, env).Some? && Eval(lim.1, env).Some?
    ensures var r := StartAndStopOffsets(c, a, startMap, stopMap, padding, unswitch, nonDivisible);
      var raw := RawOffsets(c, a, startMap, stopMap, padding, unswitch, nonDivisible).value;
      var lim := LimitOffsets(c, a, padding, nonDivisible);
      && r.Ok? && Eval(r.value.0, env).Some? && Eval(r.value.1, env).Some?
      && (x + Eval(r.value.0, env).value >= 0 <==> x + Eval(raw.0, env).value >= Eval(lim.0, env).value)
      && (x + Eval(r.value.1, env).value < extent <==> x + Eval(raw.1, env).value < extent + Eval(lim.1, env).value)
  {
    var raw := RawOffsets(c, a, startMap, stopMap, padding, unswitch, nonDivisible).value;
    var lim := LimitOffsets(c, a, padding, nonDivisible);
    SubFoldedEval(raw.0, lim.0, env);
    SubFoldedEval(raw.1, lim.1, env);
  }

  /**
   * The valid range of a plain root axis: from its start past the start
   * halo up to its extent less its stop offset past the start halo; the
   * padding predicate admits the whole range with both halos. A partial
   * split start offset moves the index by its value.
   */
  lemma PlainRootRange(c: Consumer, a: Axis, startMap: map<Axis, IExpr>, stopMap: map<Axis, IExpr>,
                       padding: bool, env: Env, x: int, extent: int)
    requires WellFormed(c) && c.def.Plain? && !HasDefinition(c, a)
    requires Eval(Bounds(c, a).start, env).Some? && Eval(Bounds(c, a).stopOffset, env).Some?
    requires Eval(ProducerOffsets.StartOffset(c.starts, a), env).Some?
    ensures var r := StartAndStopOffsets(c, a, startMap, stopMap, padding, false, false);
      var b0 := Eval(Bounds(c, a).start, env).value;
      var b1 := Eval(Bounds(c, a).stopOffset, env).value;
      var p := Eval(ProducerOffsets.StartOffset(c.starts, a), env).value;
      && r.Ok? && Eval(r.value.0, env).Some? && Eval(r.value.1, env).Some?
      && (!padding ==>
            (x + Eval(r.value.0, env).value >= 0 <==> x + p >= b0 + Halo(c.hm, a).start)
            && (x + Eval(r.value.1, env).value < extent <==> x + p < extent - b1 + Halo(c.hm, a).start))
      && (padding ==>
            (x + Eval(r.value.0, env).value >= 0 <==> x + p >= b0)
            && (x + Eval(r.value.1, env).value < extent <==> x + p < extent - b1 + HaloTotal(c.hm, a)))
  {
    var split := ProducerOffsets.StartOffset(c.starts, a);
    AddFoldedEval(Lit(0), split, env);
    var b := Bounds(c, a);
    var hs := Halo(c.hm, a).start;
    AddFoldedEval(b.start, Lit(hs), env);
    AddFoldedEval(NegFolded(b.stopOffset), Lit(hs), env);
    AddFoldedEval(NegFolded(b.stopOffset), Lit(HaloTotal(c.hm, a)), env);
    OffsetsAgainstLimits(c, a, startMap, stopMap, padding, false, false, env, x, extent);
  }

  /**
   * Outside the padding predicate, a shift by a positive amount keeps the
   * first pad-width positions out of the start predicate and a shift by a
   * negative amount keeps the last pad-width positions out of the stop
   * predicate (for a root axis with no halo, no partial bounds and no
   * partial split).
   */
  lemma ShiftPredicateWindow(c: Consumer, pos: nat, startMap: map<Axis, IExpr>, stopMap: map<Axis, IExpr>,
                             env: Env, x: int, extent: int)
    requires WellFormed(c) && c.def.ShiftDef? && pos < |c.root|
    requires c.root[pos] !in c.root[..pos]
    requires !HasDefinition(c, c.root[pos]) && !HasHalo(c.hm, c.root[pos])
    requires c.root[pos] !in c.bounds && c.root[pos] !in c.starts
    ensures var r := StartAndStopOffsets(c, c.root[pos], startMap, stopMap, false, false, false);
      var s := c.def.offsets[pos];
      var pad := c.def.padWidth[pos];
      && r.Ok? && Eval(r.value.0, env).Some? && Eval(r.value.1, env).Some?
      && (x + Eval(r.value.0, env).value >= 0 <==> x >= (if s > 0 then pad else 0))
      && (x + Eval(r.value.1, env).value < extent <==> x < extent - (if s < 0 then pad else 0))
  {
    var a := c.root[pos];
    assert FirstIndexOf(c.root, a) == Some(pos);
    var o := ShiftOffsets(c.def.offsets[pos], c.def.padWidth[pos]);
    assert StartAndStopOffsets(c, a, startMap, stopMap, false, false, false) == Ok((Lit(o.0), Lit(o.1)));
  }

  // ---------------------------------------------------------------------------
  // Simplifying the predicates
  // ---------------------------------------------------------------------------

  /**
   * `simplifyStartOffset`: a literal offset of at least zero needs no start
   * predicate (None); a minimum of a literal zero and something else keeps
   * only the something else.
   */
  function SimplifyStartOffset(e: IExpr): (r: Option<IExpr>)
    ensures r.None? <==> e.Lit? && e.n >= 0
  {
    if e.Lit? && e.n >= 0 then None
    else if e.Min? && IsZeroInt(e.a) then Some(e.b)
    else Some(e)
  }

  /** The simplified start predicate agrees with the original on every index of at least zero. */
  lemma SimplifyStartOffsetSound(e: IExpr, env: Env, t: int)
    requires Eval(e, env).Some? && t >= 0
    ensures match SimplifyStartOffset(e)
      case None => t + Eval(e, env).value >= 0
      case Some(f) => Eval(f, env).Some? && (t + Eval(f, env).value >= 0 <==> t + Eval(e, env).value >= 0)
  {
  }

  /** The name of the magic zero. */
  const MagicZeroName := "nvfuser_zero"

  /** `isProtectedWithMagicZero`: the index is something plus the magic zero. */
  predicate ProtectedWithMagicZero(e: IExpr) {
    e.Add? && e.b == Var(MagicZeroName)
  }

  /** A simple index: a leaf, or a leaf protected with the magic zero. */
  predicate SimpleIndex(e: IExpr) {
    IsLeaf(e) || (ProtectedWithMagicZero(e) && IsLeaf(e.a))
  }

  /**
   * `canOmitStopPredicate`: the index (less a magic zero) and the extent
   * are leaves, the offset is a literal no larger than minus the halo, and
   * a thread-parallel axis has an exact dimension and no halo.
   */
  function CanOmitStopPredicate(c: Consumer, stopIndex: IExpr, stopOffset: IExpr, a: Axis,
                                exact: set<Ir.ParallelType>): (r: bool)
    ensures r <==>
      && SimpleIndex(stopIndex) && IsLeaf(Extent(c.attrs, a))
      && stopOffset.Lit? && HaloTotal(c.hm, a) + stopOffset.n <= 0
      && (Ir.IsThread(Info(c.attrs, a).parallel) ==> Info(c.attrs, a).parallel in exact && HaloTotal(c.hm, a) == 0)
  {
    if !(SimpleIndex(stopIndex) && IsLeaf(Extent(c.attrs, a))) then false
    else if !stopOffset.Lit? then false
    else if HaloTotal(c.hm, a) + stopOffset.n > 0 then false
    else
      var pt := Info(c.attrs, a).parallel;
      if Ir.IsThread(pt) then pt in exact && HaloTotal(c.hm, a) == 0
      else true
  }

  /**
   * Omitting is sound: an index that ranges below the extent plus the halo
   * always passes the stop predicate the omission drops.
   */
  lemma CanOmitStopSound(c: Consumer, stopIndex: IExpr, stopOffset: IExpr, a: Axis,
                         exact: set<Ir.ParallelType>, env: Env, s: int, extent: int)
    requires CanOmitStopPredicate(c, stopIndex, stopOffset, a, exact)
    requires s < extent + HaloTotal(c.hm, a)
    ensures Eval(stopOffset, env).Some? && s + Eval(stopOffset, env).value < extent
  {
  }

  // ---------------------------------------------------------------------------
  // Boundary indices of unswitched loops
  // ---------------------------------------------------------------------------

  /** A loop of the nest: its axis, index and the range it iterates. */
  datatype ForLoop = ForLoop(axis: Axis, index: IExpr, start: IExpr, stop: IExpr)

  /** The unswitch loop is a vectorized one: only it gets boundary indices. */
  predicate VectorizedPredicate(loops: seq<ForLoop>, attrs: Attrs, unswitch: Option<nat>) {
    unswitch.Some? && unswitch.value < |loops| && Info(attrs, loops[unswitch.value].axis).parallel == Ir.Vectorize
  }

  /**
   * Whether loop `i` gets a boundary index: it lies within the unswitch
   * loop, and a vectorized predicate has not already stopped at an
   * earlier loop whose reference axis is not a broadcast.
   */
  predicate Rewritten(loops: seq<ForLoop>, refAxes: seq<Axis>, attrs: Attrs, unswitch: Option<nat>, i: nat)
    requires i < |loops| <= |refAxes|
  {
    && unswitch.Some? && unswitch.value <= i
    && !(VectorizedPredicate(loops, attrs, unswitch)
         && exists j :: unswitch.value <= j < i && !IsBroadcast(attrs, refAxes[j]))
  }

  /**
   * The index a loop is predicated at within an unswitch: its own index on
   * a broadcast reference axis; for a thread loop, its start when it
   * covers exactly its axis, else zero for the start predicate and the
   * parallel dimension less `threadBack` for the stop predicate; for any
   * other loop zero or its extent less one.
   */
  function BoundaryIndex(loop: ForLoop, attrs: Attrs, refBroadcast: bool, dims: map<Ir.ParallelType, IExpr>,
                         start: bool, threadBack: int): (r: Result<IExpr, PredicateError>)
    ensures refBroadcast ==> r == Ok(loop.index)
    ensures r.Err? <==> !refBroadcast && Ir.IsThread(Info(attrs, loop.axis).parallel)
                        && loop.stop != Extent(attrs, loop.axis) && !start
                        && Info(attrs, loop.axis).parallel !in dims
  {
    var pt := Info(attrs, loop.axis).parallel;
    if refBroadcast then Ok(loop.index)
    else if Ir.IsThread(pt) then
      if loop.stop == Extent(attrs, loop.axis) then Ok(loop.start)
      else if start then Ok(Lit(0))
      else if pt !in dims then Err(MissingParallelDim)
      else Ok(SubFolded(dims[pt], Lit(threadBack)))
    else if start then Ok(Lit(0))
    else Ok(SubFolded(Extent(attrs, loop.axis), Lit(1)))
  }

  /** The index loop `i` is predicated at, before double buffering. */
  function LoopIndex(loops: seq<ForLoop>, refAxes: seq<Axis>, attrs: Attrs, unswitch: Option<nat>,
                     dims: map<Ir.ParallelType, IExpr>, start: bool, threadBack: int, i: nat): (r: Result<IExpr, PredicateError>)
    requires i < |loops| <= |refAxes|
    ensures !Rewritten(loops, refAxes, attrs, unswitch, i) ==> r == Ok(loops[i].index)
  {
    if Rewritten(loops, refAxes, attrs, unswitch, i) then
      BoundaryIndex(loops[i], attrs, IsBroadcast(attrs, refAxes[i]), dims, start, threadBack)
    else Ok(loops[i].index)
  }

  /**
   * The double-buffered loop is predicated one iteration ahead, unless its
   * index was already replaced by a boundary index.
   */
  function DoubleBufferAhead(loops: seq<ForLoop>, inds: seq<IExpr>, dbLoop: Option<nat>): (r: Result<seq<IExpr>, PredicateError>)
    requires |inds| == |loops|
    ensures r.Err? <==> dbLoop.Some? && dbLoop.value >= |loops|
    ensures r.Ok? ==> |r.value| == |inds|
    ensures r.Ok? ==> forall i :: 0 <= i < |inds| && dbLoop != Some(i) ==> r.value[i] == inds[i]
    ensures r.Ok? && dbLoop.Some? ==>
      var k := dbLoop.value;
      r.value[k] == if inds[k] == loops[k].index then Add(inds[k], Lit(1)) else inds[k]
  {
    match dbLoop
    case None => Ok(inds)
    case Some(k) =>
      if k >= |loops| then Err(MissingDoubleBufferLoop)
      else if inds[k] == loops[k].index then Ok(inds[k := Add(inds[k], Lit(1))])
      else Ok(inds)
  }

  /**
   * `getPredicateReferenceIndexing` up to the reference indexing, with
   * `threadBack` for what a thread loop's stop index takes off its
   * parallel dimension.
   */
  function ReferenceLoopIndicesWith(loops: seq<ForLoop>, refAxes: seq<Axis>, attrs: Attrs, unswitch: Option<nat>,
                                    dims: map<Ir.ParallelType, IExpr>, dbLoop: Option<nat>, start: bool,
                                    threadBack: int): (r: Result<seq<IExpr>, PredicateError>)
    ensures |loops| > |refAxes| ==> r == Err(InvalidReference)
    ensures r.Ok? <==> && |loops| <= |refAxes|
                       && (forall i :: 0 <= i < |loops| ==> LoopIndex(loops, refAxes, attrs, unswitch, dims, start, threadBack, i).Ok?)
                       && (dbLoop.Some? ==> dbLoop.value < |loops|)
    ensures r.Ok? ==> |r.value| == |loops| <= |refAxes|
    ensures r.Ok? ==> forall i :: 0 <= i < |loops| && dbLoop != Some(i) ==>
      Ok(r.value[i]) == LoopIndex(loops, refAxes, attrs, unswitch, dims, start, threadBack, i)
  {
    if |loops| > |refAxes| then Err(InvalidReference)
    else
      var f := (i: nat) => if i < |loops| then LoopIndex(loops, refAxes, attrs, unswitch, dims, start, threadBack, i)
                           else Ok(Lit(0));
      var inds :- CollectAll(|loops|, f);
      assert forall i :: 0 <= i < |loops| ==> f(i) == LoopIndex(loops, refAxes, attrs, unswitch, dims, start, threadBack, i);
      DoubleBufferAhead(loops, inds, dbLoop)
  }

  /** The loop indices as the source computes them: a thread loop's stop index is its dimension less zero. */
  function ReferenceLoopIndicesAsWritten(loops: seq<ForLoop>, refAxes: seq<Axis>, attrs: Attrs, unswitch: Option<nat>,
                                         dims: map<Ir.ParallelType, IExpr>, dbLoop: Option<nat>, start: bool): (r: Result<seq<IExpr>, PredicateError>)
    ensures r.Ok? ==> |r.value| == |loops|
    ensures r.Ok? <==> && |loops| <= |refAxes|
                       && (forall i :: 0 <= i < |loops| ==> LoopIndex(loops, refAxes, attrs, unswitch, dims, start, 0, i).Ok?)
                       && (dbLoop.Some? ==> dbLoop.value < |loops|)
    ensures r.Ok? ==> forall i :: 0 <= i < |loops| && dbLoop != Some(i) ==>
      Ok(r.value[i]) == LoopIndex(loops, refAxes, attrs, unswitch, dims, start, 0, i)
  {
    ReferenceLoopIndicesWith(loops, refAxes, attrs, unswitch, dims, dbLoop, start, 0)
  }

  /** The loop indices with a thread loop's stop index at its dimension less one, its last thread. */
  function ReferenceLoopIndices(loops: seq<ForLoop>, refAxes: seq<Axis>, attrs: Attrs, unswitch: Option<nat>,
                                dims: map<Ir.ParallelType, IExpr>, dbLoop: Option<nat>, start: bool): (r: Result<seq<IExpr>, PredicateError>)
    ensures r.Ok? ==> |r.value| == |loops|
    ensures r.Ok? <==> && |loops| <= |refAxes|
                       && (forall i :: 0 <= i < |loops| ==> LoopIndex(loops, refAxes, attrs, unswitch, dims, start, 1, i).Ok?)
                       && (dbLoop.Some? ==> dbLoop.value < |loops|)
    ensures r.Ok? ==> forall i :: 0 <= i < |loops| && dbLoop != Some(i) ==>
      Ok(r.value[i]) == LoopIndex(loops, refAxes, attrs, unswitch, dims, start, 1, i)
  {
    ReferenceLoopIndicesWith(loops, refAxes, attrs, unswitch, dims, dbLoop, start, 1)
  }

  /** Loops outside the unswitch keep their own index (the double-buffered loop moves one ahead). */
  lemma OutsideUnswitchKeepsIndex(loops: seq<ForLoop>, refAxes: seq<Axis>, attrs: Attrs, unswitch: Option<nat>,
                                  dims: map<Ir.ParallelType, IExpr>, dbLoop: Option<nat>, start: bool, i: nat)
    requires i < |loops| <= |refAxes| && !Rewritten(loops, refAxes, attrs, unswitch, i)
    requires ReferenceLoopIndices(loops, refAxes, attrs, unswitch, dims, dbLoop, start).Ok?
    ensures var r := ReferenceLoopIndices(loops, refAxes, attrs, unswitch, dims, dbLoop, start).value;
      r[i] == if dbLoop == Some(i) then Add(loops[i].index, Lit(1)) else loops[i].index
  {
    var f := (j: nat) => if j < |loops| then LoopIndex(loops, refAxes, attrs, unswitch, dims, start, 1, j) else Ok(Lit(0));
    var inds := CollectAll(|loops|, f).value;
    assert f(i) == Ok(loops[i].index);
  }

  /**
   * A vectorized predicate gives a boundary index to the vectorized loop
   * only, when its reference axis is not a broadcast.
   */
  lemma VectorizedRewritesOneLoop(loops: seq<ForLoop>, refAxes: seq<Axis>, attrs: Attrs, unswitch: Option<nat>, i: nat)
    requires i < |loops| <= |refAxes|
    requires VectorizedPredicate(loops, attrs, unswitch) && !IsBroadcast(attrs, refAxes[unswitch.value])
    ensures Rewritten(loops, refAxes, attrs, unswitch, i) <==> i == unswitch.value
  {
    if i > unswitch.value {
      assert !IsBroadcast(attrs, refAxes[unswitch.value]);
    }
  }

  /**
   * Within an unswitch, the start and stop indices of a loop whose
   * reference axis is not a broadcast bracket every iteration: a loop of
   * extent `e` runs from 0 to `e - 1`, and a thread loop that does not
   * cover exactly its axis runs from 0 to its dimension less one.
   */
  lemma BoundaryIndicesBracket(loop: ForLoop, attrs: Attrs, dims: map<Ir.ParallelType, IExpr>, env: Env, v: int)
    requires Eval(Extent(attrs, loop.axis), env).Some?
    requires Ir.IsThread(Info(attrs, loop.axis).parallel) ==>
      loop.stop != Extent(attrs, loop.axis) && Info(attrs, loop.axis).parallel in dims
      && Eval(dims[Info(attrs, loop.axis).parallel], env).Some?
    requires 0 <= v
    requires !Ir.IsThread(Info(attrs, loop.axis).parallel) ==> v < Eval(Extent(attrs, loop.axis), env).value
    requires Ir.IsThread(Info(attrs, loop.axis).parallel) ==>
      v < Eval(dims[Info(attrs, loop.axis).parallel], env).value
    ensures var lo := BoundaryIndex(loop, attrs, false, dims, true, 1);
      var hi := BoundaryIndex(loop, attrs, false, dims, false, 1);
      && lo.Ok? && hi.Ok? && Eval(lo.value, env) == Some(0)
      && Eval(hi.value, env).Some? && v <= Eval(hi.value, env).value
  {
    var pt := Info(attrs, loop.axis).parallel;
    if Ir.IsThread(pt) {
      SubFoldedEval(dims[pt], Lit(1), env);
    } else {
      SubFoldedEval(Extent(attrs, loop.axis), Lit(1), env);
    }
  }

  /** The stop predicate at thread index `t`. */
  predicate PassesStop(t: int, offset: int, extent: int) {
    t + offset < extent
  }

  /**
   * With the stop index at the last thread, the stop predicate at the
   * boundary holds exactly when it holds for every thread of a non-empty
   * dimension.
   */
  lemma ThreadBoundaryIsLastThread(loop: ForLoop, attrs: Attrs, dims: map<Ir.ParallelType, IExpr>, env: Env,
                                   offset: int, extent: int)
    requires Ir.IsThread(Info(attrs, loop.axis).parallel) && loop.stop != Extent(attrs, loop.axis)
    requires Info(attrs, loop.axis).parallel in dims
    requires Eval(dims[Info(attrs, loop.axis).parallel], env).Some?
    requires Eval(dims[Info(attrs, loop.axis).parallel], env).value > 0
    ensures var hi := BoundaryIndex(loop, attrs, false, dims, false, 1);
      var d := Eval(dims[Info(attrs, loop.axis).parallel], env).value;
      && hi.Ok? && Eval(hi.value, env) == Some(d - 1)
      && (PassesStop(Eval(hi.value, env).value, offset, extent) <==> forall t :: 0 <= t < d ==> PassesStop(t, offset, extent))
  {
    var pt := Info(attrs, loop.axis).parallel;
    SubFoldedEval(dims[pt], Lit(1), env);
    var d := Eval(dims[pt], env).value;
    if forall t :: 0 <= t < d ==> PassesStop(t, offset, extent) {
      assert PassesStop(d - 1, offset, extent);
    }
  }

  /**
   * As written, the stop index of a thread loop with halo is its whole
   * dimension: with dimension 8, extent 8 and no offset the unswitch stop
   * predicate `8 < 8` fails although every thread index 0 .. 7 passes,
   * while the last-thread index 7 passes.
   */
  lemma AsWrittenThreadBoundaryRejectsAllThreads()
    ensures var attrs := map[0 := AxisInfo(Iteration, Lit(8), Ir.TIDx)];
      var loops := [ForLoop(0, Var("i"), Lit(0), Lit(10))];
      var dims := map[Ir.TIDx := Lit(8)];
      && ReferenceLoopIndicesAsWritten(loops, [1], attrs, Some(0), dims, None, false) == Ok([Lit(8)])
      && ReferenceLoopIndices(loops, [1], attrs, Some(0), dims, None, false) == Ok([Lit(7)])
      && !PassesStop(8, 0, 8) && (forall t :: 0 <= t < 8 ==> PassesStop(t, 0, 8)) && PassesStop(7, 0, 8)
  {
    var attrs := map[0 := AxisInfo(Iteration, Lit(8), Ir.TIDx)];
    var loops := [ForLoop(0, Var("i"), Lit(0), Lit(10))];
    var dims := map[Ir.TIDx := Lit(8)];
    assert Ir.IsThread(Ir.TIDx);
    assert !IsBroadcast(attrs, 1);
    assert Rewritten(loops, [1], attrs, Some(0), 0);
    assert LoopIndex(loops, [1], attrs, Some(0), dims, false, 0, 0) == Ok(Lit(8));
    assert LoopIndex(loops, [1], attrs, Some(0), dims, false, 1, 0) == Ok(Lit(7));
    var w := ReferenceLoopIndicesAsWritten(loops, [1], attrs, Some(0), dims, None, false);
    assert w.Ok? && |w.value| == 1 && w.value[0] == Lit(8);
    assert w.value == [Lit(8)];
    var f := ReferenceLoopIndices(loops, [1], attrs, Some(0), dims, None, false);
    assert f.Ok? && |f.value| == 1 && f.value[0] == Lit(7);
    assert f.value == [Lit(7)];
  }

  // ---------------------------------------------------------------------------
  // Root predicates
  // ---------------------------------------------------------------------------

  /** A predicate: always, never, `e >= 0` or `e < bound`. */
  datatype Pred = Always | Never | AtLeastZero(e: IExpr) | Below(e: IExpr, bound: IExpr)

  predicate Holds(p: Pred, env: Env) {
    match p
    case Always => true
    case Never => false
    case AtLeastZero(e) => Eval(e, env).Some? && Eval(e, env).value >= 0
    case Below(e, bound) => Eval(e, env).Some? && Eval(bound, env).Some? && Eval(e, env).value < Eval(bound, env).value
  }

  /** The start and stop predicates of one axis, their offsets, and the root axes they cover. */
  datatype RootPredicateInfo = RootPredicateInfo(startPred: Pred, stopPred: Pred, offsets: Option<(IExpr, IExpr)>,
                                                 rootIds: set<Axis>)

  /** `getFalseInfo`: predicates that never hold. */
  const FalseInfo := RootPredicateInfo(Never, Never, None, {})

  /** The start predicate of an axis: none when the start offset is known to be non-negative. */
  function StartPredicate(start: IExpr, offset: IExpr): Pred {
    match SimplifyStartOffset(offset)
    case None => Always
    case Some(s) => AtLeastZero(AddFolded(start, s))
  }

  /** For a non-negative start index the start predicate checks start plus offset against zero. */
  lemma StartPredicateMeaning(start: IExpr, offset: IExpr, env: Env)
    requires Eval(start, env).Some? && Eval(offset, env).Some? && Eval(start, env).value >= 0
    ensures Holds(StartPredicate(start, offset), env) <==> Eval(start, env).value + Eval(offset, env).value >= 0
  {
    SimplifyStartOffsetSound(offset, env, Eval(start, env).value);
    match SimplifyStartOffset(offset)
    case None =>
    case Some(s) => AddFoldedEval(start, s, env);
  }

  /** The stop predicate of an axis: none when it can be omitted. */
  function StopPredicate(c: Consumer, a: Axis, stop: IExpr, offset: IExpr, exact: set<Ir.ParallelType>): Pred
    requires WellFormed(c)
  {
    if CanOmitStopPredicate(c, stop, offset, a, exact) then Always
    else Below(AddFolded(stop, offset), Extent(c.attrs, a))
  }

  /** For a stop index within the halo-widened extent the stop predicate checks stop plus offset against the extent. */
  lemma StopPredicateMeaning(c: Consumer, a: Axis, stop: IExpr, offset: IExpr, exact: set<Ir.ParallelType>, env: Env)
    requires WellFormed(c)
    requires Eval(stop, env).Some? && Eval(offset, env).Some? && Eval(Extent(c.attrs, a), env).Some?
    requires Eval(stop, env).value < Eval(Extent(c.attrs, a), env).value + HaloTotal(c.hm, a)
    ensures Holds(StopPredicate(c, a, stop, offset, exact), env)
            <==> Eval(stop, env).value + Eval(offset, env).value < Eval(Extent(c.attrs, a), env).value
  {
    if CanOmitStopPredicate(c, stop, offset, a, exact) {
      CanOmitStopSound(c, stop, offset, a, exact, env, Eval(stop, env).value, Eval(Extent(c.attrs, a), env).value);
    } else {
      AddFoldedEval(stop, offset, env);
    }
  }

  /**
   * The predicates of one predicated axis, or None when it needs none: a
   * broadcast or trivially reduced axis, or one without a stop index or
   * with a literal zero one.
   */
  function RootPredicateFor(c: Consumer, d: PredicateDomain, startMap: map<Axis, IExpr>, stopMap: map<Axis, IExpr>,
                            padding: bool, unswitch: bool, exact: set<Ir.ParallelType>): (r: Result<Option<RootPredicateInfo>, PredicateError>)
    requires WellFormed(c)
    ensures IsBroadcast(c.attrs, d.id) || d.id in c.trivial || d.id !in stopMap || IsZeroInt(stopMap[d.id])
            ==> r == Ok(None)
    ensures r.Ok? && r.value.Some? ==>
      && r.value.value.rootIds == d.covered
      && r.value.value.startPred != Never && r.value.value.stopPred != Never
      && d.id in startMap && d.id in stopMap
      && r.value.value.offsets.Some?
      && StartAndStopOffsets(c, d.id, startMap, stopMap, padding, unswitch, d.nonDivisible) == Ok(r.value.value.offsets.value)
  {
    var a := d.id;
    if IsBroadcast(c.attrs, a) || a in c.trivial then Ok(None)
    else if a !in stopMap || IsZeroInt(stopMap[a]) then Ok(None)
    else
      var offsets :- StartAndStopOffsets(c, a, startMap, stopMap, padding, unswitch, d.nonDivisible);
      if a !in startMap then Err(MissingStartIndex)
      else
        var startPred := StartPredicate(startMap[a], offsets.0);
        var stopPred := StopPredicate(c, a, stopMap[a], offsets.1, exact);
        Ok(Some(RootPredicateInfo(startPred, stopPred, Some(offsets), d.covered)))
  }

  /**
   * The predicates of an axis mean what their offsets say: for a start
   * index of at least zero the start predicate holds iff the start index
   * plus the start offset is at least zero, and for a stop index below the
   * extent plus the halo the stop predicate holds iff the stop index plus
   * the stop offset is below the extent.
   */
  lemma RootPredicateMeaning(c: Consumer, d: PredicateDomain, startMap: map<Axis, IExpr>, stopMap: map<Axis, IExpr>,
                             padding: bool, unswitch: bool, exact: set<Ir.ParallelType>, env: Env)
    requires WellFormed(c)
    requires RootPredicateFor(c, d, startMap, stopMap, padding, unswitch, exact).Ok?
    requires RootPredicateFor(c, d, startMap, stopMap, padding, unswitch, exact).value.Some?
    requires var info := RootPredicateFor(c, d, startMap, stopMap, padding, unswitch, exact).value.value;
      && Eval(info.offsets.value.0, env).Some? && Eval(info.offsets.value.1, env).Some?
      && Eval(startMap[d.id], env).Some? && Eval(stopMap[d.id], env).Some?
      && Eval(Extent(c.attrs, d.id), env).Some?
    requires Eval(startMap[d.id], env).value >= 0
    requires Eval(stopMap[d.id], env).value < Eval(Extent(c.attrs, d.id), env).value + HaloTotal(c.hm, d.id)
    ensures var info := RootPredicateFor(c, d, startMap, stopMap, padding, unswitch, exact).value.value;
      var t := Eval(startMap[d.id], env).value;
      var s := Eval(stopMap[d.id], env).value;
      && (Holds(info.startPred, env) <==> t + Eval(info.offsets.value.0, env).value >= 0)
      && (Holds(info.stopPred, env) <==> s + Eval(info.offsets.value.1, env).value < Eval(Extent(c.attrs, d.id), env).value)
  {
    var info := RootPredicateFor(c, d, startMap, stopMap, padding, unswitch, exact).value.value;
    var offsets := info.offsets.value;
    assert info.startPred == StartPredicate(startMap[d.id], offsets.0);
    assert info.stopPred == StopPredicate(c, d.id, stopMap[d.id], offsets.1, exact);
    StartPredicateMeaning(startMap[d.id], offsets.0, env);
    StopPredicateMeaning(c, d.id, stopMap[d.id], offsets.1, exact, env);
  }

  /** The predicates of the predicated axes `ds`, in order, skipping those that need none. */
  function RootPredicatesOf(c: Consumer, ds: seq<PredicateDomain>, startMap: map<Axis, IExpr>, stopMap: map<Axis, IExpr>,
                            padding: bool, unswitch: bool, exact: set<Ir.ParallelType>): (r: Result<seq<RootPredicateInfo>, PredicateError>)
    requires WellFormed(c)
    ensures r.Ok? <==> forall k :: 0 <= k < |ds| ==> RootPredicateFor(c, ds[k], startMap, stopMap, padding, unswitch, exact).Ok?
    ensures r.Ok? ==> |r.value| <= |ds|
    ensures r.Ok? ==> forall k :: 0 <= k < |r.value| ==> r.value[k].startPred != Never && r.value[k].stopPred != Never
  {
    if ds == [] then Ok([])
    else
      var init := ds[..|ds| - 1];
      assert forall k :: 0 <= k < |init| ==> init[k] == ds[k];
      var front :- RootPredicatesOf(c, init, startMap, stopMap, padding, unswitch, exact);
      var last :- RootPredicateFor(c, ds[|ds| - 1], startMap, stopMap, padding, unswitch, exact);
      Ok(front + (if last.Some? then [last.value] else []))
  }

  /** Every predicate in the list is the predicate of one of the predicated axes. */
  lemma {:induction false} RootPredicatesOfSource(c: Consumer, ds: seq<PredicateDomain>, startMap: map<Axis, IExpr>,
                                                  stopMap: map<Axis, IExpr>, padding: bool, unswitch: bool,
                                                  exact: set<Ir.ParallelType>, info: RootPredicateInfo)
    requires WellFormed(c)
    requires RootPredicatesOf(c, ds, startMap, stopMap, padding, unswitch, exact).Ok?
    requires info in RootPredicatesOf(c, ds, startMap, stopMap, padding, unswitch, exact).value
    ensures exists k :: 0 <= k < |ds| && RootPredicateFor(c, ds[k], startMap, stopMap, padding, unswitch, exact) == Ok(Some(info))
  {
    var front := RootPredicatesOf(c, ds[..|ds| - 1], startMap, stopMap, padding, unswitch, exact).value;
    if info in front {
      RootPredicatesOfSource(c, ds[..|ds| - 1], startMap, stopMap, padding, unswitch, exact, info);
      var k :| 0 <= k < |ds| - 1 && RootPredicateFor(c, ds[..|ds| - 1][k], startMap, stopMap, padding, unswitch, exact) == Ok(Some(info));
      assert ds[..|ds| - 1][k] == ds[k];
    } else {
      assert RootPredicateFor(c, ds[|ds| - 1], startMap, stopMap, padding, unswitch, exact) == Ok(Some(info));
    }
  }

  /**
   * `getReferenceRootPredicates` from the consumer's index maps: one
   * never-holding predicate when the padding predicate is asked of a
   * consumer that needs no padding; otherwise the predicates of the
   * contiguous axes and of the non-divisible split inputs. Without an
   * unswitch the start predicates use the stop index map.
   */
  function RootPredicates(c: Consumer, startMap: map<Axis, IExpr>, stopMap: map<Axis, IExpr>,
                          padding: bool, unswitch: bool, exact: set<Ir.ParallelType>): (r: Result<seq<RootPredicateInfo>, PredicateError>)
    requires WellFormed(c)
    ensures padding && !NeedsPadding(c.def) ==> r == Ok([FalseInfo])
    ensures !(padding && !NeedsPadding(c.def)) && r.Ok? ==>
      |r.value| <= |c.root| + |c.nonDivisible|
      && forall k :: 0 <= k < |r.value| ==> r.value[k].startPred != Never && r.value[k].stopPred != Never
  {
    if padding && !NeedsPadding(c.def) then Ok([FalseInfo])
    else
      var ds := PredicateContigIds(c) + NonDivisibleDomains(c.nonDivisible);
      var starts := if unswitch then startMap else stopMap;
      RootPredicatesOf(c, ds, starts, stopMap, padding, unswitch, exact)
  }
}
