/**
 * Alias operations on tensors: `view`, the two `squeeze` forms and
 * `unsqueeze`. The operations they are built from (`sum`, `broadcast`,
 * `set` and the view transform of a domain) are abstract constructors that
 * record their arguments; the model states which one each alias operation
 * applies, to which axes, and when it refuses its input.
 */
module AliasOps {
  import opened Wrappers

  /** One step of a view analysis: keep, merge or split an axis. */
  datatype ViewTransform = KeepAxis(axis: nat) | MergeAxis(axis: nat) | SplitAxis(axis: nat, factor: nat)

  /** A tensor: its rank, the two flags `view` checks, and how it was made. */
  datatype Tv = Tv(rank: nat, hasComputeAt: bool, hasRFactor: bool, origin: Origin)

  datatype Origin =
    | Input(id: nat)
    | SumOf(x: Tv, axes: seq<int>)
    | BroadcastOf(x: Tv, flags: seq<bool>)
    | SetOf(x: Tv)
    | ViewOf(x: Tv, transforms: seq<ViewTransform>)

  datatype AliasError = RankMismatch | HasComputeAt | ZeroDim | AlreadyViewed | NoTransforms | DimOutOfRange

  /** A reduction over `axes`; reduced axes stay in the domain, so the rank is kept. */
  function Sum(x: Tv, axes: seq<int>): Tv {
    Tv(x.rank, false, false, SumOf(x, axes))
  }

  /** A broadcast producing one axis per flag. */
  function Broadcast(x: Tv, flags: seq<bool>): Tv {
    Tv(|flags|, false, false, BroadcastOf(x, flags))
  }

  /** A copy. */
  function Set(x: Tv): Tv {
    Tv(x.rank, false, false, SetOf(x))
  }

  /**
   * What the view analysis reports: trivially reduced axes, the transforms,
   * whether and where to broadcast, and the rank of the transformed domain.
   */
  datatype ViewAnalysis = ViewAnalysis(
    trivialReductionAxes: seq<int>,
    transforms: seq<ViewTransform>,
    hasBroadcast: bool,
    broadcastAxes: seq<bool>,
    viewRank: nat)

  /** `applyViewTransforms`: no computeAt, a positive rank, no earlier view and at least one transform. */
  function ApplyViewTransforms(tv: Tv, transforms: seq<ViewTransform>, viewRank: nat): (r: Result<Tv, AliasError>)
    ensures r.Ok? <==> !tv.hasComputeAt && tv.rank > 0 && !tv.hasRFactor && transforms != []
    ensures r.Ok? ==> r.value.hasRFactor && r.value.origin == ViewOf(tv, transforms)
    ensures tv.hasComputeAt ==> r == Err(HasComputeAt)
  {
    if tv.hasComputeAt then Err(HasComputeAt)
    else if tv.rank == 0 then Err(ZeroDim)
    else if tv.hasRFactor then Err(AlreadyViewed)
    else if transforms == [] then Err(NoTransforms)
    else Ok(Tv(viewRank, false, true, ViewOf(tv, transforms)))
  }

  /** `view`: reduce the trivial axes, apply the transforms, broadcast, each only when the analysis asks for it. */
  function View(x: Tv, originalSizes: seq<int>, a: ViewAnalysis): (r: Result<Tv, AliasError>)
    ensures x.rank != |originalSizes| ==> r == Err(RankMismatch)
  {
    if x.rank != |originalSizes| then Err(RankMismatch)
    else
      var reduction := if a.trivialReductionAxes != [] then Sum(x, a.trivialReductionAxes) else x;
      var view :- if a.transforms != [] then ApplyViewTransforms(reduction, a.transforms, a.viewRank) else Ok(reduction);
      Ok(if a.hasBroadcast then Broadcast(view, a.broadcastAxes) else view)
  }

  /**
   * The stages `view` applies: a broadcast on top exactly when flagged, a
   * view below it exactly when there are transforms, and a sum at the
   * bottom exactly when there are trivial reduction axes; with none of them
   * the input comes back unchanged.
   */
  lemma ViewStages(x: Tv, originalSizes: seq<int>, a: ViewAnalysis)
    requires x.rank == |originalSizes|
    requires View(x, originalSizes, a).Ok?
    ensures var r := View(x, originalSizes, a).value;
      var below := if a.hasBroadcast then r.origin.x else r;
      && (a.hasBroadcast ==> r.origin == BroadcastOf(below, a.broadcastAxes))
      && (a.transforms != [] ==> below.origin.ViewOf? && below.origin.transforms == a.transforms)
      && (var reduced := if a.transforms != [] then below.origin.x else below;
          && (a.trivialReductionAxes != [] ==> reduced == Sum(x, a.trivialReductionAxes))
          && (a.trivialReductionAxes == [] ==> reduced == x))
  {
  }

  /** A view of a tensor with computeAt fails whenever there are transforms. */
  lemma ViewRefusesComputeAt(x: Tv, originalSizes: seq<int>, a: ViewAnalysis)
    requires x.rank == |originalSizes| && x.hasComputeAt && a.trivialReductionAxes == [] && a.transforms != []
    ensures View(x, originalSizes, a) == Err(HasComputeAt)
  {
  }

  /** The axes of size 1, in increasing order. */
  function SizeOneAxes(sizes: seq<int>, from: nat): (r: seq<int>)
    requires from <= |sizes|
    ensures forall k :: 0 <= k < |r| ==> from <= r[k] < |sizes| && sizes[r[k]] == 1
    ensures forall k :: 0 <= k < |r| - 1 ==> r[k] < r[k + 1]
    ensures forall i :: from <= i < |sizes| && sizes[i] == 1 ==> i in r
    decreases |sizes| - from
  {
    if from == |sizes| then []
    else (if sizes[from] == 1 then [from] else []) + SizeOneAxes(sizes, from + 1)
  }

  /** `squeeze(x, sizes)`: a sum over every axis of size 1, or `x` itself when there is none. */
  function Squeeze(x: Tv, sizes: seq<int>): (r: Result<Tv, AliasError>)
    ensures x.rank != |sizes| ==> r == Err(RankMismatch)
    ensures x.rank == |sizes| ==> r.Ok?
    ensures r.Ok? && (forall i :: 0 <= i < |sizes| ==> sizes[i] != 1) ==> r.value == x
    ensures r.Ok? && r.value != x ==>
      && r.value.origin.SumOf? && r.value.origin.x == x
      && (forall i :: i in r.value.origin.axes <==> 0 <= i < |sizes| && sizes[i] == 1)
      && (forall k :: 0 <= k < |r.value.origin.axes| - 1 ==> r.value.origin.axes[k] < r.value.origin.axes[k + 1])
  {
    if x.rank != |sizes| then Err(RankMismatch)
    else
      var axes := SizeOneAxes(sizes, 0);
      if axes == [] then Ok(x)
      else assert sizes[axes[0]] == 1; Ok(Sum(x, axes))
  }

  /** A negative axis counts from the end. */
  function NormalizeDim(rank: nat, dim: int): int {
    if dim < 0 then rank + dim else dim
  }

  /** `squeeze(x, sizes, dim)`: a sum over the one axis if its size is 1, a copy otherwise. */
  function SqueezeDim(x: Tv, sizes: seq<int>, dim: int): (r: Result<Tv, AliasError>)
    ensures x.rank != |sizes| ==> r == Err(RankMismatch)
    ensures x.rank == |sizes| ==> (r.Ok? <==> -(x.rank as int) <= dim < x.rank)
    ensures r.Ok? ==> var d := NormalizeDim(x.rank, dim);
      0 <= d < |sizes| && r.value == (if sizes[d] == 1 then Sum(x, [d]) else Set(x))
  {
    if x.rank != |sizes| then Err(RankMismatch)
    else
      var d := NormalizeDim(x.rank, dim);
      if !(0 <= d < x.rank) then Err(DimOutOfRange)
      else if sizes[d] == 1 then Ok(Sum(x, [d]))
      else Ok(Set(x))
  }

  /** Each axis has exactly two spellings, `d` and `d - rank`, both of which name it. */
  lemma NormalizeDimSpellings(rank: nat, dim: int, d: nat)
    requires d < rank
    ensures NormalizeDim(rank, dim) == d <==> dim == d || dim == d - rank
  {
  }

  /** Squeezing the one axis of size 1 by position agrees with squeezing by sizes. */
  lemma SqueezeDimAgrees(x: Tv, sizes: seq<int>, d: nat)
    requires x.rank == |sizes| && d < |sizes| && sizes[d] == 1
    requires forall i :: 0 <= i < |sizes| && i != d ==> sizes[i] != 1
    ensures SqueezeDim(x, sizes, d) == Squeeze(x, sizes)
    ensures SqueezeDim(x, sizes, d - |sizes|) == Squeeze(x, sizes)
  {
    SizeOneAxesSingle(sizes, 0, d);
  }

  lemma {:induction false} SizeOneAxesSingle(sizes: seq<int>, from: nat, d: nat)
    requires from <= |sizes| && d < |sizes| && sizes[d] == 1
    requires forall i :: from <= i < |sizes| && i != d ==> sizes[i] != 1
    ensures SizeOneAxes(sizes, from) == if from <= d then [d] else []
    decreases |sizes| - from
  {
    if from < |sizes| {
      SizeOneAxesSingle(sizes, from + 1, d);
    }
  }

  /** A negative position counts from one past the end, since the new axis may go last. */
  function NormalizeNewDim(rank: nat, dim: int): int {
    if dim < 0 then rank + dim + 1 else dim
  }

  /** `unsqueeze`: a broadcast with one flag per output axis, set only at the new axis. */
  function Unsqueeze(x: Tv, dim: int): (r: Result<Tv, AliasError>)
    ensures r.Ok? <==> -(x.rank as int) - 1 <= dim <= x.rank
    ensures r.Ok? ==> var d := NormalizeNewDim(x.rank, dim);
      && r.value.rank == x.rank + 1
      && r.value.origin.BroadcastOf? && r.value.origin.x == x
      && |r.value.origin.flags| == x.rank + 1
      && (forall i :: 0 <= i < |r.value.origin.flags| ==> (r.value.origin.flags[i] <==> i == d))
  {
    var d := NormalizeNewDim(x.rank, dim);
    if !(0 <= d <= x.rank) then Err(DimOutOfRange)
    else Ok(Broadcast(x, seq(x.rank + 1, i => i == d)))
  }

  /** Each new position has exactly two spellings, `d` and `d - rank - 1`. */
  lemma NormalizeNewDimSpellings(rank: nat, dim: int, d: nat)
    requires d <= rank
    ensures NormalizeNewDim(rank, dim) == d <==> dim == d || dim == d - rank - 1
  {
  }
}
