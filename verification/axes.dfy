/**
 * Iteration axes and their transform history. An axis is an integer
 * handle; its kind, extent and parallel type come from an attribute table
 * (an axis missing from the table is a serial iteration axis with a named
 * symbolic extent). A tensor's history is a topologically ordered list of
 * splits and merges; the root inputs of an axis are found by walking that
 * history backwards.
 */
module Axes {
  import opened Wrappers
  import opened IndexExpr
  import Ir
  import Names

  type Axis = nat

  datatype IterKind =
    | Iteration | Reduction | BroadcastWithStride | BroadcastWithoutStride | Gather | Stride

  datatype AxisInfo = AxisInfo(kind: IterKind, extent: IExpr, parallel: Ir.ParallelType)

  type Attrs = map<Axis, AxisInfo>

  /** The name of the symbolic extent of an axis with no recorded attributes. */
  function ExtentName(a: Axis): string {
    "ext" + Names.NatToString(a)
  }

  function Info(attrs: Attrs, a: Axis): AxisInfo {
    if a in attrs then attrs[a] else AxisInfo(Iteration, Var(ExtentName(a)), Ir.Serial)
  }

  predicate IsBroadcast(attrs: Attrs, a: Axis) {
    Info(attrs, a).kind == BroadcastWithStride || Info(attrs, a).kind == BroadcastWithoutStride
  }

  predicate IsReduction(attrs: Attrs, a: Axis) {
    Info(attrs, a).kind == Reduction
  }

  predicate IsStride(attrs: Attrs, a: Axis) {
    Info(attrs, a).kind == Stride
  }

  function Extent(attrs: Attrs, a: Axis): IExpr {
    Info(attrs, a).extent
  }

  /**
   * One step of a history. `Other` stands for any expression that is neither
   * a split nor a merge; the index passes refuse it.
   */
  datatype Transform =
    | Split(inp: Axis, outer: Axis, inner: Axis, factor: IExpr)
    | Merge(outer: Axis, inner: Axis, out: Axis)
    | Other(ins: seq<Axis>, outs: seq<Axis>)

  function Inputs(t: Transform): seq<Axis> {
    match t
    case Split(i, _, _, _) => [i]
    case Merge(o, i, _) => [o, i]
    case Other(ins, _) => ins
  }

  function Outputs(t: Transform): seq<Axis> {
    match t
    case Split(_, o, i, _) => [o, i]
    case Merge(_, _, out) => [out]
    case Other(_, outs) => outs
  }

  /** The last step among the first `n` that produces `id`. */
  function Producer(h: seq<Transform>, n: nat, id: Axis): (r: Option<nat>)
    requires n <= |h|
    ensures r.Some? ==> r.value < n && id in Outputs(h[r.value])
    ensures r.Some? ==> forall k :: r.value < k < n ==> id !in Outputs(h[k])
    ensures r.None? ==> forall k :: 0 <= k < n ==> id !in Outputs(h[k])
    decreases n
  {
    if n == 0 then None
    else if id in Outputs(h[n - 1]) then Some(n - 1)
    else Producer(h, n - 1, id)
  }

  /** The axes without a producer among the first `n` steps that `id` is derived from. */
  function InputsOf(h: seq<Transform>, n: nat, id: Axis): set<Axis>
    requires n <= |h|
    decreases n, 0
  {
    match Producer(h, n, id)
    case None => {id}
    case Some(k) => InputsOfAll(h, k, Inputs(h[k]))
  }

  function InputsOfAll(h: seq<Transform>, n: nat, xs: seq<Axis>): set<Axis>
    requires n <= |h|
    decreases n, 1, |xs|
  {
    if xs == [] then {} else InputsOf(h, n, xs[0]) + InputsOfAll(h, n, xs[1..])
  }

  /** An axis with no producer is its own only input. */
  lemma InputsOfUnproduced(h: seq<Transform>, n: nat, id: Axis)
    requires n <= |h|
    requires forall k :: 0 <= k < n ==> id !in Outputs(h[k])
    ensures InputsOf(h, n, id) == {id}
  {
  }

  /** The members of `s`, in the order they appear in `order`. */
  function OrderedAs(order: seq<Axis>, s: set<Axis>): (r: seq<Axis>)
    ensures forall k :: 0 <= k < |r| ==> r[k] in s && r[k] in order
    ensures forall x :: x in order && x in s ==> x in r
    ensures |r| <= |order|
  {
    if order == [] then []
    else (if order[0] in s then [order[0]] else []) + OrderedAs(order[1..], s)
  }

  /** Halo padding of a root axis: its width on the start side and on the stop side. */
  datatype HaloWidth = HaloWidth(start: nat, stop: nat)

  /** Halo widths of root axes; an axis missing from the table has no halo. */
  type HaloMap = map<Axis, HaloWidth>

  function Halo(hm: HaloMap, a: Axis): HaloWidth {
    if a in hm then hm[a] else HaloWidth(0, 0)
  }

  /** `width()`: the total halo of an axis. */
  function HaloTotal(hm: HaloMap, a: Axis): nat {
    Halo(hm, a).start + Halo(hm, a).stop
  }

  predicate HasHalo(hm: HaloMap, a: Axis) {
    HaloTotal(hm, a) > 0
  }

  predicate NoDuplicates(s: seq<Axis>) {
    forall i, j :: 0 <= i < j < |s| ==> s[i] != s[j]
  }
}
