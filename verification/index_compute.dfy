/**
 * The backward index propagation engine. Starting from indices of a
 * tensor's leaf axes, it walks the transform history from the leaves to
 * the roots: a split rebuilds its input's index from its two outputs, a
 * merge splits its output's index into its two inputs. Zero domains (axes
 * outside the allocation), axes with zero-merged ancestry and contiguous
 * merge outputs follow special rules.
 */
module IndexCompute {
  import opened Wrappers
  import opened IndexExpr
  import opened Axes
  import ContigIds

  datatype IndexError = UnhandledExpr | NoRootInputs | MissingCovered | ContigFailure

  /**
   * What the engine reads and never changes: the history and attributes of
   * the domain, its (rfactor) root axes, the contiguous axes found for it,
   * the preferred propagation paths and the reference's halo extents.
   */
  datatype Ctx = Ctx(
    h: seq<Transform>,
    attrs: Attrs,
    rootDom: seq<Axis>,
    contig: seq<Axis>,
    preferred: set<Axis>,
    refHalo: map<Axis, IExpr>)

  /** What the engine updates: indices, extents, zero domains and axes with zero-merged ancestry. */
  datatype St = St(index: map<Axis, IExpr>, extent: map<Axis, IExpr>, zero: set<Axis>, zeroMergedIn: set<Axis>)

  /** The extent recorded for an axis, or its own extent. */
  function GetExtent(ctx: Ctx, st: St, a: Axis): IExpr {
    if a in st.extent then st.extent[a] else Extent(ctx.attrs, a)
  }

  predicate HasZeroMerged(st: St, a: Axis) {
    a in st.zeroMergedIn || a in st.zero
  }

  /** The backward split handler. */
  function HandleSplit(ctx: Ctx, st: St, inp: Axis, outer: Axis, inner: Axis): (r: St)
    ensures outer !in st.index || inner !in st.index ==> r == st
    ensures outer in st.index && inner in st.index ==> inp in r.index
    ensures forall a :: a != inp ==> (a in r.index <==> a in st.index) && (a in r.index ==> r.index[a] == st.index[a])
    ensures forall a :: a != inp ==> (a in r.extent <==> a in st.extent) && (a in r.extent ==> r.extent[a] == st.extent[a])
    ensures outer in st.index && inner in st.index ==>
      r.zero == st.zero + (if outer in st.zero && inner in st.zero then {inp} else {})
    ensures outer in st.index && inner in st.index && (inp in st.zero || (outer in st.zero && inner in st.zero)) ==>
      r.index[inp] == Lit(0) && inp in r.extent && r.extent[inp] == Lit(0)
    ensures outer in st.index && inner in st.index ==>
      var zmi := HasZeroMerged(st, inp) || HasZeroMerged(st, inner) || HasZeroMerged(st, outer);
      && r.zeroMergedIn == st.zeroMergedIn + (if zmi then {inp} else {})
      && (inp !in st.zero && zmi && outer in st.zero && inner !in st.zero ==>
            r.index[inp] == st.index[inner] && inp in r.extent && r.extent[inp] == GetExtent(ctx, st, inner))
      && (inp !in st.zero && zmi && inner in st.zero && outer !in st.zero ==>
            r.index[inp] == st.index[outer] && inp in r.extent && r.extent[inp] == GetExtent(ctx, st, outer))
      && (inp !in st.zero && !(zmi && (outer in st.zero || inner in st.zero)) ==>
            && r.index[inp] == Add(Mul(st.index[outer], GetExtent(ctx, st, inner)), st.index[inner])
            && (zmi ==> inp in r.extent && r.extent[inp] == Mul(GetExtent(ctx, st, outer), GetExtent(ctx, st, inner)))
            && (!zmi ==> r.extent == st.extent))
  {
    if outer !in st.index || inner !in st.index then st
    else
      var outerInd := st.index[outer];
      var innerInd := st.index[inner];
      var outerZero := outer in st.zero;
      var innerZero := inner in st.zero;
      var zmi := HasZeroMerged(st, inp) || HasZeroMerged(st, inner) || HasZeroMerged(st, outer);
      var zero := if innerZero && outerZero then st.zero + {inp} else st.zero;
      var zeroMergedIn := if zmi then st.zeroMergedIn + {inp} else st.zeroMergedIn;
      if inp in zero then
        St(st.index[inp := Lit(0)], st.extent[inp := Lit(0)], zero, zeroMergedIn)
      else if zmi && outerZero then
        St(st.index[inp := innerInd], st.extent[inp := GetExtent(ctx, st, inner)], zero, zeroMergedIn)
      else if zmi && innerZero then
        St(st.index[inp := outerInd], st.extent[inp := GetExtent(ctx, st, outer)], zero, zeroMergedIn)
      else
        St(st.index[inp := Add(Mul(outerInd, GetExtent(ctx, st, inner)), innerInd)],
           if zmi then st.extent[inp := Mul(GetExtent(ctx, st, outer), GetExtent(ctx, st, inner))] else st.extent,
           zero, zeroMergedIn)
  }

  /** Every key of `m`, with the axes of `ids` set to the literal zero. */
  function ZeroAll(m: map<Axis, IExpr>, ids: seq<Axis>): (r: map<Axis, IExpr>)
    ensures forall a :: a in r <==> a in m || a in ids
    ensures forall a :: a in ids ==> r[a] == Lit(0)
    ensures forall a :: a in m && a !in ids ==> r[a] == m[a]
  {
    m + map a | a in ids :: Lit(0)
  }

  /** The root axes a merge output comes from, in root order. */
  function MergeRootInputs(ctx: Ctx, out: Axis): seq<Axis> {
    OrderedAs(ctx.rootDom, InputsOf(ctx.h, |ctx.h|, out))
  }

  /** The extent used to un-merge: the reference's halo extent of inner when it has one. */
  function InnerExtent(ctx: Ctx, st: St, inner: Axis): IExpr {
    if inner in ctx.refHalo then ctx.refHalo[inner] else GetExtent(ctx, st, inner)
  }

  /** The path a zero-merged output propagates through: true for outer, false for inner. */
  predicate ThroughOuter(ctx: Ctx, outer: Axis, inner: Axis) {
    var bi := IsBroadcast(ctx.attrs, inner);
    var bo := IsBroadcast(ctx.attrs, outer);
    (!bi && !bo && outer in ctx.preferred && inner !in ctx.preferred) || (bi && !bo)
  }

  /** Which rule the merge handler applies. */
  datatype MergeCase = NoIndex | ZeroOut | ContigPath | InnerBroadcastOne | OuterBroadcastOne | ZeroMerged | DivMod

  function MergeCaseOf(ctx: Ctx, st: St, outer: Axis, inner: Axis, out: Axis): MergeCase {
    if out !in st.index then NoIndex
    else if out in st.zero then ZeroOut
    else if !HasZeroMerged(st, out) && out in ctx.contig then ContigPath
    else if IsBroadcast(ctx.attrs, inner) && IsOneInt(InnerExtent(ctx, st, inner)) then InnerBroadcastOne
    else if IsBroadcast(ctx.attrs, outer) && IsOneInt(GetExtent(ctx, st, outer)) then OuterBroadcastOne
    else if HasZeroMerged(st, out) then ZeroMerged
    else DivMod
  }

  /** The contiguous merge path: the last root input takes the output's index, the other root inputs zero. */
  function ContiguousMergePath(st: St, ids: seq<Axis>, out: Axis): (r: St)
    requires ids != [] && out in st.index
    ensures ids[|ids| - 1] in r.index && r.index[ids[|ids| - 1]] == st.index[out]
    ensures forall a :: a in ids && a != ids[|ids| - 1] ==> a in r.index && r.index[a] == Lit(0)
    ensures forall a :: a in st.index && a !in ids ==> a in r.index && r.index[a] == st.index[a]
    ensures r.extent == st.extent && r.zero == st.zero && r.zeroMergedIn == st.zeroMergedIn
  {
    St(ZeroAll(st.index, ids)[ids[|ids| - 1] := st.index[out]], st.extent, st.zero, st.zeroMergedIn)
  }

  /** The backward merge handler; the contiguous path fails if the output has no root input. */
  function HandleMerge(ctx: Ctx, st: St, outer: Axis, inner: Axis, out: Axis): (r: Result<St, IndexError>)
    ensures r.Err? <==> MergeCaseOf(ctx, st, outer, inner, out) == ContigPath && MergeRootInputs(ctx, out) == []
    ensures MergeCaseOf(ctx, st, outer, inner, out) == NoIndex ==> r == Ok(st)
    // A zero output zeroes both inputs and marks them zero domains.
    ensures MergeCaseOf(ctx, st, outer, inner, out) == ZeroOut ==>
      && r.Ok? && outer in r.value.index && inner in r.value.index && outer in r.value.extent && inner in r.value.extent
      && r.value.index[outer] == Lit(0) && r.value.index[inner] == Lit(0)
      && r.value.extent[outer] == Lit(0) && r.value.extent[inner] == Lit(0)
      && outer in r.value.zero && inner in r.value.zero
    // The contiguous path: every root input gets zero but the last in root order, which takes the output's index.
    ensures MergeCaseOf(ctx, st, outer, inner, out) == ContigPath && r.Ok? ==>
      var ids := MergeRootInputs(ctx, out);
      && ids[|ids| - 1] in r.value.index && r.value.index[ids[|ids| - 1]] == st.index[out]
      && (forall a :: a in ids && a != ids[|ids| - 1] ==> a in r.value.index && r.value.index[a] == Lit(0))
      && (forall a :: a in st.index && a !in ids ==> a in r.value.index && r.value.index[a] == st.index[a])
      && r.value.extent == st.extent && r.value.zero == st.zero
    // A size-one broadcast side gets zero and the other side the whole index.
    ensures outer != inner && MergeCaseOf(ctx, st, outer, inner, out) == InnerBroadcastOne ==>
      r.Ok? && inner in r.value.index && outer in r.value.index
      && r.value.index[inner] == Lit(0) && r.value.index[outer] == st.index[out]
    ensures outer != inner && MergeCaseOf(ctx, st, outer, inner, out) == OuterBroadcastOne ==>
      r.Ok? && inner in r.value.index && outer in r.value.index
      && r.value.index[outer] == Lit(0) && r.value.index[inner] == st.index[out]
    // A zero-merged output goes whole to one side, and the other side becomes a zero domain.
    ensures outer != inner && MergeCaseOf(ctx, st, outer, inner, out) == ZeroMerged ==>
      var (whole, zeroed) := if ThroughOuter(ctx, outer, inner) then (outer, inner) else (inner, outer);
      && r.Ok? && whole in r.value.index && zeroed in r.value.index && zeroed in r.value.extent
      && r.value.index[whole] == st.index[out] && r.value.index[zeroed] == Lit(0)
      && r.value.extent[zeroed] == Lit(0) && zeroed in r.value.zero
      && inner in r.value.zeroMergedIn && outer in r.value.zeroMergedIn
  {
    var zero := Lit(0);
    match MergeCaseOf(ctx, st, outer, inner, out)
    case NoIndex => Ok(st)
    case ZeroOut =>
      Ok(St(st.index[outer := zero][inner := zero], st.extent[outer := zero][inner := zero],
            st.zero + {outer, inner}, st.zeroMergedIn))
    case ContigPath =>
      var inputIds := MergeRootInputs(ctx, out);
      if inputIds == [] then Err(NoRootInputs)
      else Ok(ContiguousMergePath(st, inputIds, out))
    case InnerBroadcastOne =>
      Ok(St(st.index[outer := st.index[out]][inner := zero], st.extent[outer := GetExtent(ctx, st, out)],
            st.zero, st.zeroMergedIn))
    case OuterBroadcastOne =>
      Ok(St(st.index[outer := zero][inner := st.index[out]], st.extent[inner := GetExtent(ctx, st, out)],
            st.zero, st.zeroMergedIn))
    case ZeroMerged =>
      var zmi := st.zeroMergedIn + {inner, outer};
      if ThroughOuter(ctx, outer, inner) then
        Ok(St(st.index[outer := st.index[out]][inner := zero],
              st.extent[outer := GetExtent(ctx, st, out)][inner := zero],
              st.zero + {inner}, zmi))
      else
        Ok(St(st.index[inner := st.index[out]][outer := zero],
              st.extent[inner := GetExtent(ctx, st, out)][outer := zero],
              st.zero + {outer}, zmi))
    case DivMod =>
      var ie := InnerExtent(ctx, st, inner);
      Ok(St(st.index[outer := Div(st.index[out], ie)][inner := Mod(st.index[out], ie)],
            st.extent, st.zero, st.zeroMergedIn))
  }

  /**
   * Without zero-merged ancestry the output index is split by the inner
   * extent, the reference's halo extent when one is mapped, and the two
   * parts recombine to the output's value whenever that extent is non-zero.
   */
  lemma HandleMergeDivMod(ctx: Ctx, st: St, outer: Axis, inner: Axis, out: Axis, env: Env)
    requires outer != inner
    requires MergeCaseOf(ctx, st, outer, inner, out) == DivMod
    ensures var r := HandleMerge(ctx, st, outer, inner, out);
      var ie := InnerExtent(ctx, st, inner);
      && r.Ok?
      && r.value.index[outer] == Div(st.index[out], ie)
      && r.value.index[inner] == Mod(st.index[out], ie)
      && (Eval(st.index[out], env).Some? && Eval(ie, env).Some? && Eval(ie, env).value != 0 ==>
            Eval(Add(Mul(r.value.index[outer], ie), r.value.index[inner]), env) == Eval(st.index[out], env))
  {
    var ie := InnerExtent(ctx, st, inner);
    if Eval(st.index[out], env).Some? && Eval(ie, env).Some? && Eval(ie, env).value != 0 {
      DivModRelinearise(st.index[out], ie, env);
    }
  }

  /**
   * The backward merge inverts a row-major linearisation: an output index
   * `o * e + i` with `0 <= i < e` and `o >= 0` is split back into `o` and `i`.
   */
  lemma MergeUndoesLinearisation(o: IExpr, i: IExpr, e: IExpr, env: Env)
    requires Eval(o, env).Some? && Eval(i, env).Some? && Eval(e, env).Some?
    requires Eval(o, env).value >= 0 && 0 <= Eval(i, env).value < Eval(e, env).value
    ensures var out := Add(Mul(o, e), i);
      Eval(Div(out, e), env) == Eval(o, env) && Eval(Mod(out, e), env) == Eval(i, env)
  {
    var ov := Eval(o, env).value;
    var iv := Eval(i, env).value;
    var ev := Eval(e, env).value;
    var out := Add(Mul(o, e), i);
    var x := EvalLinear(o, i, e, env);
    LinearDivMod(ov, iv, ev);
    CArith.TruncAgreesWithEuclid(x, ev);
    assert Eval(Div(out, e), env) == Some(CArith.TruncDiv(x, ev));
    assert Eval(Mod(out, e), env) == Some(CArith.TruncMod(x, ev));
  }

  lemma EvalLinear(o: IExpr, i: IExpr, e: IExpr, env: Env) returns (x: int)
    requires Eval(o, env).Some? && Eval(i, env).Some? && Eval(e, env).Some?
    requires Eval(o, env).value >= 0 && Eval(i, env).value >= 0 && Eval(e, env).value >= 0
    ensures x == Eval(o, env).value * Eval(e, env).value + Eval(i, env).value
    ensures Eval(Add(Mul(o, e), i), env) == Some(x) && x >= 0
  {
    var ov := Eval(o, env).value;
    var ev := Eval(e, env).value;
    MulNonNeg(ov, ev);
    x := ov * ev + Eval(i, env).value;
  }

  lemma LinearDivMod(o: int, i: int, e: int)
    requires o >= 0 && 0 <= i < e
    ensures (o * e + i) / e == o && (o * e + i) % e == i
  {
    var x := o * e + i;
    var q := x / e;
    var r := x % e;
    assert x == e * q + r;
    var d := q - o;
    assert e * d == i - r by {
      assert e * d == e * q - e * o;
      assert o * e == e * o;
    }
  }

  lemma MulNonNeg(a: int, b: int)
    requires a >= 0 && b >= 0
    ensures a * b >= 0
  {
  }

  /** One step of the backward walk; anything but a split or a merge is refused. */
  function Dispatch(ctx: Ctx, st: St, k: nat): (r: Result<St, IndexError>)
    requires k < |ctx.h|
    ensures ctx.h[k].Other? <==> r == Err(UnhandledExpr)
  {
    match ctx.h[k]
    case Split(inp, outer, inner, _) => Ok(HandleSplit(ctx, st, inp, outer, inner))
    case Merge(outer, inner, out) => HandleMerge(ctx, st, outer, inner, out)
    case Other(_, _) => Err(UnhandledExpr)
  }

  /** The backward walk over the first `n` steps, last step first. */
  function RunBackward(ctx: Ctx, st: St, n: nat): Result<St, IndexError>
    requires n <= |ctx.h|
    decreases n
  {
    if n == 0 then Ok(st)
    else
      var st1 :- Dispatch(ctx, st, n - 1);
      RunBackward(ctx, st1, n - 1)
  }

  /** A walk that completes has met only splits and merges. */
  lemma {:induction false} RunBackwardOnlySplitMerge(ctx: Ctx, st: St, n: nat)
    requires n <= |ctx.h| && RunBackward(ctx, st, n).Ok?
    ensures forall k :: 0 <= k < n ==> !ctx.h[k].Other?
    decreases n
  {
    if n > 0 {
      var st1 := Dispatch(ctx, st, n - 1);
      assert st1.Ok?;
      RunBackwardOnlySplitMerge(ctx, st1.value, n - 1);
    }
  }

  /** The seeding erasure: for each contiguous axis with an index, drop the indices of the axes it covers. */
  function EraseCovered(index: map<Axis, IExpr>, cs: seq<Axis>, within: map<Axis, set<Axis>>): (r: Result<map<Axis, IExpr>, IndexError>)
    ensures r.Ok? ==> r.value.Keys <= index.Keys && forall a :: a in r.value ==> r.value[a] == index[a]
  {
    if cs == [] then Ok(index)
    else if cs[0] in index then
      if cs[0] !in within then Err(MissingCovered)
      else EraseCovered(index - within[cs[0]], cs[1..], within)
    else EraseCovered(index, cs[1..], within)
  }

  /** No contiguous axis lies among the axes another one covers. */
  ghost predicate Separated(cs: seq<Axis>, within: map<Axis, set<Axis>>) {
    forall c, d :: c in cs && d in cs && d in within ==> c !in within[d]
  }

  /**
   * When contiguous axes do not cover one another, the erasure removes
   * exactly the axes covered by an indexed contiguous axis.
   */
  lemma {:induction false} EraseCoveredSpec(index: map<Axis, IExpr>, cs: seq<Axis>, within: map<Axis, set<Axis>>)
    requires Separated(cs, within)
    requires forall c :: c in cs ==> c in within
    ensures EraseCovered(index, cs, within).Ok?
    ensures forall a :: a in EraseCovered(index, cs, within).value <==>
      a in index && forall c :: c in cs && c in index ==> a !in within[c]
    decreases |cs|
  {
    if cs != [] {
      assert forall x :: x in cs[1..] ==> x in cs;
      assert Separated(cs[1..], within);
      var c := cs[0];
      assert c in cs;
      if c in index {
        var next := index - within[c];
        EraseCoveredSpec(next, cs[1..], within);
        forall d | d in cs[1..]
          ensures d in next <==> d in index
        {
          assert d !in within[c];
        }
      } else {
        EraseCoveredSpec(index, cs[1..], within);
      }
    }
  }

  predicate AnyContiguous(contiguity: seq<bool>) {
    exists i :: 0 <= i < |contiguity| && contiguity[i]
  }

  /**
   * The engine's constructor: when any root is flagged contiguous, find the
   * contiguous axes and erase the indices they cover.
   */
  function Create(leafIds: seq<Axis>, h: seq<Transform>, attrs: Attrs, rootDom: seq<Axis>, halo: set<Axis>,
                  contiguity: seq<bool>, preferred: set<Axis>, refHalo: map<Axis, IExpr>, st: St): (r: Result<(Ctx, St), IndexError>)
    ensures !AnyContiguous(contiguity) ==> r == Ok((Ctx(h, attrs, rootDom, [], preferred, refHalo), st))
    ensures r.Ok? ==> r.value.1.index.Keys <= st.index.Keys && r.value.1.extent == st.extent
    ensures r.Ok? ==> r.value.0 == Ctx(h, attrs, rootDom, r.value.0.contig, preferred, refHalo)
  {
    if !AnyContiguous(contiguity) then Ok((Ctx(h, attrs, rootDom, [], preferred, refHalo), st))
    else
      match ContigIds.FindContigIds(leafIds, rootDom, contiguity, halo, h, attrs)
      case Err(_) => Err(ContigFailure)
      case Ok(found) =>
        var index :- EraseCovered(st.index, found.contig, found.within);
        Ok((Ctx(h, attrs, rootDom, found.contig, preferred, refHalo), St(index, st.extent, st.zero, st.zeroMergedIn)))
  }

  /**
   * When the finder succeeds on distinct roots and no contiguous axis lies
   * among the axes another one covers, the constructor succeeds and drops
   * the index of every axis covered by an indexed contiguous axis, keeping
   * every other index as it was.
   */
  lemma CreateErasesCovered(leafIds: seq<Axis>, h: seq<Transform>, attrs: Attrs, rootDom: seq<Axis>, halo: set<Axis>,
                            contiguity: seq<bool>, preferred: set<Axis>, refHalo: map<Axis, IExpr>, st: St)
    requires AnyContiguous(contiguity) && NoDuplicates(rootDom)
    requires ContigIds.FindContigIds(leafIds, rootDom, contiguity, halo, h, attrs).Ok?
    requires var found := ContigIds.FindContigIds(leafIds, rootDom, contiguity, halo, h, attrs).value;
      Separated(found.contig, found.within)
    ensures var found := ContigIds.FindContigIds(leafIds, rootDom, contiguity, halo, h, attrs).value;
      var r := Create(leafIds, h, attrs, rootDom, halo, contiguity, preferred, refHalo, st);
      && r.Ok? && r.value.0.contig == found.contig
      && (forall c :: c in found.contig ==> c in found.within)
      && (forall a :: a in r.value.1.index <==>
            a in st.index && forall c :: c in found.contig && c in st.index ==> a !in found.within[c])
  {
    var found := ContigIds.FindContigIds(leafIds, rootDom, contiguity, halo, h, attrs).value;
    ContigIds.FindContigIdsOrigin(leafIds, rootDom, contiguity, halo, h, attrs);
    EraseCoveredSpec(st.index, found.contig, found.within);
  }

  /** The maps carried over to a new domain: each previous axis's entries move to its new axis, in map order. */
  function Renamed(ctx: Ctx, st: St, idMap: seq<(Axis, Axis)>): St
    decreases |idMap|
  {
    if idMap == [] then St(map[], map[], {}, {})
    else
      var acc := Renamed(ctx, st, idMap[..|idMap| - 1]);
      var (prev, target) := idMap[|idMap| - 1];
      St(if prev in st.index then acc.index[target := st.index[prev]] else acc.index,
         acc.extent[target := GetExtent(ctx, st, prev)],
         if prev in st.zero then acc.zero + {target} else acc.zero,
         if prev in st.zeroMergedIn then acc.zeroMergedIn + {target} else acc.zeroMergedIn)
  }

  predicate DistinctTargets(idMap: seq<(Axis, Axis)>) {
    forall i, j :: 0 <= i < j < |idMap| ==> idMap[i].1 != idMap[j].1
  }

  /** The entries of the new axis `target` are those of `prev`. */
  ghost predicate Moved(ctx: Ctx, st: St, r: St, prev: Axis, target: Axis) {
    && (target in r.index <==> prev in st.index)
    && (prev in st.index ==> r.index[target] == st.index[prev])
    && target in r.extent && r.extent[target] == GetExtent(ctx, st, prev)
    && (target in r.zero <==> prev in st.zero)
    && (target in r.zeroMergedIn <==> prev in st.zeroMergedIn)
  }

  /** Only the new axes are mapped, and each of them has an extent. */
  lemma {:induction false} RenamedKeys(ctx: Ctx, st: St, idMap: seq<(Axis, Axis)>)
    ensures var r := Renamed(ctx, st, idMap);
      && (forall a :: a in r.extent <==> exists k :: 0 <= k < |idMap| && idMap[k].1 == a)
      && r.index.Keys <= r.extent.Keys && r.zero <= r.extent.Keys && r.zeroMergedIn <= r.extent.Keys
    decreases |idMap|
  {
    if idMap != [] {
      var init := idMap[..|idMap| - 1];
      RenamedKeys(ctx, st, init);
      var r := Renamed(ctx, st, idMap);
      forall a | a in r.extent
        ensures exists k :: 0 <= k < |idMap| && idMap[k].1 == a
      {
        if a != idMap[|idMap| - 1].1 {
          var k :| 0 <= k < |init| && init[k].1 == a;
          assert idMap[k].1 == a;
        } else {
          assert idMap[|idMap| - 1].1 == a;
        }
      }
      forall a | exists k :: 0 <= k < |idMap| && idMap[k].1 == a
        ensures a in r.extent
      {
        var k :| 0 <= k < |idMap| && idMap[k].1 == a;
        if k < |init| {
          assert init[k].1 == a;
        }
      }
    }
  }

  /**
   * With distinct new axes, each new axis gets exactly its previous axis's
   * index (when it has one), extent, zero mark and zero-merged mark.
   */
  lemma {:induction false} RenamedEntry(ctx: Ctx, st: St, idMap: seq<(Axis, Axis)>, k: nat)
    requires DistinctTargets(idMap) && k < |idMap|
    ensures Moved(ctx, st, Renamed(ctx, st, idMap), idMap[k].0, idMap[k].1)
    decreases |idMap|
  {
    var init := idMap[..|idMap| - 1];
    if k < |init| {
      assert DistinctTargets(init);
      RenamedEntry(ctx, st, init, k);
      assert init[k] == idMap[k];
      assert idMap[k].1 != idMap[|idMap| - 1].1;
    } else {
      RenamedKeys(ctx, st, init);
      assert idMap[k].1 !in Renamed(ctx, st, init).extent by {
        if idMap[k].1 in Renamed(ctx, st, init).extent {
          var j :| 0 <= j < |init| && init[j].1 == idMap[k].1;
        }
      }
    }
  }

  /**
   * `updateIndexCompute`: carry the maps over to a new domain, build an
   * engine for it without preferred paths, and run it.
   */
  function UpdateIndexCompute(ctx: Ctx, st: St, idMap: seq<(Axis, Axis)>, leafIds: seq<Axis>, h: seq<Transform>,
                              attrs: Attrs, rootDom: seq<Axis>, halo: set<Axis>, contiguity: seq<bool>,
                              refHalo: map<Axis, IExpr>): (r: Result<St, IndexError>)
    ensures !AnyContiguous(contiguity) ==>
      r == RunBackward(Ctx(h, attrs, rootDom, [], {}, refHalo), Renamed(ctx, st, idMap), |h|)
  {
    var (ctx1, st1) :- Create(leafIds, h, attrs, rootDom, halo, contiguity, {}, refHalo, Renamed(ctx, st, idMap));
    RunBackward(ctx1, st1, |ctx1.h|)
  }
}
