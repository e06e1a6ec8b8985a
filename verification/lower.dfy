/**
 * Pieces of the lowering driver: the cleaner that strips no-op loops and
 * branches from the lowered kernel, the guard that makes one lowering pass
 * the active one, and the scan that decides whether TIDx is padded to a
 * multiple of the warp and whether it is bound to a single warp.
 */
module Lower {
  import opened Wrappers
  import opened Ir
  import KernelEvaluator

  datatype LowerError = NestedLowering | NoActiveLowering | PaddedNonTidx | PassFailed

  // ---------------------------------------------------------------------
  // Removing no-op loops and branches
  // ---------------------------------------------------------------------

  /** A branch condition: a constant, a symbolic condition, or the negation the cleaner builds when it swaps branches. */
  datatype Cond = ConstCond(b: bool) | SymbolicCond(name: nat) | NotCond(c: Cond)

  /** Lowered kernel expressions: loops and branches scope other expressions; everything else is a plain expression. */
  datatype KirExpr =
    | ForLoop(id: nat, body: seq<KirExpr>)
    | IfThenElse(id: nat, cond: Cond, thenBody: seq<KirExpr>, elseBody: seq<KirExpr>)
    | Plain(id: nat)

  datatype Cleaned = Cleaned(expr: KirExpr, isNop: bool)

  /**
   * One expression after cleaning, and whether it is a no-op: a plain
   * expression never is; a loop is when nothing survives in its body; a
   * branch is when both blocks end up empty. A constant condition drops the
   * block it can never take, and a branch whose then-block is empty while
   * its else-block is not gets the negated condition and the else-block as
   * its then-block.
   */
  function Clean(e: KirExpr): (r: Cleaned)
    decreases e, 1
  {
    match e
    case Plain(_) => Cleaned(e, false)
    case ForLoop(id, body) =>
      var b := CleanBody(body);
      Cleaned(ForLoop(id, b), b == [])
    case IfThenElse(id, c, t, f) =>
      var t2 := if !c.ConstCond? || c.b then CleanBody(t) else [];
      var f2 := if !c.ConstCond? || !c.b then CleanBody(f) else [];
      if t2 == [] && f2 != [] then Cleaned(IfThenElse(id, NotCond(c), f2, []), false)
      else Cleaned(IfThenElse(id, c, t2, f2), t2 == [] && f2 == [])
  }

  /** The cleaned expressions of a block that are not no-ops, in their order. */
  function CleanBody(s: seq<KirExpr>): seq<KirExpr>
    decreases s, 0
  {
    if s == [] then []
    else
      var c := Clean(s[0]);
      (if c.isNop then [] else [c.expr]) + CleanBody(s[1..])
  }

  /** `cleanUp`: keeps the cleaned loop nests that are not no-ops. */
  function CleanUp(nests: seq<KirExpr>): seq<KirExpr> {
    CleanBody(nests)
  }

  /**
   * The shape the cleaner leaves behind: every loop has a non-empty body, no
   * branch has an empty then-block, and every nested block is clean too.
   */
  predicate CleanExpr(e: KirExpr)
    decreases e, 1
  {
    match e
    case Plain(_) => true
    case ForLoop(_, body) => body != [] && CleanBlock(body)
    case IfThenElse(_, c, t, f) =>
      && t != []
      && (c.ConstCond? && c.b ==> f == [])
      && (c.ConstCond? && !c.b ==> false)
      && CleanBlock(t) && CleanBlock(f)
  }

  predicate CleanBlock(s: seq<KirExpr>)
    decreases s, 0
  {
    forall i :: 0 <= i < |s| ==> CleanExpr(s[i])
  }

  lemma CleanBlockConcat(a: seq<KirExpr>, b: seq<KirExpr>)
    requires CleanBlock(a) && CleanBlock(b)
    ensures CleanBlock(a + b)
  {
    assert forall i :: 0 <= i < |a + b| ==> (a + b)[i] == if i < |a| then a[i] else b[i - |a|];
  }

  /** Whatever the cleaner keeps has the clean shape; an expression it keeps is not a no-op. */
  lemma {:induction false} CleanYieldsCleanShape(e: KirExpr)
    ensures !Clean(e).isNop ==> CleanExpr(Clean(e).expr)
    decreases e, 1
  {
    match e
    case Plain(_) =>
    case ForLoop(id, body) =>
      CleanBodyYieldsCleanShape(body);
    case IfThenElse(id, c, t, f) =>
      CleanBodyYieldsCleanShape(t);
      CleanBodyYieldsCleanShape(f);
  }

  lemma {:induction false} CleanBodyYieldsCleanShape(s: seq<KirExpr>)
    ensures CleanBlock(CleanBody(s))
    decreases s, 0
  {
    if s != [] {
      CleanYieldsCleanShape(s[0]);
      CleanBodyYieldsCleanShape(s[1..]);
      var c := Clean(s[0]);
      CleanBlockConcat(if c.isNop then [] else [c.expr], CleanBody(s[1..]));
    }
  }

  /** Cleaning an expression that already has the clean shape changes nothing, and it is not a no-op. */
  lemma {:induction false} CleanFixesCleanShape(e: KirExpr)
    requires CleanExpr(e)
    ensures Clean(e) == Cleaned(e, false)
    decreases e, 1
  {
    match e
    case Plain(_) =>
    case ForLoop(id, body) =>
      CleanBodyFixesCleanShape(body);
    case IfThenElse(id, c, t, f) =>
      CleanBodyFixesCleanShape(t);
      CleanBodyFixesCleanShape(f);
  }

  lemma {:induction false} CleanBodyFixesCleanShape(s: seq<KirExpr>)
    requires CleanBlock(s)
    ensures CleanBody(s) == s
    decreases s, 0
  {
    if s != [] {
      CleanFixesCleanShape(s[0]);
      assert CleanBlock(s[1..]) by {
        assert forall i :: 0 <= i < |s[1..]| ==> s[1..][i] == s[i + 1];
      }
      CleanBodyFixesCleanShape(s[1..]);
    }
  }

  /** Cleaning twice is cleaning once. */
  lemma CleanUpIdempotent(nests: seq<KirExpr>)
    ensures CleanUp(CleanUp(nests)) == CleanUp(nests)
  {
    CleanBodyYieldsCleanShape(nests);
    CleanBodyFixesCleanShape(CleanUp(nests));
  }

  /** Plain expressions are never dropped; a loop or a branch is dropped exactly when cleaning leaves it with nothing to run. */
  lemma CleanNopCases(e: KirExpr)
    ensures e.Plain? ==> !Clean(e).isNop
    ensures e.ForLoop? ==> (Clean(e).isNop <==> CleanBody(e.body) == [])
    ensures e.IfThenElse? && !e.cond.ConstCond? ==>
      (Clean(e).isNop <==> CleanBody(e.thenBody) == [] && CleanBody(e.elseBody) == [])
    ensures e.IfThenElse? && e.cond == ConstCond(true) ==> (Clean(e).isNop <==> CleanBody(e.thenBody) == [])
    ensures e.IfThenElse? && e.cond == ConstCond(false) ==> (Clean(e).isNop <==> CleanBody(e.elseBody) == [])
  {
  }

  // ---------------------------------------------------------------------
  // The active lowering
  // ---------------------------------------------------------------------

  /** The thread's active lowering pass, if any. */
  datatype Guard = Guard(active: Option<nat>)

  /** `current()`: the active lowering, which must exist. */
  function Current(g: Guard): (r: Result<nat, LowerError>)
    ensures r.Ok? <==> g.active.Some?
    ensures r.Ok? ==> g.active == Some(r.value)
  {
    if g.active.None? then Err(NoActiveLowering) else Ok(g.active.value)
  }

  /** What a lowering leaves behind, and what its passes see while they run. */
  datatype LowerOutcome = LowerOutcome(after: Guard, during: Result<Guard, LowerError>)

  /**
   * `lower`: refused while another lowering is active; otherwise `lowerer`
   * is the active lowering while the passes run, and the guard is cleared on
   * the way out whether or not the passes fail.
   */
  function Lower(g: Guard, lowerer: nat, passesFail: bool): (r: LowerOutcome)
    ensures g.active.Some? ==> r == LowerOutcome(g, Err(NestedLowering))
    ensures g.active.None? ==> r.after.active.None?
    ensures g.active.None? && !passesFail ==> r.during.Ok? && Current(r.during.value) == Ok(lowerer)
  {
    if g.active.Some? then LowerOutcome(g, Err(NestedLowering))
    else
      var during := Guard(Some(lowerer));
      LowerOutcome(Guard(None), if passesFail then Err(PassFailed) else Ok(during))
  }

  /** Lowerings run one after another never see each other, even after a failed one. */
  lemma SequentialLoweringsIndependent(a: nat, b: nat, aFails: bool)
    ensures var first := Lower(Guard(None), a, aFails);
      Lower(first.after, b, false).during.Ok? &&
      Current(Lower(first.after, b, false).during.value) == Ok(b)
  {
  }

  // ---------------------------------------------------------------------
  // Warp padding of TIDx
  // ---------------------------------------------------------------------

  /** What the scan needs of an iteration domain. */
  datatype PadDomain = PadDomain(parallel: ParallelType, extent: Val, paddedToWarp: bool, sizeAfterPadding: Option<int>)

  /** A tensor: whether its definition is a warp reduction, and its domains. */
  datatype PadTensor = PadTensor(hasWarpReduction: bool, domain: seq<PadDomain>)

  datatype WarpPaddedInfo = WarpPaddedInfo(isTidxPadded: bool, isTidxSingleWarp: bool, hasWarpReduction: bool)

  datatype PadScan = PadScan(info: WarpPaddedInfo, canBeSingleWarp: bool)

  const InitialScan := PadScan(WarpPaddedInfo(false, false, false), true)

  /** The extent's value as far as constant folding with nothing bound finds one. */
  function EvalExtent(d: PadDomain): Option<int> {
    KernelEvaluator.ConstantValue(d.extent)
  }

  predicate PadsToSingleWarp(d: PadDomain, warpSize: int) {
    d.sizeAfterPadding == Some(warpSize)
  }

  /** A TIDx domain that rules out a single warp: its extent is unknown or above a warp and it is not padded to one warp. */
  predicate BlocksSingleWarp(d: PadDomain, warpSize: int) {
    && d.parallel == TIDx
    && (EvalExtent(d).None? || EvalExtent(d).value > warpSize)
    && !PadsToSingleWarp(d, warpSize)
  }

  /** A TIDx domain that shows a single warp: padded to one warp, or of exactly warp extent. */
  predicate ShowsSingleWarp(d: PadDomain, warpSize: int) {
    && d.parallel == TIDx
    && (PadsToSingleWarp(d, warpSize) || EvalExtent(d) == Some(warpSize))
  }

  function ScanDomain(s: PadScan, tvWarpReduction: bool, d: PadDomain, warpSize: int): Result<PadScan, LowerError> {
    var info1 := if tvWarpReduction then s.info.(hasWarpReduction := true) else s.info;
    if d.paddedToWarp && d.parallel != TIDx then Err(PaddedNonTidx)
    else
      var info2 := if d.paddedToWarp then info1.(isTidxPadded := true) else info1;
      if d.parallel != TIDx then Ok(PadScan(info2, s.canBeSingleWarp))
      else if BlocksSingleWarp(d, warpSize) then Ok(PadScan(info2.(isTidxSingleWarp := false), false))
      else if s.canBeSingleWarp && ShowsSingleWarp(d, warpSize) then Ok(PadScan(info2.(isTidxSingleWarp := true), true))
      else Ok(PadScan(info2, s.canBeSingleWarp))
  }

  /** The domains of all tensors, each with its tensor's warp-reduction flag, in the order the nested loops visit them. */
  function Flatten(tvs: seq<PadTensor>): seq<(bool, PadDomain)>
    decreases |tvs|
  {
    if tvs == [] then []
    else (seq(|tvs[0].domain|, i requires 0 <= i < |tvs[0].domain| => (tvs[0].hasWarpReduction, tvs[0].domain[i]))) + Flatten(tvs[1..])
  }

  function ScanFlat(s: PadScan, ds: seq<(bool, PadDomain)>, warpSize: int): Result<PadScan, LowerError>
    decreases |ds|
  {
    if ds == [] then Ok(s)
    else
      var s1 :- ScanDomain(s, ds[0].0, ds[0].1, warpSize);
      ScanFlat(s1, ds[1..], warpSize)
  }

  /** `collectPaddedParallelDims` over the domains of the fusion's tensors. */
  function CollectPaddedParallelDims(tvs: seq<PadTensor>, warpSize: int): Result<WarpPaddedInfo, LowerError> {
    var s :- ScanFlat(InitialScan, Flatten(tvs), warpSize);
    Ok(s.info)
  }

  /** Whether some entry of `ds` satisfies `p`. */
  predicate Any(ds: seq<(bool, PadDomain)>, p: ((bool, PadDomain)) -> bool)
    decreases |ds|
  {
    ds != [] && (p(ds[0]) || Any(ds[1..], p))
  }

  /** Entry tests: a domain padded to a warp on some other type than TIDx, a padded domain, a warp-reduction tensor. */
  const PaddedOffTidx: ((bool, PadDomain)) -> bool := (e: (bool, PadDomain)) => e.1.paddedToWarp && e.1.parallel != TIDx
  const Padded: ((bool, PadDomain)) -> bool := (e: (bool, PadDomain)) => e.1.paddedToWarp
  const WarpReduction: ((bool, PadDomain)) -> bool := (e: (bool, PadDomain)) => e.0

  function Blocks(warpSize: int): ((bool, PadDomain)) -> bool {
    (e: (bool, PadDomain)) => BlocksSingleWarp(e.1, warpSize)
  }

  function Shows(warpSize: int): ((bool, PadDomain)) -> bool {
    (e: (bool, PadDomain)) => ShowsSingleWarp(e.1, warpSize)
  }

  lemma {:induction false} AnyIffExists(ds: seq<(bool, PadDomain)>, p: ((bool, PadDomain)) -> bool)
    ensures Any(ds, p) <==> exists i :: 0 <= i < |ds| && p(ds[i])
    decreases |ds|
  {
    if ds != [] {
      AnyIffExists(ds[1..], p);
      if exists i :: 0 <= i < |ds| && p(ds[i]) {
        var i :| 0 <= i < |ds| && p(ds[i]);
        if i > 0 {
          assert p(ds[1..][i - 1]);
        }
      }
      if Any(ds[1..], p) {
        var j :| 0 <= j < |ds[1..]| && p(ds[1..][j]);
        assert p(ds[j + 1]);
      }
    }
  }

  lemma {:induction false} ScanFlatSucceeds(s0: PadScan, ds: seq<(bool, PadDomain)>, warpSize: int)
    ensures ScanFlat(s0, ds, warpSize).Ok? <==> !Any(ds, PaddedOffTidx)
    decreases |ds|
  {
    if ds != [] {
      var s1 := ScanDomain(s0, ds[0].0, ds[0].1, warpSize);
      if s1.Ok? {
        ScanFlatSucceeds(s1.value, ds[1..], warpSize);
      }
    }
  }

  lemma {:induction false} ScanFlatFlags(s0: PadScan, ds: seq<(bool, PadDomain)>, warpSize: int)
    requires ScanFlat(s0, ds, warpSize).Ok?
    ensures var s := ScanFlat(s0, ds, warpSize).value;
      && (s.info.isTidxPadded <==> s0.info.isTidxPadded || Any(ds, Padded))
      && (s.info.hasWarpReduction <==> s0.info.hasWarpReduction || Any(ds, WarpReduction))
    decreases |ds|
  {
    if ds != [] {
      ScanFlatFlags(ScanDomain(s0, ds[0].0, ds[0].1, warpSize).value, ds[1..], warpSize);
    }
  }

  lemma {:induction false} ScanFlatSingleWarp(s0: PadScan, ds: seq<(bool, PadDomain)>, warpSize: int)
    requires s0.info.isTidxSingleWarp ==> s0.canBeSingleWarp
    requires ScanFlat(s0, ds, warpSize).Ok?
    ensures var s := ScanFlat(s0, ds, warpSize).value;
      var blocked := !s0.canBeSingleWarp || Any(ds, Blocks(warpSize));
      && s.canBeSingleWarp == !blocked
      && (s.info.isTidxSingleWarp <==>
            !blocked && (s0.info.isTidxSingleWarp || Any(ds, Shows(warpSize))))
    decreases |ds|
  {
    if ds != [] {
      ScanFlatSingleWarp(ScanDomain(s0, ds[0].0, ds[0].1, warpSize).value, ds[1..], warpSize);
    }
  }

  /** The entry tests restated over the domains' fields. */
  lemma NoPaddedOffTidxIff(ds: seq<(bool, PadDomain)>)
    ensures !Any(ds, PaddedOffTidx) <==>
      forall i :: 0 <= i < |ds| && ds[i].1.paddedToWarp ==> ds[i].1.parallel == TIDx
  {
    AnyIffExists(ds, PaddedOffTidx);
    assert forall i :: 0 <= i < |ds| ==> (PaddedOffTidx(ds[i]) <==> ds[i].1.paddedToWarp && ds[i].1.parallel != TIDx);
  }

  lemma AnyPaddedIff(ds: seq<(bool, PadDomain)>)
    ensures Any(ds, Padded) <==> exists i :: 0 <= i < |ds| && ds[i].1.paddedToWarp
  {
    AnyIffExists(ds, Padded);
    assert forall i :: 0 <= i < |ds| ==> (Padded(ds[i]) <==> ds[i].1.paddedToWarp);
  }

  lemma AnyWarpReductionIff(ds: seq<(bool, PadDomain)>)
    ensures Any(ds, WarpReduction) <==> exists i :: 0 <= i < |ds| && ds[i].0
  {
    AnyIffExists(ds, WarpReduction);
    assert forall i :: 0 <= i < |ds| ==> (WarpReduction(ds[i]) <==> ds[i].0);
  }

  lemma SingleWarpIff(ds: seq<(bool, PadDomain)>, warpSize: int)
    ensures !Any(ds, Blocks(warpSize)) <==> forall i :: 0 <= i < |ds| ==> !BlocksSingleWarp(ds[i].1, warpSize)
    ensures Any(ds, Shows(warpSize)) <==> exists i :: 0 <= i < |ds| && ShowsSingleWarp(ds[i].1, warpSize)
  {
    AnyIffExists(ds, Blocks(warpSize));
    assert forall i :: 0 <= i < |ds| ==> (Blocks(warpSize)(ds[i]) <==> BlocksSingleWarp(ds[i].1, warpSize));
    AnyIffExists(ds, Shows(warpSize));
    assert forall i :: 0 <= i < |ds| ==> (Shows(warpSize)(ds[i]) <==> ShowsSingleWarp(ds[i].1, warpSize));
  }

  /**
   * The scan fails exactly when a domain padded to the warp is not TIDx. On
   * success TIDx is padded when some domain is padded; TIDx is a single warp
   * exactly when no TIDx domain has an unknown or larger-than-warp extent
   * without being padded to one warp, and some TIDx domain is padded to one
   * warp or has exactly warp extent; and a warp reduction is recorded when a
   * tensor with a domain is defined by one.
   */
  lemma {:induction false} ScanFlatSummary(ds: seq<(bool, PadDomain)>, warpSize: int)
    ensures ScanFlat(InitialScan, ds, warpSize).Ok? <==>
      forall i :: 0 <= i < |ds| && ds[i].1.paddedToWarp ==> ds[i].1.parallel == TIDx
    ensures ScanFlat(InitialScan, ds, warpSize).Ok? ==>
      var info := ScanFlat(InitialScan, ds, warpSize).value.info;
      && (info.isTidxPadded <==> exists i :: 0 <= i < |ds| && ds[i].1.paddedToWarp)
      && (info.isTidxSingleWarp <==>
            (forall i :: 0 <= i < |ds| ==> !BlocksSingleWarp(ds[i].1, warpSize))
            && (exists i :: 0 <= i < |ds| && ShowsSingleWarp(ds[i].1, warpSize)))
      && (info.hasWarpReduction <==> exists i :: 0 <= i < |ds| && ds[i].0)
  {
    ScanFlatSucceeds(InitialScan, ds, warpSize);
    NoPaddedOffTidxIff(ds);
    if ScanFlat(InitialScan, ds, warpSize).Ok? {
      ScanFlatFlags(InitialScan, ds, warpSize);
      AnyPaddedIff(ds);
      AnyWarpReductionIff(ds);
      ScanFlatSingleWarp(InitialScan, ds, warpSize);
      SingleWarpIff(ds, warpSize);
    }
  }

  /**
   * The scan fails exactly when a domain padded to the warp is not TIDx. On
   * success TIDx is padded when some domain is padded; TIDx is a single warp
   * exactly when no TIDx domain has an unknown or larger-than-warp extent
   * without being padded to one warp, and some TIDx domain is padded to one
   * warp or has exactly warp extent; and a warp reduction is recorded when a
   * tensor with a domain is defined by one. `ds` names the flattened domains.
   */
  lemma CollectPaddedParallelDimsSummary(tvs: seq<PadTensor>, warpSize: int, ds: seq<(bool, PadDomain)>)
    requires ds == Flatten(tvs)
    ensures CollectPaddedParallelDims(tvs, warpSize).Ok? <==>
      forall i :: 0 <= i < |ds| && ds[i].1.paddedToWarp ==> ds[i].1.parallel == TIDx
    ensures CollectPaddedParallelDims(tvs, warpSize).Ok? ==>
      var info := CollectPaddedParallelDims(tvs, warpSize).value;
      && (info.isTidxPadded <==> exists i :: 0 <= i < |ds| && ds[i].1.paddedToWarp)
      && (info.isTidxSingleWarp <==>
            (forall i :: 0 <= i < |ds| ==> !BlocksSingleWarp(ds[i].1, warpSize))
            && (exists i :: 0 <= i < |ds| && ShowsSingleWarp(ds[i].1, warpSize)))
      && (info.hasWarpReduction <==> exists i :: 0 <= i < |ds| && ds[i].0)
  {
    ScanFlatSummary(ds, warpSize);
  }
}
