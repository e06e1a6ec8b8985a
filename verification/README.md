# nvFuser index and predicate machinery, in Dafny

This project models the core of the CUDA fuser's lowering in PyTorch. That is the code that turns the transform history of a tensor (its splits and merges) into integer index expressions and bounds predicates for a generated kernel. It also models the small pure helpers around that code.

- **Index expressions** (`IndexExpr`, `CArith`). Index arithmetic is a small expression tree whose value under a binding of names is given by `Eval`. Division, remainder and `ceilDiv` are the C++ truncating forms, written out explicitly because Dafny's `/` and `%` are Euclidean.
- **Axes and histories** (`Axes`). Iteration domains are integer handles with an attribute table. A tensor's history is a list of `Split`/`Merge` records. Halo widths are a table.
- **Contiguity** (`ContigIds`). The finder that decides which merged axes may be indexed as one.
- **Backward index propagation** (`IndexCompute`): the split and merge handlers, the constructor's erasure of covered axes, and `updateIndexCompute`.
- **Forward leaf re-derivation and the transpose swizzle** (`Swizzle`).
- **Producer offsets** (`ProducerOffsets`): halo, gather window and partial-split offsets.
- **Strided indices** (`StridedIndices`). Stride names, contiguous stride products, and local/shared strides. Double-buffer indices are appended.
- **Predicates** (`Predicates`):
  - contiguous predicate axes and non-divisible splits;
  - shift, gather and limit offsets;
  - the unswitch stop offset;
  - start/stop omission rules;
  - the boundary indices of loops inside an unswitch;
  - the root predicates of a consumer.
- **IR helpers** (`Ir`): constancy, `getInt`, producer/consumer relations and `Expr::sameAs`.
- **Kernel expression evaluator** (`KernelEvaluator`): binding, memoised evaluation and `isConst`.
- **Parallel dimension map** (`ParallelDims`), including `equalDim`.
- **Symbolic size replacement** (`ReplaceSize`, `Names`). Disjoint sets of root axes and the representative choice. `T<n>.size[<k>]` naming and the leaf-output finder.
- **Lowering helpers** (`Lower`): the kernel IR cleaner, the one-active-lowering guard and the warp-padding scan.
- **Axis-list ops** (`AliasOps`): `view`, `squeeze`, `unsqueeze`.
- **Operator version map** (`VersionMap`), as a state machine.

Every lookup into structures that are built elsewhere becomes an input table:
- the reference tensor and its replay;
- the compute-at map's concrete axes;
- halo widths;
- the trivial-reduction set;
- partial-split start offsets;
- parallel dimensions;
- the double-buffer loop and allocation size.

The warp size is a parameter.

`SimplifyingIrBuilder` is not part of this model. The code tests its results only by shape: `isZeroInt`, `isOneInt`, and whether an offset is a literal. Its folding is therefore modelled as the literal folding those tests depend on (`AddFolded`, `NegFolded`, `SubFolded`, `MinFolded`, `MaxFolded`). Each folded form is proved to have the same value as the unfolded expression.

Object identity of IR values is modelled as structural equality of expressions. This matters in two places:
- the test that a loop's stop is its axis's extent;
- the test that the double-buffer index is still the loop's own index.

## Model

| member | source | states |
|---|---|---|
| CArith.TruncDivModSpec | torch/csrc/jit/codegen/cuda/kernel_expr_evaluator.cpp:140-151 | C++ `/` and `%` satisfy `a == b*q + r`, with `\|r\| < \|b\|` and `r` taking the sign of the dividend |
| CArith.TruncAgreesWithEuclid | torch/csrc/jit/codegen/cuda/kernel_expr_evaluator.cpp:140-151 | for `a >= 0, b > 0` the truncating forms equal the Euclidean ones |
| CArith.TruncDiffersOnNegative | torch/csrc/jit/codegen/cuda/kernel_expr_evaluator.cpp:140-151 | `-7 / 2` is `-3` in C++ but `-4` in Dafny, so the two must not be confused |
| CArith.CeilDivIsCeiling | torch/csrc/jit/codegen/cuda/kernel_expr_evaluator.cpp:146-148 | `(a + b - 1) / b` is the least multiple count covering `a`, for `a >= 0, b > 0` |
| IndexExpr.AddFolded | torch/csrc/jit/codegen/cuda/index_compute.cpp:2995-2996 | the builder's sum drops a literal zero operand and folds two literals |
| IndexExpr.AddFoldedEval | torch/csrc/jit/codegen/cuda/index_compute.cpp:2995-2996 | folding never changes the value of a sum |
| IndexExpr.ConstValueEverywhere | torch/csrc/jit/codegen/cuda/kernel_expr_evaluator.cpp:72-74 | an expression with a value under no bindings has that value under every binding |
| IndexExpr.DivModRelinearise | torch/csrc/jit/codegen/cuda/index_compute.cpp:682-683 | `(e / f) * f + e % f` evaluates to `e` for any signs and non-zero `f` |
| Predicates.NegFolded | torch/csrc/jit/codegen/cuda/index_compute.cpp:2478 | a negated literal folds, and the value is always the negation |
| Predicates.SubFolded | torch/csrc/jit/codegen/cuda/index_compute.cpp:2775-2776 | subtracting a literal zero returns the minuend; two literals fold |
| Predicates.SubFoldedEval | torch/csrc/jit/codegen/cuda/index_compute.cpp:2775-2776 | the folded difference has the value of the difference |
| Predicates.MinFolded | torch/csrc/jit/codegen/cuda/index_compute.cpp:2443-2446 | the folded minimum has the value of the minimum |
| Predicates.MaxFolded | torch/csrc/jit/codegen/cuda/index_compute.cpp:2453-2456 | the folded maximum has the value of the maximum |
| Axes.Producer | torch/csrc/jit/codegen/cuda/index_compute.cpp:79-82 | the step found produces the axis, no later step does, and none means no step does |
| Axes.InputsOfUnproduced | torch/csrc/jit/codegen/cuda/index_compute.cpp:79-82 | an axis no step produces is its own only root input |
| Axes.OrderedAs | torch/csrc/jit/codegen/cuda/index_compute.cpp:79-82 | `iterDomainInputsOfOrderedAs` lists exactly the members of the set that lie in the order |
| ContigIds.Without | torch/csrc/jit/codegen/cuda/index_compute.cpp:137-143 | erasing from the contiguous set removes exactly that axis |
| ContigIds.Insert | torch/csrc/jit/codegen/cuda/index_compute.cpp:145 | insertion adds exactly that axis |
| ContigIds.SeedSpec | torch/csrc/jit/codegen/cuda/index_compute.cpp:190-208 | a root is seeded iff its contiguity flag is set and it has no halo; every root is recorded in `is_contig_root`; seeds cover nothing |
| ContigIds.MatchPrefixSpec | torch/csrc/jit/codegen/cuda/index_compute.cpp:116-130 | the matching loop consumes every ordered input iff they are a prefix of what is left of the root |
| ContigIds.FirstIndex | torch/csrc/jit/codegen/cuda/index_compute.cpp:107-113 | the first position of an axis in the root, or the length when absent |
| ContigIds.SkipToFirstIsSuffix | torch/csrc/jit/codegen/cuda/index_compute.cpp:107-113 | the skipping loop leaves the root from the first ordered input on |
| ContigIds.RunMatchesIffRun | torch/csrc/jit/codegen/cuda/index_compute.cpp:104-136 | on a duplicate-free root the two queue loops succeed iff the ordered inputs are one consecutive run of the root |
| ContigIds.MergeStep | torch/csrc/jit/codegen/cuda/index_compute.cpp:67-164 | a joining merge replaces both inputs by its output, which covers both inputs and what they covered; otherwise nothing changes |
| ContigIds.JoinsIff | torch/csrc/jit/codegen/cuda/index_compute.cpp:67-136 | a merge joins iff both inputs are contiguous, the ordered root inputs are contiguous non-broadcast non-reduction roots, and they form a run |
| ContigIds.Step | torch/csrc/jit/codegen/cuda/index_compute.cpp:64-65 | splits change nothing; any other expression is refused |
| ContigIds.FindContigIds | torch/csrc/jit/codegen/cuda/index_compute.cpp:174-189 | an empty leaf list yields nothing; mismatched contiguity flags are an error |
| ContigIds.WalkOrigin | torch/csrc/jit/codegen/cuda/index_compute.cpp:210-214 | every contiguous axis after the walk was contiguous before or is a merge output |
| ContigIds.WalkSucceeds | torch/csrc/jit/codegen/cuda/index_compute.cpp:210-214 | the walk succeeds on a history of splits and merges |
| ContigIds.WalkKeepsCovered | torch/csrc/jit/codegen/cuda/index_compute.cpp:145-162 | every contiguous axis keeps its covered set |
| ContigIds.FindContigIdsOrigin | torch/csrc/jit/codegen/cuda/index_compute.cpp:174-215 | with matching flags and only splits and merges the finder succeeds; each contiguous axis is a seeded root or a merge output, never a split output |
| IndexCompute.HandleSplit | torch/csrc/jit/codegen/cuda/index_compute.cpp:522-576 | a missing outer or inner index is a no-op; when the input is already zero, or both outputs are zero, its index and extent are 0, and it joins the zero set exactly when both outputs are zero; with zero-merged ancestry and one zero side, the other side's index and extent pass through; otherwise `in = outer*ext(inner) + inner`, and the extent changes only when zero-merged; the input joins the zero-merged set exactly when it or an output is zero or zero-merged; nothing else changes |
| IndexCompute.ZeroAll | torch/csrc/jit/codegen/cuda/index_compute.cpp:609-611 | every listed axis gets the literal zero, other entries are kept |
| IndexCompute.HandleMerge | torch/csrc/jit/codegen/cuda/index_compute.cpp:578-685 | no output index is a no-op; a zero output zeroes both inputs and marks them; the contiguous path gives 0 to every root input except the last, which takes the output index, and fails with no root inputs; a size-one broadcast side gets 0 |
| IndexCompute.ContiguousMergePath | torch/csrc/jit/codegen/cuda/index_compute.cpp:601-615 | the last root input takes the output index, every other root input gets 0, other indices and the extents and zero domains are kept |
| IndexCompute.HandleMergeDivMod | torch/csrc/jit/codegen/cuda/index_compute.cpp:617-684 | without zero-merged ancestry, outer = out / ext and inner = out % ext, ext being the reference halo extent when mapped; `outer*ext + inner` evaluates to `out` |
| IndexCompute.MergeUndoesLinearisation | torch/csrc/jit/codegen/cuda/index_compute.cpp:682-683 | the backward merge inverts `o*e + i` for `o >= 0`, `0 <= i < e` |
| IndexCompute.EvalLinear | torch/csrc/jit/codegen/cuda/index_compute.cpp:567-568 | the linearised split index evaluates to `o*e + i` and is non-negative for non-negative parts |
| IndexCompute.Dispatch | torch/csrc/jit/codegen/cuda/index_compute.cpp:687-697 | exactly the expressions other than split and merge are refused |
| IndexCompute.RunBackwardOnlySplitMerge | torch/csrc/jit/codegen/cuda/index_compute.cpp:687-697 | a backward walk that completes has seen only splits and merges |
| IndexCompute.EraseCovered | torch/csrc/jit/codegen/cuda/index_compute.cpp:728-736 | the seeding erasure only removes entries and never changes one |
| IndexCompute.EraseCoveredSpec | torch/csrc/jit/codegen/cuda/index_compute.cpp:728-736 | when contiguous axes do not cover one another, exactly the axes covered by an indexed contiguous axis are erased |
| IndexCompute.Create | torch/csrc/jit/codegen/cuda/index_compute.cpp:701-738 | without contiguous roots the maps are kept unchanged; otherwise only index entries are removed and extents are kept |
| IndexCompute.CreateErasesCovered | torch/csrc/jit/codegen/cuda/index_compute.cpp:721-737 | when the finder succeeds the constructor uses its contiguous axes and erases exactly the covered indexed axes |
| IndexCompute.RenamedKeys | torch/csrc/jit/codegen/cuda/index_compute.cpp:779-796 | after carrying the maps over, exactly the new axes have extents, and every other map is keyed within them |
| IndexCompute.RenamedEntry | torch/csrc/jit/codegen/cuda/index_compute.cpp:779-796 | with distinct new axes each one gets its previous axis's index, extent, zero mark and zero-merged mark |
| IndexCompute.UpdateIndexCompute | torch/csrc/jit/codegen/cuda/index_compute.cpp:767-810 | with no contiguous root the new engine is the backward walk over the carried maps with no preferred paths |
| Swizzle.LeafSplit | torch/csrc/jit/codegen/cuda/index_compute.cpp:840-859 | an indexed outer needs an indexed inner and changes nothing; otherwise it succeeds iff the input is indexed, with inner = in % f, outer = in / f and inner extent `f` |
| Swizzle.LeafMerge | torch/csrc/jit/codegen/cuda/index_compute.cpp:861-883 | an indexed output is a no-op; both inputs must be indexed; the output's extent evaluates to the product of the input extents; every other index and extent entry is unchanged |
| Swizzle.LeafMergeIndexValue | torch/csrc/jit/codegen/cuda/index_compute.cpp:877-879 | the merged output's index evaluates to `inner * (outer * ext(inner))` whenever its parts evaluate |
| Swizzle.LeafMergeNotLinearisation | torch/csrc/jit/codegen/cuda/index_compute.cpp:877-879 | with outer and inner at 1 and inner extent 2 the merged index is 2, not the linearisation 3, and dividing it back by the extent gives inner 0 |
| Swizzle.SplitRoundTrip | torch/csrc/jit/codegen/cuda/index_compute.cpp:854-858 | a forward split followed by the backward split of line 567 rebuilds the input index; for `i >= 0, f > 0` the parts are quotient and remainder in `[0, f)` |
| Swizzle.BackSplitOfForward | torch/csrc/jit/codegen/cuda/index_compute.cpp:540-576 | the backward split of a forward split's leaves rebuilds the input's index as `(i / f) * f + i % f` |
| Swizzle.SplitPartsEuclid | torch/csrc/jit/codegen/cuda/index_compute.cpp:540-576 | for a non-negative index and a positive factor the split parts are the Euclidean quotient and a remainder in `[0, f)` |
| Swizzle.SwizzleBound | torch/csrc/jit/codegen/cuda/index_compute.cpp:962-965 | the swizzled index is `(i + j) mod ext(j)`, in `[0, ext(j))` |
| Swizzle.RunSwizzledUntouched | torch/csrc/jit/codegen/cuda/index_compute.cpp:972-986 | where no expression outputs a swizzled axis the pass changes nothing |
| Swizzle.IndexSwizzleRun | torch/csrc/jit/codegen/cuda/index_compute.cpp:936-970 | only no swizzle or a transpose is accepted; a transpose needs shared memory and two axes; no swizzle changes nothing |
| Swizzle.TransposeSetsSwizzledIndex | torch/csrc/jit/codegen/cuda/index_compute.cpp:950-967 | when both axes have leaf indices and the second feeds no expression, a transpose sets the second axis to the swizzled index of the two re-derived leaf indices, and the pass completes on a history of splits and merges |
| Swizzle.DispatchWritesInputsOnly | torch/csrc/jit/codegen/cuda/index_compute.cpp:972-986 | a backward split or merge step keeps the index of every axis that is not one of its inputs |
| Swizzle.DispatchSucceeds | torch/csrc/jit/codegen/cuda/index_compute.cpp:972-986 | a backward split or merge step never fails without contiguous axes |
| Swizzle.RunSwizzledKeeps | torch/csrc/jit/codegen/cuda/index_compute.cpp:972-986 | the pass back to the roots keeps the index of an axis no expression consumes |
| Swizzle.RunSwizzledSucceeds | torch/csrc/jit/codegen/cuda/index_compute.cpp:972-986 | the pass back to the roots completes on a history of splits and merges |
| ProducerOffsets.OffsetEval | torch/csrc/jit/codegen/cuda/index_compute.cpp:327-349 | adding an offset adds its value, and a zero offset returns the index itself |
| ProducerOffsets.HaloOffset | torch/csrc/jit/codegen/cuda/index_compute.cpp:292-325 | producer start halo = offset + consumer start halo (+ shift); missing mapping or shift entry is an error |
| ProducerOffsets.IndexWithHalo | torch/csrc/jit/codegen/cuda/index_compute.cpp:327-349 | the index plus the halo offset, failing exactly when the offset does |
| ProducerOffsets.HaloShiftMovesIndex | torch/csrc/jit/codegen/cuda/index_compute.cpp:292-349 | with no halo, a shift moves the producer index to the consumer's minus the shift amount |
| ProducerOffsets.GatherOffset | torch/csrc/jit/codegen/cuda/index_compute.cpp:351-406 | zero unless the consumer is a gather with a window wider than one; then a window index less the start padding |
| ProducerOffsets.WindowId | torch/csrc/jit/codegen/cuda/index_compute.cpp:376-392 | the reference axis of the window is found through the concrete map, or the axis itself without a reference |
| ProducerOffsets.GatherOffsetEval | torch/csrc/jit/codegen/cuda/index_compute.cpp:351-406 | without a reference, the gather offset evaluates to the window position less the start padding |
| ProducerOffsets.KeptAxes | torch/csrc/jit/codegen/cuda/index_compute.cpp:420-432 | the producer axes that the consumer keeps are no more than the producer axes |
| ProducerOffsets.KeptUpToPrefix | torch/csrc/jit/codegen/cuda/index_compute.cpp:420-432 | counting kept axes over a longer prefix only appends: the shorter count's axes start the longer one's |
| ProducerOffsets.KeptAxesPrefix | torch/csrc/jit/codegen/cuda/index_compute.cpp:420-432 | the kept axes of a prefix are a prefix of the kept axes |
| ProducerOffsets.ConsumerAxis | torch/csrc/jit/codegen/cuda/index_compute.cpp:420-432 | the consumer axis number never exceeds the producer axis number |
| ProducerOffsets.ConsumerAxisLocates | torch/csrc/jit/codegen/cuda/index_compute.cpp:420-432 | a kept producer axis sits at its consumer axis among the kept axes |
| ProducerOffsets.IndexWithGather | torch/csrc/jit/codegen/cuda/index_compute.cpp:408-443 | no gather returns the index; a consumer axis outside the window is an error |
| ProducerOffsets.StartOffset | torch/csrc/jit/codegen/cuda/index_compute.cpp:448-455 | an axis without a partial-split entry has a zero start offset |
| ProducerOffsets.IndexWithPartialSplit | torch/csrc/jit/codegen/cuda/index_compute.cpp:464-518 | an unmapped axis keeps its index; a non-global producer fails exactly when the start difference is not constant; a global one with zero consumer offset keeps the index |
| ProducerOffsets.PartialSplitEval | torch/csrc/jit/codegen/cuda/index_compute.cpp:464-518 | global adds the consumer start offset; otherwise the consumer's start offset less the producer's |
| StridedIndices.HaloExtent | torch/csrc/jit/codegen/cuda/index_compute.cpp:902-915 | the halo-widened extent evaluates to the extent plus the total halo |
| StridedIndices.CountStrided | torch/csrc/jit/codegen/cuda/index_compute.cpp:1294-1307 | no more stride names than axes |
| StridedIndices.InitialStrides | torch/csrc/jit/codegen/cuda/index_compute.cpp:1294-1307 | one initial stride per root axis |
| StridedIndices.CountStridedGrows | torch/csrc/jit/codegen/cuda/index_compute.cpp:1294-1307 | a strided axis is counted in every longer prefix |
| StridedIndices.StrideNumbersInRange | torch/csrc/jit/codegen/cuda/index_compute.cpp:1294-1307 | each strided axis's stride number is below the number of strided axes |
| StridedIndices.StrideNamesDistinct | torch/csrc/jit/codegen/cuda/index_compute.cpp:1294-1307 | skipped axes consume no stride number, so no two strided axes share a `stride[k]` name |
| StridedIndices.NextStrided | torch/csrc/jit/codegen/cuda/index_compute.cpp:1312-1319 | the first strided axis at or after a position, or none when there is none |
| StridedIndices.AssembleSpec | torch/csrc/jit/codegen/cuda/index_compute.cpp:1309-1353 | the innermost-first pass succeeds iff every strided axis has a root index; contiguous axes get the carried stride |
| StridedIndices.GlobalStrides | torch/csrc/jit/codegen/cuda/index_compute.cpp:1294-1353 | mismatched contiguity fails; success iff every strided axis has a root index; skipped axes get 1; discontiguous axes keep their names |
| StridedIndices.ContiguousStrideAt | torch/csrc/jit/codegen/cuda/index_compute.cpp:1338-1346 | a contiguous strided axis is strided by what follows it |
| StridedIndices.CarryIsProduct | torch/csrc/jit/codegen/cuda/index_compute.cpp:1338-1352 | over a contiguous stretch the carried stride is the product of the halo-widened extents after it |
| StridedIndices.ContiguousStrideIsProduct | torch/csrc/jit/codegen/cuda/index_compute.cpp:1338-1352 | a contiguous axis's stride is the product of later strided extents, and the innermost one is 1 |
| StridedIndices.AdjustIndex | torch/csrc/jit/codegen/cuda/index_compute.cpp:1381-1394 | a producer index passes through the halo, gather and partial-split offsets; a global consumer adds its partial-split start offset as at line 1848; a local consumer keeps its index |
| StridedIndices.GlobalIndexAt | torch/csrc/jit/codegen/cuda/index_compute.cpp:1359-1406 | skipped axes index 0; a missing root index is an error; otherwise success iff the adjustment succeeds |
| StridedIndices.GlobalIndexValue | torch/csrc/jit/codegen/cuda/index_compute.cpp:1396-1405 | a global strided index evaluates to the adjusted index times the stride |
| StridedIndices.GlobalStridedIndices | torch/csrc/jit/codegen/cuda/index_compute.cpp:1359-1408 | one index per root axis, each the per-axis global index, succeeding iff every axis does |
| StridedIndices.LocalStrideMeaning | torch/csrc/jit/codegen/cuda/index_compute.cpp:1663-1697 | succeeds iff every later indexed axis has an index; there is no stride exactly when no later axis counts |
| StridedIndices.LocalStrideIsProduct | torch/csrc/jit/codegen/cuda/index_compute.cpp:1663-1697 | the accumulated stride evaluates to the product of the later counted extents |
| StridedIndices.LocalIndexAt | torch/csrc/jit/codegen/cuda/index_compute.cpp:1626-1698 | skipped axes index 0; a missing index is an error; a zero adjusted index stays 0; with no counted axis after it the index is the adjusted index itself |
| StridedIndices.LocalIndexValue | torch/csrc/jit/codegen/cuda/index_compute.cpp:1663-1697 | a local strided index evaluates to the adjusted index times the later counted extents |
| StridedIndices.AllUncountedProductOne | torch/csrc/jit/codegen/cuda/index_compute.cpp:1693-1697 | with no counted axis left the extent product is 1 |
| StridedIndices.DoubleBufferHalves | torch/csrc/jit/codegen/cuda/index_compute.cpp:1700-1711 | reader `(i % 2) * size` and writer `(1 - i % 2) * size` use opposite halves on every iteration |
| StridedIndices.DoubleBufferTail | torch/csrc/jit/codegen/cuda/index_compute.cpp:1700-1711 | exactly one extra index when double buffered inside the double-buffer loop |
| StridedIndices.LocalStridedIndices | torch/csrc/jit/codegen/cuda/index_compute.cpp:1604-1711 | succeeds iff every axis does; one index per root axis plus the double-buffer tail |
| StridedIndices.StridedIndicesOf | torch/csrc/jit/codegen/cuda/index_compute.cpp:2054-2107 | all zeros when every leaf is a reduction; a producer gets root count plus one when double buffered; a consumer gets the global or the local scheme by memory type |
| StridedIndices.ProducerCountNeedsLoop | torch/csrc/jit/codegen/cuda/index_compute.cpp:2071-2078 | a double-buffered producer succeeds only as a local buffer inside its loop |
| Predicates.FirstIndexOf | torch/csrc/jit/codegen/cuda/index_compute.cpp:2165-2171 | the first position of an axis, none iff absent |
| Predicates.RootPos | torch/csrc/jit/codegen/cuda/index_compute.cpp:2165-2171 | a root axis is found at its position; a non-root axis is an error |
| Predicates.RemoveFirst | torch/csrc/jit/codegen/cuda/index_compute.cpp:2222-2232 | erasing removes exactly one occurrence and keeps the rest |
| Predicates.ContigMerge | torch/csrc/jit/codegen/cuda/index_compute.cpp:2214-2236 | a merge step never grows the list, keeps excluded axes, and adds only its output |
| Predicates.ContigWalk | torch/csrc/jit/codegen/cuda/index_compute.cpp:2214-2236 | the walk never grows the list and keeps every excluded axis |
| Predicates.ContigWalkOrigin | torch/csrc/jit/codegen/cuda/index_compute.cpp:2214-2236 | every listed axis was listed at the start or is a merge output |
| Predicates.PredicateContigIds | torch/csrc/jit/codegen/cuda/index_compute.cpp:2140-2242 | at most one predicated axis per root axis, none of them a non-divisible split |
| Predicates.ContigIdsKeepExcluded | torch/csrc/jit/codegen/cuda/index_compute.cpp:2173-2212 | a root axis with halo, partial, broadcast onto non-broadcast, shifted or gathered is predicated alone, covering only itself |
| Predicates.ContigIdsOrigin | torch/csrc/jit/codegen/cuda/index_compute.cpp:2214-2242 | every predicated axis is a root axis or a merge output |
| Predicates.NonDivisibleDomains | torch/csrc/jit/codegen/cuda/index_compute.cpp:2256-2276 | one entry per non-divisible split, each covering only itself |
| Predicates.GatherOffsets | torch/csrc/jit/codegen/cuda/index_compute.cpp:2370-2461 | an axis with no window is unoffset; a side with zero padding has a zero offset |
| Predicates.GatherGuardsBoth | torch/csrc/jit/codegen/cuda/index_compute.cpp:2370-2461 | the start predicate holds iff both consumer and producer position reach 0; the stop predicate holds iff both are below the extent |
| Predicates.FirstUnswitched | torch/csrc/jit/codegen/cuda/index_compute.cpp:2298-2307 | the first leaf that is unswitched, unrolled or vectorized; none before it is |
| Predicates.UnswitchStopOffset | torch/csrc/jit/codegen/cuda/index_compute.cpp:2293-2330 | the halo width when an unswitched leaf inherits the axis's halo, 0 otherwise, in both directions |
| Predicates.DefinitionOffsets | torch/csrc/jit/codegen/cuda/index_compute.cpp:2724-2745 | a plain definition or the padding predicate gives zero offsets |
| Predicates.RawOffsets | torch/csrc/jit/codegen/cuda/index_compute.cpp:2724-2772 | a non-divisible split gives zero offsets; an unswitched padding predicate is refused |
| Predicates.StartAndStopOffsets | torch/csrc/jit/codegen/cuda/index_compute.cpp:2701-2779 | a non-root axis outside a non-divisible split needs no offsets; errors come only from the raw offsets |
| Predicates.OffsetsAgainstLimits | torch/csrc/jit/codegen/cuda/index_compute.cpp:2701-2779 | `index + (raw - limit) >= 0` iff the raw-offset index reaches the start limit, and the same for the stop side |
| Predicates.PlainRootRange | torch/csrc/jit/codegen/cuda/index_compute.cpp:2469-2779 | the predicates of a plain root axis accept exactly its valid range past the start halo |
| Predicates.ShiftPredicateWindow | torch/csrc/jit/codegen/cuda/index_compute.cpp:2332-2368 | a positive shift keeps the first `pad` positions out of the start predicate, and a negative one the last `pad` out of the stop predicate |
| Predicates.SimplifyStartOffset | torch/csrc/jit/codegen/cuda/index_compute.cpp:2783-2799 | the start predicate is dropped exactly for a literal offset of at least zero |
| Predicates.SimplifyStartOffsetSound | torch/csrc/jit/codegen/cuda/index_compute.cpp:2783-2799 | the simplified start predicate agrees with the original on every index of at least zero |
| Predicates.CanOmitStopPredicate | torch/csrc/jit/codegen/cuda/index_compute.cpp:2801-2859 | omission holds exactly when the stop index is a leaf or a magic-zero-protected leaf, the extent is a leaf, the offset is a literal with halo plus offset at most 0, and a thread axis is exact and halo-free |
| Predicates.CanOmitStopSound | torch/csrc/jit/codegen/cuda/index_compute.cpp:2801-2859 | an index below extent plus halo always passes the stop predicate the omission drops |
| Predicates.BoundaryIndex | torch/csrc/jit/codegen/cuda/index_compute.cpp:2586-2619 | a broadcast reference keeps the loop index; fails iff, on the stop side, a thread loop whose stop is not the extent has no known dimension |
| Predicates.LoopIndex | torch/csrc/jit/codegen/cuda/index_compute.cpp:2570-2627 | a loop outside the unswitch keeps its own index |
| Predicates.DoubleBufferAhead | torch/csrc/jit/codegen/cuda/index_compute.cpp:2628-2645 | fails iff the double-buffer loop is out of range; only that loop changes, moving one ahead unless its index was already replaced |
| Predicates.ReferenceLoopIndicesWith | torch/csrc/jit/codegen/cuda/index_compute.cpp:2518-2645 | too many loops is an error; otherwise success iff every loop index and the double-buffer position are valid |
| Predicates.ReferenceLoopIndicesAsWritten | torch/csrc/jit/codegen/cuda/index_compute.cpp:2518-2645 | as written (a thread loop's stop is its whole dimension): succeeds iff there are no more loops than axes, every loop index is valid and the double-buffer loop is in range; then every loop other than the double-buffer one gets the index `LoopIndex` gives it under that reading |
| Predicates.ReferenceLoopIndices | torch/csrc/jit/codegen/cuda/index_compute.cpp:2518-2645 | corrected (a thread loop's stop is its last thread): succeeds iff there are no more loops than axes, every loop index is valid and the double-buffer loop is in range; then every loop other than the double-buffer one gets the index `LoopIndex` gives it under that reading |
| Predicates.OutsideUnswitchKeepsIndex | torch/csrc/jit/codegen/cuda/index_compute.cpp:2570-2645 | loops not rewritten keep their index, the double-buffer one moving ahead |
| Predicates.VectorizedRewritesOneLoop | torch/csrc/jit/codegen/cuda/index_compute.cpp:2622-2626 | a vectorized predicate rewrites only the vectorized loop |
| Predicates.BoundaryIndicesBracket | torch/csrc/jit/codegen/cuda/index_compute.cpp:2586-2619 | the start and stop boundary indices bracket every iteration of the loop |
| Predicates.ThreadBoundaryIsLastThread | torch/csrc/jit/codegen/cuda/index_compute.cpp:2594-2611 | with the stop index at the last thread, the boundary passes iff every thread passes |
| Predicates.AsWrittenThreadBoundaryRejectsAllThreads | torch/csrc/jit/codegen/cuda/index_compute.cpp:2608-2610 | as written, a boundary at the whole dimension fails although every thread passes |
| Predicates.RootPredicateFor | torch/csrc/jit/codegen/cuda/index_compute.cpp:2937-3021 | broadcast, trivial, unindexed or zero-indexed axes need no predicate; otherwise it covers the axis's roots with offsets from `getStartAndStopOffsets` |
| Predicates.RootPredicateMeaning | torch/csrc/jit/codegen/cuda/index_compute.cpp:2986-3016 | the start predicate holds iff start index plus offset is at least 0, and the stop predicate iff stop index plus offset is below the extent |
| Predicates.RootPredicatesOf | torch/csrc/jit/codegen/cuda/index_compute.cpp:2935-3022 | succeeds iff every axis does; at most one entry per axis, none never-holding |
| Predicates.RootPredicatesOfSource | torch/csrc/jit/codegen/cuda/index_compute.cpp:2935-3022 | every predicate listed is the predicate of one of the axes |
| Predicates.RootPredicates | torch/csrc/jit/codegen/cuda/index_compute.cpp:2864-3025 | a padding predicate of a consumer with no padding is the single never-holding entry; otherwise at most one entry per root or non-divisible axis |
| Ir.ConstCheckAllIffLeaves | torch/csrc/jit/codegen/cuda/ir_base_nodes.cpp:111-151 | a list is constant iff every leaf it is built from holds a value or is not a scalar |
| Ir.ConstCheckIffLeaves | torch/csrc/jit/codegen/cuda/ir_base_nodes.cpp:111-151 | a value is constant iff every leaf it is built from holds a value or is not a scalar |
| Ir.DerivedViaInputs | torch/csrc/jit/codegen/cuda/ir_base_nodes.cpp:131-136 | a derived value is checked through the inputs of its definition |
| Ir.GetInt | torch/csrc/jit/codegen/cuda/ir_base_nodes.cpp:162-171 | an integer exists only for a constant `Int` scalar |
| Ir.GetIntOnlyOfLiterals | torch/csrc/jit/codegen/cuda/ir_base_nodes.cpp:162-181 | `getInt` is `n` iff the value is an `Int` leaf holding `n` |
| Ir.ProducerConsumerConverse | torch/csrc/jit/codegen/cuda/ir_base_nodes.cpp:189-204 | no definition means producer of nothing; `isConsumerOf` is the converse of `isProducerOf` |
| Ir.LeavesAllContains | torch/csrc/jit/codegen/cuda/ir_base_nodes.cpp:131-136 | the leaves of a list include the leaves of each member |
| Ir.ConstCheckAllContains | torch/csrc/jit/codegen/cuda/ir_base_nodes.cpp:131-136 | a constant list has only constant members |
| Ir.ProducerLeavesIncluded | torch/csrc/jit/codegen/cuda/ir_base_nodes.cpp:189-200 | when `other` is an input of `v`'s definition (`v.isProducerOf(other)`), every leaf of `other` is a leaf of `v`, and `v` is constant only if `other` is |
| Ir.SameAsUnderIdentity | torch/csrc/jit/codegen/cuda/ir_base_nodes.cpp:217-238 | under value identity two expressions compare the same iff identical, or same kind, inputs and output count |
| Ir.SameAsSymmetric | torch/csrc/jit/codegen/cuda/ir_base_nodes.cpp:217-238 | symmetric when value comparison is; never the same as a value |
| Ir.SameAsIgnoresOutputs | torch/csrc/jit/codegen/cuda/ir_base_nodes.cpp:228-237 | outputs are not compared |
| KernelEvaluator.Bind | torch/csrc/jit/codegen/cuda/kernel_expr_evaluator.cpp:13-26 | binding succeeds iff the value is a non-constant `Int` scalar with no definition, and records exactly that value |
| KernelEvaluator.BindParallel | torch/csrc/jit/codegen/cuda/kernel_expr_evaluator.cpp:28-39 | only a thread parallel type can be bound, and only its dimension changes |
| KernelEvaluator.ThreadDimFromSkips | torch/csrc/jit/codegen/cuda/kernel_expr_evaluator.cpp:96-108 | thread types whose size name differs are passed over |
| KernelEvaluator.ThreadDimOfBoundType | torch/csrc/jit/codegen/cuda/kernel_expr_evaluator.cpp:96-108 | a named scalar resolves to the bound dimension of the thread type it names |
| KernelEvaluator.ApplyBinary | torch/csrc/jit/codegen/cuda/kernel_expr_evaluator.cpp:126-159 | division, remainder and `ceilDiv` fail iff the divisor is 0; add, sub, mul and `and` always succeed; `and` is 1 iff both operands are non-zero |
| KernelEvaluator.ApplyBinaryDivision | torch/csrc/jit/codegen/cuda/kernel_expr_evaluator.cpp:140-151 | quotient and remainder recombine to the dividend; `ceilDiv` is the ceiling for non-negative by positive |
| KernelEvaluator.Evaluate | torch/csrc/jit/codegen/cuda/kernel_expr_evaluator.cpp:41-70 | evaluation keeps every known value and dimension, and memoises every non-constant result it finds |
| KernelEvaluator.ConstantValue | torch/csrc/jit/codegen/cuda/kernel_expr_evaluator.cpp:72-74 | a value folding finds means `isConst` holds |
| KernelEvaluator.DenoteStable | torch/csrc/jit/codegen/cuda/kernel_expr_evaluator.cpp:48-60 | memo entries never change the meaning of a value |
| KernelEvaluator.ExtendsTransitive | torch/csrc/jit/codegen/cuda/kernel_expr_evaluator.cpp:48-60 | extending memo tables is transitive |
| KernelEvaluator.EvaluateMatchesDenote | torch/csrc/jit/codegen/cuda/kernel_expr_evaluator.cpp:41-159 | the memoising evaluator agrees with the reference meaning and only adds consistent memo entries |
| KernelEvaluator.IsConstMatchesDenote | torch/csrc/jit/codegen/cuda/kernel_expr_evaluator.cpp:72-74 | `isConst` is the reference meaning with nothing bound |
| KernelEvaluator.BindThenEvaluate | torch/csrc/jit/codegen/cuda/kernel_expr_evaluator.cpp:13-60 | a bound value evaluates to what it was bound to |
| KernelEvaluator.BindParallelThenEvaluate | torch/csrc/jit/codegen/cuda/kernel_expr_evaluator.cpp:28-108 | binding a launch dimension makes its named scalar evaluate to it |
| KernelEvaluator.BindKeepsConsistent | torch/csrc/jit/codegen/cuda/kernel_expr_evaluator.cpp:13-26 | binding a value with no meaning keeps the memo consistent |
| KernelEvaluator.BindStableOn | torch/csrc/jit/codegen/cuda/kernel_expr_evaluator.cpp:13-26 | binding such a value leaves every value that had a meaning unchanged |
| ParallelDims.Insert | torch/csrc/jit/codegen/cuda/parallel_dimension_map.cpp:76-78 | inserting into the ordered constant set never yields an empty set |
| ParallelDims.InsertSpec | torch/csrc/jit/codegen/cuda/parallel_dimension_map.cpp:76-78 | insertion keeps the set ordered and adds exactly the constant |
| ParallelDims.ExtentConstant | torch/csrc/jit/codegen/cuda/parallel_dimension_map.cpp:47-66 | a registered constant is the extent's constant value, from an extent built from no literal one |
| ParallelDims.RegisterAsWrittenDropsConstant | torch/csrc/jit/codegen/cuda/parallel_dimension_map.cpp:68-79 | two domains of one concrete domain with extents 4 and 8 record only `{4}` as written, so the thread type becomes an exact `4`; corrected they record `{4, 8}` and the type is inexact |
| ParallelDims.RegisterConstantExtent | torch/csrc/jit/codegen/cuda/parallel_dimension_map.cpp:45-80 | as written: no constant changes nothing; a domain with its own entry gets the constant added there; otherwise, if its concrete domain already has an entry, the constant is lost, and if not, the concrete domain gets a new entry holding just the constant |
| ParallelDims.RegisterConstantExtentFixed | torch/csrc/jit/codegen/cuda/parallel_dimension_map.cpp:68-79 | corrected: the constant joins exactly its concrete domain's set, created when missing; nothing else changes |
| ParallelDims.RegisterWith | torch/csrc/jit/codegen/cuda/parallel_dimension_map.cpp:20-22 | one registration keeps every set ordered and non-empty, in either reading |
| ParallelDims.RegisterAll | torch/csrc/jit/codegen/cuda/parallel_dimension_map.cpp:20-28 | registering a list, as written or corrected, keeps every set ordered and non-empty |
| ParallelDims.RegisterAllFixedContents | torch/csrc/jit/codegen/cuda/parallel_dimension_map.cpp:20-28 | with the corrected lookup each concrete domain ends up with its previous constants plus those its domains contribute |
| ParallelDims.RegisterAllWithin | torch/csrc/jit/codegen/cuda/parallel_dimension_map.cpp:20-80 | as written, when concrete domains map to themselves, registration creates the same entries as the corrected code, each holding a subset of its constants |
| ParallelDims.RegisteredConstantsFixed | torch/csrc/jit/codegen/cuda/parallel_dimension_map.cpp:68-79 | corrected: a constant is recorded for a concrete domain iff some domain mapped to it contributes it |
| ParallelDims.RegisteredConstantsAsWritten | torch/csrc/jit/codegen/cuda/parallel_dimension_map.cpp:20-80 | as written: a concrete domain has an entry iff some domain mapped to it has a constant, and every recorded constant is contributed by such a domain |
| ParallelDims.HandleParallelDomain | torch/csrc/jit/codegen/cuda/parallel_dimension_map.cpp:84-95 | adds exactly the concrete domain to its thread type's set |
| ParallelDims.HandleStep | torch/csrc/jit/codegen/cuda/parallel_dimension_map.cpp:84-95 | one domain adds its concrete domain to its own type only |
| ParallelDims.HandleAllContents | torch/csrc/jit/codegen/cuda/parallel_dimension_map.cpp:20-28 | each thread type holds exactly the concrete domains of the domains bound to it |
| ParallelDims.DomsOfPresent | torch/csrc/jit/codegen/cuda/parallel_dimension_map.cpp:34 | a thread type has an entry iff it holds a domain |
| ParallelDims.UsedThreadTypes | torch/csrc/jit/codegen/cuda/parallel_dimension_map.cpp:20-28 | a thread type has an entry iff some domain is bound to it |
| ParallelDims.EqualDimCases | torch/csrc/jit/codegen/cuda/parallel_dimension_map.cpp:259-311 | identical values are equal; constant `Int`s compare by value and named scalars by name; otherwise a side without definition is unequal; binary and unary definitions compare by operator and first input only |
| ParallelDims.EqualDimFixedSound | torch/csrc/jit/codegen/cuda/parallel_dimension_map.cpp:292-311 | extents the corrected comparison calls equal have one value under every binding that leaves named scalars unbound |
| ParallelDims.EqualDimAsWrittenUnsound | torch/csrc/jit/codegen/cuda/parallel_dimension_map.cpp:301-305 | as written, `x + 1` and `x + 2` compare equal although they differ |
| ParallelDims.Compare | torch/csrc/jit/codegen/cuda/parallel_dimension_map.cpp:259-311 | under either reading identical extents compare equal, and extents the corrected reading calls equal are equal under `equalDim` as written |
| ParallelDims.EqualDimFixedImpliesAsWritten | torch/csrc/jit/codegen/cuda/parallel_dimension_map.cpp:259-311 | comparing every input only adds checks: extents equal input by input are equal as written |
| ParallelDims.PopulateSingle | torch/csrc/jit/codegen/cuda/parallel_dimension_map.cpp:97-122 | one constant is an exact `Int` dimension; several are symbolic and inexact; none is symbolic and exact |
| ParallelDims.PopulateMultiple | torch/csrc/jit/codegen/cuda/parallel_dimension_map.cpp:124-194 | under either comparison, a constant dimension is exact and never the sentinel -1; an inexact one is the symbolic `blockDim`/`gridDim` scalar |
| ParallelDims.NonBroadcast | torch/csrc/jit/codegen/cuda/parallel_dimension_map.cpp:138-143 | the filtered domains hold no broadcast |
| ParallelDims.ScanIgnoresBroadcast | torch/csrc/jit/codegen/cuda/parallel_dimension_map.cpp:138-182 | dropping broadcast domains leaves the scan unchanged |
| ParallelDims.MultipleIgnoresBroadcast | torch/csrc/jit/codegen/cuda/parallel_dimension_map.cpp:138-193 | dropping broadcast domains leaves the result unchanged |
| ParallelDims.ScanSound | torch/csrc/jit/codegen/cuda/parallel_dimension_map.cpp:138-182 | a loop that ends with all equal has every non-broadcast constant equal to the one it records, and every symbolic extent compared equal, by the reading's comparison, to the first; a recorded constant comes from a domain |
| ParallelDims.MultipleExactSound | torch/csrc/jit/codegen/cuda/parallel_dimension_map.cpp:124-194 | an exact result means every constant domain has that one constant, and every symbolic extent compares equal, by the reading's comparison, to the first one taken; a constant dimension comes from a domain |
| ParallelDims.MultipleExactExtentsAgree | torch/csrc/jit/codegen/cuda/parallel_dimension_map.cpp:292-311 | with extents compared input by input, exact symbolic extents have one value under any binding |
| ParallelDims.MultipleAsWrittenCallsDistinctExact | torch/csrc/jit/codegen/cuda/parallel_dimension_map.cpp:171-187 | as written, extents `x + 1` and `x + 2` make the thread type exact though their values differ; compared input by input they do not |
| ParallelDims.ScanFirstDim | torch/csrc/jit/codegen/cuda/parallel_dimension_map.cpp:162-180 | the extent compared against is one of the domains' extents |
| ParallelDims.SingleAgreesWithMultiple | torch/csrc/jit/codegen/cuda/parallel_dimension_map.cpp:97-194 | with one non-broadcast domain the two rules decide alike |
| ParallelDims.Populate | torch/csrc/jit/codegen/cuda/parallel_dimension_map.cpp:30-40 | every used thread type gets the dimension its rule gives under the reading, and joins the exact set iff that rule says exact; types already present keep theirs |
| ParallelDims.AdjustForWarpPadding | torch/csrc/jit/codegen/cuda/parallel_dimension_map.cpp:196-235 | nothing changes unless TIDx is padded and not an exact constant multiple of the warp; padded with no TIDx dimension is an error; otherwise TIDx leaves the exact set and becomes the warp size when single warp, else `blockDim.x` |
| ParallelDims.AdjustedTidxExact | torch/csrc/jit/codegen/cuda/parallel_dimension_map.cpp:196-235 | a padded TIDx stays exact only as a constant multiple of the warp |
| ParallelDims.AdjustIdempotent | torch/csrc/jit/codegen/cuda/parallel_dimension_map.cpp:196-235 | adjusting twice is adjusting once |
| ParallelDims.Get | torch/csrc/jit/codegen/cuda/parallel_dimension_map.cpp:237-249 | a non-thread type is an error; a thread type has a value iff registered, and it is the registered one |
| ParallelDims.BuildRegistersUsedTypes | torch/csrc/jit/codegen/cuda/parallel_dimension_map.cpp:17-43 | after `build`, as written or corrected, `get` finds a dimension iff some domain is bound to the thread type |
| ParallelDims.BuildDimensionOf | torch/csrc/jit/codegen/cuda/parallel_dimension_map.cpp:17-43 | after `build`, a thread type other than a padded TIDx has the dimension and exactness its rule gives from the constants and concrete domains registered under the same reading |
| ReplaceSize.MapRootIds | torch/csrc/jit/codegen/cuda/lower_replace_size.cpp:37-78 | a pair with a broadcast is ignored; two sets join by moving the second into the first and deleting it |
| ReplaceSize.MapRootIdsWellFormed | torch/csrc/jit/codegen/cuda/lower_replace_size.cpp:43-78 | every mapped axis keeps pointing to the set holding it |
| ReplaceSize.MapRootIdsClasses | torch/csrc/jit/codegen/cuda/lower_replace_size.cpp:43-78 | afterwards both axes share a set, the union of theirs, every other set unchanged |
| ReplaceSize.MapRootIdsKeepsSameSet | torch/csrc/jit/codegen/cuda/lower_replace_size.cpp:43-78 | mapping never separates axes already together |
| ReplaceSize.MapAll | torch/csrc/jit/codegen/cuda/lower_replace_size.cpp:81-93 | the pair loop keeps the sets well formed |
| ReplaceSize.MapAllKeepsSameSet | torch/csrc/jit/codegen/cuda/lower_replace_size.cpp:81-93 | the pair loop never separates axes already together |
| ReplaceSize.MapAllJoinsPairs | torch/csrc/jit/codegen/cuda/lower_replace_size.cpp:81-93 | every related pair without a broadcast ends up in one set |
| ReplaceSize.SwapIsBetter | torch/csrc/jit/codegen/cuda/lower_replace_size.cpp:119-130 | the swap test is the order: constant extent first, then the smaller name |
| ReplaceSize.BetterTransitive | torch/csrc/jit/codegen/cuda/lower_replace_size.cpp:119-130 | that order is transitive |
| ReplaceSize.Candidates | torch/csrc/jit/codegen/cuda/lower_replace_size.cpp:107-109 | candidates are exactly the non-reduction root axes of the inputs |
| ReplaceSize.NonReduction | torch/csrc/jit/codegen/cuda/lower_replace_size.cpp:108-109 | `noReductions` keeps exactly the non-reduction axes |
| ReplaceSize.ChooseStepInv | torch/csrc/jit/codegen/cuda/lower_replace_size.cpp:110-131 | one candidate keeps the choice invariant |
| ReplaceSize.ChooseAllInv | torch/csrc/jit/codegen/cuda/lower_replace_size.cpp:107-133 | the choice loop keeps the invariant |
| ReplaceSize.RepresentativeIsBest | torch/csrc/jit/codegen/cuda/lower_replace_size.cpp:107-133 | a set gets a representative iff a member is a candidate; it is such a member and no candidate of the set beats it |
| ReplaceSize.ExtentMapFromSpec | torch/csrc/jit/codegen/cuda/lower_replace_size.cpp:139-147 | every member extent of a represented set maps to its representative's extent |
| ReplaceSize.ExtentMapFromKeeps | torch/csrc/jit/codegen/cuda/lower_replace_size.cpp:139-147 | an extent no later set holds keeps its entry |
| ReplaceSize.RepsInSets | torch/csrc/jit/codegen/cuda/lower_replace_size.cpp:107-133 | every set in the choice order is a set with a representative |
| ReplaceSize.SimplificationMapSpec | torch/csrc/jit/codegen/cuda/lower_replace_size.cpp:32-148 | every member extent of a represented set maps to the representative's extent |
| ReplaceSize.TensorsOf | torch/csrc/jit/codegen/cuda/lower_replace_size.cpp:213-217 | exactly the tensor values are kept |
| ReplaceSize.NamedTensors | torch/csrc/jit/codegen/cuda/lower_replace_size.cpp:211-226 | the inputs are named, and the outputs only when there are no inputs |
| ReplaceSize.NameRootSpec | torch/csrc/jit/codegen/cuda/lower_replace_size.cpp:236-264 | existing names are kept; every nameable extent is named; each new name is `T<tv>.size[<dim>]`, counting non-skipped axes before it |
| ReplaceSize.NameAllSpec | torch/csrc/jit/codegen/cuda/lower_replace_size.cpp:231-265 | every new name is the size name of a nameable axis, and every nameable extent gets one |
| ReplaceSize.Compose | torch/csrc/jit/codegen/cuda/lower_replace_size.cpp:268-279 | composition renames nothing new: the named extents are the same |
| ReplaceSize.ComposeInOrderSpec | torch/csrc/jit/codegen/cuda/lower_replace_size.cpp:268-279 | the loop over entries reaches the simultaneous composition |
| ReplaceSize.ComposeOrderIrrelevant | torch/csrc/jit/codegen/cuda/lower_replace_size.cpp:268-279 | the order of the entries does not matter, since targets map to themselves |
| ReplaceSize.SimplificationTargetsFixed | torch/csrc/jit/codegen/cuda/lower_replace_size.cpp:139-147 | every representative's extent maps to itself |
| ReplaceSize.ExtentMapOrigin | torch/csrc/jit/codegen/cuda/lower_replace_size.cpp:139-147 | every entry comes from a member of a chosen set |
| ReplaceSize.OneSetOneReplacement | torch/csrc/jit/codegen/cuda/lower_replace_size.cpp:268-279 | named extents of one set end up with one replacement |
| ReplaceSize.OrderedOutputsMembers | torch/csrc/jit/codegen/cuda/lower_replace_size.cpp:155-160 | the ordered outputs are exactly the outputs of some expression |
| ReplaceSize.Filter | torch/csrc/jit/codegen/cuda/lower_replace_size.cpp:166-171 | keeps exactly the members not dropped |
| ReplaceSize.FilterIsSubsequence | torch/csrc/jit/codegen/cuda/lower_replace_size.cpp:166-171 | filtering keeps order |
| ReplaceSize.AllLeafOuts | torch/csrc/jit/codegen/cuda/lower_replace_size.cpp:150-172 | exactly the outputs never used as an input |
| ReplaceSize.LeafOutsInOrder | torch/csrc/jit/codegen/cuda/lower_replace_size.cpp:150-172 | the leaf outputs keep production order |
| Names.DigitRoundTrip | torch/csrc/jit/codegen/cuda/lower_replace_size.cpp:256 | a digit character reads back as its digit |
| Names.NatToString | torch/csrc/jit/codegen/cuda/lower_replace_size.cpp:256 | decimal rendering is non-empty and all digits |
| Names.ParseNatToString | torch/csrc/jit/codegen/cuda/lower_replace_size.cpp:256 | reading back a decimal rendering gives the number |
| Names.NatToStringInjective | torch/csrc/jit/codegen/cuda/lower_replace_size.cpp:256 | distinct numbers render distinctly |
| Names.TaggedInjective | torch/csrc/jit/codegen/cuda/lower_replace_size.cpp:256 | in `T<n><tag><k>]` with a tag starting with a non-digit, the two numbers are recovered uniquely |
| Names.SizeNameInjective | torch/csrc/jit/codegen/cuda/lower_replace_size.cpp:256 | distinct tensor or dimension numbers give distinct `T<n>.size[<k>]` names |
| Names.StrideNameInjective | torch/csrc/jit/codegen/cuda/index_compute.cpp:1304 | distinct tensor or stride numbers give distinct `T<n>.stride[<k>]` names |
| Names.SizeNameExample | torch/csrc/jit/codegen/cuda/lower_replace_size.cpp:256 | `T0.size[1]` and `T12.size[3]` are produced as expected |
| Lower.CleanYieldsCleanShape | torch/csrc/jit/codegen/cuda/lower2device.cpp:58-126 | whatever the cleaner keeps has no empty loop and no branch with an empty then-block |
| Lower.CleanBodyYieldsCleanShape | torch/csrc/jit/codegen/cuda/lower2device.cpp:67-79 | a cleaned body is clean |
| Lower.CleanFixesCleanShape | torch/csrc/jit/codegen/cuda/lower2device.cpp:58-126 | cleaning something already clean changes nothing |
| Lower.CleanBodyFixesCleanShape | torch/csrc/jit/codegen/cuda/lower2device.cpp:67-79 | a clean body is left as it is |
| Lower.CleanBlockConcat | torch/csrc/jit/codegen/cuda/lower2device.cpp:115-123 | moving the else contents after clean then contents stays clean |
| Lower.CleanUpIdempotent | torch/csrc/jit/codegen/cuda/lower2device.cpp:43-54 | cleaning twice is cleaning once |
| Lower.CleanNopCases | torch/csrc/jit/codegen/cuda/lower2device.cpp:58-126 | plain expressions are never nop; a loop is nop iff its cleaned body is empty; a branch iff the blocks its constant predicate keeps are empty |
| Lower.Current | torch/csrc/jit/codegen/cuda/lower2device.cpp:331-335 | `current()` succeeds iff a lowering is active, returning it |
| Lower.Lower | torch/csrc/jit/codegen/cuda/lower2device.cpp:187-200 | nested lowering is refused; the guard is cleared on exit and the lowerer is current during the passes |
| Lower.SequentialLoweringsIndependent | torch/csrc/jit/codegen/cuda/lower2device.cpp:187-200 | a lowering after another, even a failed one, runs as the current one |
| Lower.AnyIffExists | torch/csrc/jit/codegen/cuda/lower2device.cpp:143-184 | the scan's predicate over the domains is an existential |
| Lower.ScanFlatSucceeds | torch/csrc/jit/codegen/cuda/lower2device.cpp:153-159 | the scan fails iff a domain padded to the warp is not TIDx |
| Lower.ScanFlatFlags | torch/csrc/jit/codegen/cuda/lower2device.cpp:145-159 | TIDx is padded iff some domain is; a warp reduction is flagged iff some tensor has one |
| Lower.ScanFlatSingleWarp | torch/csrc/jit/codegen/cuda/lower2device.cpp:161-182 | single warp iff nothing blocks it and some domain shows it |
| Lower.CollectPaddedParallelDimsSummary | torch/csrc/jit/codegen/cuda/lower2device.cpp:136-185 | succeeds iff every axis padded to a warp is TIDx; then TIDx is padded iff some axis is, single warp iff no axis blocks it and some axis shows it, and warp reduction iff some tensor has one |
| AliasOps.ApplyViewTransforms | torch/csrc/jit/codegen/cuda/ops/alias.cpp:28-51 | succeeds iff no computeAt, positive rank, no rfactor and some transform |
| AliasOps.View | torch/csrc/jit/codegen/cuda/ops/alias.cpp:55-59 | a rank that differs from the original sizes is an error |
| AliasOps.ViewStages | torch/csrc/jit/codegen/cuda/ops/alias.cpp:63-73 | sum, view and broadcast are applied exactly when trivial reductions, transforms or the broadcast flag ask for them |
| AliasOps.ViewRefusesComputeAt | torch/csrc/jit/codegen/cuda/ops/alias.cpp:28-73 | a view with transforms of a tensor with computeAt fails |
| AliasOps.SizeOneAxes | torch/csrc/jit/codegen/cuda/ops/alias.cpp:78-84 | exactly the axes of size 1, in increasing order |
| AliasOps.Squeeze | torch/csrc/jit/codegen/cuda/ops/alias.cpp:76-86 | a sum over exactly the size-1 axes in increasing order, or `x` when there are none |
| AliasOps.SqueezeDim | torch/csrc/jit/codegen/cuda/ops/alias.cpp:88-99 | succeeds iff the axis is within `[-rank, rank)`; sums that axis if its size is 1, else copies |
| AliasOps.NormalizeDimSpellings | torch/csrc/jit/codegen/cuda/ops/alias.cpp:90-93 | axis `d` is named exactly by `d` and `d - rank` |
| AliasOps.SqueezeDimAgrees | torch/csrc/jit/codegen/cuda/ops/alias.cpp:76-99 | with one size-1 axis, squeezing it by position agrees with squeezing by sizes |
| AliasOps.SizeOneAxesSingle | torch/csrc/jit/codegen/cuda/ops/alias.cpp:78-84 | a single size-1 axis is the only one listed |
| AliasOps.Unsqueeze | torch/csrc/jit/codegen/cuda/ops/alias.cpp:101-110 | succeeds iff the position is in `[-rank-1, rank]`; rank grows by one and the flag is set only at the new axis |
| AliasOps.NormalizeNewDimSpellings | torch/csrc/jit/codegen/cuda/ops/alias.cpp:102-105 | position `d` is named exactly by `d` and `d - rank - 1` |
| VersionMap.InitialShape | torch/csrc/jit/operator_upgraders/version_map.cpp:18-62 | the initial map holds exactly the listed operators with one upgrader each, and starts unsorted |
| VersionMap.InitialCount | torch/csrc/jit/operator_upgraders/version_map.cpp:18-62 | no operator is listed twice, so the map starts with eleven entries |
| VersionMap.InitialDivTensor | torch/csrc/jit/operator_upgraders/version_map.cpp:18-62 | the entry of `aten::div.Tensor` is bumped at version 4 |
| VersionMap.GetOperatorVersionMapAsWritten | torch/csrc/jit/operator_upgraders/version_map.cpp:64-78 | as written, the flag is set and every stored list is left as it was |
| VersionMap.GetAsWrittenLeavesUnsorted | torch/csrc/jit/operator_upgraders/version_map.cpp:66-77 | after a test appends a newer upgrader, the flag says sorted while the list is oldest first |
| VersionMap.GetAsWrittenTwice | torch/csrc/jit/operator_upgraders/version_map.cpp:64-78 | a second call is a pure read |
| VersionMap.AddEntry | torch/csrc/jit/operator_upgraders/version_map.cpp:80-83 | clears the flag and appends to the operator's list, creating it; others are unchanged |
| VersionMap.RemoveEntry | torch/csrc/jit/operator_upgraders/version_map.cpp:85-88 | clears the flag and erases only that operator |
| VersionMap.ResetFlag | torch/csrc/jit/operator_upgraders/version_map.cpp:90-92 | clears only the flag |
| VersionMap.TestOnlyKeepInv | torch/csrc/jit/operator_upgraders/version_map.cpp:80-92 | the test-only operations keep "sorted flag implies newest first" |
| VersionMap.InsertDescending | torch/csrc/jit/operator_upgraders/version_map.cpp:70-72 | insertion keeps newest first and adds exactly the entry |
| VersionMap.SortDescending | torch/csrc/jit/operator_upgraders/version_map.cpp:70-72 | the sort is newest first and a permutation |
| VersionMap.SortDescendingKeepsSorted | torch/csrc/jit/operator_upgraders/version_map.cpp:70-72 | a sorted list is left as it is |
| VersionMap.GetOperatorVersionMap | torch/csrc/jit/operator_upgraders/version_map.cpp:64-78 | the corrected read sorts every list newest first as a permutation and sets the flag |
| VersionMap.GetTwice | torch/csrc/jit/operator_upgraders/version_map.cpp:64-78 | a second corrected read is a pure read, and lists already newest first come back unchanged |
| VersionMap.GetSortsNewerFirst | torch/csrc/jit/operator_upgraders/version_map.cpp:66-77 | with the sort applied, the appended newer upgrader comes first |
| Wrappers.CollectAll | torch/csrc/jit/codegen/cuda/index_compute.cpp:2518-2645 | collecting per-loop results succeeds iff every one does, and then holds each result in order |

## Left out

- Reference replay (`IndexReferenceReplay`, `BestEffortReplay`, `TransformReplay`), the compute-at map, `HaloInfo` construction and `PairwiseRootDomainMap` are not part of this model. Their results are input tables: the reference axes, the consumer index maps, concrete axes, halo widths, trivial reductions, partial-split start offsets, parallel dimensions and the exact set.
- `ir_nodes.cpp` is not part of this model. `hasPadding` of a shift or gather and the gather window axes are read from the consumer's definition as given data.
- Magic-zero insertion, `vectorize_shift`, and the temporary parallelize/revert of producer axes are left out. Only the recognition of an index protected with the magic zero in `canOmitStopPredicate` is modelled.
- `SimplifyingIrBuilder` is modelled only as the literal folding the code's shape tests depend on; other simplifications it may perform are not modelled.
- Swizzle.LeafMerge: the forward merge of `UpdateLeafIndices` builds `inner * (outer * ext(inner))`, which is not a linearisation (`Swizzle.LeafMergeNotLinearisation`); it is modelled as written and no forward/backward merge round trip is stated through it.
- The passes of `GpuLower::lower` beyond the guard are a parameter (`passesFail`); `at::cuda::warp_size()` is a parameter.
- `rootPosOf` is modelled as the first position in a root domain; roots are duplicate-free in the fuser.
- Object identity of IR values is structural equality of expressions, which can only make equal more things than identity would.
- The kernel evaluator's precomputed-integers fast path is left out; it is a cache over the same values.
- The fusion IR's own expression evaluator used for constant extents is not part of this model; constant folding with nothing bound stands for it.
- Predicates.PredicateContigIds: that the covered sets of the predicated axes partition the root domain is not proved; the contract states bounds, exclusion and origin only.
- Predicates.ShiftOffsets: has no contract of its own; its meaning is stated through `Predicates.ShiftPredicateWindow`.
- Predicates.GatherOffsets: `Predicates.GatherGuardsBoth` requires the two pads together to be smaller than the window; wider paddings are not covered by that lemma.
- Predicates.RootPredicates: the stronger statement that each predicate comes from one predicated axis is proved for `Predicates.RootPredicatesOf` only.
- IndexCompute.UpdateIndexCompute: with contiguous roots requested its result is not stated beyond what `IndexCompute.Create` gives.
- ReplaceSize.SimplificationMapSpec: proved only when no extent is shared by axes of two different sets; otherwise the last set written wins, which depends on hash-map order.
- The mutation pass that applies the size map (`ValReplacementMutator`) is left out; only the map it is given is modelled.
- ParallelDims.ScanMultiple: the source loops over an `unordered_set` of concrete domains, whose order is not specified; the model scans them in the order of the given sequence. As every extent is compared only with the first one taken, and `equalDim` as written is not an equivalence, the verdict can depend on that order; the model fixes one order and states nothing about the others.
- KernelEvaluator.ApplyBinary: the evaluator computes on `Int::ScalarType`, a 64-bit signed integer, and signed overflow there is undefined behaviour. This covers `+`, `-`, `*`, the `a + b - 1` inside `ceilDiv` and `INT64_MIN / -1`. The model's values are unbounded integers, so results outside the 64-bit range, where the source is undefined, are not modelled. The same holds for `KernelEvaluator.Evaluate`, `IndexExpr.Eval` and `CArith.CeilDiv`.
- Lower.Lower: the lowered kernel itself is not modelled; only the guard's states are.

## Findings

| source | as written | input that shows it | evidently intended | confidence | as-written member | corrected member |
|---|---|---|---|---|---|---|
| torch/csrc/jit/codegen/cuda/parallel_dimension_map.cpp:70 | the constant set is looked up under the domain but created under its concrete domain, and a create does not overwrite | two TIDx domains mapped to one concrete domain with extents 4 and 8 record only `{4}` | look up and insert under the concrete domain, recording `{4, 8}` | not executed | ParallelDims.RegisterAsWrittenDropsConstant | ParallelDims.RegisteredConstantsFixed |
| torch/csrc/jit/codegen/cuda/parallel_dimension_map.cpp:301-305 | `equalDim` compares only input 0 of two definitions | `x + 1` and `x + 2` compare equal; with `x = 0` they are 1 and 2 | compare every input pairwise | not executed | ParallelDims.MultipleAsWrittenCallsDistinctExact | ParallelDims.MultipleExactExtentsAgree |
| torch/csrc/jit/operator_upgraders/version_map.cpp:67-74 | the sort runs on a per-iteration copy (`auto entry`), so stored lists are never sorted while the flag is set | `aten::div.Tensor` with a test-added entry bumped after version 4 stays oldest first | sort the stored lists newest first | not executed | VersionMap.GetAsWrittenLeavesUnsorted | VersionMap.GetSortsNewerFirst |
| torch/csrc/jit/codegen/cuda/index_compute.cpp:2608-2610 | a thread loop's unswitch stop index is its dimension less zero | TIDx loop with stop 10, which differs from the axis extent 8, and TIDx dimension 8: the stop predicate `8 < 8` fails although every thread `0..7` passes | dimension less one, the last thread, matching the extent−1 sentinel of other loops | not executed | Predicates.AsWrittenThreadBoundaryRejectsAllThreads | Predicates.ThreadBoundaryIsLastThread |

Each row has both halves in the model:
- `ParallelDims.Build` takes a `Reading`. `AsWritten` registers through `ParallelDims.RegisterConstantExtent` and compares extents with `ParallelDims.EqualDim`, as the source does. `Fixed` registers through `ParallelDims.RegisterConstantExtentFixed` and compares with `ParallelDims.EqualDimFixed`. Every property of `build` is stated for both readings unless its name or row says which one.
- `VersionMap.GetOperatorVersionMap` sorts the stored lists; `VersionMap.GetOperatorVersionMapAsWritten` does not.
- `Predicates.ReferenceLoopIndices` gives a thread loop the last thread as its stop index; `Predicates.ReferenceLoopIndicesAsWritten` gives it the whole dimension. `Predicates.RootPredicates` takes the start and stop index maps as parameters, so it holds for indices computed either way.
