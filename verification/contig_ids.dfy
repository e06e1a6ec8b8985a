/**
 * The contiguity finder: which axes of a tensor's history can be indexed as
 * one linear offset into memory. Roots flagged contiguous and free of halo
 * are the seeds; a merge joins its two inputs when both are contiguous and
 * their root inputs, outer's then inner's, are usable roots lying side by
 * side in root order. A joined output replaces its inputs and remembers the
 * axes it covers.
 */
module ContigIds {
  import opened Wrappers
  import opened Axes

  datatype ContigError = ContiguityMismatch | UnhandledExpr

  /**
   * The contiguous axes in insertion order, the axes each one covers, and
   * for every root whether it was seeded.
   */
  datatype ContigState = ContigState(contig: seq<Axis>, within: map<Axis, set<Axis>>, isContigRoot: map<Axis, bool>)

  const Empty := ContigState([], map[], map[])

  function Without(s: seq<Axis>, x: Axis): (r: seq<Axis>)
    ensures forall y :: y in r <==> y in s && y != x
  {
    if s == [] then [] else (if s[0] == x then [] else [s[0]]) + Without(s[1..], x)
  }

  /** Set insertion on an insertion-ordered sequence. */
  function Insert(s: seq<Axis>, x: Axis): (r: seq<Axis>)
    ensures forall y :: y in r <==> y in s || y == x
  {
    if x in s then s else s + [x]
  }

  /** The seeding of the first `n` roots. */
  function Seed(root: seq<Axis>, contiguity: seq<bool>, halo: set<Axis>, n: nat): ContigState
    requires |root| == |contiguity| && n <= |root|
    decreases n
  {
    if n == 0 then Empty
    else
      var st := Seed(root, contiguity, halo, n - 1);
      var a := root[n - 1];
      if contiguity[n - 1] && a !in halo then
        ContigState(Insert(st.contig, a), st.within[a := {}], st.isContigRoot[a := true])
      else
        ContigState(st.contig, st.within, st.isContigRoot[a := false])
  }

  /**
   * A root is seeded exactly when its contiguity flag is set and it has no
   * halo; nothing else is seeded, every root is recorded, and seeds cover
   * nothing yet.
   */
  lemma {:induction false} SeedSpec(root: seq<Axis>, contiguity: seq<bool>, halo: set<Axis>, n: nat)
    requires |root| == |contiguity| && n <= |root| && NoDuplicates(root)
    ensures var st := Seed(root, contiguity, halo, n);
      && (forall i :: 0 <= i < n ==> (root[i] in st.contig <==> contiguity[i] && root[i] !in halo))
      && (forall i :: 0 <= i < n ==> root[i] in st.isContigRoot && (st.isContigRoot[root[i]] <==> contiguity[i] && root[i] !in halo))
      && (forall x :: x in st.contig ==> x in root[..n] && x in st.within && st.within[x] == {})
    decreases n
  {
    if n > 0 {
      SeedSpec(root, contiguity, halo, n - 1);
      var st := Seed(root, contiguity, halo, n);
      forall i | 0 <= i < n - 1
        ensures root[i] in st.contig <==> contiguity[i] && root[i] !in halo
        ensures root[i] in st.isContigRoot && (st.isContigRoot[root[i]] <==> contiguity[i] && root[i] !in halo)
      {
        assert root[i] != root[n - 1];
      }
      forall x | x in st.contig
        ensures x in root[..n] && x in st.within && st.within[x] == {}
      {
        if x != root[n - 1] {
          assert x in Seed(root, contiguity, halo, n - 1).contig;
          assert root[..n - 1] <= root[..n];
        }
      }
    }
  }

  /** The first loop over the root copy: drop axes until the first ordered input is at the front. */
  function SkipToFirst(root: seq<Axis>, first: Axis): seq<Axis> {
    if root == [] || root[0] == first then root else SkipToFirst(root[1..], first)
  }

  /** The second loop: consume matching axes from both queues, returning the inputs left over. */
  function MatchPrefix(root: seq<Axis>, ordered: seq<Axis>): seq<Axis> {
    if root != [] && ordered != [] && root[0] == ordered[0] then MatchPrefix(root[1..], ordered[1..])
    else ordered
  }

  /** Whether the two loops consume every ordered input. */
  predicate RunMatches(root: seq<Axis>, ordered: seq<Axis>) {
    MatchPrefix(if ordered == [] then root else SkipToFirst(root, ordered[0]), ordered) == []
  }

  /** `ordered` occurs as one consecutive stretch of `root`. */
  ghost predicate IsRun(root: seq<Axis>, ordered: seq<Axis>) {
    exists i :: RunAt(root, ordered, i)
  }

  /** `ordered` occurs in `root` starting at position `i`. */
  ghost predicate RunAt(root: seq<Axis>, ordered: seq<Axis>, i: int) {
    0 <= i <= |root| - |ordered| && root[i..i + |ordered|] == ordered
  }

  lemma {:induction false} MatchPrefixSpec(root: seq<Axis>, ordered: seq<Axis>)
    ensures MatchPrefix(root, ordered) == [] <==> |ordered| <= |root| && root[..|ordered|] == ordered
    decreases |ordered|
  {
    if root != [] && ordered != [] && root[0] == ordered[0] {
      MatchPrefixSpec(root[1..], ordered[1..]);
      if |ordered| <= |root| && root[..|ordered|] == ordered {
        assert root[1..][..|ordered| - 1] == ordered[1..];
      }
      if |ordered| - 1 <= |root| - 1 && root[1..][..|ordered| - 1] == ordered[1..] {
        assert root[..|ordered|] == [root[0]] + root[1..][..|ordered| - 1];
        assert ordered == [ordered[0]] + ordered[1..];
      }
    } else if ordered != [] && root != [] && |ordered| <= |root| {
      assert root[..|ordered|][0] == root[0];
    }
  }

  /** The first position holding `first`, or the length when there is none. */
  function FirstIndex(root: seq<Axis>, first: Axis): (j: nat)
    ensures j <= |root| && (j < |root| ==> root[j] == first)
    ensures forall i :: 0 <= i < j ==> root[i] != first
  {
    if root == [] || root[0] == first then 0 else 1 + FirstIndex(root[1..], first)
  }

  lemma {:induction false} SkipToFirstIsSuffix(root: seq<Axis>, first: Axis)
    ensures SkipToFirst(root, first) == root[FirstIndex(root, first)..]
  {
    if !(root == [] || root[0] == first) {
      SkipToFirstIsSuffix(root[1..], first);
    }
  }

  /**
   * On a root order without duplicates the literal queue matching succeeds
   * exactly when the ordered inputs form one consecutive stretch of it.
   */
  lemma RunMatchesIffRun(root: seq<Axis>, ordered: seq<Axis>)
    requires NoDuplicates(root)
    ensures RunMatches(root, ordered) <==> IsRun(root, ordered)
  {
    if ordered == [] {
      MatchPrefixSpec(root, ordered);
      assert RunAt(root, ordered, 0);
    } else {
      var j := FirstIndex(root, ordered[0]);
      SkipToFirstIsSuffix(root, ordered[0]);
      MatchPrefixSpec(root[j..], ordered);
      if RunMatches(root, ordered) {
        assert root[j..j + |ordered|] == root[j..][..|ordered|];
        assert RunAt(root, ordered, j);
      }
      if IsRun(root, ordered) {
        var i :| RunAt(root, ordered, i);
        assert root[i] == root[i..i + |ordered|][0] == ordered[0];
        assert i == j;
        assert root[j..][..|ordered|] == root[j..j + |ordered|];
      }
    }
  }

  /** A seeded root; every root is recorded when seeding, so this is the source's `at` lookup. */
  predicate IsContigRoot(st: ContigState, a: Axis) {
    a in st.isContigRoot && st.isContigRoot[a]
  }

  /** Outer's root inputs then inner's, each in root order. */
  function OrderedInputs(h: seq<Transform>, k: nat, root: seq<Axis>, outer: Axis, inner: Axis): seq<Axis>
    requires k <= |h|
  {
    OrderedAs(root, InputsOf(h, k, outer)) + OrderedAs(root, InputsOf(h, k, inner))
  }

  /** The axes a contiguous axis covers, or none. */
  function WithinOf(st: ContigState, a: Axis): set<Axis> {
    if a in st.within then st.within[a] else {}
  }

  /** The conditions under which the merge at step `k` joins its inputs, as the handler tests them. */
  predicate Joins(h: seq<Transform>, k: nat, root: seq<Axis>, attrs: Attrs, st: ContigState, outer: Axis, inner: Axis)
    requires k <= |h|
  {
    var ordered := OrderedInputs(h, k, root, outer, inner);
    && inner in st.contig && outer in st.contig
    && (forall i :: 0 <= i < |ordered| ==>
          IsContigRoot(st, ordered[i]) && !IsBroadcast(attrs, ordered[i]) && !IsReduction(attrs, ordered[i]))
    && RunMatches(root, ordered)
  }

  /** The merge handler. */
  function MergeStep(h: seq<Transform>, k: nat, root: seq<Axis>, attrs: Attrs, st: ContigState, outer: Axis, inner: Axis, out: Axis): (r: ContigState)
    requires k <= |h|
    ensures !Joins(h, k, root, attrs, st, outer, inner) ==> r == st
    ensures Joins(h, k, root, attrs, st, outer, inner) ==>
      && (forall y :: y in r.contig <==> y == out || (y in st.contig && y != inner && y != outer))
      && out in r.within && r.within[out] == {inner, outer} + WithinOf(st, inner) + WithinOf(st, outer)
      && r.isContigRoot == st.isContigRoot
  {
    if !Joins(h, k, root, attrs, st, outer, inner) then st
    else Joined(st, outer, inner, out)
  }

  /** The state after a merge joins its two contiguous inputs into `out`. */
  function Joined(st: ContigState, outer: Axis, inner: Axis, out: Axis): (r: ContigState)
    ensures forall y :: y in r.contig <==> y == out || (y in st.contig && y != inner && y != outer)
    ensures out in r.within && r.within[out] == {inner, outer} + WithinOf(st, inner) + WithinOf(st, outer)
    ensures r.isContigRoot == st.isContigRoot
  {
    var withinOut := {inner} + WithinOf(st, inner) + {outer} + WithinOf(st, outer);
    ContigState(
      Insert(Without(Without(st.contig, inner), outer), out),
      (st.within - {inner, outer})[out := withinOut],
      st.isContigRoot)
  }

  /**
   * On a root order without duplicates a merge joins exactly when both
   * inputs are contiguous and its ordered root inputs are usable seeds
   * forming one consecutive stretch of the root order.
   */
  lemma JoinsIff(h: seq<Transform>, k: nat, root: seq<Axis>, attrs: Attrs, st: ContigState, outer: Axis, inner: Axis)
    requires k <= |h| && NoDuplicates(root)
    ensures var ordered := OrderedInputs(h, k, root, outer, inner);
      Joins(h, k, root, attrs, st, outer, inner) <==>
        && inner in st.contig && outer in st.contig
        && (forall x :: x in ordered ==> IsContigRoot(st, x) && !IsBroadcast(attrs, x) && !IsReduction(attrs, x))
        && IsRun(root, ordered)
  {
    RunMatchesIffRun(root, OrderedInputs(h, k, root, outer, inner));
  }

  /** One step of the walk: splits are ignored, merges handled, anything else refused. */
  function Step(h: seq<Transform>, k: nat, root: seq<Axis>, attrs: Attrs, st: ContigState): (r: Result<ContigState, ContigError>)
    requires k < |h|
    ensures h[k].Split? ==> r == Ok(st)
    ensures h[k].Other? ==> r == Err(UnhandledExpr)
  {
    match h[k]
    case Split(_, _, _, _) => Ok(st)
    case Merge(outer, inner, out) => Ok(MergeStep(h, k, root, attrs, st, outer, inner, out))
    case Other(_, _) => Err(UnhandledExpr)
  }

  /** The walk over the first `n` steps of the history. */
  function Walk(h: seq<Transform>, n: nat, root: seq<Axis>, attrs: Attrs, st0: ContigState): Result<ContigState, ContigError>
    requires n <= |h|
    decreases n
  {
    if n == 0 then Ok(st0)
    else
      var st :- Walk(h, n - 1, root, attrs, st0);
      Step(h, n - 1, root, attrs, st)
  }

  /**
   * `ContigIDs(ids, root, contiguity)`: nothing for an empty leaf list, a
   * failure when the contiguity flags do not match the roots, otherwise the
   * walk of the history from the seeds.
   */
  function FindContigIds(leafIds: seq<Axis>, root: seq<Axis>, contiguity: seq<bool>, halo: set<Axis>, h: seq<Transform>, attrs: Attrs): (r: Result<ContigState, ContigError>)
    ensures leafIds == [] ==> r == Ok(Empty)
    ensures leafIds != [] && |root| != |contiguity| ==> r == Err(ContiguityMismatch)
  {
    if leafIds == [] then Ok(Empty)
    else if |root| != |contiguity| then Err(ContiguityMismatch)
    else Walk(h, |h|, root, attrs, Seed(root, contiguity, halo, |root|))
  }

  /** An axis the history creates by a merge. */
  predicate IsMergeOutput(h: seq<Transform>, n: nat, x: Axis)
    requires n <= |h|
  {
    exists k :: 0 <= k < n && h[k].Merge? && h[k].out == x
  }

  /** One step adds at most the output of the merge it handles. */
  lemma StepOrigin(h: seq<Transform>, k: nat, root: seq<Axis>, attrs: Attrs, st: ContigState)
    requires k < |h| && Step(h, k, root, attrs, st).Ok?
    ensures forall x :: x in Step(h, k, root, attrs, st).value.contig ==> x in st.contig || (h[k].Merge? && x == h[k].out)
  {
  }

  /** A merge output of a prefix of the history is one of the whole. */
  lemma MergeOutputGrows(h: seq<Transform>, n: nat, x: Axis)
    requires n < |h|
    ensures IsMergeOutput(h, n, x) || (h[n].Merge? && h[n].out == x) ==> IsMergeOutput(h, n + 1, x)
  {
    if IsMergeOutput(h, n, x) {
      var k :| 0 <= k < n && h[k].Merge? && h[k].out == x;
      assert 0 <= k < n + 1;
    } else if h[n].Merge? && h[n].out == x {
      assert 0 <= n < n + 1;
    }
  }

  /** Every contiguous axis after a walk was already contiguous before it or is a merge output. */
  lemma {:induction false} WalkOrigin(h: seq<Transform>, n: nat, root: seq<Axis>, attrs: Attrs, st0: ContigState)
    requires n <= |h| && Walk(h, n, root, attrs, st0).Ok?
    ensures forall x :: x in Walk(h, n, root, attrs, st0).value.contig ==> x in st0.contig || IsMergeOutput(h, n, x)
    decreases n
  {
    if n > 0 {
      WalkOrigin(h, n - 1, root, attrs, st0);
      var st := Walk(h, n - 1, root, attrs, st0).value;
      StepOrigin(h, n - 1, root, attrs, st);
      forall x | x in Walk(h, n, root, attrs, st0).value.contig
        ensures x in st0.contig || IsMergeOutput(h, n, x)
      {
        MergeOutputGrows(h, n - 1, x);
      }
    }
  }

  /** The walk succeeds whenever the history holds only splits and merges. */
  lemma {:induction false} WalkSucceeds(h: seq<Transform>, n: nat, root: seq<Axis>, attrs: Attrs, st0: ContigState)
    requires n <= |h| && forall k :: 0 <= k < n ==> !h[k].Other?
    ensures Walk(h, n, root, attrs, st0).Ok?
    decreases n
  {
    if n > 0 {
      WalkSucceeds(h, n - 1, root, attrs, st0);
    }
  }

  /** Every contiguous axis keeps a record of the axes it covers. */
  lemma {:induction false} WalkKeepsCovered(h: seq<Transform>, n: nat, root: seq<Axis>, attrs: Attrs, st0: ContigState)
    requires n <= |h| && Walk(h, n, root, attrs, st0).Ok?
    requires forall x :: x in st0.contig ==> x in st0.within
    ensures forall x :: x in Walk(h, n, root, attrs, st0).value.contig ==> x in Walk(h, n, root, attrs, st0).value.within
    decreases n
  {
    if n > 0 {
      WalkKeepsCovered(h, n - 1, root, attrs, st0);
    }
  }

  /**
   * What the finder returns: every contiguous axis is a seeded root or a
   * merge output, so no split output is ever contiguous; with a history of
   * splits and merges only and matching flags it never fails.
   */
  lemma FindContigIdsOrigin(leafIds: seq<Axis>, root: seq<Axis>, contiguity: seq<bool>, halo: set<Axis>, h: seq<Transform>, attrs: Attrs)
    requires NoDuplicates(root)
    ensures |root| == |contiguity| && (forall k :: 0 <= k < |h| ==> !h[k].Other?) ==>
      FindContigIds(leafIds, root, contiguity, halo, h, attrs).Ok?
    ensures var r := FindContigIds(leafIds, root, contiguity, halo, h, attrs);
      r.Ok? ==> forall x :: x in r.value.contig ==>
        && x in r.value.within
        && ((exists i :: 0 <= i < |root| && root[i] == x && contiguity[i] && x !in halo) || IsMergeOutput(h, |h|, x))
  {
    var r := FindContigIds(leafIds, root, contiguity, halo, h, attrs);
    if leafIds != [] && |root| == |contiguity| {
      var seed := Seed(root, contiguity, halo, |root|);
      SeedSpec(root, contiguity, halo, |root|);
      if forall k :: 0 <= k < |h| ==> !h[k].Other? {
        WalkSucceeds(h, |h|, root, attrs, seed);
      }
      if r.Ok? {
        WalkOrigin(h, |h|, root, attrs, seed);
        WalkKeepsCovered(h, |h|, root, attrs, seed);
        forall x | x in r.value.contig
          ensures x in r.value.within
          ensures (exists i :: 0 <= i < |root| && root[i] == x && contiguity[i] && x !in halo) || IsMergeOutput(h, |h|, x)
        {
          if x in seed.contig {
            assert root[..|root|] == root;
            var i :| 0 <= i < |root| && root[i] == x;
            assert contiguity[i] && x !in halo;
          }
        }
      }
    }
  }
}
