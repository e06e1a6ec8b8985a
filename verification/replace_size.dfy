/**
 * Symbolic size replacement. Root domains of producers and consumers that
 * the pairwise root map relates are joined into disjoint sets; each set
 * picks a representative among the root domains of the fusion's inputs; the
 * extents of a set are mapped to its representative's extent. Input (and,
 * when the fusion has no inputs, output) tensors name their symbolic root
 * extents `T<tensor>.size[<dim>]`, and an extent that simplifies to a named
 * representative takes the representative's name.
 */
module ReplaceSize {
  import opened Wrappers
  import opened Ir
  import opened Names

  datatype IterType = IterationIter | ReductionIter | BroadcastWithStride | BroadcastWithoutStride

  /** A root iteration domain: its name, extent, iteration type and whether it is produced by an rfactor. */
  datatype RootId = RootId(name: nat, extent: Val, iterType: IterType, rfactorProduct: bool)

  predicate IsBroadcast(id: RootId) {
    id.iterType == BroadcastWithStride || id.iterType == BroadcastWithoutStride
  }

  predicate IsReduction(id: RootId) {
    id.iterType == ReductionIter
  }

  // ---------------------------------------------------------------------
  // Disjoint sets of root domains
  // ---------------------------------------------------------------------

  /** The list of disjoint sets, each under a handle, and the set each mapped domain points to. */
  datatype DisjointSets = DisjointSets(sets: map<nat, set<RootId>>, owner: map<RootId, nat>, next: nat)

  const NoSets := DisjointSets(map[], map[], 0)

  /** Every mapped domain points to a set holding it, every member of a set points to it, and fresh handles are unused. */
  predicate WellFormed(ds: DisjointSets) {
    && (forall id :: id in ds.owner ==> ds.owner[id] in ds.sets && id in ds.sets[ds.owner[id]])
    && (forall s, id :: s in ds.sets && id in ds.sets[s] ==> id in ds.owner && ds.owner[id] == s)
    && (forall s :: s in ds.sets ==> s < ds.next)
  }

  /** The set a domain belongs to; a domain that was never mapped is alone. */
  function Class(ds: DisjointSets, x: RootId): set<RootId> {
    if x in ds.owner && ds.owner[x] in ds.sets then ds.sets[ds.owner[x]] else {x}
  }

  predicate SameSet(ds: DisjointSets, x: RootId, y: RootId) {
    x in ds.owner && y in ds.owner && ds.owner[x] == ds.owner[y]
  }

  /**
   * `map_root_ids`: a pair with a broadcast is ignored; two domains already
   * in one set change nothing; two sets are joined by moving every member of
   * the second into the first and deleting the second; a domain joins the
   * set of the other; two unmapped domains form a new set.
   */
  function MapRootIds(ds: DisjointSets, a: RootId, b: RootId): (r: DisjointSets)
    requires WellFormed(ds)
    ensures IsBroadcast(a) || IsBroadcast(b) ==> r == ds
    ensures a in ds.owner && b in ds.owner && ds.owner[a] != ds.owner[b] && !IsBroadcast(a) && !IsBroadcast(b) ==>
      && r.sets.Keys == ds.sets.Keys - {ds.owner[b]}
      && r.sets[ds.owner[a]] == ds.sets[ds.owner[a]] + ds.sets[ds.owner[b]]
  {
    if IsBroadcast(a) || IsBroadcast(b) then ds
    else if a in ds.owner && b in ds.owner then
      var s0 := ds.owner[a];
      var s1 := ds.owner[b];
      if s0 == s1 then ds
      else
        var moved := ds.sets[s1];
        DisjointSets(
          (ds.sets - {s1})[s0 := ds.sets[s0] + moved],
          map id | id in ds.owner :: if id in moved then s0 else ds.owner[id],
          ds.next)
    else if a in ds.owner || b in ds.owner then
      var s := if a in ds.owner then ds.owner[a] else ds.owner[b];
      var add := if a in ds.owner then b else a;
      DisjointSets(ds.sets[s := ds.sets[s] + {add}], ds.owner[add := s], ds.next)
    else
      DisjointSets(ds.sets[ds.next := {a, b}], ds.owner[a := ds.next][b := ds.next], ds.next + 1)
  }

  lemma MapRootIdsWellFormed(ds: DisjointSets, a: RootId, b: RootId)
    requires WellFormed(ds)
    ensures WellFormed(MapRootIds(ds, a, b))
  {
    var r := MapRootIds(ds, a, b);
    if !IsBroadcast(a) && !IsBroadcast(b) && a in ds.owner && b in ds.owner && ds.owner[a] != ds.owner[b] {
      var s0 := ds.owner[a];
      var s1 := ds.owner[b];
      forall id | id in r.owner
        ensures r.owner[id] in r.sets && id in r.sets[r.owner[id]]
      {
        if id in ds.sets[s1] {
        } else {
          assert ds.owner[id] != s1;
        }
      }
      forall s, id | s in r.sets && id in r.sets[s]
        ensures id in r.owner && r.owner[id] == s
      {
        if s == s0 {
          if id in ds.sets[s0] {
            assert ds.owner[id] == s0;
          }
        } else {
          assert id in ds.sets[s] && ds.owner[id] == s;
          assert id !in ds.sets[s1];
        }
      }
    }
  }

  /**
   * After mapping two non-broadcast domains they are in one set: the union of
   * the sets they were in, every other set staying as it was.
   */
  lemma MapRootIdsClasses(ds: DisjointSets, a: RootId, b: RootId, x: RootId)
    requires WellFormed(ds) && !IsBroadcast(a) && !IsBroadcast(b)
    ensures var r := MapRootIds(ds, a, b);
      && SameSet(r, a, b)
      && r.owner.Keys == ds.owner.Keys + {a, b}
      && Class(r, x) == if x in Class(ds, a) + Class(ds, b) then Class(ds, a) + Class(ds, b) else Class(ds, x)
  {
    if a in ds.owner && b in ds.owner {
      if ds.owner[a] != ds.owner[b] {
        MergeClasses(ds, a, b, x);
      }
    } else if a in ds.owner || b in ds.owner {
      JoinClasses(ds, a, b, x);
    } else {
      NewClass(ds, a, b, x);
    }
  }

  /** Joining two different sets: members of either end up in the union. */
  lemma MergeClasses(ds: DisjointSets, a: RootId, b: RootId, x: RootId)
    requires WellFormed(ds) && !IsBroadcast(a) && !IsBroadcast(b)
    requires a in ds.owner && b in ds.owner && ds.owner[a] != ds.owner[b]
    ensures var r := MapRootIds(ds, a, b);
      && SameSet(r, a, b)
      && r.owner.Keys == ds.owner.Keys + {a, b}
      && Class(r, x) == if x in Class(ds, a) + Class(ds, b) then Class(ds, a) + Class(ds, b) else Class(ds, x)
  {
    MapRootIdsWellFormed(ds, a, b);
    if x in ds.owner {
      var t := ds.owner[x];
      if t != ds.owner[a] && t != ds.owner[b] {
        assert x !in ds.sets[ds.owner[b]];
        assert x !in ds.sets[ds.owner[a]];
      }
    }
  }

  /** Adding a new domain to the set of the other. */
  lemma JoinClasses(ds: DisjointSets, a: RootId, b: RootId, x: RootId)
    requires WellFormed(ds) && !IsBroadcast(a) && !IsBroadcast(b)
    requires (a in ds.owner) != (b in ds.owner)
    ensures var r := MapRootIds(ds, a, b);
      && SameSet(r, a, b)
      && r.owner.Keys == ds.owner.Keys + {a, b}
      && Class(r, x) == if x in Class(ds, a) + Class(ds, b) then Class(ds, a) + Class(ds, b) else Class(ds, x)
  {
    var s := if a in ds.owner then ds.owner[a] else ds.owner[b];
    if x in ds.owner && ds.owner[x] != s {
      assert x !in ds.sets[s];
    }
  }

  /** Two new domains make a new set. */
  lemma NewClass(ds: DisjointSets, a: RootId, b: RootId, x: RootId)
    requires WellFormed(ds) && !IsBroadcast(a) && !IsBroadcast(b)
    requires a !in ds.owner && b !in ds.owner
    ensures var r := MapRootIds(ds, a, b);
      && SameSet(r, a, b)
      && r.owner.Keys == ds.owner.Keys + {a, b}
      && Class(r, x) == if x in Class(ds, a) + Class(ds, b) then Class(ds, a) + Class(ds, b) else Class(ds, x)
  {
    if x in ds.owner {
      assert ds.owner[x] < ds.next;
    }
  }

  /** Mapping more pairs never separates domains already in one set. */
  lemma MapRootIdsKeepsSameSet(ds: DisjointSets, a: RootId, b: RootId, x: RootId, y: RootId)
    requires WellFormed(ds) && SameSet(ds, x, y)
    ensures SameSet(MapRootIds(ds, a, b), x, y)
  {
  }

  /** The pair loop of `getSimplificationMap`: each related (producer, consumer) root pair is mapped in turn. */
  function MapAll(ds: DisjointSets, pairs: seq<(RootId, RootId)>): (r: DisjointSets)
    requires WellFormed(ds)
    ensures WellFormed(r)
    decreases |pairs|
  {
    if pairs == [] then ds
    else
      MapRootIdsWellFormed(ds, pairs[0].0, pairs[0].1);
      MapAll(MapRootIds(ds, pairs[0].0, pairs[0].1), pairs[1..])
  }

  lemma {:induction false} MapAllKeepsSameSet(ds: DisjointSets, pairs: seq<(RootId, RootId)>, x: RootId, y: RootId)
    requires WellFormed(ds) && SameSet(ds, x, y)
    ensures SameSet(MapAll(ds, pairs), x, y)
    decreases |pairs|
  {
    if pairs != [] {
      MapRootIdsWellFormed(ds, pairs[0].0, pairs[0].1);
      MapRootIdsKeepsSameSet(ds, pairs[0].0, pairs[0].1, x, y);
      MapAllKeepsSameSet(MapRootIds(ds, pairs[0].0, pairs[0].1), pairs[1..], x, y);
    }
  }

  /** Every related pair without a broadcast ends up in one set. */
  lemma {:induction false} MapAllJoinsPairs(ds: DisjointSets, pairs: seq<(RootId, RootId)>, i: nat)
    requires WellFormed(ds) && i < |pairs|
    requires !IsBroadcast(pairs[i].0) && !IsBroadcast(pairs[i].1)
    ensures SameSet(MapAll(ds, pairs), pairs[i].0, pairs[i].1)
    decreases |pairs|
  {
    MapRootIdsWellFormed(ds, pairs[0].0, pairs[0].1);
    var ds1 := MapRootIds(ds, pairs[0].0, pairs[0].1);
    if i == 0 {
      MapRootIdsClasses(ds, pairs[0].0, pairs[0].1, pairs[0].0);
      MapAllKeepsSameSet(ds1, pairs[1..], pairs[0].0, pairs[0].1);
    } else {
      MapAllJoinsPairs(ds1, pairs[1..], i - 1);
    }
  }

  // ---------------------------------------------------------------------
  // Representatives
  // ---------------------------------------------------------------------

  /** The swap test as written: a smaller name or a constant extent over a symbolic one, but never a symbolic extent over a constant one. */
  predicate SwapAsWritten(id: RootId, cur: RootId) {
    var swap := id.name < cur.name || (IsConstScalar(id.extent) && !IsConstScalar(cur.extent));
    swap && !(IsConstScalar(cur.extent) && !IsConstScalar(id.extent))
  }

  /** The preference the test implements: a constant extent first, then the smaller name. */
  predicate Better(id: RootId, cur: RootId) {
    if IsConstScalar(id.extent) != IsConstScalar(cur.extent) then IsConstScalar(id.extent)
    else id.name < cur.name
  }

  lemma SwapIsBetter(id: RootId, cur: RootId)
    ensures SwapAsWritten(id, cur) <==> Better(id, cur)
  {
  }

  lemma BetterTransitive(a: RootId, b: RootId, c: RootId)
    requires Better(a, b) && Better(b, c)
    ensures Better(a, c)
  {
  }

  /** The representative chosen for each set, and the order in which sets first got one. */
  datatype Reps = Reps(rep: map<nat, RootId>, order: seq<nat>)

  function ChooseStep(ds: DisjointSets, reps: Reps, id: RootId): Reps {
    if id !in ds.owner then reps
    else
      var s := ds.owner[id];
      if s !in reps.rep then Reps(reps.rep[s := id], reps.order + [s])
      else if SwapAsWritten(id, reps.rep[s]) then Reps(reps.rep[s := id], reps.order)
      else reps
  }

  function ChooseAll(ds: DisjointSets, reps: Reps, cands: seq<RootId>): Reps
    decreases |cands|
  {
    if cands == [] then reps else ChooseAll(ds, ChooseStep(ds, reps, cands[0]), cands[1..])
  }

  /** The candidates: the non-reduction root domains of the fusion's input tensors, in order. */
  function Candidates(inputs: seq<seq<RootId>>): (r: seq<RootId>)
    ensures forall i :: 0 <= i < |r| ==> !IsReduction(r[i])
    ensures forall t, j :: 0 <= t < |inputs| && 0 <= j < |inputs[t]| && !IsReduction(inputs[t][j]) ==> inputs[t][j] in r
    decreases |inputs|
  {
    if inputs == [] then []
    else NonReduction(inputs[0]) + Candidates(inputs[1..])
  }

  function NonReduction(ids: seq<RootId>): (r: seq<RootId>)
    ensures forall i :: 0 <= i < |r| ==> !IsReduction(r[i])
    ensures forall x :: x in r <==> x in ids && !IsReduction(x)
    decreases |ids|
  {
    if ids == [] then []
    else (if IsReduction(ids[0]) then [] else [ids[0]]) + NonReduction(ids[1..])
  }

  predicate NoDuplicates<T(==)>(s: seq<T>) {
    forall i, j :: 0 <= i < j < |s| ==> s[i] != s[j]
  }

  /**
   * What the choice loop keeps after seeing `seen`: each chosen
   * representative is a seen domain of its set; each seen domain's set has
   * one, which the domain does not beat; the order lists the chosen sets once.
   */
  predicate ChoiceInv(ds: DisjointSets, reps: Reps, seen: seq<RootId>) {
    && (forall s :: s in reps.rep ==> reps.rep[s] in seen && reps.rep[s] in ds.owner && ds.owner[reps.rep[s]] == s)
    && (forall c :: c in seen && c in ds.owner ==> ds.owner[c] in reps.rep && !Better(c, reps.rep[ds.owner[c]]))
    && (forall s :: s in reps.rep ==> s in reps.order)
    && (forall i :: 0 <= i < |reps.order| ==> reps.order[i] in reps.rep)
    && NoDuplicates(reps.order)
  }

  lemma ChooseStepInv(ds: DisjointSets, reps: Reps, seen: seq<RootId>, id: RootId)
    requires ChoiceInv(ds, reps, seen)
    ensures ChoiceInv(ds, ChooseStep(ds, reps, id), seen + [id])
  {
    if id !in ds.owner {
      ChooseKeepInv(ds, reps, seen, id);
    } else {
      var s := ds.owner[id];
      if s !in reps.rep {
        ChooseNewSetInv(ds, reps, seen, id);
      } else if SwapAsWritten(id, reps.rep[s]) {
        ChooseSwapInv(ds, reps, seen, id);
      } else {
        ChooseKeepInv(ds, reps, seen, id);
      }
    }
  }

  /** A domain that is in no set, or does not beat its set's representative, changes nothing. */
  lemma ChooseKeepInv(ds: DisjointSets, reps: Reps, seen: seq<RootId>, id: RootId)
    requires ChoiceInv(ds, reps, seen)
    requires id in ds.owner ==> ds.owner[id] in reps.rep && !SwapAsWritten(id, reps.rep[ds.owner[id]])
    ensures ChoiceInv(ds, reps, seen + [id])
  {
    var seen' := seen + [id];
    forall c | c in seen' && c in ds.owner
      ensures ds.owner[c] in reps.rep && !Better(c, reps.rep[ds.owner[c]])
    {
      if c == id {
        SwapIsBetter(id, reps.rep[ds.owner[id]]);
      }
    }
  }

  /** The first domain of a set becomes its representative and the set joins the order. */
  lemma ChooseNewSetInv(ds: DisjointSets, reps: Reps, seen: seq<RootId>, id: RootId)
    requires ChoiceInv(ds, reps, seen)
    requires id in ds.owner && ds.owner[id] !in reps.rep
    ensures ChoiceInv(ds, ChooseStep(ds, reps, id), seen + [id])
  {
    var s := ds.owner[id];
    assert s !in reps.order;
  }

  /** A domain that beats its set's representative replaces it. */
  lemma ChooseSwapInv(ds: DisjointSets, reps: Reps, seen: seq<RootId>, id: RootId)
    requires ChoiceInv(ds, reps, seen)
    requires id in ds.owner && ds.owner[id] in reps.rep && SwapAsWritten(id, reps.rep[ds.owner[id]])
    ensures ChoiceInv(ds, ChooseStep(ds, reps, id), seen + [id])
  {
    var s := ds.owner[id];
    var r := ChooseStep(ds, reps, id);
    var seen' := seen + [id];
    SwapIsBetter(id, reps.rep[s]);
    forall c | c in seen' && c in ds.owner
      ensures ds.owner[c] in r.rep && !Better(c, r.rep[ds.owner[c]])
    {
      if c != id && ds.owner[c] == s && Better(c, id) {
        BetterTransitive(c, id, reps.rep[s]);
      }
    }
  }

  lemma {:induction false} ChooseAllInv(ds: DisjointSets, reps: Reps, seen: seq<RootId>, cands: seq<RootId>)
    requires ChoiceInv(ds, reps, seen)
    ensures ChoiceInv(ds, ChooseAll(ds, reps, cands), seen + cands)
    decreases |cands|
  {
    if cands != [] {
      ChooseStepInv(ds, reps, seen, cands[0]);
      ChooseAllInv(ds, ChooseStep(ds, reps, cands[0]), seen + [cands[0]], cands[1..]);
      assert seen + [cands[0]] + cands[1..] == seen + cands;
    }
  }

  /** The representatives `getSimplificationMap` picks. */
  function ChooseRepresentatives(ds: DisjointSets, inputs: seq<seq<RootId>>): Reps {
    ChooseAll(ds, Reps(map[], []), Candidates(inputs))
  }

  /**
   * A set gets a representative exactly when one of its members is a
   * candidate; the representative is such a member, and no candidate of the
   * set beats it: a constant extent is preferred, then the smaller name.
   */
  lemma RepresentativeIsBest(ds: DisjointSets, inputs: seq<seq<RootId>>, s: nat)
    ensures var reps := ChooseRepresentatives(ds, inputs);
      var cands := Candidates(inputs);
      && (s in reps.rep <==> exists c :: c in cands && c in ds.owner && ds.owner[c] == s)
      && (s in reps.rep ==>
            && reps.rep[s] in cands && !IsReduction(reps.rep[s]) && reps.rep[s] in ds.owner && ds.owner[reps.rep[s]] == s
            && (forall c :: c in cands && c in ds.owner && ds.owner[c] == s ==>
                  && (IsConstScalar(c.extent) ==> IsConstScalar(reps.rep[s].extent))
                  && (IsConstScalar(c.extent) == IsConstScalar(reps.rep[s].extent) ==> reps.rep[s].name <= c.name)))
  {
    var cands := Candidates(inputs);
    ChooseAllInv(ds, Reps(map[], []), [], cands);
    assert [] + cands == cands;
    var reps := ChooseRepresentatives(ds, inputs);
    if s in reps.rep {
      var rp := reps.rep[s];
      assert rp in cands && rp in ds.owner && ds.owner[rp] == s;
    }
  }

  // ---------------------------------------------------------------------
  // The simplification map
  // ---------------------------------------------------------------------

  function MemberExtents(members: set<RootId>): set<Val> {
    set id | id in members :: id.extent
  }

  /** The extents of one set, each mapped to its representative's extent. */
  function SetExtentMap(ds: DisjointSets, reps: Reps, s: nat): map<Val, Val>
    requires s in ds.sets && s in reps.rep
  {
    map e | e in MemberExtents(ds.sets[s]) :: reps.rep[s].extent
  }

  /** The final loop: every set with a representative maps its members' extents; a later set overrides an earlier one on a shared extent. */
  function ExtentMapFrom(ds: DisjointSets, reps: Reps, acc: map<Val, Val>, order: seq<nat>): map<Val, Val>
    requires forall i :: 0 <= i < |order| ==> order[i] in ds.sets && order[i] in reps.rep
    decreases |order|
  {
    if order == [] then acc
    else ExtentMapFrom(ds, reps, acc + SetExtentMap(ds, reps, order[0]), order[1..])
  }

  /** No extent is shared by members of two different sets. */
  predicate ExtentsSeparate(ds: DisjointSets) {
    forall s, t, x, y :: s in ds.sets && t in ds.sets && x in ds.sets[s] && y in ds.sets[t] && x.extent == y.extent ==> s == t
  }

  lemma {:induction false} ExtentMapFromSpec(ds: DisjointSets, reps: Reps, acc: map<Val, Val>, order: seq<nat>, s: nat, id: RootId)
    requires forall i :: 0 <= i < |order| ==> order[i] in ds.sets && order[i] in reps.rep
    requires ExtentsSeparate(ds)
    requires s in order && id in ds.sets[s]
    ensures id.extent in ExtentMapFrom(ds, reps, acc, order)
    ensures ExtentMapFrom(ds, reps, acc, order)[id.extent] == reps.rep[s].extent
    decreases |order|
  {
    var acc1 := acc + SetExtentMap(ds, reps, order[0]);
    if order[0] == s {
      assert id.extent in MemberExtents(ds.sets[s]);
      if s in order[1..] {
        ExtentMapFromSpec(ds, reps, acc1, order[1..], s, id);
      } else {
        ExtentMapFromKeeps(ds, reps, acc1, order[1..], s, id);
      }
    } else {
      ExtentMapFromSpec(ds, reps, acc1, order[1..], s, id);
    }
  }

  /** An extent no later set holds keeps its entry. */
  lemma {:induction false} ExtentMapFromKeeps(ds: DisjointSets, reps: Reps, acc: map<Val, Val>, order: seq<nat>, s: nat, x: RootId)
    requires forall i :: 0 <= i < |order| ==> order[i] in ds.sets && order[i] in reps.rep
    requires ExtentsSeparate(ds)
    requires x.extent in acc && s in ds.sets && x in ds.sets[s] && s !in order
    ensures x.extent in ExtentMapFrom(ds, reps, acc, order)
    ensures ExtentMapFrom(ds, reps, acc, order)[x.extent] == acc[x.extent]
    decreases |order|
  {
    if order != [] {
      var t := order[0];
      assert t in order;
      assert x.extent !in MemberExtents(ds.sets[t]);
      var acc1 := acc + SetExtentMap(ds, reps, t);
      assert acc1[x.extent] == acc[x.extent];
      assert s !in order[1..];
      ExtentMapFromKeeps(ds, reps, acc1, order[1..], s, x);
    }
  }

  /** `getSimplificationMap`: the extent map of the sets built from the related pairs, over the representatives of the inputs. */
  function SimplificationMap(pairs: seq<(RootId, RootId)>, inputs: seq<seq<RootId>>): map<Val, Val> {
    var ds := MapAll(NoSets, pairs);
    var reps := ChooseRepresentatives(ds, inputs);
    RepsInSets(ds, inputs);
    ExtentMapFrom(ds, reps, map[], reps.order)
  }

  lemma RepsInSets(ds: DisjointSets, inputs: seq<seq<RootId>>)
    requires WellFormed(ds)
    ensures var reps := ChooseRepresentatives(ds, inputs);
      forall i :: 0 <= i < |reps.order| ==> reps.order[i] in ds.sets && reps.order[i] in reps.rep
  {
    ChooseAllInv(ds, Reps(map[], []), [], Candidates(inputs));
  }

  /**
   * When no extent is shared across sets, the extent of every member of a
   * set with a representative maps to the representative's extent.
   */
  lemma SimplificationMapSpec(pairs: seq<(RootId, RootId)>, inputs: seq<seq<RootId>>, s: nat, id: RootId)
    requires var ds := MapAll(NoSets, pairs); ExtentsSeparate(ds) && s in ds.sets && id in ds.sets[s]
    requires s in ChooseRepresentatives(MapAll(NoSets, pairs), inputs).rep
    ensures id.extent in SimplificationMap(pairs, inputs)
    ensures SimplificationMap(pairs, inputs)[id.extent] == ChooseRepresentatives(MapAll(NoSets, pairs), inputs).rep[s].extent
  {
    var ds := MapAll(NoSets, pairs);
    var reps := ChooseRepresentatives(ds, inputs);
    RepsInSets(ds, inputs);
    assert SimplificationMap(pairs, inputs) == ExtentMapFrom(ds, reps, map[], reps.order);
    RepresentativeExtents(ds, inputs, s, id);
  }

  /** The extent map over the chosen representatives of any well-formed sets. */
  lemma RepresentativeExtents(ds: DisjointSets, inputs: seq<seq<RootId>>, s: nat, id: RootId)
    requires WellFormed(ds) && ExtentsSeparate(ds) && s in ds.sets && id in ds.sets[s]
    requires s in ChooseRepresentatives(ds, inputs).rep
    requires var reps := ChooseRepresentatives(ds, inputs);
      forall i :: 0 <= i < |reps.order| ==> reps.order[i] in ds.sets && reps.order[i] in reps.rep
    ensures var reps := ChooseRepresentatives(ds, inputs);
      id.extent in ExtentMapFrom(ds, reps, map[], reps.order)
      && ExtentMapFrom(ds, reps, map[], reps.order)[id.extent] == reps.rep[s].extent
  {
    var reps := ChooseRepresentatives(ds, inputs);
    ChooseAllInv(ds, Reps(map[], []), [], Candidates(inputs));
    ExtentMapFromSpec(ds, reps, map[], reps.order, s, id);
  }

  // ---------------------------------------------------------------------
  // Naming symbolic sizes
  // ---------------------------------------------------------------------

  datatype Tensor = Tensor(name: nat, root: seq<RootId>)

  datatype FusionVal = TensorVal(tv: Tensor) | ScalarVal(v: Val)

  datatype Fusion = Fusion(inputs: seq<FusionVal>, outputs: seq<FusionVal>)

  function TensorsOf(vs: seq<FusionVal>): (r: seq<Tensor>)
    ensures forall t :: t in r <==> TensorVal(t) in vs
    decreases |vs|
  {
    if vs == [] then []
    else (if vs[0].TensorVal? then [vs[0].tv] else []) + TensorsOf(vs[1..])
  }

  /** The tensors whose sizes get names: the input tensors, and the output tensors too when the fusion has no inputs at all. */
  function NamedTensors(f: Fusion): (r: seq<Tensor>)
    ensures f.inputs != [] ==> (forall t :: t in r <==> TensorVal(t) in f.inputs)
    ensures f.inputs == [] ==> (forall t :: t in r <==> TensorVal(t) in f.outputs)
  {
    TensorsOf(f.inputs) + (if f.inputs == [] then TensorsOf(f.outputs) else [])
  }

  predicate IsFusionInput(f: Fusion, v: Val) {
    ScalarVal(v) in f.inputs
  }

  /** Domains that are not an output dimension: reductions and broadcasts without stride. */
  predicate Skipped(id: RootId) {
    IsReduction(id) || id.iterType == BroadcastWithoutStride
  }

  /** Dimensions that count but never get a name of their own. */
  predicate CountedOnly(id: RootId) {
    id.rfactorProduct || id.iterType == BroadcastWithStride || IsConstScalar(id.extent)
  }

  /** A dimension whose extent gets a name, unless it already has one. */
  predicate Nameable(f: Fusion, id: RootId) {
    !Skipped(id) && !CountedOnly(id) && !IsFusionInput(f, id.extent)
  }

  /** The output dimension number of root domain `j`: the domains before it that are not skipped. */
  function DimIndex(root: seq<RootId>, j: nat): nat
    requires j <= |root|
  {
    if j == 0 then 0 else DimIndex(root, j - 1) + (if Skipped(root[j - 1]) then 0 else 1)
  }

  function SizeScalar(tv: nat, dim: nat, e: Val): Val {
    NamedScalar(SizeName(tv, dim), DataTypeOf(e))
  }

  /** The root loop of one tensor, from domain `j`, whose dimension number is `dim`. */
  function NameRoot(f: Fusion, tv: Tensor, j: nat, dim: nat, tdm: map<Val, Val>): map<Val, Val>
    requires j <= |tv.root|
    decreases |tv.root| - j
  {
    if j == |tv.root| then tdm
    else
      var id := tv.root[j];
      if Skipped(id) then NameRoot(f, tv, j + 1, dim, tdm)
      else if CountedOnly(id) then NameRoot(f, tv, j + 1, dim + 1, tdm)
      else if id.extent !in tdm && !IsFusionInput(f, id.extent) && !IsConstScalar(id.extent) then
        NameRoot(f, tv, j + 1, dim + 1, tdm[id.extent := SizeScalar(tv.name, dim, id.extent)])
      else NameRoot(f, tv, j + 1, dim + 1, tdm)
  }

  /**
   * The root loop keeps existing names; every nameable extent ends up
   * named; and every new name is `T<tensor>.size[<dim>]` for a nameable
   * domain with that extent, `<dim>` counting the domains before it that
   * are not skipped.
   */
  lemma {:induction false} NameRootSpec(f: Fusion, tv: Tensor, j: nat, tdm: map<Val, Val>)
    requires j <= |tv.root|
    ensures var r := NameRoot(f, tv, j, DimIndex(tv.root, j), tdm);
      && (forall e :: e in tdm ==> e in r && r[e] == tdm[e])
      && (forall k :: j <= k < |tv.root| && Nameable(f, tv.root[k]) ==> tv.root[k].extent in r)
      && (forall e :: e in r && e !in tdm ==>
            exists k :: j <= k < |tv.root| && Nameable(f, tv.root[k]) && tv.root[k].extent == e &&
              r[e] == SizeScalar(tv.name, DimIndex(tv.root, k), e))
    decreases |tv.root| - j
  {
    if j < |tv.root| {
      var id := tv.root[j];
      var dim := DimIndex(tv.root, j);
      assert DimIndex(tv.root, j + 1) == dim + (if Skipped(id) then 0 else 1);
      var tdm1 := if !Skipped(id) && !CountedOnly(id) && id.extent !in tdm && !IsFusionInput(f, id.extent) && !IsConstScalar(id.extent)
        then tdm[id.extent := SizeScalar(tv.name, dim, id.extent)] else tdm;
      NameRootSpec(f, tv, j + 1, tdm1);
      var r := NameRoot(f, tv, j, dim, tdm);
      assert r == NameRoot(f, tv, j + 1, DimIndex(tv.root, j + 1), tdm1);
      forall e | e in r && e !in tdm
        ensures exists k :: (j <= k < |tv.root| && Nameable(f, tv.root[k]) && tv.root[k].extent == e &&
          r[e] == SizeScalar(tv.name, DimIndex(tv.root, k), e))
      {
        if e in tdm1 {
          assert tv.root[j].extent == e && r[e] == tdm1[e];
        }
      }
    }
  }

  /** The tensor loop of `replaceSymbolicSizes`. */
  function NameAll(f: Fusion, tvs: seq<Tensor>, tdm: map<Val, Val>): map<Val, Val>
    decreases |tvs|
  {
    if tvs == [] then tdm else NameAll(f, tvs[1..], NameRoot(f, tvs[0], 0, 0, tdm))
  }

  /** Every name given is a size name of a nameable domain of one of the tensors; every nameable extent gets a name. */
  lemma {:induction false} NameAllSpec(f: Fusion, tvs: seq<Tensor>, tdm: map<Val, Val>)
    ensures var r := NameAll(f, tvs, tdm);
      && (forall e :: e in tdm ==> e in r && r[e] == tdm[e])
      && (forall t, k :: 0 <= t < |tvs| && 0 <= k < |tvs[t].root| && Nameable(f, tvs[t].root[k]) ==> tvs[t].root[k].extent in r)
      && (forall e :: e in r && e !in tdm ==>
            exists t, k :: 0 <= t < |tvs| && 0 <= k < |tvs[t].root| && Nameable(f, tvs[t].root[k]) &&
              tvs[t].root[k].extent == e && r[e] == SizeScalar(tvs[t].name, DimIndex(tvs[t].root, k), e))
    decreases |tvs|
  {
    if tvs != [] {
      var tdm1 := NameRoot(f, tvs[0], 0, 0, tdm);
      assert DimIndex(tvs[0].root, 0) == 0;
      NameRootSpec(f, tvs[0], 0, tdm);
      NameAllSpec(f, tvs[1..], tdm1);
      var r := NameAll(f, tvs, tdm);
      forall t, k | 0 <= t < |tvs| && 0 <= k < |tvs[t].root| && Nameable(f, tvs[t].root[k])
        ensures tvs[t].root[k].extent in r
      {
        if t > 0 {
          assert tvs[t] == tvs[1..][t - 1];
        }
      }
      forall e | e in r && e !in tdm
        ensures exists t, k :: (0 <= t < |tvs| && 0 <= k < |tvs[t].root| && Nameable(f, tvs[t].root[k]) &&
          tvs[t].root[k].extent == e && r[e] == SizeScalar(tvs[t].name, DimIndex(tvs[t].root, k), e))
      {
        if e in tdm1 {
          var k :| 0 <= k < |tvs[0].root| && Nameable(f, tvs[0].root[k]) && tvs[0].root[k].extent == e &&
            tdm1[e] == SizeScalar(tvs[0].name, DimIndex(tvs[0].root, k), e);
          assert r[e] == tdm1[e];
        } else {
          var t, k :| 0 <= t < |tvs[1..]| && 0 <= k < |tvs[1..][t].root| && Nameable(f, tvs[1..][t].root[k]) &&
            tvs[1..][t].root[k].extent == e && r[e] == SizeScalar(tvs[1..][t].name, DimIndex(tvs[1..][t].root, k), e);
          assert tvs[1..][t] == tvs[t + 1];
        }
      }
    }
  }

  // ---------------------------------------------------------------------
  // Composition with the simplification map
  // ---------------------------------------------------------------------

  /**
   * A named extent that simplifies to another extent takes that extent's
   * name when it has one, and the simplified extent itself otherwise; the
   * others keep their names.
   */
  function Compose(tdm: map<Val, Val>, simp: map<Val, Val>): (r: map<Val, Val>)
    ensures r.Keys == tdm.Keys
  {
    map e | e in tdm :: if e in simp then (if simp[e] in tdm then tdm[simp[e]] else simp[e]) else tdm[e]
  }

  /** The composition loop run in a given order over the simplification map's entries. */
  function ComposeInOrder(tdm: map<Val, Val>, simp: map<Val, Val>, keys: seq<Val>): map<Val, Val>
    requires forall i :: 0 <= i < |keys| ==> keys[i] in simp
    decreases |keys|
  {
    if keys == [] then tdm
    else
      var orig := keys[0];
      var tdm1 := if orig in tdm then tdm[orig := if simp[orig] in tdm then tdm[simp[orig]] else simp[orig]] else tdm;
      ComposeInOrder(tdm1, simp, keys[1..])
  }

  /** Every simplified extent simplifies to itself. */
  predicate TargetsFixed(simp: map<Val, Val>) {
    forall e :: e in simp ==> simp[e] in simp && simp[simp[e]] == simp[e]
  }

  lemma {:induction false} ComposeInOrderSpec(tdm0: map<Val, Val>, tdm: map<Val, Val>, simp: map<Val, Val>, keys: seq<Val>)
    requires TargetsFixed(simp) && NoDuplicates(keys)
    requires forall i :: 0 <= i < |keys| ==> keys[i] in simp
    requires tdm.Keys == tdm0.Keys
    requires forall e :: e in tdm && e in keys ==> tdm[e] == tdm0[e]
    requires forall e :: e in tdm && e !in keys ==> tdm[e] == Compose(tdm0, simp)[e]
    requires forall e :: e in simp && simp[e] in tdm ==> tdm[simp[e]] == tdm0[simp[e]]
    ensures ComposeInOrder(tdm, simp, keys) == Compose(tdm0, simp)
    decreases |keys|
  {
    if keys == [] {
    } else {
      var orig := keys[0];
      var tdm1 := if orig in tdm then tdm[orig := if simp[orig] in tdm then tdm[simp[orig]] else simp[orig]] else tdm;
      assert forall i :: 0 <= i < |keys[1..]| ==> keys[1..][i] == keys[i + 1];
      forall e | e in simp && simp[e] in tdm1
        ensures tdm1[simp[e]] == tdm0[simp[e]]
      {
        if simp[e] == orig && orig in tdm {
          assert simp[orig] == orig;
        }
      }
      ComposeInOrderSpec(tdm0, tdm1, simp, keys[1..]);
    }
  }

  /**
   * Because every target simplifies to itself, running the loop over the
   * entries in any order gives the simultaneous composition.
   */
  lemma ComposeOrderIrrelevant(tdm: map<Val, Val>, simp: map<Val, Val>, keys: seq<Val>)
    requires TargetsFixed(simp) && NoDuplicates(keys)
    requires forall e :: e in simp <==> e in keys
    ensures ComposeInOrder(tdm, simp, keys) == Compose(tdm, simp)
  {
    ComposeInOrderSpec(tdm, tdm, simp, keys);
  }

  /** With separate extents every representative's extent simplifies to itself. */
  lemma SimplificationTargetsFixed(pairs: seq<(RootId, RootId)>, inputs: seq<seq<RootId>>)
    requires ExtentsSeparate(MapAll(NoSets, pairs))
    ensures TargetsFixed(SimplificationMap(pairs, inputs))
  {
    var ds := MapAll(NoSets, pairs);
    var reps := ChooseRepresentatives(ds, inputs);
    var simp := SimplificationMap(pairs, inputs);
    RepsInSets(ds, inputs);
    ChooseAllInv(ds, Reps(map[], []), [], Candidates(inputs));
    forall e | e in simp
      ensures simp[e] in simp && simp[simp[e]] == simp[e]
    {
      ExtentMapOrigin(ds, reps, map[], reps.order, e);
      var s, id :| s in reps.order && id in ds.sets[s] && id.extent == e;
      SimplificationMapSpec(pairs, inputs, s, id);
      var rp := reps.rep[s];
      assert rp in ds.owner && ds.owner[rp] == s;
      SimplificationMapSpec(pairs, inputs, s, rp);
    }
  }

  /** Every entry of the extent map comes from a member of a set in the order, unless it was there before. */
  lemma {:induction false} ExtentMapOrigin(ds: DisjointSets, reps: Reps, acc: map<Val, Val>, order: seq<nat>, e: Val)
    requires forall i :: 0 <= i < |order| ==> order[i] in ds.sets && order[i] in reps.rep
    requires e in ExtentMapFrom(ds, reps, acc, order)
    ensures e in acc || exists s, id :: s in order && id in ds.sets[s] && id.extent == e
    decreases |order|
  {
    if order != [] {
      var acc1 := acc + SetExtentMap(ds, reps, order[0]);
      ExtentMapOrigin(ds, reps, acc1, order[1..], e);
      if e !in acc && e in acc1 {
        var id :| id in ds.sets[order[0]] && id.extent == e;
        assert order[0] in order;
      }
    }
  }

  /**
   * `replaceSymbolicSizes` up to the mutation pass: name the sizes of the
   * named tensors, then compose with the simplification map.
   */
  function ReplaceSymbolicSizes(f: Fusion, pairs: seq<(RootId, RootId)>): map<Val, Val> {
    var tdm := NameAll(f, NamedTensors(f), map[]);
    var inputRoots := seq(|TensorsOf(f.inputs)|, i requires 0 <= i < |TensorsOf(f.inputs)| => TensorsOf(f.inputs)[i].root);
    Compose(tdm, SimplificationMap(pairs, inputRoots))
  }

  /**
   * Named extents of one set end up with one replacement, the
   * representative's name when it has one.
   */
  lemma OneSetOneReplacement(f: Fusion, pairs: seq<(RootId, RootId)>, s: nat, x: RootId, y: RootId)
    requires var ds := MapAll(NoSets, pairs); ExtentsSeparate(ds) && s in ds.sets && x in ds.sets[s] && y in ds.sets[s]
    requires var inputRoots := seq(|TensorsOf(f.inputs)|, i requires 0 <= i < |TensorsOf(f.inputs)| => TensorsOf(f.inputs)[i].root);
      s in ChooseRepresentatives(MapAll(NoSets, pairs), inputRoots).rep
    requires var tdm := NameAll(f, NamedTensors(f), map[]); x.extent in tdm && y.extent in tdm
    ensures ReplaceSymbolicSizes(f, pairs)[x.extent] == ReplaceSymbolicSizes(f, pairs)[y.extent]
  {
    var inputRoots := seq(|TensorsOf(f.inputs)|, i requires 0 <= i < |TensorsOf(f.inputs)| => TensorsOf(f.inputs)[i].root);
    SimplificationMapSpec(pairs, inputRoots, s, x);
    SimplificationMapSpec(pairs, inputRoots, s, y);
  }

  // ---------------------------------------------------------------------
  // Leaf outputs
  // ---------------------------------------------------------------------

  predicate IsInputOfAny(exprs: seq<ExprNode>, v: Val) {
    exists i :: 0 <= i < |exprs| && v in exprs[i].inputs
  }

  predicate IsOutputOfAny(exprs: seq<ExprNode>, v: Val) {
    exists i :: 0 <= i < |exprs| && v in exprs[i].outputs
  }

  /** The outputs of the expressions, in production order. */
  function OrderedOutputs(exprs: seq<ExprNode>): seq<Val>
    decreases |exprs|
  {
    if exprs == [] then [] else exprs[0].outputs + OrderedOutputs(exprs[1..])
  }

  /** The ordered outputs are exactly the outputs of some expression. */
  lemma {:induction false} OrderedOutputsMembers(exprs: seq<ExprNode>, v: Val)
    ensures v in OrderedOutputs(exprs) <==> IsOutputOfAny(exprs, v)
    decreases |exprs|
  {
    if exprs != [] {
      OrderedOutputsMembers(exprs[1..], v);
      if IsOutputOfAny(exprs[1..], v) {
        var i :| 0 <= i < |exprs[1..]| && v in exprs[1..][i].outputs;
        assert exprs[1..][i] == exprs[i + 1];
      }
      if IsOutputOfAny(exprs, v) && v !in exprs[0].outputs {
        var i :| 0 <= i < |exprs| && v in exprs[i].outputs;
        assert exprs[1..][i - 1] == exprs[i];
      }
    }
  }

  function Filter(s: seq<Val>, drop: set<Val>): (r: seq<Val>)
    ensures forall v :: v in r <==> v in s && v !in drop
    decreases |s|
  {
    if s == [] then []
    else (if s[0] in drop then [] else [s[0]]) + Filter(s[1..], drop)
  }

  /** `a` is `b` with some elements left out, the rest in the same order. */
  predicate IsSubsequence(a: seq<Val>, b: seq<Val>)
    decreases |b|
  {
    if a == [] then true
    else if b == [] then false
    else (a[0] == b[0] && IsSubsequence(a[1..], b[1..])) || IsSubsequence(a, b[1..])
  }

  lemma {:induction false} FilterIsSubsequence(s: seq<Val>, drop: set<Val>)
    ensures IsSubsequence(Filter(s, drop), s)
    decreases |s|
  {
    if s != [] {
      FilterIsSubsequence(s[1..], drop);
      var r := Filter(s, drop);
      if s[0] !in drop {
        assert r[0] == s[0] && r[1..] == Filter(s[1..], drop);
        assert IsSubsequence(r[1..], s[1..]);
      } else {
        assert r == Filter(s[1..], drop);
        if r != [] {
          assert IsSubsequence(r, s[1..]);
        }
      }
    }
  }

  function AllInputs(exprs: seq<ExprNode>): set<Val> {
    set i, v | 0 <= i < |exprs| && v in exprs[i].inputs :: v
  }

  /**
   * `allLeafOuts`: the outputs that no expression uses as an input, in
   * production order.
   */
  function AllLeafOuts(exprs: seq<ExprNode>): (r: seq<Val>)
    ensures forall v :: v in r <==> IsOutputOfAny(exprs, v) && !IsInputOfAny(exprs, v)
  {
    var ins := AllInputs(exprs);
    assert forall v :: v in ins <==> IsInputOfAny(exprs, v) by {
      forall v ensures v in ins <==> IsInputOfAny(exprs, v) {
        if IsInputOfAny(exprs, v) {
          var i :| 0 <= i < |exprs| && v in exprs[i].inputs;
          assert v in ins;
        }
      }
    }
    assert forall v :: v in OrderedOutputs(exprs) <==> IsOutputOfAny(exprs, v) by {
      forall v ensures v in OrderedOutputs(exprs) <==> IsOutputOfAny(exprs, v) {
        OrderedOutputsMembers(exprs, v);
      }
    }
    Filter(OrderedOutputs(exprs), ins)
  }

  /** The leaf outputs keep the order the outputs are produced in. */
  lemma LeafOutsInOrder(exprs: seq<ExprNode>)
    ensures IsSubsequence(AllLeafOuts(exprs), OrderedOutputs(exprs))
  {
    FilterIsSubsequence(OrderedOutputs(exprs), AllInputs(exprs));
  }
}
