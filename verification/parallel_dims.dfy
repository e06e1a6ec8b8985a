/**
 * The parallel dimension map: for every thread parallel type used by the
 * fusion, the value that stands for its launch dimension and whether that
 * value is exact, meaning every domain bound to the type has exactly that
 * extent. Constants found in domain extents are collected per concrete
 * domain, the concrete domains of each thread type are compared, and TIDx is
 * finally adjusted when it is padded to a multiple of the warp.
 */
module ParallelDims {
  import opened Wrappers
  import opened Ir
  import opened CArith
  import KernelEvaluator
  import Lower

  /** An iteration domain: its handle, parallel type, extent and whether it is a broadcast. */
  datatype IterDom = IterDom(id: nat, parallel: ParallelType, extent: Val, isBroadcast: bool)

  /** The dimension recorded for a thread type: a constant, or the launch-dimension scalar of the type. */
  datatype Dim = ConstDim(n: int) | ParallelDim(pt: ParallelType)

  datatype DimMap = DimMap(dims: map<ParallelType, Dim>, exact: set<ParallelType>)

  datatype PdError = InvalidParallelType | MissingTidxDim

  /** An ordered set of constants, as a strictly increasing sequence: its length is the set's size and its first element the set's first. */
  predicate Increasing(s: seq<int>) {
    forall i, j :: 0 <= i < j < |s| ==> s[i] < s[j]
  }

  function Elems(s: seq<int>): set<int> {
    set x | x in s
  }

  /** Inserting into an ordered set. */
  function Insert(s: seq<int>, c: int): (r: seq<int>)
    ensures r != []
    decreases |s|
  {
    if s == [] then [c]
    else if c < s[0] then [c] + s
    else if c == s[0] then s
    else [s[0]] + Insert(s[1..], c)
  }

  lemma ElemsCons(x: int, t: seq<int>)
    ensures Elems([x] + t) == {x} + Elems(t)
  {
    assert forall y :: y in [x] + t <==> y == x || y in t;
  }

  /** Insertion adds exactly the new constant. */
  lemma {:induction false} InsertElems(s: seq<int>, c: int)
    ensures Elems(Insert(s, c)) == Elems(s) + {c}
    decreases |s|
  {
    if s == [] {
    } else if c < s[0] {
      ElemsCons(c, s);
    } else if c == s[0] {
    } else {
      assert s == [s[0]] + s[1..];
      InsertElems(s[1..], c);
      ElemsCons(s[0], s[1..]);
      ElemsCons(s[0], Insert(s[1..], c));
    }
  }

  lemma IncreasingCons(x: int, t: seq<int>)
    requires Increasing(t)
    requires forall y :: y in t ==> x < y
    ensures Increasing([x] + t)
  {
    var r := [x] + t;
    forall i, j | 0 <= i < j < |r|
      ensures r[i] < r[j]
    {
      if i == 0 {
        assert r[j] == t[j - 1] && t[j - 1] in t;
      } else {
        assert r[i] == t[i - 1] && r[j] == t[j - 1];
      }
    }
  }

  /** Insertion keeps the order. */
  lemma {:induction false} InsertSpec(s: seq<int>, c: int)
    requires Increasing(s)
    ensures Increasing(Insert(s, c))
    ensures Elems(Insert(s, c)) == Elems(s) + {c}
    decreases |s|
  {
    InsertElems(s, c);
    if s == [] {
    } else if c < s[0] {
      IncreasingCons(c, s);
    } else if c == s[0] {
    } else {
      var tail := s[1..];
      assert Increasing(tail);
      InsertSpec(tail, c);
      var t := Insert(tail, c);
      forall x | x in t
        ensures s[0] < x
      {
        assert x in Elems(t);
        if x != c {
          assert x in Elems(tail);
          var i :| 0 <= i < |tail| && tail[i] == x;
          assert s[i + 1] == x;
        }
      }
      IncreasingCons(s[0], t);
    }
  }

  /** The constant extents seen for each concrete domain, by domain handle. */
  type ConstMap = map<nat, seq<int>>

  /** Every recorded set is ordered and holds at least one constant, as the map is only ever created with one. */
  predicate ConstMapOk(cm: ConstMap) {
    forall k :: k in cm ==> cm[k] != [] && Increasing(cm[k])
  }

  /** The concrete domain an id is mapped to by the compute-at map, given as a table; an unmapped id is its own. */
  function Concrete(ca: map<nat, IterDom>, d: IterDom): IterDom {
    if d.id in ca then ca[d.id] else d
  }

  // ---------------------------------------------------------------------
  // Constant extents
  // ---------------------------------------------------------------------

  /**
   * The constant a domain contributes: its extent's constant value, unless
   * the extent has no constant value or is built from a literal one (likely
   * a size-one broadcast, which says nothing about the dimension).
   */
  function ExtentConstant(d: IterDom): (r: Option<int>)
    ensures r.Some? ==> KernelEvaluator.ConstantValue(d.extent) == r
    ensures r.Some? ==> forall l :: l in Leaves(d.extent) ==> !IsOneInt(l)
  {
    var c := KernelEvaluator.ConstantValue(d.extent);
    if c.None? then None
    else if exists l :: l in Leaves(d.extent) && IsOneInt(l) then None
    else c
  }

  /**
   * The two readings of this file's defects: the code as written, and the
   * code as evidently intended (the constant set looked up under the key it
   * is kept under, and extents compared input by input).
   */
  datatype Reading = AsWritten | Fixed

  /** A recorded set for the domain `k`, when one exists, is kept under a domain that is its own concrete domain. */
  predicate KeysConcrete(cm: ConstMap, ca: map<nat, IterDom>) {
    forall k :: k in cm && k in ca ==> ca[k].id == k
  }

  /** The compute-at map sends a concrete domain to itself. */
  predicate ConcreteOfConcrete(ca: map<nat, IterDom>) {
    forall j :: j in ca && ca[j].id in ca ==> ca[ca[j].id].id == ca[j].id
  }

  /**
   * `registerConstantExtent` as written: it looks the map up under the
   * domain's own handle but creates the entry under the concrete domain's
   * handle. When the domain has its own entry the constant joins it; when
   * only the concrete domain has one, the map's insert keeps the old entry
   * and the new constant is lost.
   */
  function RegisterConstantExtent(cm: ConstMap, ca: map<nat, IterDom>, d: IterDom): (r: ConstMap)
    requires ConstMapOk(cm)
    ensures ConstMapOk(r)
    ensures ExtentConstant(d).None? ==> r == cm
    ensures ExtentConstant(d).Some? && d.id in cm ==>
      && r.Keys == cm.Keys
      && (forall k :: Lookup(r, k) == Lookup(cm, k) + (if k == d.id then {ExtentConstant(d).value} else {}))
    ensures ExtentConstant(d).Some? && d.id !in cm && Concrete(ca, d).id in cm ==> r == cm
    ensures ExtentConstant(d).Some? && d.id !in cm && Concrete(ca, d).id !in cm ==>
      && (forall k :: k in r <==> k in cm || k == Concrete(ca, d).id)
      && (forall k :: Lookup(r, k) == Lookup(cm, k) + (if k == Concrete(ca, d).id then {ExtentConstant(d).value} else {}))
  {
    var c := ExtentConstant(d);
    if c.None? then cm
    else
      var key := Concrete(ca, d).id;
      if d.id in cm then InsertSpec(cm[d.id], c.value); cm[d.id := Insert(cm[d.id], c.value)]
      else if key in cm then cm
      else InsertSpec([], c.value); cm[key := [c.value]]
  }

  /** `registerConstantExtent` looking the entry up under the same concrete handle it is kept under. */
  function RegisterConstantExtentFixed(cm: ConstMap, ca: map<nat, IterDom>, d: IterDom): (r: ConstMap)
    requires ConstMapOk(cm)
    ensures ConstMapOk(r)
    ensures ExtentConstant(d).None? ==> r == cm
    ensures ExtentConstant(d).Some? ==>
      var key := Concrete(ca, d).id;
      && (forall k :: k in r <==> k in cm || k == key)
      && (forall k :: Lookup(r, k) == Lookup(cm, k) + (if k == key then {ExtentConstant(d).value} else {}))
  {
    var c := ExtentConstant(d);
    if c.None? then cm
    else
      var key := Concrete(ca, d).id;
      InsertSpec(if key in cm then cm[key] else [], c.value);
      cm[key := Insert(if key in cm then cm[key] else [], c.value)]
  }

  /** The registration of one domain under a reading. */
  function RegisterWith(rd: Reading, cm: ConstMap, ca: map<nat, IterDom>, d: IterDom): (r: ConstMap)
    requires ConstMapOk(cm)
    ensures ConstMapOk(r)
  {
    if rd == AsWritten then RegisterConstantExtent(cm, ca, d) else RegisterConstantExtentFixed(cm, ca, d)
  }

  /** The registration half of the domain loop of `build`: every domain of every tensor, in order. */
  function RegisterAll(rd: Reading, cm: ConstMap, ca: map<nat, IterDom>, ds: seq<IterDom>): (r: ConstMap)
    requires ConstMapOk(cm)
    ensures ConstMapOk(r)
    decreases |ds|
  {
    if ds == [] then cm else RegisterAll(rd, RegisterWith(rd, cm, ca, ds[0]), ca, ds[1..])
  }

  /** A second constant for a concrete domain, reached through another domain, is dropped by the code as written. */
  lemma RegisterAsWrittenDropsConstant()
    ensures var concrete := IterDom(0, TIDx, IntScalar(10, Some(4)), false);
      var d1 := IterDom(1, TIDx, IntScalar(11, Some(4)), false);
      var d2 := IterDom(2, TIDx, IntScalar(12, Some(8)), false);
      var ca := map[1 := concrete, 2 := concrete];
      && RegisterAll(AsWritten, map[], ca, [d1, d2]) == map[0 := [4]]
      && RegisterAll(Fixed, map[], ca, [d1, d2]) == map[0 := [4, 8]]
      && PopulateSingle(TIDx, concrete, RegisterAll(AsWritten, map[], ca, [d1, d2])) == PtDim(ConstDim(4), true)
      && PopulateSingle(TIDx, concrete, RegisterAll(Fixed, map[], ca, [d1, d2])) == PtDim(ParallelDim(TIDx), false)
  {
    var d1 := IterDom(1, TIDx, IntScalar(11, Some(4)), false);
    var d2 := IterDom(2, TIDx, IntScalar(12, Some(8)), false);
    assert Leaves(d1.extent) == {d1.extent};
    assert Leaves(d2.extent) == {d2.extent};
    assert ExtentConstant(d1) == Some(4);
    assert ExtentConstant(d2) == Some(8);
    var ca := map[1 := IterDom(0, TIDx, IntScalar(10, Some(4)), false), 2 := IterDom(0, TIDx, IntScalar(10, Some(4)), false)];
    assert [d1, d2][1..] == [d2] && [d2][1..] == [];
    assert Insert([], 4) == [4];
    var cmA := RegisterConstantExtent(map[], ca, d1);
    assert cmA == map[0 := [4]];
    assert RegisterAll(AsWritten, map[], ca, [d1, d2]) == RegisterAll(AsWritten, cmA, ca, [d2]);
    assert d2.id !in cmA && Concrete(ca, d2).id in cmA;
    assert RegisterWith(AsWritten, cmA, ca, d2) == cmA;
    assert RegisterAll(AsWritten, cmA, ca, [d2]) == RegisterAll(AsWritten, cmA, ca, []);
    var cmF := RegisterConstantExtentFixed(map[], ca, d1);
    assert cmF == map[0 := [4]];
    assert RegisterAll(Fixed, map[], ca, [d1, d2]) == RegisterAll(Fixed, cmF, ca, [d2]);
    assert Insert([4], 8) == [4] + Insert([], 8) == [4, 8];
    assert RegisterWith(Fixed, cmF, ca, d2) == map[0 := [4, 8]];
  }

  /** The constants recorded for a concrete domain; none when it has no entry. */
  function Lookup(cm: ConstMap, k: nat): set<int> {
    if k in cm then Elems(cm[k]) else {}
  }

  /** The constants the domains of `ds` contribute to the concrete domain `k`. */
  function Contributed(ca: map<nat, IterDom>, ds: seq<IterDom>, k: nat): set<int> {
    set i | 0 <= i < |ds| && Concrete(ca, ds[i]).id == k && ExtentConstant(ds[i]).Some? :: ExtentConstant(ds[i]).value
  }

  lemma ContributedCons(ca: map<nat, IterDom>, ds: seq<IterDom>, k: nat)
    requires ds != []
    ensures Contributed(ca, ds, k) ==
      (if Concrete(ca, ds[0]).id == k && ExtentConstant(ds[0]).Some? then {ExtentConstant(ds[0]).value} else {}) +
      Contributed(ca, ds[1..], k)
  {
    var tail := ds[1..];
    assert forall i :: 0 <= i < |tail| ==> tail[i] == ds[i + 1];
    forall c | c in Contributed(ca, ds, k)
      ensures c in Contributed(ca, tail, k) || (ContributesFirst(ca, ds, k) && c == ExtentConstant(ds[0]).value)
    {
      var i :| 0 <= i < |ds| && Concrete(ca, ds[i]).id == k && ExtentConstant(ds[i]).Some? && c == ExtentConstant(ds[i]).value;
      if i > 0 {
        assert c == ExtentConstant(tail[i - 1]).value;
      }
    }
    forall c | c in Contributed(ca, tail, k)
      ensures c in Contributed(ca, ds, k)
    {
      var i :| 0 <= i < |tail| && Concrete(ca, tail[i]).id == k && ExtentConstant(tail[i]).Some? && c == ExtentConstant(tail[i]).value;
      assert c == ExtentConstant(ds[i + 1]).value;
    }
    if ContributesFirst(ca, ds, k) {
      assert ExtentConstant(ds[0]).value in Contributed(ca, ds, k);
    }
  }

  predicate ContributesFirst(ca: map<nat, IterDom>, ds: seq<IterDom>, k: nat)
    requires ds != []
  {
    Concrete(ca, ds[0]).id == k && ExtentConstant(ds[0]).Some?
  }

  /**
   * With the corrected lookup, after registering a list of domains a
   * concrete domain holds exactly the constants it held before and those
   * contributed by the domains mapped to it.
   */
  lemma {:induction false} RegisterAllFixedContents(cm: ConstMap, ca: map<nat, IterDom>, ds: seq<IterDom>)
    requires ConstMapOk(cm)
    ensures forall k :: Lookup(RegisterAll(Fixed, cm, ca, ds), k) == Lookup(cm, k) + Contributed(ca, ds, k)
    decreases |ds|
  {
    if ds != [] {
      var cm1 := RegisterConstantExtentFixed(cm, ca, ds[0]);
      RegisterAllFixedContents(cm1, ca, ds[1..]);
      forall k
        ensures Lookup(RegisterAll(Fixed, cm, ca, ds), k) == Lookup(cm, k) + Contributed(ca, ds, k)
      {
        ContributedCons(ca, ds, k);
        assert Lookup(cm1, k) == Lookup(cm, k) + (if ContributesFirst(ca, ds, k) then {ExtentConstant(ds[0]).value} else {});
      }
    }
  }

  /** In words, for the corrected lookup: a constant is recorded for `k` exactly when some domain mapped to `k` contributes it. */
  lemma RegisteredConstantsFixed(ca: map<nat, IterDom>, ds: seq<IterDom>, k: nat, c: int)
    ensures (k in RegisterAll(Fixed, map[], ca, ds) && c in RegisterAll(Fixed, map[], ca, ds)[k]) <==>
      exists i :: 0 <= i < |ds| && Concrete(ca, ds[i]).id == k && ExtentConstant(ds[i]) == Some(c)
  {
    RegisterAllFixedContents(map[], ca, ds);
    assert Lookup(RegisterAll(Fixed, map[], ca, ds), k) == Contributed(ca, ds, k);
    assert k in RegisterAll(Fixed, map[], ca, ds) ==> (c in RegisterAll(Fixed, map[], ca, ds)[k] <==> c in Lookup(RegisterAll(Fixed, map[], ca, ds), k));
    if c in Contributed(ca, ds, k) {
      var i :| 0 <= i < |ds| && Concrete(ca, ds[i]).id == k && ExtentConstant(ds[i]).Some? && c == ExtentConstant(ds[i]).value;
      assert ExtentConstant(ds[i]) == Some(c);
    }
    if exists i :: 0 <= i < |ds| && Concrete(ca, ds[i]).id == k && ExtentConstant(ds[i]) == Some(c) {
      var i :| 0 <= i < |ds| && Concrete(ca, ds[i]).id == k && ExtentConstant(ds[i]) == Some(c);
      assert c == ExtentConstant(ds[i]).value;
    }
  }

  /** Two constant maps with the same entries, the first holding no more constants than the second. */
  predicate WithinMap(a: ConstMap, b: ConstMap) {
    a.Keys == b.Keys && forall k :: k in a ==> Elems(a[k]) <= Elems(b[k])
  }

  /** One registration step keeps the as-written map within the corrected one. */
  lemma RegisterStepWithin(cmA: ConstMap, cmF: ConstMap, ca: map<nat, IterDom>, d: IterDom)
    requires ConstMapOk(cmA) && ConstMapOk(cmF) && WithinMap(cmA, cmF)
    requires KeysConcrete(cmA, ca) && ConcreteOfConcrete(ca)
    ensures WithinMap(RegisterConstantExtent(cmA, ca, d), RegisterConstantExtentFixed(cmF, ca, d))
    ensures KeysConcrete(RegisterConstantExtent(cmA, ca, d), ca)
  {
    var rA := RegisterConstantExtent(cmA, ca, d);
    var rF := RegisterConstantExtentFixed(cmF, ca, d);
    if ExtentConstant(d).Some? {
      var key := Concrete(ca, d).id;
      if d.id in cmA {
        assert key == d.id;
      }
      assert rA.Keys == rF.Keys;
      forall k | k in rA
        ensures Elems(rA[k]) <= Elems(rF[k])
      {
        assert Lookup(rA, k) <= Lookup(rF, k) by {
          assert Lookup(cmA, k) <= Lookup(cmF, k);
        }
      }
    }
  }

  /**
   * As written, on a compute-at map that sends concrete domains to
   * themselves, registration creates the same entries as the corrected
   * lookup but may hold fewer constants in them.
   */
  lemma {:induction false} RegisterAllWithin(cmA: ConstMap, cmF: ConstMap, ca: map<nat, IterDom>, ds: seq<IterDom>)
    requires ConstMapOk(cmA) && ConstMapOk(cmF) && WithinMap(cmA, cmF)
    requires KeysConcrete(cmA, ca) && ConcreteOfConcrete(ca)
    ensures WithinMap(RegisterAll(AsWritten, cmA, ca, ds), RegisterAll(Fixed, cmF, ca, ds))
    decreases |ds|
  {
    if ds != [] {
      RegisterStepWithin(cmA, cmF, ca, ds[0]);
      RegisterAllWithin(RegisterConstantExtent(cmA, ca, ds[0]), RegisterConstantExtentFixed(cmF, ca, ds[0]), ca, ds[1..]);
    }
  }

  /**
   * In words, for the code as written: a concrete domain has an entry
   * exactly when some domain mapped to it contributes a constant, and every
   * constant recorded for it is contributed by such a domain.
   */
  lemma RegisteredConstantsAsWritten(ca: map<nat, IterDom>, ds: seq<IterDom>, k: nat, c: int)
    requires ConcreteOfConcrete(ca)
    ensures k in RegisterAll(AsWritten, map[], ca, ds) <==>
      exists i :: 0 <= i < |ds| && Concrete(ca, ds[i]).id == k && ExtentConstant(ds[i]).Some?
    ensures k in RegisterAll(AsWritten, map[], ca, ds) && c in RegisterAll(AsWritten, map[], ca, ds)[k] ==>
      exists i :: 0 <= i < |ds| && Concrete(ca, ds[i]).id == k && ExtentConstant(ds[i]) == Some(c)
  {
    RegisterAllWithin(map[], map[], ca, ds);
    RegisterAllFixedContents(map[], ca, ds);
    var rA := RegisterAll(AsWritten, map[], ca, ds);
    var rF := RegisterAll(Fixed, map[], ca, ds);
    assert Lookup(rF, k) == Contributed(ca, ds, k);
    if k in rA {
      assert rA[k] != [] && rA[k][0] in Lookup(rA, k);
      var i :| 0 <= i < |ds| && Concrete(ca, ds[i]).id == k && ExtentConstant(ds[i]).Some? && rA[k][0] == ExtentConstant(ds[i]).value;
      if c in rA[k] {
        assert c in Lookup(rA, k);
        var j :| 0 <= j < |ds| && Concrete(ca, ds[j]).id == k && ExtentConstant(ds[j]).Some? && c == ExtentConstant(ds[j]).value;
      }
    }
    if exists i :: 0 <= i < |ds| && Concrete(ca, ds[i]).id == k && ExtentConstant(ds[i]).Some? {
      var i :| 0 <= i < |ds| && Concrete(ca, ds[i]).id == k && ExtentConstant(ds[i]).Some?;
      assert ExtentConstant(ds[i]).value in Lookup(rF, k);
    }
  }

  // ---------------------------------------------------------------------
  // Concrete domains of each thread type
  // ---------------------------------------------------------------------

  /** The concrete domains bound to each thread type, without repetition, in the order they were first seen. */
  type DomMap = map<ParallelType, seq<IterDom>>

  predicate NoDuplicates<T(==)>(s: seq<T>) {
    forall i, j :: 0 <= i < j < |s| ==> s[i] != s[j]
  }

  predicate DomMapOk(m: DomMap) {
    forall pt :: pt in m ==> IsThread(pt) && m[pt] != [] && NoDuplicates(m[pt])
  }

  /** `handleParallelDomain`: adds the concrete domain of a thread-parallel domain to its type's set. */
  function HandleParallelDomain(m: DomMap, ca: map<nat, IterDom>, d: IterDom): (r: DomMap)
    requires IsThread(d.parallel)
    ensures DomMapOk(m) ==> DomMapOk(r)
    ensures forall pt :: pt in r <==> pt in m || pt == d.parallel
    ensures forall pt, c :: pt in r && c in r[pt] <==> (pt in m && c in m[pt]) || (pt == d.parallel && c == Concrete(ca, d))
  {
    var c := Concrete(ca, d);
    var old_ := if d.parallel in m then m[d.parallel] else [];
    if c in old_ then m else m[d.parallel := old_ + [c]]
  }

  /** The domain loop of `build`: every thread-parallel domain is handled, the others skipped. */
  function HandleAll(m: DomMap, ca: map<nat, IterDom>, ds: seq<IterDom>): DomMap
    decreases |ds|
  {
    if ds == [] then m
    else HandleAll(if IsThread(ds[0].parallel) then HandleParallelDomain(m, ca, ds[0]) else m, ca, ds[1..])
  }

  /** The concrete domains recorded for a thread type, as a set; none when it has no entry. */
  function DomsOf(m: DomMap, pt: ParallelType): set<IterDom> {
    if pt in m then set c | c in m[pt] else {}
  }

  /** The concrete domains of the domains of `ds` bound to the thread type `pt`. */
  function BoundTo(ca: map<nat, IterDom>, ds: seq<IterDom>, pt: ParallelType): set<IterDom> {
    set d | d in ds && d.parallel == pt && IsThread(pt) :: Concrete(ca, d)
  }

  lemma BoundToCons(ca: map<nat, IterDom>, ds: seq<IterDom>, pt: ParallelType)
    requires ds != []
    ensures BoundTo(ca, ds, pt) ==
      (if ds[0].parallel == pt && IsThread(pt) then {Concrete(ca, ds[0])} else {}) + BoundTo(ca, ds[1..], pt)
  {
    assert forall d :: d in ds <==> d == ds[0] || d in ds[1..] by {
      assert ds == [ds[0]] + ds[1..];
    }
  }

  lemma HandleStep(m: DomMap, ca: map<nat, IterDom>, d: IterDom, pt: ParallelType)
    requires IsThread(d.parallel)
    ensures DomsOf(HandleParallelDomain(m, ca, d), pt) ==
      DomsOf(m, pt) + (if d.parallel == pt then {Concrete(ca, d)} else {})
  {
    var r := HandleParallelDomain(m, ca, d);
    forall c ensures c in DomsOf(r, pt) <==> c in DomsOf(m, pt) || (pt == d.parallel && c == Concrete(ca, d)) {
      assert c in DomsOf(r, pt) <==> pt in r && c in r[pt];
    }
  }

  /**
   * After the domain loop, a thread type holds exactly the concrete domains
   * it held before and those of the domains bound to it, each once, and it
   * has an entry exactly when it holds some domain.
   */
  lemma {:induction false} HandleAllContents(m: DomMap, ca: map<nat, IterDom>, ds: seq<IterDom>)
    requires DomMapOk(m)
    ensures DomMapOk(HandleAll(m, ca, ds))
    ensures forall pt :: DomsOf(HandleAll(m, ca, ds), pt) == DomsOf(m, pt) + BoundTo(ca, ds, pt)
    decreases |ds|
  {
    if ds != [] {
      var m1 := if IsThread(ds[0].parallel) then HandleParallelDomain(m, ca, ds[0]) else m;
      HandleAllContents(m1, ca, ds[1..]);
      forall pt
        ensures DomsOf(HandleAll(m, ca, ds), pt) == DomsOf(m, pt) + BoundTo(ca, ds, pt)
      {
        BoundToCons(ca, ds, pt);
        if IsThread(ds[0].parallel) {
          HandleStep(m, ca, ds[0], pt);
        }
      }
    }
  }

  /** A domain map entry is present exactly when it holds a domain. */
  lemma DomsOfPresent(m: DomMap, pt: ParallelType)
    requires DomMapOk(m)
    ensures pt in m <==> DomsOf(m, pt) != {}
  {
    if pt in m {
      assert m[pt][0] in DomsOf(m, pt);
    }
  }

  /** In words: after the domain loop a thread type has an entry exactly when some domain is bound to it. */
  lemma UsedThreadTypes(ca: map<nat, IterDom>, ds: seq<IterDom>, pt: ParallelType)
    ensures DomMapOk(HandleAll(map[], ca, ds))
    ensures pt in HandleAll(map[], ca, ds) <==> IsThread(pt) && exists i :: 0 <= i < |ds| && ds[i].parallel == pt
  {
    HandleAllContents(map[], ca, ds);
    DomsOfPresent(HandleAll(map[], ca, ds), pt);
    if IsThread(pt) && exists i :: 0 <= i < |ds| && ds[i].parallel == pt {
      var i :| 0 <= i < |ds| && ds[i].parallel == pt;
      assert ds[i] in ds;
      assert Concrete(ca, ds[i]) in BoundTo(ca, ds, pt);
    }
  }

  // ---------------------------------------------------------------------
  // Comparing extents
  // ---------------------------------------------------------------------

  /**
   * `equalDim` as written: identical values are equal, constant integers
   * compare by value and named scalars by name; otherwise both need a
   * unary or binary definition of the same operator, and only the first
   * input of each is compared, once per input.
   */
  predicate EqualDim(a: Val, b: Val)
    decreases a
  {
    if a == b then true
    else if a.IntScalar? && b.IntScalar? && a.intValue.Some? && b.intValue.Some? then a.intValue == b.intValue
    else if a.NamedScalar? && b.NamedScalar? then a.str == b.str
    else
      match a
      case Derived(_, _, _, UnaryDef(op, x)) =>
        b.Derived? && b.definition.UnaryDef? && b.definition.uop == op && EqualDim(x, b.definition.input)
      case Derived(_, _, _, BinaryDef(op, l, _)) =>
        b.Derived? && b.definition.BinaryDef? && b.definition.bop == op && EqualDim(l, b.definition.lhs)
      case _ => false
  }

  /**
   * `equalDim` comparing the inputs pairwise, as its loop over the inputs
   * evidently intends.
   */
  predicate EqualDimFixed(a: Val, b: Val)
    decreases a
  {
    if a == b then true
    else if a.IntScalar? && b.IntScalar? && a.intValue.Some? && b.intValue.Some? then a.intValue == b.intValue
    else if a.NamedScalar? && b.NamedScalar? then a.str == b.str
    else
      match a
      case Derived(_, _, _, UnaryDef(op, x)) =>
        b.Derived? && b.definition.UnaryDef? && b.definition.uop == op && EqualDimFixed(x, b.definition.input)
      case Derived(_, _, _, BinaryDef(op, l, r)) =>
        && b.Derived? && b.definition.BinaryDef? && b.definition.bop == op
        && EqualDimFixed(l, b.definition.lhs) && EqualDimFixed(r, b.definition.rhs)
      case _ => false
  }

  /** Extents the corrected comparison calls equal are equal as written too: the fix only adds checks. */
  lemma {:induction false} EqualDimFixedImpliesAsWritten(a: Val, b: Val)
    requires EqualDimFixed(a, b)
    ensures EqualDim(a, b)
    decreases a
  {
    if a != b && !(a.IntScalar? && b.IntScalar? && a.intValue.Some? && b.intValue.Some?) && !(a.NamedScalar? && b.NamedScalar?) {
      match a
      case Derived(_, _, _, UnaryDef(op, x)) =>
        EqualDimFixedImpliesAsWritten(x, b.definition.input);
      case Derived(_, _, _, BinaryDef(op, l, _)) =>
        EqualDimFixedImpliesAsWritten(l, b.definition.lhs);
      case _ =>
    }
  }

  /**
   * The extent comparison under a reading: `equalDim` as written, or input
   * by input. Either way identical extents compare equal, and the corrected
   * reading never calls equal what the code as written tells apart.
   */
  predicate Compare(rd: Reading, a: Val, b: Val): (r: bool)
    ensures a == b ==> r
    ensures rd == Fixed && r ==> EqualDim(a, b)
  {
    if rd == AsWritten then EqualDim(a, b)
    else if EqualDimFixed(a, b) then EqualDimFixedImpliesAsWritten(a, b); true
    else false
  }

  /** The listed cases of `equalDim`, as written. */
  lemma EqualDimCases(a: Val, b: Val)
    ensures a == b ==> EqualDim(a, b)
    ensures a != b && a.IntScalar? && b.IntScalar? && a.intValue.Some? && b.intValue.Some? ==>
      (EqualDim(a, b) <==> a.intValue == b.intValue)
    ensures a.NamedScalar? && b.NamedScalar? ==> (EqualDim(a, b) <==> a.str == b.str)
    ensures (a != b && !(a.IntScalar? && b.IntScalar? && a.intValue.Some? && b.intValue.Some?) &&
      !(a.NamedScalar? && b.NamedScalar?) && (!HasDefinition(a) || !HasDefinition(b))) ==>
      !EqualDim(a, b)
    ensures a != b && a.Derived? && b.Derived? && a.definition.BinaryDef? && b.definition.BinaryDef? ==>
      (EqualDim(a, b) <==> a.definition.bop == b.definition.bop && EqualDim(a.definition.lhs, b.definition.lhs))
    ensures a != b && a.Derived? && b.Derived? && a.definition.UnaryDef? && b.definition.UnaryDef? ==>
      (EqualDim(a, b) <==> a.definition.uop == b.definition.uop && EqualDim(a.definition.input, b.definition.input))
  {
  }

  /** An integer-typed extent: every node is an integer scalar. */
  predicate IntTyped(v: Val)
    decreases v
  {
    && IsScalar(v) && DataTypeOf(v) == IntType
    && match v
       case Derived(_, _, _, UnaryDef(_, x)) => IntTyped(x)
       case Derived(_, _, _, BinaryDef(_, l, r)) => IntTyped(l) && IntTyped(r)
       case _ => true
  }

  /** Bindings that give named scalars no value of their own, so a named scalar means its launch dimension. */
  predicate NoNamedBindings(ev: KernelEvaluator.Evaluator) {
    forall k :: k in ev.known ==> !k.NamedScalar?
  }

  /** The corrected comparison is sound: extents it calls equal have the same value under every such binding. */
  lemma {:induction false} EqualDimFixedSound(ev: KernelEvaluator.Evaluator, a: Val, b: Val)
    requires IntTyped(a) && IntTyped(b) && NoNamedBindings(ev)
    requires EqualDimFixed(a, b)
    ensures KernelEvaluator.Denote(ev, a) == KernelEvaluator.Denote(ev, b)
    decreases a
  {
    if a == b {
    } else if a.IntScalar? && b.IntScalar? && a.intValue.Some? && b.intValue.Some? {
    } else if a.NamedScalar? && b.NamedScalar? {
    } else {
      match a
      case Derived(_, _, _, UnaryDef(op, x)) =>
        EqualDimFixedSound(ev, x, b.definition.input);
      case Derived(_, _, _, BinaryDef(op, l, r)) =>
        EqualDimFixedSound(ev, l, b.definition.lhs);
        EqualDimFixedSound(ev, r, b.definition.rhs);
    }
  }

  /** The comparison as written calls `x + 1` and `x + 2` equal, though they differ once `x` is bound. */
  lemma EqualDimAsWrittenUnsound()
    ensures var x := IntScalar(0, None);
      var a := Derived(1, true, IntType, BinaryDef(AddOp, x, IntScalar(3, Some(1))));
      var b := Derived(2, true, IntType, BinaryDef(AddOp, x, IntScalar(4, Some(2))));
      var ev := KernelEvaluator.Evaluator(map[x := 0], map[]);
      && EqualDim(a, b) && !EqualDimFixed(a, b)
      && KernelEvaluator.Denote(ev, a) == Ok(Some(1))
      && KernelEvaluator.Denote(ev, b) == Ok(Some(2))
  {
  }

  // ---------------------------------------------------------------------
  // The dimension of one thread type
  // ---------------------------------------------------------------------

  datatype PtDim = PtDim(dim: Dim, exact: bool)

  /**
   * `populateDimensionMapWithSingleCASet`: one constant makes an exact
   * constant dimension; several make an inexact symbolic one; none make an
   * exact symbolic one.
   */
  function PopulateSingle(pt: ParallelType, d: IterDom, cm: ConstMap): (r: PtDim)
    ensures d.id in cm && |cm[d.id]| == 1 ==> r == PtDim(ConstDim(cm[d.id][0]), true) && cm[d.id] == [r.dim.n]
    ensures d.id in cm && |cm[d.id]| != 1 ==> r == PtDim(ParallelDim(pt), false)
    ensures d.id !in cm ==> r == PtDim(ParallelDim(pt), true)
  {
    if d.id in cm then
      if |cm[d.id]| == 1 then PtDim(ConstDim(cm[d.id][0]), true)
      else PtDim(ParallelDim(pt), false)
    else PtDim(ParallelDim(pt), true)
  }

  /** The loop state of `populateDimensionMapWithMultipleCASet`; -1 means no constant yet. */
  datatype MultiScan = MultiScan(allEqual: bool, knownConst: int, knownDim: Option<Val>)

  const MultiStart := MultiScan(true, -1, None)

  /**
   * The loop over the concrete domains of a thread type: broadcasts are
   * skipped; several constants, or a constant differing from the one seen,
   * stop it as inexact; a constant equal to the one seen goes on to the next
   * domain; any other domain has its extent compared with the first extent
   * seen. The loop stops at the first mismatch.
   */
  function ScanMultiple(rd: Reading, doms: seq<IterDom>, cm: ConstMap, s: MultiScan): (r: MultiScan)
    requires ConstMapOk(cm)
    requires s.allEqual
    decreases |doms|
  {
    if doms == [] then s
    else
      var d := doms[0];
      if d.isBroadcast then ScanMultiple(rd, doms[1..], cm, s)
      else if d.id in cm && |cm[d.id]| > 1 then s.(allEqual := false)
      else
        var seen := if d.id in cm then Some(cm[d.id][0]) else None;
        if seen.Some? && s.knownConst != -1 && seen.value == s.knownConst then ScanMultiple(rd, doms[1..], cm, s)
        else if seen.Some? && s.knownConst != -1 then s.(allEqual := false)
        else
          var kc := if seen.Some? then seen.value else s.knownConst;
          if s.knownDim.None? then ScanMultiple(rd, doms[1..], cm, MultiScan(true, kc, Some(d.extent)))
          else if !Compare(rd, s.knownDim.value, d.extent) then MultiScan(false, kc, s.knownDim)
          else ScanMultiple(rd, doms[1..], cm, MultiScan(true, kc, s.knownDim))
  }

  /** `populateDimensionMapWithMultipleCASet`: exact when the loop finds no mismatch; constant when exact and a constant was seen. */
  function PopulateMultiple(rd: Reading, pt: ParallelType, doms: seq<IterDom>, cm: ConstMap): (r: PtDim)
    requires ConstMapOk(cm)
    ensures r.dim.ConstDim? ==> r.exact && r.dim.n != -1
    ensures !r.exact ==> r.dim == ParallelDim(pt)
  {
    var s := ScanMultiple(rd, doms, cm, MultiStart);
    PtDim(if s.allEqual && s.knownConst != -1 then ConstDim(s.knownConst) else ParallelDim(pt), s.allEqual)
  }

  function NonBroadcast(doms: seq<IterDom>): (r: seq<IterDom>)
    ensures forall i :: 0 <= i < |r| ==> !r[i].isBroadcast
    decreases |doms|
  {
    if doms == [] then []
    else (if doms[0].isBroadcast then [] else [doms[0]]) + NonBroadcast(doms[1..])
  }

  lemma {:induction false} ScanIgnoresBroadcast(rd: Reading, doms: seq<IterDom>, cm: ConstMap, s: MultiScan)
    requires ConstMapOk(cm) && s.allEqual
    ensures ScanMultiple(rd, doms, cm, s) == ScanMultiple(rd, NonBroadcast(doms), cm, s)
    decreases |doms|
  {
    if doms != [] {
      if doms[0].isBroadcast {
        assert NonBroadcast(doms) == NonBroadcast(doms[1..]);
        ScanIgnoresBroadcast(rd, doms[1..], cm, s);
      } else {
        var nb := NonBroadcast(doms);
        assert nb[0] == doms[0] && nb[1..] == NonBroadcast(doms[1..]);
        var d := doms[0];
        if !(d.id in cm && |cm[d.id]| > 1) {
          var seen := if d.id in cm then Some(cm[d.id][0]) else None;
          var kc := if seen.Some? then seen.value else s.knownConst;
          if seen.Some? && s.knownConst != -1 && seen.value == s.knownConst {
            ScanIgnoresBroadcast(rd, doms[1..], cm, s);
          } else if s.knownDim.None? {
            ScanIgnoresBroadcast(rd, doms[1..], cm, MultiScan(true, kc, Some(d.extent)));
          } else {
            ScanIgnoresBroadcast(rd, doms[1..], cm, MultiScan(true, kc, s.knownDim));
          }
        }
      }
    }
  }

  /** Broadcast domains say nothing about the dimension: dropping them changes nothing. */
  lemma MultipleIgnoresBroadcast(rd: Reading, pt: ParallelType, doms: seq<IterDom>, cm: ConstMap)
    requires ConstMapOk(cm)
    ensures PopulateMultiple(rd, pt, doms, cm) == PopulateMultiple(rd, pt, NonBroadcast(doms), cm)
  {
    ScanIgnoresBroadcast(rd, doms, cm, MultiStart);
  }

  /** No recorded constant is the sentinel -1. */
  predicate NoSentinel(cm: ConstMap) {
    forall k :: k in cm ==> -1 !in cm[k]
  }

  /** A domain that the loop compares by extent rather than by constant. */
  predicate Symbolic(d: IterDom, cm: ConstMap) {
    !d.isBroadcast && d.id !in cm
  }

  lemma {:induction false} ScanSound(rd: Reading, doms: seq<IterDom>, cm: ConstMap, s: MultiScan)
    requires ConstMapOk(cm) && NoSentinel(cm) && s.allEqual
    ensures var r := ScanMultiple(rd, doms, cm, s);
      r.allEqual ==>
        && (s.knownConst != -1 ==> r.knownConst == s.knownConst)
        && (forall i :: 0 <= i < |doms| && !doms[i].isBroadcast && doms[i].id in cm ==> cm[doms[i].id] == [r.knownConst])
        && (s.knownDim.Some? ==> r.knownDim == s.knownDim)
        && (forall i :: 0 <= i < |doms| && Symbolic(doms[i], cm) ==>
              r.knownDim.Some? && Compare(rd, r.knownDim.value, doms[i].extent))
    ensures var r := ScanMultiple(rd, doms, cm, s);
      r.knownConst != s.knownConst ==>
        exists i :: 0 <= i < |doms| && !doms[i].isBroadcast && doms[i].id in cm && cm[doms[i].id] == [r.knownConst]
    decreases |doms|
  {
    if doms != [] {
      var d := doms[0];
      var tail := doms[1..];
      assert forall i :: 1 <= i < |doms| ==> doms[i] == tail[i - 1];
      if d.isBroadcast {
        ScanSound(rd, tail, cm, s);
      } else if d.id in cm && |cm[d.id]| > 1 {
      } else {
        var seen := if d.id in cm then Some(cm[d.id][0]) else None;
        var kc := if seen.Some? then seen.value else s.knownConst;
        if seen.Some? && s.knownConst != -1 && seen.value == s.knownConst {
          ScanSound(rd, tail, cm, s);
        } else if seen.Some? && s.knownConst != -1 {
        } else {
          var s1 := if s.knownDim.None? then MultiScan(true, kc, Some(d.extent)) else MultiScan(true, kc, s.knownDim);
          if s.knownDim.Some? && !Compare(rd, s.knownDim.value, d.extent) {
          } else {
            ScanSound(rd, tail, cm, s1);
            var r := ScanMultiple(rd, doms, cm, s);
            assert r == ScanMultiple(rd, tail, cm, s1);
            if seen.Some? {
              assert cm[d.id][0] != -1;
            }
            if r.knownConst != s.knownConst && r.knownConst == kc {
              assert !doms[0].isBroadcast && doms[0].id in cm && cm[doms[0].id] == [r.knownConst];
            }
          }
        }
      }
    }
  }

  /** The extent the domains without a constant are compared against: the first one the loop takes. */
  function FirstCompared(rd: Reading, doms: seq<IterDom>, cm: ConstMap): Option<Val>
    requires ConstMapOk(cm)
  {
    ScanMultiple(rd, doms, cm, MultiStart).knownDim
  }

  /**
   * What an exact result promises: every non-broadcast domain with a
   * constant has that one constant, the recorded constant is one of them,
   * and the extents of the domains without a constant all compare equal to
   * one extent.
   */
  lemma MultipleExactSound(rd: Reading, pt: ParallelType, doms: seq<IterDom>, cm: ConstMap)
    requires ConstMapOk(cm) && NoSentinel(cm)
    ensures var r := PopulateMultiple(rd, pt, doms, cm);
      r.exact ==>
        && (forall i :: 0 <= i < |doms| && !doms[i].isBroadcast && doms[i].id in cm ==> r.dim.ConstDim? && cm[doms[i].id] == [r.dim.n])
        && (forall i :: 0 <= i < |doms| && Symbolic(doms[i], cm) ==>
              FirstCompared(rd, doms, cm).Some? && Compare(rd, FirstCompared(rd, doms, cm).value, doms[i].extent))
    ensures var r := PopulateMultiple(rd, pt, doms, cm);
      r.dim.ConstDim? ==> exists i :: 0 <= i < |doms| && !doms[i].isBroadcast && doms[i].id in cm && cm[doms[i].id] == [r.dim.n]
  {
    ScanSound(rd, doms, cm, MultiStart);
    var s := ScanMultiple(rd, doms, cm, MultiStart);
    if s.allEqual {
      if exists i :: 0 <= i < |doms| && !doms[i].isBroadcast && doms[i].id in cm {
        var i :| 0 <= i < |doms| && !doms[i].isBroadcast && doms[i].id in cm;
        assert cm[doms[i].id] == [s.knownConst];
        assert s.knownConst != -1;
      }
    }
  }

  /**
   * With extents compared input by input, exact symbolic extents of a
   * thread type have one value under any binding that leaves named scalars
   * to their launch dimensions.
   */
  lemma MultipleExactExtentsAgree(pt: ParallelType, doms: seq<IterDom>, cm: ConstMap, ev: KernelEvaluator.Evaluator, i: nat, j: nat)
    requires ConstMapOk(cm) && NoSentinel(cm) && NoNamedBindings(ev)
    requires PopulateMultiple(Fixed, pt, doms, cm).exact
    requires i < |doms| && j < |doms| && Symbolic(doms[i], cm) && Symbolic(doms[j], cm)
    requires forall k :: 0 <= k < |doms| && !doms[k].isBroadcast ==> IntTyped(doms[k].extent)
    ensures KernelEvaluator.Denote(ev, doms[i].extent) == KernelEvaluator.Denote(ev, doms[j].extent)
  {
    ScanSound(Fixed, doms, cm, MultiStart);
    var s := ScanMultiple(Fixed, doms, cm, MultiStart);
    var dim := s.knownDim.value;
    assert EqualDimFixed(dim, doms[i].extent) && EqualDimFixed(dim, doms[j].extent);
    assert IntTyped(dim) by {
      ScanFirstDim(Fixed, doms, cm, MultiStart);
    }
    EqualDimFixedSound(ev, dim, doms[i].extent);
    EqualDimFixedSound(ev, dim, doms[j].extent);
  }

  /**
   * As written, two domains with extents `x + 1` and `x + 2` and no constant
   * make their thread type exact, though the extents differ once `x` is
   * bound; compared input by input, they do not.
   */
  lemma MultipleAsWrittenCallsDistinctExact()
    ensures var x := IntScalar(0, None);
      var a := Derived(1, true, IntType, BinaryDef(AddOp, x, IntScalar(3, Some(1))));
      var b := Derived(2, true, IntType, BinaryDef(AddOp, x, IntScalar(4, Some(2))));
      var doms := [IterDom(5, TIDx, a, false), IterDom(6, TIDx, b, false)];
      var ev := KernelEvaluator.Evaluator(map[x := 0], map[]);
      && PopulateMultiple(AsWritten, TIDx, doms, map[]) == PtDim(ParallelDim(TIDx), true)
      && PopulateMultiple(Fixed, TIDx, doms, map[]) == PtDim(ParallelDim(TIDx), false)
      && KernelEvaluator.Denote(ev, doms[0].extent) != KernelEvaluator.Denote(ev, doms[1].extent)
  {
    EqualDimAsWrittenUnsound();
    var x := IntScalar(0, None);
    var a := Derived(1, true, IntType, BinaryDef(AddOp, x, IntScalar(3, Some(1))));
    var b := Derived(2, true, IntType, BinaryDef(AddOp, x, IntScalar(4, Some(2))));
    var doms := [IterDom(5, TIDx, a, false), IterDom(6, TIDx, b, false)];
    assert doms[1..] == [doms[1]] && doms[1..][1..] == [];
  }

  /** The extent the loop compares against is the extent of one of the domains. */
  lemma {:induction false} ScanFirstDim(rd: Reading, doms: seq<IterDom>, cm: ConstMap, s: MultiScan)
    requires ConstMapOk(cm) && s.allEqual
    ensures var r := ScanMultiple(rd, doms, cm, s);
      r.knownDim == s.knownDim || exists i :: 0 <= i < |doms| && !doms[i].isBroadcast && r.knownDim == Some(doms[i].extent)
    decreases |doms|
  {
    if doms != [] {
      var d := doms[0];
      var tail := doms[1..];
      assert forall i :: 0 <= i < |tail| ==> tail[i] == doms[i + 1];
      if d.isBroadcast {
        ScanFirstDim(rd, tail, cm, s);
      } else if !(d.id in cm && |cm[d.id]| > 1) {
        var seen := if d.id in cm then Some(cm[d.id][0]) else None;
        var kc := if seen.Some? then seen.value else s.knownConst;
        if seen.Some? && s.knownConst != -1 && seen.value == s.knownConst {
          ScanFirstDim(rd, tail, cm, s);
        } else if s.knownDim.None? {
          ScanFirstDim(rd, tail, cm, MultiScan(true, kc, Some(d.extent)));
        } else {
          ScanFirstDim(rd, tail, cm, MultiScan(true, kc, s.knownDim));
        }
      }
    }
  }

  /** With one non-broadcast domain, the multiple-domain rule decides as the single-domain rule does. */
  lemma SingleAgreesWithMultiple(rd: Reading, pt: ParallelType, d: IterDom, cm: ConstMap)
    requires ConstMapOk(cm) && NoSentinel(cm) && !d.isBroadcast
    ensures PopulateMultiple(rd, pt, [d], cm) == PopulateSingle(pt, d, cm)
  {
    var s := ScanMultiple(rd, [d], cm, MultiStart);
    assert [d][1..] == [];
    if d.id in cm && |cm[d.id]| == 1 {
      assert s == ScanMultiple(rd, [], cm, MultiScan(true, cm[d.id][0], Some(d.extent)));
    } else if d.id in cm {
      assert |cm[d.id]| > 1;
    } else {
      assert s == ScanMultiple(rd, [], cm, MultiScan(true, -1, Some(d.extent)));
    }
  }

  // ---------------------------------------------------------------------
  // Building the map
  // ---------------------------------------------------------------------

  /** The dimension and exactness `build` gives one thread type used by the fusion: the single-domain rule for one concrete domain, the multiple-domain rule otherwise. */
  function PtDimOf(rd: Reading, pt: ParallelType, m: DomMap, cm: ConstMap): PtDim
    requires ConstMapOk(cm) && DomMapOk(m) && pt in m
  {
    if |m[pt]| == 1 then PopulateSingle(pt, m[pt][0], cm) else PopulateMultiple(rd, pt, m[pt], cm)
  }

  /** The population loop: each thread type with concrete domains gets its dimension and, when exact, joins the exact set. */
  function Populate(rd: Reading, pts: seq<ParallelType>, m: DomMap, cm: ConstMap, acc: DimMap): (r: DimMap)
    requires ConstMapOk(cm) && DomMapOk(m)
    requires acc.exact <= acc.dims.Keys
    ensures r.exact <= r.dims.Keys
    ensures forall pt :: pt in r.dims <==> pt in acc.dims || (pt in pts && pt in m)
    ensures forall pt :: pt in acc.dims ==> r.dims[pt] == acc.dims[pt] && (pt in r.exact <==> pt in acc.exact)
    ensures forall pt :: pt in pts && pt in m && pt !in acc.dims ==>
      r.dims[pt] == PtDimOf(rd, pt, m, cm).dim && (pt in r.exact <==> PtDimOf(rd, pt, m, cm).exact)
    decreases |pts|
  {
    if pts == [] then acc
    else if pts[0] !in m then Populate(rd, pts[1..], m, cm, acc)
    else
      var pt := pts[0];
      var p := PtDimOf(rd, pt, m, cm);
      var acc1 := if pt in acc.dims then acc else DimMap(acc.dims[pt := p.dim], if p.exact then acc.exact + {pt} else acc.exact);
      Populate(rd, pts[1..], m, cm, acc1)
  }

  /**
   * `adjustMappingsForWarpPadding`: when TIDx is padded to a multiple of the
   * warp and is not known to be an exact constant multiple of the warp
   * already, it stops being exact and its dimension becomes the warp size
   * when it is a single warp, `blockDim.x` otherwise.
   */
  function AdjustForWarpPadding(m: DimMap, info: Lower.WarpPaddedInfo, warpSize: int): (r: Result<DimMap, PdError>)
    requires warpSize > 0
    ensures !info.isTidxPadded ==> r == Ok(m)
    ensures TIDx in m.exact && TIDx in m.dims && m.dims[TIDx].ConstDim? && TruncMod(m.dims[TIDx].n, warpSize) == 0 ==> r == Ok(m)
    ensures r.Err? <==> info.isTidxPadded && TIDx !in m.dims
    ensures r.Ok? && r.value != m ==>
      && r.value.exact == m.exact - {TIDx}
      && r.value.dims == m.dims[TIDx := if info.isTidxSingleWarp then ConstDim(warpSize) else ParallelDim(TIDx)]
  {
    if !info.isTidxPadded then Ok(m)
    else if TIDx in m.exact && TIDx in m.dims && m.dims[TIDx].ConstDim? && TruncMod(m.dims[TIDx].n, warpSize) == 0 then Ok(m)
    else if TIDx !in m.dims then Err(MissingTidxDim)
    else Ok(DimMap(m.dims[TIDx := if info.isTidxSingleWarp then ConstDim(warpSize) else ParallelDim(TIDx)], m.exact - {TIDx}))
  }

  /** After the adjustment a padded TIDx is exact only as a constant multiple of the warp. */
  lemma AdjustedTidxExact(m: DimMap, info: Lower.WarpPaddedInfo, warpSize: int)
    requires warpSize > 0 && info.isTidxPadded
    requires AdjustForWarpPadding(m, info, warpSize).Ok?
    ensures var r := AdjustForWarpPadding(m, info, warpSize).value;
      TIDx in r.exact ==> r.dims[TIDx].ConstDim? && TruncMod(r.dims[TIDx].n, warpSize) == 0
  {
  }

  /** Adjusting twice is adjusting once. */
  lemma AdjustIdempotent(m: DimMap, info: Lower.WarpPaddedInfo, warpSize: int)
    requires warpSize > 0
    requires AdjustForWarpPadding(m, info, warpSize).Ok?
    ensures AdjustForWarpPadding(AdjustForWarpPadding(m, info, warpSize).value, info, warpSize) == AdjustForWarpPadding(m, info, warpSize)
  {
    var r := AdjustForWarpPadding(m, info, warpSize).value;
    if info.isTidxPadded && r != m {
      var x := if info.isTidxSingleWarp then ConstDim(warpSize) else ParallelDim(TIDx);
      assert TIDx !in r.exact && TIDx in r.dims && r.dims[TIDx] == x;
      assert r.dims[TIDx := x] == r.dims;
      assert r.exact - {TIDx} == r.exact;
      assert AdjustForWarpPadding(r, info, warpSize) == Ok(DimMap(r.dims[TIDx := x], r.exact - {TIDx}));
    }
  }

  /** `get`: an error for a non-thread type, no value for a thread type that was never registered. */
  function Get(m: DimMap, pt: ParallelType): (r: Result<Option<Dim>, PdError>)
    ensures r.Err? <==> !IsThread(pt)
    ensures r.Ok? ==> (r.value.Some? <==> pt in m.dims) && (r.value.Some? ==> r.value.value == m.dims[pt])
  {
    if !IsThread(pt) then Err(InvalidParallelType)
    else if pt in m.dims then Ok(Some(m.dims[pt])) else Ok(None)
  }

  predicate IsExact(m: DimMap, pt: ParallelType) {
    pt in m.exact
  }

  /**
   * `build`: the domains of every tensor, in order, contribute their constant
   * extents and their concrete domains; every used thread type is then
   * populated, and TIDx is adjusted for warp padding.
   */
  function Build(rd: Reading, ds: seq<IterDom>, ca: map<nat, IterDom>, info: Lower.WarpPaddedInfo, warpSize: int): Result<DimMap, PdError>
    requires warpSize > 0
  {
    HandleAllContents(map[], ca, ds);
    var cm := RegisterAll(rd, map[], ca, ds);
    var m := HandleAll(map[], ca, ds);
    AdjustForWarpPadding(Populate(rd, ThreadParallelTypes, m, cm, DimMap(map[], {})), info, warpSize)
  }

  /** After `build`, `get` finds a dimension for exactly the thread types some domain is bound to. */
  lemma BuildRegistersUsedTypes(rd: Reading, ds: seq<IterDom>, ca: map<nat, IterDom>, info: Lower.WarpPaddedInfo, warpSize: int, pt: ParallelType)
    requires warpSize > 0
    requires Build(rd, ds, ca, info, warpSize).Ok?
    requires IsThread(pt)
    ensures Get(Build(rd, ds, ca, info, warpSize).value, pt).Ok?
    ensures Get(Build(rd, ds, ca, info, warpSize).value, pt).value.Some? <==> exists i :: 0 <= i < |ds| && ds[i].parallel == pt
  {
    UsedThreadTypes(ca, ds, pt);
  }

  /**
   * After `build`, a thread type other than a padded TIDx has the dimension
   * and exactness its rule gives it.
   */
  lemma BuildDimensionOf(rd: Reading, ds: seq<IterDom>, ca: map<nat, IterDom>, info: Lower.WarpPaddedInfo, warpSize: int, pt: ParallelType)
    requires warpSize > 0
    requires Build(rd, ds, ca, info, warpSize).Ok?
    requires IsThread(pt) && exists i :: 0 <= i < |ds| && ds[i].parallel == pt
    requires pt != TIDx || !info.isTidxPadded
    ensures var cm := RegisterAll(rd, map[], ca, ds);
      var m := HandleAll(map[], ca, ds);
      ConstMapOk(cm) && DomMapOk(m) && pt in m &&
      Get(Build(rd, ds, ca, info, warpSize).value, pt) == Ok(Some(PtDimOf(rd, pt, m, cm).dim)) &&
      (IsExact(Build(rd, ds, ca, info, warpSize).value, pt) <==> PtDimOf(rd, pt, m, cm).exact)
  {
    UsedThreadTypes(ca, ds, pt);
  }
}
