/**
 * The operator version map: for each operator name, the upgraders
 * registered for it, and a flag recording whether the lists have been
 * sorted (newest bump first) since the last test-only change.
 */
module VersionMap {

  /** An upgrader: the version at which the operator was bumped, the upgrader's name and the old schema. */
  datatype UpgraderEntry = UpgraderEntry(bumpedAtVersion: int, upgraderName: string, oldSchema: string)

  datatype State = State(entries: map<string, seq<UpgraderEntry>>, sorted: bool)

  /** The map as the program starts with it: eleven operators, one upgrader each. */
  const Initial := State(map[
    "aten::logspace" := [UpgraderEntry(9, "logspace_0_8",
      "aten::logspace(Scalar start, Scalar end, int? steps=None, float base=10.0, *, ScalarType? dtype=None, Layout? layout=None, Device? device=None, bool? pin_memory=None) -> Tensor")],
    "aten::logspace.out" := [UpgraderEntry(9, "logspace_out_0_8",
      "aten::logspace.out(Scalar start, Scalar end, int? steps=None, float base=10.0, *, Tensor(a!) out) -> Tensor(a!)")],
    "aten::linspace" := [UpgraderEntry(8, "linspace_0_7",
      "aten::linspace(Scalar start, Scalar end, int? steps=None, *, ScalarType? dtype=None, Layout? layout=None, Device? device=None, bool? pin_memory=None) -> Tensor")],
    "aten::linspace.out" := [UpgraderEntry(8, "linspace_out_0_7",
      "aten::linspace.out(Scalar start, Scalar end, int? steps=None, *, Tensor(a!) out) -> Tensor(a!)")],
    "aten::div.Tensor" := [UpgraderEntry(4, "div_Tensor_0_3",
      "aten::div.Tensor(Tensor self, Tensor other) -> Tensor")],
    "aten::div.Scalar" := [UpgraderEntry(4, "div_Scalar_0_3",
      "aten::div.Scalar(Tensor self, Scalar other) -> Tensor")],
    "aten::div.out" := [UpgraderEntry(4, "div_out_0_3",
      "aten::div.out(Tensor self, Tensor other, *, Tensor(a!) out) -> Tensor(a!)")],
    "aten::div_.Tensor" := [UpgraderEntry(4, "div__Tensor_0_3",
      "aten::div_.Tensor(Tensor(a!) self, Tensor other) -> Tensor(a!)")],
    "aten::div_.Scalar" := [UpgraderEntry(4, "div__Scalar_0_3",
      "aten::div_.Scalar(Tensor(a!) self, Scalar other) -> Tensor(a!)")],
    "aten::full" := [UpgraderEntry(5, "full_0_4",
      "aten::full(int[] size, Scalar fill_value, *, ScalarType? dtype=None, Layout? layout=None, Device? device=None, bool? pin_memory=None) -> Tensor")],
    "aten::full.out" := [UpgraderEntry(5, "full_out_0_4",
      "aten::full.out(int[] size, Scalar fill_value, *, Tensor(a!) out) -> Tensor(a!)")]
  ], false)

  /** The names of the eleven operators the map starts with. */
  const InitialOperators: seq<string> := ["aten::logspace", "aten::logspace.out", "aten::linspace", "aten::linspace.out",
    "aten::div.Tensor", "aten::div.Scalar", "aten::div.out", "aten::div_.Tensor", "aten::div_.Scalar",
    "aten::full", "aten::full.out"]

  /** The initial map holds exactly the eleven listed operators with one upgrader each, and starts unsorted. */
  lemma InitialShape()
    ensures !Initial.sorted
    ensures forall op :: op in Initial.entries <==> op in InitialOperators
    ensures forall op :: op in Initial.entries ==> |Initial.entries[op]| == 1
  {
  }

  /** No operator is listed twice, so the map has eleven entries. */
  lemma InitialCount()
    ensures |Initial.entries.Keys| == 11
  {
    InitialShape();
    assert Initial.entries.Keys == set k | k in InitialOperators;
    SeqSetSize(InitialOperators);
  }

  lemma {:induction false} SeqSetSize<T>(s: seq<T>)
    requires forall i, j :: 0 <= i < j < |s| ==> s[i] != s[j]
    ensures |set k | k in s| == |s|
    decreases |s|
  {
    if s != [] {
      SeqSetSize(s[1..]);
      assert (set k | k in s) == (set k | k in s[1..]) + {s[0]};
      assert s[0] !in s[1..];
    }
  }

  /** Newest bump first. */
  predicate Descending(s: seq<UpgraderEntry>) {
    forall i, j :: 0 <= i < j < |s| ==> s[i].bumpedAtVersion >= s[j].bumpedAtVersion
  }

  /** Each stored list is newest bump first. */
  predicate AllDescending(m: map<string, seq<UpgraderEntry>>) {
    forall op :: op in m ==> Descending(m[op])
  }

  /** What every reachable state keeps: a set flag means every list is newest first. */
  predicate Inv(s: State) {
    s.sorted ==> AllDescending(s.entries)
  }

  /**
   * `get_operator_version_map` as written: the sort runs on a copy of each
   * entry, so the stored lists keep their order while the flag is set.
   */
  function GetOperatorVersionMapAsWritten(s: State): (r: (State, map<string, seq<UpgraderEntry>>))
    ensures r.0.sorted && r.0.entries == s.entries && r.1 == s.entries
  {
    (State(s.entries, true), s.entries)
  }

  /** `test_only_add_entry`: clears the flag and appends to the operator's list, creating it when absent. */
  function AddEntry(s: State, op: string, e: UpgraderEntry): (r: State)
    ensures !r.sorted && r.entries.Keys == s.entries.Keys + {op}
    ensures r.entries[op] == (if op in s.entries then s.entries[op] else []) + [e]
    ensures forall k :: k in s.entries && k != op ==> r.entries[k] == s.entries[k]
  {
    State(s.entries[op := (if op in s.entries then s.entries[op] else []) + [e]], false)
  }

  /** `test_only_remove_entry`: clears the flag and drops only that operator. */
  function RemoveEntry(s: State, op: string): (r: State)
    ensures !r.sorted && r.entries.Keys == s.entries.Keys - {op}
    ensures forall k :: k in r.entries ==> r.entries[k] == s.entries[k]
  {
    State(s.entries - {op}, false)
  }

  /** `test_only_reset_flag`: changes only the flag. */
  function ResetFlag(s: State): (r: State)
    ensures !r.sorted && r.entries == s.entries
  {
    State(s.entries, false)
  }

  /** The test-only operations keep the invariant, since each clears the flag. */
  lemma TestOnlyKeepInv(s: State, op: string, e: UpgraderEntry)
    ensures Inv(AddEntry(s, op, e)) && Inv(RemoveEntry(s, op)) && Inv(ResetFlag(s)) && Inv(Initial)
  {
  }

  /**
   * The as-written read breaks the invariant: once a test appends a newer
   * upgrader to a one-entry list, the flag says sorted while the list is
   * oldest first.
   */
  lemma GetAsWrittenLeavesUnsorted(s: State, op: string, prior: UpgraderEntry, e: UpgraderEntry)
    requires op in s.entries && s.entries[op] == [prior]
    requires prior.bumpedAtVersion < e.bumpedAtVersion
    ensures var r := GetOperatorVersionMapAsWritten(AddEntry(s, op, e));
      r.1[op] == [prior, e] && r.0.sorted && !Inv(r.0)
  {
    var l := GetOperatorVersionMapAsWritten(AddEntry(s, op, e)).1[op];
    assert !Descending(l) by {
      assert l[0].bumpedAtVersion < l[1].bumpedAtVersion;
    }
  }

  /** The initial one-entry list of `aten::div.Tensor`, bumped at version 4. */
  lemma InitialDivTensor()
    ensures "aten::div.Tensor" in Initial.entries
    ensures Initial.entries["aten::div.Tensor"] == [UpgraderEntry(4, "div_Tensor_0_3", "aten::div.Tensor(Tensor self, Tensor other) -> Tensor")]
  {
  }

  /** A second as-written call is a pure read. */
  lemma GetAsWrittenTwice(s: State)
    ensures var r := GetOperatorVersionMapAsWritten(s);
      GetOperatorVersionMapAsWritten(r.0) == r
  {
  }

  /** Putting an entry no older than the head in front keeps a list newest first. */
  lemma DescendingCons(x: UpgraderEntry, t: seq<UpgraderEntry>)
    requires Descending(t)
    requires t != [] ==> x.bumpedAtVersion >= t[0].bumpedAtVersion
    ensures Descending([x] + t)
  {
    var l := [x] + t;
    forall i, j | 0 <= i < j < |l|
      ensures l[i].bumpedAtVersion >= l[j].bumpedAtVersion
    {
      if i == 0 {
        assert l[j] == t[j - 1];
        assert t[0].bumpedAtVersion >= t[j - 1].bumpedAtVersion || j == 1;
      } else {
        assert l[i] == t[i - 1] && l[j] == t[j - 1];
      }
    }
  }

  /** `entry` placed before the first element with an older bump. */
  function InsertDescending(e: UpgraderEntry, s: seq<UpgraderEntry>): (r: seq<UpgraderEntry>)
    requires Descending(s)
    ensures Descending(r) && multiset(r) == multiset(s) + multiset{e}
    ensures |r| > 0 && (r[0] == e || (|s| > 0 && r[0] == s[0]))
    decreases |s|
  {
    if s == [] || e.bumpedAtVersion >= s[0].bumpedAtVersion then
      DescendingCons(e, s);
      [e] + s
    else
      assert s == [s[0]] + s[1..];
      assert Descending(s[1..]) by {
        forall i, j | 0 <= i < j < |s[1..]|
          ensures s[1..][i].bumpedAtVersion >= s[1..][j].bumpedAtVersion
        {
          assert s[1..][i] == s[i + 1] && s[1..][j] == s[j + 1];
        }
      }
      var t := InsertDescending(e, s[1..]);
      assert t[0] == e || t[0] == s[1];
      DescendingCons(s[0], t);
      [s[0]] + t
  }

  /** A sort by bump version, newest first. */
  function SortDescending(s: seq<UpgraderEntry>): (r: seq<UpgraderEntry>)
    ensures Descending(r) && multiset(r) == multiset(s)
    decreases |s|
  {
    if s == [] then []
    else
      assert s == [s[0]] + s[1..];
      InsertDescending(s[0], SortDescending(s[1..]))
  }

  /** A list already newest first is left as it is. */
  lemma {:induction false} SortDescendingKeepsSorted(s: seq<UpgraderEntry>)
    requires Descending(s)
    ensures SortDescending(s) == s
    decreases |s|
  {
    if s != [] {
      SortDescendingKeepsSorted(s[1..]);
    }
  }

  /** `get_operator_version_map` with the sort applied to the stored lists, as the comparator evidently intends. */
  function GetOperatorVersionMap(s: State): (r: (State, map<string, seq<UpgraderEntry>>))
    requires Inv(s)
    ensures r.0.sorted && Inv(r.0) && r.1 == r.0.entries
    ensures r.0.entries.Keys == s.entries.Keys
    ensures forall op :: op in s.entries ==> multiset(r.0.entries[op]) == multiset(s.entries[op])
  {
    if s.sorted then (s, s.entries)
    else
      var m := map op | op in s.entries :: SortDescending(s.entries[op]);
      (State(m, true), m)
  }

  /** A second call is a pure read, and sorting lists that are already newest first changes nothing. */
  lemma GetTwice(s: State)
    requires Inv(s)
    ensures var r := GetOperatorVersionMap(s);
      GetOperatorVersionMap(r.0) == r
    ensures AllDescending(s.entries) ==> GetOperatorVersionMap(s).1 == s.entries
  {
    if AllDescending(s.entries) && !s.sorted {
      forall op | op in s.entries
        ensures SortDescending(s.entries[op]) == s.entries[op]
      {
        SortDescendingKeepsSorted(s.entries[op]);
      }
    }
  }

  /** With the sort in place, the same scenario reads newest first. */
  lemma GetSortsNewerFirst(s: State, op: string, prior: UpgraderEntry, e: UpgraderEntry)
    requires op in s.entries && s.entries[op] == [prior]
    requires prior.bumpedAtVersion < e.bumpedAtVersion
    ensures GetOperatorVersionMap(AddEntry(s, op, e)).1[op] == [e, prior]
  {
    assert SortDescending([e]) == [e];
    assert [prior, e][1..] == [e];
  }
}
