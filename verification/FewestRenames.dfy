/**
 How many renames a schema change needs. Every shared column that changes its name
 is renamed, and of the columns that trade names in a cycle the first to move is
 renamed twice, because its final name is still taken.
 */
module FewestRenames {
  import opened Finite
  import opened Columns
  import opened Execution
  import opened RenameGraph
  import opened RenamePhase

  predicate RenamesColumn(op: Operation, o: int) {
    IsRename(op) && op.before.ordinal == o
  }

  function RenamesOf(ops: seq<Operation>, o: int): nat {
    if ops == [] then 0
    else RenamesOf(ops[..|ops| - 1], o) + if RenamesColumn(ops[|ops| - 1], o) then 1 else 0
  }

  ghost function RenamedColumns(ops: seq<Operation>): set<int> {
    set op | op in ops && IsRename(op) :: op.before.ordinal
  }

  ghost function Twice(ops: seq<Operation>): set<int> {
    set o | o in RenamedColumns(ops) && RenamesOf(ops, o) >= 2
  }

  // ---------- counting ----------

  lemma RenamedAppend(ops: seq<Operation>, op: Operation)
    ensures RenamedColumns(ops + [op]) == RenamedColumns(ops) + if IsRename(op) then {op.before.ordinal} else {}
  {
    var more := ops + [op];
    assert op in more && forall x :: x in more <==> x in ops || x == op;
    forall o
      ensures o in RenamedColumns(more) <==> o in RenamedColumns(ops) || (IsRename(op) && o == op.before.ordinal)
    {
      if o in RenamedColumns(ops) {
        var x :| x in ops && IsRename(x) && x.before.ordinal == o;
        assert x in more;
      }
      if o in RenamedColumns(more) {
        var x :| x in more && IsRename(x) && x.before.ordinal == o;
      }
    }
  }

  lemma {:induction false} RenamedCounts(ops: seq<Operation>, o: int)
    ensures o in RenamedColumns(ops) <==> RenamesOf(ops, o) > 0
  {
    if ops != [] {
      var front, op := ops[..|ops| - 1], ops[|ops| - 1];
      assert ops == front + [op];
      RenamedCounts(front, o);
      RenamedAppend(front, op);
    }
  }

  /** Columns renamed once count once, columns renamed more often count twice. */
  lemma {:induction false} CountBound(ops: seq<Operation>)
    ensures |RenamedColumns(ops)| + |Twice(ops)| <= CountRenames(ops)
  {
    if ops != [] {
      var front, op := ops[..|ops| - 1], ops[|ops| - 1];
      assert ops == front + [op];
      CountBound(front);
      RenamedAppend(front, op);
      if IsRename(op) {
        CountStep(front, op);
      } else {
        assert RenamedColumns(ops) == RenamedColumns(front);
        assert Twice(ops) == Twice(front);
      }
    }
  }

  lemma CountStep(front: seq<Operation>, op: Operation)
    requires IsRename(op) && RenamedColumns(front + [op]) == RenamedColumns(front) + {op.before.ordinal}
    ensures |RenamedColumns(front + [op])| + |Twice(front + [op])| <= |RenamedColumns(front)| + |Twice(front)| + 1
  {
    var o, ops := op.before.ordinal, front + [op];
    assert ops[..|front|] == front;
    RenamedCounts(front, o);
    if o in RenamedColumns(front) {
      assert RenamedColumns(ops) == RenamedColumns(front);
      assert Twice(ops) == Twice(front) + {o};
    } else {
      AddedSize(RenamedColumns(front), o);
      assert Twice(ops) == Twice(front);
    }
  }

  lemma {:induction false} RenamedTwice(ops: seq<Operation>, o: int, i: nat, k: nat)
    requires i < |ops| && k < |ops| && i != k && RenamesColumn(ops[i], o) && RenamesColumn(ops[k], o)
    ensures RenamesOf(ops, o) >= 2
  {
    var front := ops[..|ops| - 1];
    if i < |front| && k < |front| {
      RenamedTwice(front, o, i, k);
    } else {
      var earlier := if i < |front| then i else k;
      assert front[earlier] in front && front[earlier].before.ordinal in RenamedColumns(front);
      RenamedCounts(front, o);
    }
  }

  // ---------- names while operations run ----------

  /** Operations that neither drop nor add a shared column. */
  ghost predicate KeepsShared(ops: seq<Operation>, shared: set<int>) {
    forall i | 0 <= i < |ops| ::
      && (ops[i].DropColumn? ==> ops[i].before.ordinal !in shared)
      && (ops[i].AddColumn? ==> ops[i].after.ordinal !in shared)
  }

  ghost predicate Runs(t: Table, ops: seq<Operation>) {
    KeyedByOrdinal(t) && DistinctNames(t) && Execute(t, ops).Some?
  }

  /** The table after `k` operations. */
  ghost function At(t: Table, ops: seq<Operation>, k: nat): Table
    requires Runs(t, ops) && k <= |ops|
  {
    PrefixesExecute(t, ops, k);
    Execute(t, ops[..k]).value
  }

  /** A shared column keeps its name while it is not renamed. */
  lemma {:induction false} NameStays(t: Table, ops: seq<Operation>, shared: set<int>, o: int, i: nat, j: nat)
    requires Runs(t, ops) && KeepsShared(ops, shared) && o in shared && i <= j <= |ops| && o in At(t, ops, i)
    requires forall k | i <= k < j :: !RenamesColumn(ops[k], o)
    ensures o in At(t, ops, j) && At(t, ops, j)[o].name == At(t, ops, i)[o].name
    decreases j
  {
    if i < j {
      NameStays(t, ops, shared, o, i, j - 1);
      NextApplies(t, ops, j - 1);
      assert !RenamesColumn(ops[j - 1], o);
    }
  }

  lemma FirstAndLast(t: Table, ops: seq<Operation>)
    requires Runs(t, ops)
    ensures At(t, ops, 0) == t && At(t, ops, |ops|) == Execute(t, ops).value
  {
    assert ops[..0] == [] && ops[..|ops|] == ops;
  }

  /** A list of operations that takes every shared column from its old to its wanted name. */
  ghost predicate Reaches(t: Table, want: map<int, string>, ops: seq<Operation>) {
    && Runs(t, ops) && want.Keys <= t.Keys && KeepsShared(ops, want.Keys)
    && forall o | o in want :: o in Execute(t, ops).value && Execute(t, ops).value[o].name == want[o]
  }

  lemma MustRename(t: Table, want: map<int, string>, ops: seq<Operation>, o: int)
    requires Reaches(t, want, ops) && o in want && t[o].name != want[o]
    ensures o in RenamedColumns(ops)
  {
    if o !in RenamedColumns(ops) {
      forall k | 0 <= k < |ops| ensures !RenamesColumn(ops[k], o) {
        assert ops[k] in ops;
      }
      FirstAndLast(t, ops);
      NameStays(t, ops, want.Keys, o, 0, |ops|);
      assert false;
    }
  }

  // ---------- the first to move on a cycle ----------

  ghost function RenamesIn(ops: seq<Operation>, cycle: set<int>): set<int> {
    set i | 0 <= i < |ops| && IsRename(ops[i]) && ops[i].before.ordinal in cycle
  }

  /** The requests of the shared columns of a table. */
  ghost predicate SharedRequests(t: Table, common: Table, want: map<int, string>) {
    && common.Keys == want.Keys && (forall o | o in common :: o in t && common[o] == t[o])
    && Valid(Requests(common, want))
  }

  /** The first column of a cycle that is renamed finds its wanted name taken, so it is renamed again. */
  lemma FirstMover(t: Table, common: Table, want: map<int, string>, ops: seq<Operation>, cycle: set<int>)
    returns (o: int)
    requires Reaches(t, want, ops) && SharedRequests(t, common, want) && IsCycle(Requests(common, want), cycle)
    ensures o in cycle && RenamesOf(ops, o) >= 2
  {
    var moves := RenamesIn(ops, cycle);
    var member := Pick(cycle);
    MustRename(t, want, ops, member);
    var op :| op in ops && IsRename(op) && op.before.ordinal == member;
    var k :| 0 <= k < |ops| && ops[k] == op;
    assert k in moves;
    var i := Least(moves);
    o := ops[i].before.ordinal;
    forall j | 0 <= j < i ensures !(IsRename(ops[j]) && ops[j].before.ordinal in cycle) {
      assert j !in moves;
    }
    var again := RenamedAgain(t, common, want, ops, cycle, i, o);
    RenamedTwice(ops, o, i, again);
  }

  lemma RenamedAgain(
    t: Table, common: Table, want: map<int, string>, ops: seq<Operation>, cycle: set<int>, i: nat, o: int)
    returns (again: nat)
    requires Reaches(t, want, ops) && SharedRequests(t, common, want) && IsCycle(Requests(common, want), cycle)
    requires i < |ops| && o in cycle && RenamesColumn(ops[i], o)
    requires forall k | 0 <= k < i :: !(IsRename(ops[k]) && ops[k].before.ordinal in cycle)
    ensures again != i && again < |ops| && RenamesColumn(ops[again], o)
  {
    var graph := Requests(common, want);
    var q := Preimage(graph.source, cycle, graph.target[o]);
    FirstAndLast(t, ops);
    NameStays(t, ops, want.Keys, q, 0, i);
    NameStays(t, ops, want.Keys, o, 0, i);
    NextApplies(t, ops, i);
    var before, after := At(t, ops, i), At(t, ops, i + 1);
    assert before[q].name in Names(before) && before[q].name == want[o];
    assert after[o].name != want[o];
    if k :| i + 1 <= k < |ops| && RenamesColumn(ops[k], o) {
      again := k;
    } else {
      NameStays(t, ops, want.Keys, o, i + 1, |ops|);
      assert false;
    }
  }

  ghost function Mover(t: Table, common: Table, want: map<int, string>, ops: seq<Operation>, cycle: set<int>): (o: int)
    requires Reaches(t, want, ops) && SharedRequests(t, common, want) && IsCycle(Requests(common, want), cycle)
    ensures o in cycle && RenamesOf(ops, o) >= 2
  {
    assert exists o :: o in cycle && RenamesOf(ops, o) >= 2 by {
      var o := FirstMover(t, common, want, ops, cycle);
    }
    var o :| o in cycle && RenamesOf(ops, o) >= 2;
    o
  }

  /** One rename for each request and one more for each cycle are needed, whatever the order and the names used. */
  lemma AtLeast(t: Table, common: Table, want: map<int, string>, ops: seq<Operation>)
    requires Reaches(t, want, ops) && SharedRequests(t, common, want)
    ensures var graph := Requests(common, want);
            |graph.source| + |Cycles(graph)| <= CountRenames(ops)
  {
    var graph := Requests(common, want);
    forall o | o in graph.source ensures o in RenamedColumns(ops) {
      MustRename(t, want, ops, o);
    }
    SubsetSize(graph.source.Keys, RenamedColumns(ops));
    CyclesMoveTwice(t, common, want, ops);
    CountBound(ops);
    assert |graph.source| == |graph.source.Keys|;
  }

  lemma CyclesMoveTwice(t: Table, common: Table, want: map<int, string>, ops: seq<Operation>)
    requires Reaches(t, want, ops) && SharedRequests(t, common, want)
    ensures |Cycles(Requests(common, want))| <= |Twice(ops)|
  {
    var graph := Requests(common, want);
    var cycles := Cycles(graph);
    var movers := map c | c in cycles :: Mover(t, common, want, ops, c);
    forall c, d | c in cycles && d in cycles && movers[c] == movers[d] ensures c == d {
      CyclesDisjoint(graph, c, d, movers[c]);
    }
    ImageSize(movers, cycles);
    forall o | o in Image(movers, cycles) ensures o in Twice(ops) {
      var c := Preimage(movers, cycles, o);
      RenamedCounts(ops, o);
    }
    SubsetSize(Image(movers, cycles), Twice(ops));
  }
}
