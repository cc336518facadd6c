/**
 How far a schema plan has run, told from the names of the columns. Drops, renames
 and additions come first. If no name is taken over by a different column, each of
 them moves one column straight from its old name to its new one, so the names of an
 interrupted plan differ from those of both endpoints.
 */
module PlanProgress {
  import opened Finite
  import opened Text
  import opened Columns
  import opened SchemaDiff
  import opened Execution
  import opened RenameGraph
  import opened Planner
  import opened SchemaPlanning
  import opened FewestRenames

  /** An operation that changes which names there are. */
  predicate Structural(op: Operation) {
    Phase(op) < 3
  }

  function OrdinalOf(op: Operation): int {
    if op.AddColumn? then op.after.ordinal else op.before.ordinal
  }

  /** The structural operations at the front. */
  function StructuralLength(ops: seq<Operation>): (n: nat)
    ensures n <= |ops|
  {
    if ops == [] || !Structural(ops[0]) then 0 else 1 + StructuralLength(ops[1..])
  }

  ghost predicate StructuralFirst(ops: seq<Operation>, n: nat) {
    n <= |ops| && forall i | 0 <= i < |ops| :: Structural(ops[i]) <==> i < n
  }

  lemma {:induction false} StructuralPrefix(ops: seq<Operation>, n: nat)
    requires StructuralFirst(ops, n)
    ensures StructuralLength(ops) == n
  {
    if n > 0 {
      assert Structural(ops[0]);
      assert forall i | 0 <= i < |ops| - 1 :: ops[1..][i] == ops[i + 1];
      StructuralPrefix(ops[1..], n - 1);
    } else if ops != [] {
      assert !Structural(ops[0]);
    }
  }

  lemma PhasesLength(
    ops: seq<Operation>, d: Diff, mapping: ColumnNameMapping, renames: seq<Operation>, alterations: seq<Operation>)
    requires PhasedBy(ops, d, mapping, renames, alterations)
    ensures StructuralLength(ops) == |d.dropped| + |renames| + |d.added|
    ensures StructuralFirst(ops, StructuralLength(ops))
  {
    var drops, additions := Drops(d.dropped, mapping), Additions(d.added, mapping);
    var n := |drops| + |renames| + |additions|;
    forall i | 0 <= i < |ops| ensures Structural(ops[i]) <==> i < n {
      if i >= n {
        assert ops[i] == alterations[i - n];
      } else if i >= |drops| + |renames| {
        assert ops[i] == additions[i - |drops| - |renames|];
      } else if i >= |drops| {
        assert ops[i] == renames[i - |drops|];
      } else {
        assert ops[i] == drops[i];
      }
    }
    StructuralPrefix(ops, n);
  }

  lemma PhasesSplit(ops: seq<Operation>, d: Diff, mapping: ColumnNameMapping)
    requires InPhases(ops, d, mapping)
    ensures StructuralFirst(ops, StructuralLength(ops))
  {
    var renames, alterations :| PhasedBy(ops, d, mapping, renames, alterations);
    PhasesLength(ops, d, mapping, renames, alterations);
  }

  lemma {:induction false} AllRenames(ops: seq<Operation>, renames: seq<Operation>)
    requires forall k | 0 <= k < |renames| :: IsRename(renames[k])
    ensures CountRenames(ops + renames) == CountRenames(ops) + |renames|
  {
    if renames == [] {
      assert ops + renames == ops;
    } else {
      var front, last := renames[..|renames| - 1], renames[|renames| - 1];
      AllRenames(ops, front);
      CountRenamesAppend(ops + front, last);
      assert ops + renames == ops + front + [last];
    }
  }

  lemma PhasesRenames(
    ops: seq<Operation>, d: Diff, mapping: ColumnNameMapping, renames: seq<Operation>, alterations: seq<Operation>)
    requires PhasedBy(ops, d, mapping, renames, alterations)
    ensures CountRenames(ops) == |renames|
  {
    var drops, additions := Drops(d.dropped, mapping), Additions(d.added, mapping);
    forall op | op in drops || op in additions || op in alterations ensures !IsRename(op) {
      assert op in alterations ==> Phase(op) == 3;
    }
    assert [] + drops == drops;
    CountUnchanged([], drops);
    AllRenames(drops, renames);
    CountUnchanged(drops + renames, additions);
    CountUnchanged(drops + renames + additions, alterations);
  }

  /** How long the structural part of a plan is, and what follows it. */
  lemma PhaseLengths(ops: seq<Operation>, d: Diff, mapping: ColumnNameMapping)
    requires InPhases(ops, d, mapping)
    ensures StructuralLength(ops) == |d.dropped| + CountRenames(ops) + |d.added|
    ensures ops[StructuralLength(ops)..] == Alterations(d.altered, mapping)
  {
    var renames, alterations :| PhasedBy(ops, d, mapping, renames, alterations);
    PhasesLength(ops, d, mapping, renames, alterations);
    PhasesRenames(ops, d, mapping, renames, alterations);
  }

  /** Two plans for one change have the same diff, the same length and the same structural length. */
  lemma PlansAgree(
    before: ReplicatedTableSchema, after: ReplicatedTableSchema, mapping: ColumnNameMapping, plan: SchemaPlan,
    again: SchemaPlan)
    requires PlanCorrect(before, after, mapping, plan) && PlanCorrect(before, after, mapping, again)
    ensures plan.diff == again.diff
    ensures StructuralLength(plan.operations) == StructuralLength(again.operations)
    ensures plan.operations[StructuralLength(plan.operations)..] ==
            again.operations[StructuralLength(again.operations)..]
    ensures |plan.operations| == |again.operations|
  {
    DiffIgnoresListing(before, after, plan.diff, before, after, again.diff);
    PhaseLengths(plan.operations, plan.diff, mapping);
    PhaseLengths(again.operations, again.diff, mapping);
  }

  // ---------- the name of one column ----------

  function NameAt(t: Table, o: int): Option<string> {
    if o in t then Some(t[o].name) else None
  }

  /** Only a structural operation on a column changes its name or its presence. */
  lemma NameKept(t: Table, op: Operation, o: int)
    requires KeyedByOrdinal(t) && Apply(t, op).Some? && !(Structural(op) && OrdinalOf(op) == o)
    ensures NameAt(Apply(t, op).value, o) == NameAt(t, o)
  {
  }

  lemma NameMoved(t: Table, op: Operation)
    requires KeyedByOrdinal(t) && Apply(t, op).Some? && Structural(op)
    ensures NameAt(Apply(t, op).value, OrdinalOf(op)) != NameAt(t, OrdinalOf(op))
  {
  }

  lemma {:induction false} NameConstant(t: Table, ops: seq<Operation>, o: int, i: nat, j: nat)
    requires Runs(t, ops) && i <= j <= |ops|
    requires forall k | i <= k < j :: !(Structural(ops[k]) && OrdinalOf(ops[k]) == o)
    ensures NameAt(At(t, ops, j), o) == NameAt(At(t, ops, i), o)
    decreases j
  {
    if i < j {
      NameConstant(t, ops, o, i, j - 1);
      PrefixesExecute(t, ops, j - 1);
      NextApplies(t, ops, j - 1);
      NameKept(At(t, ops, j - 1), ops[j - 1], o);
    }
  }

  // ---------- no name changes hands ----------

  /** A name of both endpoints belongs to the same column in both. */
  ghost predicate NoReuse(from: Table, to: Table) {
    forall o, p | o in from && p in to && from[o].name == to[p].name :: o == p
  }

  /** Operations that lead from one endpoint to the other and move every column at most once. */
  ghost predicate MovesOnce(from: Table, to: Table, ops: seq<Operation>) {
    && Runs(from, ops) && DistinctNames(to)
    && (forall o :: NameAt(Execute(from, ops).value, o) == NameAt(to, o))
    && forall i, j | 0 <= i < j < |ops| && Structural(ops[i]) && Structural(ops[j]) ::
         OrdinalOf(ops[i]) != OrdinalOf(ops[j])
  }

  /** A column is at its old name before its operation and at its new name after it. */
  lemma StraightMove(from: Table, to: Table, ops: seq<Operation>, i: nat, k: nat)
    requires MovesOnce(from, to, ops) && i < |ops| && k <= |ops| && Structural(ops[i])
    ensures NameAt(At(from, ops, k), OrdinalOf(ops[i])) ==
            if i < k then NameAt(to, OrdinalOf(ops[i])) else NameAt(from, OrdinalOf(ops[i]))
    ensures NameAt(to, OrdinalOf(ops[i])) != NameAt(from, OrdinalOf(ops[i]))
  {
    var o, n := OrdinalOf(ops[i]), |ops|;
    FirstAndLast(from, ops);
    NameConstant(from, ops, o, 0, i);
    NameConstant(from, ops, o, i + 1, n);
    if i < k {
      NameConstant(from, ops, o, k, n);
    } else {
      NameConstant(from, ops, o, 0, k);
    }
    PrefixesExecute(from, ops, i);
    NextApplies(from, ops, i);
    NameMoved(At(from, ops, i), ops[i]);
  }

  lemma OldOrNew(from: Table, to: Table, ops: seq<Operation>, k: nat, o: int)
    requires MovesOnce(from, to, ops) && k <= |ops|
    ensures NameAt(At(from, ops, k), o) == NameAt(from, o) || NameAt(At(from, ops, k), o) == NameAt(to, o)
  {
    if i :| 0 <= i < |ops| && Structural(ops[i]) && OrdinalOf(ops[i]) == o {
      StraightMove(from, to, ops, i, k);
    } else {
      FirstAndLast(from, ops);
      NameConstant(from, ops, o, 0, k);
    }
  }

  /** With the names it started with, a plan has done nothing structural. */
  lemma AtOldNames(from: Table, to: Table, ops: seq<Operation>, i: nat, k: nat)
    requires MovesOnce(from, to, ops) && NoReuse(from, to) && i < k <= |ops| && Structural(ops[i])
    ensures Names(At(from, ops, k)) != Names(from)
  {
    var t, o := At(from, ops, k), OrdinalOf(ops[i]);
    StraightMove(from, to, ops, i, k);
    if Names(t) == Names(from) {
      if o in from {
        assert from[o].name in Names(t);
        var p := OwnerOf(t, from[o].name);
        OldOrNew(from, to, ops, k, p);
        assert false;
      } else {
        assert t[o].name in Names(from);
        var q := OwnerOf(from, t[o].name);
        assert false;
      }
    }
  }

  /** With the names it should end with, a plan has nothing structural left to do. */
  lemma AtNewNames(from: Table, to: Table, ops: seq<Operation>, i: nat, k: nat)
    requires MovesOnce(from, to, ops) && NoReuse(from, to) && k <= i < |ops| && Structural(ops[i])
    ensures Names(At(from, ops, k)) != Names(to)
  {
    var t, o := At(from, ops, k), OrdinalOf(ops[i]);
    StraightMove(from, to, ops, i, k);
    if Names(t) == Names(to) {
      if o in to {
        assert to[o].name in Names(t);
        var p := OwnerOf(t, to[o].name);
        OldOrNew(from, to, ops, k, p);
        assert false;
      } else {
        assert t[o].name in Names(to);
        var q := OwnerOf(to, t[o].name);
        assert false;
      }
    }
  }

  // ---------- correct plans move every column at most once ----------

  lemma NoCycles(from: Table, to: Table)
    requires NoReuse(from, to) && Valid(RenameRequests(from, to))
    ensures Cycles(RenameRequests(from, to)) == {}
  {
    var g := RenameRequests(from, to);
    if Cycles(g) != {} {
      var c := Pick(Cycles(g));
      var o := Pick(c);
      var q := Preimage(g.source, c, g.target[o]);
      assert false;
    }
  }

  /** Without cycles the requests are all that is renamed, and nothing is renamed twice. */
  lemma RenamedOnce(from: Table, to: Table, ops: seq<Operation>)
    requires Endpoints(from, to) && NoReuse(from, to)
    requires KeepsShared(ops, from.Keys * to.Keys) && Execute(from, ops) == Some(ReachedTable(from, to))
    requires RenameCounts(ops, Names(from) + Names(to), Common(from, to), WantedNames(from, to))
    ensures RenamedColumns(ops) <= from.Keys * to.Keys && Twice(ops) == {}
  {
    var g, want := RenameRequests(from, to), WantedNames(from, to);
    NoCycles(from, to);
    assert want.Keys == from.Keys * to.Keys;
    forall o | o in g.source ensures o in RenamedColumns(ops) {
      MustRename(from, want, ops, o);
    }
    CountBound(ops);
    SubsetSize(g.source.Keys, RenamedColumns(ops));
    assert |g.source| == |g.source.Keys|;
  }

  lemma RenamesApart(ops: seq<Operation>, i: nat, j: nat)
    requires Twice(ops) == {} && i < j < |ops| && IsRename(ops[i]) && IsRename(ops[j])
    ensures OrdinalOf(ops[i]) != OrdinalOf(ops[j])
  {
    if OrdinalOf(ops[i]) == OrdinalOf(ops[j]) {
      RenamedTwice(ops, OrdinalOf(ops[i]), i, j);
      CountedTwice(ops, OrdinalOf(ops[i]));
      assert false;
    }
  }

  lemma CountedTwice(ops: seq<Operation>, o: int)
    requires RenamesOf(ops, o) >= 2
    ensures o in Twice(ops)
  {
    RenamedCounts(ops, o);
  }

  /** The ordinals of drops and additions are those that leave and enter, once each. */
  ghost predicate Presence(from: Table, to: Table, ops: seq<Operation>) {
    && (forall i | 0 <= i < |ops| && ops[i].DropColumn? :: OrdinalOf(ops[i]) in from.Keys - to.Keys)
    && (forall i | 0 <= i < |ops| && ops[i].AddColumn? :: OrdinalOf(ops[i]) in to.Keys - from.Keys)
    && (forall i, j | 0 <= i < j < |ops| && ops[i].DropColumn? && ops[j].DropColumn? ::
          OrdinalOf(ops[i]) != OrdinalOf(ops[j]))
    && (forall i, j | 0 <= i < j < |ops| && ops[i].AddColumn? && ops[j].AddColumn? ::
          OrdinalOf(ops[i]) != OrdinalOf(ops[j]))
  }

  lemma DropOrAdd(ops: seq<Operation>, d: Diff, mapping: ColumnNameMapping, renames: seq<Operation>,
                  alterations: seq<Operation>, i: nat)
    requires PhasedBy(ops, d, mapping, renames, alterations) && i < |ops|
    ensures ops[i].DropColumn? ==> i < |d.dropped| && ops[i].before == mapping.MapColumn(d.dropped[i].column)
    ensures ops[i].AddColumn? ==>
              var k := i - |d.dropped| - |renames|;
              0 <= k < |d.added| && ops[i].after == mapping.MapColumn(d.added[k].column)
  {
    var drops, additions := Drops(d.dropped, mapping), Additions(d.added, mapping);
    if i < |drops| {
      assert ops[i] == drops[i];
    } else if i < |drops| + |renames| {
      assert ops[i] == renames[i - |drops|];
    } else if i < |drops| + |renames| + |additions| {
      assert ops[i] == additions[i - |drops| - |renames|];
    } else {
      assert ops[i] == alterations[i - |drops| - |renames| - |additions|];
    }
  }

  lemma OrdinalPresence(ops: seq<Operation>, d: Diff, mapping: ColumnNameMapping, renames: seq<Operation>,
                        alterations: seq<Operation>, from: Table, to: Table, i: nat)
    requires PhasedBy(ops, d, mapping, renames, alterations) && Describes(d, mapping, from, to) && i < |ops|
    ensures ops[i].DropColumn? ==> OrdinalOf(ops[i]) in from.Keys - to.Keys
    ensures ops[i].AddColumn? ==> OrdinalOf(ops[i]) in to.Keys - from.Keys
  {
    DropOrAdd(ops, d, mapping, renames, alterations, i);
    if ops[i].DropColumn? {
      assert d.dropped[i] in d.dropped && OrdinalOf(ops[i]) in DroppedOrdinals(d.dropped);
    }
    if ops[i].AddColumn? {
      var k := i - |d.dropped| - |renames|;
      assert d.added[k] in d.added && OrdinalOf(ops[i]) in AddedOrdinals(d.added);
    }
  }

  lemma OrdinalsApart(ops: seq<Operation>, d: Diff, mapping: ColumnNameMapping, renames: seq<Operation>,
                      alterations: seq<Operation>, i: nat, j: nat)
    requires PhasedBy(ops, d, mapping, renames, alterations) && i < j < |ops|
    requires AscendingRemovals(d.dropped) && AscendingAdditions(d.added)
    requires (ops[i].DropColumn? && ops[j].DropColumn?) || (ops[i].AddColumn? && ops[j].AddColumn?)
    ensures OrdinalOf(ops[i]) != OrdinalOf(ops[j])
  {
    DropOrAdd(ops, d, mapping, renames, alterations, i);
    DropOrAdd(ops, d, mapping, renames, alterations, j);
  }

  lemma PhasesPresence(ops: seq<Operation>, d: Diff, mapping: ColumnNameMapping, from: Table, to: Table)
    requires InPhases(ops, d, mapping) && Describes(d, mapping, from, to)
    ensures Presence(from, to, ops)
  {
    var renames, alterations :| PhasedBy(ops, d, mapping, renames, alterations);
    forall i | 0 <= i < |ops| {
      OrdinalPresence(ops, d, mapping, renames, alterations, from, to, i);
    }
    forall i, j | 0 <= i < j < |ops| && ops[i].DropColumn? && ops[j].DropColumn?
      ensures OrdinalOf(ops[i]) != OrdinalOf(ops[j])
    {
      OrdinalsApart(ops, d, mapping, renames, alterations, i, j);
    }
    forall i, j | 0 <= i < j < |ops| && ops[i].AddColumn? && ops[j].AddColumn?
      ensures OrdinalOf(ops[i]) != OrdinalOf(ops[j])
    {
      OrdinalsApart(ops, d, mapping, renames, alterations, i, j);
    }
  }

  lemma PresenceKeepsShared(from: Table, to: Table, ops: seq<Operation>)
    requires Presence(from, to, ops)
    ensures KeepsShared(ops, from.Keys * to.Keys)
  {
  }

  lemma MovesApart(from: Table, to: Table, ops: seq<Operation>, i: nat, j: nat)
    requires Presence(from, to, ops) && RenamedColumns(ops) <= from.Keys * to.Keys && Twice(ops) == {}
    requires i < j < |ops| && Structural(ops[i]) && Structural(ops[j])
    ensures OrdinalOf(ops[i]) != OrdinalOf(ops[j])
  {
    if IsRename(ops[i]) && IsRename(ops[j]) {
      RenamesApart(ops, i, j);
    }
    assert ops[i] in ops && ops[j] in ops;
    assert IsRename(ops[i]) ==> OrdinalOf(ops[i]) in RenamedColumns(ops);
    assert IsRename(ops[j]) ==> OrdinalOf(ops[j]) in RenamedColumns(ops);
  }

  /** A correct plan under which no name changes hands moves every column at most once. */
  lemma PlanMovesOnce(
    before: ReplicatedTableSchema, after: ReplicatedTableSchema, mapping: ColumnNameMapping, plan: SchemaPlan)
    requires DistinctOrdinals(before.Columns()) && DistinctOrdinals(after.Columns())
    requires PlanCorrect(before, after, mapping, plan)
    requires NoReuse(DestinationTable(before, mapping), DestinationTable(after, mapping))
    ensures MovesOnce(DestinationTable(before, mapping), DestinationTable(after, mapping), plan.operations)
  {
    var from, to, ops := DestinationTable(before, mapping), DestinationTable(after, mapping), plan.operations;
    DiffDescribes(before, after, plan.diff, mapping);
    PhasesPresence(ops, plan.diff, mapping, from, to);
    PresenceKeepsShared(from, to, ops);
    RenamedOnce(from, to, ops);
    forall i, j | 0 <= i < j < |ops| && Structural(ops[i]) && Structural(ops[j])
      ensures OrdinalOf(ops[i]) != OrdinalOf(ops[j])
    {
      MovesApart(from, to, ops, i, j);
    }
    forall o ensures NameAt(Execute(from, ops).value, o) == NameAt(to, o) {}
  }
}
