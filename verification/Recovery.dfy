/**
 Recovering an interrupted schema change in ClickHouse. DDL is not transactional
 there, so recovery looks at the names of the columns that are present and decides
 whether nothing, everything or a part of the change has happened.
 */
module Recovery {
  import opened Integers
  import opened Text
  import opened Snapshots
  import opened Columns
  import opened SchemaDiff
  import opened Execution
  import opened PhysicalExecution
  import opened RenameGraph
  import opened Planner
  import opened SchemaPlanning
  import opened FewestRenames
  import opened ColumnLayout
  import opened PlanProgress
  import opened MetadataReplay

  // ---------- names in physical order ----------

  /** The destination names of a schema, in its own order. */
  function DestinationNames(schema: ReplicatedTableSchema, mapping: ColumnNameMapping): seq<string> {
    var columns := schema.Columns();
    seq(|columns|, i requires 0 <= i < |columns| => mapping.MapName(columns[i].name))
  }

  lemma SortedDistinct(columns: seq<ColumnSchema>)
    requires Sorted(columns)
    ensures DistinctOrdinals(columns)
  {
  }

  function OrdinalList(columns: seq<ColumnSchema>): seq<int> {
    seq(|columns|, i requires 0 <= i < |columns| => columns[i].ordinal)
  }

  lemma SortedLists(columns: seq<ColumnSchema>)
    requires Sorted(columns)
    ensures ListsKeys(OrdinalList(columns), Ordinals(columns))
  {
    var order := OrdinalList(columns);
    forall o ensures o in order <==> o in Ordinals(columns) {
      if o in order {
        var i :| 0 <= i < |order| && order[i] == o;
        assert columns[i] in columns;
      }
      if o in Ordinals(columns) {
        var c :| c in columns && c.ordinal == o;
        var i :| 0 <= i < |columns| && columns[i] == c;
        assert order[i] == o;
      }
    }
  }

  /** Schemas list their columns by ordinal, so their names are those of the table in ordinal order. */
  lemma SchemaOrder(schema: ReplicatedTableSchema, mapping: ColumnNameMapping)
    requires Sorted(schema.Columns())
    ensures DestinationNames(schema, mapping) == NamesInOrder(DestinationTable(schema, mapping))
  {
    var columns, t, names := schema.Columns(), DestinationTable(schema, mapping), DestinationNames(schema, mapping);
    var order := OrdinalList(columns);
    SortedDistinct(columns);
    SortedLists(columns);
    TableColumns(schema, mapping);
    forall i | 0 <= i < |order| ensures order[i] in t && names[i] == t[order[i]].name {
      assert columns[i] in columns;
    }
    MatchesInOrder(names, order, t);
  }

  lemma LaterNameKept(t: Table, op: Operation, o: int)
    requires KeyedByOrdinal(t) && Apply(t, op).Some? && Phase(op) >= 2 && o in t
    ensures NameAt(Apply(t, op).value, o) == NameAt(t, o)
  {
    NameKept(t, op, o);
  }

  lemma {:induction false} LaterNamesStay(t: Table, ops: seq<Operation>, o: int, i: nat, j: nat)
    requires Runs(t, ops) && i <= j <= |ops| && o in At(t, ops, i)
    requires forall k | i <= k < j :: Phase(ops[k]) >= 2
    ensures NameAt(At(t, ops, j), o) == NameAt(At(t, ops, i), o)
    decreases j
  {
    if i < j {
      LaterNamesStay(t, ops, o, i, j - 1);
      PrefixesExecute(t, ops, j - 1);
      NextApplies(t, ops, j - 1);
      LaterNameKept(At(t, ops, j - 1), ops[j - 1], o);
    }
  }

  /** When a plan adds a column, the columns present have their final names. */
  ghost predicate AddsLast(from: Table, to: Table, ops: seq<Operation>) {
    && Runs(from, ops)
    && forall k | 0 <= k < |ops| && ops[k].AddColumn? ::
         && OrdinalOf(ops[k]) in to && to[OrdinalOf(ops[k])].name == ops[k].after.name
         && forall o | o in At(from, ops, k) :: NameAt(At(from, ops, k), o) == NameAt(to, o)
  }

  lemma LaterPhases(ops: seq<Operation>, d: Diff, mapping: ColumnNameMapping, k: nat, j: nat)
    requires InPhases(ops, d, mapping) && k <= j < |ops| && ops[k].AddColumn?
    ensures Phase(ops[j]) >= 2
  {
    var renames, alterations :| PhasedBy(ops, d, mapping, renames, alterations);
    var drops, additions := Drops(d.dropped, mapping), Additions(d.added, mapping);
    DropOrAdd(ops, d, mapping, renames, alterations, k);
    var first := |drops| + |renames|;
    if j < first + |additions| {
      assert ops[j] == additions[j - first];
    } else {
      assert ops[j] == alterations[j - first - |additions|];
    }
  }

  lemma AddedName(ops: seq<Operation>, d: Diff, mapping: ColumnNameMapping, from: Table, to: Table, k: nat)
    requires InPhases(ops, d, mapping) && Describes(d, mapping, from, to) && k < |ops| && ops[k].AddColumn?
    ensures OrdinalOf(ops[k]) in to && to[OrdinalOf(ops[k])].name == ops[k].after.name
  {
    var renames, alterations :| PhasedBy(ops, d, mapping, renames, alterations);
    DropOrAdd(ops, d, mapping, renames, alterations, k);
    assert d.added[k - |d.dropped| - |renames|] in d.added;
  }

  lemma PhasesAddLast(ops: seq<Operation>, d: Diff, mapping: ColumnNameMapping, from: Table, to: Table)
    requires InPhases(ops, d, mapping) && Describes(d, mapping, from, to)
    requires Runs(from, ops) && forall o :: NameAt(Execute(from, ops).value, o) == NameAt(to, o)
    ensures AddsLast(from, to, ops)
  {
    FirstAndLast(from, ops);
    forall k | 0 <= k < |ops| && ops[k].AddColumn?
      ensures OrdinalOf(ops[k]) in to && to[OrdinalOf(ops[k])].name == ops[k].after.name
      ensures forall o | o in At(from, ops, k) :: NameAt(At(from, ops, k), o) == NameAt(to, o)
    {
      AddedName(ops, d, mapping, from, to, k);
      forall j | k <= j < |ops| ensures Phase(ops[j]) >= 2 {
        LaterPhases(ops, d, mapping, k, j);
      }
      forall o | o in At(from, ops, k) ensures NameAt(At(from, ops, k), o) == NameAt(to, o) {
        LaterNamesStay(from, ops, o, k, |ops|);
      }
    }
  }

  /** However far the operations have run, the tracked names are those of the columns in ordinal order. */
  lemma {:induction false} LayoutFollows(from: Table, to: Table, ops: seq<Operation>, k: nat)
    requires AddsLast(from, to, ops) && DistinctNames(to) && k <= |ops|
    ensures Layout(NamesInOrder(from), NamesInOrder(to), ops[..k]) == Some(NamesInOrder(At(from, ops, k)))
  {
    FirstAndLast(from, ops);
    if k > 0 {
      LayoutFollows(from, to, ops, k - 1);
      PrefixesExecute(from, ops, k - 1);
      NextApplies(from, ops, k - 1);
      var t := At(from, ops, k - 1);
      forall o | o in t && ops[k - 1].AddColumn? ensures o in to && t[o].name == to[o].name {
        assert NameAt(t, o) == NameAt(to, o);
      }
      PlaceStep(t, to, ops[k - 1]);
      assert ops[..k][..k - 1] == ops[..k - 1];
    }
  }

  /** What is used of a correct plan: it runs, adds last, does structural work first, and ends with the new names. */
  ghost predicate Progresses(from: Table, to: Table, ops: seq<Operation>) {
    && AddsLast(from, to, ops) && DistinctNames(to) && KeyedByOrdinal(to)
    && StructuralFirst(ops, StructuralLength(ops))
    && forall o :: NameAt(Execute(from, ops).value, o) == NameAt(to, o)
  }

  lemma PlanProgresses(
    before: ReplicatedTableSchema, after: ReplicatedTableSchema, mapping: ColumnNameMapping, plan: SchemaPlan)
    requires DistinctOrdinals(before.Columns()) && DistinctOrdinals(after.Columns())
    requires PlanCorrect(before, after, mapping, plan)
    ensures Progresses(DestinationTable(before, mapping), DestinationTable(after, mapping), plan.operations)
  {
    var from, to, ops := DestinationTable(before, mapping), DestinationTable(after, mapping), plan.operations;
    DiffDescribes(before, after, plan.diff, mapping);
    PhasesSplit(ops, plan.diff, mapping);
    forall o ensures NameAt(Execute(from, ops).value, o) == NameAt(to, o) {}
    PhasesAddLast(ops, plan.diff, mapping, from, to);
  }

  /** A plan leaves the columns in the physical order of the after schema. */
  lemma PlanKeepsOrder(
    before: ReplicatedTableSchema, after: ReplicatedTableSchema, mapping: ColumnNameMapping, plan: SchemaPlan, k: nat)
    requires Sorted(before.Columns()) && Sorted(after.Columns())
    requires PlanCorrect(before, after, mapping, plan) && k <= |plan.operations|
    ensures var from, ops := DestinationTable(before, mapping), plan.operations;
            var names := Layout(DestinationNames(before, mapping), DestinationNames(after, mapping), ops[..k]);
            && names == Some(NamesInOrder(At(from, ops, k)))
            && (k == |ops| ==> names == Some(DestinationNames(after, mapping)))
  {
    var from, to, ops := DestinationTable(before, mapping), DestinationTable(after, mapping), plan.operations;
    SortedDistinct(before.Columns());
    SortedDistinct(after.Columns());
    PlanProgresses(before, after, mapping, plan);
    SchemaOrder(before, mapping);
    SchemaOrder(after, mapping);
    LayoutFollows(from, to, ops, k);
    FirstAndLast(from, ops);
    if k == |ops| {
      SameOrder(At(from, ops, k), to);
    }
  }

  /** Tables with the same names have the same names in order. */
  lemma SameOrder(t: Table, u: Table)
    requires forall o :: NameAt(t, o) == NameAt(u, o)
    ensures NamesInOrder(t) == NamesInOrder(u) && Names(t) == Names(u)
  {
    forall o ensures o in t.Keys <==> o in u.Keys {
      assert NameAt(t, o) == NameAt(u, o);
    }
    assert t.Keys == u.Keys;
    InOrderLists(t.Keys);
    var order := InOrder(t.Keys);
    assert forall i | 0 <= i < |order| :: order[i] in order && NameAt(t, order[i]) == NameAt(u, order[i]);
    forall n ensures n in Names(t) <==> n in Names(u) {
      if n in Names(t) {
        var o := OwnerOf(t, n);
        assert NameAt(u, o) == Some(n);
      }
      if n in Names(u) {
        var o := OwnerOf(u, n);
        assert NameAt(t, o) == Some(n);
      }
    }
  }

  lemma OrderDecidesNames(t: Table, u: Table)
    requires NamesInOrder(t) == NamesInOrder(u)
    ensures Names(t) == Names(u)
  {
    forall n ensures n in Names(t) <==> n in Names(u) {
      NamesListed(t, n);
      NamesListed(u, n);
    }
  }

  // ---------- which endpoint a table is at ----------

  datatype Endpoint = Previous | Target

  datatype RecoveryError = AmbiguousNames | PartialChange

  function ClassifyEndpoint(actual: seq<string>, previous: seq<string>, target: seq<string>, ambiguous: bool)
    : Result<Endpoint, RecoveryError>
  {
    if ambiguous then Failure(AmbiguousNames)
    else if actual == previous && previous != target then Success(Previous)
    else if actual == target then Success(Target)
    else Failure(PartialChange)
  }

  /** A new column has the name that a different column had in the old table, replicated or not. */
  predicate ReusesName(before: ReplicatedTableSchema, after: ReplicatedTableSchema, mapping: ColumnNameMapping) {
    exists c, b :: && c in after.Columns() && b in before.table.columns
                   && mapping.MapName(c.name) == mapping.MapName(b.name) && c.ordinal != b.ordinal
  }

  /** The old ordinals by destination name; a later column replaces an earlier one of the same name. */
  function OldOrdinals(columns: seq<ColumnSchema>, mapping: ColumnNameMapping): map<string, int> {
    if columns == [] then map[]
    else
      var last := columns[|columns| - 1];
      OldOrdinals(columns[..|columns| - 1], mapping)[mapping.MapName(last.name) := last.ordinal]
  }

  lemma {:induction false} OldOrdinalsFind(columns: seq<ColumnSchema>, mapping: ColumnNameMapping, n: string)
    requires forall i, j | 0 <= i < j < |columns| ::
               mapping.MapName(columns[i].name) != mapping.MapName(columns[j].name)
    ensures n in OldOrdinals(columns, mapping) ==>
              exists b :: && b in columns && mapping.MapName(b.name) == n
                          && b.ordinal == OldOrdinals(columns, mapping)[n]
    ensures forall b | b in columns && mapping.MapName(b.name) == n ::
              n in OldOrdinals(columns, mapping) && OldOrdinals(columns, mapping)[n] == b.ordinal
  {
    if columns != [] {
      var front, last := columns[..|columns| - 1], columns[|columns| - 1];
      assert columns == front + [last] && last in columns;
      OldOrdinalsFind(front, mapping, n);
      if n in OldOrdinals(columns, mapping) && mapping.MapName(last.name) != n {
        var b :| b in front && mapping.MapName(b.name) == n && b.ordinal == OldOrdinals(front, mapping)[n];
        assert b in columns;
      }
    }
  }

  /** With distinct names in the old table, a lookup by name decides whether a name changes hands. */
  lemma ReuseByLookup(before: ReplicatedTableSchema, after: ReplicatedTableSchema, mapping: ColumnNameMapping)
    requires forall i, j | 0 <= i < j < |before.table.columns| ::
               mapping.MapName(before.table.columns[i].name) != mapping.MapName(before.table.columns[j].name)
    ensures ReusesName(before, after, mapping) <==>
            exists c :: && c in after.Columns()
                        && mapping.MapName(c.name) in OldOrdinals(before.table.columns, mapping)
                        && OldOrdinals(before.table.columns, mapping)[mapping.MapName(c.name)] != c.ordinal
  {
    forall c | c in after.Columns()
      ensures (exists b :: && b in before.table.columns
                           && mapping.MapName(c.name) == mapping.MapName(b.name) && c.ordinal != b.ordinal) <==>
              && mapping.MapName(c.name) in OldOrdinals(before.table.columns, mapping)
              && OldOrdinals(before.table.columns, mapping)[mapping.MapName(c.name)] != c.ordinal
    {
      OldOrdinalsFind(before.table.columns, mapping, mapping.MapName(c.name));
    }
  }

  lemma {:induction false} SelectedFrom(columns: seq<ColumnSchema>, mask: seq<u8>)
    ensures forall c | c in Selected(columns, mask) :: c in columns
  {
    if columns != [] && mask != [] {
      SelectedFrom(columns[1..], mask[1..]);
    }
  }

  lemma NoNameReused(before: ReplicatedTableSchema, after: ReplicatedTableSchema, mapping: ColumnNameMapping)
    requires DistinctOrdinals(before.Columns()) && DistinctOrdinals(after.Columns())
    requires !ReusesName(before, after, mapping)
    ensures NoReuse(DestinationTable(before, mapping), DestinationTable(after, mapping))
  {
    var from, to := DestinationTable(before, mapping), DestinationTable(after, mapping);
    TableColumns(before, mapping);
    TableColumns(after, mapping);
    SelectedFrom(before.table.columns, before.mask);
    forall o, p | o in from && p in to && from[o].name == to[p].name ensures o == p {
      var b, c := ByOrdinal(before.Columns())[o], ByOrdinal(after.Columns())[p];
      assert b in before.table.columns && c in after.Columns();
    }
  }

  /** Without structural work left, the names are the new ones. */
  lemma StructuralDone(from: Table, to: Table, ops: seq<Operation>, k: nat, o: int)
    requires Progresses(from, to, ops) && StructuralLength(ops) <= k <= |ops|
    ensures NameAt(At(from, ops, k), o) == NameAt(to, o)
  {
    FirstAndLast(from, ops);
    NameConstant(from, ops, o, k, |ops|);
  }

  lemma ClassifiesTables(from: Table, to: Table, ops: seq<Operation>, k: nat)
    requires Progresses(from, to, ops) && k <= |ops|
    requires StructuralLength(ops) > 0 ==> MovesOnce(from, to, ops) && NoReuse(from, to)
    ensures var n := StructuralLength(ops);
            ClassifyEndpoint(NamesInOrder(At(from, ops, k)), NamesInOrder(from), NamesInOrder(to), false) ==
            if k >= n then Success(Target) else if k == 0 then Success(Previous) else Failure(PartialChange)
  {
    var n, t := StructuralLength(ops), At(from, ops, k);
    FirstAndLast(from, ops);
    if k >= n {
      forall o {
        StructuralDone(from, to, ops, k, o);
      }
      SameOrder(t, to);
      if n > 0 && k > 0 {
        AtOldNames(from, to, ops, 0, k);
        assert NamesInOrder(t) != NamesInOrder(from) by {
          if NamesInOrder(t) == NamesInOrder(from) {
            OrderDecidesNames(t, from);
          }
        }
      }
    } else {
      AtNewNames(from, to, ops, k, k);
      assert NamesInOrder(t) != NamesInOrder(to) by {
        if NamesInOrder(t) == NamesInOrder(to) {
          OrderDecidesNames(t, to);
        }
      }
      if k > 0 {
        AtOldNames(from, to, ops, 0, k);
        if NamesInOrder(t) == NamesInOrder(from) {
          OrderDecidesNames(t, from);
        }
      }
    }
  }

  /**
   The names tell exactly how far a change got: nothing, all structural operations, or a part. A name that
   changes hands is only ambiguous if there is something structural to do.
   */
  lemma ClassifiesExactly(
    before: ReplicatedTableSchema, after: ReplicatedTableSchema, mapping: ColumnNameMapping, plan: SchemaPlan, k: nat)
    requires Sorted(before.Columns()) && Sorted(after.Columns())
    requires PlanCorrect(before, after, mapping, plan) && k <= |plan.operations|
    ensures var n := StructuralLength(plan.operations);
            var clash := exists c, b :: && c in after.Columns() && b in before.table.columns
                                        && mapping.MapName(c.name) == mapping.MapName(b.name)
                                        && c.ordinal != b.ordinal;
            ClassifyEndpoint(
              NamesInOrder(At(DestinationTable(before, mapping), plan.operations, k)),
              DestinationNames(before, mapping), DestinationNames(after, mapping),
              ReusesName(before, after, mapping) && n > 0) ==
            if clash && n > 0 then Failure(AmbiguousNames)
            else if k >= n then Success(Target)
            else if k == 0 then Success(Previous)
            else Failure(PartialChange)
  {
    var from, to, ops := DestinationTable(before, mapping), DestinationTable(after, mapping), plan.operations;
    SortedDistinct(before.Columns());
    SortedDistinct(after.Columns());
    PlanProgresses(before, after, mapping, plan);
    SchemaOrder(before, mapping);
    SchemaOrder(after, mapping);
    if !ReusesName(before, after, mapping) {
      NoNameReused(before, after, mapping);
      PlanMovesOnce(before, after, mapping, plan);
    }
    if !(ReusesName(before, after, mapping) && StructuralLength(ops) > 0) {
      ClassifiesTables(from, to, ops, k);
    }
  }

  /** A column that gives its name to another one: the names are the same before and after the whole change. */
  lemma GuardNeeded() returns (before: ReplicatedTableSchema, after: ReplicatedTableSchema)
    ensures Sorted(before.Columns()) && Sorted(after.Columns())
    ensures Representable(before, Identity) && Representable(after, Identity)
    ensures ReusesName(before, after, Identity) && 1 in DestinationTable(before, Identity).Keys
    ensures 1 !in DestinationTable(after, Identity).Keys
    ensures ClassifyEndpoint(
              DestinationNames(before, Identity), DestinationNames(before, Identity), DestinationNames(after, Identity),
              false) == Success(Target)
  {
    var first := ColumnSchema("a", 20, -1, 1, None, false, None);
    var second := first.(ordinal := 2);
    before := ReplicatedTableSchema(TableSchema(1, [first], SnapshotId(1, 1)), [1]);
    after := ReplicatedTableSchema(TableSchema(1, [second], SnapshotId(2, 2)), [1]);
    OneColumn(before, first);
    OneColumn(after, second);
    assert first in before.table.columns && second in after.Columns();
    assert DestinationNames(before, Identity) == ["a"] == DestinationNames(after, Identity);
  }

  // ---------- running operations ----------

  /** Runs operations and tracks the physical order, for at most `budget` operations. */
  method ApplySchemaPlan(
    ex: Executor, table: Table, names: seq<string>, final: seq<string>, ops: seq<Operation>, budget: nat)
    returns (table': Table, names': seq<string>, k: nat)
    requires PhysicalExecute(ex, table, ops).Some? && Layout(names, final, ops).Some?
    ensures k == if budget < |ops| then budget else |ops|
    ensures PhysicalExecute(ex, table, ops[..k]) == Some(table')
    ensures Layout(names, final, ops[..k]) == Some(names')
  {
    table', names', k := table, names, 0;
    while k < |ops| && k < budget
      invariant k <= |ops| && k <= budget
      invariant PhysicalExecute(ex, table, ops[..k]) == Some(table')
      invariant Layout(names, final, ops[..k]) == Some(names')
    {
      NextRuns(ex, table, ops, k);
      NextPlaced(names, final, ops, k);
      table' := PhysicalApply(ex, table', ops[k]).value;
      names' := Place(names', final, ops[k]).value;
      k := k + 1;
    }
  }

  lemma {:induction false} NextPlaced(names: seq<string>, final: seq<string>, ops: seq<Operation>, k: nat)
    requires Layout(names, final, ops).Some? && k < |ops|
    ensures Layout(names, final, ops[..k]).Some? && Layout(names, final, ops[..k + 1]).Some?
    ensures Layout(names, final, ops[..k + 1]) == Place(Layout(names, final, ops[..k]).value, final, ops[k])
    decreases |ops|
  {
    if k + 1 == |ops| {
      assert ops[..k + 1] == ops;
    } else {
      var front := ops[..|ops| - 1];
      NextPlaced(names, final, front, k);
      assert front[..k] == ops[..k] && front[..k + 1] == ops[..k + 1];
    }
  }

  /** A table has the columns and names that the first `j` operations leave, and `names` is its physical order. */
  ghost predicate AtStage(from: Table, ops: seq<Operation>, j: nat, table: Table, names: seq<string>) {
    && Runs(from, ops) && j <= |ops|
    && SameShape(At(from, ops, j), table) && names == NamesInOrder(At(from, ops, j))
  }

  /** From the start of a plan, running `k` operations leads to stage `k`. */
  lemma RunsToStage(ex: Executor, from: Table, to: Table, ops: seq<Operation>, table: Table, k: nat)
    requires Progresses(from, to, ops) && SameShape(from, table) && k <= |ops|
    ensures var t := PhysicalExecute(ex, table, ops[..k]);
            var names := Layout(NamesInOrder(from), NamesInOrder(to), ops[..k]);
            t.Some? && names.Some? && AtStage(from, ops, k, t.value, names.value)
  {
    PrefixesExecute(from, ops, k);
    ShapeExecute(ex, from, table, ops[..k]);
    LayoutFollows(from, to, ops, k);
  }

  lemma SameShapeNames(t: Table, u: Table)
    requires KeyedByOrdinal(t) && KeyedByOrdinal(u) && forall o :: NameAt(t, o) == NameAt(u, o)
    ensures SameShape(t, u)
  {
    forall o ensures o in t.Keys <==> o in u.Keys {
      assert NameAt(t, o) == NameAt(u, o);
    }
    forall o | o in t ensures t[o].name == u[o].name {
      assert NameAt(t, o) == NameAt(u, o);
    }
  }

  /** A stage at which the structural work is done is as good as any other such stage of any such plan. */
  lemma DoneStages(from: Table, from': Table, to: Table, ops: seq<Operation>, ops': seq<Operation>, j: nat, j': nat,
                   table: Table, names: seq<string>)
    requires Progresses(from, to, ops) && Progresses(from', to, ops') && AtStage(from, ops, j, table, names)
    requires StructuralLength(ops) <= j && StructuralLength(ops') <= j' <= |ops'|
    ensures AtStage(from', ops', j', table, names)
    ensures SameShape(to, table) && names == NamesInOrder(to)
  {
    var t, u := At(from, ops, j), At(from', ops', j');
    PrefixesExecute(from, ops, j);
    PrefixesExecute(from', ops', j');
    forall o ensures NameAt(t, o) == NameAt(to, o) && NameAt(u, o) == NameAt(to, o) {
      StructuralDone(from, to, ops, j, o);
      StructuralDone(from', to, ops', j', o);
    }
    SameShapeNames(t, u);
    SameShapeNames(t, to);
    SameOrder(t, u);
    SameOrder(t, to);
  }

  // ---------- what is left to do at the target ----------

  /** The after columns with the metadata they had before: only metadata is left to change. */
  function Remaining(before: ReplicatedTableSchema, after: ReplicatedTableSchema): ReplicatedTableSchema {
    var earlier, columns := ByOrdinal(before.Columns()), after.Columns();
    ReplicatedTableSchema(
      after.table.(columns := seq(|columns|, i requires 0 <= i < |columns| => OldMetadata(earlier, columns[i]))),
      seq(|columns|, i => 1))
  }

  function OldMetadata(earlier: Table, c: ColumnSchema): ColumnSchema {
    if c.ordinal in earlier then earlier[c.ordinal].(name := c.name, ordinal := c.ordinal) else c
  }

  lemma {:induction false} AllSelected(columns: seq<ColumnSchema>, mask: seq<u8>)
    requires |mask| == |columns| && forall i | 0 <= i < |mask| :: mask[i] == 1
    ensures Selected(columns, mask) == columns
  {
    if columns != [] {
      AllSelected(columns[1..], mask[1..]);
    }
  }

  lemma RemainingColumns(before: ReplicatedTableSchema, after: ReplicatedTableSchema, mapping: ColumnNameMapping)
    requires Sorted(after.Columns()) && Representable(after, mapping)
    ensures var rest := Remaining(before, after);
            && Sorted(rest.Columns()) && Representable(rest, mapping)
            && DestinationNames(rest, mapping) == DestinationNames(after, mapping)
            && OrdinalList(rest.Columns()) == OrdinalList(after.Columns())
  {
    var rest := Remaining(before, after);
    AllSelected(rest.table.columns, rest.mask);
    assert ColumnNames(rest.Columns()) == ColumnNames(after.Columns());
  }

  lemma RemainingNames(before: ReplicatedTableSchema, after: ReplicatedTableSchema, mapping: ColumnNameMapping, o: int)
    requires Sorted(after.Columns()) && Representable(after, mapping)
    ensures NameAt(DestinationTable(Remaining(before, after), mapping), o) ==
            NameAt(DestinationTable(after, mapping), o)
  {
    var rest := Remaining(before, after);
    RemainingColumns(before, after, mapping);
    NameInTable(rest, mapping, o);
    NameInTable(after, mapping, o);
  }

  /** The name of a column in a schema's table, read off its lists of ordinals and names. */
  lemma NameInTable(schema: ReplicatedTableSchema, mapping: ColumnNameMapping, o: int)
    requires Sorted(schema.Columns())
    ensures var order, names := OrdinalList(schema.Columns()), DestinationNames(schema, mapping);
            && |order| == |names|
            && (NameAt(DestinationTable(schema, mapping), o).Some? <==> o in order)
            && forall i | 0 <= i < |order| && order[i] == o ::
                 NameAt(DestinationTable(schema, mapping), o) == Some(names[i])
  {
    var columns := schema.Columns();
    SortedDistinct(columns);
    SortedLists(columns);
    TableColumns(schema, mapping);
    forall i | 0 <= i < |columns| && columns[i].ordinal == o
      ensures NameAt(DestinationTable(schema, mapping), o) == Some(DestinationNames(schema, mapping)[i])
    {
      assert columns[i] in columns;
    }
  }

  lemma InOrderIndex<T>(s: seq<T>, x: T) returns (i: nat)
    requires x in s
    ensures i < |s| && s[i] == x
  {
    i :| 0 <= i < |s| && s[i] == x;
  }

  /** The changes that are left are those of the whole change, once the names are right. */
  lemma RemainingChange(before: ReplicatedTableSchema, after: ReplicatedTableSchema, x: ColumnMetadataChange)
    requires DistinctOrdinals(before.Columns()) && DistinctOrdinals(after.Columns())
    ensures IsChange(Remaining(before, after), after, x) <==>
            exists m :: IsChange(before, after, m) && x == Rebase(m) && x.before != x.after
  {
    var earlier, columns, rest := ByOrdinal(before.Columns()), after.Columns(), Remaining(before, after);
    ByOrdinalSpec(before.Columns());
    AllSelected(rest.table.columns, rest.mask);
    if IsChange(rest, after, x) {
      var i := InOrderIndex(rest.Columns(), x.before);
      var k := InOrderIndex(columns, x.after);
      assert i == k;
      var c := columns[i];
      assert x.before == OldMetadata(earlier, c) && c.ordinal in earlier;
      var m := ColumnMetadataChange(earlier[c.ordinal], c);
      assert IsChange(before, after, m) && x == Rebase(m);
    }
    if m :| IsChange(before, after, m) && x == Rebase(m) && x.before != x.after {
      var i := InOrderIndex(columns, m.after);
      assert earlier[m.after.ordinal] == m.before;
      assert rest.Columns()[i] == x.before;
    }
  }

  lemma RemainingAltered(before: ReplicatedTableSchema, after: ReplicatedTableSchema, d: Diff, d': Diff)
    requires DistinctOrdinals(before.Columns()) && DistinctOrdinals(after.Columns())
    requires IsDiff(before, after, d) && IsDiff(Remaining(before, after), after, d')
    ensures d'.altered == Rebased(d.altered)
  {
    forall x ensures x in d'.altered <==> x in Rebased(d.altered) {
      RemainingChange(before, after, x);
      RebasedOf(d.altered, x);
      if m :| IsChange(before, after, m) && x == Rebase(m) && x.before != x.after {
        assert m in d.altered;
      }
      if m :| m in d.altered && x == Rebase(m) && x.before != x.after {
        assert IsChange(before, after, m);
      }
    }
    RebasedAscending(d.altered);
    AscendingUnique(d'.altered, Rebased(d.altered), (m: ColumnMetadataChange) => m.before.ordinal);
  }

  /** The plan for what is left at the target is the part of the whole plan that follows its structural part. */
  lemma MetadataSuffix(
    before: ReplicatedTableSchema, after: ReplicatedTableSchema, mapping: ColumnNameMapping, plan: SchemaPlan,
    rest: SchemaPlan)
    requires DistinctOrdinals(before.Columns()) && DistinctOrdinals(after.Columns())
    requires PlanCorrect(before, after, mapping, plan) && PlanCorrect(Remaining(before, after), after, mapping, rest)
    requires StructuralLength(rest.operations) == 0
    ensures rest.operations == plan.operations[StructuralLength(plan.operations)..]
  {
    RemainingAltered(before, after, plan.diff, rest.diff);
    RebasedAlterations(plan.diff.altered, mapping);
    PhaseLengths(plan.operations, plan.diff, mapping);
    PhaseLengths(rest.operations, rest.diff, mapping);
  }

  /** A plan has structural work exactly if some column has another name or presence at the end. */
  lemma NothingStructural(
    before: ReplicatedTableSchema, after: ReplicatedTableSchema, mapping: ColumnNameMapping, plan: SchemaPlan)
    requires DistinctOrdinals(before.Columns()) && DistinctOrdinals(after.Columns())
    requires PlanCorrect(before, after, mapping, plan)
    ensures var from, to := DestinationTable(before, mapping), DestinationTable(after, mapping);
            StructuralLength(plan.operations) == 0 <==> forall o :: NameAt(from, o) == NameAt(to, o)
  {
    var from, to, ops := DestinationTable(before, mapping), DestinationTable(after, mapping), plan.operations;
    PlanProgresses(before, after, mapping, plan);
    FirstAndLast(from, ops);
    if StructuralLength(ops) == 0 {
      forall o ensures NameAt(from, o) == NameAt(to, o) {
        StructuralDone(from, to, ops, 0, o);
      }
    }
    if forall o :: NameAt(from, o) == NameAt(to, o) {
      DiffDescribes(before, after, plan.diff, mapping);
      PhasesPresence(ops, plan.diff, mapping, from, to);
      NoRenames(from, to, ops);
      NoStructure(from, to, ops);
    }
  }

  lemma NoRequests(from: Table, to: Table)
    requires forall o :: NameAt(from, o) == NameAt(to, o)
    ensures RenameRequests(from, to).source == map[]
  {
    forall o ensures o !in RenameRequests(from, to).source {
      assert NameAt(from, o) == NameAt(to, o);
    }
  }

  lemma NothingRenamed(ops: seq<Operation>, i: nat)
    requires CountRenames(ops) == 0 && i < |ops|
    ensures !IsRename(ops[i])
  {
    CountBound(ops);
    assert RenamedColumns(ops) == {};
    assert ops[i] in ops;
  }

  lemma NoStructure(from: Table, to: Table, ops: seq<Operation>)
    requires Presence(from, to, ops) && forall o :: NameAt(from, o) == NameAt(to, o)
    requires CountRenames(ops) == 0
    ensures StructuralLength(ops) == 0
  {
    if ops != [] {
      var o := OrdinalOf(ops[0]);
      assert NameAt(from, o) == NameAt(to, o);
      NothingRenamed(ops, 0);
    }
  }

  lemma NoRenames(from: Table, to: Table, ops: seq<Operation>)
    requires forall o :: NameAt(from, o) == NameAt(to, o)
    requires RenameCounts(ops, Names(from) + Names(to), Common(from, to), WantedNames(from, to))
    ensures CountRenames(ops) == 0
  {
    NoRequests(from, to);
    var g := RenameRequests(from, to);
    if c :| c in Cycles(g) {
      assert false;
    }
  }

  // ---------- recovery ----------

  /**
   A change that was interrupted with the columns and names that `j` operations of a correct plan leave. In a
   destination that keeps metadata exactly, every field is as before or as after the change.
   */
  ghost predicate Interrupted(
    ex: Executor, before: ReplicatedTableSchema, after: ReplicatedTableSchema, mapping: ColumnNameMapping,
    plan: SchemaPlan, j: nat, table: Table, names: seq<string>)
  {
    var from, to := DestinationTable(before, mapping), DestinationTable(after, mapping);
    && PlanCorrect(before, after, mapping, plan)
    && AtStage(from, plan.operations, j, table, names)
    && (Exact(ex) ==> Between(table, from, to))
  }

  /** Running a part of a plan on a table of the before schema leaves an interrupted change. */
  lemma InterruptionLeaves(
    ex: Executor, before: ReplicatedTableSchema, after: ReplicatedTableSchema, mapping: ColumnNameMapping,
    plan: SchemaPlan, j: nat, start: Table)
    requires DistinctOrdinals(before.Columns()) && DistinctOrdinals(after.Columns())
    requires PlanCorrect(before, after, mapping, plan) && j <= |plan.operations|
    requires SameShape(DestinationTable(before, mapping), start)
    requires Exact(ex) ==> EraseTable(start) == EraseTable(DestinationTable(before, mapping))
    ensures var from, to := DestinationTable(before, mapping), DestinationTable(after, mapping);
            var ops := plan.operations[..j];
            var table, names := PhysicalExecute(ex, start, ops), Layout(NamesInOrder(from), NamesInOrder(to), ops);
            && table.Some? && names.Some?
            && Interrupted(ex, before, after, mapping, plan, j, table.value, names.value)
  {
    var from, to, ops := DestinationTable(before, mapping), DestinationTable(after, mapping), plan.operations;
    PlanProgresses(before, after, mapping, plan);
    RunsToStage(ex, from, to, ops, start, j);
    if Exact(ex) {
      StartBetween(start, from, to);
      PrefixBetween(ex, before, after, mapping, plan, start, j);
    }
  }

  lemma StartBetween(start: Table, from: Table, to: Table)
    requires EraseTable(start) == EraseTable(from)
    ensures Between(start, from, to)
  {
    forall o | o in start ensures ColumnBetween(start[o], from, to, o) {
      assert o in EraseTable(start) && EraseTable(start)[o] == EraseTable(from)[o];
      assert forall kind :: Agrees(start[o], from[o], kind);
    }
  }

  /** Any part of a plan keeps every field as before or as after the change. */
  lemma PrefixBetween(
    ex: Executor, before: ReplicatedTableSchema, after: ReplicatedTableSchema, mapping: ColumnNameMapping,
    plan: SchemaPlan, table: Table, k: nat)
    requires DistinctOrdinals(before.Columns()) && DistinctOrdinals(after.Columns())
    requires PlanCorrect(before, after, mapping, plan) && k <= |plan.operations| && Exact(ex)
    requires Between(table, DestinationTable(before, mapping), DestinationTable(after, mapping))
    requires PhysicalExecute(ex, table, plan.operations[..k]).Some?
    ensures Between(PhysicalExecute(ex, table, plan.operations[..k]).value,
                    DestinationTable(before, mapping), DestinationTable(after, mapping))
  {
    PlanAims(before, after, mapping, plan);
    PrefixRunsBetween(
      ex, table, plan.operations, k, DestinationTable(before, mapping), DestinationTable(after, mapping));
  }

  lemma PlanAims(
    before: ReplicatedTableSchema, after: ReplicatedTableSchema, mapping: ColumnNameMapping, plan: SchemaPlan)
    requires DistinctOrdinals(before.Columns()) && DistinctOrdinals(after.Columns())
    requires PlanCorrect(before, after, mapping, plan)
    ensures AllAim(plan.operations, DestinationTable(after, mapping))
  {
    DiffDescribes(before, after, plan.diff, mapping);
    PhasesAim(
      plan.operations, plan.diff, mapping, DestinationTable(before, mapping), DestinationTable(after, mapping));
  }

  /** A whole plan leaves exactly the after columns. */
  lemma WholePlanExact(
    ex: Executor, before: ReplicatedTableSchema, after: ReplicatedTableSchema, mapping: ColumnNameMapping,
    plan: SchemaPlan, table: Table, table': Table)
    requires DistinctOrdinals(before.Columns()) && DistinctOrdinals(after.Columns())
    requires PlanCorrect(before, after, mapping, plan) && Exact(ex)
    requires Between(table, DestinationTable(before, mapping), DestinationTable(after, mapping))
    requires PhysicalExecute(ex, table, plan.operations) == Some(table')
    requires SameShape(DestinationTable(after, mapping), table')
    ensures EraseTable(table') == EraseTable(DestinationTable(after, mapping))
  {
    var from, to := DestinationTable(before, mapping), DestinationTable(after, mapping);
    DiffDescribes(before, after, plan.diff, mapping);
    PhasesComplete(ex, table, plan.operations, plan.diff, mapping, from, to, table');
  }

  /** A fresh plan for an interrupted change has the same endpoints, and finds the change where it was left. */
  lemma FoundAgain(
    ex: Executor, before: ReplicatedTableSchema, after: ReplicatedTableSchema, mapping: ColumnNameMapping,
    plan: SchemaPlan, j: nat, table: Table, names: seq<string>, again: SchemaPlan)
    requires Sorted(before.Columns()) && Sorted(after.Columns())
    requires Interrupted(ex, before, after, mapping, plan, j, table, names)
    requires PlanCorrect(before, after, mapping, again)
    ensures var from, to := DestinationTable(before, mapping), DestinationTable(after, mapping);
            var n, ambiguous := StructuralLength(plan.operations),
                                ReusesName(before, after, mapping) && StructuralLength(again.operations) > 0;
            && Progresses(from, to, again.operations)
            && DestinationNames(before, mapping) == NamesInOrder(from)
            && DestinationNames(after, mapping) == NamesInOrder(to)
            && StructuralLength(again.operations) == n && |again.operations| == |plan.operations|
            && ClassifyEndpoint(names, NamesInOrder(from), NamesInOrder(to), ambiguous) ==
               (if ambiguous then Failure(AmbiguousNames)
                else if j >= n then Success(Target)
                else if j == 0 then Success(Previous)
                else Failure(PartialChange))
            && (j == 0 ==> SameShape(from, table) && names == NamesInOrder(from))
            && (j >= n ==> SameShape(to, table) && names == NamesInOrder(to))
  {
    var from, to := DestinationTable(before, mapping), DestinationTable(after, mapping);
    SortedDistinct(before.Columns());
    SortedDistinct(after.Columns());
    PlanProgresses(before, after, mapping, plan);
    PlanProgresses(before, after, mapping, again);
    PlansAgree(before, after, mapping, plan, again);
    SchemaOrder(before, mapping);
    SchemaOrder(after, mapping);
    ClassifiesExactly(before, after, mapping, plan, j);
    FirstAndLast(from, plan.operations);
    if j >= StructuralLength(plan.operations) {
      DoneStages(from, from, to, plan.operations, plan.operations, j, j, table, names);
    }
  }

  /** Runs a whole plan from its start. */
  method RunFromStart(
    ex: Executor, ghost from: Table, ghost to: Table, table: Table, names: seq<string>, final: seq<string>,
    ops: seq<Operation>, budget: nat)
    returns (table': Table, names': seq<string>, k: nat)
    requires Progresses(from, to, ops) && SameShape(from, table)
    requires names == NamesInOrder(from) && final == NamesInOrder(to)
    ensures k == if budget < |ops| then budget else |ops|
    ensures PhysicalExecute(ex, table, ops[..k]) == Some(table') && AtStage(from, ops, k, table', names')
    ensures k == |ops| ==> SameShape(to, table') && names' == NamesInOrder(to)
  {
    RunsToStage(ex, from, to, ops, table, |ops|);
    assert ops[..|ops|] == ops;
    table', names', k := ApplySchemaPlan(ex, table, names, final, ops, budget);
    RunsToStage(ex, from, to, ops, table, k);
    if k == |ops| {
      DoneStages(from, from, to, ops, ops, k, k, table', names');
    }
  }

  /** Plans and runs what is left at the target: only metadata changes, so names and order stay. */
  method RunMetadata(
    ex: Executor, mapping: ColumnNameMapping, before: ReplicatedTableSchema, after: ReplicatedTableSchema,
    table: Table, names: seq<string>, budget: nat, ghost plan: SchemaPlan)
    returns (table': Table, names': seq<string>, done: bool, ghost k: nat)
    requires DistinctOrdinals(before.Columns()) && Sorted(after.Columns()) && Representable(after, mapping)
    requires PlanCorrect(before, after, mapping, plan)
    requires SameShape(DestinationTable(after, mapping), table)
    requires names == NamesInOrder(DestinationTable(after, mapping))
    requires Exact(ex) ==> Between(table, DestinationTable(before, mapping), DestinationTable(after, mapping))
    ensures SameShape(DestinationTable(after, mapping), table') && names' == names
    ensures Exact(ex) ==> Between(table', DestinationTable(before, mapping), DestinationTable(after, mapping))
    ensures var todo := plan.operations[StructuralLength(plan.operations)..];
            && k == (if budget < |todo| then budget else |todo|) && (done <==> k == |todo|)
            && PhysicalExecute(ex, table, todo[..k]) == Some(table')
    ensures done && Exact(ex) ==> EraseTable(table') == EraseTable(DestinationTable(after, mapping))
  {
    var rest := Remaining(before, after);
    RemainingColumns(before, after, mapping);
    SortedDistinct(after.Columns());
    SortedDistinct(rest.Columns());
    var planned := PlanSchemaChange(rest, after, mapping);
    var ops := planned.value.operations;
    ghost var from, to := DestinationTable(rest, mapping), DestinationTable(after, mapping);
    MetadataOnly(before, after, mapping, planned.value, table);
    MetadataSuffix(before, after, mapping, plan, planned.value);
    var count;
    table', names', count := RunFromStart(ex, from, to, table, names, names, ops, budget);
    done, k := count == |ops|, count;
    DoneStages(from, from, to, ops, ops, k, k, table', names');
    MetadataExact(ex, before, after, mapping, planned.value, table, k, table');
  }

  /** What running a part or all of what is left does to the fields. */
  lemma MetadataExact(
    ex: Executor, before: ReplicatedTableSchema, after: ReplicatedTableSchema, mapping: ColumnNameMapping,
    rest: SchemaPlan, table: Table, k: nat, table': Table)
    requires DistinctOrdinals(before.Columns()) && Sorted(after.Columns()) && Representable(after, mapping)
    requires PlanCorrect(Remaining(before, after), after, mapping, rest) && k <= |rest.operations|
    requires PhysicalExecute(ex, table, rest.operations[..k]) == Some(table')
    requires SameShape(DestinationTable(after, mapping), table')
    requires Exact(ex) ==> Between(table, DestinationTable(before, mapping), DestinationTable(after, mapping))
    ensures Exact(ex) ==> Between(table', DestinationTable(before, mapping), DestinationTable(after, mapping))
    ensures k == |rest.operations| && Exact(ex) ==>
              EraseTable(table') == EraseTable(DestinationTable(after, mapping))
  {
    if Exact(ex) {
      MetadataBetween(ex, before, after, mapping, rest, table, k);
      if k == |rest.operations| {
        MetadataComplete(ex, before, after, mapping, rest, table, table');
      }
    }
  }

  lemma MetadataBetween(
    ex: Executor, before: ReplicatedTableSchema, after: ReplicatedTableSchema, mapping: ColumnNameMapping,
    rest: SchemaPlan, table: Table, k: nat)
    requires Sorted(after.Columns()) && Representable(after, mapping) && Exact(ex)
    requires PlanCorrect(Remaining(before, after), after, mapping, rest) && k <= |rest.operations|
    requires PhysicalExecute(ex, table, rest.operations[..k]).Some?
    requires Between(table, DestinationTable(before, mapping), DestinationTable(after, mapping))
    ensures Between(PhysicalExecute(ex, table, rest.operations[..k]).value,
                    DestinationTable(before, mapping), DestinationTable(after, mapping))
  {
    RemainingColumns(before, after, mapping);
    SortedDistinct(after.Columns());
    SortedDistinct(Remaining(before, after).Columns());
    PlanAims(Remaining(before, after), after, mapping, rest);
    PrefixRunsBetween(
      ex, table, rest.operations, k, DestinationTable(before, mapping), DestinationTable(after, mapping));
  }

  lemma MetadataComplete(
    ex: Executor, before: ReplicatedTableSchema, after: ReplicatedTableSchema, mapping: ColumnNameMapping,
    rest: SchemaPlan, table: Table, table': Table)
    requires DistinctOrdinals(before.Columns()) && Sorted(after.Columns()) && Representable(after, mapping)
    requires PlanCorrect(Remaining(before, after), after, mapping, rest) && Exact(ex)
    requires PhysicalExecute(ex, table, rest.operations[..|rest.operations|]) == Some(table')
    requires SameShape(DestinationTable(after, mapping), table')
    requires Between(table, DestinationTable(before, mapping), DestinationTable(after, mapping))
    ensures EraseTable(table') == EraseTable(DestinationTable(after, mapping))
  {
    var schema := Remaining(before, after);
    assert rest.operations[..|rest.operations|] == rest.operations;
    RemainingColumns(before, after, mapping);
    SortedDistinct(after.Columns());
    SortedDistinct(schema.Columns());
    RemainingBetween(before, after, mapping, table);
    WholePlanExact(ex, schema, after, mapping, rest, table, table');
  }

  /** Between the endpoints of the whole change is between those of what is left. */
  lemma RemainingBetween(
    before: ReplicatedTableSchema, after: ReplicatedTableSchema, mapping: ColumnNameMapping, table: Table)
    requires DistinctOrdinals(before.Columns()) && Sorted(after.Columns()) && Representable(after, mapping)
    requires Between(table, DestinationTable(before, mapping), DestinationTable(after, mapping))
    ensures Between(table, DestinationTable(Remaining(before, after), mapping), DestinationTable(after, mapping))
  {
    var rest := Remaining(before, after);
    var from, to := DestinationTable(before, mapping), DestinationTable(after, mapping);
    var mid := DestinationTable(rest, mapping);
    forall o | o in table ensures ColumnBetween(table[o], mid, to, o) {
      assert ColumnBetween(table[o], from, to, o);
      if o in to {
        RemainingFields(before, after, mapping, o);
        if o in from {
          forall kind ensures Agrees(table[o], mid[o], kind) || Agrees(table[o], to[o], kind) {
            assert Agrees(table[o], from[o], kind) || Agrees(table[o], to[o], kind);
          }
        }
      }
    }
  }

  lemma RemainingFields(before: ReplicatedTableSchema, after: ReplicatedTableSchema, mapping: ColumnNameMapping, o: int)
    requires DistinctOrdinals(before.Columns()) && Sorted(after.Columns()) && Representable(after, mapping)
    requires o in DestinationTable(after, mapping)
    ensures var from, to := DestinationTable(before, mapping), DestinationTable(after, mapping);
            var mid := DestinationTable(Remaining(before, after), mapping);
            o in mid && SameFields(mid[o], if o in from then from[o] else to[o])
  {
    var rest, columns := Remaining(before, after), after.Columns();
    SortedDistinct(columns);
    RemainingColumns(before, after, mapping);
    SortedDistinct(rest.Columns());
    TableColumns(after, mapping);
    TableColumns(before, mapping);
    TableColumns(rest, mapping);
    AllSelected(rest.table.columns, rest.mask);
    var i := InOrderIndex(columns, ByOrdinal(columns)[o]);
    var c := rest.Columns()[i];
    assert c == OldMetadata(ByOrdinal(before.Columns()), columns[i]) && c in rest.Columns();
  }

  lemma MetadataOnly(
    before: ReplicatedTableSchema, after: ReplicatedTableSchema, mapping: ColumnNameMapping, plan: SchemaPlan,
    table: Table)
    requires Sorted(after.Columns()) && Representable(after, mapping)
    requires PlanCorrect(Remaining(before, after), after, mapping, plan)
    requires SameShape(DestinationTable(after, mapping), table)
    ensures var from, to := DestinationTable(Remaining(before, after), mapping), DestinationTable(after, mapping);
            && Progresses(from, to, plan.operations) && StructuralLength(plan.operations) == 0
            && SameShape(from, table) && NamesInOrder(from) == NamesInOrder(to)
  {
    var rest := Remaining(before, after);
    var from, to := DestinationTable(rest, mapping), DestinationTable(after, mapping);
    RemainingColumns(before, after, mapping);
    SortedDistinct(after.Columns());
    SortedDistinct(rest.Columns());
    PlanProgresses(rest, after, mapping, plan);
    forall o ensures NameAt(from, o) == NameAt(to, o) {
      RemainingNames(before, after, mapping, o);
    }
    NothingStructural(rest, after, mapping, plan);
    SameShapeNames(from, to);
    SameOrder(from, to);
  }

  /** What is left of a plan after `j` operations: everything, or what follows the structural operations. */
  ghost function Todo(plan: SchemaPlan, j: nat): seq<Operation> {
    var n := StructuralLength(plan.operations);
    if j >= n then plan.operations[n..] else plan.operations
  }

  /**
   Recovers a change that was interrupted after `j` operations of `plan`, and crashes once `budget` operations
   have run. The result says whether the change is complete. Recovery refuses exactly the changes that are
   ambiguous or stopped among the structural operations. From the start it runs the whole plan, and from the
   target exactly what follows the structural operations. What a crash leaves is an interrupted change again.
   */
  method RecoverPendingChange(
    ex: Executor, mapping: ColumnNameMapping, before: ReplicatedTableSchema, after: ReplicatedTableSchema,
    table: Table, names: seq<string>, budget: nat, ghost plan: SchemaPlan, ghost j: nat)
    returns (r: Result<bool, RecoveryError>, table': Table, names': seq<string>,
             ghost again: SchemaPlan, ghost j': nat)
    requires Sorted(before.Columns()) && Sorted(after.Columns())
    requires Representable(before, mapping) && Representable(after, mapping)
    requires Interrupted(ex, before, after, mapping, plan, j, table, names)
    ensures var n := StructuralLength(plan.operations);
            var clash := exists c, b :: && c in after.Columns() && b in before.table.columns
                                        && mapping.MapName(c.name) == mapping.MapName(b.name)
                                        && c.ordinal != b.ordinal;
            && (r == Failure(AmbiguousNames) <==> clash && n > 0)
            && (r == Failure(PartialChange) <==> !(clash && n > 0) && 0 < j < n)
    ensures r.Failure? ==> table' == table && names' == names
    ensures Interrupted(ex, before, after, mapping, again, j', table', names')
    ensures StructuralLength(again.operations) == StructuralLength(plan.operations)
    ensures |again.operations| == |plan.operations|
    ensures r.Success? ==>
              var n, todo := StructuralLength(plan.operations), Todo(again, j);
              var k := if budget < |todo| then budget else |todo|;
              && PhysicalExecute(ex, table, todo[..k]) == Some(table') && (r.value <==> k == |todo|)
              && if j >= n then j' >= n else j' == k
    ensures r == Success(true) ==>
              && SameShape(DestinationTable(after, mapping), table') && names' == DestinationNames(after, mapping)
              && (Exact(ex) ==> EraseTable(table') == EraseTable(DestinationTable(after, mapping)))
  {
    table', names', again, j' := table, names, plan, j;
    SortedDistinct(before.Columns());
    SortedDistinct(after.Columns());
    var planned := PlanSchemaChange(before, after, mapping);
    var ops := planned.value.operations;
    ghost var from, to := DestinationTable(before, mapping), DestinationTable(after, mapping);
    FoundAgain(ex, before, after, mapping, plan, j, table, names, planned.value);
    var previous, target := DestinationNames(before, mapping), DestinationNames(after, mapping);
    var ambiguous := ReusesName(before, after, mapping) && StructuralLength(ops) > 0;
    var endpoint := ClassifyEndpoint(names, previous, target, ambiguous);
    if endpoint.Failure? {
      r := Failure(endpoint.error);
      return;
    }
    again := planned.value;
    match endpoint.value {
      case Previous =>
        var k;
        table', names', k := RunFromStart(ex, from, to, table, names, target, ops, budget);
        j' := k;
        r := Success(k == |ops|);
        PreviousExact(ex, before, after, mapping, again, table, k, table');
      case Target =>
        var done;
        ghost var k;
        table', names', done, k := RunMetadata(ex, mapping, before, after, table, names, budget, again);
        j' := |ops|;
        r := Success(done);
        TargetStage(from, to, ops, table', names');
    }
  }

  lemma ErrorCases(r: Result<bool, RecoveryError>)
    ensures r.Success? || r == Failure(AmbiguousNames) || r == Failure(PartialChange)
  {
    match r
    case Success(_) =>
    case Failure(error) =>
      match error
      case AmbiguousNames =>
      case PartialChange =>
  }

  /** A change in which every shared name keeps its ordinal is completed from the start and past its structure. */
  method RecoverKeptNames(
    ex: Executor, mapping: ColumnNameMapping, before: ReplicatedTableSchema, after: ReplicatedTableSchema,
    table: Table, names: seq<string>, budget: nat, ghost plan: SchemaPlan, ghost j: nat)
    returns (r: Result<bool, RecoveryError>, table': Table, names': seq<string>)
    requires Sorted(before.Columns()) && Sorted(after.Columns())
    requires Representable(before, mapping) && Representable(after, mapping)
    requires Interrupted(ex, before, after, mapping, plan, j, table, names)
    requires forall c, b | c in after.Columns() && b in before.table.columns ::
               mapping.MapName(c.name) == mapping.MapName(b.name) ==> c.ordinal == b.ordinal
    requires j == 0 || j >= StructuralLength(plan.operations)
    requires budget >= |plan.operations|
    ensures r == Success(true)
    ensures SameShape(DestinationTable(after, mapping), table') && names' == DestinationNames(after, mapping)
    ensures Exact(ex) ==> EraseTable(table') == EraseTable(DestinationTable(after, mapping))
  {
    ghost var again, j';
    r, table', names', again, j' := RecoverPendingChange(ex, mapping, before, after, table, names, budget, plan, j);
    ErrorCases(r);
    TodoShort(again, j);
  }

  lemma TodoShort(plan: SchemaPlan, j: nat)
    ensures |Todo(plan, j)| <= |plan.operations|
  {
  }

  lemma PreviousExact(
    ex: Executor, before: ReplicatedTableSchema, after: ReplicatedTableSchema, mapping: ColumnNameMapping,
    plan: SchemaPlan, table: Table, k: nat, table': Table)
    requires DistinctOrdinals(before.Columns()) && DistinctOrdinals(after.Columns())
    requires PlanCorrect(before, after, mapping, plan) && k <= |plan.operations|
    requires PhysicalExecute(ex, table, plan.operations[..k]) == Some(table')
    requires k == |plan.operations| ==> SameShape(DestinationTable(after, mapping), table')
    requires Exact(ex) ==> Between(table, DestinationTable(before, mapping), DestinationTable(after, mapping))
    ensures Exact(ex) ==> Between(table', DestinationTable(before, mapping), DestinationTable(after, mapping))
    ensures k == |plan.operations| && Exact(ex) ==>
              EraseTable(table') == EraseTable(DestinationTable(after, mapping))
  {
    if Exact(ex) {
      PrefixBetween(ex, before, after, mapping, plan, table, k);
      if k == |plan.operations| {
        assert plan.operations[..k] == plan.operations;
        WholePlanExact(ex, before, after, mapping, plan, table, table');
      }
    }
  }

  lemma TargetStage(from: Table, to: Table, ops: seq<Operation>, table: Table, names: seq<string>)
    requires Progresses(from, to, ops) && SameShape(to, table) && names == NamesInOrder(to)
    ensures AtStage(from, ops, |ops|, table, names)
  {
    var t := At(from, ops, |ops|);
    FirstAndLast(from, ops);
    PrefixesExecute(from, ops, |ops|);
    SameShapeNames(t, to);
    SameOrder(t, to);
  }
}
