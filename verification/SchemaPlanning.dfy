/**
 Planning a destination schema change from two replicated schemas, and what the
 resulting plan guarantees.
 */
module SchemaPlanning {
  import opened Text
  import opened Snapshots
  import opened Columns
  import opened SchemaDiff
  import opened Execution
  import opened RenameGraph
  import opened Planner
  import FewestRenames

  datatype SchemaPlan = SchemaPlan(diff: Diff, operations: seq<Operation>)

  function ColumnNames(columns: seq<ColumnSchema>): seq<string> {
    seq(|columns|, i requires 0 <= i < |columns| => columns[i].name)
  }

  /** No two replicated columns share a destination name. */
  ghost predicate Representable(schema: ReplicatedTableSchema, mapping: ColumnNameMapping) {
    UniqueUpTo(ColumnNames(schema.Columns()), mapping, |schema.Columns()|)
  }

  // ---------- what a plan guarantees ----------

  ghost predicate PlanCorrect(
    before: ReplicatedTableSchema, after: ReplicatedTableSchema, mapping: ColumnNameMapping, plan: SchemaPlan)
  {
    var from, to := DestinationTable(before, mapping), DestinationTable(after, mapping);
    && IsDiff(before, after, plan.diff)
    && KeyedByOrdinal(from) && DistinctNames(from)
    && KeyedByOrdinal(to) && DistinctNames(to)
    && Execute(from, plan.operations) == Some(ReachedTable(from, to))
    && InPhases(plan.operations, plan.diff, mapping)
    && RenameCounts(plan.operations, Names(from) + Names(to), Common(from, to), WantedNames(from, to))
    && CountRenamed(plan.diff.altered, mapping) == |RenameRequests(from, to).source|
  }

  // ---------- from schemas to tables ----------

  /** The destination table of a schema holds its replicated columns under their ordinals. */
  lemma TableColumns(schema: ReplicatedTableSchema, mapping: ColumnNameMapping)
    requires DistinctOrdinals(schema.Columns())
    ensures var t := DestinationTable(schema, mapping);
            && t.Keys == Ordinals(schema.Columns())
            && forall c | c in schema.Columns() :: c.ordinal in t && t[c.ordinal] == mapping.MapColumn(c)
    ensures forall o | o in DestinationTable(schema, mapping) ::
              o in ByOrdinal(schema.Columns()) && ByOrdinal(schema.Columns())[o] in schema.Columns() &&
              ByOrdinal(schema.Columns())[o].ordinal == o
  {
    ByOrdinalSpec(schema.Columns());
    var t := DestinationTable(schema, mapping);
    forall o ensures o in t.Keys <==> o in Ordinals(schema.Columns()) {}
  }

  lemma TableNames(schema: ReplicatedTableSchema, mapping: ColumnNameMapping, n: string)
    requires DistinctOrdinals(schema.Columns())
    ensures n in Names(DestinationTable(schema, mapping)) <==>
            exists i :: 0 <= i < |schema.Columns()| && n == mapping.MapName(ColumnNames(schema.Columns())[i])
  {
    var columns, t := schema.Columns(), DestinationTable(schema, mapping);
    TableColumns(schema, mapping);
    if n in Names(t) {
      var o := OwnerOf(t, n);
      var i :| 0 <= i < |columns| && columns[i] == ByOrdinal(columns)[o];
      assert n == mapping.MapName(ColumnNames(columns)[i]);
    }
    if i :| 0 <= i < |columns| && n == mapping.MapName(ColumnNames(columns)[i]) {
      assert columns[i] in columns;
      assert t[columns[i].ordinal].name == n;
    }
  }

  lemma RepresentableDistinct(schema: ReplicatedTableSchema, mapping: ColumnNameMapping, o: int, p: int)
    requires DistinctOrdinals(schema.Columns()) && Representable(schema, mapping)
    requires var t := DestinationTable(schema, mapping);
             o in t && p in t && t[o].name == t[p].name
    ensures o == p
  {
    var columns := schema.Columns();
    TableColumns(schema, mapping);
    var i :| 0 <= i < |columns| && columns[i] == ByOrdinal(columns)[o];
    var j :| 0 <= j < |columns| && columns[j] == ByOrdinal(columns)[p];
    assert !Collides(ColumnNames(columns), mapping, i, j);
    assert !Collides(ColumnNames(columns), mapping, j, i);
  }

  lemma RepresentableTable(schema: ReplicatedTableSchema, mapping: ColumnNameMapping)
    requires DistinctOrdinals(schema.Columns())
    ensures KeyedByOrdinal(DestinationTable(schema, mapping))
    ensures Representable(schema, mapping) ==> DistinctNames(DestinationTable(schema, mapping))
    ensures forall n :: n in Names(DestinationTable(schema, mapping)) <==>
                        exists i :: 0 <= i < |schema.Columns()| &&
                                    n == mapping.MapName(ColumnNames(schema.Columns())[i])
  {
    var t := DestinationTable(schema, mapping);
    TableColumns(schema, mapping);
    forall n {
      TableNames(schema, mapping, n);
    }
    if Representable(schema, mapping) {
      forall o, p | o in t && p in t && t[o].name == t[p].name ensures o == p {
        RepresentableDistinct(schema, mapping, o, p);
      }
    }
  }

  lemma DropsDescribed(
    before: ReplicatedTableSchema, after: ReplicatedTableSchema, d: Diff, mapping: ColumnNameMapping)
    requires DistinctOrdinals(before.Columns()) && DistinctOrdinals(after.Columns())
    requires forall r :: r in d.dropped <==> IsRemoval(before, after, r)
    ensures var from, to := DestinationTable(before, mapping), DestinationTable(after, mapping);
            DroppedOrdinals(d.dropped) == from.Keys - to.Keys
  {
    var from, to := DestinationTable(before, mapping), DestinationTable(after, mapping);
    TableColumns(before, mapping);
    TableColumns(after, mapping);
    forall o ensures o in DroppedOrdinals(d.dropped) <==> o in from.Keys - to.Keys {
      if o in from.Keys - to.Keys {
        var c := ByOrdinal(before.Columns())[o];
        assert IsRemoval(before, after, ColumnRemoval(c, Reason(after, o)));
      }
    }
  }

  lemma AdditionsDescribed(
    before: ReplicatedTableSchema, after: ReplicatedTableSchema, d: Diff, mapping: ColumnNameMapping)
    requires DistinctOrdinals(before.Columns()) && DistinctOrdinals(after.Columns())
    requires forall a :: a in d.added <==> IsAddition(before, after, a)
    ensures var from, to := DestinationTable(before, mapping), DestinationTable(after, mapping);
            AddedOrdinals(d.added) == to.Keys - from.Keys
  {
    var from, to := DestinationTable(before, mapping), DestinationTable(after, mapping);
    TableColumns(before, mapping);
    TableColumns(after, mapping);
    forall o ensures o in AddedOrdinals(d.added) <==> o in to.Keys - from.Keys {
      if o in to.Keys - from.Keys {
        var c := ByOrdinal(after.Columns())[o];
        assert IsAddition(before, after, ColumnAddition(c, Reason(before, o)));
      }
    }
  }

  lemma UnalteredDescribed(
    before: ReplicatedTableSchema, after: ReplicatedTableSchema, d: Diff, mapping: ColumnNameMapping)
    requires DistinctOrdinals(before.Columns()) && DistinctOrdinals(after.Columns())
    requires forall m :: m in d.altered <==> IsChange(before, after, m)
    ensures var from, to := DestinationTable(before, mapping), DestinationTable(after, mapping);
            forall o | o in from && o in to && o !in AlteredOrdinals(d.altered) :: from[o] == to[o]
  {
    var from, to := DestinationTable(before, mapping), DestinationTable(after, mapping);
    TableColumns(before, mapping);
    TableColumns(after, mapping);
    forall o | o in from && o in to && o !in AlteredOrdinals(d.altered) ensures from[o] == to[o] {
      var m := ColumnMetadataChange(ByOrdinal(before.Columns())[o], ByOrdinal(after.Columns())[o]);
      assert !IsChange(before, after, m);
    }
  }

  lemma EntriesDescribed(
    before: ReplicatedTableSchema, after: ReplicatedTableSchema, d: Diff, mapping: ColumnNameMapping)
    requires DistinctOrdinals(before.Columns()) && DistinctOrdinals(after.Columns())
    requires IsDiff(before, after, d)
    ensures var from, to := DestinationTable(before, mapping), DestinationTable(after, mapping);
            && (forall r | r in d.dropped ::
                  r.column.ordinal in from && from[r.column.ordinal] == mapping.MapColumn(r.column))
            && (forall a | a in d.added ::
                  a.column.ordinal in to && to[a.column.ordinal] == mapping.MapColumn(a.column))
            && (forall m | m in d.altered :: DescribesChange(m, mapping, from, to))
  {
    TableColumns(before, mapping);
    TableColumns(after, mapping);
    assert forall r | r in d.dropped :: IsRemoval(before, after, r);
    assert forall a | a in d.added :: IsAddition(before, after, a);
    assert forall m | m in d.altered :: IsChange(before, after, m);
  }

  lemma DiffDescribes(before: ReplicatedTableSchema, after: ReplicatedTableSchema, d: Diff, mapping: ColumnNameMapping)
    requires DistinctOrdinals(before.Columns()) && DistinctOrdinals(after.Columns())
    requires IsDiff(before, after, d)
    ensures Describes(d, mapping, DestinationTable(before, mapping), DestinationTable(after, mapping))
  {
    EntriesDescribed(before, after, d, mapping);
    DropsDescribed(before, after, d, mapping);
    AdditionsDescribed(before, after, d, mapping);
    UnalteredDescribed(before, after, d, mapping);
  }

  /**
   Diffs two replicated schemas and plans the change. Planning fails exactly
   when an endpoint cannot be represented; the rename loop itself never fails.
   */
  method PlanSchemaChange(before: ReplicatedTableSchema, after: ReplicatedTableSchema, mapping: ColumnNameMapping)
    returns (r: Result<SchemaPlan, SchemaPlanError>)
    requires DistinctOrdinals(before.Columns()) && DistinctOrdinals(after.Columns())
    ensures r.Success? <==> Representable(before, mapping) && Representable(after, mapping)
    ensures r.Success? ==> PlanCorrect(before, after, mapping, r.value)
    ensures r.Failure? ==>
              if Representable(before, mapping)
              then BlamesFirst(r.error, ColumnNames(after.Columns()), mapping, After)
              else BlamesFirst(r.error, ColumnNames(before.Columns()), mapping, Before)
  {
    var d := ComputeDiff(before, after);
    var beforeNames := CollectUniqueColumnNames(ColumnNames(before.Columns()), mapping, Before);
    if beforeNames.Failure? {
      return Failure(beforeNames.error);
    }
    var afterNames := CollectUniqueColumnNames(ColumnNames(after.Columns()), mapping, After);
    if afterNames.Failure? {
      return Failure(afterNames.error);
    }
    ghost var from, to := DestinationTable(before, mapping), DestinationTable(after, mapping);
    RepresentableTable(before, mapping);
    RepresentableTable(after, mapping);
    DiffDescribes(before, after, d, mapping);
    assert beforeNames.value.Keys == Names(from) && afterNames.value.Keys == Names(to);
    var planner := new SchemaOperationPlanner(
      beforeNames.value.Keys, beforeNames.value.Keys + afterNames.value.Keys, mapping, from);
    var outcome := planner.Plan(d, to);
    match outcome
    case Fail(error) => return Failure(error);
    case Pass => return Success(SchemaPlan(d, planner.operations));
  }

  // ---------- consequences ----------

  /** However far a plan has run, the live columns have distinct names. */
  lemma PlanSafeWhenInterrupted(
    before: ReplicatedTableSchema, after: ReplicatedTableSchema, mapping: ColumnNameMapping, plan: SchemaPlan, k: nat)
    requires PlanCorrect(before, after, mapping, plan) && k <= |plan.operations|
    ensures Execute(DestinationTable(before, mapping), plan.operations[..k]).Some?
    ensures DistinctNames(Execute(DestinationTable(before, mapping), plan.operations[..k]).value)
  {
    PrefixesExecute(DestinationTable(before, mapping), plan.operations, k);
  }

  /**
   A plan reaches the after endpoint exactly when no shared column changes its
   place in the primary key, and always reaches it up to that place.
   */
  lemma PlanConverges(
    before: ReplicatedTableSchema, after: ReplicatedTableSchema, mapping: ColumnNameMapping, plan: SchemaPlan)
    requires PlanCorrect(before, after, mapping, plan)
    ensures var from, to := DestinationTable(before, mapping), DestinationTable(after, mapping);
            && Execute(from, plan.operations).Some?
            && EraseTable(Execute(from, plan.operations).value) == EraseTable(to)
            && (Execute(from, plan.operations).value == to <==>
                forall o | o in from && o in to :: from[o].primaryKeyOrdinal == to[o].primaryKeyOrdinal)
  {
    ReachedUpToKey(DestinationTable(before, mapping), DestinationTable(after, mapping));
  }

  lemma ReachedUpToKey(from: Table, to: Table)
    ensures EraseTable(ReachedTable(from, to)) == EraseTable(to)
    ensures ReachedTable(from, to) == to <==>
            forall o | o in from && o in to :: from[o].primaryKeyOrdinal == to[o].primaryKeyOrdinal
  {
    var reached := ReachedTable(from, to);
    forall o | o in to ensures EraseColumn(reached[o]) == EraseColumn(to[o]) {}
    if reached == to {
      forall o | o in from && o in to ensures from[o].primaryKeyOrdinal == to[o].primaryKeyOrdinal {
        assert reached[o] == to[o];
      }
    }
    if forall o | o in from && o in to :: from[o].primaryKeyOrdinal == to[o].primaryKeyOrdinal {
      forall o | o in to ensures reached[o] == to[o] {}
    }
  }

  /** The plan renames more often than the diff asks for. */
  predicate HasRenameCycles(plan: SchemaPlan, mapping: ColumnNameMapping) {
    CountRenames(plan.operations) > CountRenamed(plan.diff.altered, mapping)
  }

  /** That happens exactly when some of the renames only trade names among themselves. */
  lemma RenameCyclesDetected(
    before: ReplicatedTableSchema, after: ReplicatedTableSchema, mapping: ColumnNameMapping, plan: SchemaPlan)
    requires PlanCorrect(before, after, mapping, plan)
    ensures var g := RenameRequests(DestinationTable(before, mapping), DestinationTable(after, mapping));
            && Valid(g)
            && (HasRenameCycles(plan, mapping) <==> exists s :: s != {} && Closed(g, s))
  {
    HasCycle(RenameRequests(DestinationTable(before, mapping), DestinationTable(after, mapping)));
  }

  /** No list of operations that keeps the shared columns and reaches the same table has fewer renames. */
  lemma PlanRenamesLeast(
    before: ReplicatedTableSchema, after: ReplicatedTableSchema, mapping: ColumnNameMapping, plan: SchemaPlan,
    ops: seq<Operation>)
    requires PlanCorrect(before, after, mapping, plan)
    requires var from, to := DestinationTable(before, mapping), DestinationTable(after, mapping);
             && FewestRenames.KeepsShared(ops, from.Keys * to.Keys)
             && Execute(from, ops) == Some(ReachedTable(from, to))
    ensures CountRenames(plan.operations) <= CountRenames(ops)
  {
    var from, to := DestinationTable(before, mapping), DestinationTable(after, mapping);
    assert WantedNames(from, to).Keys == from.Keys * to.Keys;
    FewestRenames.AtLeast(from, Common(from, to), WantedNames(from, to), ops);
  }

  /**
   A shared column that enters the primary key: the plan has nothing to execute, so the after table is missed.
   */
  method PrimaryKeyExample()
    returns (before: ReplicatedTableSchema, after: ReplicatedTableSchema, plan: SchemaPlan)
    ensures PlanCorrect(before, after, Identity, plan)
    ensures Execute(DestinationTable(before, Identity), plan.operations).Some?
    ensures Execute(DestinationTable(before, Identity), plan.operations) != Some(DestinationTable(after, Identity))
  {
    var id := ColumnSchema("id", 20, -1, 1, None, false, None);
    var key := id.(primaryKeyOrdinal := Some(1));
    before := ReplicatedTableSchema(TableSchema(1, [id], SnapshotId(1, 1)), [1]);
    after := ReplicatedTableSchema(TableSchema(1, [key], SnapshotId(2, 2)), [1]);
    OneColumn(before, id);
    OneColumn(after, key);
    var planned := PlanSchemaChange(before, after, Identity);
    plan := planned.value;
    PlanConverges(before, after, Identity, plan);
    assert DestinationTable(before, Identity)[1] == id && DestinationTable(after, Identity)[1] == key;
  }

  lemma OneColumn(schema: ReplicatedTableSchema, column: ColumnSchema)
    requires schema.table.columns == [column] && schema.mask == [1]
    ensures schema.Columns() == [column] && DistinctOrdinals(schema.Columns()) && Representable(schema, Identity)
    ensures DestinationTable(schema, Identity) == map[column.ordinal := column]
  {
    assert Selected([column][1..], [1][1..]) == [];
    assert [column][..0] == [];
    assert ByOrdinal([column]) == map[column.ordinal := column];
  }

  // ---------- folded names ----------

  /** A mapping that leaves folded names and temporary names as they are. */
  ghost predicate Folds(mapping: ColumnNameMapping) {
    && (forall n :: mapping.MapName(mapping.MapName(n)) == mapping.MapName(n))
    && forall ordinal, sequence :: mapping.MapName(TemporaryName(ordinal, sequence)) == TemporaryName(ordinal, sequence)
  }

  lemma BuiltInMappingsFold()
    ensures Folds(Identity) && Folds(AsciiLowercase)
  {
    forall ordinal: int, sequence: nat
      ensures AsciiLowercase.MapName(TemporaryName(ordinal, sequence)) == TemporaryName(ordinal, sequence)
    {
      LowercaseTemporaryName(ordinal, sequence);
    }
    forall n ensures AsciiLowercase.MapName(AsciiLowercase.MapName(n)) == AsciiLowercase.MapName(n) {}
  }

  predicate IsLowercase(s: string) {
    forall i | 0 <= i < |s| :: LowerAscii(s[i]) == s[i]
  }

  lemma LowercaseTemporaryName(ordinal: int, sequence: nat)
    ensures AsciiLowercase.MapName(TemporaryName(ordinal, sequence)) == TemporaryName(ordinal, sequence)
  {
    var digits := SignedDecimal(ordinal);
    LowercasePrefix();
    LowercaseDecimal(if ordinal < 0 then -ordinal else ordinal);
    LowercaseDecimal(sequence);
    LowercaseAppend("-", Decimal(if ordinal < 0 then -ordinal else ordinal));
    LowercaseAppend(DDL_TEMPORARY_COLUMN_PREFIX, digits);
    LowercaseAppend(DDL_TEMPORARY_COLUMN_PREFIX + digits, "_");
    LowercaseAppend(DDL_TEMPORARY_COLUMN_PREFIX + digits + "_", Decimal(sequence));
    LowercaseFixed(TemporaryName(ordinal, sequence));
  }

  lemma LowercasePrefix()
    ensures IsLowercase(DDL_TEMPORARY_COLUMN_PREFIX)
  {
  }

  lemma LowercaseAppend(s: string, t: string)
    requires IsLowercase(s) && IsLowercase(t)
    ensures IsLowercase(s + t)
  {
  }

  lemma LowercaseFixed(s: string)
    requires IsLowercase(s)
    ensures AsciiLowercase.MapName(s) == s
  {
  }

  lemma LowercaseDecimal(n: nat)
    ensures IsLowercase(Decimal(n))
  {
    DecimalDigits(n);
  }

  ghost predicate FoldedNames(t: Table, mapping: ColumnNameMapping) {
    forall o | o in t :: mapping.MapName(t[o].name) == t[o].name
  }

  /** The names an operation introduces are folded. */
  ghost predicate IntroducesFolded(op: Operation, mapping: ColumnNameMapping) {
    match op
    case DropColumn(_, _) => true
    case AddColumn(after, _) => mapping.MapName(after.name) == after.name
    case AlterColumn(_, after, kind) => kind.Rename? ==> mapping.MapName(after.name) == after.name
  }

  lemma {:induction false} ExecuteKeepsFolded(t: Table, ops: seq<Operation>, mapping: ColumnNameMapping)
    requires FoldedNames(t, mapping) && Execute(t, ops).Some?
    requires forall op | op in ops :: IntroducesFolded(op, mapping)
    ensures FoldedNames(Execute(t, ops).value, mapping)
  {
    if ops != [] {
      ExecuteKeepsFolded(t, ops[..|ops| - 1], mapping);
      assert ops[|ops| - 1] in ops;
    }
  }

  lemma PlanIntroducesFolded(
    before: ReplicatedTableSchema, after: ReplicatedTableSchema, mapping: ColumnNameMapping, plan: SchemaPlan, i: nat)
    requires PlanCorrect(before, after, mapping, plan) && Folds(mapping) && i < |plan.operations|
    ensures IntroducesFolded(plan.operations[i], mapping)
  {
    var op := plan.operations[i];
    var from, to := DestinationTable(before, mapping), DestinationTable(after, mapping);
    if IsRename(op) {
      var endpoint := Names(from) + Names(to);
      if op.after.name in endpoint {
        EndpointFolded(before, mapping, op.after.name);
        EndpointFolded(after, mapping, op.after.name);
      } else {
        assert op.after.name in TemporaryNames(plan.operations, endpoint);
      }
    } else if op.AddColumn? {
      AdditionFolded(plan, mapping, i);
    }
  }

  lemma EndpointFolded(schema: ReplicatedTableSchema, mapping: ColumnNameMapping, n: string)
    requires Folds(mapping)
    ensures n in Names(DestinationTable(schema, mapping)) ==> mapping.MapName(n) == n
  {
    if n in Names(DestinationTable(schema, mapping)) {
      var o := OwnerOf(DestinationTable(schema, mapping), n);
    }
  }

  lemma AdditionFolded(plan: SchemaPlan, mapping: ColumnNameMapping, i: nat)
    requires InPhases(plan.operations, plan.diff, mapping) && Folds(mapping)
    requires i < |plan.operations| && plan.operations[i].AddColumn?
    ensures mapping.MapName(plan.operations[i].after.name) == plan.operations[i].after.name
  {
    var renames, alterations :| PhasedBy(plan.operations, plan.diff, mapping, renames, alterations);
    var drops, additions := Drops(plan.diff.dropped, mapping), Additions(plan.diff.added, mapping);
    var op := plan.operations[i];
    assert forall x | x in drops :: x.DropColumn?;
    assert forall x | x in renames :: Phase(x) == 1;
    assert forall x | x in alterations :: Phase(x) == 3;
    assert op in plan.operations && op in additions;
  }

  /** However far a plan has run, no two live names collide in the destination's folding either. */
  lemma PlanNamesFolded(
    before: ReplicatedTableSchema, after: ReplicatedTableSchema, mapping: ColumnNameMapping, plan: SchemaPlan, k: nat)
    requires PlanCorrect(before, after, mapping, plan) && Folds(mapping) && k <= |plan.operations|
    ensures Execute(DestinationTable(before, mapping), plan.operations[..k]).Some?
    ensures var t := Execute(DestinationTable(before, mapping), plan.operations[..k]).value;
            && FoldedNames(t, mapping)
            && forall o, p | o in t && p in t && mapping.Equivalent(t[o].name, t[p].name) :: o == p
  {
    var from, ops := DestinationTable(before, mapping), plan.operations[..k];
    PlanSafeWhenInterrupted(before, after, mapping, plan, k);
    forall op | op in ops ensures IntroducesFolded(op, mapping) {
      var i :| 0 <= i < |ops| && ops[i] == op;
      PlanIntroducesFolded(before, after, mapping, plan, i);
    }
    ExecuteKeepsFolded(from, ops, mapping);
  }
}
