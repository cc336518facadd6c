/**
 What a destination's own DDL does with the operations of a plan. Columns are found
 by name, as in SQL, and a destination may keep other metadata than it was asked
 for: it may skip a type change, leave a column nullable or ignore a default.
 */
module PhysicalExecution {
  import opened Text
  import opened Columns
  import opened Execution

  /**
   The metadata a destination keeps: `stored` for the column of an operation, given the column it has
   now, and `created` for a column of a new table. Only name and ordinal are taken from the request.
   */
  datatype Executor = Executor(
    stored: (Operation, Option<ColumnSchema>) -> ColumnSchema,
    created: ColumnSchema -> ColumnSchema)

  /** A column with one field as the after column of an alteration has it. */
  function WithField(c: ColumnSchema, after: ColumnSchema, kind: AlterationKind): ColumnSchema {
    match kind
    case Rename => c
    case Type => c.(typ := after.typ, modifier := after.modifier)
    case Nullability => c.(nullable := after.nullable)
    case Default => c.(defaultExpression := after.defaultExpression)
  }

  /** An executor that does exactly what it is asked for: DDL sets the field that it names, and nothing else. */
  ghost predicate Exact(ex: Executor) {
    && (forall op: Operation | op.AddColumn? :: ex.stored(op, None) == op.after)
    && (forall op: Operation, c | op.AlterColumn? :: ex.stored(op, Some(c)) == WithField(c, op.after, op.kind))
    && forall c :: ex.created(c) == c
  }

  function Stored(ex: Executor, op: Operation, current: Option<ColumnSchema>): ColumnSchema
    requires !op.DropColumn?
  {
    ex.stored(op, current).(name := op.after.name, ordinal := op.after.ordinal)
  }

  function PhysicalApply(ex: Executor, t: Table, op: Operation): Option<Table> {
    match op
    case DropColumn(before, _) =>
      if before.ordinal in t && t[before.ordinal].name == before.name
      then Some(t - {before.ordinal})
      else None
    case AddColumn(after, _) =>
      if after.ordinal !in t && after.name !in Names(t)
      then Some(t[after.ordinal := Stored(ex, op, None)])
      else None
    case AlterColumn(before, after, kind) =>
      if && before.ordinal == after.ordinal
         && before.ordinal in t && t[before.ordinal].name == before.name
         && (if kind.Rename? then after.name !in Names(t) else after.name == before.name)
      then Some(t[before.ordinal := Stored(ex, op, Some(t[before.ordinal]))])
      else None
  }

  function PhysicalExecute(ex: Executor, t: Table, ops: seq<Operation>): Option<Table> {
    if ops == [] then Some(t)
    else
      match PhysicalExecute(ex, t, ops[..|ops| - 1])
      case None => None
      case Some(t') => PhysicalApply(ex, t', ops[|ops| - 1])
  }

  /** The table a destination creates for some columns. */
  function CreateTable(ex: Executor, t: Table): Table {
    map o | o in t :: ex.created(t[o]).(name := t[o].name, ordinal := t[o].ordinal)
  }

  /** An operation runs only where it leaves one column for each ordinal and each name. */
  lemma PhysicalStepSafe(ex: Executor, t: Table, op: Operation)
    requires DistinctNames(t) && PhysicalApply(ex, t, op).Some?
    ensures var t' := PhysicalApply(ex, t, op).value;
            && DistinctNames(t')
            && match op
               case DropColumn(before, _) => before.ordinal in t && t'.Keys == t.Keys - {before.ordinal}
               case AddColumn(after, _) => after.ordinal !in t && t'.Keys == t.Keys + {after.ordinal}
               case AlterColumn(before, _, _) => before.ordinal in t && t'.Keys == t.Keys
  {
    if op.AlterColumn? {
      assert t[op.before.ordinal].name == op.before.name;
    }
  }

  /** No prefix of operations that run leaves two columns with one name. */
  lemma {:induction false} PhysicalPrefixSafe(ex: Executor, t: Table, ops: seq<Operation>)
    requires DistinctNames(t) && PhysicalExecute(ex, t, ops).Some?
    ensures DistinctNames(PhysicalExecute(ex, t, ops).value)
  {
    if ops != [] {
      PhysicalPrefixSafe(ex, t, ops[..|ops| - 1]);
      PhysicalStepSafe(ex, PhysicalExecute(ex, t, ops[..|ops| - 1]).value, ops[|ops| - 1]);
    }
  }

  // ---------- names and ordinals are always right ----------

  /** The same logical columns under the same names. */
  ghost predicate SameShape(t: Table, u: Table) {
    && t.Keys == u.Keys
    && forall o | o in t :: t[o].name == u[o].name && t[o].ordinal == u[o].ordinal
  }

  lemma SameNames(t: Table, u: Table)
    requires SameShape(t, u)
    ensures Names(t) == Names(u)
    ensures DistinctNames(t) ==> DistinctNames(u)
  {
    forall n ensures n in Names(t) <==> n in Names(u) {
      if n in Names(t) {
        var o := OwnerOf(t, n);
        assert u[o].name == n;
      }
      if n in Names(u) {
        var o := OwnerOf(u, n);
        assert t[o].name == n;
      }
    }
  }

  /** An operation that applies as requested applies to any table of the same shape, and keeps the shapes equal. */
  lemma ShapeApply(ex: Executor, t: Table, u: Table, op: Operation)
    requires KeyedByOrdinal(t) && SameShape(t, u) && Apply(t, op).Some?
    ensures PhysicalApply(ex, u, op).Some?
    ensures SameShape(Apply(t, op).value, PhysicalApply(ex, u, op).value)
    ensures Exact(ex) && t == u ==> PhysicalApply(ex, u, op) == Apply(t, op)
  {
    SameNames(t, u);
  }

  /** However a destination deviates, a list that executes leaves the columns and names it should. */
  lemma {:induction false} ShapeExecute(ex: Executor, t: Table, u: Table, ops: seq<Operation>)
    requires KeyedByOrdinal(t) && DistinctNames(t) && SameShape(t, u) && Execute(t, ops).Some?
    ensures PhysicalExecute(ex, u, ops).Some?
    ensures SameShape(Execute(t, ops).value, PhysicalExecute(ex, u, ops).value)
    ensures Exact(ex) && t == u ==> PhysicalExecute(ex, u, ops) == Execute(t, ops)
  {
    if ops != [] {
      var front := ops[..|ops| - 1];
      ShapeExecute(ex, t, u, front);
      PrefixesExecute(t, front, |front|);
      assert front[..|front|] == front;
      ShapeApply(ex, Execute(t, front).value, PhysicalExecute(ex, u, front).value, ops[|ops| - 1]);
    }
  }

  lemma CreatedShape(ex: Executor, t: Table)
    ensures SameShape(t, CreateTable(ex, t))
    ensures Exact(ex) ==> CreateTable(ex, t) == t
  {
  }

  /** Runs operations one at a time, for at most `budget` of them. */
  method RunOperations(ex: Executor, table: Table, ops: seq<Operation>, budget: nat) returns (table': Table, k: nat)
    requires PhysicalExecute(ex, table, ops).Some?
    ensures k == if budget < |ops| then budget else |ops|
    ensures PhysicalExecute(ex, table, ops[..k]) == Some(table')
  {
    table', k := table, 0;
    while k < |ops| && k < budget
      invariant k <= |ops| && k <= budget && PhysicalExecute(ex, table, ops[..k]) == Some(table')
    {
      NextRuns(ex, table, ops, k);
      table' := PhysicalApply(ex, table', ops[k]).value;
      k := k + 1;
    }
  }

  lemma {:induction false} NextRuns(ex: Executor, t: Table, ops: seq<Operation>, k: nat)
    requires PhysicalExecute(ex, t, ops).Some? && k < |ops|
    ensures PhysicalExecute(ex, t, ops[..k]).Some? && PhysicalExecute(ex, t, ops[..k + 1]).Some?
    ensures PhysicalExecute(ex, t, ops[..k + 1]) == PhysicalApply(ex, PhysicalExecute(ex, t, ops[..k]).value, ops[k])
    decreases |ops|
  {
    if k + 1 == |ops| {
      assert ops[..k + 1] == ops;
    } else {
      var front := ops[..|ops| - 1];
      NextRuns(ex, t, front, k);
      assert front[..k] == ops[..k] && front[..k + 1] == ops[..k + 1];
    }
  }
}
