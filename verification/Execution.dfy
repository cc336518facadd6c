/**
 What a destination does with an ordered list of schema operations. A step fails
 when the column it expects is not there in exactly the expected state, or when
 a name it introduces is already taken.
 */
module Execution {
  import opened Text
  import opened Columns
  import opened SchemaDiff

  datatype AlterationKind = Rename | Type | Nullability | Default

  datatype Operation =
    | DropColumn(before: ColumnSchema, reason: PresenceReason)
    | AddColumn(after: ColumnSchema, reason: PresenceReason)
    | AlterColumn(before: ColumnSchema, after: ColumnSchema, kind: AlterationKind)

  predicate IsRename(op: Operation) {
    op.AlterColumn? && op.kind.Rename?
  }

  /** An alteration changes the field its kind names, and nothing else. */
  predicate WellFormedAlteration(before: ColumnSchema, after: ColumnSchema, kind: AlterationKind) {
    && before != after
    && after == match kind
                case Rename => before.(name := after.name)
                case Type => before.(typ := after.typ, modifier := after.modifier)
                case Nullability => before.(nullable := after.nullable)
                case Default => before.(defaultExpression := after.defaultExpression)
  }

  function Apply(t: Table, op: Operation): Option<Table> {
    match op
    case DropColumn(before, _) =>
      if before.ordinal in t && t[before.ordinal] == before
      then Some(t - {before.ordinal})
      else None
    case AddColumn(after, _) =>
      if after.ordinal !in t && after.name !in Names(t)
      then Some(t[after.ordinal := after])
      else None
    case AlterColumn(before, after, kind) =>
      if && WellFormedAlteration(before, after, kind)
         && before.ordinal in t && t[before.ordinal] == before
         && (kind.Rename? ==> after.name !in Names(t))
      then Some(t[before.ordinal := after])
      else None
  }

  lemma ApplyKeeps(t: Table, op: Operation)
    requires KeyedByOrdinal(t) && DistinctNames(t) && Apply(t, op).Some?
    ensures KeyedByOrdinal(Apply(t, op).value) && DistinctNames(Apply(t, op).value)
  {
    forall o | o in t ensures t[o].name in Names(t) {}
  }

  function Execute(t: Table, ops: seq<Operation>): Option<Table> {
    if ops == [] then Some(t)
    else
      match Execute(t, ops[..|ops| - 1])
      case None => None
      case Some(t') => Apply(t', ops[|ops| - 1])
  }

  lemma ExecuteAppend(t: Table, ops: seq<Operation>, op: Operation)
    ensures Execute(t, ops + [op]) ==
            match Execute(t, ops) case None => None case Some(t') => Apply(t', op)
  {
    assert (ops + [op])[..|ops|] == ops;
  }

  /** A list that executes never meets a name clash, wherever it is interrupted. */
  lemma {:induction false} PrefixesExecute(t: Table, ops: seq<Operation>, k: nat)
    requires KeyedByOrdinal(t) && DistinctNames(t) && Execute(t, ops).Some? && k <= |ops|
    ensures Execute(t, ops[..k]).Some?
    ensures KeyedByOrdinal(Execute(t, ops[..k]).value) && DistinctNames(Execute(t, ops[..k]).value)
  {
    if k < |ops| {
      assert ops[..|ops| - 1][..k] == ops[..k];
      PrefixesExecute(t, ops[..|ops| - 1], k);
    } else {
      assert ops[..k] == ops;
      if ops != [] {
        PrefixesExecute(t, ops[..|ops| - 1], |ops| - 1);
        assert ops[..|ops| - 1][..|ops| - 1] == ops[..|ops| - 1];
        ApplyKeeps(Execute(t, ops[..|ops| - 1]).value, ops[|ops| - 1]);
      }
    }
  }

  /** Every operation of a list that executes applies to what the operations before it leave. */
  lemma NextApplies(t: Table, ops: seq<Operation>, k: nat)
    requires KeyedByOrdinal(t) && DistinctNames(t) && Execute(t, ops).Some? && k < |ops|
    ensures Execute(t, ops[..k]).Some? && Execute(t, ops[..k + 1]).Some?
    ensures Execute(t, ops[..k + 1]) == Apply(Execute(t, ops[..k]).value, ops[k])
  {
    PrefixesExecute(t, ops, k + 1);
    assert ops[..k + 1][..k] == ops[..k];
  }

  function CountRenames(ops: seq<Operation>): nat {
    if ops == [] then 0
    else CountRenames(ops[..|ops| - 1]) + if IsRename(ops[|ops| - 1]) then 1 else 0
  }

  lemma CountRenamesAppend(ops: seq<Operation>, op: Operation)
    ensures CountRenames(ops + [op]) == CountRenames(ops) + if IsRename(op) then 1 else 0
  {
    assert (ops + [op])[..|ops|] == ops;
  }

  // ---------- primary-key metadata is not physical ----------

  function EraseColumn(c: ColumnSchema): ColumnSchema {
    c.(primaryKeyOrdinal := None)
  }

  function EraseTable(t: Table): Table {
    map o | o in t :: EraseColumn(t[o])
  }

  function EraseOperation(op: Operation): Operation {
    match op
    case DropColumn(before, reason) => DropColumn(EraseColumn(before), reason)
    case AddColumn(after, reason) => AddColumn(EraseColumn(after), reason)
    case AlterColumn(before, after, kind) => AlterColumn(EraseColumn(before), EraseColumn(after), kind)
  }

  function EraseOperations(ops: seq<Operation>): seq<Operation> {
    seq(|ops|, i requires 0 <= i < |ops| => EraseOperation(ops[i]))
  }

  lemma EraseApply(t: Table, op: Operation)
    requires KeyedByOrdinal(t) && Apply(t, op).Some?
    ensures Apply(EraseTable(t), EraseOperation(op)) == Some(EraseTable(Apply(t, op).value))
  {
    var e := EraseTable(t);
    forall n ensures n in Names(e) <==> n in Names(t) {
      if n in Names(t) {
        var o := OwnerOf(t, n);
        assert e[o].name == n;
      }
      if n in Names(e) {
        var o := OwnerOf(e, n);
        assert t[o].name == n;
      }
    }
    match op
    case DropColumn(before, _) =>
      assert EraseTable(t - {before.ordinal}) == e - {before.ordinal};
    case AddColumn(after, _) =>
      assert EraseTable(t[after.ordinal := after]) == e[after.ordinal := EraseColumn(after)];
    case AlterColumn(before, after, _) =>
      assert after.primaryKeyOrdinal == before.primaryKeyOrdinal;
      assert EraseTable(t[before.ordinal := after]) == e[before.ordinal := EraseColumn(after)];
  }

  /** Executing on a table without primary-key metadata simulates executing with it. */
  lemma {:induction false} EraseExecute(t: Table, ops: seq<Operation>)
    requires KeyedByOrdinal(t) && DistinctNames(t) && Execute(t, ops).Some?
    ensures Execute(EraseTable(t), EraseOperations(ops)) == Some(EraseTable(Execute(t, ops).value))
  {
    if ops != [] {
      var front := ops[..|ops| - 1];
      EraseExecute(t, front);
      PrefixesExecute(t, front, |front|);
      assert front[..|front|] == front;
      EraseApply(Execute(t, front).value, ops[|ops| - 1]);
      assert EraseOperations(ops)[..|ops| - 1] == EraseOperations(front);
    }
  }
}
