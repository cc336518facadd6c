/**
 Running metadata alterations again. DDL names the field it sets, so however many
 alterations of a change have already run, every field of a column is as before or
 as after the change, and running all of them leaves the after columns.
 */
module MetadataReplay {
  import opened Text
  import opened Columns
  import opened SchemaDiff
  import opened Execution
  import opened PhysicalExecution
  import opened Planner

  /** Two columns agree on the field that an alteration of this kind sets. */
  predicate Agrees(c: ColumnSchema, d: ColumnSchema, kind: AlterationKind) {
    match kind
    case Rename => true
    case Type => c.typ == d.typ && c.modifier == d.modifier
    case Nullability => c.nullable == d.nullable
    case Default => c.defaultExpression == d.defaultExpression
  }

  predicate SameFields(c: ColumnSchema, d: ColumnSchema) {
    Agrees(c, d, Type) && Agrees(c, d, Nullability) && Agrees(c, d, Default)
  }

  /** Every field of a column is as before or as after the change; a new column is as after it. */
  ghost predicate ColumnBetween(c: ColumnSchema, from: Table, to: Table, o: int) {
    o in to ==>
      if o in from
      then forall kind :: Agrees(c, from[o], kind) || Agrees(c, to[o], kind)
      else SameFields(c, to[o])
  }

  ghost predicate Between(t: Table, from: Table, to: Table) {
    forall o | o in t :: ColumnBetween(t[o], from, to, o)
  }

  /** An operation sets a field to its value after the change. */
  ghost predicate AimsAt(op: Operation, to: Table) {
    && (op.AddColumn? ==> op.after.ordinal in to && SameFields(op.after, to[op.after.ordinal]))
    && (op.AlterColumn? && !op.kind.Rename? ==>
          op.after.ordinal in to && Agrees(op.after, to[op.after.ordinal], op.kind))
  }

  ghost predicate AllAim(ops: seq<Operation>, to: Table) {
    forall i | 0 <= i < |ops| :: AimsAt(ops[i], to)
  }

  predicate Alters(op: Operation, o: int, kind: AlterationKind) {
    op.AlterColumn? && op.kind == kind && op.after.ordinal == o
  }

  /** One operation keeps every field old or new, and sets the field it names to the new value. */
  lemma BetweenApply(ex: Executor, t: Table, op: Operation, from: Table, to: Table)
    requires Exact(ex) && Between(t, from, to) && AimsAt(op, to) && PhysicalApply(ex, t, op).Some?
    ensures Between(PhysicalApply(ex, t, op).value, from, to)
  {
    var u := PhysicalApply(ex, t, op).value;
    match op
    case DropColumn(_, _) =>
    case AddColumn(after, _) => assert u[after.ordinal] == after;
    case AlterColumn(before, after, kind) =>
      var o := before.ordinal;
      assert SameFields(u[o], WithField(t[o], after, kind));
      assert ColumnBetween(t[o], from, to, o);
      AlteredBetween(t[o], u[o], after, kind, from, to, o);
  }

  lemma AlteredBetween(
    c: ColumnSchema, d: ColumnSchema, after: ColumnSchema, kind: AlterationKind, from: Table, to: Table, o: int)
    requires ColumnBetween(c, from, to, o) && SameFields(d, WithField(c, after, kind))
    requires !kind.Rename? ==> o in to && Agrees(after, to[o], kind)
    ensures ColumnBetween(d, from, to, o)
  {
    if o in to && o in from {
      forall k ensures Agrees(d, from[o], k) || Agrees(d, to[o], k) {
        assert Agrees(c, from[o], k) || Agrees(c, to[o], k);
      }
    }
  }

  /** A field at its new value stays there. */
  lemma AgreesApply(ex: Executor, t: Table, op: Operation, to: Table, o: int, kind: AlterationKind)
    requires Exact(ex) && AimsAt(op, to) && PhysicalApply(ex, t, op).Some? && o in to
    requires o in PhysicalApply(ex, t, op).value
    requires Alters(op, o, kind) || (o in t && Agrees(t[o], to[o], kind))
    ensures Agrees(PhysicalApply(ex, t, op).value[o], to[o], kind)
  {
  }

  lemma {:induction false} RunsBetween(ex: Executor, t: Table, ops: seq<Operation>, from: Table, to: Table)
    requires Exact(ex) && Between(t, from, to) && AllAim(ops, to) && PhysicalExecute(ex, t, ops).Some?
    ensures Between(PhysicalExecute(ex, t, ops).value, from, to)
  {
    if ops != [] {
      var front := ops[..|ops| - 1];
      RunsBetween(ex, t, front, from, to);
      BetweenApply(ex, PhysicalExecute(ex, t, front).value, ops[|ops| - 1], from, to);
    }
  }

  lemma PrefixRunsBetween(ex: Executor, t: Table, ops: seq<Operation>, k: nat, from: Table, to: Table)
    requires Exact(ex) && Between(t, from, to) && AllAim(ops, to) && k <= |ops|
    requires PhysicalExecute(ex, t, ops[..k]).Some?
    ensures Between(PhysicalExecute(ex, t, ops[..k]).value, from, to)
  {
    RunsBetween(ex, t, ops[..k], from, to);
  }

  /** A field that some operation sets is at its new value in the end. */
  lemma {:induction false} SetField(
    ex: Executor, t: Table, ops: seq<Operation>, to: Table, o: int, kind: AlterationKind, i: nat)
    requires Exact(ex) && AllAim(ops, to) && PhysicalExecute(ex, t, ops).Some?
    requires i < |ops| && Alters(ops[i], o, kind) && !kind.Rename?
    requires forall k | i <= k < |ops| :: Phase(ops[k]) == 3
    requires o in PhysicalExecute(ex, t, ops).value
    ensures o in to && Agrees(PhysicalExecute(ex, t, ops).value[o], to[o], kind)
  {
    var front, op := ops[..|ops| - 1], ops[|ops| - 1];
    var u := PhysicalExecute(ex, t, front).value;
    assert AimsAt(ops[i], to) && Phase(op) == 3;
    if i < |front| {
      SetField(ex, t, front, to, o, kind, i);
    }
    AgreesApply(ex, u, op, to, o, kind);
  }

  // ---------- what a plan sets ----------

  lemma {:induction false} AlterationsOf(altered: seq<ColumnMetadataChange>, mapping: ColumnNameMapping, op: Operation)
    ensures op in Alterations(altered, mapping) <==> exists m :: m in altered && op in FieldAlterations(m, mapping)
  {
    if altered != [] {
      var front, last := altered[..|altered| - 1], altered[|altered| - 1];
      assert altered == front + [last] && last in altered;
      AlterationsOf(front, mapping, op);
      if m :| m in altered && op in FieldAlterations(m, mapping) {
        assert m in front || m == last;
      }
      if m :| m in front && op in FieldAlterations(m, mapping) {
        assert m in altered;
      }
    }
  }

  lemma FieldsAim(m: ColumnMetadataChange, mapping: ColumnNameMapping, from: Table, to: Table, op: Operation)
    requires DescribesChange(m, mapping, from, to) && op in FieldAlterations(m, mapping)
    ensures AimsAt(op, to) && op.AlterColumn?
  {
  }

  /** A field that a change touches has its alteration. */
  lemma FieldCovered(
    m: ColumnMetadataChange, mapping: ColumnNameMapping, from: Table, to: Table, o: int, kind: AlterationKind)
    returns (op: Operation)
    requires DescribesChange(m, mapping, from, to) && m.before.ordinal == o && !Agrees(from[o], to[o], kind)
    ensures op in FieldAlterations(m, mapping) && Alters(op, o, kind)
  {
    var end := mapping.MapColumn(m.after);
    var named := mapping.MapColumn(m.before).(name := end.name);
    var typed := named.(typ := end.typ, modifier := end.modifier);
    var nulled := typed.(nullable := end.nullable);
    match kind
    case Type => op := AlterColumn(named, typed, Type);
    case Nullability => op := AlterColumn(typed, nulled, Nullability);
    case Default => op := AlterColumn(nulled, nulled.(defaultExpression := end.defaultExpression), Default);
  }

  lemma PhasesAim(ops: seq<Operation>, d: Diff, mapping: ColumnNameMapping, from: Table, to: Table)
    requires InPhases(ops, d, mapping) && Describes(d, mapping, from, to)
    ensures AllAim(ops, to)
  {
    var renames, alterations :| PhasedBy(ops, d, mapping, renames, alterations);
    var drops, additions := Drops(d.dropped, mapping), Additions(d.added, mapping);
    forall i | 0 <= i < |ops| ensures AimsAt(ops[i], to) {
      var first := |drops| + |renames|;
      if i < |drops| {
        assert ops[i] == drops[i];
      } else if i < first {
        assert ops[i] == renames[i - |drops|];
      } else if i < first + |additions| {
        assert ops[i] == additions[i - first] && d.added[i - first] in d.added;
      } else {
        var op := alterations[i - first - |additions|];
        assert ops[i] == op && op in alterations;
        AlterationsOf(d.altered, mapping, op);
        var m :| m in d.altered && op in FieldAlterations(m, mapping);
        FieldsAim(m, mapping, from, to, op);
      }
    }
  }

  /** A field that changes is set by an operation after which only alterations follow. */
  lemma PhasesCover(
    ops: seq<Operation>, d: Diff, mapping: ColumnNameMapping, from: Table, to: Table, o: int, kind: AlterationKind)
    returns (i: nat)
    requires InPhases(ops, d, mapping) && Describes(d, mapping, from, to)
    requires o in from && o in to && !Agrees(from[o], to[o], kind)
    ensures i < |ops| && Alters(ops[i], o, kind) && forall k | i <= k < |ops| :: Phase(ops[k]) == 3
  {
    assert o in AlteredOrdinals(d.altered);
    var m :| m in d.altered && m.before.ordinal == o;
    var op := FieldCovered(m, mapping, from, to, o, kind);
    AlterationsOf(d.altered, mapping, op);
    i := AlterationIndex(ops, d, mapping, op);
  }

  lemma AlterationIndex(ops: seq<Operation>, d: Diff, mapping: ColumnNameMapping, op: Operation) returns (i: nat)
    requires InPhases(ops, d, mapping) && op in Alterations(d.altered, mapping)
    ensures i < |ops| && ops[i] == op && forall k | i <= k < |ops| :: Phase(ops[k]) == 3
  {
    var renames, alterations :| PhasedBy(ops, d, mapping, renames, alterations);
    var j :| 0 <= j < |alterations| && alterations[j] == op;
    var first := |ops| - |alterations|;
    i := first + j;
    forall k | i <= k < |ops| ensures Phase(ops[k]) == 3 {
      assert ops[k] == alterations[k - first];
    }
  }

  /** Run to its end, a plan leaves exactly the after columns, whatever had been altered already. */
  lemma PhasesComplete(
    ex: Executor, t: Table, ops: seq<Operation>, d: Diff, mapping: ColumnNameMapping, from: Table, to: Table, t': Table)
    requires InPhases(ops, d, mapping) && Describes(d, mapping, from, to)
    requires Exact(ex) && Between(t, from, to) && PhysicalExecute(ex, t, ops) == Some(t') && SameShape(to, t')
    ensures EraseTable(t') == EraseTable(to)
  {
    PhasesAim(ops, d, mapping, from, to);
    RunsBetween(ex, t, ops, from, to);
    forall o | o in to ensures EraseColumn(t'[o]) == EraseColumn(to[o]) {
      forall kind: AlterationKind ensures Agrees(t'[o], to[o], kind) {
        FieldComplete(ex, t, ops, d, mapping, from, to, t', o, kind);
      }
      assert SameFields(t'[o], to[o]);
    }
  }

  lemma FieldComplete(
    ex: Executor, t: Table, ops: seq<Operation>, d: Diff, mapping: ColumnNameMapping, from: Table, to: Table, t': Table,
    o: int, kind: AlterationKind)
    requires InPhases(ops, d, mapping) && Describes(d, mapping, from, to) && AllAim(ops, to)
    requires Exact(ex) && PhysicalExecute(ex, t, ops) == Some(t')
    requires o in to && o in t' && ColumnBetween(t'[o], from, to, o)
    ensures Agrees(t'[o], to[o], kind)
  {
    if o in from && !Agrees(from[o], to[o], kind) {
      var i := PhasesCover(ops, d, mapping, from, to, o, kind);
      SetField(ex, t, ops, to, o, kind, i);
    } else if o in from {
      assert Agrees(t'[o], from[o], kind) || Agrees(t'[o], to[o], kind);
    }
  }

  // ---------- only the metadata of a change ----------

  /** A change once its column has the after name. */
  function Rebase(m: ColumnMetadataChange): ColumnMetadataChange {
    ColumnMetadataChange(m.before.(name := m.after.name), m.after)
  }

  /** What is left of the changes once the names are right. */
  function Rebased(altered: seq<ColumnMetadataChange>): seq<ColumnMetadataChange> {
    if altered == [] then []
    else
      var m := Rebase(altered[|altered| - 1]);
      Rebased(altered[..|altered| - 1]) + if m.before == m.after then [] else [m]
  }

  /** The alterations of what is left are those of the whole change. */
  lemma {:induction false} RebasedAlterations(altered: seq<ColumnMetadataChange>, mapping: ColumnNameMapping)
    ensures Alterations(Rebased(altered), mapping) == Alterations(altered, mapping)
  {
    if altered != [] {
      var front, last := altered[..|altered| - 1], altered[|altered| - 1];
      SplitLast(altered);
      RebasedAlterations(front, mapping);
      var m := Rebase(last);
      if m.before == m.after {
        RebasedSkips(front, last, mapping);
      } else {
        RebasedKeeps(front, last, mapping);
      }
    }
  }

  lemma SplitLast<T>(s: seq<T>)
    requires s != []
    ensures s == s[..|s| - 1] + [s[|s| - 1]] && s[|s| - 1] in s
    ensures forall x :: x in s <==> x in s[..|s| - 1] || x == s[|s| - 1]
  {
  }

  lemma RebasedSkips(front: seq<ColumnMetadataChange>, last: ColumnMetadataChange, mapping: ColumnNameMapping)
    requires Rebase(last).before == Rebase(last).after
    ensures Rebased(front + [last]) == Rebased(front)
    ensures Alterations(front + [last], mapping) == Alterations(front, mapping)
  {
    assert (front + [last])[..|front|] == front;
    RebasedFields(last, mapping);
    AlterationsAppend(front, last, mapping);
  }

  lemma RebasedKeeps(front: seq<ColumnMetadataChange>, last: ColumnMetadataChange, mapping: ColumnNameMapping)
    requires Rebase(last).before != Rebase(last).after
    requires Alterations(Rebased(front), mapping) == Alterations(front, mapping)
    ensures Alterations(Rebased(front + [last]), mapping) == Alterations(front + [last], mapping)
  {
    assert (front + [last])[..|front|] == front;
    assert Rebased(front + [last]) == Rebased(front) + [Rebase(last)];
    RebasedFields(last, mapping);
    AlterationsAppend(front, last, mapping);
    AlterationsAppend(Rebased(front), Rebase(last), mapping);
  }

  lemma RebasedFields(m: ColumnMetadataChange, mapping: ColumnNameMapping)
    ensures FieldAlterations(Rebase(m), mapping) == FieldAlterations(m, mapping)
    ensures Rebase(m).before == Rebase(m).after ==> FieldAlterations(m, mapping) == []
  {
  }

  lemma AlterationsAppend(altered: seq<ColumnMetadataChange>, m: ColumnMetadataChange, mapping: ColumnNameMapping)
    ensures Alterations(altered + [m], mapping) == Alterations(altered, mapping) + FieldAlterations(m, mapping)
  {
    assert (altered + [m])[..|altered|] == altered;
  }

  lemma {:induction false} RebasedOf(altered: seq<ColumnMetadataChange>, x: ColumnMetadataChange)
    ensures x in Rebased(altered) <==> exists m :: m in altered && x == Rebase(m) && x.before != x.after
  {
    if altered != [] {
      var front, last := altered[..|altered| - 1], altered[|altered| - 1];
      assert altered == front + [last] && last in altered;
      RebasedOf(front, x);
      if m :| m in altered && x == Rebase(m) && x.before != x.after {
        assert m in front || m == last;
      }
      if m :| m in front && x == Rebase(m) && x.before != x.after {
        assert m in altered;
      }
    }
  }

  lemma {:induction false} RebasedAscending(altered: seq<ColumnMetadataChange>)
    requires AscendingChanges(altered)
    ensures AscendingChanges(Rebased(altered))
    ensures forall x | x in Rebased(altered) :: exists m :: m in altered && m.before.ordinal == x.before.ordinal
  {
    if altered != [] {
      var front, last := altered[..|altered| - 1], altered[|altered| - 1];
      SplitLast(altered);
      RebasedAscending(front);
      forall x | x in Rebased(front) ensures x.before.ordinal < last.before.ordinal {
        var m :| m in front && m.before.ordinal == x.before.ordinal;
      }
      forall x | x in Rebased(altered) ensures exists m :: m in altered && m.before.ordinal == x.before.ordinal {
        if x in Rebased(front) {
          var m :| m in front && m.before.ordinal == x.before.ordinal;
          assert m in altered;
        }
      }
    }
  }
}
