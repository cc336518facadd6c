/**
 The schema operation planner: drops, renames, additions and metadata
 alterations, in an order that is safe in the destination namespace.
 */
module Planner {
  import opened Finite
  import opened Text
  import opened Columns
  import opened SchemaDiff
  import opened Execution
  import opened RenameGraph
  import opened RenamePhase

  datatype SchemaEndpoint = Before | After

  datatype SchemaPlanError =
    | DestinationColumnNameCollision(endpoint: SchemaEndpoint, first: string, second: string)
    | BlockedRenameAfterName(before: string, after: string)
    | ReadyRenameNotPending(ordinal: int)

  // ---------- temporary names ----------

  const DDL_TEMPORARY_COLUMN_PREFIX := "supabase_etl_ddl_tmp_column_"

  function TemporaryName(ordinal: int, sequence: nat): string {
    DDL_TEMPORARY_COLUMN_PREFIX + SignedDecimal(ordinal) + "_" + Decimal(sequence)
  }

  lemma TemporaryNameForm()
    ensures TemporaryName(3, 0) == "supabase_etl_ddl_tmp_column_3_0"
    ensures TemporaryName(-12, 7) == "supabase_etl_ddl_tmp_column_-12_7"
  {
    assert Decimal(12) == Decimal(1) + "2" == "12";
  }

  lemma TemporaryNameInjective(ordinal: int, m: nat, n: nat)
    requires TemporaryName(ordinal, m) == TemporaryName(ordinal, n)
    ensures m == n
  {
    var start := |DDL_TEMPORARY_COLUMN_PREFIX + SignedDecimal(ordinal) + "_"|;
    assert TemporaryName(ordinal, m)[start..] == Decimal(m);
    assert TemporaryName(ordinal, n)[start..] == Decimal(n);
    DecimalInjective(m, n);
  }

  /** The reserved names a search that starts at `sequence` can still run into. */
  ghost function TakenFrom(reserved: set<string>, ordinal: int, sequence: nat): set<string> {
    set name | name in reserved && exists m: nat :: m >= sequence && name == TemporaryName(ordinal, m)
  }

  /** The search for an unreserved name ends, at the first free sequence number. */
  method FreshTemporaryName(reserved: set<string>, ordinal: int, sequence: nat)
    returns (name: string, next: nat)
    ensures name !in reserved
    ensures sequence < next && name == TemporaryName(ordinal, next - 1)
    ensures forall m: nat | sequence <= m < next - 1 :: TemporaryName(ordinal, m) in reserved
  {
    next := sequence;
    name := TemporaryName(ordinal, next);
    next := next + 1;
    while name in reserved
      invariant sequence < next && name == TemporaryName(ordinal, next - 1)
      invariant forall m: nat | sequence <= m < next - 1 :: TemporaryName(ordinal, m) in reserved
      decreases |TakenFrom(reserved, ordinal, next - 1)|
    {
      ghost var taken, rest := TakenFrom(reserved, ordinal, next - 1), TakenFrom(reserved, ordinal, next);
      assert name in taken;
      assert name !in rest by {
        forall m: nat | m >= next ensures name != TemporaryName(ordinal, m) {
          if name == TemporaryName(ordinal, m) {
            TemporaryNameInjective(ordinal, m, next - 1);
            assert false;
          }
        }
      }
      assert rest <= taken;
      SubsetSize(rest, taken);
      name := TemporaryName(ordinal, next);
      next := next + 1;
    }
  }

  // ---------- endpoint namespaces ----------

  ghost predicate Collides(names: seq<string>, mapping: ColumnNameMapping, i: int, j: int) {
    0 <= i < j < |names| && mapping.Equivalent(names[i], names[j])
  }

  /** The first `n` names stay apart in the destination. */
  ghost predicate UniqueUpTo(names: seq<string>, mapping: ColumnNameMapping, n: nat) {
    forall i, j :: Collides(names, mapping, i, j) ==> j >= n
  }

  /** The error of an endpoint names the first two of its columns that share a destination name. */
  ghost predicate BlamesFirst(
    error: SchemaPlanError, names: seq<string>, mapping: ColumnNameMapping, endpoint: SchemaEndpoint)
  {
    exists i, j :: && Collides(names, mapping, i, j)
                   && UniqueUpTo(names, mapping, j)
                   && error == DestinationColumnNameCollision(endpoint, names[i], names[j])
  }

  /** Rejects an endpoint at its first collision, naming both columns. */
  method CollectUniqueColumnNames(names: seq<string>, mapping: ColumnNameMapping, endpoint: SchemaEndpoint)
    returns (r: Result<map<string, string>, SchemaPlanError>)
    ensures r.Success? <==> UniqueUpTo(names, mapping, |names|)
    ensures r.Success? ==> forall n :: n in r.value <==> exists i :: 0 <= i < |names| && n == mapping.MapName(names[i])
    ensures r.Failure? ==> BlamesFirst(r.error, names, mapping, endpoint)
  {
    var sources: map<string, string> := map[];
    ghost var index: map<string, int> := map[];
    for j := 0 to |names|
      invariant UniqueUpTo(names, mapping, j)
      invariant index.Keys == sources.Keys
      invariant forall i | 0 <= i < j :: mapping.MapName(names[i]) in sources
      invariant forall n | n in sources ::
                  0 <= index[n] < j && n == mapping.MapName(names[index[n]]) && sources[n] == names[index[n]]
    {
      var name := mapping.MapName(names[j]);
      if name in sources {
        assert Collides(names, mapping, index[name], j);
        return Failure(DestinationColumnNameCollision(endpoint, sources[name], names[j]));
      }
      sources, index := sources[name := names[j]], index[name := j];
    }
    return Success(sources);
  }

  // ---------- what the phases see of the diff ----------

  /** The diff, seen from the mapped endpoint tables. */
  ghost predicate Describes(d: Diff, mapping: ColumnNameMapping, from: Table, to: Table) {
    && (forall r | r in d.dropped :: r.column.ordinal in from && from[r.column.ordinal] == mapping.MapColumn(r.column))
    && (forall a | a in d.added :: a.column.ordinal in to && to[a.column.ordinal] == mapping.MapColumn(a.column))
    && (forall m | m in d.altered :: DescribesChange(m, mapping, from, to))
    && DroppedOrdinals(d.dropped) == from.Keys - to.Keys
    && AddedOrdinals(d.added) == to.Keys - from.Keys
    && (forall o | o in from && o in to && o !in AlteredOrdinals(d.altered) :: from[o] == to[o])
    && AscendingAdditions(d.added) && AscendingRemovals(d.dropped) && AscendingChanges(d.altered)
  }

  ghost predicate DescribesChange(m: ColumnMetadataChange, mapping: ColumnNameMapping, from: Table, to: Table) {
    && m.before.ordinal == m.after.ordinal
    && m.before.ordinal in from && from[m.before.ordinal] == mapping.MapColumn(m.before)
    && m.before.ordinal in to && to[m.before.ordinal] == mapping.MapColumn(m.after)
  }

  ghost function DroppedOrdinals(dropped: seq<ColumnRemoval>): set<int> {
    set r | r in dropped :: r.column.ordinal
  }

  ghost function AddedOrdinals(added: seq<ColumnAddition>): set<int> {
    set a | a in added :: a.column.ordinal
  }

  ghost function AlteredOrdinals(altered: seq<ColumnMetadataChange>): set<int> {
    set m | m in altered :: m.before.ordinal
  }

  predicate Renamed(m: ColumnMetadataChange, mapping: ColumnNameMapping) {
    m.NameChanged() && !mapping.Equivalent(m.before.name, m.after.name)
  }

  function CountRenamed(altered: seq<ColumnMetadataChange>, mapping: ColumnNameMapping): nat {
    if altered == [] then 0
    else
      CountRenamed(altered[..|altered| - 1], mapping) +
      if Renamed(altered[|altered| - 1], mapping) then 1 else 0
  }

  /** Names that renames introduce and neither endpoint uses. */
  ghost function TemporaryNames(ops: seq<Operation>, endpoint: set<string>): set<string> {
    set op | op in ops && IsRename(op) && op.after.name !in endpoint :: op.after.name
  }

  lemma TemporaryNamesAppend(ops: seq<Operation>, op: Operation, endpoint: set<string>)
    ensures TemporaryNames(ops + [op], endpoint) ==
            TemporaryNames(ops, endpoint) + if IsRename(op) && op.after.name !in endpoint then {op.after.name} else {}
  {
    var more := ops + [op];
    assert op in more && forall x :: x in more <==> x in ops || x == op;
    forall n | n in TemporaryNames(more, endpoint)
      ensures n in TemporaryNames(ops, endpoint) || (IsRename(op) && op.after.name == n)
    {
      var x :| x in more && IsRename(x) && x.after.name == n;
    }
  }

  lemma Extend<T>(s: seq<T>, i: nat)
    requires i < |s|
    ensures s[..i + 1] == s[..i] + [s[i]]
    ensures s[i] in s
  {
  }

  datatype Outcome = Pass | Fail(error: SchemaPlanError)

  function Phase(op: Operation): nat {
    match op
    case DropColumn(_, _) => 0
    case AlterColumn(_, _, Rename) => 1
    case AddColumn(_, _) => 2
    case AlterColumn(_, _, _) => 3
  }

  /** `more` continues `ops` with operations of one phase. */
  ghost predicate Continues(ops: seq<Operation>, more: seq<Operation>, phase: nat) {
    && ops <= more
    && forall k | |ops| <= k < |more| :: Phase(more[k]) == phase
  }

  function Drops(dropped: seq<ColumnRemoval>, mapping: ColumnNameMapping): seq<Operation> {
    seq(|dropped|, i requires 0 <= i < |dropped| => DropColumn(mapping.MapColumn(dropped[i].column), dropped[i].reason))
  }

  function Additions(added: seq<ColumnAddition>, mapping: ColumnNameMapping): seq<Operation> {
    seq(|added|, i requires 0 <= i < |added| => AddColumn(mapping.MapColumn(added[i].column), added[i].reason))
  }

  /** One alteration for each changed field of a column that already has its after name. */
  function FieldAlterations(change: ColumnMetadataChange, mapping: ColumnNameMapping): seq<Operation> {
    var end := mapping.MapColumn(change.after);
    var named := mapping.MapColumn(change.before).(name := end.name);
    var typed := named.(typ := end.typ, modifier := end.modifier);
    var nulled := typed.(nullable := end.nullable);
    FieldChange(named, typed, Type) +
    FieldChange(typed, nulled, Nullability) +
    FieldChange(nulled, nulled.(defaultExpression := end.defaultExpression), Default)
  }

  /** The alteration of one field, if it makes a difference. */
  function FieldChange(before: ColumnSchema, after: ColumnSchema, kind: AlterationKind): seq<Operation> {
    if before == after then [] else [AlterColumn(before, after, kind)]
  }

  function Alterations(altered: seq<ColumnMetadataChange>, mapping: ColumnNameMapping): seq<Operation> {
    if altered == [] then []
    else Alterations(altered[..|altered| - 1], mapping) + FieldAlterations(altered[|altered| - 1], mapping)
  }

  lemma AlterationsExtend(ops: seq<Operation>, altered: seq<ColumnMetadataChange>, i: nat, mapping: ColumnNameMapping)
    requires i < |altered|
    ensures ops + Alterations(altered[..i + 1], mapping) ==
            ops + Alterations(altered[..i], mapping) + FieldAlterations(altered[i], mapping)
  {
    assert altered[..i + 1][..i] == altered[..i];
    Append(ops, Alterations(altered[..i], mapping), FieldAlterations(altered[i], mapping));
  }

  lemma AppendFields(
    ops: seq<Operation>, change: ColumnMetadataChange, mapping: ColumnNameMapping,
    named: ColumnSchema, typed: ColumnSchema, nulled: ColumnSchema, defaulted: ColumnSchema)
    requires var end := mapping.MapColumn(change.after);
             && named == mapping.MapColumn(change.before).(name := end.name)
             && typed == named.(typ := end.typ, modifier := end.modifier)
             && nulled == typed.(nullable := end.nullable)
             && defaulted == nulled.(defaultExpression := end.defaultExpression)
    ensures ops + FieldChange(named, typed, Type) + FieldChange(typed, nulled, Nullability) +
            FieldChange(nulled, defaulted, Default) ==
            ops + FieldAlterations(change, mapping)
  {
    var a, b := FieldChange(named, typed, Type), FieldChange(typed, nulled, Nullability);
    Append(ops, a, b);
    Append(ops, a + b, FieldChange(nulled, defaulted, Default));
  }

  lemma Overwrite(t: Table, o: int, c: ColumnSchema, d: ColumnSchema)
    ensures t[o := c][o := d] == t[o := d]
  {
  }

  lemma Append<T>(a: seq<T>, b: seq<T>, c: seq<T>)
    ensures a + (b + c) == a + b + c
  {
  }

  lemma {:induction false} AlterationsPhase(altered: seq<ColumnMetadataChange>, mapping: ColumnNameMapping)
    ensures forall op | op in Alterations(altered, mapping) :: Phase(op) == 3
  {
    if altered != [] {
      AlterationsPhase(altered[..|altered| - 1], mapping);
    }
  }

  lemma {:induction false} CountUnchanged(ops: seq<Operation>, more: seq<Operation>)
    requires forall op | op in more :: !IsRename(op)
    ensures CountRenames(ops + more) == CountRenames(ops)
  {
    if more == [] {
      assert ops + more == ops;
    } else {
      var front, last := more[..|more| - 1], more[|more| - 1];
      assert last in more && forall op | op in front :: op in more;
      CountUnchanged(ops, front);
      CountRenamesAppend(ops + front, last);
      assert ops + more == ops + front + [last];
    }
  }

  /** Alterations are of the last phase and rename nothing. */
  lemma AlterationsContinue(ops: seq<Operation>, altered: seq<ColumnMetadataChange>, mapping: ColumnNameMapping)
    ensures Continues(ops, ops + Alterations(altered, mapping), 3)
    ensures CountRenames(ops + Alterations(altered, mapping)) == CountRenames(ops)
  {
    var more := Alterations(altered, mapping);
    AlterationsPhase(altered, mapping);
    forall k | |ops| <= k < |ops + more| ensures Phase((ops + more)[k]) == 3 {
      assert more[k - |ops|] in more;
    }
    CountUnchanged(ops, more);
  }

  /** The column a plan reaches: the after endpoint, with the primary key it had before. */
  function Reached(from: Table, to: Table, o: int): ColumnSchema
    requires o in to
  {
    if o in from then to[o].(primaryKeyOrdinal := from[o].primaryKeyOrdinal) else to[o]
  }

  ghost predicate AtItsFinalName(m: ColumnMetadataChange, from: Table, to: Table, t: Table) {
    var o := m.before.ordinal;
    o in from && o in to && o in t && t[o] == from[o].(name := to[o].name)
  }

  ghost predicate AtItsEnd(m: ColumnMetadataChange, from: Table, to: Table, t: Table) {
    var o := m.before.ordinal;
    o in to && o in t && t[o] == Reached(from, to, o)
  }

  lemma AdditionsExtend(ops: seq<Operation>, added: seq<ColumnAddition>, i: nat, mapping: ColumnNameMapping)
    requires i < |added|
    ensures ops + Additions(added[..i + 1], mapping) ==
            ops + Additions(added[..i], mapping) + [AddColumn(mapping.MapColumn(added[i].column), added[i].reason)]
  {
  }

  lemma AddApplies(t: Table, c: ColumnSchema, reason: PresenceReason)
    requires c.ordinal !in t && forall o | o in t :: t[o].name != c.name
    ensures Apply(t, AddColumn(c, reason)) == Some(t[c.ordinal := c])
  {
  }

  lemma DroppedExtend(dropped: seq<ColumnRemoval>, i: nat)
    requires AscendingRemovals(dropped) && i < |dropped|
    ensures DroppedOrdinals(dropped[..i + 1]) == DroppedOrdinals(dropped[..i]) + {dropped[i].column.ordinal}
    ensures dropped[i].column.ordinal !in DroppedOrdinals(dropped[..i])
  {
    Extend(dropped, i);
    assert forall r :: r in dropped[..i + 1] <==> r in dropped[..i] || r == dropped[i];
  }

  lemma AddedExtend(added: seq<ColumnAddition>, i: nat)
    requires AscendingAdditions(added) && i < |added|
    ensures AddedOrdinals(added[..i + 1]) == AddedOrdinals(added[..i]) + {added[i].column.ordinal}
    ensures added[i].column.ordinal !in AddedOrdinals(added[..i])
  {
    Extend(added, i);
    assert forall a :: a in added[..i + 1] <==> a in added[..i] || a == added[i];
  }

  lemma AlteredExtend(altered: seq<ColumnMetadataChange>, i: nat)
    requires AscendingChanges(altered) && i < |altered|
    ensures AlteredOrdinals(altered[..i + 1]) == AlteredOrdinals(altered[..i]) + {altered[i].before.ordinal}
    ensures altered[i].before.ordinal !in AlteredOrdinals(altered[..i])
  {
    Extend(altered, i);
    assert forall m :: m in altered[..i + 1] <==> m in altered[..i] || m == altered[i];
  }

  /** The columns of the first changes are at their end, and the others have not changed. */
  ghost predicate AlteredSoFar(start: Table, now: Table, some: seq<ColumnMetadataChange>, from: Table, to: Table) {
    && now.Keys == start.Keys
    && (forall o | o in now && o !in AlteredOrdinals(some) :: now[o] == start[o])
    && forall m | m in some :: AtItsEnd(m, from, to, now)
  }

  lemma AlterNext(
    start: Table, now: Table, altered: seq<ColumnMetadataChange>, i: nat, mapping: ColumnNameMapping,
    from: Table, to: Table)
    requires i < |altered| && AscendingChanges(altered) && AlteredSoFar(start, now, altered[..i], from, to)
    requires forall m | m in altered ::
               DescribesChange(m, mapping, from, to) && AtItsFinalName(m, from, to, start)
    ensures DescribesChange(altered[i], mapping, from, to) && AtItsFinalName(altered[i], from, to, now)
    ensures var o := altered[i].before.ordinal;
            AlteredSoFar(start, now[o := Reached(from, to, o)], altered[..i + 1], from, to)
  {
    Extend(altered, i);
    AlteredExtend(altered, i);
    var o := altered[i].before.ordinal;
    forall m | m in altered[..i] ensures m.before.ordinal != o {
      assert m.before.ordinal in AlteredOrdinals(altered[..i]);
    }
  }

  lemma NamesRemove(t: Table, o: int)
    requires DistinctNames(t) && o in t
    ensures Names(t - {o}) == Names(t) - {t[o].name}
  {
    forall n | n in Names(t) - {t[o].name} ensures n in Names(t - {o}) {
      var p := OwnerOf(t, n);
      assert (t - {o})[p].name == n;
    }
    forall n | n in Names(t - {o}) ensures n in Names(t) - {t[o].name} {
      var p := OwnerOf(t - {o}, n);
      assert t[p].name == n;
    }
  }

  /** The next column to drop is still there, and dropping it leaves what the longer prefix leaves. */
  lemma DropStep(start: Table, dropped: seq<ColumnRemoval>, i: nat, mapping: ColumnNameMapping, t: Table)
    requires i < |dropped| && AscendingRemovals(dropped) && DistinctNames(t)
    requires forall r | r in dropped ::
               r.column.ordinal in start && start[r.column.ordinal] == mapping.MapColumn(r.column)
    requires t == start - DroppedOrdinals(dropped[..i])
    ensures var column := mapping.MapColumn(dropped[i].column);
            && column.ordinal in t && t[column.ordinal] == column
            && t - {column.ordinal} == start - DroppedOrdinals(dropped[..i + 1])
            && Names(t - {column.ordinal}) == Names(t) - {column.name}
    ensures Drops(dropped[..i + 1], mapping) ==
            Drops(dropped[..i], mapping) + [DropColumn(mapping.MapColumn(dropped[i].column), dropped[i].reason)]
  {
    Extend(dropped, i);
    DroppedExtend(dropped, i);
    NamesRemove(t, dropped[i].column.ordinal);
  }

  // ---------- rename requests ----------

  ghost predicate AsksFor(m: ColumnMetadataChange, mapping: ColumnNameMapping, t: Table, want: map<int, string>) {
    var o := m.before.ordinal;
    && o in t && t[o] == mapping.MapColumn(m.before)
    && o in want && want[o] == mapping.MapName(m.after.name)
  }

  /** The altered columns ask for exactly the wanted names that differ from the present ones. */
  ghost predicate AskFor(
    altered: seq<ColumnMetadataChange>, mapping: ColumnNameMapping, t: Table, want: map<int, string>)
  {
    && Wanted(t, want)
    && AscendingChanges(altered)
    && (forall m | m in altered :: AsksFor(m, mapping, t, want))
    && (forall o | o in t && t[o].name != want[o] :: o in AlteredOrdinals(altered))
  }

  /** The reverse lookup from a wanted name to the rename that waits for it. */
  ghost predicate Waiting(waiting: map<string, int>, want: map<int, string>, keys: set<int>) {
    && keys <= want.Keys
    && (forall o | o in keys :: want[o] in waiting && waiting[want[o]] == o)
    && (forall n | n in waiting :: waiting[n] in keys && want[waiting[n]] == n)
  }

  /** The requests of the first changes have been collected. */
  ghost predicate Collected(
    some: seq<ColumnMetadataChange>, mapping: ColumnNameMapping, t: Table, want: map<int, string>,
    pending: map<int, PendingRename>, waiting: map<string, int>)
    requires t.Keys == want.Keys
  {
    && (forall o :: o in pending <==> o in AlteredOrdinals(some) && o in t && t[o].name != want[o])
    && (forall o | o in pending :: pending[o] == PendingRename(t[o], want[o]))
    && Waiting(waiting, want, pending.Keys)
    && |pending| == CountRenamed(some, mapping)
  }

  lemma CollectStep(
    some: seq<ColumnMetadataChange>, change: ColumnMetadataChange, mapping: ColumnNameMapping,
    t: Table, want: map<int, string>, pending: map<int, PendingRename>, waiting: map<string, int>)
    requires Wanted(t, want) && AsksFor(change, mapping, t, want)
    requires Collected(some, mapping, t, want, pending, waiting)
    requires change.before.ordinal !in AlteredOrdinals(some)
    requires AlteredOrdinals(some + [change]) == AlteredOrdinals(some) + {change.before.ordinal}
    ensures !Renamed(change, mapping) ==> Collected(some + [change], mapping, t, want, pending, waiting)
    ensures Renamed(change, mapping) ==>
              var o, afterName := change.before.ordinal, mapping.MapName(change.after.name);
              Collected(some + [change], mapping, t, want,
                        pending[o := PendingRename(mapping.MapColumn(change.before), afterName)],
                        waiting[afterName := o])
  {
    assert (some + [change])[..|some|] == some;
  }

  method CollectPending(
    altered: seq<ColumnMetadataChange>, mapping: ColumnNameMapping, ghost t: Table, ghost want: map<int, string>)
    returns (pending: map<int, PendingRename>, waiting: map<string, int>)
    requires AskFor(altered, mapping, t, want)
    ensures pending.Keys == Requests(t, want).source.Keys
    ensures forall o | o in pending :: pending[o] == PendingRename(t[o], want[o])
    ensures Waiting(waiting, want, pending.Keys)
    ensures |pending| == CountRenamed(altered, mapping)
  {
    pending, waiting := map[], map[];
    for i := 0 to |altered|
      invariant Collected(altered[..i], mapping, t, want, pending, waiting)
    {
      var change := altered[i];
      Extend(altered, i);
      AlteredExtend(altered, i);
      CollectStep(altered[..i], change, mapping, t, want, pending, waiting);
      if Renamed(change, mapping) {
        var ordinal, afterName := change.before.ordinal, mapping.MapName(change.after.name);
        waiting := waiting[afterName := ordinal];
        pending := pending[ordinal := PendingRename(mapping.MapColumn(change.before), afterName)];
      }
    }
    assert altered[..|altered|] == altered;
    RequestedOrdinals(altered, mapping, t, want, pending.Keys);
  }

  lemma RequestedOrdinals(
    altered: seq<ColumnMetadataChange>, mapping: ColumnNameMapping, t: Table, want: map<int, string>, keys: set<int>)
    requires AskFor(altered, mapping, t, want)
    requires forall o :: o in keys <==> o in AlteredOrdinals(altered) && o in t && t[o].name != want[o]
    ensures keys == Requests(t, want).source.Keys
  {
    forall o ensures o in keys <==> o in Requests(t, want).source {}
  }

  ghost predicate IsTemporaryName(name: string) {
    exists ordinal: int, sequence: nat :: name == TemporaryName(ordinal, sequence)
  }

  /** One rename for each request and one more, to a name of its own, for each cycle. */
  ghost predicate RenameCounts(ops: seq<Operation>, endpoint: set<string>, t: Table, want: map<int, string>)
    requires t.Keys == want.Keys
  {
    var graph := Requests(t, want);
    && Valid(graph)
    && CountRenames(ops) == |graph.source| + |Cycles(graph)|
    && |TemporaryNames(ops, endpoint)| == |Cycles(graph)|
    && forall n | n in TemporaryNames(ops, endpoint) :: IsTemporaryName(n)
  }

  /** The renames so far: one for each request done and one for each cycle broken. */
  ghost predicate Tally(ops: seq<Operation>, s: RenameState) {
    && CountRenames(ops) + |s.pending| == |s.graph.source| + |s.broken|
    && TemporaryNames(ops, s.endpoint) == s.temporary
    && forall n | n in s.temporary :: IsTemporaryName(n)
  }

  lemma TallyReady(ops: seq<Operation>, s: RenameState, o: int)
    requires Tally(ops, s) && Tracked(s) && o in s.pending
    ensures Tally(ops + [Move(s.table[o], s.want[o])], AfterReady(s, o))
  {
    CountRenamesAppend(ops, Move(s.table[o], s.want[o]));
    TemporaryNamesAppend(ops, Move(s.table[o], s.want[o]), s.endpoint);
  }

  lemma TallyBreak(ops: seq<Operation>, s: RenameState, o: int, name: string, cycle: set<int>)
    requires Tally(ops, s) && Tracked(s) && o in s.pending && cycle !in s.broken
    requires name !in s.endpoint && IsTemporaryName(name)
    ensures Tally(ops + [Move(s.table[o], name)], AfterBreak(s, o, name, cycle))
  {
    AddedSize(s.broken, cycle);
    CountRenamesAppend(ops, Move(s.table[o], name));
    TemporaryNamesAppend(ops, Move(s.table[o], name), s.endpoint);
  }

  /** The ready set once `name` is released. */
  ghost function Wake(ready: set<int>, waiting: map<string, int>, keys: set<int>, name: string): set<int> {
    if name in waiting && waiting[name] in keys then ready + {waiting[name]} else ready
  }

  /** Releasing `name` wakes the request that the reverse lookup finds, if it is still in `keys`. */
  lemma WokenBy(
    ready: set<int>, waiting: map<string, int>, want: map<int, string>, all: set<int>, keys: set<int>, name: string)
    requires Waiting(waiting, want, all) && keys <= all && InjectiveOn(want, want.Keys)
    ensures ready + (set p | p in keys && want[p] == name) == Wake(ready, waiting, keys, name)
  {
    forall p | p in keys && want[p] == name ensures name in waiting && waiting[name] == p {
      assert p in all;
    }
  }

  /** With nothing ready, the name a pending rename wants belongs to another pending rename. */
  lemma StuckBlocker(s: RenameState, o: int) returns (q: int)
    requires Inv(s) && s.ready == {} && o in s.pending
    ensures q in s.pending && s.pending[q].before.name == s.pending[o].afterName
  {
    q := BlockedBy(s, o);
  }

  /** What the collections of the rename loop stand for. */
  ghost predicate InLoop(
    s: RenameState, table: Table, pending: map<int, PendingRename>, ready: set<int>,
    occupied: set<string>, reserved: set<string>, waiting: map<string, int>, ops: seq<Operation>)
  {
    && Inv(s) && s.table == table && s.pending == pending && s.ready == ready
    && occupied == Names(table) && reserved == s.endpoint + s.temporary
    && Waiting(waiting, s.want, s.graph.source.Keys)
    && Tally(ops, s)
  }

  /** Running a ready rename and waking the rename that waits for the name it leaves. */
  lemma LoopReady(
    s: RenameState, table: Table, pending: map<int, PendingRename>, ready: set<int>,
    occupied: set<string>, reserved: set<string>, waiting: map<string, int>, ops: seq<Operation>, o: int)
    returns (s': RenameState)
    requires InLoop(s, table, pending, ready, occupied, reserved, waiting, ops) && o in ready
    ensures s'.first == s.first && s'.want == s.want && s'.endpoint == s.endpoint
    ensures o in pending && Apply(table, Move(pending[o].before, pending[o].afterName)) == Some(s'.table)
    ensures var rename, rest := pending[o], pending - {o};
            && |rest| < |pending|
            && InLoop(s', s'.table, rest,
                      Wake(ready - {o}, waiting, rest.Keys, rename.before.name),
                      occupied - {rename.before.name} + {rename.afterName}, reserved, waiting,
                      ops + [Move(rename.before, rename.afterName)])
  {
    ReadyStep(s, o);
    TallyReady(ops, s, o);
    WokenBy(ready - {o}, waiting, s.want, s.graph.source.Keys, (pending - {o}).Keys, pending[o].before.name);
    s' := AfterReady(s, o);
  }

  lemma BreakReadies(s: RenameState, waiting: map<string, int>, o: int, name: string, cycle: set<int>)
    requires Tracked(s) && Waiting(waiting, s.want, s.graph.source.Keys) && o in s.pending
    requires AfterBreak(s, o, name, cycle).ready != {}
    ensures s.table[o].name in waiting
    ensures AfterBreak(s, o, name, cycle).ready == {waiting[s.table[o].name]}
  {
    WokenBy({}, waiting, s.want, s.graph.source.Keys, s.pending.Keys, s.table[o].name);
  }

  /** Breaking a cycle with a fresh name, which readies another rename. */
  lemma LoopBreak(
    s: RenameState, table: Table, pending: map<int, PendingRename>,
    occupied: set<string>, reserved: set<string>, waiting: map<string, int>, ops: seq<Operation>, o: int, name: string)
    returns (s': RenameState)
    requires InLoop(s, table, pending, {}, occupied, reserved, waiting, ops) && o in pending
    requires name !in reserved && IsTemporaryName(name)
    ensures s'.first == s.first && s'.want == s.want && s'.endpoint == s.endpoint
    ensures Apply(table, Move(pending[o].before, name)) == Some(s'.table)
    ensures var rename := pending[o];
            && rename.before.name in waiting
            && InLoop(s', s'.table, pending[o := PendingRename(rename.before.(name := name), rename.afterName)],
                      {waiting[rename.before.name]},
                      occupied - {rename.before.name} + {name}, reserved + {name}, waiting,
                      ops + [Move(rename.before, name)])
  {
    var cycle := BreakStep(s, o, name);
    TallyBreak(ops, s, o, name, cycle);
    BreakReadies(s, waiting, o, name, cycle);
    UnionAssociative(s.endpoint, s.temporary, {name});
    s' := AfterBreak(s, o, name, cycle);
  }

  lemma NothingReady(s: RenameState)
    requires Inv(s) && s.pending == map[]
    ensures s.ready == {}
  {
    forall o ensures o !in s.ready {}
  }

  lemma LoopFinished(
    s: RenameState, table: Table, occupied: set<string>, reserved: set<string>,
    waiting: map<string, int>, ops: seq<Operation>)
    requires InLoop(s, table, map[], {}, occupied, reserved, waiting, ops)
    ensures table == map o | o in s.first :: s.first[o].(name := s.want[o])
    ensures s.first.Keys == s.want.Keys && RenameCounts(ops, s.endpoint, s.first, s.want)
  {
    Finished(s);
  }

  // ---------- the columns both endpoints share ----------

  ghost function Common(from: Table, to: Table): Table {
    from - (from.Keys - to.Keys)
  }

  ghost function WantedNames(from: Table, to: Table): map<int, string> {
    map o | o in from && o in to :: to[o].name
  }

  /** The renames that take the shared columns to their after names. */
  ghost function RenameRequests(from: Table, to: Table): Renames {
    Requests(Common(from, to), WantedNames(from, to))
  }

  ghost function ReachedTable(from: Table, to: Table): Table {
    map o | o in to :: Reached(from, to, o)
  }

  ghost predicate PhasedBy(
    ops: seq<Operation>, d: Diff, mapping: ColumnNameMapping, renames: seq<Operation>, alterations: seq<Operation>)
  {
    && ops == Drops(d.dropped, mapping) + renames + Additions(d.added, mapping) + alterations
    && (forall k | 0 <= k < |renames| :: Phase(renames[k]) == 1)
    && (forall k | 0 <= k < |alterations| :: Phase(alterations[k]) == 3)
    && alterations == Alterations(d.altered, mapping)
  }

  /** Drops, then renames, then additions, then other alterations. */
  ghost predicate InPhases(ops: seq<Operation>, d: Diff, mapping: ColumnNameMapping) {
    exists renames: seq<Operation>, alterations: seq<Operation> :: PhasedBy(ops, d, mapping, renames, alterations)
  }

  // ---------- between the phases ----------

  ghost predicate Endpoints(from: Table, to: Table) {
    && KeyedByOrdinal(from) && DistinctNames(from)
    && KeyedByOrdinal(to) && DistinctNames(to)
  }

  lemma PhasesCompose(
    drops: seq<Operation>, renamed: seq<Operation>, ops: seq<Operation>, d: Diff, mapping: ColumnNameMapping)
    requires drops == Drops(d.dropped, mapping)
    requires Continues(drops, renamed, 1)
    requires Continues(renamed + Additions(d.added, mapping), ops, 3)
    requires ops == renamed + Additions(d.added, mapping) + Alterations(d.altered, mapping)
    ensures InPhases(ops, d, mapping)
  {
    var added := renamed + Additions(d.added, mapping);
    var renames, alterations := renamed[|drops|..], Alterations(d.altered, mapping);
    assert renamed == drops + renames;
    assert forall k | 0 <= k < |alterations| :: alterations[k] == ops[|added| + k];
    assert ops == added + alterations;
    assert PhasedBy(ops, d, mapping, renames, alterations);
  }

  /** Additions and metadata alterations introduce no temporary name. */
  lemma LaterPhasesKeepNames(
    renamed: seq<Operation>, ops: seq<Operation>, d: Diff, mapping: ColumnNameMapping, endpoint: set<string>)
    requires Continues(renamed + Additions(d.added, mapping), ops, 3)
    ensures TemporaryNames(ops, endpoint) == TemporaryNames(renamed, endpoint)
  {
    var added := renamed + Additions(d.added, mapping);
    assert renamed <= ops;
    forall k | |renamed| <= k < |ops| ensures !IsRename(ops[k]) {
      if k < |added| {
        assert ops[k] == added[k];
      }
    }
    NoTemporaryNames(renamed, ops, endpoint);
  }

  lemma AddedReach(d: Diff, mapping: ColumnNameMapping, from: Table, to: Table, added: Table)
    requires Endpoints(from, to) && Describes(d, mapping, from, to)
    requires added.Keys == AfterRenames(from, to).Keys + AddedOrdinals(d.added)
    requires forall o | o in added ::
               o in to && added[o] == if o in AfterRenames(from, to) then AfterRenames(from, to)[o] else to[o]
    ensures added.Keys == to.Keys
    ensures forall m | m in d.altered :: DescribesChange(m, mapping, from, to) && AtItsFinalName(m, from, to, added)
  {
    forall o ensures o in added <==> o in to {}
    forall m | m in d.altered ensures AtItsFinalName(m, from, to, added) {
      assert DescribesChange(m, mapping, from, to);
      assert m.before.ordinal in AfterRenames(from, to);
    }
  }

  /** After the drops, the altered columns ask for the names of the after endpoint. */
  lemma AskForAfterNames(d: Diff, mapping: ColumnNameMapping, from: Table, to: Table)
    requires Endpoints(from, to) && Describes(d, mapping, from, to)
    ensures AskFor(d.altered, mapping, Common(from, to), WantedNames(from, to))
    ensures Names(Common(from, to)) <= Names(from) + Names(to)
    ensures forall o | o in WantedNames(from, to) :: WantedNames(from, to)[o] in Names(from) + Names(to)
  {
    var t, want := Common(from, to), WantedNames(from, to);
    assert t.Keys == want.Keys;
    forall n | n in Names(t) ensures n in Names(from) {
      var o := OwnerOf(t, n);
      assert from[o].name == n;
    }
    forall o | o in want ensures want[o] in Names(to) {
      assert to[o].name == want[o];
    }
    forall x, y | x in want && y in want && want[x] == want[y] ensures x == y {
      assert to[x].name == to[y].name;
    }
    forall m | m in d.altered ensures AsksFor(m, mapping, t, want) {
      assert DescribesChange(m, mapping, from, to);
    }
  }

  ghost function AfterRenames(from: Table, to: Table): Table {
    map o | o in from && o in to :: from[o].(name := to[o].name)
  }

  lemma RenamesReach(from: Table, to: Table, t: Table)
    requires Endpoints(from, to)
    requires Common(from, to).Keys == WantedNames(from, to).Keys
    requires t == map o | o in Common(from, to) :: Common(from, to)[o].(name := WantedNames(from, to)[o])
    ensures t == AfterRenames(from, to)
  {
  }

  lemma NoTemporaryNames(ops: seq<Operation>, more: seq<Operation>, endpoint: set<string>)
    requires ops <= more && forall k | |ops| <= k < |more| :: !IsRename(more[k])
    ensures TemporaryNames(more, endpoint) == TemporaryNames(ops, endpoint)
  {
    forall op | op in more && IsRename(op) ensures op in ops {
      var k :| 0 <= k < |more| && more[k] == op;
      assert ops[k] == op;
    }
    forall op | op in ops ensures op in more {
      var k :| 0 <= k < |ops| && ops[k] == op;
      assert more[k] == op;
    }
  }

  lemma AlterationsReach(d: Diff, mapping: ColumnNameMapping, from: Table, to: Table, added: Table, t: Table)
    requires Endpoints(from, to) && Describes(d, mapping, from, to)
    requires added.Keys == to.Keys == t.Keys
    requires forall o | o in added ::
               added[o] == if o in AfterRenames(from, to) then AfterRenames(from, to)[o] else to[o]
    requires forall o | o in t && o !in AlteredOrdinals(d.altered) :: t[o] == added[o]
    requires forall m | m in d.altered :: AtItsEnd(m, from, to, t)
    ensures t == ReachedTable(from, to)
  {
    forall o | o in t ensures t[o] == Reached(from, to, o) {
      if o in AlteredOrdinals(d.altered) {
        var m :| m in d.altered && m.before.ordinal == o;
        assert AtItsEnd(m, from, to, t);
      }
    }
  }

  class SchemaOperationPlanner {
    var operations: seq<Operation>
    var occupied: set<string>
    var reserved: set<string>
    const mapping: ColumnNameMapping
    /** The table before the plan, and the table after the operations so far. */
    ghost const start: Table
    ghost var table: Table

    constructor (occupied: set<string>, reserved: set<string>, mapping: ColumnNameMapping, ghost start: Table)
      requires KeyedByOrdinal(start) && DistinctNames(start)
      ensures Valid() && this.start == start && table == start && operations == []
      ensures this.occupied == occupied && this.reserved == reserved && this.mapping == mapping
    {
      this.operations := [];
      this.occupied, this.reserved, this.mapping := occupied, reserved, mapping;
      this.start, this.table := start, start;
    }

    /** The operations so far execute, and lead to `table`. */
    ghost predicate Valid()
      reads `operations, `table
    {
      && Execute(start, operations) == Some(table)
      && KeyedByOrdinal(table) && DistinctNames(table)
    }

    method Push(op: Operation)
      requires Valid() && Apply(table, op).Some?
      modifies `operations, `table
      ensures Valid() && table == Apply(old(table), op).value
      ensures operations == old(operations) + [op]
      ensures CountRenames(operations) == CountRenames(old(operations)) + if IsRename(op) then 1 else 0
    {
      ExecuteAppend(start, operations, op);
      CountRenamesAppend(operations, op);
      ApplyKeeps(table, op);
      operations := operations + [op];
      table := Apply(table, op).value;
    }

    /** Phase 1: drops free every name that the after endpoint may reuse. */
    method PlanDrops(dropped: seq<ColumnRemoval>)
      requires Valid() && table == start && operations == [] && occupied == Names(table)
      requires AscendingRemovals(dropped)
      requires forall r | r in dropped ::
                 r.column.ordinal in start && start[r.column.ordinal] == mapping.MapColumn(r.column)
      modifies this
      ensures Valid() && reserved == old(reserved)
      ensures table == start - DroppedOrdinals(dropped) && occupied == Names(table)
      ensures operations == Drops(dropped, mapping)
      ensures CountRenames(operations) == 0
    {
      for i := 0 to |dropped|
        invariant Valid() && reserved == old(reserved)
        invariant table == start - DroppedOrdinals(dropped[..i]) && occupied == Names(table)
        invariant operations == Drops(dropped[..i], mapping)
        invariant CountRenames(operations) == 0
      {
        var column := mapping.MapColumn(dropped[i].column);
        DropStep(start, dropped, i, mapping, table);
        occupied := occupied - {column.name};
        Push(DropColumn(column, dropped[i].reason));
      }
      assert dropped[..|dropped|] == dropped;
    }

    /** What the planner's collections stand for in the rename loop. */
    ghost predicate Renaming(
      first: Table, want: map<int, string>, endpoint: set<string>, ops: seq<Operation>,
      s: RenameState, pending: map<int, PendingRename>, ready: set<int>, waiting: map<string, int>)
      reads this
    {
      && Valid() && InLoop(s, table, pending, ready, occupied, reserved, waiting, operations)
      && s.first == first && s.want == want && s.endpoint == endpoint
      && Continues(ops, operations, 1)
    }

    /** Phase 2: rename chains run through a ready set, and each cycle is broken once. */
    method PlanRenames(altered: seq<ColumnMetadataChange>, ghost want: map<int, string>, ghost endpoint: set<string>)
      returns (r: Outcome)
      requires Valid() && occupied == Names(table) && reserved == endpoint
      requires AskFor(altered, mapping, table, want)
      requires Names(table) <= endpoint && forall o | o in want :: want[o] in endpoint
      requires CountRenames(operations) == 0 && TemporaryNames(operations, endpoint) == {}
      modifies this
      ensures Valid() && r.Pass?
      ensures table == map o | o in old(table) :: old(table)[o].(name := want[o])
      ensures Continues(old(operations), operations, 1)
      ensures RenameCounts(operations, endpoint, old(table), want)
      ensures CountRenamed(altered, mapping) == |Requests(old(table), want).source|
    {
      var pending, waiting := CollectPending(altered, mapping, table, want);
      var ready := set o | o in pending && pending[o].afterName !in occupied;
      ghost var first := table;
      ghost var s := RenameState(first, want, Requests(first, want), endpoint, table, pending, ready, {}, {});
      Initially(s);
      r, s := RunRenames(pending, ready, waiting, first, want, endpoint, operations, s);
      LoopFinished(s, table, occupied, reserved, waiting, operations);
    }

    method RunRenames(
      pending: map<int, PendingRename>, ready: set<int>, waiting: map<string, int>,
      ghost first: Table, ghost want: map<int, string>, ghost endpoint: set<string>, ghost ops: seq<Operation>,
      ghost s: RenameState)
      returns (r: Outcome, ghost s': RenameState)
      requires Renaming(first, want, endpoint, ops, s, pending, ready, waiting)
      modifies this
      ensures r.Pass? && Renaming(first, want, endpoint, ops, s', map[], {}, waiting)
    {
      var pending', ready', sequence := pending, ready, 0;
      r, s' := Pass, s;
      while pending' != map[]
        invariant r.Pass? && Renaming(first, want, endpoint, ops, s', pending', ready', waiting)
        decreases |pending'|, ready' == {}
      {
        if ready' != {} {
          r, pending', ready', s' := RunReady(pending', ready', waiting, first, want, endpoint, ops, s');
        } else {
          r, pending', ready', sequence, s' := BreakCycle(pending', waiting, sequence, first, want, endpoint, ops, s');
        }
        if r.Fail? {
          return;
        }
      }
      NothingReady(s');
    }

    /** Takes the smallest ready rename, and wakes the rename that waits for the name it leaves. */
    method RunReady(
      pending: map<int, PendingRename>, ready: set<int>, waiting: map<string, int>,
      ghost first: Table, ghost want: map<int, string>, ghost endpoint: set<string>, ghost ops: seq<Operation>,
      ghost s: RenameState)
      returns (r: Outcome, pending': map<int, PendingRename>, ready': set<int>, ghost s': RenameState)
      requires Renaming(first, want, endpoint, ops, s, pending, ready, waiting) && ready != {}
      modifies this
      ensures r.Pass? && Renaming(first, want, endpoint, ops, s', pending', ready', waiting)
      ensures |pending'| < |pending|
    {
      var ordinal := Least(ready);
      s' := LoopReady(s, table, pending, ready, occupied, reserved, waiting, operations, ordinal);
      pending', ready' := pending, ready - {ordinal};
      if ordinal !in pending {
        return Fail(ReadyRenameNotPending(ordinal)), pending', ready', s';
      }
      var rename := pending[ordinal];
      pending' := pending - {ordinal};
      if rename.before.name in waiting && waiting[rename.before.name] in pending' {
        ready' := ready' + {waiting[rename.before.name]};
      }
      PushMove(rename.before, rename.afterName);
      r := Pass;
    }

    /** Moves the smallest pending rename to a temporary name, which readies another one. */
    method BreakCycle(
      pending: map<int, PendingRename>, waiting: map<string, int>, sequence: nat,
      ghost first: Table, ghost want: map<int, string>, ghost endpoint: set<string>, ghost ops: seq<Operation>,
      ghost s: RenameState)
      returns (r: Outcome, pending': map<int, PendingRename>, ready': set<int>, next: nat, ghost s': RenameState)
      requires Renaming(first, want, endpoint, ops, s, pending, {}, waiting) && pending != map[]
      modifies this
      ensures r.Pass? && Renaming(first, want, endpoint, ops, s', pending', ready', waiting)
      ensures |pending'| == |pending| && ready' != {}
    {
      var ordinal := Least(pending.Keys);
      var rename := pending[ordinal];
      pending', ready', next, s' := pending, {}, sequence, s;
      var blocked := IsBlocked(pending, ordinal, s);
      if blocked {
        r := Fail(BlockedRenameAfterName(rename.before.name, rename.afterName));
        return;
      }
      var temporary;
      temporary, next := FreshTemporaryName(reserved, ordinal, sequence);
      pending', ready', s' := MoveAway(pending, waiting, ordinal, temporary, first, want, endpoint, ops, s);
      r := Pass;
    }

    /** Whether the name a stuck rename asks for is held by no pending rename; it never is. */
    method IsBlocked(pending: map<int, PendingRename>, ordinal: int, ghost s: RenameState) returns (blocked: bool)
      requires Inv(s) && s.pending == pending && s.ready == {} && ordinal in pending
      ensures !blocked
    {
      ghost var blocker := StuckBlocker(s, ordinal);
      blocked := !exists o :: o in pending && pending[o].before.name == pending[ordinal].afterName;
    }

    /** Moves one pending rename to a fresh name and readies the rename that waits for the name it leaves. */
    method MoveAway(
      pending: map<int, PendingRename>, waiting: map<string, int>, ordinal: int, temporary: string,
      ghost first: Table, ghost want: map<int, string>, ghost endpoint: set<string>, ghost ops: seq<Operation>,
      ghost s: RenameState)
      returns (pending': map<int, PendingRename>, ready': set<int>, ghost s': RenameState)
      requires Renaming(first, want, endpoint, ops, s, pending, {}, waiting) && ordinal in pending
      requires temporary !in reserved && IsTemporaryName(temporary)
      modifies this
      ensures Renaming(first, want, endpoint, ops, s', pending', ready', waiting)
      ensures |pending'| == |pending| && ready' != {}
    {
      var rename := pending[ordinal];
      s' := LoopBreak(s, table, pending, occupied, reserved, waiting, operations, ordinal, temporary);
      ready' := {};
      if rename.before.name in waiting {
        ready' := {waiting[rename.before.name]};
      }
      pending' := pending[ordinal := PendingRename(rename.before.(name := temporary), rename.afterName)];
      PushTemporary(rename.before, temporary);
    }

    /** Reserves a generated name and moves a column there. */
    method PushTemporary(before: ColumnSchema, name: string)
      requires Valid() && Apply(table, Move(before, name)).Some?
      modifies this
      ensures Valid() && table == Apply(old(table), Move(before, name)).value
      ensures operations == old(operations) + [Move(before, name)]
      ensures occupied == old(occupied) - {before.name} + {name} && reserved == old(reserved) + {name}
      ensures forall ops | Continues(ops, old(operations), 1) :: Continues(ops, operations, 1)
    {
      PushMove(before, name);
      reserved := reserved + {name};
    }

    /** Emits one rename: the old name becomes free and the new one occupied. */
    method PushMove(before: ColumnSchema, name: string)
      requires Valid() && Apply(table, Move(before, name)).Some?
      modifies `operations, `table, `occupied
      ensures Valid() && table == Apply(old(table), Move(before, name)).value
      ensures operations == old(operations) + [Move(before, name)]
      ensures occupied == old(occupied) - {before.name} + {name} && reserved == old(reserved)
      ensures forall ops | Continues(ops, old(operations), 1) :: Continues(ops, operations, 1)
    {
      occupied := occupied - {before.name} + {name};
      Push(Move(before, name));
    }

    /** Phase 3: additions, once every reusable name is free. */
    method PlanAdditions(added: seq<ColumnAddition>, ghost to: Table)
      requires Valid() && KeyedByOrdinal(to) && DistinctNames(to)
      requires AscendingAdditions(added)
      requires forall a | a in added :: a.column.ordinal in to && to[a.column.ordinal] == mapping.MapColumn(a.column)
      requires table.Keys !! AddedOrdinals(added)
      requires forall o | o in table :: o in to && table[o].name == to[o].name
      modifies `operations, `table
      ensures Valid()
      ensures table.Keys == old(table).Keys + AddedOrdinals(added)
      ensures forall o | o in table :: o in to && table[o] == if o in old(table) then old(table)[o] else to[o]
      ensures operations == old(operations) + Additions(added, mapping)
      ensures CountRenames(operations) == CountRenames(old(operations))
    {
      ghost var first := table;
      for i := 0 to |added|
        invariant Valid()
        invariant table.Keys == first.Keys + AddedOrdinals(added[..i])
        invariant forall o | o in table :: o in to && table[o].name == to[o].name
        invariant forall o | o in table :: table[o] == if o in first then first[o] else to[o]
        invariant operations == old(operations) + Additions(added[..i], mapping)
        invariant CountRenames(operations) == CountRenames(old(operations))
      {
        var column := mapping.MapColumn(added[i].column);
        Extend(added, i);
        AddedExtend(added, i);
        assert column.ordinal in AddedOrdinals(added);
        forall o | o in table ensures table[o].name != column.name {
          assert table[o].name == to[o].name;
        }
        AddApplies(table, column, added[i].reason);
        AdditionsExtend(old(operations), added, i, mapping);
        Push(AddColumn(column, added[i].reason));
      }
      assert added[..|added|] == added;
    }

    /** Phase 4: one alteration for each metadata field that changed. */
    method PlanAlterations(altered: seq<ColumnMetadataChange>, ghost from: Table, ghost to: Table)
      requires Valid() && AscendingChanges(altered)
      requires forall m | m in altered :: DescribesChange(m, mapping, from, to) && AtItsFinalName(m, from, to, table)
      modifies `operations, `table
      ensures Valid()
      ensures table.Keys == old(table).Keys
      ensures forall o | o in table && o !in AlteredOrdinals(altered) :: table[o] == old(table)[o]
      ensures forall m | m in altered :: AtItsEnd(m, from, to, table)
      ensures operations == old(operations) + Alterations(altered, mapping)
      ensures Continues(old(operations), operations, 3)
      ensures CountRenames(operations) == CountRenames(old(operations))
    {
      for i := 0 to |altered|
        invariant Valid() && AlteredSoFar(old(table), table, altered[..i], from, to)
        invariant operations == old(operations) + Alterations(altered[..i], mapping)
      {
        AlterNext(old(table), table, altered, i, mapping, from, to);
        AlterationsExtend(old(operations), altered, i, mapping);
        PlanAlteration(altered[i], from, to);
      }
      assert altered[..|altered|] == altered;
      AlterationsContinue(old(operations), altered, mapping);
    }

    method PlanAlteration(change: ColumnMetadataChange, ghost from: Table, ghost to: Table)
      requires Valid() && DescribesChange(change, mapping, from, to) && AtItsFinalName(change, from, to, table)
      modifies `operations, `table
      ensures Valid()
      ensures table == old(table)[change.before.ordinal := Reached(from, to, change.before.ordinal)]
      ensures operations == old(operations) + FieldAlterations(change, mapping)
    {
      var before := mapping.MapColumn(change.before).(name := mapping.MapName(change.after.name));
      var endpoint := mapping.MapColumn(change.after);
      var typed := before.(typ := endpoint.typ, modifier := endpoint.modifier);
      var nulled := typed.(nullable := endpoint.nullable);
      var defaulted := nulled.(defaultExpression := endpoint.defaultExpression);
      assert defaulted == Reached(from, to, before.ordinal);
      AppendFields(operations, change, mapping, before, typed, nulled, defaulted);
      Overwrite(table, before.ordinal, typed, nulled);
      Overwrite(table, before.ordinal, nulled, defaulted);
      AlterField(change.DataTypeChanged(), before, typed, Type);
      AlterField(change.NullabilityChanged(), typed, nulled, Nullability);
      AlterField(change.DefaultChanged(), nulled, defaulted, Default);
    }

    /** Emits the alteration of one field if it changed. */
    method AlterField(changed: bool, before: ColumnSchema, after: ColumnSchema, kind: AlterationKind)
      requires Valid() && !kind.Rename? && (changed <==> before != after)
      requires changed ==> WellFormedAlteration(before, after, kind)
      requires before.ordinal in table && table[before.ordinal] == before
      modifies `operations, `table
      ensures Valid()
      ensures table == old(table)[before.ordinal := after]
      ensures operations == old(operations) + FieldChange(before, after, kind)
    {
      if changed {
        PushAlteration(before, after, kind);
      }
    }

    method PushAlteration(before: ColumnSchema, after: ColumnSchema, kind: AlterationKind)
      requires Valid() && WellFormedAlteration(before, after, kind) && !kind.Rename?
      requires before.ordinal in table && table[before.ordinal] == before
      modifies `operations, `table
      ensures Valid()
      ensures table == old(table)[before.ordinal := after]
      ensures operations == old(operations) + [AlterColumn(before, after, kind)]
    {
      Push(AlterColumn(before, after, kind));
    }

    /** The four phases, one after the other. */
    method Plan(d: Diff, ghost to: Table) returns (r: Outcome)
      requires Valid() && table == start && operations == []
      requires Endpoints(start, to) && Describes(d, mapping, start, to)
      requires occupied == Names(start) && reserved == Names(start) + Names(to)
      modifies this
      ensures Valid() && r.Pass? && table == ReachedTable(start, to)
      ensures InPhases(operations, d, mapping)
      ensures Common(start, to).Keys == WantedNames(start, to).Keys
      ensures RenameCounts(operations, Names(start) + Names(to), Common(start, to), WantedNames(start, to))
      ensures CountRenamed(d.altered, mapping) == |RenameRequests(start, to).source|
    {
      ghost var endpoint := Names(start) + Names(to);
      PlanDrops(d.dropped);
      ghost var drops := operations;
      NoTemporaryNames([], drops, endpoint);
      AskForAfterNames(d, mapping, start, to);
      r := PlanRenames(d.altered, WantedNames(start, to), endpoint);
      if r.Fail? {
        return;
      }
      ghost var renamed := operations;
      RenamesReach(start, to, table);
      PlanLaterPhases(d, start, to);
      LaterPhasesKeepNames(renamed, operations, d, mapping, endpoint);
      PhasesCompose(drops, renamed, operations, d, mapping);
    }

    /** Phases 3 and 4, from the table the renames leave behind. */
    method PlanLaterPhases(d: Diff, ghost from: Table, ghost to: Table)
      requires Valid() && Endpoints(from, to) && Describes(d, mapping, from, to)
      requires table == AfterRenames(from, to)
      modifies `operations, `table
      ensures Valid() && table == ReachedTable(from, to)
      ensures Continues(old(operations) + Additions(d.added, mapping), operations, 3)
      ensures operations == old(operations) + Additions(d.added, mapping) + Alterations(d.altered, mapping)
      ensures CountRenames(operations) == CountRenames(old(operations))
    {
      PlanAdditions(d.added, to);
      ghost var added := table;
      AddedReach(d, mapping, from, to, added);
      PlanAlterations(d.altered, from, to);
      AlterationsReach(d, mapping, from, to, added, table);
    }
  }
}
