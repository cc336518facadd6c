/**
 A destination table driven by relation events, row writes and truncations, over
 every run and through every crash. A schema change is announced in durable
 metadata, executed one operation at a time, and only then marked as applied. A
 truncation creates the next version of the table, and a view follows the versions.
 */
module Destination {
  import opened Integers
  import opened Text
  import opened Snapshots
  import opened Columns
  import opened Execution
  import opened PhysicalExecution
  import opened Planner
  import opened SchemaPlanning

  datatype ErrorKind = DestinationSchemaRewind

  datatype Check = Accepted | Rejected(error: ErrorKind)

  /** A relation may advance the applied schema, or repeat it with the same mask. */
  function EnsureRelationSchemaTransition(
    appliedId: SnapshotId, appliedMask: seq<u8>, receivedId: SnapshotId, receivedMask: seq<u8>): (r: Check)
    ensures r.Accepted? <==> appliedId.Less(receivedId) || (appliedId, appliedMask) == (receivedId, receivedMask)
  {
    if receivedId.Less(appliedId) then
      Rejected(DestinationSchemaRewind)
    else if receivedId == appliedId && receivedMask != appliedMask then
      Rejected(DestinationSchemaRewind)
    else
      Accepted
  }

  /** Durable metadata names a version of the physical table and the schema it has. */
  datatype TableMetadata =
    | Creating(version: nat, snapshotId: SnapshotId, mask: seq<u8>)
    | Applying(
        version: nat, snapshotId: SnapshotId, mask: seq<u8>, previousId: SnapshotId, previousMask: seq<u8>)
    | Applied(version: nat, snapshotId: SnapshotId, mask: seq<u8>)

  /** Rows are accepted only in the exact shape that the metadata records. */
  function EnsureDestinationSchemaMatchesMetadata(metadata: TableMetadata, received: ReplicatedTableSchema): Check {
    if metadata.snapshotId == received.table.snapshotId && metadata.mask == received.mask
    then Accepted
    else Rejected(DestinationSchemaRewind)
  }

  // ---------- configuration and state ----------

  /**
   The schema store of one table, the destination's naming rules, what its DDL does, and which
   tables and schema changes its own validation refuses.
   */
  datatype Config = Config(
    catalog: map<SnapshotId, TableSchema>,
    mapping: ColumnNameMapping,
    executor: Executor,
    refusesTable: ReplicatedTableSchema -> bool,
    refusesChange: (ReplicatedTableSchema, ReplicatedTableSchema) -> bool)

  /** Durable metadata, the physical tables by version, and the version the view shows. */
  datatype State = State(metadata: Option<TableMetadata>, tables: map<nat, Table>, view: Option<nat>)

  ghost predicate WellFormedConfig(cfg: Config) {
    forall id | id in cfg.catalog :: cfg.catalog[id].snapshotId == id && DistinctOrdinals(cfg.catalog[id].columns)
  }

  /** Relations and rows are decoded with a stored schema. */
  ghost predicate FromCatalog(cfg: Config, schema: ReplicatedTableSchema) {
    schema.table.snapshotId in cfg.catalog && cfg.catalog[schema.table.snapshotId] == schema.table
  }

  function SchemaAt(cfg: Config, id: SnapshotId, mask: seq<u8>): ReplicatedTableSchema
    requires id in cfg.catalog
  {
    ReplicatedTableSchema(cfg.catalog[id], mask)
  }

  /** The physical columns a schema stands for; the primary key is not a column property there. */
  function Physical(cfg: Config, schema: ReplicatedTableSchema): Table {
    EraseTable(DestinationTable(schema, cfg.mapping))
  }

  function NewTable(cfg: Config, schema: ReplicatedTableSchema): Table {
    CreateTable(cfg.executor, Physical(cfg, schema))
  }

  /** A table with the columns of a schema under their names; with their exact metadata if the destination keeps it. */
  ghost predicate Fits(cfg: Config, table: Table, schema: ReplicatedTableSchema) {
    && SameShape(Physical(cfg, schema), table)
    && (Exact(cfg.executor) ==> table == Physical(cfg, schema))
  }

  ghost predicate AcceptsTable(cfg: Config, schema: ReplicatedTableSchema) {
    Representable(schema, cfg.mapping) && !cfg.refusesTable(schema)
  }

  function PhysicalOperations(plan: SchemaPlan): seq<Operation> {
    EraseOperations(plan.operations)
  }

  /** The first `k` operations of a correct plan took `start`, a table of the before schema, to `table`. */
  ghost predicate PartlyExecuted(
    cfg: Config, before: ReplicatedTableSchema, after: ReplicatedTableSchema, plan: SchemaPlan, k: nat,
    start: Table, table: Table)
  {
    && PlanCorrect(before, after, cfg.mapping, plan)
    && k <= |plan.operations| && Fits(cfg, start, before)
    && PhysicalExecute(cfg.executor, start, PhysicalOperations(plan)[..k]) == Some(table)
  }

  // ---------- one event, up to a crash ----------

  /** What happens to the table; of the effects an event has, the first `effects` happen before a crash. */
  datatype Event =
    | Relation(received: ReplicatedTableSchema, plan: SchemaPlan, effects: nat)
    | Prepare(received: ReplicatedTableSchema, effects: nat)
    | Truncation(received: ReplicatedTableSchema, effects: nat)
    | Cleanup(version: nat)

  /** A relation changes the table: it is newer, both schemas have destination names, and nothing refuses it. */
  ghost predicate ChangesTable(cfg: Config, s: State, received: ReplicatedTableSchema) {
    && s.metadata.Some? && s.metadata.value.Applied? && s.metadata.value.version in s.tables
    && s.metadata.value.snapshotId.Less(received.table.snapshotId)
    && s.metadata.value.snapshotId in cfg.catalog
    && var before := SchemaAt(cfg, s.metadata.value.snapshotId, s.metadata.value.mask);
       && Representable(before, cfg.mapping) && Representable(received, cfg.mapping)
       && !cfg.refusesChange(before, received)
  }

  /** How many of a plan's operations run when the first `effects` effects happen. */
  function Executed(plan: SchemaPlan, effects: nat): nat
    requires effects > 0
  {
    if effects <= |plan.operations| then effects - 1 else |plan.operations|
  }

  /** The first effects of a change: the announcement, the operations that leave `table`, the view, the last store. */
  function Changed(
    s: State, current: TableMetadata, received: ReplicatedTableSchema, plan: SchemaPlan, effects: nat, table: Table
  ): State {
    var n, v, id, mask := |plan.operations|, current.version, received.table.snapshotId, received.mask;
    State(
      Some(if effects >= n + 3 then Applied(v, id, mask)
           else Applying(v, id, mask, current.snapshotId, current.mask)),
      s.tables[v := table],
      if effects >= n + 2 then Some(v) else s.view)
  }

  ghost predicate RelationStep(
    cfg: Config, s: State, received: ReplicatedTableSchema, plan: SchemaPlan, effects: nat, s': State)
  {
    if !ChangesTable(cfg, s, received) || effects == 0 then s' == s
    else
      var current := s.metadata.value;
      var before, v := SchemaAt(cfg, current.snapshotId, current.mask), current.version;
      && v in s'.tables && s' == Changed(s, current, received, plan, effects, s'.tables[v])
      && PartlyExecuted(cfg, before, received, plan, Executed(plan, effects), s.tables[v], s'.tables[v])
  }

  /** The table is set up for rows: it is announced, created if it is missing and recorded, and the view is set. */
  ghost function Prepared(cfg: Config, s: State, received: ReplicatedTableSchema, effects: nat): State {
    var id, mask := received.table.snapshotId, received.mask;
    match s.metadata
    case None =>
      if !AcceptsTable(cfg, received) || effects == 0 then s
      else
        State(
          Some(if effects < 3 then Creating(0, id, mask) else Applied(0, id, mask)),
          if effects < 2 || 0 in s.tables then s.tables else s.tables[0 := NewTable(cfg, received)],
          if effects < 4 then s.view else Some(0))
    case Some(Creating(v, _, _)) =>
      if EnsureDestinationSchemaMatchesMetadata(s.metadata.value, received).Rejected? ||
         cfg.refusesTable(received) || effects == 0
      then s
      else
        State(
          if effects < 2 then s.metadata else Some(Applied(v, id, mask)),
          if v in s.tables then s.tables else s.tables[v := NewTable(cfg, received)],
          if effects < 3 then s.view else Some(v))
    case Some(Applied(v, _, _)) =>
      if EnsureDestinationSchemaMatchesMetadata(s.metadata.value, received).Rejected? || effects == 0 then s
      else s.(view := Some(v))
    case Some(Applying(_, _, _, _, _)) => s
  }

  /** Rows of `received` are written to the table as it stands. */
  ghost predicate WritesRows(s: State, received: ReplicatedTableSchema) {
    && s.metadata.Some? && s.metadata.value.Applied?
    && EnsureDestinationSchemaMatchesMetadata(s.metadata.value, received).Accepted?
  }

  /** The first version after `v` that no table has. */
  ghost predicate IsNextVersion(tables: map<nat, Table>, v: nat, next: nat) {
    v < next && next !in tables && forall m | v < m < next :: m in tables
  }

  /** A truncation creates the next version, shows it and records it. Versions left by earlier attempts stay. */
  ghost predicate TruncationStep(cfg: Config, s: State, received: ReplicatedTableSchema, effects: nat, s': State) {
    if !WritesRows(s, received) || effects == 0 then s' == s
    else
      exists next ::
        && IsNextVersion(s.tables, s.metadata.value.version, next)
        && s' == State(
                   if effects < 3 then s.metadata else Some(Applied(next, received.table.snapshotId, received.mask)),
                   s.tables[next := NewTable(cfg, received)],
                   if effects < 2 then s.view else Some(next))
  }

  /** Cleanup runs beside everything else and drops versions below the recorded one. */
  ghost predicate CleanupStep(s: State, version: nat, s': State) {
    || s' == s
    || (&& s.metadata.Some? && version < s.metadata.value.version
        && s' == s.(tables := s.tables - {version}))
  }

  ghost predicate Step(cfg: Config, s: State, e: Event, s': State) {
    match e
    case Relation(received, plan, effects) =>
      FromCatalog(cfg, received) && RelationStep(cfg, s, received, plan, effects, s')
    case Prepare(received, effects) => FromCatalog(cfg, received) && s' == Prepared(cfg, s, received, effects)
    case Truncation(received, effects) =>
      FromCatalog(cfg, received) && TruncationStep(cfg, s, received, effects, s')
    case Cleanup(version) => CleanupStep(s, version, s')
  }

  /** The states a table goes through from nothing, one for each event. */
  ghost predicate IsRun(cfg: Config, events: seq<Event>, run: seq<State>) {
    && |run| == |events| + 1 && run[0] == State(None, map[], None)
    && forall i | 0 <= i < |events| :: Step(cfg, run[i], events[i], run[i + 1])
  }

  // ---------- the handlers ----------

  class BigQueryDestination {
    const cfg: Config
    var metadata: Option<TableMetadata>
    var tables: map<nat, Table>
    var view: Option<nat>

    constructor (cfg: Config)
      ensures this.cfg == cfg && Now() == State(None, map[], None)
    {
      this.cfg := cfg;
      metadata, tables, view := None, map[], None;
    }

    ghost function Now(): State
      reads this
    {
      State(metadata, tables, view)
    }

    /** Handles a relation, and crashes once `budget` of the effects have happened. */
    method HandleRelationEvent(received: ReplicatedTableSchema, budget: nat) returns (plan: Option<SchemaPlan>)
      requires WellFormedConfig(cfg) && FromCatalog(cfg, received) && Inv(cfg, Now())
      modifies this
      ensures plan.Some? <==> ChangesTable(cfg, old(Now()), received)
      ensures plan.None? ==> Now() == old(Now())
      ensures plan.Some? ==> RelationStep(cfg, old(Now()), received, plan.value, budget, Now())
      ensures plan.Some? && budget >= |plan.value.operations| + 3 ==>
                && metadata == Some(Applied(old(metadata).value.version, received.table.snapshotId, received.mask))
                && metadata.value.version in tables && Fits(cfg, tables[metadata.value.version], received)
                && view == Some(metadata.value.version)
    {
      plan := None;
      if metadata.None? || !metadata.value.Applied? {
        return;
      }
      var current, id := metadata.value, received.table.snapshotId;
      if EnsureRelationSchemaTransition(current.snapshotId, current.mask, id, received.mask).Rejected? {
        return;
      }
      if current.snapshotId == id || current.snapshotId !in cfg.catalog {
        return;
      }
      var before := SchemaAt(cfg, current.snapshotId, current.mask);
      SelectedOrdinals(before.table.columns, before.mask);
      SelectedOrdinals(received.table.columns, received.mask);
      if cfg.refusesChange(before, received) {
        return;
      }
      var planned := PlanSchemaChange(before, received, cfg.mapping);
      if planned.Failure? {
        return;
      }
      plan := Some(planned.value);
      ghost var s, v := Now(), current.version;
      PlanRuns(cfg, before, received, planned.value, tables[v]);
      var table := ApplyPlan(received, planned.value, budget);
      RelationHandled(cfg, s, before, received, planned.value, budget, table, Now());
    }

    /** Announces a change, runs its operations, and completes it, for at most `budget` of these effects. */
    method ApplyPlan(received: ReplicatedTableSchema, plan: SchemaPlan, budget: nat) returns (table: Table)
      requires metadata.Some? && metadata.value.Applied? && metadata.value.version in tables
      requires PhysicalExecute(cfg.executor, tables[metadata.value.version], PhysicalOperations(plan)).Some?
      modifies this
      ensures budget == 0 ==> Now() == old(Now())
      ensures budget > 0 ==>
                && Now() == Changed(old(Now()), old(metadata).value, received, plan, budget, table)
                && PhysicalExecute(
                     cfg.executor, old(tables)[old(metadata).value.version],
                     PhysicalOperations(plan)[..Executed(plan, budget)]) == Some(table)
    {
      var current, id := metadata.value, received.table.snapshotId;
      var v := current.version;
      table := tables[v];
      if budget == 0 {
        return;
      }
      metadata := Some(Applying(v, id, received.mask, current.snapshotId, current.mask));
      var k;
      table, k := RunOperations(cfg.executor, table, PhysicalOperations(plan), budget - 1);
      tables := tables[v := table];
      if k + 1 < budget {
        view := Some(v);
      }
      if k + 2 < budget {
        metadata := Some(Applied(v, id, received.mask));
      }
    }

    /** Resolves or creates the table for rows of a schema, and points the view to it. */
    method PrepareTableForWrites(received: ReplicatedTableSchema, budget: nat)
      requires WellFormedConfig(cfg) && FromCatalog(cfg, received)
      modifies this
      ensures Now() == Prepared(cfg, old(Now()), received, budget)
      ensures metadata.Some? && metadata.value.Applied? && budget >= 4 && WritesRows(Now(), received) ==>
                view == Some(metadata.value.version)
    {
      var id, mask, left := received.table.snapshotId, received.mask, budget;
      if metadata.None? {
        var accepted := ValidateTable(received);
        if !accepted || left == 0 {
          return;
        }
        metadata, left := Some(Creating(0, id, mask)), left - 1;
      } else if metadata.value.Applying? ||
                EnsureDestinationSchemaMatchesMetadata(metadata.value, received).Rejected? ||
                (metadata.value.Creating? && cfg.refusesTable(received)) {
        return;
      }
      var v := metadata.value.version;
      if metadata.value.Creating? {
        if left == 0 {
          return;
        }
        tables, left := if v in tables then tables else tables[v := NewTable(cfg, received)], left - 1;
        if left == 0 {
          return;
        }
        metadata, left := Some(Applied(v, id, mask)), left - 1;
      }
      if left > 0 {
        view := Some(v);
      }
    }

    method ValidateTable(received: ReplicatedTableSchema) returns (accepted: bool)
      requires WellFormedConfig(cfg) && FromCatalog(cfg, received)
      ensures accepted <==> AcceptsTable(cfg, received)
    {
      var names := CollectUniqueColumnNames(ColumnNames(received.Columns()), cfg.mapping, After);
      accepted := names.Success? && !cfg.refusesTable(received);
    }

    /** Replaces the table by an empty one: the next version is created, shown and recorded. */
    method ProcessTruncate(received: ReplicatedTableSchema, budget: nat)
      modifies this
      ensures TruncationStep(cfg, old(Now()), received, budget, Now())
      ensures WritesRows(old(Now()), received) && budget >= 3 ==>
                WritesRows(Now(), received) && view == Some(metadata.value.version)
    {
      if metadata.None? || !metadata.value.Applied? || budget == 0 ||
         EnsureDestinationSchemaMatchesMetadata(metadata.value, received).Rejected? {
        return;
      }
      var next := NextVersion(metadata.value.version);
      tables := tables[next := NewTable(cfg, received)];
      if budget > 1 {
        view := Some(next);
      }
      if budget > 2 {
        metadata := Some(Applied(next, received.table.snapshotId, received.mask));
      }
    }

    /** Skips the versions that earlier attempts left behind. */
    method NextVersion(v: nat) returns (next: nat)
      ensures IsNextVersion(tables, v, next)
    {
      next := v + 1;
      while next in tables
        invariant v < next && forall m | v < m < next :: m in tables
        decreases |Beyond(tables.Keys, next)|
      {
        BeyondShrinks(tables.Keys, next);
        next := next + 1;
      }
    }
  }

  /** The effects of a correct plan are a step of the relation handler, and all of them complete the change. */
  lemma RelationHandled(
    cfg: Config, s: State, before: ReplicatedTableSchema, received: ReplicatedTableSchema, plan: SchemaPlan,
    budget: nat, table: Table, s': State)
    requires ChangesTable(cfg, s, received) && PlanCorrect(before, received, cfg.mapping, plan)
    requires before == SchemaAt(cfg, s.metadata.value.snapshotId, s.metadata.value.mask)
    requires Fits(cfg, s.tables[s.metadata.value.version], before)
    requires if budget == 0 then s' == s
             else
               && s' == Changed(s, s.metadata.value, received, plan, budget, table)
               && PhysicalExecute(
                    cfg.executor, s.tables[s.metadata.value.version],
                    PhysicalOperations(plan)[..Executed(plan, budget)]) == Some(table)
    ensures RelationStep(cfg, s, received, plan, budget, s')
    ensures budget >= |plan.operations| + 3 ==>
              && s'.metadata == Some(Applied(s.metadata.value.version, received.table.snapshotId, received.mask))
              && s'.metadata.value.version in s'.tables && s'.view == Some(s'.metadata.value.version)
              && Fits(cfg, s'.tables[s'.metadata.value.version], received)
  {
    if budget > 0 {
      var start := s.tables[s.metadata.value.version];
      assert PartlyExecuted(cfg, before, received, plan, Executed(plan, budget), start, table);
      if budget >= |plan.operations| + 3 {
        CompletePlanReaches(cfg, before, received, plan, start, table);
      }
    }
  }

  ghost function Beyond(versions: set<nat>, v: nat): set<nat> {
    set m | m in versions && m >= v
  }

  lemma BeyondShrinks(versions: set<nat>, v: nat)
    requires v in versions
    ensures |Beyond(versions, v + 1)| < |Beyond(versions, v)|
  {
    assert Beyond(versions, v) == Beyond(versions, v + 1) + {v};
  }

  lemma PhysicalExecutes(cfg: Config, before: ReplicatedTableSchema, after: ReplicatedTableSchema, plan: SchemaPlan)
    requires PlanCorrect(before, after, cfg.mapping, plan)
    ensures KeyedByOrdinal(Physical(cfg, before)) && DistinctNames(Physical(cfg, before))
    ensures Execute(Physical(cfg, before), PhysicalOperations(plan)) == Some(Physical(cfg, after))
  {
    EraseExecute(DestinationTable(before, cfg.mapping), plan.operations);
    ReachedUpToKey(DestinationTable(before, cfg.mapping), DestinationTable(after, cfg.mapping));
  }

  lemma PlanRuns(
    cfg: Config, before: ReplicatedTableSchema, after: ReplicatedTableSchema, plan: SchemaPlan, table: Table)
    requires PlanCorrect(before, after, cfg.mapping, plan) && Fits(cfg, table, before)
    ensures PhysicalExecute(cfg.executor, table, PhysicalOperations(plan)).Some?
  {
    PhysicalExecutes(cfg, before, after, plan);
    ShapeExecute(cfg.executor, Physical(cfg, before), table, PhysicalOperations(plan));
  }

  // ---------- what every run keeps ----------

  ghost predicate Usable(cfg: Config, id: SnapshotId, mask: seq<u8>) {
    id in cfg.catalog && Representable(SchemaAt(cfg, id, mask), cfg.mapping)
  }

  ghost predicate Inv(cfg: Config, s: State) {
    && (s.view.Some? ==> s.view.value in s.tables)
    && match s.metadata
       case None => s.tables == map[]
       case Some(Creating(v, id, mask)) =>
         && Usable(cfg, id, mask) && s.tables.Keys <= {v} && s.view.None?
         && (v in s.tables ==> Fits(cfg, s.tables[v], SchemaAt(cfg, id, mask)))
       case Some(Applied(v, id, mask)) =>
         && Usable(cfg, id, mask) && v in s.tables && Fits(cfg, s.tables[v], SchemaAt(cfg, id, mask))
         && (s.view.Some? ==> s.view.value >= v)
       case Some(Applying(v, id, mask, previousId, previousMask)) =>
         && Usable(cfg, id, mask) && Usable(cfg, previousId, previousMask)
         && previousId.Less(id) && v in s.tables
         && (s.view.Some? ==> s.view.value >= v)
         && exists plan, k, start ::
              PartlyExecuted(
                cfg, SchemaAt(cfg, previousId, previousMask), SchemaAt(cfg, id, mask), plan, k, start, s.tables[v])
  }

  lemma {:induction false} SelectedOrdinals(columns: seq<ColumnSchema>, mask: seq<u8>)
    requires DistinctOrdinals(columns)
    ensures DistinctOrdinals(Selected(columns, mask))
    ensures forall c | c in Selected(columns, mask) :: c in columns
  {
    if columns != [] && mask != [] {
      SelectedOrdinals(columns[1..], mask[1..]);
      assert forall c | c in columns[1..] :: c in columns && c.ordinal != columns[0].ordinal;
    }
  }

  /** A completely executed plan leaves the columns of the after schema, exactly if the destination is exact. */
  lemma CompletePlanReaches(
    cfg: Config, before: ReplicatedTableSchema, after: ReplicatedTableSchema, plan: SchemaPlan,
    start: Table, table: Table)
    requires PartlyExecuted(cfg, before, after, plan, |plan.operations|, start, table)
    ensures Fits(cfg, table, after)
  {
    var ops := PhysicalOperations(plan);
    assert ops[..|plan.operations|] == ops;
    PhysicalExecutes(cfg, before, after, plan);
    ShapeExecute(cfg.executor, Physical(cfg, before), start, ops);
  }

  lemma RelationKeepsInv(
    cfg: Config, s: State, received: ReplicatedTableSchema, plan: SchemaPlan, effects: nat, s': State)
    requires Inv(cfg, s) && FromCatalog(cfg, received) && RelationStep(cfg, s, received, plan, effects, s')
    ensures Inv(cfg, s')
  {
    if ChangesTable(cfg, s, received) && effects > 0 {
      var current := s.metadata.value;
      var before, v := SchemaAt(cfg, current.snapshotId, current.mask), current.version;
      assert SchemaAt(cfg, received.table.snapshotId, received.mask) == received;
      if s'.metadata.value.Applied? {
        CompletePlanReaches(cfg, before, received, plan, s.tables[v], s'.tables[v]);
      }
    }
  }

  lemma PrepareKeepsInv(cfg: Config, s: State, received: ReplicatedTableSchema, effects: nat)
    requires Inv(cfg, s) && FromCatalog(cfg, received)
    ensures Inv(cfg, Prepared(cfg, s, received, effects))
  {
    assert SchemaAt(cfg, received.table.snapshotId, received.mask) == received;
    CreatedShape(cfg.executor, Physical(cfg, received));
  }

  lemma TruncationKeepsInv(cfg: Config, s: State, received: ReplicatedTableSchema, effects: nat, s': State)
    requires Inv(cfg, s) && FromCatalog(cfg, received) && TruncationStep(cfg, s, received, effects, s')
    ensures Inv(cfg, s')
  {
    assert SchemaAt(cfg, received.table.snapshotId, received.mask) == received;
    CreatedShape(cfg.executor, Physical(cfg, received));
  }

  /** The metadata only moves to later snapshots and versions, and a snapshot keeps its mask. */
  ghost predicate Advances(s: State, s': State) {
    s.metadata.Some? ==>
      && s'.metadata.Some?
      && s.metadata.value.version <= s'.metadata.value.version
      && s.metadata.value.snapshotId.AtMost(s'.metadata.value.snapshotId)
      && (s.metadata.value.snapshotId == s'.metadata.value.snapshotId ==>
            s.metadata.value.mask == s'.metadata.value.mask)
  }

  lemma StepKeepsInv(cfg: Config, s: State, e: Event, s': State)
    requires Inv(cfg, s) && Step(cfg, s, e, s')
    ensures Inv(cfg, s')
  {
    match e
    case Relation(received, plan, effects) => RelationKeepsInv(cfg, s, received, plan, effects, s');
    case Prepare(received, effects) => PrepareKeepsInv(cfg, s, received, effects);
    case Truncation(received, effects) => TruncationKeepsInv(cfg, s, received, effects, s');
    case Cleanup(_) =>
  }

  lemma StepAdvances(cfg: Config, s: State, e: Event, s': State)
    requires Step(cfg, s, e, s')
    ensures Advances(s, s')
  {
  }

  /** Every state of every run keeps the invariant, and snapshots and versions never go back. */
  lemma {:induction false} RunInvariant(cfg: Config, events: seq<Event>, run: seq<State>, i: nat, j: nat)
    requires WellFormedConfig(cfg) && IsRun(cfg, events, run) && i <= j < |run|
    ensures Inv(cfg, run[i]) && Inv(cfg, run[j]) && Advances(run[i], run[j])
    decreases j
  {
    if j > 0 {
      assert Step(cfg, run[j - 1], events[j - 1], run[j]);
      RunInvariant(cfg, events, run, if i < j then i else j - 1, j - 1);
      StepKeepsInv(cfg, run[j - 1], events[j - 1], run[j]);
      StepAdvances(cfg, run[j - 1], events[j - 1], run[j]);
    }
  }

  // ---------- which rows are accepted ----------

  /** An event sets out to create the table or to change its schema. */
  ghost predicate Begins(cfg: Config, s: State, e: Event) {
    match e
    case Relation(received, _, effects) => effects > 0 && ChangesTable(cfg, s, received)
    case Prepare(received, effects) => effects > 0 && s.metadata.None? && AcceptsTable(cfg, received)
    case _ => false
  }

  /** An event completes a creation, its own or an interrupted one, or a schema change. */
  ghost predicate Completes(cfg: Config, s: State, e: Event) {
    match e
    case Relation(_, plan, effects) => Begins(cfg, s, e) && effects >= |plan.operations| + 3
    case Prepare(received, effects) =>
      if s.metadata.None? then Begins(cfg, s, e) && effects >= 3
      else
        && s.metadata.value.Creating? && effects >= 2 && !cfg.refusesTable(received)
        && EnsureDestinationSchemaMatchesMetadata(s.metadata.value, received).Accepted?
    case _ => false
  }

  /** Event `j` completed `schema`, and nothing has set out on or completed another one since. */
  ghost predicate CompletedLast(
    cfg: Config, events: seq<Event>, run: seq<State>, i: nat, j: nat, schema: ReplicatedTableSchema)
    requires i <= |events| && |run| == |events| + 1
  {
    && j < i && Completes(cfg, run[j], events[j]) && events[j].received == schema
    && forall k | j < k < i :: !Begins(cfg, run[k], events[k]) && !Completes(cfg, run[k], events[k])
  }

  /** Whether a schema is the current one after an event, given whether it was before. */
  ghost predicate CurrentAfter(cfg: Config, s: State, e: Event, schema: ReplicatedTableSchema, current: bool) {
    if Completes(cfg, s, e) then e.received == schema else !Begins(cfg, s, e) && current
  }

  /** What one event does to the rows that are accepted. */
  lemma AcceptedAfter(cfg: Config, s: State, e: Event, s': State, schema: ReplicatedTableSchema)
    requires Step(cfg, s, e, s') && FromCatalog(cfg, schema)
    ensures WritesRows(s', schema) <==> CurrentAfter(cfg, s, e, schema, WritesRows(s, schema))
  {
    match e
    case Relation(received, plan, effects) => AcceptedAfterRelation(cfg, s, received, plan, effects, s', schema);
    case Prepare(_, _) =>
    case Truncation(_, _) =>
    case Cleanup(_) =>
  }

  lemma AcceptedAfterRelation(
    cfg: Config, s: State, received: ReplicatedTableSchema, plan: SchemaPlan, effects: nat, s': State,
    schema: ReplicatedTableSchema)
    requires FromCatalog(cfg, received) && RelationStep(cfg, s, received, plan, effects, s')
    requires FromCatalog(cfg, schema)
    ensures WritesRows(s', schema) <==>
            CurrentAfter(cfg, s, Relation(received, plan, effects), schema, WritesRows(s, schema))
  {
  }

  ghost predicate SomeCompleted(
    cfg: Config, events: seq<Event>, run: seq<State>, i: nat, schema: ReplicatedTableSchema)
    requires i <= |events| && |run| == |events| + 1
  {
    exists j :: CompletedLast(cfg, events, run, i, j, schema)
  }

  lemma CompletedNext(cfg: Config, events: seq<Event>, run: seq<State>, i: nat, schema: ReplicatedTableSchema)
    requires i < |events| && |run| == |events| + 1
    ensures SomeCompleted(cfg, events, run, i + 1, schema) <==>
            CurrentAfter(cfg, run[i], events[i], schema, SomeCompleted(cfg, events, run, i, schema))
  {
    var begins, completes := Begins(cfg, run[i], events[i]), Completes(cfg, run[i], events[i]);
    if completes && events[i].received == schema {
      assert CompletedLast(cfg, events, run, i + 1, i, schema);
    }
    if j: nat :| CompletedLast(cfg, events, run, i, j, schema) {
      assert !begins && !completes ==> CompletedLast(cfg, events, run, i + 1, j, schema);
    }
    var n := i + 1;
    if j: nat :| CompletedLast(cfg, events, run, n, j, schema) {
      assert j < i ==> !begins && !completes && CompletedLast(cfg, events, run, i, j, schema);
    }
  }

  lemma AcceptedNext(cfg: Config, events: seq<Event>, run: seq<State>, i: nat, schema: ReplicatedTableSchema)
    requires IsRun(cfg, events, run) && i < |events| && FromCatalog(cfg, schema)
    ensures WritesRows(run[i + 1], schema) <==>
            CurrentAfter(cfg, run[i], events[i], schema, WritesRows(run[i], schema))
  {
    assert Step(cfg, run[i], events[i], run[i + 1]);
    AcceptedAfter(cfg, run[i], events[i], run[i + 1], schema);
  }

  /** In every state of every run, rows are accepted of exactly the schema that was created or changed to last. */
  lemma {:induction false} RowsAcceptedExactly(
    cfg: Config, events: seq<Event>, run: seq<State>, i: nat, schema: ReplicatedTableSchema)
    requires WellFormedConfig(cfg) && IsRun(cfg, events, run) && i < |run| && FromCatalog(cfg, schema)
    ensures WritesRows(run[i], schema) <==> SomeCompleted(cfg, events, run, i, schema)
  {
    if i > 0 {
      RowsAcceptedExactly(cfg, events, run, i - 1, schema);
      AcceptedNext(cfg, events, run, i - 1, schema);
      CompletedNext(cfg, events, run, i - 1, schema);
    }
  }

  /** Whenever rows are written, the table has exactly the columns of their schema, under their names. */
  lemma RowsFitTheTable(cfg: Config, events: seq<Event>, run: seq<State>, i: nat, received: ReplicatedTableSchema)
    requires WellFormedConfig(cfg) && IsRun(cfg, events, run) && i < |run|
    requires FromCatalog(cfg, received) && WritesRows(run[i], received)
    ensures var v := run[i].metadata.value.version;
            && v in run[i].tables && SameShape(Physical(cfg, received), run[i].tables[v])
            && (Exact(cfg.executor) ==> run[i].tables[v] == Physical(cfg, received))
  {
    RunInvariant(cfg, events, run, i, i);
    assert SchemaAt(cfg, received.table.snapshotId, received.mask) == received;
  }

  // ---------- versions, the view and names ----------

  /** The view always shows a table that exists, and never one older than the recorded one. */
  lemma ViewNeverDangles(cfg: Config, events: seq<Event>, run: seq<State>, i: nat)
    requires WellFormedConfig(cfg) && IsRun(cfg, events, run) && i < |run| && run[i].view.Some?
    ensures run[i].view.value in run[i].tables
    ensures run[i].metadata.Some? && run[i].metadata.value.version <= run[i].view.value
  {
    RunInvariant(cfg, events, run, i, i);
  }

  /** A version that was created is never created again while it exists: only the recorded one changes. */
  lemma OnlyLiveTableChanges(cfg: Config, s: State, e: Event, s': State, v: nat)
    requires Step(cfg, s, e, s') && v in s.tables && v in s'.tables && s'.tables[v] != s.tables[v]
    ensures s.metadata.Some? && s.metadata.value.version == v
    ensures e.Relation? && ChangesTable(cfg, s, e.received)
  {
  }

  /** Wherever a run is cut off, no table of any version has two columns of one name. */
  lemma {:induction false} TableNeverClashes(cfg: Config, events: seq<Event>, run: seq<State>, i: nat, v: nat)
    requires WellFormedConfig(cfg) && IsRun(cfg, events, run) && i < |run| && v in run[i].tables
    ensures DistinctNames(run[i].tables[v])
  {
    if i > 0 {
      var s, e, s' := run[i - 1], events[i - 1], run[i];
      assert Step(cfg, s, e, s');
      RunInvariant(cfg, events, run, i - 1, i);
      if v !in s.tables {
        CreatedDistinct(cfg, s, e, s', v);
      } else if s'.tables[v] == s.tables[v] {
        TableNeverClashes(cfg, events, run, i - 1, v);
      } else {
        OnlyLiveTableChanges(cfg, s, e, s', v);
        var current := s.metadata.value;
        var before := SchemaAt(cfg, current.snapshotId, current.mask);
        PartlyExecutedDistinct(
          cfg, before, e.received, e.plan, Executed(e.plan, e.effects), s.tables[v], s'.tables[v]);
      }
    }
  }

  lemma CreatedDistinct(cfg: Config, s: State, e: Event, s': State, v: nat)
    requires WellFormedConfig(cfg) && Inv(cfg, s) && Step(cfg, s, e, s') && v !in s.tables && v in s'.tables
    ensures DistinctNames(s'.tables[v])
  {
    assert e.Prepare? || e.Truncation?;
    var received := e.received;
    assert s'.tables[v] == NewTable(cfg, received);
    assert SchemaAt(cfg, received.table.snapshotId, received.mask) == received;
    assert Representable(received, cfg.mapping);
    CreatedShape(cfg.executor, Physical(cfg, received));
    FittingDistinct(cfg, received, s'.tables[v]);
  }

  lemma PartlyExecutedDistinct(
    cfg: Config, before: ReplicatedTableSchema, after: ReplicatedTableSchema, plan: SchemaPlan, k: nat,
    start: Table, table: Table)
    requires PartlyExecuted(cfg, before, after, plan, k, start, table)
    ensures DistinctNames(table)
  {
    var ops := PhysicalOperations(plan);
    PhysicalExecutes(cfg, before, after, plan);
    PrefixesExecute(Physical(cfg, before), ops, k);
    ShapeExecute(cfg.executor, Physical(cfg, before), start, ops[..k]);
    SameNames(Execute(Physical(cfg, before), ops[..k]).value, table);
  }

  lemma FittingDistinct(cfg: Config, schema: ReplicatedTableSchema, table: Table)
    requires WellFormedConfig(cfg) && FromCatalog(cfg, schema) && Representable(schema, cfg.mapping)
    requires Fits(cfg, table, schema)
    ensures DistinctNames(table)
  {
    SelectedOrdinals(schema.table.columns, schema.mask);
    RepresentableTable(schema, cfg.mapping);
    SameNames(Physical(cfg, schema), table);
  }
}
