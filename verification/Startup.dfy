/**
 Startup of a pipeline: table states are created for published tables and purged
 for tables that left the publication, one durable write at a time. A startup may
 be interrupted after any write and is then run again.
 */
module Startup {
  import opened Integers
  import opened Finite
  import opened Text
  import opened Slots

  type TableId = u32

  datatype TableState =
    | Init
    | DataSync
    | FinishedCopy
    | SyncWait(lsn: u64)
    | Catchup(lsn: u64)
    | SyncDone(lsn: u64)
    | Ready
    | Errored(reason: string)

  /** What survives an interruption: the stored states and the replication slots. */
  datatype Durable = Durable(states: map<TableId, TableState>, slots: set<string>)

  datatype Outcome = Finished | Interrupted | MissingPublication

  function SyncSlot(pipelineId: u64, table: TableId): string {
    Name(TableSync(pipelineId, table))
  }

  function SyncSlots(pipelineId: u64, tables: set<TableId>): set<string> {
    set t | t in tables :: SyncSlot(pipelineId, t)
  }

  ghost function SlotOwner(pipelineId: u64, tables: set<TableId>, name: string): (t: TableId)
    requires name in SyncSlots(pipelineId, tables)
    ensures t in tables && SyncSlot(pipelineId, t) == name
  {
    var t :| t in tables && SyncSlot(pipelineId, t) == name;
    t
  }

  // ---------- what a startup may do ----------

  /** Published tables keep their state or get `Init`; a slot goes only after the state of its unpublished table. */
  ghost predicate Progressed(pipelineId: u64, published: set<TableId>, a: Durable, b: Durable) {
    && (forall t | t in b.states ::
          if t in a.states then b.states[t] == a.states[t] else t in published && b.states[t] == Init)
    && a.states.Keys * published <= b.states.Keys
    && b.slots <= a.slots
    && a.slots - b.slots <= SyncSlots(pipelineId, a.states.Keys - published - b.states.Keys)
  }

  /** Exactly one state per published table: the known ones unchanged, the new ones `Init`. */
  ghost predicate Settled(published: set<TableId>, a: Durable, b: Durable) {
    && b.states.Keys == published
    && forall t | t in published :: b.states[t] == if t in a.states then a.states[t] else Init
  }

  /** The durable state once `added` were initialized, `removed` purged and the slots of `dropped` deleted. */
  ghost function After(
    pipelineId: u64, a: Durable, added: set<TableId>, removed: set<TableId>, dropped: set<TableId>
  ): Durable {
    Durable(
      (map t | t in a.states.Keys + added && t !in removed :: if t in a.states then a.states[t] else Init),
      a.slots - SyncSlots(pipelineId, dropped))
  }

  lemma AfterProgress(
    pipelineId: u64, published: set<TableId>, a: Durable,
    added: set<TableId>, removed: set<TableId>, dropped: set<TableId>
  )
    requires added <= published && removed <= a.states.Keys - published && dropped <= removed
    ensures Progressed(pipelineId, published, a, After(pipelineId, a, added, removed, dropped))
  {
    var b := After(pipelineId, a, added, removed, dropped);
    forall name | name in a.slots - b.slots
      ensures name in SyncSlots(pipelineId, a.states.Keys - published - b.states.Keys)
    {
      var t := SlotOwner(pipelineId, dropped, name);
    }
  }

  /** The durable writes of a startup: tables given a state, tables purged, and slots deleted. */
  datatype Writes = Writes(added: set<TableId>, removed: set<TableId>, dropped: set<TableId>)

  function CountWrites(a: Durable, w: Writes): nat {
    |w.added - a.states.Keys| + |w.removed| + |w.dropped|
  }

  /**
   What a startup leaves is what its writes make of what it found. Purging starts once every published table has
   a state, and at most one purged table still has its slot.
   */
  ghost predicate Accounts(pipelineId: u64, published: set<TableId>, a: Durable, b: Durable, w: Writes) {
    && b == After(pipelineId, a, w.added, w.removed, w.dropped)
    && w.added <= published && (w.removed != {} ==> w.added == published)
    && w.removed <= a.states.Keys - published
    && w.dropped <= w.removed && |w.removed - w.dropped| <= 1
  }

  lemma AccountsMeans(pipelineId: u64, published: set<TableId>, a: Durable, b: Durable, w: Writes)
    requires Accounts(pipelineId, published, a, b, w)
    ensures Progressed(pipelineId, published, a, b)
    ensures var gone := a.states.Keys - published;
            w == Writes(published, gone, gone) ==>
              Settled(published, a, b) && b.slots == a.slots - SyncSlots(pipelineId, gone)
  {
    AfterProgress(pipelineId, published, a, w.added, w.removed, w.dropped);
  }

  function TableSet(tables: seq<TableId>): set<TableId> {
    set t | t in tables
  }

  predicate Distinct(tables: seq<TableId>) {
    forall i, j | 0 <= i < j < |tables| :: tables[i] != tables[j]
  }

  /** An order in which the stored states may be visited. */
  ghost predicate Lists(order: seq<TableId>, keys: set<TableId>) {
    Distinct(order) && TableSet(order) == keys
  }

  // ---------- the writes a startup needs ----------

  /** The writes that give states to new tables; a table listed twice is written twice. */
  function NewListed(published: seq<TableId>, known: set<TableId>): nat {
    if published == [] then 0
    else
      NewListed(published[..|published| - 1], known) + if published[|published| - 1] in known then 0 else 1
  }

  /** The visited tables that are not published. */
  function Gone(order: seq<TableId>, published: set<TableId>): seq<TableId> {
    if order == [] then []
    else
      Gone(order[..|order| - 1], published) +
      if order[|order| - 1] in published then [] else [order[|order| - 1]]
  }

  /** The writes that purge, out of `budget` that are possible: a state and a slot for each table that is gone. */
  function PurgeWrites(gone: seq<TableId>, budget: nat): nat {
    if budget < 2 * |gone| then budget else 2 * |gone|
  }

  /** The tables whose states are deleted when `budget` writes are possible. */
  function PurgedStates(gone: seq<TableId>, budget: nat): set<TableId> {
    TableSet(gone[..(PurgeWrites(gone, budget) + 1) / 2])
  }

  /** The tables whose slots are deleted when `budget` writes are possible. */
  function PurgedSlots(gone: seq<TableId>, budget: nat): set<TableId> {
    TableSet(gone[..PurgeWrites(gone, budget) / 2])
  }

  /** The table whose state is deleted by the last possible write and whose slot is not. */
  function StoppedAt(published: seq<TableId>, known: set<TableId>, order: seq<TableId>, budget: nat): Option<TableId> {
    var start, gone := NewListed(published, known), Gone(order, TableSet(published));
    if start < budget < start + 2 * |gone| && (budget - start) % 2 == 1
    then Some(gone[(budget - start) / 2])
    else None
  }

  lemma {:induction false} NewListedPrefix(published: seq<TableId>, known: set<TableId>, i: nat)
    requires i <= |published|
    ensures NewListed(published[..i], known) <= NewListed(published, known)
  {
    if i < |published| {
      NewListedPrefix(published[..|published| - 1], known, i);
      assert published[..|published| - 1][..i] == published[..i];
    } else {
      assert published[..i] == published;
    }
  }

  lemma NewListedNext(published: seq<TableId>, known: set<TableId>, i: nat)
    requires i < |published|
    ensures NewListed(published[..i + 1], known) ==
            NewListed(published[..i], known) + if published[i] in known then 0 else 1
  {
    assert published[..i + 1][..i] == published[..i];
  }

  lemma {:induction false} GonePrefix(order: seq<TableId>, published: set<TableId>, i: nat)
    requires i <= |order|
    ensures Gone(order[..i], published) <= Gone(order, published)
  {
    if i < |order| {
      GonePrefix(order[..|order| - 1], published, i);
      assert order[..|order| - 1][..i] == order[..i];
    } else {
      assert order[..i] == order;
    }
  }

  lemma GoneNext(order: seq<TableId>, published: set<TableId>, i: nat)
    requires i < |order|
    ensures Gone(order[..i + 1], published) ==
            Gone(order[..i], published) + if order[i] in published then [] else [order[i]]
    ensures Gone(order[..i + 1], published) <= Gone(order, published)
  {
    assert order[..i + 1][..i] == order[..i];
    GonePrefix(order, published, i + 1);
  }

  lemma {:induction false} GoneMembers(order: seq<TableId>, published: set<TableId>, t: TableId)
    ensures t in Gone(order, published) <==> t in order && t !in published
  {
    if order != [] {
      GoneMembers(order[..|order| - 1], published, t);
      assert order == order[..|order| - 1] + [order[|order| - 1]];
    }
  }

  lemma {:induction false} GoneDistinct(order: seq<TableId>, published: set<TableId>)
    requires Distinct(order)
    ensures Distinct(Gone(order, published))
  {
    if order != [] {
      var front, last := order[..|order| - 1], order[|order| - 1];
      GoneDistinct(front, published);
      GoneMembers(front, published, last);
      assert last !in Gone(front, published);
    }
  }

  lemma GoneTables(order: seq<TableId>, published: set<TableId>)
    requires Distinct(order)
    ensures TableSet(Gone(order, published)) == TableSet(order) - published
    ensures Distinct(Gone(order, published))
    ensures |Gone(order, published)| == |TableSet(order) - published|
  {
    forall t {
      GoneMembers(order, published, t);
    }
    assert TableSet(Gone(order, published)) == TableSet(order) - published;
    GoneDistinct(order, published);
    DistinctSize(Gone(order, published));
  }

  lemma {:induction false} DistinctSize(tables: seq<TableId>)
    requires Distinct(tables)
    ensures |TableSet(tables)| == |tables|
  {
    if tables != [] {
      var front, last := tables[..|tables| - 1], tables[|tables| - 1];
      DistinctSize(front);
      assert tables == front + [last] && last !in front;
      assert TableSet(tables) == TableSet(front) + {last};
    }
  }

  function WritesNeeded(published: seq<TableId>, known: set<TableId>): nat {
    NewListed(published, known) + 2 * |known - TableSet(published)|
  }

  /**
   A startup that made at most `budget` writes: it did what the writes account for, it settled everything if they
   sufficed, and it orphaned the slot of the table it stopped at, if there is such a table and it has a slot.
   */
  ghost predicate StartedUp(
    pipelineId: u64, published: seq<TableId>, order: seq<TableId>, budget: nat, a: Durable, b: Durable, w: Writes)
  {
    var tables, stopped := TableSet(published), Singleton(StoppedAt(published, a.states.Keys, order, budget));
    var gone := a.states.Keys - tables;
    && Accounts(pipelineId, tables, a, b, w)
    && Progressed(pipelineId, tables, a, b)
    && (budget >= WritesNeeded(published, a.states.Keys) ==>
          && w == Writes(tables, gone, gone)
          && Settled(tables, a, b)
          && b.slots == a.slots - SyncSlots(pipelineId, gone))
    && w.removed - w.dropped == stopped
    && Orphans(pipelineId, a, b) == stopped * SlotHolders(pipelineId, a)
  }

  class Pipeline {
    const id: u64
    var states: map<TableId, TableState>
    var slots: set<string>

    constructor (id: u64, durable: Durable)
      ensures this.id == id && Store() == durable
    {
      this.id := id;
      states, slots := durable.states, durable.slots;
    }

    ghost function Store(): Durable
      reads this
    {
      Durable(states, slots)
    }

    /**
     At most `budget` durable writes are made; when they do not suffice the startup is interrupted after
     exactly that many. `order` is the order in which the stored states are visited.
     */
    method InitializeTableStates(publicationExists: bool, published: seq<TableId>, order: seq<TableId>, budget: nat)
      returns (outcome: Outcome, ghost w: Writes)
      requires Lists(order, states.Keys)
      modifies this
      ensures outcome == MissingPublication <==> !publicationExists
      ensures !publicationExists ==> w == Writes({}, {}, {})
      ensures !publicationExists ==> Store() == old(Store())
      ensures outcome == Finished <==>
              publicationExists && budget >= WritesNeeded(published, old(states).Keys)
      ensures publicationExists ==> StartedUp(id, published, order, budget, old(Store()), Store(), w)
      ensures outcome == Interrupted && Distinct(published) ==> CountWrites(old(Store()), w) == budget
    {
      ghost var before := Store();
      ghost var tables := TableSet(published);
      w := Writes({}, {}, {});
      if !publicationExists {
        return MissingPublication, w;
      }
      var known := states;
      var left, done, added := AddNewTables(published, known, budget);
      w := Writes(added, {}, {});
      GoneTables(order, tables);
      if !done {
        StartupAccount(id, published, order, budget, before, Store(), w);
        return Interrupted, w;
      }
      ghost var removed, dropped;
      done, removed, dropped := PurgeRemovedTables(published, known, order, left, before);
      w := Writes(added, removed, dropped);
      PurgeAccount(Gone(order, tables), left);
      StartupAccount(id, published, order, budget, before, Store(), w);
      return if done then Finished else Interrupted, w;
    }

    method AddNewTables(published: seq<TableId>, known: map<TableId, TableState>, budget: nat)
      returns (left: nat, done: bool, ghost added: set<TableId>)
      requires states == known
      modifies this`states
      ensures added <= TableSet(published) && (done ==> added == TableSet(published))
      ensures Store() == After(id, old(Store()), added, {}, {})
      ensures done <==> budget >= NewListed(published, known.Keys)
      ensures left == if done then budget - NewListed(published, known.Keys) else 0
      ensures Distinct(published) ==> |added - known.Keys| == budget - left
    {
      left, done, added := budget, false, {};
      ghost var before := Store();
      AfterNothing(id, before);
      for i := 0 to |published|
        invariant Adding(published, known.Keys, i, budget, left, added)
        invariant Store() == After(id, before, added, {}, {})
      {
        AddNext(published, known.Keys, i, budget, left, added);
        AfterAdded(id, before, added, published[i]);
        if published[i] !in known {
          if left == 0 {
            return;
          }
          states := states[published[i] := Init];
          left := left - 1;
        }
        added := added + {published[i]};
        assert Store() == After(id, before, added, {}, {});
      }
      AllAdded(published, known.Keys, budget, left, added);
      done := true;
    }

    method PurgeRemovedTables(
      published: seq<TableId>, known: map<TableId, TableState>, order: seq<TableId>, budget: nat,
      ghost before: Durable)
      returns (done: bool, ghost removed: set<TableId>, ghost dropped: set<TableId>)
      requires known == before.states && Lists(order, known.Keys)
      requires Store() == After(id, before, TableSet(published), {}, {})
      modifies this
      ensures Store() == After(id, before, TableSet(published), removed, dropped)
      ensures removed == PurgedStates(Gone(order, TableSet(published)), budget)
      ensures dropped == PurgedSlots(Gone(order, TableSet(published)), budget)
      ensures done <==> budget >= 2 * |Gone(order, TableSet(published))|
    {
      done, removed, dropped := false, {}, {};
      var left := budget;
      var tables := TableSet(published);
      ghost var gone := Gone(order, tables);
      GoneTables(order, tables);
      for i := 0 to |order|
        invariant Purging(id, before, Store(), tables, order[..i], budget, left, removed) && dropped == removed
      {
        PurgeNext(id, before, Store(), tables, order, i, budget, left, removed);
        if order[i] !in tables {
          var purged;
          left, purged, removed, dropped := PurgeTable(order[i], left, before, tables, removed);
          if !purged {
            return;
          }
        }
      }
      PurgeAll(gone, budget);
      assert order[..|order|] == order;
      done := true;
    }

    /** Deletes the state of a table and then its slot, if the writes suffice. */
    method PurgeTable(
      table: TableId, budget: nat, ghost before: Durable, ghost tables: set<TableId>, ghost removed: set<TableId>)
      returns (left: nat, purged: bool, ghost removed': set<TableId>, ghost dropped': set<TableId>)
      requires table !in removed && Store() == After(id, before, tables, removed, removed)
      modifies this
      ensures Store() == After(id, before, tables, removed', dropped')
      ensures removed' == (if budget > 0 then removed + {table} else removed)
      ensures dropped' == (if budget > 1 then removed + {table} else removed)
      ensures purged <==> budget > 1
      ensures left == if budget > 1 then budget - 2 else 0
    {
      AfterRemoved(id, before, tables, removed, table);
      left, purged, removed', dropped' := budget, false, removed, removed;
      if left == 0 {
        return;
      }
      states := states - {table};
      left, removed' := left - 1, removed + {table};
      if left == 0 {
        return;
      }
      slots := slots - {SyncSlot(id, table)};
      left, dropped', purged := left - 1, removed + {table}, true;
    }
  }

  /** The first `i` published tables have a state, for as many writes as were new among them. */
  ghost predicate Adding(
    published: seq<TableId>, known: set<TableId>, i: nat, budget: nat, left: nat, added: set<TableId>)
  {
    && i <= |published| && added == TableSet(published[..i])
    && budget == left + NewListed(published[..i], known)
    && (Distinct(published) ==> |added - known| == budget - left)
  }

  lemma AddNext(published: seq<TableId>, known: set<TableId>, i: nat, budget: nat, left: nat, added: set<TableId>)
    requires Adding(published, known, i, budget, left, added) && i < |published|
    ensures published[i] in known ==> Adding(published, known, i + 1, budget, left, added + {published[i]})
    ensures published[i] !in known ==>
              if left == 0 then budget < NewListed(published, known) && added <= TableSet(published)
              else Adding(published, known, i + 1, budget, left - 1, added + {published[i]})
  {
    NewlyAdded(published, i, added, known);
    NewListedNext(published, known, i);
    NewListedPrefix(published, known, i + 1);
  }

  lemma AllAdded(published: seq<TableId>, known: set<TableId>, budget: nat, left: nat, added: set<TableId>)
    requires Adding(published, known, |published|, budget, left, added)
    ensures added == TableSet(published) && budget == left + NewListed(published, known)
    ensures Distinct(published) ==> |added - known| == budget - left
  {
    assert published[..|published|] == published;
  }

  /** The visited tables that are gone are purged. */
  ghost predicate Purging(
    pipelineId: u64, before: Durable, now: Durable, tables: set<TableId>, visited: seq<TableId>, budget: nat, left: nat,
    removed: set<TableId>)
  {
    && removed == TableSet(Gone(visited, tables))
    && now == After(pipelineId, before, tables, removed, removed)
    && budget == left + 2 * |Gone(visited, tables)|
  }

  lemma PurgeNext(
    pipelineId: u64, before: Durable, now: Durable, tables: set<TableId>, order: seq<TableId>, i: nat, budget: nat,
    left: nat, removed: set<TableId>)
    requires i < |order| && Distinct(order)
    requires Purging(pipelineId, before, now, tables, order[..i], budget, left, removed)
    ensures order[i] in tables ==> Purging(pipelineId, before, now, tables, order[..i + 1], budget, left, removed)
    ensures order[i] !in tables && left >= 2 ==>
              var more := removed + {order[i]};
              Purging(pipelineId, before, After(pipelineId, before, tables, more, more), tables, order[..i + 1], budget,
                      left - 2, more)
    ensures order[i] !in tables ==> order[i] !in removed
    ensures order[i] !in tables && left < 2 ==>
              var gone := Gone(order, tables);
              && budget < 2 * |gone| && PurgedSlots(gone, budget) == removed
              && PurgedStates(gone, budget) == if left == 0 then removed else removed + {order[i]}
  {
    GoneNext(order, tables, i);
    if order[i] !in tables {
      GoneTables(order, tables);
      GonePurged(Gone(order, tables), Gone(order[..i], tables), order[i], budget, removed);
    }
  }

  /** The next table that is gone, after `sofar` of them: writes that do not suffice for it are the last ones. */
  lemma GonePurged(gone: seq<TableId>, sofar: seq<TableId>, table: TableId, budget: nat, removed: set<TableId>)
    requires Distinct(gone) && sofar + [table] <= gone && removed == TableSet(sofar) && 2 * |sofar| <= budget
    ensures table !in removed && TableSet(sofar + [table]) == removed + {table}
    ensures budget < 2 * |sofar| + 2 ==>
              && budget < 2 * |gone| && PurgedSlots(gone, budget) == removed
              && PurgedStates(gone, budget) == if budget == 2 * |sofar| then removed else removed + {table}
  {
    var n := |sofar|;
    assert gone[..n + 1] == sofar + [table] && gone[..n] == sofar;
    assert gone[n] == table && forall i | 0 <= i < n :: gone[i] == sofar[i];
    assert TableSet(sofar + [table]) == removed + {table};
  }

  lemma PurgeAll(gone: seq<TableId>, budget: nat)
    ensures budget >= 2 * |gone| ==> PurgedStates(gone, budget) == PurgedSlots(gone, budget) == TableSet(gone)
  {
    assert gone[..|gone|] == gone;
  }

  /** What the purge of a startup amounts to. */
  lemma PurgeAccount(gone: seq<TableId>, budget: nat)
    requires Distinct(gone)
    ensures PurgedSlots(gone, budget) <= PurgedStates(gone, budget) <= TableSet(gone)
    ensures |PurgedStates(gone, budget)| + |PurgedSlots(gone, budget)| == PurgeWrites(gone, budget)
    ensures PurgedStates(gone, budget) - PurgedSlots(gone, budget) ==
            if budget < 2 * |gone| && budget % 2 == 1 then {gone[budget / 2]} else {}
    ensures budget >= 2 * |gone| ==> PurgedStates(gone, budget) == PurgedSlots(gone, budget) == TableSet(gone)
  {
    var writes := PurgeWrites(gone, budget);
    var states, slots := gone[..(writes + 1) / 2], gone[..writes / 2];
    DistinctSize(states);
    DistinctSize(slots);
    assert gone[..|gone|] == gone;
    if budget < 2 * |gone| && budget % 2 == 1 {
      var last := gone[budget / 2];
      assert states == slots + [last];
      assert last !in slots;
      assert PurgedStates(gone, budget) - PurgedSlots(gone, budget) == {last};
    } else {
      assert states == slots;
    }
  }

  /** The tables a startup purges, and those of them whose slots it deletes. */
  ghost predicate PurgesFrom(published: seq<TableId>, a: Durable, order: seq<TableId>, budget: nat, w: Writes) {
    var start, gone := NewListed(published, a.states.Keys), Gone(order, TableSet(published));
    if budget < start then w.removed == w.dropped == {}
    else
      && w.added == TableSet(published)
      && w.removed == PurgedStates(gone, budget - start) && w.dropped == PurgedSlots(gone, budget - start)
  }

  lemma PurgeStops(published: seq<TableId>, a: Durable, order: seq<TableId>, budget: nat, w: Writes)
    requires Lists(order, a.states.Keys) && PurgesFrom(published, a, order, budget, w)
    ensures w.dropped <= w.removed <= a.states.Keys - TableSet(published)
    ensures w.removed - w.dropped == Singleton(StoppedAt(published, a.states.Keys, order, budget))
    ensures budget >= WritesNeeded(published, a.states.Keys) ==>
              var gone := a.states.Keys - TableSet(published);
              w == Writes(TableSet(published), gone, gone)
    ensures w.removed != {} ==> w.added == TableSet(published)
  {
    var tables, start := TableSet(published), NewListed(published, a.states.Keys);
    GoneTables(order, tables);
    if budget >= start {
      PurgeAccount(Gone(order, tables), budget - start);
    }
  }

  /** The whole startup, put together from its two loops. */
  lemma StartupAccount(
    pipelineId: u64, published: seq<TableId>, order: seq<TableId>, budget: nat, a: Durable, b: Durable, w: Writes)
    requires Lists(order, a.states.Keys)
    requires b == After(pipelineId, a, w.added, w.removed, w.dropped)
    requires w.added <= TableSet(published) && PurgesFrom(published, a, order, budget, w)
    ensures StartedUp(pipelineId, published, order, budget, a, b, w)
  {
    var tables, stopped := TableSet(published), StoppedAt(published, a.states.Keys, order, budget);
    PurgeStops(published, a, order, budget, w);
    assert |Singleton(stopped)| <= 1;
    AccountsMeans(pipelineId, tables, a, b, w);
    OrphansExactly(pipelineId, tables, a, b, w);
  }

  lemma NewlyAdded(published: seq<TableId>, i: nat, added: set<TableId>, known: set<TableId>)
    requires i < |published| && added == TableSet(published[..i])
    ensures added + {published[i]} == TableSet(published[..i + 1])
    ensures published[i] in known ==> added + {published[i]} - known == added - known
    ensures Distinct(published) && published[i] !in known ==> |added + {published[i]} - known| == |added - known| + 1
  {
    var t := published[i];
    assert published[..i + 1] == published[..i] + [t];
    if t !in known {
      assert added + {t} - known == (added - known) + {t};
    } else {
      assert added + {t} - known == added - known;
    }
  }

  lemma AfterNothing(pipelineId: u64, a: Durable)
    ensures After(pipelineId, a, {}, {}, {}) == a
  {
    var b := After(pipelineId, a, {}, {}, {});
    assert SyncSlots(pipelineId, {}) == {};
    assert b.states == a.states && b.slots == a.slots;
  }

  lemma AfterAdded(pipelineId: u64, a: Durable, added: set<TableId>, t: TableId)
    ensures var b := After(pipelineId, a, added, {}, {});
            After(pipelineId, a, added + {t}, {}, {}) ==
            if t in a.states then b else Durable(b.states[t := Init], b.slots)
  {
    var b, c := After(pipelineId, a, added, {}, {}), After(pipelineId, a, added + {t}, {}, {});
    assert c.states == if t in a.states then b.states else b.states[t := Init];
  }

  lemma AfterRemoved(pipelineId: u64, a: Durable, added: set<TableId>, removed: set<TableId>, t: TableId)
    ensures var b := After(pipelineId, a, added, removed, removed);
            && After(pipelineId, a, added, removed + {t}, removed) == Durable(b.states - {t}, b.slots)
            && After(pipelineId, a, added, removed + {t}, removed + {t}) ==
               Durable(b.states - {t}, b.slots - {SyncSlot(pipelineId, t)})
  {
    var b := After(pipelineId, a, added, removed, removed);
    assert After(pipelineId, a, added, removed + {t}, removed).states == b.states - {t};
    assert SyncSlots(pipelineId, removed + {t}) == SyncSlots(pipelineId, removed) + {SyncSlot(pipelineId, t)};
    assert After(pipelineId, a, added, removed + {t}, removed + {t}).slots == b.slots - {SyncSlot(pipelineId, t)};
  }

  // ---------- interrupted startups ----------

  lemma ProgressTransitive(pipelineId: u64, published: set<TableId>, a: Durable, b: Durable, c: Durable)
    requires Progressed(pipelineId, published, a, b) && Progressed(pipelineId, published, b, c)
    ensures Progressed(pipelineId, published, a, c)
  {
    forall name | name in a.slots - c.slots
      ensures name in SyncSlots(pipelineId, a.states.Keys - published - c.states.Keys)
    {
      if name in b.slots {
        var t := SlotOwner(pipelineId, b.states.Keys - published - c.states.Keys, name);
      } else {
        var t := SlotOwner(pipelineId, a.states.Keys - published - b.states.Keys, name);
      }
    }
  }

  /** Startups on one publication, each of which may have been interrupted. */
  ghost predicate IsRestartRun(pipelineId: u64, published: set<TableId>, trace: seq<Durable>) {
    && trace != []
    && forall i | 0 <= i < |trace| - 1 :: Progressed(pipelineId, published, trace[i], trace[i + 1])
  }

  lemma {:induction false} RestartsProgress(pipelineId: u64, published: set<TableId>, trace: seq<Durable>, i: nat)
    requires IsRestartRun(pipelineId, published, trace) && i < |trace|
    ensures Progressed(pipelineId, published, trace[0], trace[i])
  {
    if i == 0 {
      AfterNothing(pipelineId, trace[0]);
      AfterProgress(pipelineId, published, trace[0], {}, {}, {});
    } else {
      RestartsProgress(pipelineId, published, trace, i - 1);
      ProgressTransitive(pipelineId, published, trace[0], trace[i - 1], trace[i]);
    }
  }

  /** However often a startup was interrupted, one that completes leaves what an uninterrupted one leaves. */
  lemma RestartsSettle(pipelineId: u64, published: set<TableId>, trace: seq<Durable>)
    requires IsRestartRun(pipelineId, published, trace) && |trace| > 1
    requires Settled(published, trace[|trace| - 2], trace[|trace| - 1])
    ensures Settled(published, trace[0], trace[|trace| - 1])
  {
    var a, b, c := trace[0], trace[|trace| - 2], trace[|trace| - 1];
    RestartsProgress(pipelineId, published, trace, |trace| - 2);
    forall t | t in published ensures c.states[t] == if t in a.states then a.states[t] else Init {
      assert t in a.states ==> t in b.states;
    }
  }

  /** At every point of every run: a slot that is gone belonged to an unpublished table without state. */
  lemma SlotsSafe(pipelineId: u64, published: set<TableId>, trace: seq<Durable>, i: nat, slot: Slot)
    requires IsRestartRun(pipelineId, published, trace) && i < |trace|
    requires Name(slot) in trace[0].slots && Name(slot) !in trace[i].slots
    ensures slot.TableSync? && slot.pipelineId == pipelineId
    ensures slot.tableId in trace[0].states && slot.tableId !in published && slot.tableId !in trace[i].states
  {
    RestartsProgress(pipelineId, published, trace, i);
    var a, b := trace[0], trace[i];
    var t := SlotOwner(pipelineId, a.states.Keys - published - b.states.Keys, Name(slot));
    NameInjective(TableSync(pipelineId, t), slot);
  }

  /** A slot left behind by an interruption stays: later startups no longer know its table. */
  lemma OrphanSlotStays(pipelineId: u64, published: set<TableId>, trace: seq<Durable>, i: nat, table: TableId)
    requires IsRestartRun(pipelineId, published, trace) && i < |trace|
    requires SyncSlot(pipelineId, table) in trace[0].slots && table !in trace[0].states
    ensures SyncSlot(pipelineId, table) in trace[i].slots
  {
    if SyncSlot(pipelineId, table) !in trace[i].slots {
      SlotsSafe(pipelineId, published, trace, i, TableSync(pipelineId, table));
      assert false;
    }
  }

  // ---------- orphaned slots ----------

  /** Tables whose state is gone while their slot is still there. */
  ghost function Orphans(pipelineId: u64, a: Durable, b: Durable): set<TableId> {
    set t | t in a.states && t !in b.states && SyncSlot(pipelineId, t) in b.slots
  }

  /** Known tables that have a slot. */
  ghost function SlotHolders(pipelineId: u64, a: Durable): set<TableId> {
    set t | t in a.states && SyncSlot(pipelineId, t) in a.slots
  }

  function Singleton<T>(o: Option<T>): set<T> {
    match o
    case None => {}
    case Some(x) => {x}
  }

  lemma SlotKept(pipelineId: u64, dropped: set<TableId>, t: TableId)
    requires t !in dropped
    ensures SyncSlot(pipelineId, t) !in SyncSlots(pipelineId, dropped)
  {
    if SyncSlot(pipelineId, t) in SyncSlots(pipelineId, dropped) {
      var u := SlotOwner(pipelineId, dropped, SyncSlot(pipelineId, t));
      NameInjective(TableSync(pipelineId, t), TableSync(pipelineId, u));
      assert false;
    }
  }

  /** A startup orphans exactly the slots of the tables it purged without reaching their slot. */
  lemma OrphansExactly(pipelineId: u64, published: set<TableId>, a: Durable, b: Durable, w: Writes)
    requires Accounts(pipelineId, published, a, b, w)
    ensures Orphans(pipelineId, a, b) == (w.removed - w.dropped) * SlotHolders(pipelineId, a)
  {
    forall t ensures t in Orphans(pipelineId, a, b) <==> t in (w.removed - w.dropped) * SlotHolders(pipelineId, a) {
      if t in w.removed - w.dropped {
        SlotKept(pipelineId, w.dropped, t);
      }
      assert t in w.dropped ==> SyncSlot(pipelineId, t) in SyncSlots(pipelineId, w.dropped);
    }
  }

  /** Restarts on one publication, with the account of each. */
  ghost predicate IsAccountedRun(pipelineId: u64, published: set<TableId>, trace: seq<Durable>, writes: seq<Writes>) {
    && |trace| == |writes| + 1
    && forall i | 0 <= i < |writes| :: Accounts(pipelineId, published, trace[i], trace[i + 1], writes[i])
  }

  /** The tables that some startup purged without reaching their slot. */
  function LeftBehind(writes: seq<Writes>): set<TableId> {
    if writes == [] then {}
    else
      var last := writes[|writes| - 1];
      LeftBehind(writes[..|writes| - 1]) + (last.removed - last.dropped)
  }

  /** The startups that left the slot of such a table. */
  ghost function Stops(pipelineId: u64, a: Durable, writes: seq<Writes>): nat {
    if writes == [] then 0
    else
      var last := writes[|writes| - 1];
      Stops(pipelineId, a, writes[..|writes| - 1]) +
      if (last.removed - last.dropped) * SlotHolders(pipelineId, a) == {} then 0 else 1
  }

  /** Orphans add up over startups: none is ever adopted again, and no table is orphaned twice. */
  lemma OrphansCompose(pipelineId: u64, published: set<TableId>, a: Durable, b: Durable, c: Durable)
    requires Progressed(pipelineId, published, a, b) && Progressed(pipelineId, published, b, c)
    ensures Orphans(pipelineId, a, c) == Orphans(pipelineId, a, b) + Orphans(pipelineId, b, c)
    ensures Orphans(pipelineId, a, b) !! Orphans(pipelineId, b, c)
  {
    var first, second := Orphans(pipelineId, a, b), Orphans(pipelineId, b, c);
    forall t | t in first ensures t in Orphans(pipelineId, a, c) {
      SlotKept(pipelineId, b.states.Keys - published - c.states.Keys, t);
    }
    forall t | t in second ensures t in Orphans(pipelineId, a, c) {
      assert t in a.states;
    }
  }

  /** A known unpublished table has its slot exactly if it had it at first. */
  lemma HoldersStay(pipelineId: u64, published: set<TableId>, a: Durable, b: Durable, t: TableId)
    requires Progressed(pipelineId, published, a, b) && t in b.states && t !in published
    ensures t in SlotHolders(pipelineId, b) <==> t in SlotHolders(pipelineId, a)
  {
    SlotKept(pipelineId, a.states.Keys - published - b.states.Keys, t);
  }

  lemma {:induction false} AccountedProgress(
    pipelineId: u64, published: set<TableId>, trace: seq<Durable>, writes: seq<Writes>)
    requires IsAccountedRun(pipelineId, published, trace, writes)
    ensures Progressed(pipelineId, published, trace[0], trace[|writes|])
    decreases |writes|
  {
    if writes == [] {
      AfterNothing(pipelineId, trace[0]);
      AfterProgress(pipelineId, published, trace[0], {}, {}, {});
    } else {
      var n := |writes| - 1;
      AccountedProgress(pipelineId, published, trace[..n + 1], writes[..n]);
      AccountsMeans(pipelineId, published, trace[n], trace[n + 1], writes[n]);
      ProgressTransitive(pipelineId, published, trace[0], trace[n], trace[n + 1]);
    }
  }

  /** However often a pipeline restarts, it orphans exactly one slot for each startup that stopped at one. */
  lemma {:induction false} OrphansOfRun(
    pipelineId: u64, published: set<TableId>, trace: seq<Durable>, writes: seq<Writes>)
    requires IsAccountedRun(pipelineId, published, trace, writes)
    ensures var orphans := Orphans(pipelineId, trace[0], trace[|writes|]);
            && orphans == LeftBehind(writes) * SlotHolders(pipelineId, trace[0])
            && |orphans| == Stops(pipelineId, trace[0], writes)
    decreases |writes|
  {
    if writes == [] {
      assert Orphans(pipelineId, trace[0], trace[0]) == {};
    } else {
      var n := |writes| - 1;
      OrphansOfRun(pipelineId, published, trace[..n + 1], writes[..n]);
      AccountedProgress(pipelineId, published, trace[..n + 1], writes[..n]);
      OrphansStep(pipelineId, published, trace[0], trace[n], trace[n + 1], writes[n]);
    }
  }

  lemma OrphansStep(pipelineId: u64, published: set<TableId>, a: Durable, b: Durable, c: Durable, w: Writes)
    requires Progressed(pipelineId, published, a, b) && Accounts(pipelineId, published, b, c, w)
    ensures var more := (w.removed - w.dropped) * SlotHolders(pipelineId, a);
            && Orphans(pipelineId, a, c) == Orphans(pipelineId, a, b) + more
            && |Orphans(pipelineId, a, c)| == |Orphans(pipelineId, a, b)| + if more == {} then 0 else 1
  {
    var more := (w.removed - w.dropped) * SlotHolders(pipelineId, a);
    AccountsMeans(pipelineId, published, b, c, w);
    OrphansCompose(pipelineId, published, a, b, c);
    OrphansExactly(pipelineId, published, b, c, w);
    forall t | t in w.removed ensures t in SlotHolders(pipelineId, b) <==> t in SlotHolders(pipelineId, a) {
      HoldersStay(pipelineId, published, a, b, t);
    }
    assert Orphans(pipelineId, b, c) == more;
    SubsetSize(more, w.removed - w.dropped);
    if more != {} {
      var t := Pick(more);
      SubsetSize({t}, more);
    }
  }

  /** A purge interrupted after its first write: the slot stays, and a complete restart does not remove it. */
  method OrphanExample() returns (pipeline: Pipeline, interrupted: Outcome, restarted: Outcome)
    ensures interrupted == Interrupted && restarted == Finished
    ensures pipeline.states == map[] && pipeline.slots == {SyncSlot(7, 1)}
  {
    var found := Durable(map[1 := Ready], {SyncSlot(7, 1)});
    pipeline := new Pipeline(7, found);
    ghost var w;
    OneGone(found);
    interrupted, w := pipeline.InitializeTableStates(true, [], [1], 1);
    ghost var left := pipeline.Store();
    assert 1 in Orphans(7, found, left) && left.states.Keys == {} && left.slots == found.slots;
    restarted, w := pipeline.InitializeTableStates(true, [], [], 2);
    assert pipeline.slots == left.slots;
  }

  lemma OneGone(a: Durable)
    requires a == Durable(map[1 := Ready], {SyncSlot(7, 1)})
    ensures Lists([1], a.states.Keys) && WritesNeeded([], a.states.Keys) == 2
    ensures StoppedAt([], a.states.Keys, [1], 1) == Some(1) && SlotHolders(7, a) == {1}
  {
    var none: seq<TableId> := [];
    assert TableSet(none) == {};
    assert TableSet([1]) == a.states.Keys && a.states.Keys - {} == {1};
    var gone := Gone([1], {});
    assert gone == [1] by {
      assert [1][..0] == none;
    }
  }
}
