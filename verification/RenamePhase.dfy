/**
 The rename phase of the schema planner as a scheduling problem. `RenameState`
 is what the planner's collections mean at the head of its rename loop; the two
 step lemmas say that running a ready rename and breaking a cycle keep it.
 */
module RenamePhase {
  import opened Finite
  import opened Text
  import opened Columns
  import opened Execution
  import opened RenameGraph

  /** A rename not finished yet: the column as it is now, and its final name. */
  datatype PendingRename = PendingRename(before: ColumnSchema, afterName: string)

  /** The requests that move a column of `t` to a different wanted name. */
  ghost function Requests(t: Table, want: map<int, string>): Renames
    requires t.Keys == want.Keys
  {
    Renames(map o | o in t && t[o].name != want[o] :: t[o].name,
            map o | o in t && t[o].name != want[o] :: want[o])
  }

  ghost predicate Wanted(t: Table, want: map<int, string>) {
    && KeyedByOrdinal(t) && DistinctNames(t)
    && t.Keys == want.Keys
    && InjectiveOn(want, want.Keys)
  }

  lemma RequestsValid(t: Table, want: map<int, string>)
    requires Wanted(t, want)
    ensures Valid(Requests(t, want))
  {
  }

  /**
   `first` is the table when the phase starts, `table` the table now, `endpoint`
   the names of both endpoints, `temporary` the generated names and `broken` the
   cycles broken so far.
   */
  datatype RenameState = RenameState(
    first: Table, want: map<int, string>, graph: Renames, endpoint: set<string>,
    table: Table, pending: map<int, PendingRename>, ready: set<int>,
    temporary: set<string>, broken: set<set<int>>)

  /** Every column keeps everything but its name, and has its wanted name once it is done. */
  ghost predicate Tracked(s: RenameState) {
    && Wanted(s.first, s.want)
    && s.graph == Requests(s.first, s.want)
    && Names(s.first) <= s.endpoint
    && (forall o | o in s.want :: s.want[o] in s.endpoint)
    && s.temporary !! s.endpoint
    && s.table.Keys == s.first.Keys
    && DistinctNames(s.table)
    && s.pending.Keys <= s.graph.source.Keys
    && (forall o | o in s.table && o !in s.pending :: s.table[o] == s.first[o].(name := s.want[o]))
    && (forall o | o in s.pending ::
          && s.pending[o] == PendingRename(s.table[o], s.want[o])
          && s.table[o] == s.first[o].(name := s.table[o].name)
          && (s.table[o].name == s.first[o].name || s.table[o].name in s.temporary))
  }

  /** The ready set is exactly the pending renames whose wanted name is free. */
  ghost predicate Scheduled(s: RenameState)
    requires s.pending.Keys <= s.want.Keys
  {
    forall o :: o in s.ready <==> o in s.pending && s.want[o] !in Names(s.table)
  }

  ghost predicate Untouched(s: RenameState, o: int) {
    o in s.pending && o in s.table && o in s.first && s.table[o].name == s.first[o].name
  }

  ghost predicate Moved(s: RenameState, c: set<int>) {
    exists o | o in c :: !Untouched(s, o)
  }

  /** A cycle is broken once, and until then none of its members has moved. */
  ghost predicate CyclesTracked(s: RenameState) {
    && Valid(s.graph)
    && s.broken <= Cycles(s.graph)
    && (forall c, o | c in Cycles(s.graph) && c !in s.broken && o in c :: Untouched(s, o))
    && (forall c | c in s.broken :: Moved(s, c))
    && |s.temporary| == |s.broken|
  }

  ghost predicate Inv(s: RenameState) {
    Tracked(s) && Scheduled(s) && CyclesTracked(s)
  }

  lemma NamesUpdate(t: Table, o: int, c: ColumnSchema)
    requires DistinctNames(t) && o in t
    ensures Names(t[o := c]) == Names(t) - {t[o].name} + {c.name}
  {
    var u := t[o := c];
    forall n ensures n in Names(u) <==> n in Names(t) - {t[o].name} + {c.name} {
      if n in Names(u) {
        var p := OwnerOf(u, n);
        assert p != o ==> t[p].name == n;
      }
      if n in Names(t) - {t[o].name} {
        var p := OwnerOf(t, n);
        assert u[p].name == n;
      }
      assert u[o].name == c.name;
    }
  }

  function Move(c: ColumnSchema, name: string): Operation {
    AlterColumn(c, c.(name := name), Rename)
  }

  /** Moving a column to a name nobody has keeps names distinct. */
  lemma MoveApplies(t: Table, o: int, name: string)
    requires KeyedByOrdinal(t) && DistinctNames(t) && o in t && name !in Names(t)
    ensures var t' := t[o := t[o].(name := name)];
            && Apply(t, Move(t[o], name)) == Some(t')
            && KeyedByOrdinal(t') && DistinctNames(t')
            && Names(t') == Names(t) - {t[o].name} + {name}
  {
    assert t[o].name in Names(t);
    NamesUpdate(t, o, t[o].(name := name));
    forall p | p in t ensures t[p].name != name {
      assert t[p].name in Names(t);
    }
  }

  lemma TableKeyed(s: RenameState)
    requires Tracked(s)
    ensures KeyedByOrdinal(s.table)
  {
    forall o | o in s.table ensures s.table[o].ordinal == o {
      assert o in s.first;
    }
  }

  /** Before the loop every request is pending and no cycle has been broken. */
  lemma Initially(s: RenameState)
    requires Wanted(s.first, s.want) && s.graph == Requests(s.first, s.want) && s.table == s.first
    requires Names(s.first) <= s.endpoint && forall o | o in s.want :: s.want[o] in s.endpoint
    requires s.pending.Keys == s.graph.source.Keys
    requires forall o | o in s.pending :: s.pending[o] == PendingRename(s.first[o], s.want[o])
    requires Scheduled(s) && s.temporary == {} && s.broken == {}
    ensures Inv(s)
  {
    RequestsValid(s.first, s.want);
    forall c, o | c in Cycles(s.graph) && o in c ensures Untouched(s, o) {
      assert o in s.graph.source;
    }
  }

  // ---------- a ready rename ----------

  ghost function AfterReady(s: RenameState, o: int): (s': RenameState)
    requires Tracked(s) && o in s.pending
    ensures s'.first == s.first && s'.want == s.want && s'.graph == s.graph && s'.endpoint == s.endpoint
  {
    var pending := s.pending - {o};
    s.(table := s.table[o := s.table[o].(name := s.want[o])],
       pending := pending,
       ready := s.ready - {o} + (set p | p in pending && s.want[p] == s.table[o].name))
  }

  lemma ReadyStep(s: RenameState, o: int)
    requires Inv(s) && o in s.ready
    ensures var s' := AfterReady(s, o);
            && Apply(s.table, Move(s.table[o], s.want[o])) == Some(s'.table)
            && Inv(s')
            && Names(s'.table) == Names(s.table) - {s.table[o].name} + {s.want[o]}
  {
    TableKeyed(s);
    MoveApplies(s.table, o, s.want[o]);
    ReadyKeepsTracked(s, o);
    ReadyKeepsSchedule(s, o);
    ReadyKeepsCycles(s, o);
  }

  lemma ReadyKeepsTracked(s: RenameState, o: int)
    requires Tracked(s) && o in s.pending
    requires DistinctNames(s.table[o := s.table[o].(name := s.want[o])])
    ensures Tracked(AfterReady(s, o))
  {
  }

  lemma ReadyKeepsSchedule(s: RenameState, o: int)
    requires Tracked(s) && Scheduled(s) && o in s.ready
    requires Names(s.table[o := s.table[o].(name := s.want[o])]) == Names(s.table) - {s.table[o].name} + {s.want[o]}
    ensures Scheduled(AfterReady(s, o))
  {
  }

  /** A member of an unmoved closed set waits for a name that is still taken. */
  lemma UnmovedWaits(s: RenameState, c: set<int>, o: int)
    requires Tracked(s) && Valid(s.graph) && Closed(s.graph, c) && o in c
    requires forall p | p in c :: Untouched(s, p)
    ensures s.want[o] in Names(s.table)
  {
    var g := s.graph;
    var q := Preimage(g.source, c, g.target[o]);
    assert s.table[q].name == s.want[o];
  }

  lemma ReadyKeepsCycles(s: RenameState, o: int)
    requires Inv(s) && o in s.ready
    ensures CyclesTracked(AfterReady(s, o))
  {
    var g, s' := s.graph, AfterReady(s, o);
    forall c, p | c in Cycles(g) && c !in s.broken && p in c ensures Untouched(s', p) {
      UnmovedWaits(s, c, p);
      assert p != o;
    }
    forall c | c in s.broken ensures Moved(s', c) {
      var p :| p in c && !Untouched(s, p);
      assert !Untouched(s', p);
    }
  }

  // ---------- breaking a cycle ----------

  /** A blocked rename is blocked by a pending rename that has not moved. */
  lemma BlockedBy(s: RenameState, o: int) returns (q: int)
    requires Tracked(s) && o in s.pending && s.want[o] in Names(s.table)
    ensures Untouched(s, q) && s.first[q].name == s.want[o]
  {
    q := OwnerOf(s.table, s.want[o]);
    assert q in s.pending;
  }

  lemma StuckIsClosed(s: RenameState)
    requires Tracked(s) && Scheduled(s) && s.ready == {} && Valid(s.graph)
    ensures Closed(s.graph, s.pending.Keys)
  {
    var g, keys := s.graph, s.pending.Keys;
    forall o | o in keys ensures g.target[o] in Image(g.source, keys) {
      var q := BlockedBy(s, o);
      assert g.source[q] == g.target[o];
    }
  }

  /** With nothing ready, the pending renames permute their names and none has moved. */
  lemma StuckIsPermutation(s: RenameState)
    requires Tracked(s) && Scheduled(s) && s.ready == {} && Valid(s.graph)
    ensures Closed(s.graph, s.pending.Keys)
    ensures forall o | o in s.pending :: Untouched(s, o)
  {
    var g, keys := s.graph, s.pending.Keys;
    StuckIsClosed(s);
    ClosedIsPermutation(g, keys);
    forall q | q in keys ensures Untouched(s, q) {
      assert g.source[q] in Image(g.source, keys);
      var o := Preimage(g.target, keys, g.source[q]);
      var p := BlockedBy(s, o);
      assert p == q;
    }
  }

  ghost function AfterBreak(s: RenameState, o: int, name: string, cycle: set<int>): (s': RenameState)
    requires Tracked(s) && o in s.pending
    ensures s'.first == s.first && s'.want == s.want && s'.graph == s.graph && s'.endpoint == s.endpoint
  {
    var column := s.table[o].(name := name);
    s.(table := s.table[o := column],
       pending := s.pending[o := PendingRename(column, s.want[o])],
       ready := (set p | p in s.pending && s.want[p] == s.table[o].name),
       temporary := s.temporary + {name},
       broken := s.broken + {cycle})
  }

  lemma FreshIsFree(s: RenameState, name: string)
    requires Tracked(s) && name !in s.endpoint && name !in s.temporary
    ensures name !in Names(s.table)
  {
    forall p | p in s.table ensures s.table[p].name != name {
      assert s.first[p].name in Names(s.first);
    }
  }

  lemma BreakStep(s: RenameState, o: int, name: string) returns (cycle: set<int>)
    requires Inv(s) && s.ready == {} && o in s.pending
    requires name !in s.endpoint && name !in s.temporary
    ensures cycle !in s.broken
    ensures var s' := AfterBreak(s, o, name, cycle);
            && Apply(s.table, Move(s.table[o], name)) == Some(s'.table)
            && Inv(s')
            && Names(s'.table) == Names(s.table) - {s.table[o].name} + {name}
            && s'.ready != {}
  {
    var g, keys := s.graph, s.pending.Keys;
    StuckIsPermutation(s);
    cycle := CycleThrough(g, keys, o);
    assert cycle in Cycles(g);
    TableKeyed(s);
    FreshIsFree(s, name);
    MoveApplies(s.table, o, name);
    BreakWakes(s, o, name, cycle);
    BreakKeepsTracked(s, o, name, cycle);
    BreakKeepsSchedule(s, o, name, cycle);
    UnmovedIsUnbroken(s, cycle);
    BreakKeepsCycles(s, o, name, cycle);
  }

  /** Releasing a name of the permutation readies the rename that wants it. */
  lemma BreakWakes(s: RenameState, o: int, name: string, cycle: set<int>)
    requires Tracked(s) && Valid(s.graph) && o in s.pending && Untouched(s, o)
    requires Closed(s.graph, s.pending.Keys)
    ensures AfterBreak(s, o, name, cycle).ready != {}
  {
    var g, keys := s.graph, s.pending.Keys;
    ClosedIsPermutation(g, keys);
    assert g.source[o] in Image(g.source, keys);
    var w := Preimage(g.target, keys, g.source[o]);
    assert w in AfterBreak(s, o, name, cycle).ready;
  }

  lemma BreakKeepsSchedule(s: RenameState, o: int, name: string, cycle: set<int>)
    requires Tracked(s) && Scheduled(s) && s.ready == {} && o in s.pending
    requires name !in s.endpoint
    requires Names(s.table[o := s.table[o].(name := name)]) == Names(s.table) - {s.table[o].name} + {name}
    ensures Scheduled(AfterBreak(s, o, name, cycle))
  {
  }

  lemma BreakKeepsTracked(s: RenameState, o: int, name: string, cycle: set<int>)
    requires Tracked(s) && o in s.pending && name !in s.endpoint
    requires DistinctNames(s.table[o := s.table[o].(name := name)])
    ensures Tracked(AfterBreak(s, o, name, cycle))
  {
  }

  lemma BreakKeepsUnbroken(s: RenameState, o: int, name: string, cycle: set<int>, c: set<int>, p: int)
    requires Tracked(s) && CyclesTracked(s) && o in s.pending
    requires cycle in Cycles(s.graph) && o in cycle
    requires c in Cycles(s.graph) && c !in s.broken && c != cycle && p in c
    ensures Untouched(AfterBreak(s, o, name, cycle), p)
  {
    if p == o {
      CyclesDisjoint(s.graph, c, cycle, o);
      assert false;
    }
  }

  lemma BreakKeepsBroken(s: RenameState, o: int, name: string, cycle: set<int>, c: set<int>)
    requires Tracked(s) && o in s.pending && name !in s.endpoint && Moved(s, c)
    ensures Moved(AfterBreak(s, o, name, cycle), c)
  {
    var p :| p in c && !Untouched(s, p);
    assert s.first[o].name in Names(s.first);
    assert !Untouched(AfterBreak(s, o, name, cycle), p);
  }

  /** An unmoved cycle has not been broken before. */
  lemma UnmovedIsUnbroken(s: RenameState, cycle: set<int>)
    requires CyclesTracked(s) && forall p | p in cycle :: Untouched(s, p)
    ensures cycle !in s.broken
  {
    assert !Moved(s, cycle);
  }

  lemma BreakMoves(s: RenameState, o: int, name: string, cycle: set<int>)
    requires Tracked(s) && o in s.pending && name !in s.endpoint && o in cycle
    ensures Moved(AfterBreak(s, o, name, cycle), cycle)
  {
    assert s.first[o].name in Names(s.first);
    assert !Untouched(AfterBreak(s, o, name, cycle), o);
  }

  lemma BreakKeepsCycles(s: RenameState, o: int, name: string, cycle: set<int>)
    requires Tracked(s) && CyclesTracked(s) && o in s.pending
    requires name !in s.endpoint && name !in s.temporary
    requires cycle in Cycles(s.graph) && o in cycle && cycle !in s.broken
    ensures CyclesTracked(AfterBreak(s, o, name, cycle))
  {
    var s' := AfterBreak(s, o, name, cycle);
    forall c, p | c in Cycles(s.graph) && c !in s'.broken && p in c ensures Untouched(s', p) {
      BreakKeepsUnbroken(s, o, name, cycle, c, p);
    }
    forall c | c in s'.broken ensures Moved(s', c) {
      if c == cycle {
        BreakMoves(s, o, name, cycle);
      } else {
        BreakKeepsBroken(s, o, name, cycle, c);
      }
    }
    AddedSize(s.temporary, name);
    AddedSize(s.broken, cycle);
  }

  // ---------- the end of the phase ----------

  /** When nothing is pending every column has its wanted name and every cycle was broken once. */
  lemma Finished(s: RenameState)
    requires Inv(s) && s.pending == map[]
    ensures s.table == map o | o in s.first :: s.first[o].(name := s.want[o])
    ensures s.broken == Cycles(s.graph)
  {
    var done := map o | o in s.first :: s.first[o].(name := s.want[o]);
    forall o | o in s.table ensures s.table[o] == done[o] {}
    forall c | c in Cycles(s.graph) ensures c in s.broken {
      var o := Pick(c);
      assert !Untouched(s, o);
    }
  }
}
