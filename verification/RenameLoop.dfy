/**
 The rename loop of the planner for requests that do not account for every name in
 use: some wanted names may be held by columns that are not renamed at all. The loop
 then succeeds, reports a blocked name, or runs forever, and which of these happens
 can be told before it starts.
 */
module RenameLoop {
  import opened Finite
  import opened RenameGraph
  import opened Planner

  /** The loop's collections; `current` holds the present names of the pending renames. */
  datatype Loop =
    | Running(
        current: map<int, string>, ready: set<int>, occupied: set<string>, reserved: set<string>, sequence: nat)
    | Finished
    | Blocked(ordinal: int)
    | NotPending(ordinal: int)

  /** The first free sequence number for a temporary name. */
  ghost function FreeSequence(reserved: set<string>, ordinal: int, sequence: nat): (m: nat)
    ensures m >= sequence && TemporaryName(ordinal, m) !in reserved
    ensures forall i: nat | sequence <= i < m :: TemporaryName(ordinal, i) in reserved
    decreases |TakenFrom(reserved, ordinal, sequence)|
  {
    if TemporaryName(ordinal, sequence) !in reserved then sequence
    else
      TakenShrinks(reserved, ordinal, sequence);
      FreeSequence(reserved, ordinal, sequence + 1)
  }

  lemma TakenShrinks(reserved: set<string>, ordinal: int, sequence: nat)
    requires TemporaryName(ordinal, sequence) in reserved
    ensures |TakenFrom(reserved, ordinal, sequence + 1)| < |TakenFrom(reserved, ordinal, sequence)|
  {
    var name := TemporaryName(ordinal, sequence);
    var taken, rest := TakenFrom(reserved, ordinal, sequence), TakenFrom(reserved, ordinal, sequence + 1);
    assert name in taken;
    assert name !in rest by {
      forall m: nat | m >= sequence + 1 ensures name != TemporaryName(ordinal, m) {
        if name == TemporaryName(ordinal, m) {
          TemporaryNameInjective(ordinal, m, sequence);
          assert false;
        }
      }
    }
    assert rest <= taken;
    SubsetSize(rest, taken);
  }

  /** The renames among `keys` that wait for a name. */
  ghost function Waiters(r: Renames, keys: set<int>, name: string): set<int> {
    set p | p in keys && p in r.target && r.target[p] == name
  }

  /** Pending renames are requests. */
  ghost predicate Runnable(r: Renames, s: Loop) {
    s.Running? && s.current.Keys <= r.target.Keys
  }

  /** One round of the loop. Breaking a cycle wakes the waiter without asking whether it is still pending. */
  ghost function Step(r: Renames, s: Loop): Loop {
    if !Runnable(r, s) then s
    else if s.current == map[] then Finished
    else if s.ready != {} then
      var o := Least(s.ready);
      if o !in s.current then NotPending(o)
      else
        var current := s.current - {o};
        s.(current := current,
           ready := s.ready - {o} + Waiters(r, current.Keys, s.current[o]),
           occupied := s.occupied - {s.current[o]} + {r.target[o]})
    else
      var o := Least(s.current.Keys);
      if r.target[o] !in s.current.Values then Blocked(o)
      else
        var m := FreeSequence(s.reserved, o, s.sequence);
        var name := TemporaryName(o, m);
        s.(current := s.current[o := name],
           ready := Waiters(r, r.target.Keys, s.current[o]),
           occupied := s.occupied - {s.current[o]} + {name},
           reserved := s.reserved + {name},
           sequence := m + 1)
  }

  // ---------- what every round keeps ----------

  /** Names that the requests know: their own and those held outside of them. */
  ghost function Known(r: Renames, outside: set<string>): set<string>
    requires Valid(r)
  {
    outside + Image(r.source, r.source.Keys) + Image(r.target, r.target.Keys)
  }

  ghost function Done(r: Renames, s: Loop): set<int>
    requires s.Running?
  {
    r.target.Keys - s.current.Keys
  }

  /** A pending rename is at its old name, or at one that no request knows. */
  ghost predicate Tracked(r: Renames, outside: set<string>, s: Loop)
    requires Valid(r)
  {
    && s.Running? && s.current.Keys <= r.target.Keys && s.ready <= s.current.Keys
    && InjectiveOn(s.current, s.current.Keys)
    && (forall o | o in s.current :: s.current[o] == r.source[o] || s.current[o] !in Known(r, outside))
    && Known(r, outside) <= s.reserved && s.occupied <= s.reserved
  }

  /** The names in use are those outside, those of pending renames and those of renames that are done. */
  ghost predicate Scheduled(r: Renames, outside: set<string>, s: Loop)
    requires Valid(r) && s.Running? && s.current.Keys <= r.target.Keys
  {
    && s.occupied == outside + Image(s.current, s.current.Keys) + Image(r.target, Done(r, s))
    && outside !! Image(r.source, r.source.Keys)
    && Image(s.current, s.current.Keys) !! Image(r.target, Done(r, s))
    && (forall o :: o in s.ready <==> o in s.current && r.target[o] !in s.occupied)
  }

  ghost predicate Good(r: Renames, outside: set<string>, s: Loop)
    requires Valid(r)
  {
    Tracked(r, outside, s) && Scheduled(r, outside, s)
  }

  /** Before the loop every request is pending at its old name. */
  lemma Initially(r: Renames, outside: set<string>, s: Loop)
    requires Valid(r) && outside !! Image(r.source, r.source.Keys)
    requires s.Running? && s.current == r.source && s.occupied == outside + Image(r.source, r.source.Keys)
    requires Known(r, outside) <= s.reserved
    requires forall o :: o in s.ready <==> o in r.source && r.target[o] !in s.occupied
    ensures Good(r, outside, s)
  {
    assert Done(r, s) == {} && Image(r.target, Done(r, s)) == {};
    forall o | o in s.ready ensures o in s.current.Keys {
      assert o in r.source;
    }
  }

  /** With its name in use, a pending rename waits for a pending one or for a name outside. */
  lemma HeldBy(r: Renames, outside: set<string>, s: Loop, o: int)
    requires Valid(r) && Good(r, outside, s) && o in s.current && r.target[o] in s.occupied
    ensures r.target[o] in outside || r.target[o] in Image(s.current, s.current.Keys)
  {
  }

  lemma ImageRemove(m: map<int, string>, o: int)
    requires InjectiveOn(m, m.Keys) && o in m
    ensures Image(m - {o}, m.Keys - {o}) == Image(m, m.Keys) - {m[o]}
  {
    var rest := m - {o};
    forall v ensures v in Image(rest, rest.Keys) <==> v in Image(m, m.Keys) - {m[o]} {
      if v in Image(m, m.Keys) - {m[o]} {
        var p := Preimage(m, m.Keys, v);
        assert p in rest && rest[p] == v;
      }
    }
  }

  lemma ImageUpdate(m: map<int, string>, o: int, name: string)
    requires InjectiveOn(m, m.Keys) && o in m
    ensures Image(m[o := name], m.Keys) == Image(m, m.Keys) - {m[o]} + {name}
  {
    var u := m[o := name];
    forall v ensures v in Image(u, m.Keys) <==> v in Image(m, m.Keys) - {m[o]} + {name} {
      if v in Image(m, m.Keys) - {m[o]} {
        var p := Preimage(m, m.Keys, v);
        assert u[p] == v;
      }
      if v in Image(u, m.Keys) {
        var p := Preimage(u, m.Keys, v);
        assert p != o ==> m[p] == v;
      }
      assert u[o] == name;
    }
  }

  lemma ImageAdd(m: map<int, string>, keys: set<int>, o: int)
    requires keys <= m.Keys && o in m
    ensures Image(m, keys + {o}) == Image(m, keys) + {m[o]}
  {
  }

  lemma ReadyKeepsTracked(r: Renames, outside: set<string>, s: Loop)
    requires Valid(r) && Good(r, outside, s) && s.ready != {}
    ensures Tracked(r, outside, Step(r, s))
  {
    var o := Least(s.ready);
    assert r.target[o] in Image(r.target, r.target.Keys);
  }

  lemma ReadyKeepsSchedule(r: Renames, outside: set<string>, s: Loop)
    requires Valid(r) && Good(r, outside, s) && s.ready != {}
    ensures Scheduled(r, outside, Step(r, s))
  {
    var o, s' := Least(s.ready), Step(r, s);
    assert s'.current.Keys == s.current.Keys - {o};
    assert Done(r, s') == Done(r, s) + {o};
    ImageRemove(s.current, o);
    ImageAdd(r.target, Done(r, s), o);
    ReleasedName(r, outside, s, o);
    assert s'.occupied == outside + Image(s'.current, s'.current.Keys) + Image(r.target, Done(r, s'));
    forall p ensures p in s'.ready <==> p in s'.current && r.target[p] !in s'.occupied {
      assert p in s'.current ==> r.target[p] != r.target[o];
    }
  }

  /** The name of a pending rename belongs to nobody else. */
  lemma ReleasedName(r: Renames, outside: set<string>, s: Loop, o: int)
    requires Valid(r) && Good(r, outside, s) && o in s.current
    ensures s.current[o] in Image(s.current, s.current.Keys) && s.current[o] !in outside
    ensures s.current[o] !in Image(r.target, Done(r, s))
  {
    assert r.source[o] in Image(r.source, r.source.Keys);
  }

  /** Nothing is ready, and the first pending rename waits for another one. */
  ghost predicate Breaks(r: Renames, s: Loop) {
    && s.Running? && s.current != map[] && s.current.Keys <= r.target.Keys && s.ready == {}
    && r.target[Least(s.current.Keys)] in s.current.Values
  }

  /** Whoever waits for the name of a pending rename is pending. */
  lemma WaitersPending(r: Renames, outside: set<string>, s: Loop, o: int)
    requires Valid(r) && Good(r, outside, s) && o in s.current
    ensures Waiters(r, r.target.Keys, s.current[o]) == Waiters(r, s.current.Keys, s.current[o])
  {
    ReleasedName(r, outside, s, o);
    forall p | p in Waiters(r, r.target.Keys, s.current[o]) ensures p in s.current {
      assert p !in Done(r, s);
    }
  }

  lemma BreakKeepsTracked(r: Renames, outside: set<string>, s: Loop)
    requires Valid(r) && Good(r, outside, s) && Breaks(r, s)
    ensures Tracked(r, outside, Step(r, s))
  {
    var o, s' := Least(s.current.Keys), Step(r, s);
    WaitersPending(r, outside, s, o);
    var name := s'.current[o];
    assert name !in s.reserved;
    forall p | p in s.current && p != o ensures s.current[p] != name {
      ReleasedName(r, outside, s, p);
    }
    assert s'.current.Keys == s.current.Keys;
  }

  lemma BreakKeepsSchedule(r: Renames, outside: set<string>, s: Loop)
    requires Valid(r) && Good(r, outside, s) && Breaks(r, s)
    ensures Scheduled(r, outside, Step(r, s))
  {
    var o, s' := Least(s.current.Keys), Step(r, s);
    var name := s'.current[o];
    assert name !in s.reserved && s'.current == s.current[o := name];
    assert s'.current.Keys == s.current.Keys && Done(r, s') == Done(r, s);
    ImageUpdate(s.current, o, name);
    ReleasedName(r, outside, s, o);
    WaitersPending(r, outside, s, o);
    assert Image(r.target, Done(r, s)) <= Known(r, outside);
    assert s'.occupied == outside + Image(s'.current, s'.current.Keys) + Image(r.target, Done(r, s'));
    forall p ensures p in s'.ready <==> p in s'.current && r.target[p] !in s'.occupied {
      if p in s'.current {
        assert r.target[p] in Image(r.target, r.target.Keys) && r.target[p] != name;
      }
    }
  }

  /** A round that neither ends nor reports keeps the invariant. */
  lemma StepKeeps(r: Renames, outside: set<string>, s: Loop)
    requires Valid(r) && Good(r, outside, s) && (s.ready != {} || Breaks(r, s))
    ensures Good(r, outside, Step(r, s))
  {
    if s.ready != {} {
      ReadyKeepsTracked(r, outside, s);
      ReadyKeepsSchedule(r, outside, s);
    } else {
      BreakKeepsTracked(r, outside, s);
      BreakKeepsSchedule(r, outside, s);
    }
  }

  // ---------- renames that lead outside ----------

  /** The renames that wait for a name outside, directly or through at most `k` others. */
  ghost function Level(r: Renames, outside: set<string>, k: nat): set<int>
    requires Valid(r)
    ensures Level(r, outside, k) <= r.source.Keys
  {
    if k == 0 then set o | o in r.source && r.target[o] in outside
    else
      var less := Level(r, outside, k - 1);
      set o | o in r.source && (o in less || r.target[o] in Image(r.source, less))
  }

  ghost function Doomed(r: Renames, outside: set<string>): set<int>
    requires Valid(r)
  {
    set o | o in r.source && exists k: nat :: o in Level(r, outside, k)
  }

  /** A set whose members all wait for names outside or for each other's old names. */
  ghost predicate Stuck(r: Renames, outside: set<string>, d: set<int>)
    requires Valid(r)
  {
    d <= r.source.Keys && forall o | o in d :: r.target[o] in outside || r.target[o] in Image(r.source, d)
  }

  lemma {:induction false} LevelStuck(r: Renames, outside: set<string>, k: nat)
    requires Valid(r)
    ensures Stuck(r, outside, Level(r, outside, k))
  {
    if k > 0 {
      LevelStuck(r, outside, k - 1);
      var less, more := Level(r, outside, k - 1), Level(r, outside, k);
      assert less <= more;
      forall o | o in more ensures r.target[o] in outside || r.target[o] in Image(r.source, more) {
        if r.target[o] in Image(r.source, less) {
          var p := Preimage(r.source, less, r.target[o]);
          assert p in more;
        }
      }
    }
  }

  /** The doomed renames are stuck, and everything that waits for one of them is doomed. */
  lemma DoomedStuck(r: Renames, outside: set<string>)
    requires Valid(r)
    ensures Stuck(r, outside, Doomed(r, outside))
    ensures forall o | o in r.source && r.target[o] in outside :: o in Doomed(r, outside)
    ensures forall o | o in r.source && r.target[o] in Image(r.source, Doomed(r, outside)) :: o in Doomed(r, outside)
  {
    var d := Doomed(r, outside);
    forall o | o in d ensures r.target[o] in outside || r.target[o] in Image(r.source, d) {
      var k: nat :| o in Level(r, outside, k);
      LevelStuck(r, outside, k);
      if r.target[o] in Image(r.source, Level(r, outside, k)) {
        var p := Preimage(r.source, Level(r, outside, k), r.target[o]);
        assert p in d;
      }
    }
    forall o | o in r.source && r.target[o] in outside ensures o in d {
      assert o in Level(r, outside, 0);
    }
    forall o | o in r.source && r.target[o] in Image(r.source, d) ensures o in d {
      var p := Preimage(r.source, d, r.target[o]);
      var k: nat :| p in Level(r, outside, k);
      assert o in Level(r, outside, k + 1);
    }
  }

  /** A doomed rename that is not blocked directly waits for a stuck set of others. */
  lemma {:induction false} Downstream(r: Renames, outside: set<string>, o: int, k: nat) returns (d: set<int>)
    requires Valid(r) && o in Level(r, outside, k) && r.target[o] !in outside
    ensures Stuck(r, outside, d) && d <= Doomed(r, outside) && o !in d && r.target[o] in Image(r.source, d)
  {
    var less := Level(r, outside, k - 1);
    if o in less {
      d := Downstream(r, outside, o, k - 1);
    } else {
      d := less;
      LevelStuck(r, outside, k - 1);
    }
  }

  /** Some rename is doomed exactly if one of them wants a name outside. */
  lemma NoneDoomed(r: Renames, outside: set<string>)
    requires Valid(r)
    ensures Doomed(r, outside) == {} <==> forall o | o in r.source :: r.target[o] !in outside
  {
    if forall o | o in r.source :: r.target[o] !in outside {
      forall o, k: nat | o in r.source ensures o !in Level(r, outside, k) {
        EmptyLevel(r, outside, k);
      }
    } else {
      DoomedStuck(r, outside);
    }
  }

  lemma {:induction false} EmptyLevel(r: Renames, outside: set<string>, k: nat)
    requires Valid(r) && forall o | o in r.source :: r.target[o] !in outside
    ensures Level(r, outside, k) == {}
  {
    if k > 0 {
      EmptyLevel(r, outside, k - 1);
      assert Image(r.source, Level(r, outside, k - 1)) == {};
    }
    forall o ensures o !in Level(r, outside, k) {
      assert o in r.source ==> r.target[o] !in outside;
    }
  }

  // ---------- the first rounds ----------

  /** The doomed renames have not moved. */
  ghost predicate Waiting(r: Renames, d: set<int>, s: Loop)
    requires Valid(r)
  {
    s.Running? && d <= s.current.Keys && d <= r.source.Keys && forall o | o in d :: s.current[o] == r.source[o]
  }

  /** A stuck set that has not moved is not ready. */
  lemma StuckWaits(r: Renames, outside: set<string>, s: Loop, d: set<int>, o: int)
    requires Valid(r) && Good(r, outside, s) && Stuck(r, outside, d) && Waiting(r, d, s)
    requires o in s.current && (o in d || r.target[o] in Image(r.source, d))
    ensures o !in s.ready
  {
    if r.target[o] in Image(r.source, d) {
      var p := Preimage(r.source, d, r.target[o]);
      assert s.current[p] in Image(s.current, s.current.Keys);
    }
  }

  /** The pending renames still at their old names. */
  ghost function Unmoved(r: Renames, s: Loop): set<int>
    requires Valid(r) && s.Running?
  {
    set o | o in s.current && o in r.source && s.current[o] == r.source[o]
  }

  ghost function Work(r: Renames, s: Loop): nat
    requires Valid(r) && s.Running?
  {
    |s.current.Keys| + |Unmoved(r, s)|
  }

  /** With nothing ready, the pending renames that are not doomed trade their names, so none of them has moved. */
  lemma TradersUnmoved(r: Renames, outside: set<string>, s: Loop, o: int)
    requires Valid(r) && Good(r, outside, s) && s.ready == {} && Waiting(r, Doomed(r, outside), s)
    requires o in s.current && o !in Doomed(r, outside)
    ensures s.current[o] == r.source[o] && r.target[o] in s.current.Values
  {
    var d := Doomed(r, outside);
    var traders := s.current.Keys - d;
    DoomedStuck(r, outside);
    forall p | p in traders ensures r.target[p] in Image(s.current, traders) {
      HeldBy(r, outside, s, p);
      var q := Preimage(s.current, s.current.Keys, r.target[p]);
      if q in d {
        assert false;
      }
    }
    ImageSize(r.target, traders);
    ImageSize(s.current, traders);
    forall v | v in Image(r.target, traders) ensures v in Image(s.current, traders) {
      var p := Preimage(r.target, traders, v);
    }
    SubsetSize(Image(r.target, traders), Image(s.current, traders));
    assert s.current[o] in Image(s.current, traders);
    var p := Preimage(r.target, traders, s.current[o]);
    assert r.target[p] in Known(r, outside);
    var q := Preimage(s.current, traders, r.target[o]);
  }

  /** The loop has come to the first doomed rename. */
  ghost predicate AtDoomed(r: Renames, outside: set<string>, s: Loop)
    requires Valid(r)
  {
    && Good(r, outside, s) && Waiting(r, Doomed(r, outside), s)
    && s.current != map[] && s.ready == {} && Least(s.current.Keys) in Doomed(r, outside)
  }

  lemma ReadyWorks(r: Renames, outside: set<string>, s: Loop, d: set<int>)
    requires Valid(r) && Good(r, outside, s) && Stuck(r, outside, d) && Waiting(r, d, s) && s.ready != {}
    ensures Waiting(r, d, Step(r, s)) && Work(r, Step(r, s)) < Work(r, s)
  {
    var o, s' := Least(s.ready), Step(r, s);
    if o in d {
      StuckWaits(r, outside, s, d, o);
      assert false;
    }
    assert s'.current.Keys == s.current.Keys - {o};
    assert Unmoved(r, s') <= Unmoved(r, s);
    SubsetSize(Unmoved(r, s'), Unmoved(r, s));
    SubsetSize(s'.current.Keys, s.current.Keys);
  }

  lemma BreakWorks(r: Renames, outside: set<string>, s: Loop, d: set<int>)
    requires Valid(r) && Good(r, outside, s) && Waiting(r, d, s) && Breaks(r, s)
    requires var o := Least(s.current.Keys); o !in d && s.current[o] == r.source[o]
    ensures Waiting(r, d, Step(r, s)) && Work(r, Step(r, s)) < Work(r, s)
  {
    var o, s' := Least(s.current.Keys), Step(r, s);
    assert s'.current.Keys == s.current.Keys;
    assert r.source[o] in Known(r, outside) && s'.current[o] !in s.reserved;
    assert Unmoved(r, s') <= Unmoved(r, s) - {o};
    SubsetSize(Unmoved(r, s'), Unmoved(r, s) - {o});
  }

  /** Until it comes there, a round leaves the doomed renames alone and gets some work done. */
  lemma RoundWorks(r: Renames, outside: set<string>, s: Loop)
    requires Valid(r) && Good(r, outside, s) && Waiting(r, Doomed(r, outside), s)
    requires s.current != map[] && !AtDoomed(r, outside, s)
    ensures var s' := Step(r, s);
            Good(r, outside, s') && Waiting(r, Doomed(r, outside), s') && Work(r, s') < Work(r, s)
  {
    var d := Doomed(r, outside);
    DoomedStuck(r, outside);
    if s.ready != {} {
      ReadyWorks(r, outside, s, d);
    } else {
      TradersUnmoved(r, outside, s, Least(s.current.Keys));
      BreakWorks(r, outside, s, d);
    }
    StepKeeps(r, outside, s);
  }

  // ---------- how the loop ends ----------

  /** The state after some rounds. */
  ghost function Rounds(r: Renames, s: Loop, n: nat): Loop
    decreases n
  {
    if n == 0 then s else Rounds(r, Step(r, s), n - 1)
  }

  lemma OneMore(r: Renames, s: Loop, n: nat)
    ensures Rounds(r, s, n + 1) == Rounds(r, Step(r, s), n)
  {
  }

  ghost predicate Arrived(r: Renames, outside: set<string>, s: Loop)
    requires Valid(r)
  {
    Runnable(r, s) && if Doomed(r, outside) == {} then s.current == map[] else AtDoomed(r, outside, s)
  }

  /** The loop comes to its end or to the first doomed rename. */
  lemma {:induction false} ComesToDoomed(r: Renames, outside: set<string>, s: Loop) returns (n: nat, s': Loop)
    requires Valid(r) && Good(r, outside, s) && Waiting(r, Doomed(r, outside), s)
    ensures Rounds(r, s, n) == s' && Arrived(r, outside, s')
    decreases Work(r, s)
  {
    if s.current == map[] {
      n, s' := 0, s;
      assert Doomed(r, outside) == {};
    } else if AtDoomed(r, outside, s) {
      n, s' := 0, s;
    } else {
      RoundWorks(r, outside, s);
      n, s' := ComesToDoomed(r, outside, Step(r, s));
      OneMore(r, s, n);
      n := n + 1;
    }
  }

  /** A rename that waits for a stuck set below which nothing else is stuck keeps the loop going. */
  ghost predicate Endless(r: Renames, outside: set<string>, s: Loop, o: int, d: set<int>)
    requires Valid(r)
  {
    && Good(r, outside, s) && Stuck(r, outside, d) && Waiting(r, d, s)
    && o in s.current && r.target[o] in Image(r.source, d)
    && (forall p | p in d :: o < p)
    && forall p | p in r.source && r.target[p] in outside :: o < p
  }

  lemma EndlessStep(r: Renames, outside: set<string>, s: Loop, o: int, d: set<int>)
    requires Valid(r) && Endless(r, outside, s, o, d)
    ensures Endless(r, outside, Step(r, s), o, d)
  {
    StuckWaits(r, outside, s, d, o);
    if s.ready != {} {
      var p := Least(s.ready);
      if p in d {
        StuckWaits(r, outside, s, d, p);
        assert false;
      }
    } else {
      var p := Least(s.current.Keys);
      HeldBy(r, outside, s, p);
    }
    StepKeeps(r, outside, s);
  }

  lemma {:induction false} NeverEnds(r: Renames, outside: set<string>, s: Loop, o: int, d: set<int>, n: nat)
    requires Valid(r) && Endless(r, outside, s, o, d)
    ensures Rounds(r, s, n).Running?
    decreases n
  {
    if n > 0 {
      EndlessStep(r, outside, s, o, d);
      NeverEnds(r, outside, Step(r, s), o, d, n - 1);
      OneMore(r, s, n - 1);
    }
  }

  /** The state in which the loop starts: every request is pending, and all names that matter are reserved. */
  ghost predicate Starts(r: Renames, outside: set<string>, s: Loop) {
    && Valid(r) && outside !! Image(r.source, r.source.Keys)
    && s.Running? && s.current == r.source && s.occupied == outside + Image(r.source, r.source.Keys)
    && Known(r, outside) <= s.reserved
    && forall o :: o in s.ready <==> o in r.source && r.target[o] !in s.occupied
  }

  ghost predicate EndsAs(r: Renames, s: Loop, end: Loop) {
    exists n: nat :: Rounds(r, s, n) == end
  }

  lemma {:induction false} LastRound(r: Renames, s: Loop, n: nat)
    ensures Rounds(r, s, n + 1) == Step(r, Rounds(r, s, n))
    decreases n
  {
    OneMore(r, s, n);
    if n > 0 {
      LastRound(r, Step(r, s), n - 1);
    }
  }

  lemma {:induction false} EndStays(r: Renames, s: Loop, a: nat, b: nat)
    requires a <= b && !Rounds(r, s, a).Running?
    ensures Rounds(r, s, b) == Rounds(r, s, a)
  {
    if a < b {
      EndStays(r, s, a, b - 1);
      LastRound(r, s, b - 1);
    }
  }

  lemma OneEnd(r: Renames, s: Loop, end: Loop, other: Loop)
    requires EndsAs(r, s, end) && EndsAs(r, s, other) && !end.Running? && !other.Running?
    ensures end == other
  {
    var a: nat :| Rounds(r, s, a) == end;
    var b: nat :| Rounds(r, s, b) == other;
    if a <= b {
      EndStays(r, s, a, b);
    } else {
      EndStays(r, s, b, a);
    }
  }

  lemma Succeeds(r: Renames, outside: set<string>, s: Loop)
    requires Starts(r, outside, s) && Doomed(r, outside) == {}
    ensures EndsAs(r, s, Finished)
  {
    Initially(r, outside, s);
    var n, s' := ComesToDoomed(r, outside, s);
    LastRound(r, s, n);
    FinishesEmpty(r, s');
  }

  lemma FinishesEmpty(r: Renames, s: Loop)
    requires Runnable(r, s) && s.current == map[]
    ensures Step(r, s) == Finished
  {
  }

  lemma Reports(r: Renames, outside: set<string>, s: Loop)
    requires Starts(r, outside, s) && Doomed(r, outside) != {} && r.target[Least(Doomed(r, outside))] in outside
    ensures EndsAs(r, s, Blocked(Least(Doomed(r, outside))))
  {
    Initially(r, outside, s);
    var n, s' := ComesToDoomed(r, outside, s);
    LastRound(r, s, n);
    BlocksAt(r, outside, s');
  }

  lemma BlocksAt(r: Renames, outside: set<string>, s: Loop)
    requires Valid(r) && AtDoomed(r, outside, s) && r.target[Least(Doomed(r, outside))] in outside
    ensures Step(r, s) == Blocked(Least(Doomed(r, outside)))
  {
    var m := Least(s.current.Keys);
    assert m == Least(Doomed(r, outside));
    forall p | p in s.current ensures s.current[p] != r.target[m] {
      ReleasedName(r, outside, s, p);
    }
  }

  lemma Diverges(r: Renames, outside: set<string>, s: Loop)
    requires Starts(r, outside, s) && Doomed(r, outside) != {} && r.target[Least(Doomed(r, outside))] !in outside
    ensures forall n: nat :: Rounds(r, s, n).Running?
  {
    var m := Least(Doomed(r, outside));
    var k: nat :| m in Level(r, outside, k);
    var d := Downstream(r, outside, m, k);
    Initially(r, outside, s);
    DoomedStuck(r, outside);
    assert Endless(r, outside, s, m, d);
    forall n: nat ensures Rounds(r, s, n).Running? {
      NeverEnds(r, outside, s, m, d, n);
    }
  }

  /**
   The loop succeeds exactly if no request waits, directly or through others, for a name held outside. Otherwise
   the least ordinal that does decides: it is reported if it waits directly, and else the loop never ends.
   */
  lemma LoopOutcome(r: Renames, outside: set<string>, s: Loop)
    requires Starts(r, outside, s)
    ensures EndsAs(r, s, Finished) <==> Doomed(r, outside) == {}
    ensures forall o :: EndsAs(r, s, Blocked(o)) <==>
              && Doomed(r, outside) != {} && o == Least(Doomed(r, outside)) && r.target[o] in outside
    ensures forall o :: !EndsAs(r, s, NotPending(o))
    ensures (forall n: nat :: Rounds(r, s, n).Running?) <==>
            Doomed(r, outside) != {} && r.target[Least(Doomed(r, outside))] !in outside
  {
    if Doomed(r, outside) == {} {
      Succeeds(r, outside, s);
      OnlyEnd(r, s, Finished);
    } else if r.target[Least(Doomed(r, outside))] in outside {
      Reports(r, outside, s);
      OnlyEnd(r, s, Blocked(Least(Doomed(r, outside))));
    } else {
      Diverges(r, outside, s);
    }
  }

  lemma OnlyEnd(r: Renames, s: Loop, end: Loop)
    requires EndsAs(r, s, end) && !end.Running?
    ensures !(forall n: nat :: Rounds(r, s, n).Running?)
    ensures forall other: Loop | !other.Running? :: EndsAs(r, s, other) <==> other == end
  {
    forall other: Loop | !other.Running? && EndsAs(r, s, other) ensures other == end {
      OneEnd(r, s, end, other);
    }
    var n: nat :| Rounds(r, s, n) == end;
    assert !Rounds(r, s, n).Running?;
  }

  /** Column 1 waits for column 2, and column 2 for a name that no rename gives up. */
  lemma EndlessExample() returns (r: Renames, s: Loop)
    ensures r == Renames(map[1 := "x", 2 := "y"], map[1 := "y", 2 := "z"]) && Starts(r, {"z"}, s)
    ensures forall n: nat :: Rounds(r, s, n).Running?
  {
    r := Renames(map[1 := "x", 2 := "y"], map[1 := "y", 2 := "z"]);
    s := Running(r.source, {}, {"x", "y", "z"}, {"x", "y", "z"}, 0);
    assert Image(r.source, r.source.Keys) == {"x", "y"} by {
      assert r.source[1] == "x" && r.source[2] == "y";
    }
    assert Starts(r, {"z"}, s);
    assert 2 in Level(r, {"z"}, 0);
    assert r.target[1] == r.source[2] && r.target[1] in Image(r.source, Level(r, {"z"}, 0));
    assert 1 in Level(r, {"z"}, 1);
    assert 1 in Doomed(r, {"z"});
    LoopOutcome(r, {"z"}, s);
  }
}
