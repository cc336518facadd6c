/**
 The physical order of columns. ClickHouse encodes rows by position, so a new
 column must be added where the after schema has it. The executor tracks the
 names in a list; the list is always that of the columns in ordinal order.
 */
module ColumnLayout {
  import opened Finite
  import opened Text
  import opened Columns
  import opened Execution

  // ---------- what the executor does with its list ----------

  /** Where a name first occurs in a list, if it does. */
  function IndexOf(names: seq<string>, n: string): Option<nat> {
    if names == [] then None
    else if names[0] == n then Some(0)
    else
      match IndexOf(names[1..], n)
      case None => None
      case Some(i) => Some(i + 1)
  }

  /** A column that belongs after the one at `position` in the final order. */
  predicate Follows(final: seq<string>, n: string, position: nat) {
    IndexOf(final, n).Some? && IndexOf(final, n).value > position
  }

  /** The first place whose column belongs after the new one, or the end. */
  function InsertionIndex(current: seq<string>, final: seq<string>, position: nat): (i: nat)
    ensures i <= |current|
  {
    if current == [] || Follows(final, current[0], position) then 0
    else 1 + InsertionIndex(current[1..], final, position)
  }

  function Without(names: seq<string>, n: string): seq<string> {
    if names == [] then []
    else (if names[0] == n then [] else [names[0]]) + Without(names[1..], n)
  }

  /** The list after one operation; an added column that the final order lacks is an error. */
  function Place(names: seq<string>, final: seq<string>, op: Operation): Option<seq<string>> {
    match op
    case DropColumn(before, _) => Some(Without(names, before.name))
    case AddColumn(after, _) =>
      (match IndexOf(final, after.name)
       case None => None
       case Some(position) =>
         var i := InsertionIndex(names, final, position);
         Some(names[..i] + [after.name] + names[i..]))
    case AlterColumn(before, after, Rename) =>
      (match IndexOf(names, before.name)
       case None => Some(names)
       case Some(i) => if i < |names| then Some(names[i := after.name]) else None)
    case AlterColumn(_, _, _) => Some(names)
  }

  function Layout(names: seq<string>, final: seq<string>, ops: seq<Operation>): Option<seq<string>> {
    if ops == [] then Some(names)
    else
      match Layout(names, final, ops[..|ops| - 1])
      case None => None
      case Some(names') => Place(names', final, ops[|ops| - 1])
  }

  // ---------- columns in ordinal order ----------

  ghost predicate Ascending(order: seq<int>) {
    forall i, j | 0 <= i < j < |order| :: order[i] < order[j]
  }

  ghost predicate ListsKeys(order: seq<int>, keys: set<int>) {
    Ascending(order) && forall o :: o in order <==> o in keys
  }

  function InOrder(keys: set<int>): seq<int> {
    if keys == {} then [] else [Least(keys)] + InOrder(keys - {Least(keys)})
  }

  lemma {:induction false} InOrderLists(keys: set<int>)
    ensures ListsKeys(InOrder(keys), keys)
  {
    if keys != {} {
      var m, rest := Least(keys), InOrder(keys - {Least(keys)});
      InOrderLists(keys - {m});
      assert InOrder(keys) == [m] + rest;
      assert forall i | 0 <= i < |rest| :: rest[i] in rest && m < rest[i];
      assert forall o :: o in [m] + rest <==> o == m || o in rest;
    }
  }

  lemma {:induction false} OneOrder(a: seq<int>, b: seq<int>, keys: set<int>)
    requires ListsKeys(a, keys) && ListsKeys(b, keys)
    ensures a == b
  {
    if a == [] {
      assert forall o :: o !in b;
      HeadIn(b);
    } else if b == [] {
      HeadIn(a);
      assert false;
    } else {
      assert a[0] in a && a[0] in b && b[0] in b && b[0] in a;
      assert a[0] == b[0];
      TailLists(a, keys);
      TailLists(b, keys);
      OneOrder(a[1..], b[1..], keys - {a[0]});
    }
  }

  lemma TailLists(a: seq<int>, keys: set<int>)
    requires a != [] && ListsKeys(a, keys)
    ensures ListsKeys(a[1..], keys - {a[0]})
  {
    assert a == [a[0]] + a[1..];
    assert forall i | 0 <= i < |a| - 1 :: a[1..][i] == a[i + 1];
  }

  /** The names of a table's columns in ordinal order. */
  function NamesInOrder(t: Table): (names: seq<string>) {
    var order := InOrder(t.Keys);
    seq(|order|, i requires 0 <= i < |order| => if order[i] in t then t[order[i]].name else "")
  }

  /** A list of names that follows the columns of a table in the given order. */
  ghost predicate Matches(names: seq<string>, order: seq<int>, t: Table) {
    && ListsKeys(order, t.Keys) && |names| == |order|
    && forall i | 0 <= i < |order| :: order[i] in t && names[i] == t[order[i]].name
  }

  lemma MatchesInOrder(names: seq<string>, order: seq<int>, t: Table)
    requires ListsKeys(order, t.Keys)
    ensures Matches(names, order, t) <==> names == NamesInOrder(t)
  {
    InOrderLists(t.Keys);
    OneOrder(order, InOrder(t.Keys), t.Keys);
    assert forall i | 0 <= i < |order| :: order[i] in order && order[i] in t;
  }

  /** Names in ordinal order are the names of the table. */
  lemma NamesListed(t: Table, n: string)
    ensures n in NamesInOrder(t) <==> n in Names(t)
  {
    var order := InOrder(t.Keys);
    InOrderLists(t.Keys);
    if n in Names(t) {
      var o := OwnerOf(t, n);
      assert o in order;
      var i :| 0 <= i < |order| && order[i] == o;
      assert NamesInOrder(t)[i] == n;
    }
    if i :| 0 <= i < |order| && NamesInOrder(t)[i] == n {
      assert order[i] in order;
      assert order[i] in t && t[order[i]].name == n;
    }
  }

  // ---------- lists without repetition ----------

  lemma {:induction false} IndexOfUnique(names: seq<string>, i: nat)
    requires i < |names| && forall j | 0 <= j < i :: names[j] != names[i]
    ensures IndexOf(names, names[i]) == Some(i)
  {
    if i > 0 {
      IndexOfUnique(names[1..], i - 1);
    }
  }

  lemma {:induction false} WithoutAbsent(names: seq<string>, n: string)
    requires n !in names
    ensures Without(names, n) == names
  {
    if names != [] {
      WithoutAbsent(names[1..], n);
      assert names[0] in names;
    }
  }

  lemma {:induction false} WithoutUnique(names: seq<string>, i: nat)
    requires i < |names| && forall j | 0 <= j < |names| && j != i :: names[j] != names[i]
    ensures Without(names, names[i]) == names[..i] + names[i + 1..]
  {
    if i == 0 {
      WithoutAbsent(names[1..], names[0]);
    } else {
      WithoutUnique(names[1..], i - 1);
      assert names == [names[0]] + names[1..];
    }
  }

  lemma {:induction false} InsertionSplits(current: seq<string>, final: seq<string>, position: nat)
    ensures var i := InsertionIndex(current, final, position);
            && (forall j | 0 <= j < i :: !Follows(final, current[j], position))
            && (i < |current| ==> Follows(final, current[i], position))
  {
    if current != [] && !Follows(final, current[0], position) {
      InsertionSplits(current[1..], final, position);
      var i := InsertionIndex(current[1..], final, position);
      assert forall j | 1 <= j < i + 1 :: current[j] == current[1..][j - 1];
    }
  }

  // ---------- one operation ----------

  lemma NamesApart(names: seq<string>, order: seq<int>, t: Table)
    requires Matches(names, order, t) && DistinctNames(t)
    ensures forall i, j | 0 <= i < |names| && 0 <= j < |names| && i != j :: names[i] != names[j]
  {
    forall i, j | 0 <= i < |names| && 0 <= j < |names| && i != j ensures names[i] != names[j] {
      assert order[i] in order && order[j] in order;
      assert order[i] in t && order[j] in t;
    }
  }

  lemma PlaceOf(order: seq<int>, keys: set<int>, o: int) returns (i: nat)
    requires ListsKeys(order, keys) && o in keys
    ensures i < |order| && order[i] == o
  {
    assert o in order;
    i :| 0 <= i < |order| && order[i] == o;
  }

  lemma DropPlaced(names: seq<string>, order: seq<int>, t: Table, o: int)
    requires Matches(names, order, t) && DistinctNames(t) && o in t
    ensures Without(names, t[o].name) == NamesInOrder(t - {o})
  {
    var i := PlaceOf(order, t.Keys, o);
    NamesApart(names, order, t);
    WithoutUnique(names, i);
    RemovedLists(order, t.Keys, i);
    RemovedMatches(names, order, t, i);
  }

  lemma RemovedMatches(names: seq<string>, order: seq<int>, t: Table, i: nat)
    requires Matches(names, order, t) && i < |order|
    requires ListsKeys(order[..i] + order[i + 1..], t.Keys - {order[i]})
    ensures names[..i] + names[i + 1..] == NamesInOrder(t - {order[i]})
  {
    var u, rest, names' := t - {order[i]}, order[..i] + order[i + 1..], names[..i] + names[i + 1..];
    assert u.Keys == t.Keys - {order[i]};
    forall j | 0 <= j < |rest| ensures rest[j] in u && names'[j] == u[rest[j]].name {
      assert rest[j] in rest;
      assert rest[j] == order[if j < i then j else j + 1];
    }
    MatchesInOrder(names', rest, u);
  }

  lemma RemovedLists(order: seq<int>, keys: set<int>, i: nat)
    requires ListsKeys(order, keys) && i < |order|
    ensures ListsKeys(order[..i] + order[i + 1..], keys - {order[i]})
  {
    assert order == order[..i] + [order[i]] + order[i + 1..];
  }

  lemma InsertedLists(order: seq<int>, keys: set<int>, i: nat, o: int)
    requires ListsKeys(order, keys) && i <= |order|
    requires forall j | 0 <= j < i :: order[j] < o
    requires forall j | i <= j < |order| :: o < order[j]
    ensures ListsKeys(order[..i] + [o] + order[i..], keys + {o})
  {
    assert order == order[..i] + order[i..];
  }

  lemma ChangePlaced(names: seq<string>, order: seq<int>, t: Table, o: int, c: ColumnSchema)
    requires Matches(names, order, t) && DistinctNames(t) && o in t
    ensures IndexOf(names, t[o].name).Some? && IndexOf(names, t[o].name).value < |names|
    ensures names[IndexOf(names, t[o].name).value := c.name] == NamesInOrder(t[o := c])
  {
    var i := PlaceOf(order, t.Keys, o);
    NamesApart(names, order, t);
    IndexOfUnique(names, i);
    var u := t[o := c];
    assert u.Keys == t.Keys;
    forall j | 0 <= j < |order| ensures order[j] in u && names[i := c.name][j] == u[order[j]].name {
      assert order[j] in order && order[j] in t;
    }
    MatchesInOrder(names[i := c.name], order, u);
  }

  /** In the final order, names compare as the ordinals of their columns. */
  lemma FinalOrder(to: Table, o: int, p: int)
    requires DistinctNames(to) && o in to && p in to
    ensures IndexOf(NamesInOrder(to), to[o].name).Some? && IndexOf(NamesInOrder(to), to[p].name).Some?
    ensures Follows(NamesInOrder(to), to[p].name, IndexOf(NamesInOrder(to), to[o].name).value) <==> o < p
  {
    var order := InOrder(to.Keys);
    InOrderLists(to.Keys);
    MatchesInOrder(NamesInOrder(to), order, to);
    NamesApart(NamesInOrder(to), order, to);
    var i := PlaceOf(order, to.Keys, o);
    var j := PlaceOf(order, to.Keys, p);
    IndexOfUnique(NamesInOrder(to), i);
    IndexOfUnique(NamesInOrder(to), j);
  }

  /** An added column goes where its ordinal puts it, because the others have their final names. */
  lemma AddPlaced(names: seq<string>, order: seq<int>, t: Table, to: Table, c: ColumnSchema)
    requires Matches(names, order, t) && DistinctNames(to) && c.ordinal !in t
    requires c.ordinal in to && to[c.ordinal].name == c.name
    requires forall o | o in t :: o in to && t[o].name == to[o].name
    ensures IndexOf(NamesInOrder(to), c.name).Some?
    ensures var position := IndexOf(NamesInOrder(to), c.name).value;
            var i := InsertionIndex(names, NamesInOrder(to), position);
            names[..i] + [c.name] + names[i..] == NamesInOrder(t[c.ordinal := c])
  {
    var final, o := NamesInOrder(to), c.ordinal;
    FinalOrder(to, o, o);
    var position := IndexOf(final, c.name).value;
    var i := InsertionIndex(names, final, position);
    InsertionSplits(names, final, position);
    forall j | 0 <= j < |order| ensures Follows(final, names[j], position) <==> o < order[j] {
      assert order[j] in order && order[j] in t;
      FinalOrder(to, o, order[j]);
    }
    forall j | 0 <= j < |order| ensures order[j] != o {
      assert order[j] in order && order[j] in t;
    }
    InsertedLists(order, t.Keys, i, o);
    InsertedMatches(names, order, t, c, i);
  }

  lemma InsertedMatches(names: seq<string>, order: seq<int>, t: Table, c: ColumnSchema, i: nat)
    requires Matches(names, order, t) && c.ordinal !in t && i <= |order|
    requires ListsKeys(order[..i] + [c.ordinal] + order[i..], t.Keys + {c.ordinal})
    ensures names[..i] + [c.name] + names[i..] == NamesInOrder(t[c.ordinal := c])
  {
    var u, more, names' := t[c.ordinal := c], order[..i] + [c.ordinal] + order[i..], names[..i] + [c.name] + names[i..];
    assert u.Keys == t.Keys + {c.ordinal};
    forall j | 0 <= j < |more| ensures more[j] in u && names'[j] == u[more[j]].name {
      if j < i {
        assert order[j] in order && order[j] in t;
      } else if j > i {
        assert order[j - 1] in order && order[j - 1] in t;
      }
    }
    MatchesInOrder(names', more, u);
  }

  /** One operation keeps the list in ordinal order. */
  lemma PlaceStep(t: Table, to: Table, op: Operation)
    requires KeyedByOrdinal(t) && DistinctNames(t) && DistinctNames(to) && Apply(t, op).Some?
    requires op.AddColumn? ==>
               && op.after.ordinal in to && to[op.after.ordinal].name == op.after.name
               && forall o | o in t :: o in to && t[o].name == to[o].name
    ensures Place(NamesInOrder(t), NamesInOrder(to), op) == Some(NamesInOrder(Apply(t, op).value))
  {
    var names, order := NamesInOrder(t), InOrder(t.Keys);
    InOrderLists(t.Keys);
    MatchesInOrder(names, order, t);
    match op
    case DropColumn(before, _) => DropPlaced(names, order, t, before.ordinal);
    case AddColumn(after, _) => AddPlaced(names, order, t, to, after);
    case AlterColumn(before, after, kind) =>
      ChangePlaced(names, order, t, before.ordinal, after);
      if !kind.Rename? {
        NamesApart(names, order, t);
        var i := PlaceOf(order, t.Keys, before.ordinal);
        IndexOfUnique(names, i);
        assert names[i := after.name] == names;
      }
  }
}
