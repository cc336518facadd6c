/**
 Rename requests as a graph. Logical column `o` wants to move from name
 `source[o]` to name `target[o]`; it waits for the request that owns its target
 name. Both name maps are injective, so the graph is made of chains and cycles.
 */
module RenameGraph {
  import opened Finite

  datatype Renames = Renames(source: map<int, string>, target: map<int, string>)

  ghost predicate Valid(r: Renames) {
    && r.source.Keys == r.target.Keys
    && InjectiveOn(r.source, r.source.Keys)
    && InjectiveOn(r.target, r.target.Keys)
  }

  /** Every member's target name is another member's source name. */
  ghost predicate Closed(r: Renames, s: set<int>)
    requires Valid(r)
  {
    && s <= r.source.Keys
    && forall o | o in s :: r.target[o] in Image(r.source, s)
  }

  /** A cycle is a smallest non-empty closed set of requests. */
  ghost predicate IsCycle(r: Renames, s: set<int>)
    requires Valid(r)
  {
    && s != {}
    && Closed(r, s)
    && forall t | t != {} && t < s :: !Closed(r, t)
  }

  ghost function Cycles(r: Renames): set<set<int>>
    requires Valid(r)
  {
    set s | s <= r.source.Keys && IsCycle(r, s)
  }

  /** In a closed set every source name is also wanted by a member: the names are permuted. */
  lemma ClosedIsPermutation(r: Renames, s: set<int>)
    requires Valid(r) && Closed(r, s)
    ensures Image(r.target, s) == Image(r.source, s)
  {
    ImageSize(r.source, s);
    ImageSize(r.target, s);
    forall v | v in Image(r.target, s)
      ensures v in Image(r.source, s)
    {
      var o := Preimage(r.target, s, v);
    }
    SubsetSize(Image(r.target, s), Image(r.source, s));
  }

  lemma ClosedDifference(r: Renames, s: set<int>, t: set<int>)
    requires Valid(r) && Closed(r, s) && Closed(r, t) && t <= s
    ensures Closed(r, s - t)
  {
    ClosedIsPermutation(r, t);
    forall o | o in s - t
      ensures r.target[o] in Image(r.source, s - t)
    {
      assert r.target[o] !in Image(r.target, t);
      var p := Preimage(r.source, s, r.target[o]);
      assert p !in t;
    }
  }

  /** Every member of a closed set lies on a cycle inside that set. */
  lemma {:induction false} CycleThrough(r: Renames, s: set<int>, o: int) returns (c: set<int>)
    requires Valid(r) && Closed(r, s) && o in s
    ensures IsCycle(r, c) && o in c && c <= s
    decreases |s|
  {
    if t :| t != {} && t < s && Closed(r, t) {
      var smaller := if o in t then t else s - t;
      if o !in t {
        ClosedDifference(r, s, t);
        var x := Pick(t);
        assert x in s && x !in s - t;
      }
      assert smaller < s;
      SubsetSize(smaller, s);
      c := CycleThrough(r, smaller, o);
    } else {
      c := s;
    }
  }

  /** Two cycles that share a request are the same cycle. */
  lemma CyclesDisjoint(r: Renames, a: set<int>, b: set<int>, o: int)
    requires Valid(r) && IsCycle(r, a) && IsCycle(r, b) && o in a && o in b
    ensures a == b
  {
    var both := a * b;
    forall x | x in both
      ensures r.target[x] in Image(r.source, both)
    {
      var p := Preimage(r.source, a, r.target[x]);
      var q := Preimage(r.source, b, r.target[x]);
      assert p == q;
    }
    assert o in both;
    assert Closed(r, both);
    assert !(both < a) && !(both < b);
  }

  /** Some request lies on a cycle exactly when some non-empty set of requests is closed. */
  lemma HasCycle(r: Renames)
    requires Valid(r)
    ensures Cycles(r) != {} <==> exists s :: s != {} && Closed(r, s)
  {
    if s :| s != {} && Closed(r, s) {
      var c := CycleThrough(r, s, Pick(s));
      assert c in Cycles(r);
    }
    if Cycles(r) != {} {
      var c := Pick(Cycles(r));
      assert c != {} && Closed(r, c);
    }
  }
}
