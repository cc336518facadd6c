/**
 The difference between two replicated schemas: a merge over columns sorted by
 ordinal, proved equal to the set-theoretic classification of logical columns.
 */
module SchemaDiff {
  import opened Text
  import opened Columns
  import opened Finite

  /** Why a column entered or left the replicated schema. */
  datatype PresenceReason = TableSchemaChange | ReplicationMaskChange

  datatype ColumnAddition = ColumnAddition(column: ColumnSchema, reason: PresenceReason)

  datatype ColumnRemoval = ColumnRemoval(column: ColumnSchema, reason: PresenceReason)

  datatype ColumnMetadataChange = ColumnMetadataChange(before: ColumnSchema, after: ColumnSchema) {
    predicate NameChanged() {
      before.name != after.name
    }

    predicate DataTypeChanged() {
      before.typ != after.typ || before.modifier != after.modifier
    }

    predicate NullabilityChanged() {
      before.nullable != after.nullable
    }

    predicate DefaultChanged() {
      before.defaultExpression != after.defaultExpression
    }

    predicate PrimaryKeyChanged() {
      before.primaryKeyOrdinal != after.primaryKeyOrdinal
    }

    predicate HasChanges() {
      || NameChanged()
      || DataTypeChanged()
      || NullabilityChanged()
      || DefaultChanged()
      || PrimaryKeyChanged()
    }
  }

  datatype Diff = Diff(
    added: seq<ColumnAddition>,
    dropped: seq<ColumnRemoval>,
    altered: seq<ColumnMetadataChange>)
  {
    predicate IsEmpty() {
      added == [] && dropped == [] && altered == []
    }
  }

  function Reason(otherTable: ReplicatedTableSchema, ordinal: int): PresenceReason {
    if ordinal in Ordinals(otherTable.table.columns) then ReplicationMaskChange else TableSchemaChange
  }

  ghost predicate IsAddition(before: ReplicatedTableSchema, after: ReplicatedTableSchema, a: ColumnAddition) {
    && a.column in after.Columns()
    && a.column.ordinal !in Ordinals(before.Columns())
    && a.reason == Reason(before, a.column.ordinal)
  }

  ghost predicate IsRemoval(before: ReplicatedTableSchema, after: ReplicatedTableSchema, r: ColumnRemoval) {
    && r.column in before.Columns()
    && r.column.ordinal !in Ordinals(after.Columns())
    && r.reason == Reason(after, r.column.ordinal)
  }

  ghost predicate IsChange(before: ReplicatedTableSchema, after: ReplicatedTableSchema, m: ColumnMetadataChange) {
    && m.before in before.Columns()
    && m.after in after.Columns()
    && m.before.ordinal == m.after.ordinal
    && m.before != m.after
  }

  ghost predicate AscendingAdditions(added: seq<ColumnAddition>) {
    forall i, j | 0 <= i < j < |added| :: added[i].column.ordinal < added[j].column.ordinal
  }

  ghost predicate AscendingRemovals(dropped: seq<ColumnRemoval>) {
    forall i, j | 0 <= i < j < |dropped| :: dropped[i].column.ordinal < dropped[j].column.ordinal
  }

  ghost predicate AscendingChanges(altered: seq<ColumnMetadataChange>) {
    forall i, j | 0 <= i < j < |altered| :: altered[i].before.ordinal < altered[j].before.ordinal
  }

  /**
   The classification of logical columns: each list holds exactly the columns
   of its kind, once each, in ordinal order.
   */
  ghost predicate IsDiff(before: ReplicatedTableSchema, after: ReplicatedTableSchema, d: Diff) {
    && (forall a :: a in d.added <==> IsAddition(before, after, a))
    && (forall r :: r in d.dropped <==> IsRemoval(before, after, r))
    && (forall m :: m in d.altered <==> IsChange(before, after, m))
    && AscendingAdditions(d.added)
    && AscendingRemovals(d.dropped)
    && AscendingChanges(d.altered)
  }

  // ---------- the merge ----------

  ghost predicate Sorted(columns: seq<ColumnSchema>) {
    forall i, j | 0 <= i < j < |columns| :: columns[i].ordinal < columns[j].ordinal
  }

  function Insert(c: ColumnSchema, columns: seq<ColumnSchema>): (r: seq<ColumnSchema>)
    ensures forall x :: x in r <==> x == c || x in columns
    ensures Sorted(columns) && (forall x | x in columns :: x.ordinal != c.ordinal) ==> Sorted(r)
  {
    if columns == [] || c.ordinal < columns[0].ordinal then
      [c] + columns
    else
      var rest := Insert(c, columns[1..]);
      assert columns == [columns[0]] + columns[1..];
      assert Sorted(columns) && c.ordinal != columns[0].ordinal ==>
          forall x | x in rest :: columns[0].ordinal < x.ordinal;
      [columns[0]] + rest
  }

  /** With distinct ordinals every sort by ordinal gives this sequence. */
  function SortByOrdinal(columns: seq<ColumnSchema>): (r: seq<ColumnSchema>)
    ensures forall x :: x in r <==> x in columns
    ensures DistinctOrdinals(columns) ==> Sorted(r)
  {
    if columns == [] then []
    else
      assert columns == [columns[0]] + columns[1..];
      Insert(columns[0], SortByOrdinal(columns[1..]))
  }

  /** The merge has consumed `bs[..i]` and `cs[..j]`, all below what is left on the other side. */
  ghost predicate Frontier(
    before: ReplicatedTableSchema, after: ReplicatedTableSchema,
    bs: seq<ColumnSchema>, i: nat, cs: seq<ColumnSchema>, j: nat)
  {
    && i <= |bs| && j <= |cs| && Sorted(bs) && Sorted(cs)
    && (forall c :: c in bs <==> c in before.Columns())
    && (forall c :: c in cs <==> c in after.Columns())
    && (forall k, l | 0 <= k < i && j <= l < |cs| :: bs[k].ordinal < cs[l].ordinal)
    && (forall k, l | i <= k < |bs| && 0 <= l < j :: cs[l].ordinal < bs[k].ordinal)
  }

  ghost predicate AddedFrom(
    before: ReplicatedTableSchema, after: ReplicatedTableSchema,
    consumed: seq<ColumnSchema>, added: seq<ColumnAddition>)
  {
    && (forall a :: a in added <==> IsAddition(before, after, a) && a.column in consumed)
    && AscendingAdditions(added)
  }

  ghost predicate DroppedFrom(
    before: ReplicatedTableSchema, after: ReplicatedTableSchema,
    consumed: seq<ColumnSchema>, dropped: seq<ColumnRemoval>)
  {
    && (forall r :: r in dropped <==> IsRemoval(before, after, r) && r.column in consumed)
    && AscendingRemovals(dropped)
  }

  ghost predicate AlteredFrom(
    before: ReplicatedTableSchema, after: ReplicatedTableSchema,
    consumed: seq<ColumnSchema>, altered: seq<ColumnMetadataChange>)
  {
    && (forall m :: m in altered <==> IsChange(before, after, m) && m.before in consumed)
    && AscendingChanges(altered)
  }

  /** The columns consumed so far, and only those, are classified. */
  ghost predicate Merged(
    before: ReplicatedTableSchema, after: ReplicatedTableSchema,
    bs: seq<ColumnSchema>, i: nat, cs: seq<ColumnSchema>, j: nat, d: Diff)
  {
    && Frontier(before, after, bs, i, cs, j)
    && AddedFrom(before, after, cs[..j], d.added)
    && DroppedFrom(before, after, bs[..i], d.dropped)
    && AlteredFrom(before, after, bs[..i], d.altered)
  }

  lemma Consumed(columns: seq<ColumnSchema>, i: nat)
    requires Sorted(columns) && i < |columns|
    ensures columns[..i + 1] == columns[..i] + [columns[i]]
    ensures forall c | c in columns[..i] :: c.ordinal < columns[i].ordinal
    ensures forall c | c in columns && c.ordinal == columns[i].ordinal :: c == columns[i]
  {
  }

  lemma MergeDrop(
    before: ReplicatedTableSchema, after: ReplicatedTableSchema,
    bs: seq<ColumnSchema>, i: nat, cs: seq<ColumnSchema>, j: nat, d: Diff)
    requires Merged(before, after, bs, i, cs, j, d)
    requires i < |bs| && (j < |cs| ==> bs[i].ordinal < cs[j].ordinal)
    ensures Merged(before, after, bs, i + 1, cs, j,
                   d.(dropped := d.dropped + [ColumnRemoval(bs[i], Reason(after, bs[i].ordinal))]))
  {
    Consumed(bs, i);
    assert bs[i] in bs && bs[i].ordinal !in Ordinals(after.Columns());
    assert AlteredFrom(before, after, bs[..i + 1], d.altered);
    DropConsumed(before, after, bs[..i], bs[i], d.dropped);
  }

  lemma DropConsumed(
    before: ReplicatedTableSchema, after: ReplicatedTableSchema,
    consumed: seq<ColumnSchema>, b: ColumnSchema, dropped: seq<ColumnRemoval>)
    requires DroppedFrom(before, after, consumed, dropped)
    requires b in before.Columns() && b.ordinal !in Ordinals(after.Columns())
    requires forall x | x in consumed :: x.ordinal < b.ordinal
    ensures DroppedFrom(before, after, consumed + [b], dropped + [ColumnRemoval(b, Reason(after, b.ordinal))])
  {
  }

  lemma MergeAdd(
    before: ReplicatedTableSchema, after: ReplicatedTableSchema,
    bs: seq<ColumnSchema>, i: nat, cs: seq<ColumnSchema>, j: nat, d: Diff)
    requires Merged(before, after, bs, i, cs, j, d)
    requires j < |cs| && (i < |bs| ==> cs[j].ordinal < bs[i].ordinal)
    ensures Merged(before, after, bs, i, cs, j + 1,
                   d.(added := d.added + [ColumnAddition(cs[j], Reason(before, cs[j].ordinal))]))
  {
    Consumed(cs, j);
    assert cs[j] in cs && cs[j].ordinal !in Ordinals(before.Columns());
    AddConsumed(before, after, cs[..j], cs[j], d.added);
  }

  lemma AddConsumed(
    before: ReplicatedTableSchema, after: ReplicatedTableSchema,
    consumed: seq<ColumnSchema>, c: ColumnSchema, added: seq<ColumnAddition>)
    requires AddedFrom(before, after, consumed, added)
    requires c in after.Columns() && c.ordinal !in Ordinals(before.Columns())
    requires forall x | x in consumed :: x.ordinal < c.ordinal
    ensures AddedFrom(before, after, consumed + [c], added + [ColumnAddition(c, Reason(before, c.ordinal))])
  {
  }

  lemma MergeMatch(
    before: ReplicatedTableSchema, after: ReplicatedTableSchema,
    bs: seq<ColumnSchema>, i: nat, cs: seq<ColumnSchema>, j: nat, d: Diff)
    requires Merged(before, after, bs, i, cs, j, d)
    requires i < |bs| && j < |cs| && bs[i].ordinal == cs[j].ordinal
    ensures var change := ColumnMetadataChange(bs[i], cs[j]);
            Merged(before, after, bs, i + 1, cs, j + 1,
                   if change.HasChanges() then d.(altered := d.altered + [change]) else d)
  {
    Consumed(bs, i);
    Consumed(cs, j);
    assert bs[i].ordinal in Ordinals(before.Columns()) && cs[j].ordinal in Ordinals(after.Columns());
    assert AddedFrom(before, after, cs[..j + 1], d.added);
    assert DroppedFrom(before, after, bs[..i + 1], d.dropped);
    MatchAltered(before, after, bs[..i], bs[i], cs[j], d.altered);
  }

  lemma MatchAltered(
    before: ReplicatedTableSchema, after: ReplicatedTableSchema,
    consumed: seq<ColumnSchema>, b: ColumnSchema, c: ColumnSchema, altered: seq<ColumnMetadataChange>)
    requires AlteredFrom(before, after, consumed, altered)
    requires b in before.Columns() && c in after.Columns() && b.ordinal == c.ordinal
    requires forall x | x in consumed :: x.ordinal < b.ordinal
    requires forall x | x in after.Columns() && x.ordinal == c.ordinal :: x == c
    ensures var change := ColumnMetadataChange(b, c);
            AlteredFrom(before, after, consumed + [b],
                        if change.HasChanges() then altered + [change] else altered)
  {
  }

  /** One linear merge over both endpoints computes the classification. */
  method ComputeDiff(before: ReplicatedTableSchema, after: ReplicatedTableSchema) returns (d: Diff)
    requires DistinctOrdinals(before.Columns()) && DistinctOrdinals(after.Columns())
    ensures IsDiff(before, after, d)
    ensures forall a | a in d.added ::
              && (a.reason == ReplicationMaskChange <==>
                    exists c :: c in before.table.columns && c.ordinal == a.column.ordinal)
              && (a.reason == TableSchemaChange <==> a.reason != ReplicationMaskChange)
    ensures forall r | r in d.dropped ::
              && (r.reason == ReplicationMaskChange <==>
                    exists c :: c in after.table.columns && c.ordinal == r.column.ordinal)
              && (r.reason == TableSchemaChange <==> r.reason != ReplicationMaskChange)
  {
    var bs, cs := SortByOrdinal(before.Columns()), SortByOrdinal(after.Columns());
    var i, j := 0, 0;
    d := Diff([], [], []);
    while i < |bs| && j < |cs|
      invariant Merged(before, after, bs, i, cs, j, d)
      decreases |bs| - i + |cs| - j
    {
      if bs[i].ordinal < cs[j].ordinal {
        MergeDrop(before, after, bs, i, cs, j, d);
        d := d.(dropped := d.dropped + [ColumnRemoval(bs[i], Reason(after, bs[i].ordinal))]);
        i := i + 1;
      } else if bs[i].ordinal > cs[j].ordinal {
        MergeAdd(before, after, bs, i, cs, j, d);
        d := d.(added := d.added + [ColumnAddition(cs[j], Reason(before, cs[j].ordinal))]);
        j := j + 1;
      } else {
        MergeMatch(before, after, bs, i, cs, j, d);
        var change := ColumnMetadataChange(bs[i], cs[j]);
        if change.HasChanges() {
          d := d.(altered := d.altered + [change]);
        }
        i, j := i + 1, j + 1;
      }
    }
    while i < |bs|
      invariant Merged(before, after, bs, i, cs, j, d) && (i < |bs| ==> j == |cs|)
    {
      MergeDrop(before, after, bs, i, cs, j, d);
      d := d.(dropped := d.dropped + [ColumnRemoval(bs[i], Reason(after, bs[i].ordinal))]);
      i := i + 1;
    }
    while j < |cs|
      invariant Merged(before, after, bs, i, cs, j, d) && i == |bs|
    {
      MergeAdd(before, after, bs, i, cs, j, d);
      d := d.(added := d.added + [ColumnAddition(cs[j], Reason(before, cs[j].ordinal))]);
      j := j + 1;
    }
    AllMerged(before, after, bs, cs, d);
  }

  lemma AllMerged(
    before: ReplicatedTableSchema, after: ReplicatedTableSchema,
    bs: seq<ColumnSchema>, cs: seq<ColumnSchema>, d: Diff)
    requires Merged(before, after, bs, |bs|, cs, |cs|, d)
    ensures IsDiff(before, after, d)
  {
    assert bs[..|bs|] == bs && cs[..|cs|] == cs;
  }

  // ---------- what the classification determines ----------

  /** A strictly ascending sequence is determined by its elements. */
  lemma {:induction false} AscendingUnique<T>(s: seq<T>, t: seq<T>, key: T -> int)
    requires forall x :: x in s <==> x in t
    requires forall i, j | 0 <= i < j < |s| :: key(s[i]) < key(s[j])
    requires forall i, j | 0 <= i < j < |t| :: key(t[i]) < key(t[j])
    ensures s == t
  {
    if s == [] || t == [] {
      HeadIn(s);
      HeadIn(t);
    } else {
      assert s[0] in t && t[0] in s;
      assert s[0] == t[0];
      assert s == [s[0]] + s[1..] && t == [t[0]] + t[1..];
      forall x
        ensures x in s[1..] <==> x in t[1..]
      {
        assert x in s[1..] <==> x in s && x != s[0];
        assert x in t[1..] <==> x in t && x != t[0];
      }
      AscendingUnique(s[1..], t[1..], key);
    }
  }

  /** The diff depends on which columns are listed, not on how they are listed. */
  lemma DiffIgnoresListing(
    before: ReplicatedTableSchema, after: ReplicatedTableSchema, d: Diff,
    before': ReplicatedTableSchema, after': ReplicatedTableSchema, d': Diff)
    requires IsDiff(before, after, d) && IsDiff(before', after', d')
    requires forall c :: c in before.Columns() <==> c in before'.Columns()
    requires forall c :: c in after.Columns() <==> c in after'.Columns()
    requires Ordinals(before.table.columns) == Ordinals(before'.table.columns)
    requires Ordinals(after.table.columns) == Ordinals(after'.table.columns)
    ensures d == d'
  {
    assert Ordinals(before.Columns()) == Ordinals(before'.Columns());
    assert Ordinals(after.Columns()) == Ordinals(after'.Columns());
    AscendingUnique(d.added, d'.added, (a: ColumnAddition) => a.column.ordinal);
    AscendingUnique(d.dropped, d'.dropped, (r: ColumnRemoval) => r.column.ordinal);
    AscendingUnique(d.altered, d'.altered, (m: ColumnMetadataChange) => m.before.ordinal);
  }

  /** The diff is empty exactly when both endpoints replicate the same columns. */
  lemma EmptyDiff(before: ReplicatedTableSchema, after: ReplicatedTableSchema, d: Diff)
    requires DistinctOrdinals(before.Columns()) && DistinctOrdinals(after.Columns())
    requires IsDiff(before, after, d)
    ensures d.IsEmpty() <==> forall c :: c in before.Columns() <==> c in after.Columns()
  {
    if d.IsEmpty() {
      forall c | c in before.Columns()
        ensures c in after.Columns()
      {
        assert !IsRemoval(before, after, ColumnRemoval(c, Reason(after, c.ordinal)));
        var x :| x in after.Columns() && x.ordinal == c.ordinal;
        assert !IsChange(before, after, ColumnMetadataChange(c, x));
      }
      forall c | c in after.Columns()
        ensures c in before.Columns()
      {
        assert !IsAddition(before, after, ColumnAddition(c, Reason(before, c.ordinal)));
        var x :| x in before.Columns() && x.ordinal == c.ordinal;
        assert !IsChange(before, after, ColumnMetadataChange(x, c));
      }
    }
    if forall c :: c in before.Columns() <==> c in after.Columns() {
      forall a ensures !IsAddition(before, after, a) {}
      forall r ensures !IsRemoval(before, after, r) {}
      forall m ensures !IsChange(before, after, m) {}
      HeadIn(d.added);
      HeadIn(d.dropped);
      HeadIn(d.altered);
    }
  }
}
