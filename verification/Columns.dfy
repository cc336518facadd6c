/**
 Column and table schemas, replication masks and the destination namespace.
 Logical columns are identified by their PostgreSQL ordinal position.
 */
module Columns {
  import opened Integers
  import opened Text
  import opened Snapshots

  /** `typ` is the PostgreSQL type OID. */
  datatype ColumnSchema = ColumnSchema(
    name: string,
    typ: nat,
    modifier: int,
    ordinal: int,
    primaryKeyOrdinal: Option<int>,
    nullable: bool,
    defaultExpression: Option<string>)

  datatype TableSchema = TableSchema(id: nat, columns: seq<ColumnSchema>, snapshotId: SnapshotId)

  /** A table schema with the mask of its replicated columns. */
  datatype ReplicatedTableSchema = ReplicatedTableSchema(table: TableSchema, mask: seq<u8>) {
    function Columns(): seq<ColumnSchema> {
      Selected(table.columns, mask)
    }
  }

  /** The columns whose mask entry is 1. */
  function Selected(columns: seq<ColumnSchema>, mask: seq<u8>): seq<ColumnSchema> {
    if columns == [] || mask == [] then []
    else (if mask[0] == 1 then [columns[0]] else []) + Selected(columns[1..], mask[1..])
  }

  /** The positions from `from` on whose mask entry is 1, in ascending order, are those of the selected columns. */
  lemma {:induction false} SelectedPlaces(columns: seq<ColumnSchema>, mask: seq<u8>, from: nat)
    returns (places: seq<int>)
    requires from <= |columns| && from <= |mask|
    ensures forall j, k | 0 <= j < k < |places| :: places[j] < places[k]
    ensures forall i :: i in places <==> from <= i < |columns| && i < |mask| && mask[i] == 1
    ensures |Selected(columns[from..], mask[from..])| == |places|
    ensures forall k | 0 <= k < |places| ::
              0 <= places[k] < |columns| && Selected(columns[from..], mask[from..])[k] == columns[places[k]]
    decreases |columns| - from
  {
    if from == |columns| || from == |mask| {
      places := [];
    } else {
      assert columns[from..][1..] == columns[from + 1..] && mask[from..][1..] == mask[from + 1..];
      var rest := SelectedPlaces(columns, mask, from + 1);
      if mask[from] == 1 {
        places := [from] + rest;
        PlacedFirst(from, rest);
        assert Selected(columns[from..], mask[from..]) ==
               [columns[from]] + Selected(columns[from + 1..], mask[from + 1..]);
      } else {
        places := rest;
        assert Selected(columns[from..], mask[from..]) == Selected(columns[from + 1..], mask[from + 1..]);
      }
    }
  }

  lemma PlacedFirst(x: int, rest: seq<int>)
    requires forall i | i in rest :: x < i
    requires forall j, k | 0 <= j < k < |rest| :: rest[j] < rest[k]
    ensures forall j, k | 0 <= j < k < |[x] + rest| :: ([x] + rest)[j] < ([x] + rest)[k]
    ensures forall i :: i in [x] + rest <==> i == x || i in rest
  {
    assert forall k | 0 <= k < |rest| :: rest[k] in rest;
  }

  predicate DistinctOrdinals(columns: seq<ColumnSchema>) {
    forall i, j | 0 <= i < j < |columns| :: columns[i].ordinal != columns[j].ordinal
  }

  function Ordinals(columns: seq<ColumnSchema>): set<int> {
    set c | c in columns :: c.ordinal
  }

  /** Columns keyed by logical identity. */
  type Table = map<int, ColumnSchema>

  function ByOrdinal(columns: seq<ColumnSchema>): Table {
    if columns == [] then map[]
    else
      var last := columns[|columns| - 1];
      ByOrdinal(columns[..|columns| - 1])[last.ordinal := last]
  }

  lemma {:induction false} ByOrdinalSpec(columns: seq<ColumnSchema>)
    requires DistinctOrdinals(columns)
    ensures forall c | c in columns :: c.ordinal in ByOrdinal(columns) && ByOrdinal(columns)[c.ordinal] == c
    ensures forall o | o in ByOrdinal(columns) ::
              ByOrdinal(columns)[o].ordinal == o && ByOrdinal(columns)[o] in columns
  {
    if columns != [] {
      var front, last := columns[..|columns| - 1], columns[|columns| - 1];
      assert columns == front + [last];
      ByOrdinalSpec(front);
    }
  }

  ghost predicate KeyedByOrdinal(t: Table) {
    forall o | o in t :: t[o].ordinal == o
  }

  function Names(t: Table): set<string> {
    set o | o in t :: t[o].name
  }

  ghost function OwnerOf(t: Table, name: string): (o: int)
    requires name in Names(t)
    ensures o in t && t[o].name == name
  {
    var o :| o in t && t[o].name == name;
    o
  }

  ghost predicate DistinctNames(t: Table) {
    forall o, p | o in t && p in t && t[o].name == t[p].name :: o == p
  }

  /** How a destination folds exact PostgreSQL names; Unicode folding is a parameter. */
  datatype ColumnNameMapping = Identity | UnicodeLowercase(toLowercase: string -> string) | AsciiLowercase {
    function MapName(name: string): string {
      match this
      case Identity => name
      case UnicodeLowercase(toLowercase) => toLowercase(name)
      case AsciiLowercase => seq(|name|, i requires 0 <= i < |name| => LowerAscii(name[i]))
    }

    predicate Equivalent(left: string, right: string) {
      MapName(left) == MapName(right)
    }

    function MapColumn(c: ColumnSchema): ColumnSchema {
      c.(name := MapName(c.name))
    }

    function MapTable(t: Table): Table {
      map o | o in t :: MapColumn(t[o])
    }
  }

  /** Names are folded together exactly when they are equal, or equal up to case for the folding destinations. */
  lemma FoldsExactly(mapping: ColumnNameMapping, a: string, b: string)
    ensures mapping.Equivalent(a, b) <==>
            match mapping
            case Identity => a == b
            case UnicodeLowercase(toLowercase) => toLowercase(a) == toLowercase(b)
            case AsciiLowercase => EqualsIgnoreAsciiCase(a, b)
  {
    if mapping.AsciiLowercase? && mapping.Equivalent(a, b) {
      forall i | 0 <= i < |a| ensures LowerAscii(a[i]) == LowerAscii(b[i]) {
        assert mapping.MapName(a)[i] == mapping.MapName(b)[i];
      }
    }
  }

  /** The destination columns a replicated schema asks for. */
  function DestinationTable(schema: ReplicatedTableSchema, mapping: ColumnNameMapping): Table {
    mapping.MapTable(ByOrdinal(schema.Columns()))
  }

  /** A column of the table whose mask entry is 1. */
  ghost predicate Replicated(schema: ReplicatedTableSchema, i: int) {
    0 <= i < |schema.table.columns| && i < |schema.mask| && schema.mask[i] == 1
  }

  /** The replicated columns are exactly those whose mask entry is 1. */
  lemma ReplicatedExactly(schema: ReplicatedTableSchema, c: ColumnSchema)
    ensures c in schema.Columns() <==> exists i :: Replicated(schema, i) && schema.table.columns[i] == c
  {
    var places := SelectedPlaces(schema.table.columns, schema.mask, 0);
    assert schema.table.columns[0..] == schema.table.columns && schema.mask[0..] == schema.mask;
    if c in schema.Columns() {
      var k :| 0 <= k < |schema.Columns()| && schema.Columns()[k] == c;
      assert places[k] in places && Replicated(schema, places[k]);
    }
    if i :| Replicated(schema, i) && schema.table.columns[i] == c {
      assert i in places;
      var k :| 0 <= k < |places| && places[k] == i;
      assert schema.Columns()[k] == c;
    }
  }

  /** The destination table has the replicated columns and no others, each under its destination name. */
  lemma DestinationExactly(schema: ReplicatedTableSchema, mapping: ColumnNameMapping)
    requires DistinctOrdinals(schema.Columns())
    ensures forall o :: o in DestinationTable(schema, mapping) <==>
                        exists i :: Replicated(schema, i) && schema.table.columns[i].ordinal == o
    ensures forall i | Replicated(schema, i) ::
              var c := schema.table.columns[i];
              && c.ordinal in DestinationTable(schema, mapping)
              && DestinationTable(schema, mapping)[c.ordinal] == c.(name := mapping.MapName(c.name))
  {
    var t, columns := ByOrdinal(schema.Columns()), schema.table.columns;
    ByOrdinalSpec(schema.Columns());
    forall i | Replicated(schema, i)
      ensures columns[i].ordinal in t && t[columns[i].ordinal] == columns[i]
    {
      ReplicatedExactly(schema, columns[i]);
    }
    forall o | o in t ensures exists i :: Replicated(schema, i) && columns[i].ordinal == o {
      ReplicatedExactly(schema, t[o]);
      var i :| Replicated(schema, i) && columns[i] == t[o];
    }
  }
}
