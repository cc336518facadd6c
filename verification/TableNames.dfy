/**
 Source tables named in one identifier: underscores of the schema and table names
 are doubled and a single underscore separates them.
 */
module TableNames {
  import opened Text

  datatype TableName = TableName(schema: string, name: string)

  datatype Component = SchemaName | TableNamePart

  datatype ValidationError =
    | OuterUnderscore(component: Component)
    | EmptyComponent(component: Component)
    | UnsupportedCharacter(component: Component)

  // ---------- runs of underscores ----------

  function Underscores(n: nat): (s: string)
    ensures |s| == n && forall i | 0 <= i < n :: s[i] == '_'
  {
    seq(n, i => '_')
  }

  function Leading(s: string): (n: nat)
    ensures n <= |s| && (n < |s| ==> s[n] != '_')
  {
    if s != [] && s[0] == '_' then 1 + Leading(s[1..]) else 0
  }

  function Trailing(s: string): (n: nat)
    ensures n <= |s|
  {
    if s != [] && s[|s| - 1] == '_' then 1 + Trailing(s[..|s| - 1]) else 0
  }

  // ---------- encoding ----------

  /** Rust's `replace('_', "__")`. */
  function Escape(s: string): string {
    if s == [] then "" else (if s[0] == '_' then "__" else [s[0]]) + Escape(s[1..])
  }

  function Join(schema: string, name: string): string {
    Escape(schema) + "_" + Escape(name)
  }

  function Validate(value: string, component: Component): Option<ValidationError> {
    if value != [] && (value[0] == '_' || value[|value| - 1] == '_') then Some(OuterUnderscore(component))
    else if value == [] then Some(EmptyComponent(component))
    else if '"' in value || ';' in value then Some(UnsupportedCharacter(component))
    else None
  }

  function Stringify(t: TableName): Result<string, ValidationError> {
    match Validate(t.schema, SchemaName)
    case Some(error) => Failure(error)
    case None =>
      match Validate(t.name, TableNamePart)
      case Some(error) => Failure(error)
      case None => Success(Join(t.schema, t.name))
  }

  // ---------- decoding ----------

  /** The text around the separator: what precedes its run of underscores, the escaped ones in the run, what follows. */
  datatype Shape = Shape(left: string, between: nat, right: string)

  function ShapeOf(schema: string, name: string): Shape {
    Shape(schema[..|schema| - Trailing(schema)], Trailing(schema) + Leading(name), name[Leading(name)..])
  }

  function Unescape(s: string): string {
    if s == [] then ""
    else if s[0] == '_' && |s| > 1 && s[1] == '_' then "_" + Unescape(s[2..])
    else [s[0]] + Unescape(s[1..])
  }

  function Prepend(s: string, shape: Option<Shape>): Option<Shape> {
    match shape
    case None => None
    case Some(x) => Some(x.(left := s + x.left))
  }

  /** Splits an identifier at its first run of an odd number of underscores. */
  function Decode(s: string): Option<Shape>
    decreases |s|
  {
    if s == [] then None
    else
      var n := Leading(s);
      if n == 0 then Prepend([s[0]], Decode(s[1..]))
      else if n % 2 == 0 then Prepend(Underscores(n / 2), Decode(s[n..]))
      else Some(Shape("", n / 2, Unescape(s[n..])))
  }

  lemma {:induction false} UnescapeEscape(s: string)
    ensures Unescape(Escape(s)) == s
  {
    if s != [] {
      UnescapeEscape(s[1..]);
      if s[0] == '_' {
        assert Escape(s)[2..] == Escape(s[1..]);
      } else {
        assert Escape(s)[1..] == Escape(s[1..]);
      }
    }
  }

  lemma {:induction false} LeadingRun(n: nat, s: string)
    requires s == [] || s[0] != '_'
    ensures Leading(Underscores(n) + s) == n
  {
    if n > 0 {
      LeadingRun(n - 1, s);
      assert (Underscores(n) + s)[1..] == Underscores(n - 1) + s;
    } else {
      assert Underscores(n) + s == s;
    }
  }

  lemma {:induction false} EscapeRun(n: nat, s: string)
    ensures Escape(Underscores(n) + s) == Underscores(2 * n) + Escape(s)
  {
    if n > 0 {
      EscapeRun(n - 1, s);
      assert (Underscores(n) + s)[1..] == Underscores(n - 1) + s;
      assert "__" + Underscores(2 * (n - 1)) == Underscores(2 * n);
    } else {
      assert Underscores(n) + s == s;
      assert Underscores(2 * n) + Escape(s) == Escape(s);
    }
  }

  lemma {:induction false} SplitLeading(s: string)
    ensures s == Underscores(Leading(s)) + s[Leading(s)..]
  {
    if s != [] && s[0] == '_' {
      SplitLeading(s[1..]);
    }
  }

  lemma EscapeStart(s: string)
    requires s == [] || s[0] != '_'
    ensures Escape(s) == [] || Escape(s)[0] != '_'
    ensures (Escape(s) == []) == (s == [])
  {
  }

  lemma DecodeLeading(n: nat, s: string)
    requires n > 0 && (s == [] || s[0] != '_')
    ensures Decode(Underscores(n) + s) ==
            if n % 2 == 0 then Prepend(Underscores(n / 2), Decode(s)) else Some(Shape("", n / 2, Unescape(s)))
  {
    LeadingRun(n, s);
    assert (Underscores(n) + s)[n..] == s;
  }

  lemma DecodeOdd(m: nat, s: string)
    requires s == [] || s[0] != '_'
    ensures Decode(Underscores(2 * m + 1) + s) == Some(Shape("", m, Unescape(s)))
  {
    DecodeLeading(2 * m + 1, s);
  }

  lemma UnderscoresAdd(i: nat, j: nat)
    ensures Underscores(i) + "_" + Underscores(j) == Underscores(i + 1 + j)
  {
  }

  lemma Regroup(left: string, a: string, b: string, c: string, right: string)
    ensures (left + a) + b + (c + right) == left + (a + b + c) + right
  {
  }

  /** A joined pair decodes to `shape`. */
  ghost predicate Decodes(schema: string, name: string, shape: Shape) {
    Decode(Join(schema, name)) == Some(shape)
  }

  /** A schema of nothing but underscores: the separator stands in the first run. */
  lemma DecodeSeparator(n: nat, name: string)
    ensures Decodes(Underscores(n), name, Shape("", n + Leading(name), name[Leading(name)..]))
  {
    SplitLeading(name);
    DecodeRuns(n, Leading(name), name[Leading(name)..]);
  }

  lemma DecodeRuns(n: nat, k: nat, right: string)
    requires right == [] || right[0] != '_'
    ensures Decodes(Underscores(n), Underscores(k) + right, Shape("", n + k, right))
  {
    JoinOnlyRuns(n, k, right);
    EscapeStart(right);
    DecodeOdd(n + k, Escape(right));
    UnescapeEscape(right);
  }

  lemma JoinOnlyRuns(n: nat, k: nat, right: string)
    ensures Join(Underscores(n), Underscores(k) + right) == Underscores(2 * (n + k) + 1) + Escape(right)
  {
    JoinRuns("", n, k, right);
    assert "" + Underscores(n) == Underscores(n);
    assert Escape("") + Underscores(2 * (n + k) + 1) == Underscores(2 * (n + k) + 1);
  }

  lemma JoinRuns(left: string, i: nat, j: nat, right: string)
    ensures Join(left + Underscores(i), Underscores(j) + right) ==
            Escape(left) + Underscores(2 * (i + j) + 1) + Escape(right)
  {
    EscapeTail(left, i);
    EscapeRun(j, right);
    JoinText(Escape(left), 2 * i, 2 * j, Escape(right));
  }

  lemma EscapeTail(left: string, i: nat)
    ensures Escape(left + Underscores(i)) == Escape(left) + Underscores(2 * i)
  {
    EscapeAppend(left, Underscores(i));
    EscapeUnderscores(i);
  }

  lemma JoinText(left: string, i: nat, j: nat, right: string)
    ensures (left + Underscores(i)) + "_" + (Underscores(j) + right) == left + Underscores(i + j + 1) + right
  {
    UnderscoresAdd(i, j);
    Regroup(left, Underscores(i), "_", Underscores(j), right);
  }

  lemma {:induction false} EscapeAppend(s: string, t: string)
    ensures Escape(s + t) == Escape(s) + Escape(t)
  {
    if s == [] {
      assert s + t == t;
    } else {
      EscapeAppend(s[1..], t);
      assert (s + t)[1..] == s[1..] + t;
      Associative(if s[0] == '_' then "__" else [s[0]], Escape(s[1..]), Escape(t));
    }
  }

  /** Text without underscores stays, and each underscore is doubled. */
  lemma {:induction false} EscapeExactly(a: string, b: string)
    requires '_' !in a
    ensures Escape(a) == a && Escape(a + "_" + b) == a + "__" + Escape(b)
  {
    if a == [] {
      assert (a + "_" + b)[1..] == b;
      assert a + "__" + Escape(b) == "__" + Escape(b);
    } else {
      EscapeExactly(a[1..], b);
      assert (a + "_" + b)[1..] == a[1..] + "_" + b;
    }
  }

  lemma EscapeUnderscores(n: nat)
    ensures Escape(Underscores(n)) == Underscores(2 * n)
  {
    EscapeRun(n, "");
    assert Underscores(n) + "" == Underscores(n);
  }

  lemma {:induction false} TrailingSuffix(s: string, rest: string)
    requires rest != [] && rest[0] != '_'
    ensures Trailing(s + rest) == Trailing(rest)
    decreases |rest|
  {
    var t := s + rest;
    if rest[|rest| - 1] == '_' {
      assert t[..|t| - 1] == s + rest[..|rest| - 1];
      TrailingSuffix(s, rest[..|rest| - 1]);
    }
  }

  lemma AllUnderscores(s: string)
    requires Leading(s) == |s|
    ensures s == Underscores(|s|) && Trailing(s) == |s|
  {
    SplitLeading(s);
    assert s == Underscores(|s|);
    TrailingRun(|s|);
  }

  lemma {:induction false} TrailingRun(n: nat)
    ensures Trailing(Underscores(n)) == n
  {
    if n > 0 {
      TrailingRun(n - 1);
      assert Underscores(n)[..n - 1] == Underscores(n - 1);
    }
  }

  /** Decoding any joined pair recovers its shape, and nothing else can be recovered. */
  lemma {:induction false} DecodeJoin(schema: string, name: string)
    ensures Decodes(schema, name, ShapeOf(schema, name))
    decreases |schema|
  {
    var n := Leading(schema);
    if n == |schema| {
      AllUnderscores(schema);
      DecodeSeparator(n, name);
    } else if n == 0 {
      var rest := schema[1..];
      assert schema == [schema[0]] + rest;
      DecodeJoin(rest, name);
      DecodeChar(schema[0], rest, name);
    } else {
      SplitLeading(schema);
      DecodeJoin(schema[n..], name);
      DecodeRun(n, schema[n..], name);
    }
  }

  lemma DecodeChar(c: char, rest: string, name: string)
    requires c != '_'
    requires Decodes(rest, name, ShapeOf(rest, name))
    ensures Decodes([c] + rest, name, ShapeOf([c] + rest, name))
  {
    JoinAfterChar(c, rest, name);
    ShapeAfterChar(c, rest, name);
    assert ([c] + Join(rest, name))[1..] == Join(rest, name);
  }

  lemma JoinAfterChar(c: char, rest: string, name: string)
    requires c != '_'
    ensures Join([c] + rest, name) == [c] + Join(rest, name)
  {
    assert ([c] + rest)[1..] == rest;
  }

  lemma ShapeAfterChar(c: char, rest: string, name: string)
    requires c != '_'
    ensures Some(ShapeOf([c] + rest, name)) == Prepend([c], Some(ShapeOf(rest, name)))
  {
    var schema := [c] + rest;
    TrailingCons(c, rest);
    assert schema[..|schema| - Trailing(schema)] == [c] + rest[..|rest| - Trailing(rest)];
  }

  lemma {:induction false} TrailingCons(c: char, rest: string)
    requires c != '_'
    ensures Trailing([c] + rest) == Trailing(rest)
  {
    var s := [c] + rest;
    if rest != [] && rest[|rest| - 1] == '_' {
      assert s[..|s| - 1] == [c] + rest[..|rest| - 1];
      TrailingCons(c, rest[..|rest| - 1]);
    }
  }

  lemma DecodeRun(n: nat, rest: string, name: string)
    requires n > 0 && rest != [] && rest[0] != '_'
    requires Decodes(rest, name, ShapeOf(rest, name))
    ensures Decodes(Underscores(n) + rest, name, ShapeOf(Underscores(n) + rest, name))
  {
    JoinAfterRun(n, rest, name);
    EscapeStart(rest);
    DecodeAfterRun(n, Join(rest, name), ShapeOf(rest, name));
    ShapeAfterRun(n, rest, name);
  }

  lemma DecodeAfterRun(n: nat, tail: string, shape: Shape)
    requires n > 0 && tail != [] && tail[0] != '_' && Decode(tail) == Some(shape)
    ensures Decode(Underscores(2 * n) + tail) == Prepend(Underscores(n), Some(shape))
  {
    DecodeLeading(2 * n, tail);
    assert 2 * n / 2 == n;
  }

  lemma JoinAfterRun(n: nat, rest: string, name: string)
    ensures Join(Underscores(n) + rest, name) == Underscores(2 * n) + Join(rest, name)
  {
    EscapeRun(n, rest);
  }

  lemma ShapeAfterRun(n: nat, rest: string, name: string)
    requires rest != [] && rest[0] != '_'
    ensures Some(ShapeOf(Underscores(n) + rest, name)) == Prepend(Underscores(n), Some(ShapeOf(rest, name)))
  {
    var schema := Underscores(n) + rest;
    TrailingSuffix(Underscores(n), rest);
    assert schema[..|schema| - Trailing(schema)] == Underscores(n) + rest[..|rest| - Trailing(rest)];
  }

  // ---------- when two tables share an identifier ----------

  lemma {:induction false} SplitTrailing(s: string)
    ensures s == s[..|s| - Trailing(s)] + Underscores(Trailing(s))
  {
    if s != [] && s[|s| - 1] == '_' {
      SplitTrailing(s[..|s| - 1]);
      assert s == s[..|s| - 1] + "_";
    }
  }

  lemma JoinOfShape(schema: string, name: string)
    ensures var shape := ShapeOf(schema, name);
            Join(schema, name) == Escape(shape.left) + Underscores(2 * shape.between + 1) + Escape(shape.right)
  {
    var i, j := Trailing(schema), Leading(name);
    var left, right := schema[..|schema| - i], name[j..];
    SplitTrailing(schema);
    SplitLeading(name);
    JoinOfParts(schema, name, left, i, j, right);
  }

  lemma JoinOfParts(schema: string, name: string, left: string, i: nat, j: nat, right: string)
    requires schema == left + Underscores(i) && name == Underscores(j) + right
    ensures Join(schema, name) == Escape(left) + Underscores(2 * (i + j) + 1) + Escape(right)
  {
    JoinRuns(left, i, j, right);
  }

  /** Two pairs share an identifier exactly when they differ by underscores moved across the separator. */
  lemma CollidesExactly(schema: string, name: string, schema': string, name': string)
    ensures Join(schema, name) == Join(schema', name') <==> ShapeOf(schema, name) == ShapeOf(schema', name')
  {
    DecodeJoin(schema, name);
    DecodeJoin(schema', name');
    JoinOfShape(schema, name);
    JoinOfShape(schema', name');
  }

  lemma Accepted(t: TableName)
    requires Stringify(t).Success?
    ensures Stringify(t).value == Join(t.schema, t.name)
    ensures Trailing(t.schema) == 0 && Leading(t.name) == 0
  {
  }

  lemma DecodeClean(schema: string, name: string)
    requires Trailing(schema) == 0 && Leading(name) == 0
    ensures Decodes(schema, name, Shape(schema, 0, name))
  {
    DecodeJoin(schema, name);
    assert schema[..|schema| - 0] == schema && name[0..] == name;
  }

  /** Components that can be encoded: not empty, no outer underscore, nothing that ends an SQL identifier. */
  ghost predicate Encodable(value: string) {
    value != [] && Leading(value) == 0 && Trailing(value) == 0 && forall c | c in value :: c != '"' && c != ';'
  }

  /** A table is accepted exactly when both components can be encoded; the first bad component is blamed. */
  lemma AcceptsExactly(t: TableName)
    ensures Stringify(t).Success? <==> Encodable(t.schema) && Encodable(t.name)
    ensures Stringify(t).Failure? ==>
            var (component, value) :=
              if Encodable(t.schema) then (TableNamePart, t.name) else (SchemaName, t.schema);
            Stringify(t).error ==
              if value == [] then EmptyComponent(component)
              else if Leading(value) > 0 || Trailing(value) > 0 then OuterUnderscore(component)
              else UnsupportedCharacter(component)
  {
  }

  /** An accepted identifier decodes to its schema and table. */
  lemma StringifyDecodes(t: TableName)
    requires Stringify(t).Success?
    ensures Decode(Stringify(t).value) == Some(Shape(t.schema, 0, t.name))
  {
    Accepted(t);
    DecodeClean(t.schema, t.name);
  }

  /** No two accepted tables share an identifier. */
  lemma StringifyInjective(t: TableName, u: TableName)
    requires Stringify(t).Success? && Stringify(t) == Stringify(u)
    ensures t == u
  {
    StringifyDecodes(t);
    StringifyDecodes(u);
  }

  /** An identifier as it is written. */
  lemma IdentifierExample()
    ensures Stringify(TableName("a_b", "c")) == Success("a__b_c")
  {
    assert Escape("a_b") == "a__b" by {
      EscapeExactly("a", "b");
      EscapeExactly("b", "");
      assert "a_b" == "a" + "_" + "b" && "a__b" == "a" + "__" + "b";
    }
    assert Escape("c") == "c" by {
      EscapeExactly("c", "");
    }
    assert "a__b_c" == "a__b" + "_" + "c";
    assert Validate("a_b", SchemaName) == None && Validate("c", TableNamePart) == None;
  }

  /** Two pairs that would share an identifier; both are rejected. */
  lemma RejectedCollision()
    ensures Join("a", "_b") == Join("a_", "b")
    ensures Stringify(TableName("a", "_b")).Failure? && Stringify(TableName("a_", "b")).Failure?
  {
    CollidesExactly("a", "_b", "a_", "b");
    assert Leading("_b") == 1 + Leading("b");
    assert Trailing("a_") == 1 + Trailing("a");
    assert ShapeOf("a", "_b") == Shape("a", 1, "b") == ShapeOf("a_", "b");
  }
}
