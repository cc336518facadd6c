/**
 Parsing a column default into a portable literal, and what wrapping a literal in
 parentheses and casts does to the result.
 */
module DefaultParsing {
  import opened Text
  import opened DefaultExpression
  import opened DefaultLayers
  import opened DefaultUnwrap

  datatype PgType =
    | Bool | Char | BpChar | VarChar | Name | TextType
    | Int2 | Int4 | Int8 | Float4 | Float8 | NumericType | Oid
    | Date | Time | TimeTz | Timestamp | TimestampTz | Interval | Json | Jsonb | Other

  datatype Literal =
    | StringLiteral(text: string)
    | NumericLiteral(text: string)
    | BooleanLiteral(text: string)
    | DateLiteral(text: string)
    | TimeLiteral(text: string)
    | TimeTzLiteral(text: string)
    | TimestampLiteral(text: string)
    | TimestampTzLiteral(text: string)
    | IntervalLiteral(text: string)
    | JsonLiteral(text: string)

  predicate IsTextType(typ: PgType) {
    typ in {Char, BpChar, VarChar, Name, TextType}
  }

  predicate IsNumericType(typ: PgType) {
    typ in {Int2, Int4, Int8, Float4, Float8, NumericType, Oid}
  }

  // ---------- literals ----------

  function WithoutSign(e: string): string {
    if e != [] && e[0] in "+-" then e[1..] else e
  }

  /** An optional sign, then digits with at most one decimal point among them. */
  predicate IsNumericLiteral(e: string) {
    var body := WithoutSign(e);
    && (forall i | 0 <= i < |body| :: IsDigit(body[i]) || body[i] == '.')
    && (forall i, j | 0 <= i < j < |body| :: body[i] != '.' || body[j] != '.')
    && exists i | 0 <= i < |body| :: IsDigit(body[i])
  }

  predicate IsBoolLiteral(e: string) {
    EqualsIgnoreAsciiCase(e, "true") || EqualsIgnoreAsciiCase(e, "false")
  }

  predicate IsLiteral(e: string) {
    IsStringLiteral(e) || IsNumericLiteral(e) || IsBoolLiteral(e)
  }

  method ScanNumericLiteral(e: string) returns (r: bool)
    ensures r == IsNumericLiteral(e)
  {
    var body := WithoutSign(e);
    var hasDigit, hasDecimal := false, false;
    for i := 0 to |body|
      invariant forall k | 0 <= k < i :: IsDigit(body[k]) || body[k] == '.'
      invariant forall j, k | 0 <= j < k < i :: body[j] != '.' || body[k] != '.'
      invariant hasDecimal <==> exists k | 0 <= k < i :: body[k] == '.'
      invariant hasDigit <==> exists k | 0 <= k < i :: IsDigit(body[k])
    {
      if IsDigit(body[i]) {
        hasDigit := true;
      } else if body[i] == '.' && !hasDecimal {
        hasDecimal := true;
      } else {
        return false;
      }
    }
    return hasDigit;
  }

  // ---------- parsing ----------

  predicate StartsWithIgnoreAsciiCase(value: string, prefix: string) {
    |prefix| <= |value| && EqualsIgnoreAsciiCase(value[..|prefix|], prefix)
  }

  predicate ContainsIgnoreAsciiCase(value: string, needle: string) {
    exists i | 0 <= i <= |value| :: StartsWithIgnoreAsciiCase(value[i..], needle)
  }

  predicate ContainsCast(e: string) {
    exists i | 0 <= i < |e| - 1 :: e[i] == ':' && e[i + 1] == ':'
  }

  /** Sequence calls, subqueries, remaining casts and array constructors are left alone. */
  predicate IsUnsupported(e: string) {
    || StartsWithIgnoreAsciiCase(e, "nextval(")
    || ContainsIgnoreAsciiCase(e, "select ")
    || ContainsCast(e)
    || StartsWithIgnoreAsciiCase(e, "array[")
    || StartsWithIgnoreAsciiCase(e, "array ")
  }

  function ParseStringLiteral(e: string, typ: PgType): Option<Literal> {
    if typ == Bool then
      match Unquote(e)
      case None => None
      case Some(content) => if IsBoolLiteral(content) then Some(BooleanLiteral(content)) else None
    else if IsNumericType(typ) then
      match Unquote(e)
      case None => None
      case Some(content) => if IsNumericLiteral(content) then Some(NumericLiteral(content)) else None
    else
      Some(
        match typ
        case Date => DateLiteral(e)
        case Time => TimeLiteral(e)
        case TimeTz => TimeTzLiteral(e)
        case Timestamp => TimestampLiteral(e)
        case TimestampTz => TimestampTzLiteral(e)
        case Interval => IntervalLiteral(e)
        case Json => JsonLiteral(e)
        case Jsonb => JsonLiteral(e)
        case _ => StringLiteral(e))
  }

  /** Classifies an expression that is already normalized. */
  function Classify(e: string, typ: PgType): Option<Literal> {
    if e == [] || EqualsIgnoreAsciiCase(e, "null") || IsUnsupported(e) then None
    else if IsStringLiteral(e) then ParseStringLiteral(e, typ)
    else if IsNumericLiteral(e) then Some(if IsTextType(typ) then StringLiteral("'" + e + "'") else NumericLiteral(e))
    else if IsBoolLiteral(e) then Some(if IsTextType(typ) then StringLiteral("'" + e + "'") else BooleanLiteral(e))
    else None
  }

  function ParseDefault(expression: string, typ: PgType): Option<Literal> {
    Classify(Normalize(expression), typ)
  }

  // ---------- only wrapped literals are accepted ----------

  /** The text of a parsed default against the literal it came from. */
  ghost predicate Represents(d: Literal, core: string, typ: PgType) {
    || (d.text == core && !(IsTextType(typ) && !IsStringLiteral(core)))
    || (d == StringLiteral("'" + core + "'") && IsTextType(typ) && !IsStringLiteral(core))
    || (Unquote(core) == Some(d.text) &&
        ((typ == Bool && d.BooleanLiteral? && IsBoolLiteral(d.text)) ||
         (IsNumericType(typ) && d.NumericLiteral? && IsNumericLiteral(d.text))))
  }

  /** The kind of a parsed default, by its core and the type of its column. */
  ghost predicate KindFits(d: Literal, core: string, typ: PgType) {
    var quoted := IsStringLiteral(core);
    && (d.BooleanLiteral? <==> if quoted then typ == Bool else IsBoolLiteral(core) && !IsTextType(typ))
    && (d.NumericLiteral? <==> if quoted then IsNumericType(typ) else IsNumericLiteral(core) && !IsTextType(typ))
    && (d.DateLiteral? <==> quoted && typ == Date)
    && (d.TimeLiteral? <==> quoted && typ == Time)
    && (d.TimeTzLiteral? <==> quoted && typ == TimeTz)
    && (d.TimestampLiteral? <==> quoted && typ == Timestamp)
    && (d.TimestampTzLiteral? <==> quoted && typ == TimestampTz)
    && (d.IntervalLiteral? <==> quoted && typ == Interval)
    && (d.JsonLiteral? <==> quoted && typ in {Json, Jsonb})
  }

  lemma QuotedKinds(e: string, typ: PgType)
    requires IsStringLiteral(e) && ParseStringLiteral(e, typ).Some?
    ensures KindFits(ParseStringLiteral(e, typ).value, e, typ)
  {
  }

  lemma NumericIsNotBool(e: string)
    requires IsNumericLiteral(e)
    ensures !IsBoolLiteral(e)
  {
    var body := WithoutSign(e);
    var i :| 0 <= i < |body| && IsDigit(body[i]);
    assert IsDigit(e[i + |e| - |body|]);
    if IsBoolLiteral(e) {
      BoolHasNoDigit(e);
      assert false;
    }
  }

  lemma BoolHasNoDigit(e: string)
    requires IsBoolLiteral(e)
    ensures forall i | 0 <= i < |e| :: !IsDigit(e[i])
  {
    forall i | 0 <= i < |e| ensures !IsDigit(e[i]) {
      assert 'a' <= LowerAscii(e[i]) <= 'z';
    }
  }

  /** Each kind of literal comes exactly from the cores and column types it is meant for. */
  lemma TypedLiterals(expression: string, typ: PgType)
    requires ParseDefault(expression, typ).Some?
    ensures KindFits(ParseDefault(expression, typ).value, Normalize(expression), typ)
  {
    ClassifiedKinds(Normalize(expression), typ);
  }

  lemma ClassifiedKinds(e: string, typ: PgType)
    requires Classify(e, typ).Some?
    ensures KindFits(Classify(e, typ).value, e, typ)
  {
    if IsStringLiteral(e) {
      QuotedKinds(e, typ);
    } else if IsNumericLiteral(e) {
      NumericIsNotBool(e);
    }
  }

  lemma OnlyWrappedLiterals(expression: string, typ: PgType) returns (left: string, w: Wrapped, right: string)
    requires ParseDefault(expression, typ).Some?
    ensures AllWhitespace(left) && AllWhitespace(right) && Layered(w)
    ensures expression == left + Render(w) + right
    ensures IsLiteral(CoreText(w)) && Represents(ParseDefault(expression, typ).value, CoreText(w), typ)
  {
    left, w, right := NormalizeLayers(expression);
  }

  // ---------- literals are atoms ----------

  predicate IsPlain(c: char) {
    'a' <= c <= 'z' || 'A' <= c <= 'Z' || IsDigit(c) || c == '.'
  }

  lemma {:induction false} PlainScan(s: string, depth: nat)
    requires forall i | 0 <= i < |s| :: IsPlain(s[i])
    ensures Depth(s, depth) == Some(depth) && CastStart(s, depth) == None && !HasOperator(s, depth, false)
    decreases |s|
  {
    if s != [] {
      PlainScan(s[1..], depth);
    }
  }

  lemma PlainAtom(s: string)
    requires s != [] && forall i | 0 <= i < |s| :: IsPlain(s[i])
    ensures Atom(s)
  {
    PlainScan(s, 0);
    PlainScan(s[1..], 0);
  }

  lemma NumericAtom(e: string)
    requires IsNumericLiteral(e)
    ensures Atom(e)
  {
    var body := WithoutSign(e);
    if e[0] in "+-" {
      PlainScan(body, 0);
      assert e[|e| - 1] == body[|body| - 1];
    } else {
      PlainAtom(e);
    }
  }

  lemma BoolAtom(e: string)
    requires IsBoolLiteral(e)
    ensures Atom(e)
  {
    forall i | 0 <= i < |e| ensures IsPlain(e[i]) {
      assert 'a' <= LowerAscii(e[i]) <= 'z';
    }
    PlainAtom(e);
  }

  lemma StringAtom(e: string)
    requires IsStringLiteral(e)
    ensures Atom(e)
  {
    assert AfterLiteral(e) == "";
    ClosedIsDoubled(e[1..]);
    assert e[|e| - 1] == '\'';
  }

  lemma LiteralAtom(e: string)
    requires IsLiteral(e)
    ensures Atom(e)
  {
    if IsStringLiteral(e) {
      StringAtom(e);
    } else if IsNumericLiteral(e) {
      NumericAtom(e);
    } else {
      BoolAtom(e);
    }
  }

  // ---------- wrapping does not change a default, unless a cast is kept ----------

  lemma {:induction false} ResidueCore(w: Wrapped)
    requires !Stuck(w)
    ensures Residue(w) == Core(CoreText(w))
    decreases w
  {
    match w
    case Core(_) =>
    case Parens(_, inner, _) => ResidueCore(inner);
    case Cast(inner, _, _, _) => ResidueCore(inner);
  }

  lemma {:induction false} ResidueCast(w: Wrapped)
    requires Stuck(w) && Regular(w)
    ensures Residue(w).Cast? && Regular(Residue(w)) && CoreText(Residue(w)) == CoreText(w)
    decreases w
  {
    match w
    case Parens(_, inner, _) => ResidueCast(inner);
    case Cast(inner, _, _, _) =>
      if !KeepsCast(inner) {
        ResidueCast(inner);
      }
  }

  lemma {:induction false} CoreIsPart(w: Wrapped)
    ensures |CoreText(w)| <= |Render(w)| && (w.Cast? ==> |CoreText(w)| < |Render(w)|)
    decreases w
  {
    match w
    case Core(_) =>
    case Parens(_, inner, _) => CoreIsPart(inner);
    case Cast(inner, _, _, _) => CoreIsPart(inner);
  }

  lemma NormalizeWrapped(left: string, w: Wrapped, right: string)
    requires Regular(w) && AllWhitespace(left) && AllWhitespace(right)
    ensures Normalize(left + Render(w) + right) == Render(Residue(w))
  {
    RenderRegular(w);
    TrimWrapped(left, Render(w), right);
    SettleRender(w);
  }

  /** Normalization recovers the core exactly when no cast stands directly on a cast or on an operation. */
  lemma UnwrapsExactly(left: string, w: Wrapped, right: string)
    requires Regular(w) && AllWhitespace(left) && AllWhitespace(right)
    ensures Normalize(left + Render(w) + right) == CoreText(w) <==> !Stuck(w)
  {
    NormalizeWrapped(left, w, right);
    if Stuck(w) {
      ResidueCast(w);
      CoreIsPart(Residue(w));
    } else {
      ResidueCore(w);
    }
  }

  lemma {:induction false} RegularCore(w: Wrapped)
    requires Regular(w)
    ensures Atom(CoreText(w))
    decreases w
  {
    match w
    case Core(_) =>
    case Parens(_, inner, _) => RegularCore(inner);
    case Cast(inner, _, _, _) => RegularCore(inner);
  }

  lemma AtomNormal(c: string)
    requires Atom(c)
    ensures Normalize(c) == c
  {
    TrimFixed(c);
    SettleRender(Core(c));
  }

  lemma RemainingCast(w: Wrapped)
    requires w.Cast? && Regular(w)
    ensures ContainsCast(Render(w))
  {
    CastStartAlone(w);
    CastFound(Render(w), 0);
  }

  /** A wrapped default is parsed as its core, or not at all when it keeps a cast. */
  lemma WrappedDefault(left: string, w: Wrapped, right: string, typ: PgType)
    requires Regular(w) && AllWhitespace(left) && AllWhitespace(right)
    ensures ParseDefault(left + Render(w) + right, typ) ==
            if Stuck(w) then None else ParseDefault(CoreText(w), typ)
  {
    NormalizeWrapped(left, w, right);
    if Stuck(w) {
      ResidueCast(w);
      RemainingCast(Residue(w));
    } else {
      ResidueCore(w);
      RegularCore(w);
      AtomNormal(CoreText(w));
    }
  }

  // ---------- which literals are refused ----------

  /** The content of a string literal must itself read as a value of a boolean or numeric column. */
  ghost predicate ContentFits(e: string, typ: PgType) {
    var content := Unquote(e);
    content.Some? ==>
      && (typ == Bool ==> IsBoolLiteral(content.value))
      && (IsNumericType(typ) ==> IsNumericLiteral(content.value))
  }

  /** Literals start with a quote, a sign, a point, a digit or a letter of a boolean word. */
  lemma LiteralStarts(e: string)
    requires IsLiteral(e)
    ensures e != [] && LowerAscii(e[0]) !in "na" && !EqualsIgnoreAsciiCase(e, "null")
    ensures !StartsWithIgnoreAsciiCase(e, "nextval(")
    ensures !StartsWithIgnoreAsciiCase(e, "array[") && !StartsWithIgnoreAsciiCase(e, "array ")
  {
    assert LowerAscii(e[0]) !in "na";
  }

  ghost predicate Splits(e: string, before: string, word: string, after: string) {
    e == before + word + after
  }

  lemma ContainsExactly(e: string, needle: string)
    ensures ContainsIgnoreAsciiCase(e, needle) <==>
            exists before, word, after :: Splits(e, before, word, after) && EqualsIgnoreAsciiCase(word, needle)
  {
    if i :| 0 <= i <= |e| && StartsWithIgnoreAsciiCase(e[i..], needle) {
      var rest := e[i..];
      SplitAt(e, i);
      SplitAt(rest, |needle|);
      Associative(e[..i], rest[..|needle|], rest[|needle|..]);
      assert Splits(e, e[..i], rest[..|needle|], rest[|needle|..]);
    }
    if before, word, after :| Splits(e, before, word, after) && EqualsIgnoreAsciiCase(word, needle) {
      assert e[|before|..] == word + after;
      assert e[|before|..][..|needle|] == word;
    }
  }

  lemma CastInside(e: string)
    ensures ContainsCast(e) <==> exists before, after :: Splits(e, before, "::", after)
  {
    if i :| 0 <= i < |e| - 1 && e[i] == ':' && e[i + 1] == ':' {
      assert Splits(e, e[..i], "::", e[i + 2..]);
    }
    if before, after :| Splits(e, before, "::", after) {
      assert e[|before|] == ':' && e[|before| + 1] == ':';
    }
  }

  /** A literal is refused exactly for a cast or a subquery inside it, or for content that does not fit the column. */
  lemma LiteralsParse(e: string, typ: PgType)
    requires IsLiteral(e)
    ensures ParseDefault(e, typ).None? <==>
            || (exists before, after :: Splits(e, before, "::", after))
            || (exists before, word, after ::
                  Splits(e, before, word, after) && EqualsIgnoreAsciiCase(word, "select "))
            || !ContentFits(e, typ)
  {
    LiteralAtom(e);
    AtomNormal(e);
    LiteralStarts(e);
    ClassifiedLiteral(e, typ);
    ContainsExactly(e, "select ");
    CastInside(e);
  }

  lemma ClassifiedLiteral(e: string, typ: PgType)
    requires IsLiteral(e) && e != [] && !EqualsIgnoreAsciiCase(e, "null")
    requires !StartsWithIgnoreAsciiCase(e, "nextval(")
    requires !StartsWithIgnoreAsciiCase(e, "array[") && !StartsWithIgnoreAsciiCase(e, "array ")
    ensures Classify(e, typ).Some? <==>
            !ContainsCast(e) && !ContainsIgnoreAsciiCase(e, "select ") && ContentFits(e, typ)
  {
  }

  /** The shortest example of a cast that stands on a cast and is kept. */
  lemma DoubleCastExample()
    ensures Normalize("1::a::b") != "1"
  {
    PlainAtom("1");
    PlainScan("a", 0);
    PlainScan("b", 0);
    var w := Cast(Cast(Core("1"), "", "", "a"), "", "", "b");
    assert "" + Render(w) + "" == "1::a::b";
    UnwrapsExactly("", w, "");
  }

  /** An operation that starts with a parenthesis is a core of its own, and keeps a cast on it. */
  lemma OperationExample()
    ensures Atom("(1)+2") && Normalize("(1)+2::a") != "(1)+2"
  {
    OperationScan();
    PlainScan("a", 0);
    var w := Cast(Core("(1)+2"), "", "", "a");
    assert "" + Render(w) + "" == "(1)+2::a";
    UnwrapsExactly("", w, "");
  }

  lemma OperationScan()
    ensures Atom("(1)+2") && HasOperator("(1)+2", 0, true)
  {
    var s := "(1)+2";
    assert s[1..] == "1)+2" && "1)+2"[1..] == ")+2" && ")+2"[1..] == "+2" && "+2"[1..] == "2" && "2"[1..] == "";
    assert Depth("+2", 0) == Depth("2", 0) == Depth("", 0);
    assert Depth(s, 0) == Depth("1)+2", 1) == Depth(")+2", 1) == Depth("+2", 0);
    assert CastStart("+2", 0) == None by {
      assert CastStart("2", 0) == Offset(1, CastStart("", 0));
    }
    assert CastStart(s, 0) == Offset(1, CastStart("1)+2", 1)) && CastStart("1)+2", 1) == Offset(1, CastStart(")+2", 1));
    assert HasOperator(s, 0, true) == HasOperator("1)+2", 1, false) == HasOperator(")+2", 1, false);
  }
}
