/**
 Defaults with PostgreSQL's type names on them. Type names are given by a grammar
 of their own: words with optional quotes, a schema, a length or precision and array
 brackets. Casts to them do not change what a literal is parsed as.
 */
module DefaultTypes {
  import opened Text
  import opened DefaultExpression
  import opened DefaultLayers
  import opened DefaultUnwrap
  import opened DefaultParsing

  // ---------- type names ----------

  datatype Word = Word(text: string, quoted: bool)

  datatype Modifier = NoModifier | Length(n: nat) | Precision(n: nat, m: nat)

  /** For example `numeric(10,2)`, `character varying`, `timestamp(3) without time zone` or `"Schema"."Type"[]`. */
  datatype TypeName = TypeName(
    schema: Option<Word>, words: seq<Word>, modifier: Modifier, tail: seq<Word>, arrays: nat)

  predicate IsWordChar(c: char) {
    'a' <= c <= 'z' || 'A' <= c <= 'Z' || '0' <= c <= '9' || c == '_'
  }

  predicate IsWord(w: Word) {
    w.text != [] && forall i | 0 <= i < |w.text| :: IsWordChar(w.text[i])
  }

  predicate AreWords(words: seq<Word>) {
    forall i | 0 <= i < |words| :: IsWord(words[i])
  }

  predicate IsTypeName(t: TypeName) {
    t.words != [] && AreWords(t.words) && AreWords(t.tail) && (t.schema.Some? ==> IsWord(t.schema.value))
  }

  function WordText(w: Word): string {
    if w.quoted then "\"" + w.text + "\"" else w.text
  }

  function WordsText(words: seq<Word>): string {
    if words == [] then ""
    else if |words| == 1 then WordText(words[0])
    else WordsText(words[..|words| - 1]) + (" " + WordText(words[|words| - 1]))
  }

  function ModifierText(m: Modifier): string {
    match m
    case NoModifier => ""
    case Length(n) => "(" + (Decimal(n) + ")")
    case Precision(n, k) => "(" + (Decimal(n) + ("," + (Decimal(k) + ")")))
  }

  function ArrayText(n: nat): string {
    if n == 0 then "" else "[]" + ArrayText(n - 1)
  }

  function TypeText(t: TypeName): string {
    (if t.schema.Some? then WordText(t.schema.value) + "." else "") +
    (WordsText(t.words) +
     (ModifierText(t.modifier) + ((if t.tail == [] then "" else " " + WordsText(t.tail)) + ArrayText(t.arrays))))
  }

  // ---------- what the scanners see of a type name ----------

  /** Text of type names that keeps the depth and is either empty or has no whitespace at its end. */
  ghost predicate Piece(s: string) {
    && (forall i | 0 <= i < |s| :: IsTypeChar(s[i]))
    && Depth(s, 0) == Some(0)
    && (s != [] ==> !IsWhitespace(s[|s| - 1]))
  }

  lemma NoQuote(s: string)
    requires forall i | 0 <= i < |s| :: IsTypeChar(s[i])
    ensures !StartsWith(s, '\'')
  {
  }

  lemma PieceAppend(s: string, u: string)
    requires Piece(s) && Piece(u)
    ensures Piece(s + u)
  {
    NoQuote(u);
    DepthAppend(s, u, 0);
    if u != [] {
      assert (s + u)[|s + u| - 1] == u[|u| - 1];
    } else {
      assert s + u == s;
    }
  }

  lemma {:induction false} FlatDepth(s: string, depth: nat)
    requires forall i | 0 <= i < |s| :: s[i] !in "'()"
    ensures Depth(s, depth) == Some(depth)
  {
    if s != [] {
      FlatDepth(s[1..], depth);
    }
  }

  lemma FlatPiece(s: string)
    requires forall i | 0 <= i < |s| :: IsTypeChar(s[i]) && s[i] !in "()"
    requires s != [] ==> !IsWhitespace(s[|s| - 1])
    ensures Piece(s)
  {
    FlatDepth(s, 0);
  }

  lemma WordChars(w: Word)
    requires IsWord(w)
    ensures WordText(w) != []
    ensures forall i | 0 <= i < |WordText(w)| ::
              var c := WordText(w)[i]; IsTypeChar(c) && c !in "()" && !IsWhitespace(c)
  {
    var s := WordText(w);
    forall i | 0 <= i < |s| ensures IsTypeChar(s[i]) && s[i] !in "()" && !IsWhitespace(s[i]) {
      if w.quoted && 0 < i < |s| - 1 {
        assert s[i] == w.text[i - 1];
      }
    }
  }

  lemma WordPiece(w: Word)
    requires IsWord(w)
    ensures Piece(WordText(w)) && WordText(w) != [] && !IsWhitespace(WordText(w)[0])
    ensures Piece(" " + WordText(w)) && Piece(WordText(w) + ".")
  {
    var s := WordText(w);
    WordChars(w);
    FlatPiece(s);
    FlatPiece(" " + s);
    FlatPiece(s + ".");
  }

  lemma {:induction false} WordsPiece(words: seq<Word>)
    requires AreWords(words)
    ensures Piece(WordsText(words))
    ensures words != [] ==> WordsText(words) != [] && !IsWhitespace(WordsText(words)[0])
  {
    if words == [] {
      FlatPiece("");
    } else {
      WordPiece(words[|words| - 1]);
      if |words| > 1 {
        WordsPiece(words[..|words| - 1]);
        PieceAppend(WordsText(words[..|words| - 1]), " " + WordText(words[|words| - 1]));
      }
    }
  }

  /** Digits and commas between parentheses. */
  lemma EnclosedPiece(s: string)
    requires forall i | 0 <= i < |s| :: IsDigit(s[i]) || s[i] == ','
    ensures Piece("(" + (s + ")"))
  {
    var t := "(" + (s + ")");
    FlatDepth(s, 1);
    DepthAppend(s, ")", 1);
    assert t[1..] == s + ")";
    assert ")"[1..] == "";
    assert Depth(")", 1) == Depth("", 0);
  }

  lemma ModifierPiece(m: Modifier)
    ensures Piece(ModifierText(m))
  {
    match m
    case NoModifier => FlatPiece("");
    case Length(n) =>
      DecimalDigits(n);
      EnclosedPiece(Decimal(n));
    case Precision(n, k) =>
      DecimalDigits(n);
      DecimalDigits(k);
      EnclosedPiece(Decimal(n) + ("," + Decimal(k)));
      assert "(" + (Decimal(n) + ("," + Decimal(k)) + ")") == ModifierText(m);
  }

  lemma {:induction false} ArrayPiece(n: nat)
    ensures Piece(ArrayText(n))
  {
    FlatPiece("");
    if n > 0 {
      ArrayPiece(n - 1);
      FlatPiece("[]");
      PieceAppend("[]", ArrayText(n - 1));
    }
  }

  lemma TailPiece(words: seq<Word>)
    requires AreWords(words)
    ensures Piece(if words == [] then "" else " " + WordsText(words))
  {
    WordsPiece(words);
    if words != [] {
      SpacePiece(WordsText(words));
    }
  }

  lemma SpacePiece(s: string)
    requires Piece(s) && s != []
    ensures Piece(" " + s)
  {
    assert (" " + s)[1..] == s;
    assert Depth(" " + s, 0) == Depth(s, 0);
  }

  lemma SchemaPiece(schema: Option<Word>)
    requires schema.Some? ==> IsWord(schema.value)
    ensures var s := if schema.Some? then WordText(schema.value) + "." else "";
            Piece(s) && (s != [] ==> !IsWhitespace(s[0]))
  {
    FlatPiece("");
    if schema.Some? {
      WordPiece(schema.value);
    }
  }

  /** Pieces one after another, with a first one that does not start with whitespace. */
  lemma JoinPieces(schema: string, words: string, modifier: string, tail: string, arrays: string)
    requires Piece(schema) && Piece(words) && Piece(modifier) && Piece(tail) && Piece(arrays)
    requires words != [] && !IsWhitespace(words[0]) && (schema != [] ==> !IsWhitespace(schema[0]))
    ensures var t := schema + (words + (modifier + (tail + arrays)));
            Piece(t) && t != [] && !IsWhitespace(t[0])
  {
    PieceAppend(tail, arrays);
    PieceAppend(modifier, tail + arrays);
    PieceAppend(words, modifier + (tail + arrays));
    PieceAppend(schema, words + (modifier + (tail + arrays)));
  }

  /** Every type name of the grammar is one that normalization takes off. */
  lemma TypeNamesRegular(t: TypeName)
    requires IsTypeName(t)
    ensures IsCastTypeName(TypeText(t)) && IsTrimmed(TypeText(t)) && Balanced(TypeText(t))
  {
    SchemaPiece(t.schema);
    WordsPiece(t.words);
    ModifierPiece(t.modifier);
    TailPiece(t.tail);
    ArrayPiece(t.arrays);
    JoinPieces(
      if t.schema.Some? then WordText(t.schema.value) + "." else "", WordsText(t.words), ModifierText(t.modifier),
      if t.tail == [] then "" else " " + WordsText(t.tail), ArrayText(t.arrays));
  }

  // ---------- casts to type names come off ----------

  lemma LiteralNoOperator(e: string)
    requires IsLiteral(e)
    ensures !HasOperator(e, 0, true)
  {
    LiteralAtom(e);
    if IsStringLiteral(e) {
      assert AfterLiteral(e) == "";
    } else if IsNumericLiteral(e) {
      PlainScan(e[1..], 0);
    } else {
      BoolPlain(e);
      PlainScan(e[1..], 0);
    }
  }

  lemma BoolPlain(e: string)
    requires IsBoolLiteral(e)
    ensures e != [] && forall i | 0 <= i < |e| :: IsPlain(e[i])
  {
    forall i | 0 <= i < |e| ensures IsPlain(e[i]) {
      assert 'a' <= LowerAscii(e[i]) <= 'z';
    }
  }

  lemma CastText(x: string, s: string)
    ensures "" + Render(Cast(Core(x), "", "", s)) + "" == x + "::" + s
  {
    assert Render(Core(x)) == x;
    Associative(x, "::", s);
    assert "" + ("::" + ("" + s)) == "::" + s;
  }

  lemma CastComesOff(x: string, s: string)
    requires Atom(x) && IsCastTypeName(s) && IsTrimmed(s) && Balanced(s)
    ensures Normalize(x + "::" + s) == x <==> !HasOperator(x, 0, true)
  {
    CastText(x, s);
    CastRegular(x, s);
    UnwrapsExactly("", Cast(Core(x), "", "", s), "");
  }

  lemma CastRegular(x: string, s: string)
    requires Atom(x) && IsCastTypeName(s) && IsTrimmed(s) && Balanced(s)
    ensures var w := Cast(Core(x), "", "", s);
            Regular(w) && CoreText(w) == x && (Stuck(w) <==> HasOperator(x, 0, true))
  {
  }

  lemma CastOff(e: string, s: string, typ: PgType)
    requires Atom(e) && !HasOperator(e, 0, true) && IsCastTypeName(s) && IsTrimmed(s) && Balanced(s)
    ensures ParseDefault(e + "::" + s, typ) == ParseDefault(e, typ)
  {
    CastComesOff(e, s);
    AtomNormal(e);
  }

  /** A literal with a cast to any type name is parsed as the literal. */
  lemma CastsParse(e: string, t: TypeName, typ: PgType)
    requires IsLiteral(e) && IsTypeName(t)
    ensures ParseDefault(e + "::" + TypeText(t), typ) == ParseDefault(e, typ)
  {
    LiteralAtom(e);
    LiteralNoOperator(e);
    TypeNamesRegular(t);
    CastOff(e, TypeText(t), typ);
  }

  // ---------- other suffixes keep the cast ----------

  lemma SuffixFound(e: string, s: string)
    requires Atom(e)
    ensures CastStart(e + "::" + s, 0) == Some(|e|)
  {
    ColonsScan(s, "");
    assert "::" + s + "" == "::" + s;
    CastAppend(e, "::" + s, 0);
    assert e + "::" + s == e + ("::" + s);
  }

  /** A cast whose suffix is no type name stays as it is. */
  lemma SuffixStays(e: string, s: string)
    requires Atom(e) && e[0] != '(' && IsTrimmed(s) && s != [] && !IsCastTypeName(s)
    ensures Normalize(e + "::" + s) == e + "::" + s
  {
    var x := e + "::" + s;
    SuffixFound(e, s);
    StripCastFound(x, |e|);
    assert x[|e| + 2..] == s;
    TrimFixed(s);
    assert x[0] == e[0] && x[|x| - 1] == s[|s| - 1];
    TrimFixed(x);
    assert Strip(x) == x;
  }

  lemma KeptIsUnsupported(e: string, s: string, typ: PgType)
    ensures Classify(e + "::" + s, typ) == None
  {
    var x := e + "::" + s;
    assert x[|e|] == ':' && x[|e| + 1] == ':';
    assert ContainsCast(x);
  }

  /** A suffix with a character that no type name has keeps the cast, and the default is not parsed. */
  lemma OtherSuffixKept(e: string, s: string, typ: PgType, i: nat)
    requires IsLiteral(e) && IsTrimmed(s) && i < |s|
    requires !('a' <= s[i] <= 'z' || 'A' <= s[i] <= 'Z' || '0' <= s[i] <= '9' || s[i] in "_ \".[](),")
    ensures Normalize(e + "::" + s) == e + "::" + s && ParseDefault(e + "::" + s, typ) == None
  {
    LiteralAtom(e);
    LiteralOpens(e);
    assert !IsTypeChar(s[i]);
    SuffixStays(e, s);
    KeptIsUnsupported(e, s, typ);
  }

  ghost predicate TypeChars(s: string) {
    forall i | 0 <= i < |s| ::
      'a' <= s[i] <= 'z' || 'A' <= s[i] <= 'Z' || '0' <= s[i] <= '9' || s[i] in "_ \".[](),"
  }

  /** Of the suffixes that close their own parentheses, exactly those of these characters come off a literal. */
  lemma SuffixExactly(e: string, s: string)
    requires IsLiteral(e) && s != [] && IsTrimmed(s) && Balanced(s)
    ensures Normalize(e + "::" + s) == e <==> TypeChars(s)
  {
    if TypeChars(s) {
      assert IsCastTypeName(s);
      LiteralAtom(e);
      LiteralNoOperator(e);
      CastComesOff(e, s);
    } else {
      var i :| 0 <= i < |s| &&
               !('a' <= s[i] <= 'z' || 'A' <= s[i] <= 'Z' || '0' <= s[i] <= '9' || s[i] in "_ \".[](),");
      OtherSuffixKept(e, s, Bool, i);
    }
  }

  lemma LiteralOpens(e: string)
    requires IsLiteral(e)
    ensures e != [] && e[0] != '('
  {
    LiteralAtom(e);
    if IsNumericLiteral(e) {
    } else if IsBoolLiteral(e) {
      BoolPlain(e);
    }
  }

  // ---------- which operations keep a cast ----------

  ghost predicate AllPlain(s: string) {
    s != [] && forall i | 0 <= i < |s| :: 'a' <= s[i] <= 'z' || 'A' <= s[i] <= 'Z' || '0' <= s[i] <= '9' || s[i] == '.'
  }

  lemma {:induction false} PlainPrefix(a: string, u: string, first: bool)
    requires AllPlain(a)
    ensures HasOperator(a + u, 0, first) == HasOperator(u, 0, false)
    decreases |a|
  {
    assert (a + u)[1..] == a[1..] + u && (a + u)[0] == a[0];
    if |a| == 1 {
      assert a[1..] + u == u;
    } else {
      PlainPrefix(a[1..], u, false);
    }
  }

  /** Two plain operands with something between them that is no quote, parenthesis or colon. */
  lemma OperationScans(a: string, between: string, b: string)
    requires AllPlain(a) && AllPlain(b) && forall i | 0 <= i < |between| :: between[i] !in "'():"
    ensures Atom(a + between + b)
  {
    var x := a + between + b;
    forall i | 0 <= i < |x| ensures x[i] !in "'():" {
      if i >= |a| + |between| {
        assert x[i] == b[i - |a| - |between|];
      }
    }
    FlatDepth(x, 0);
    NoCastIn(x, 0);
    assert x[0] == a[0] && x[|x| - 1] == b[|b| - 1];
  }

  lemma {:induction false} NoCastIn(s: string, depth: nat)
    requires forall i | 0 <= i < |s| :: s[i] !in "'():"
    ensures CastStart(s, depth) == None
  {
    if s != [] {
      NoCastIn(s[1..], depth);
    }
  }

  lemma CharOperator(c: char, b: string)
    requires AllPlain(b) && c !in "'():"
    ensures HasOperator([c] + b, 0, false) <==> c in "+-*/%"
  {
    var x := [c] + b;
    assert x[1..] == b;
    PlainScan(b, 0);
  }

  lemma BarsOperator(b: string)
    ensures HasOperator("||" + b, 0, false)
  {
  }

  lemma KeptOnOperation(x: string, t: TypeName)
    requires Atom(x) && IsTypeName(t)
    ensures Normalize(x + "::" + TypeText(t)) == x <==> !HasOperator(x, 0, true)
  {
    TypeNamesRegular(t);
    CastComesOff(x, TypeText(t));
  }

  /** Of the characters that can stand between two operands, exactly the five operators keep a cast on them. */
  lemma OperatorsExactly(a: string, c: char, b: string, t: TypeName)
    requires AllPlain(a) && AllPlain(b) && c !in "'():" && IsTypeName(t)
    ensures Normalize(a + [c] + b + "::" + TypeText(t)) == a + [c] + b <==> c !in "+-*/%"
  {
    OperationScans(a, [c], b);
    assert a + [c] + b == a + ([c] + b);
    PlainPrefix(a, [c] + b, true);
    CharOperator(c, b);
    KeptOnOperation(a + [c] + b, t);
  }

  /** Concatenation keeps a cast as well. */
  lemma ConcatenationKeeps(a: string, b: string, t: TypeName)
    requires AllPlain(a) && AllPlain(b) && IsTypeName(t)
    ensures Normalize(a + "||" + b + "::" + TypeText(t)) != a + "||" + b
  {
    OperationScans(a, "||", b);
    assert a + "||" + b == a + ("||" + b);
    PlainPrefix(a, "||" + b, true);
    BarsOperator(b);
    KeptOnOperation(a + "||" + b, t);
  }

  lemma PrecisionText()
    ensures var t := TypeName(None, [Word("dec", false)], Precision(9, 2), [], 0);
            IsTypeName(t) && TypeText(t) == "dec(9,2)"
  {
    var t := TypeName(None, [Word("dec", false)], Precision(9, 2), [], 0);
    assert WordsText(t.words) == "dec" && Decimal(9) == "9" && Decimal(2) == "2";
  }

  /** A cast with a precision as it is written. */
  lemma PrecisionExample()
    ensures ParseDefault("7::dec(9,2)", NumericType) == Some(NumericLiteral("7"))
  {
    PrecisionText();
    assert "7" + "::" + "dec(9,2)" == "7::dec(9,2)";
    assert IsNumericLiteral("7");
    CastsParse("7", TypeName(None, [Word("dec", false)], Precision(9, 2), [], 0), NumericType);
    NumberByType("7", NumericType);
  }

  // ---------- literals by column type ----------

  /** Neither a colon nor the letter that starts a subquery. */
  ghost predicate Harmless(e: string) {
    forall i | 0 <= i < |e| :: e[i] != ':' && LowerAscii(e[i]) != 's'
  }

  lemma NoSubquery(e: string)
    requires Harmless(e)
    ensures !ContainsCast(e) && !ContainsIgnoreAsciiCase(e, "select ")
  {
    forall i | 0 <= i <= |e| ensures !StartsWithIgnoreAsciiCase(e[i..], "select ") {
      if i < |e| {
        assert e[i..][0] == e[i];
      }
    }
  }

  lemma HarmlessParses(e: string, typ: PgType)
    requires IsLiteral(e) && Harmless(e)
    ensures ParseDefault(e, typ) == Classify(e, typ) && !IsUnsupported(e)
    ensures e != [] && !EqualsIgnoreAsciiCase(e, "null")
  {
    NoSubquery(e);
    LiteralStarts(e);
    assert !IsUnsupported(e);
    assert Normalize(e) == e by {
      LiteralAtom(e);
      AtomNormal(e);
    }
  }

  lemma NumericHarmless(n: string)
    requires IsNumericLiteral(n)
    ensures Harmless(n) && Harmless("'" + n + "'") && !StartsWith(n, '\'')
  {
    var body := WithoutSign(n);
    forall i | 0 <= i < |n| ensures n[i] != ':' && LowerAscii(n[i]) != 's' && n[i] != '\'' {
      if !(i == 0 && n[0] in "+-") {
        assert n[i] == body[i - (|n| - |body|)];
      }
    }
  }

  /** What a number gives for each type of column. */
  lemma NumberByType(n: string, typ: PgType)
    requires IsNumericLiteral(n)
    ensures ParseDefault(n, typ) ==
            Some(match typ
                 case Char | BpChar | VarChar | Name | TextType => StringLiteral("'" + n + "'")
                 case _ => NumericLiteral(n))
  {
    NumericHarmless(n);
    HarmlessParses(n, typ);
    ClassifyNumber(n, typ);
  }

  lemma ClassifyNumber(n: string, typ: PgType)
    requires IsNumericLiteral(n) && !StartsWith(n, '\'') && !IsUnsupported(n)
    requires n != [] && !EqualsIgnoreAsciiCase(n, "null")
    ensures Classify(n, typ) ==
            Some(match typ
                 case Char | BpChar | VarChar | Name | TextType => StringLiteral("'" + n + "'")
                 case _ => NumericLiteral(n))
  {
  }

  lemma QuotedNumber(n: string)
    requires IsNumericLiteral(n)
    ensures IsStringLiteral("'" + n + "'") && Unquote("'" + n + "'") == Some(n) && !IsBoolLiteral(n)
  {
    NumericHarmless(n);
    NumericIsNotBool(n);
    PlainDouble(n);
    UnquoteExact("'" + n + "'", n);
  }

  lemma {:induction false} PlainDouble(s: string)
    requires forall i | 0 <= i < |s| :: s[i] != '\''
    ensures Double(s) == s
  {
    if s != [] {
      PlainDouble(s[1..]);
    }
  }

  /** What a quoted number gives for each type of column. */
  lemma QuotedNumberByType(n: string, typ: PgType)
    requires IsNumericLiteral(n)
    ensures var e := "'" + n + "'";
            ParseDefault(e, typ) ==
            match typ
            case Bool => None
            case Int2 | Int4 | Int8 | Float4 | Float8 | NumericType | Oid => Some(NumericLiteral(n))
            case Date => Some(DateLiteral(e))
            case Time => Some(TimeLiteral(e))
            case TimeTz => Some(TimeTzLiteral(e))
            case Timestamp => Some(TimestampLiteral(e))
            case TimestampTz => Some(TimestampTzLiteral(e))
            case Interval => Some(IntervalLiteral(e))
            case Json | Jsonb => Some(JsonLiteral(e))
            case _ => Some(StringLiteral(e))
  {
    var e := "'" + n + "'";
    NumericHarmless(n);
    QuotedNumber(n);
    HarmlessParses(e, typ);
    assert Classify(e, typ) == ParseStringLiteral(e, typ);
    ClassifyQuoted(e, n, typ);
  }

  lemma ClassifyQuoted(e: string, n: string, typ: PgType)
    requires Unquote(e) == Some(n) && IsNumericLiteral(n) && !IsBoolLiteral(n)
    ensures ParseStringLiteral(e, typ) ==
            match typ
            case Bool => None
            case Int2 | Int4 | Int8 | Float4 | Float8 | NumericType | Oid => Some(NumericLiteral(n))
            case Date => Some(DateLiteral(e))
            case Time => Some(TimeLiteral(e))
            case TimeTz => Some(TimeTzLiteral(e))
            case Timestamp => Some(TimestampLiteral(e))
            case TimestampTz => Some(TimestampTzLiteral(e))
            case Interval => Some(IntervalLiteral(e))
            case Json | Jsonb => Some(JsonLiteral(e))
            case _ => Some(StringLiteral(e))
  {
  }

  /** What the boolean words, in any case, give for each type of column. */
  lemma BoolByType(word: string, typ: PgType)
    requires EqualsIgnoreAsciiCase(word, "true") || EqualsIgnoreAsciiCase(word, "false")
    ensures ParseDefault(word, typ) ==
            Some(match typ
                 case Char | BpChar | VarChar | Name | TextType => StringLiteral("'" + word + "'")
                 case _ => BooleanLiteral(word))
  {
    BoolWord(word);
    LiteralAtom(word);
    AtomNormal(word);
    LiteralStarts(word);
    ClassifyBool(word, typ);
  }

  lemma BoolWord(word: string)
    requires EqualsIgnoreAsciiCase(word, "true") || EqualsIgnoreAsciiCase(word, "false")
    ensures IsBoolLiteral(word) && !IsNumericLiteral(word) && !IsStringLiteral(word) && !IsUnsupported(word)
  {
    assert 4 <= |word| <= 5 && LowerAscii(word[0]) in "tf";
    BoolHasNoDigit(word);
    assert WithoutSign(word) == word;
    BoolPlain(word);
  }

  lemma ClassifyBool(word: string, typ: PgType)
    requires IsBoolLiteral(word) && !IsNumericLiteral(word) && !IsStringLiteral(word) && !IsUnsupported(word)
    requires word != [] && !EqualsIgnoreAsciiCase(word, "null")
    ensures Classify(word, typ) ==
            Some(match typ
                 case Char | BpChar | VarChar | Name | TextType => StringLiteral("'" + word + "'")
                 case _ => BooleanLiteral(word))
  {
  }
}
