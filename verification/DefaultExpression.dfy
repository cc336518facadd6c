/**
 Column defaults as PostgreSQL prints them: scanners over quotes and parentheses,
 the normalizer that takes off casts and parentheses, and the literals accepted.
 */
module DefaultExpression {
  import opened Text

  // ---------- scanning ----------

  function Offset(n: nat, o: Option<nat>): Option<nat> {
    match o
    case None => None
    case Some(k) => Some(n + k)
  }

  lemma OffsetTwice(n: nat, m: nat, o: Option<nat>)
    ensures Offset(n, Offset(m, o)) == Offset(n + m, o)
  {
  }

  predicate StartsWith(s: string, c: char) {
    s != [] && s[0] == c
  }

  predicate StartsTwice(s: string, c: char) {
    |s| > 1 && s[0] == c && s[1] == c
  }

  /** How far a string literal reaches, from the character after its opening quote; doubled quotes are content. */
  function CloseQuote(s: string): (end: Option<nat>)
    ensures end.Some? ==> 0 < end.value <= |s|
  {
    if s == [] then None
    else if StartsTwice(s, '\'') then Offset(2, CloseQuote(s[2..]))
    else if s[0] == '\'' then Some(1)
    else Offset(1, CloseQuote(s[1..]))
  }

  /** The text after a literal; nothing is left after one that is not closed. */
  function AfterLiteral(s: string): (rest: string)
    requires StartsWith(s, '\'')
    ensures |rest| < |s|
  {
    match CloseQuote(s[1..])
    case None => ""
    case Some(end) => s[1 + end..]
  }

  /** The first `::` outside of parentheses and literals. */
  function CastStart(s: string, depth: nat): Option<nat>
    decreases |s|
  {
    if s == [] then None
    else if s[0] == '\'' then Offset(|s| - |AfterLiteral(s)|, CastStart(AfterLiteral(s), depth))
    else if s[0] == '(' then Offset(1, CastStart(s[1..], depth + 1))
    else if s[0] == ')' then Offset(1, CastStart(s[1..], if depth == 0 then 0 else depth - 1))
    else if depth == 0 && StartsTwice(s, ':') then Some(0)
    else Offset(1, CastStart(s[1..], depth))
  }

  lemma {:induction false} CastFound(s: string, depth: nat)
    ensures var start := CastStart(s, depth);
            start.Some? ==> start.value + 2 <= |s| && s[start.value] == s[start.value + 1] == ':'
    decreases |s|
  {
    if s == [] {
    } else if s[0] == '\'' {
      CastFound(AfterLiteral(s), depth);
    } else if s[0] == '(' {
      CastFound(s[1..], depth + 1);
    } else if s[0] == ')' {
      CastFound(s[1..], if depth == 0 then 0 else depth - 1);
    } else {
      CastFound(s[1..], depth);
    }
  }

  predicate IsOperator(s: string)
    requires s != []
  {
    s[0] in "+-*/%" || StartsTwice(s, '|')
  }

  /** Whether a binary operator stands outside of parentheses and literals; a sign that opens the text is none. */
  predicate HasOperator(s: string, depth: nat, first: bool)
    decreases |s|
  {
    if s == [] then false
    else if s[0] == '\'' then HasOperator(AfterLiteral(s), depth, false)
    else if s[0] == '(' then HasOperator(s[1..], depth + 1, false)
    else if s[0] == ')' then HasOperator(s[1..], if depth == 0 then 0 else depth - 1, false)
    else if depth == 0 && first && s[0] in "+-" then HasOperator(s[1..], depth, false)
    else if depth == 0 && IsOperator(s) then true
    else HasOperator(s[1..], depth, false)
  }

  /** Whether the parentheses open at `depth` are all closed, and only by the last character. */
  predicate ClosesAtEnd(s: string, depth: nat)
    decreases |s|
  {
    if s == [] then depth == 0
    else if s[0] == '\'' then ClosesAtEnd(AfterLiteral(s), depth)
    else if s[0] == '(' then ClosesAtEnd(s[1..], depth + 1)
    else if s[0] == ')' then depth > 0 && (depth > 1 || |s| == 1) && ClosesAtEnd(s[1..], depth - 1)
    else ClosesAtEnd(s[1..], depth)
  }

  method StringLiteralEnd(bytes: string, start: nat) returns (end: Option<nat>)
    ensures end == if start < |bytes| && bytes[start] == '\''
                   then Offset(start + 1, CloseQuote(bytes[start + 1..])) else None
  {
    if !(start < |bytes| && bytes[start] == '\'') {
      return None;
    }
    var index := start + 1;
    while index < |bytes|
      invariant start + 1 <= index <= |bytes|
      invariant Offset(index, CloseQuote(bytes[index..])) == Offset(start + 1, CloseQuote(bytes[start + 1..]))
    {
      ghost var left := bytes[index..];
      assert left[1..] == bytes[index + 1..];
      if bytes[index] == '\'' {
        if index + 1 < |bytes| && bytes[index + 1] == '\'' {
          assert left[2..] == bytes[index + 2..];
          index := index + 2;
        } else {
          return Some(index + 1);
        }
      } else {
        index := index + 1;
      }
    }
    return None;
  }

  method SkipStringLiteral(bytes: string, index: nat) returns (next: nat)
    requires index < |bytes| && bytes[index] == '\''
    ensures index < next <= |bytes| && bytes[next..] == AfterLiteral(bytes[index..])
    ensures next - index == |bytes[index..]| - |AfterLiteral(bytes[index..])|
  {
    assert bytes[index..][1..] == bytes[index + 1..];
    var end := StringLiteralEnd(bytes, index);
    if end.None? {
      return |bytes|;
    }
    return end.value;
  }

  /** The scan for a cast that finds `goal` has come to `index` at `depth`. */
  ghost predicate CastScanAt(bytes: string, index: nat, depth: nat, goal: Option<nat>) {
    index <= |bytes| && Offset(index, CastStart(bytes[index..], depth)) == goal
  }

  function DepthAfter(c: char, depth: nat): nat {
    if c == '(' then depth + 1 else if c == ')' && depth > 0 then depth - 1 else depth
  }

  lemma CastScanChar(bytes: string, index: nat, depth: nat, goal: Option<nat>)
    requires index < |bytes| && CastScanAt(bytes, index, depth, goal) && bytes[index] != '\''
    requires !(depth == 0 && StartsTwice(bytes[index..], ':'))
    ensures CastScanAt(bytes, index + 1, DepthAfter(bytes[index], depth), goal)
  {
    assert bytes[index..][1..] == bytes[index + 1..];
  }

  lemma CastScanLiteral(bytes: string, index: nat, next: nat, depth: nat, goal: Option<nat>)
    requires index < next <= |bytes| && CastScanAt(bytes, index, depth, goal) && bytes[index] == '\''
    requires bytes[next..] == AfterLiteral(bytes[index..])
    ensures CastScanAt(bytes, next, depth, goal)
  {
    assert |bytes[index..]| - |bytes[next..]| == next - index;
    OffsetTwice(index, next - index, CastStart(bytes[next..], depth));
  }

  method TopLevelCastStart(bytes: string) returns (r: Option<nat>)
    ensures r == CastStart(bytes, 0)
  {
    var index: nat, depth: nat := 0, 0;
    ghost var goal := CastStart(bytes, 0);
    assert bytes[0..] == bytes;
    while index < |bytes|
      invariant CastScanAt(bytes, index, depth, goal)
    {
      var c := bytes[index];
      if c == '\'' {
        var next := SkipStringLiteral(bytes, index);
        CastScanLiteral(bytes, index, next, depth, goal);
        index := next;
      } else if c == ':' && depth == 0 && index + 1 < |bytes| && bytes[index + 1] == ':' {
        return Some(index);
      } else {
        CastScanChar(bytes, index, depth, goal);
        depth := if c == '(' then depth + 1 else if c == ')' && depth > 0 then depth - 1 else depth;
        index := index + 1;
      }
    }
    return None;
  }

  method HasTopLevelBinaryOperator(bytes: string) returns (r: bool)
    ensures r == HasOperator(bytes, 0, true)
  {
    var index: nat, depth: nat := 0, 0;
    ghost var goal := HasOperator(bytes, 0, true);
    assert bytes[0..] == bytes;
    while index < |bytes|
      invariant 0 <= index <= |bytes|
      invariant HasOperator(bytes[index..], depth, index == 0) == goal
    {
      ghost var left := bytes[index..];
      assert left[1..] == bytes[index + 1..];
      var c := bytes[index];
      if c == '\'' {
        index := SkipStringLiteral(bytes, index);
      } else if c == '(' {
        depth := depth + 1;
        index := index + 1;
      } else if c == ')' {
        depth := if depth == 0 then 0 else depth - 1;
        index := index + 1;
      } else if (c == '+' || c == '-') && depth == 0 && index == 0 {
        index := index + 1;
      } else if (c == '+' || c == '-' || c == '*' || c == '/' || c == '%') && depth == 0 {
        return true;
      } else if c == '|' && depth == 0 && index + 1 < |bytes| && bytes[index + 1] == '|' {
        return true;
      } else {
        index := index + 1;
      }
    }
    return false;
  }

  /** Whether one pair of parentheses encloses the whole expression. */
  predicate IsParenthesized(e: string) {
    StartsWith(e, '(') && e[|e| - 1] == ')' && ClosesAtEnd(e, 0)
  }

  function Inside(e: string): (r: string)
    requires |e| > 1
    ensures IsTrimmed(r) && |r| + 2 <= |e|
  {
    Trim(e[1..|e| - 1])
  }

  function StripOuterParens(e: string): string {
    var trimmed := Trim(e);
    if IsParenthesized(trimmed) then Inside(trimmed) else trimmed
  }

  method ScanOuterParens(bytes: string) returns (r: bool)
    ensures r == ClosesAtEnd(bytes, 0)
  {
    var index: nat, depth: nat := 0, 0;
    ghost var goal := ClosesAtEnd(bytes, 0);
    assert bytes[0..] == bytes;
    while index < |bytes|
      invariant 0 <= index <= |bytes|
      invariant ClosesAtEnd(bytes[index..], depth) == goal
    {
      ghost var left := bytes[index..];
      assert left[1..] == bytes[index + 1..];
      var c := bytes[index];
      if c == '\'' {
        index := SkipStringLiteral(bytes, index);
      } else if c == '(' {
        depth := depth + 1;
        index := index + 1;
      } else if c == ')' {
        if depth == 0 {
          return false;
        }
        depth := depth - 1;
        if depth == 0 && index != |bytes| - 1 {
          return false;
        }
        index := index + 1;
      } else {
        index := index + 1;
      }
    }
    return depth == 0;
  }

  method TakeOffParens(e: string) returns (r: string)
    ensures r == StripOuterParens(e)
  {
    var trimmed := Trim(e);
    if trimmed == [] || trimmed[0] != '(' || trimmed[|trimmed| - 1] != ')' {
      return trimmed;
    }
    var wrapped := ScanOuterParens(trimmed);
    if !wrapped {
      return trimmed;
    }
    return Inside(trimmed);
  }

  // ---------- normalization ----------

  predicate IsTypeChar(c: char) {
    'a' <= c <= 'z' || 'A' <= c <= 'Z' || '0' <= c <= '9' || c in "_ \".[](),"
  }

  /** A cast suffix that looks like a plain type name. */
  predicate IsCastTypeName(t: string) {
    t != [] && forall i | 0 <= i < |t| :: IsTypeChar(t[i])
  }

  /** Takes off the cast at `start` if its suffix is a type name and its subject no operation. */
  function StripCastAt(e: string, start: nat): string
    requires start + 2 <= |e|
  {
    var subject := Trim(e[..start]);
    if IsCastTypeName(Trim(e[start + 2..])) && !HasOperator(subject, 0, true) then subject else e
  }

  function StripCast(e: string): string {
    match CastStart(e, 0)
    case None => e
    case Some(start) =>
      CastFound(e, 0);
      StripCastAt(e, start)
  }

  lemma StripCastFound(e: string, start: nat)
    requires CastStart(e, 0) == Some(start)
    ensures start + 2 <= |e| && StripCast(e) == StripCastAt(e, start)
  {
    CastFound(e, 0);
  }

  method TakeOffCast(e: string) returns (r: string)
    ensures r == StripCast(e)
  {
    var start := TopLevelCastStart(e);
    match start {
      case None => return e;
      case Some(k) =>
        CastFound(e, 0);
        var typeName, subject := Trim(e[k + 2..]), Trim(e[..k]);
        var operator := HasTopLevelBinaryOperator(subject);
        return if IsCastTypeName(typeName) && !operator then subject else e;
    }
  }

  /** One rewrite: at most one cast and then one pair of parentheses. */
  function Strip(e: string): string {
    StripOuterParens(StripCast(e))
  }

  lemma StripCastShrinks(e: string)
    requires IsTrimmed(e)
    ensures IsTrimmed(StripCast(e))
    ensures StripCast(e) == e || |StripCast(e)| + 2 <= |e|
  {
    CastFound(e, 0);
    match CastStart(e, 0)
    case None =>
    case Some(start) => assert StripCast(e) == e || StripCast(e) == Trim(e[..start]);
  }

  lemma StripParensShrinks(e: string)
    requires IsTrimmed(e)
    ensures IsTrimmed(StripOuterParens(e))
    ensures StripOuterParens(e) == e || |StripOuterParens(e)| + 2 <= |e|
  {
    TrimFixed(e);
    assert StripOuterParens(e) == e || StripOuterParens(e) == Inside(e);
  }

  lemma StripShrinks(e: string)
    requires IsTrimmed(e)
    ensures IsTrimmed(Strip(e))
    ensures Strip(e) == e || |Strip(e)| + 2 <= |e|
  {
    StripCastShrinks(e);
    StripParensShrinks(StripCast(e));
  }

  /** Rewriting until nothing changes. */
  function Settle(e: string): (r: string)
    requires IsTrimmed(e)
    ensures IsTrimmed(r) && Strip(r) == r && |r| <= |e|
    decreases |e|
  {
    StripShrinks(e);
    if Strip(e) == e then e else Settle(Strip(e))
  }

  function Normalize(expression: string): string {
    Settle(Trim(expression))
  }

  /** A bounded loop with two defensive guards; a guard is hit only when there is nothing to normalize. */
  method NormalizePostgresExpression(input: string) returns (r: string, guarded: bool)
    ensures r == Normalize(input)
    ensures guarded <==> AllWhitespace(input)
  {
    var expression := Trim(input);
    TrimBlank(input);
    var limit := |expression|;
    for i := 0 to limit
      invariant IsTrimmed(expression) && Settle(expression) == Normalize(input)
      invariant |expression| + 2 * i <= limit
    {
      StripShrinks(expression);
      var subject := TakeOffCast(expression);
      var stripped := TakeOffParens(subject);
      if stripped == expression {
        return expression, false;
      }
      if |stripped| >= |expression| {
        return expression, true;
      }
      expression := stripped;
    }
    return expression, true;
  }

  lemma TrimBlank(s: string)
    ensures Trim(s) == [] <==> AllWhitespace(s)
  {
    var left, right := TrimSplit(s);
    if Trim(s) == [] {
      assert s == left + right;
    } else {
      assert s[|left|] == Trim(s)[0];
    }
  }

  lemma NormalizeIdempotent(expression: string)
    ensures Normalize(Normalize(expression)) == Normalize(expression)
  {
    TrimFixed(Normalize(expression));
  }

  // ---------- string literals ----------

  predicate IsStringLiteral(e: string) {
    StartsWith(e, '\'') && CloseQuote(e[1..]) == Some(|e| - 1)
  }

  /** Rust's `replace("''", "'")`. */
  function Undouble(s: string): string {
    if s == [] then ""
    else if StartsTwice(s, '\'') then "\'" + Undouble(s[2..])
    else [s[0]] + Undouble(s[1..])
  }

  function Double(s: string): string {
    if s == [] then ""
    else (if s[0] == '\'' then "\'\'" else [s[0]]) + Double(s[1..])
  }

  function Quote(content: string): string {
    "\'" + Double(content) + "\'"
  }

  function Unquote(e: string): Option<string> {
    if !IsStringLiteral(e) then None else Some(Undouble(e[1..|e| - 1]))
  }

  lemma {:induction false} DoubledScan(content: string)
    ensures CloseQuote(Double(content) + "\'") == Some(|Double(content)| + 1)
    ensures Undouble(Double(content)) == content
  {
    if content != [] {
      var rest := Double(content[1..]);
      DoubledScan(content[1..]);
      if content[0] == '\'' {
        assert (Double(content) + "\'")[2..] == rest + "\'";
        assert Double(content)[2..] == rest;
      } else {
        assert (Double(content) + "\'")[1..] == rest + "\'";
        assert Double(content)[1..] == rest;
      }
    }
  }

  /** Whatever closes at its last character is a doubled text and the closing quote. */
  lemma {:induction false} ClosedIsDoubled(s: string)
    requires CloseQuote(s) == Some(|s|)
    ensures s == Double(Undouble(s[..|s| - 1])) + "\'"
  {
    if StartsTwice(s, '\'') {
      ClosedIsDoubled(s[2..]);
      UndoublePair(s);
    } else if s[0] != '\'' {
      ClosedIsDoubled(s[1..]);
      UndoubleChar(s);
    }
  }

  lemma UndoublePair(s: string)
    requires |s| > 2 && StartsTwice(s, '\'')
    ensures Undouble(s[..|s| - 1]) == "\'" + Undouble(s[2..][..|s| - 3])
    ensures Double(Undouble(s[..|s| - 1])) == "\'\'" + Double(Undouble(s[2..][..|s| - 3]))
    ensures s == "\'\'" + s[2..]
  {
    var body, rest := s[..|s| - 1], Undouble(s[2..][..|s| - 3]);
    assert body[2..] == s[2..][..|s| - 3];
    assert ("\'" + rest)[1..] == rest;
  }

  lemma UndoubleChar(s: string)
    requires |s| > 1 && s[0] != '\''
    ensures Undouble(s[..|s| - 1]) == [s[0]] + Undouble(s[1..][..|s| - 2])
    ensures Double(Undouble(s[..|s| - 1])) == [s[0]] + Double(Undouble(s[1..][..|s| - 2]))
    ensures s == [s[0]] + s[1..]
  {
    var body, rest := s[..|s| - 1], Undouble(s[1..][..|s| - 2]);
    assert body[1..] == s[1..][..|s| - 2];
    assert ([s[0]] + rest)[1..] == rest;
  }

  /** Unquoting is the exact inverse of quoting. */
  lemma UnquoteExact(e: string, content: string)
    ensures Unquote(e) == Some(content) <==> e == Quote(content)
  {
    if IsStringLiteral(e) {
      ClosedIsDoubled(e[1..]);
      assert e[1..][..|e| - 2] == e[1..|e| - 1];
      assert e == "\'" + e[1..];
    }
    var quoted := Quote(content);
    DoubledScan(content);
    assert quoted[1..] == Double(content) + "\'";
    assert quoted[1..|quoted| - 1] == Double(content);
  }
}
