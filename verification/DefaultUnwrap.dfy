/**
 Which wrapped expressions normalization unwraps: all but those in which a cast
 stands directly on another cast or on an operation.
 */
module DefaultUnwrap {
  import opened Text
  import opened DefaultExpression
  import opened DefaultLayers

  // ---------- nesting depth ----------

  /** The depth after a text, when its literals are closed and no parenthesis closes below zero. */
  function Depth(s: string, depth: nat): Option<nat>
    decreases |s|
  {
    if s == [] then Some(depth)
    else if s[0] == '\'' then if CloseQuote(s[1..]).None? then None else Depth(AfterLiteral(s), depth)
    else if s[0] == '(' then Depth(s[1..], depth + 1)
    else if s[0] == ')' then if depth == 0 then None else Depth(s[1..], depth - 1)
    else Depth(s[1..], depth)
  }

  predicate Balanced(s: string) {
    Depth(s, 0) == Some(0)
  }

  lemma {:induction false} CloseAppend(s: string, u: string)
    requires CloseQuote(s).Some? && !StartsWith(u, '\'')
    ensures CloseQuote(s + u) == CloseQuote(s)
  {
    if StartsTwice(s, '\'') {
      CloseAppend(s[2..], u);
      assert (s + u)[2..] == s[2..] + u;
    } else if s[0] != '\'' {
      CloseAppend(s[1..], u);
      assert (s + u)[1..] == s[1..] + u;
    }
  }

  lemma LiteralAppend(s: string, u: string)
    requires StartsWith(s, '\'') && CloseQuote(s[1..]).Some? && !StartsWith(u, '\'')
    ensures CloseQuote((s + u)[1..]).Some? && AfterLiteral(s + u) == AfterLiteral(s) + u
  {
    CloseAppend(s[1..], u);
    assert (s + u)[1..] == s[1..] + u;
  }

  lemma TailAppend(s: string, u: string)
    requires s != []
    ensures (s + u)[0] == s[0] && (s + u)[1..] == s[1..] + u
  {
  }

  lemma {:induction false} DepthAppend(s: string, u: string, depth: nat)
    requires Depth(s, depth).Some? && !StartsWith(u, '\'')
    ensures Depth(s + u, depth) == Depth(u, Depth(s, depth).value)
    decreases |s|
  {
    if s == [] {
      assert s + u == u;
    } else {
      TailAppend(s, u);
      if s[0] == '\'' {
        LiteralAppend(s, u);
        DepthAppend(AfterLiteral(s), u, depth);
      } else {
        DepthAppend(s[1..], u, if s[0] == '(' then depth + 1 else if s[0] == ')' then depth - 1 else depth);
      }
    }
  }

  /** Inside enclosing parentheses a balanced text shows no cast. */
  lemma {:induction false} CastInside(s: string, u: string, depth: nat, outer: nat)
    requires Depth(s, depth).Some? && outer > 0 && !StartsWith(u, '\'')
    ensures CastStart(s + u, depth + outer) == Offset(|s|, CastStart(u, Depth(s, depth).value + outer))
    decreases |s|
  {
    if s == [] {
      assert s + u == u;
    } else {
      TailAppend(s, u);
      if s[0] == '\'' {
        LiteralAppend(s, u);
        CastInside(AfterLiteral(s), u, depth, outer);
      } else {
        CastInside(s[1..], u, if s[0] == '(' then depth + 1 else if s[0] == ')' then depth - 1 else depth, outer);
      }
    }
  }

  lemma {:induction false} OperatorInside(s: string, u: string, depth: nat, outer: nat)
    requires Depth(s, depth).Some? && outer > 0 && !StartsWith(u, '\'')
    ensures HasOperator(s + u, depth + outer, false) == HasOperator(u, Depth(s, depth).value + outer, false)
    decreases |s|
  {
    if s == [] {
      assert s + u == u;
    } else {
      TailAppend(s, u);
      if s[0] == '\'' {
        LiteralAppend(s, u);
        OperatorInside(AfterLiteral(s), u, depth, outer);
      } else {
        OperatorInside(s[1..], u, if s[0] == '(' then depth + 1 else if s[0] == ')' then depth - 1 else depth, outer);
      }
    }
  }

  lemma ClosesChar(s: string, u: string, depth: nat)
    requires s != [] && s[0] != '\'' && (s[0] == ')' ==> depth > 1)
    ensures ClosesAtEnd(s + u, depth) == ClosesAtEnd(s[1..] + u, DepthAfter(s[0], depth))
  {
    TailAppend(s, u);
  }

  lemma ClosesLiteral(s: string, u: string, depth: nat)
    requires StartsWith(s, '\'') && CloseQuote(s[1..]).Some? && !StartsWith(u, '\'')
    ensures ClosesAtEnd(s + u, depth) == ClosesAtEnd(AfterLiteral(s) + u, depth)
  {
    TailAppend(s, u);
    LiteralAppend(s, u);
  }

  lemma {:induction false} ClosesInside(s: string, u: string, depth: nat, outer: nat)
    requires Depth(s, depth).Some? && outer > 0 && !StartsWith(u, '\'')
    ensures ClosesAtEnd(s + u, depth + outer) == ClosesAtEnd(u, Depth(s, depth).value + outer)
    decreases |s|
  {
    if s == [] {
      assert s + u == u;
    } else if s[0] == '\'' {
      ClosesLiteral(s, u, depth + outer);
      ClosesInside(AfterLiteral(s), u, depth, outer);
    } else {
      ClosesChar(s, u, depth + outer);
      ClosesInside(s[1..], u, DepthAfter(s[0], depth), outer);
    }
  }

  /** After a balanced text without a cast, the first cast is the first one of what follows. */
  lemma {:induction false} CastAppend(s: string, u: string, depth: nat)
    requires Depth(s, depth).Some? && CastStart(s, depth) == None && !StartsWith(u, '\'')
    requires s != [] ==> s[|s| - 1] != ':'
    ensures CastStart(s + u, depth) == Offset(|s|, CastStart(u, Depth(s, depth).value))
    decreases |s|
  {
    if s == [] {
      assert s + u == u;
    } else {
      TailAppend(s, u);
      if s[0] == '\'' {
        LiteralAppend(s, u);
        CastAppend(AfterLiteral(s), u, depth);
      } else {
        CastAppend(s[1..], u, if s[0] == '(' then depth + 1 else if s[0] == ')' then depth - 1 else depth);
      }
    }
  }

  /** Whitespace leaves every scan where it was. */
  lemma {:induction false} BlankScan(s: string, u: string, depth: nat)
    requires AllWhitespace(s)
    ensures Depth(s, depth) == Some(depth)
    ensures CastStart(s + u, depth) == Offset(|s|, CastStart(u, depth))
  {
    if s == [] {
      assert s + u == u;
    } else {
      TailAppend(s, u);
      BlankScan(s[1..], u, depth);
    }
  }

  // ---------- regular layers ----------

  /** A core that no scan can mistake for a layer. */
  ghost predicate Atom(c: string) {
    && c != [] && IsTrimmed(c) && !IsParenthesized(c) && c[|c| - 1] != ':'
    && Balanced(c) && CastStart(c, 0) == None
  }

  /** Layers around an atom, in which the type names close their own parentheses. */
  ghost predicate Regular(w: Wrapped) {
    match w
    case Core(text) => Atom(text)
    case Parens(left, inner, right) => AllWhitespace(left) && AllWhitespace(right) && Regular(inner)
    case Cast(inner, gap, space, typeName) =>
      && AllWhitespace(gap) && AllWhitespace(space) && Regular(inner)
      && IsTrimmed(typeName) && IsCastTypeName(typeName) && Balanced(typeName)
  }

  /** A subject that keeps a cast on it: another cast, or an operation, which the cast would split. */
  predicate KeepsCast(w: Wrapped) {
    w.Cast? || (w.Core? && HasOperator(w.text, 0, true))
  }

  predicate Stuck(w: Wrapped) {
    match w
    case Core(_) => false
    case Parens(_, inner, _) => Stuck(inner)
    case Cast(inner, _, _, _) => KeepsCast(inner) || Stuck(inner)
  }

  /** What is left once the layers above the first kept cast are gone. */
  function Residue(w: Wrapped): Wrapped {
    match w
    case Core(_) => w
    case Parens(_, inner, _) => Residue(inner)
    case Cast(inner, _, _, _) => if KeepsCast(inner) then w else Residue(inner)
  }

  /** The text of a cast after its subject. */
  function CastSuffix(w: Wrapped): string
    requires w.Cast?
  {
    w.gap + ("::" + (w.space + w.typeName))
  }

  lemma SuffixScan(w: Wrapped, u: string)
    requires w.Cast? && Regular(w)
    ensures CastSuffix(w) != [] && !StartsWith(CastSuffix(w) + u, '\'')
    ensures CastSuffix(w)[|CastSuffix(w)| - 1] == w.typeName[|w.typeName| - 1]
    ensures CastStart(CastSuffix(w) + u, 0) == Some(|w.gap|)
    ensures Balanced(CastSuffix(w))
  {
    SuffixCast(w.gap, w.space + w.typeName, u);
    SuffixBalanced(w.gap, w.space, w.typeName);
    SuffixEnds(w.gap, w.space, w.typeName, u);
  }

  lemma SuffixEnds(gap: string, space: string, typeName: string, u: string)
    requires AllWhitespace(gap) && typeName != []
    ensures var suffix := gap + ("::" + (space + typeName));
            suffix[|suffix| - 1] == typeName[|typeName| - 1] && !StartsWith(suffix + u, '\'')
  {
  }

  lemma SuffixCast(gap: string, s: string, u: string)
    requires AllWhitespace(gap)
    ensures CastStart(gap + ("::" + s) + u, 0) == Some(|gap|)
  {
    ColonsScan(s, u);
    BlankScan(gap, "::" + s + u, 0);
    Associative(gap, "::" + s, u);
  }

  lemma SuffixBalanced(gap: string, space: string, typeName: string)
    requires AllWhitespace(gap) && AllWhitespace(space)
    ensures Depth(gap + ("::" + (space + typeName)), 0) == Depth(typeName, 0)
  {
    LeadingBlank(gap, "::" + (space + typeName), 0);
    ColonsScan(space + typeName, "");
    LeadingBlank(space, typeName, 0);
  }

  lemma ColonsScan(s: string, u: string)
    ensures CastStart("::" + s + u, 0) == Some(0)
    ensures Depth("::" + s, 0) == Depth(s, 0)
  {
    assert ("::" + s)[1..] == ":" + s && (":" + s)[1..] == s;
  }

  lemma {:induction false} LeadingBlank(s: string, u: string, depth: nat)
    requires AllWhitespace(s)
    ensures Depth(s + u, depth) == Depth(u, depth)
  {
    if s == [] {
      assert s + u == u;
    } else {
      TailAppend(s, u);
      LeadingBlank(s[1..], u, depth);
    }
  }

  lemma InsideBalanced(w: Wrapped)
    requires w.Parens? && Regular(w) && Balanced(Render(w.inner))
    ensures Balanced(w.left + Render(w.inner) + w.right)
  {
    var inner := Render(w.inner);
    BlankScan(w.left, "", 0);
    BlankScan(w.right, "", 0);
    Associative(w.left, inner, w.right);
    if w.right != [] {
      assert IsWhitespace(w.right[0]);
    }
    DepthAppend(inner, w.right, 0);
    LeadingBlank(w.left, inner + w.right, 0);
  }

  lemma {:induction false} RenderRegular(w: Wrapped)
    requires Regular(w)
    ensures var e := Render(w);
            e != [] && IsTrimmed(e) && Balanced(e) && e[|e| - 1] != ':'
    decreases w
  {
    match w
    case Core(_) =>
    case Parens(left, inner, right) =>
      RenderRegular(inner);
      InsideBalanced(w);
      ParensBalanced(left + Render(inner) + right);
    case Cast(inner, _, _, _) =>
      RenderRegular(inner);
      SuffixScan(w, "");
      DepthAppend(Render(inner), CastSuffix(w), 0);
  }

  lemma ParensBalanced(s: string)
    requires Balanced(s)
    ensures Balanced("(" + s + ")")
  {
    var e := "(" + s + ")";
    assert e[1..] == s + ")";
    DepthShift(s, 0, 1);
    DepthAppend(s, ")", 1);
    assert ")"[1..] == "";
  }

  lemma {:induction false} DepthShift(s: string, depth: nat, outer: nat)
    requires Depth(s, depth).Some?
    ensures Depth(s, depth + outer) == Some(Depth(s, depth).value + outer)
    decreases |s|
  {
    if s == [] {
    } else if s[0] == '\'' {
      DepthShift(AfterLiteral(s), depth, outer);
    } else {
      DepthShift(s[1..], if s[0] == '(' then depth + 1 else if s[0] == ')' then depth - 1 else depth, outer);
    }
  }

  // ---------- what the scans find ----------

  lemma ParensText(s: string, u: string)
    ensures var e := "(" + s + ")";
            && e != [] && e[0] == '(' && e[1..] == s + ")"
            && e + u != [] && (e + u)[0] == '(' && (e + u)[1..] == s + (")" + u)
  {
  }

  /** A cast after a parenthesized balanced text is the first one. */
  lemma ParensCast(s: string, u: string)
    requires Balanced(s)
    ensures CastStart("(" + s + ")" + u, 0) == Offset(|s| + 2, CastStart(u, 0))
  {
    ParensText(s, u);
    CastInside(s, ")" + u, 0, 1);
    assert (")" + u)[1..] == u;
  }

  /** A parenthesized balanced text is no operation. */
  lemma ParensOperator(s: string)
    requires Balanced(s)
    ensures !HasOperator("(" + s + ")", 0, true)
  {
    ParensText(s, "");
    OperatorInside(s, ")", 0, 1);
    assert ")"[1..] == "";
  }

  /** Its first parenthesis is closed by its last. */
  lemma ParensClose(s: string, u: string)
    requires Balanced(s)
    ensures ClosesAtEnd("(" + s + ")" + u, 0) <==> u == []
  {
    ParensText(s, u);
    ClosesInside(s, ")" + u, 0, 1);
    assert (")" + u)[1..] == u;
  }

  /** The text between the parentheses. */
  function Between(w: Wrapped): string
    requires w.Parens?
  {
    w.left + Render(w.inner) + w.right
  }

  lemma BetweenBalanced(w: Wrapped)
    requires w.Parens? && Regular(w)
    ensures Balanced(Between(w)) && Render(w) == "(" + Between(w) + ")"
  {
    RenderRegular(w.inner);
    InsideBalanced(w);
  }

  lemma RenderParensCast(w: Wrapped, u: string)
    requires w.Parens? && Regular(w)
    ensures FindsCast(w, u)
  {
    BetweenBalanced(w);
    ParensCast(Between(w), u);
  }

  /** Where the innermost of the casts directly on each other starts. */
  function FirstCast(w: Wrapped): nat
    requires w.Cast?
  {
    if w.inner.Cast? then FirstCast(w.inner) else |Render(w.inner)| + |w.gap|
  }

  /** What scanning a wrapped expression and the text after it finds first. */
  ghost predicate FindsCast(w: Wrapped, u: string) {
    CastStart(Render(w) + u, 0) == if w.Cast? then Some(FirstCast(w)) else Offset(|Render(w)|, CastStart(u, 0))
  }

  lemma {:induction false} CastStartOf(w: Wrapped, u: string)
    requires Regular(w) && !StartsWith(u, '\'')
    ensures FindsCast(w, u)
    decreases w
  {
    match w
    case Core(text) => CastAppend(text, u, 0);
    case Parens(_, _, _) => RenderParensCast(w, u);
    case Cast(inner, _, _, _) =>
      SuffixScan(w, u);
      CastStartOf(inner, CastSuffix(w) + u);
      OuterCast(w, u);
  }

  lemma OuterCast(w: Wrapped, u: string)
    requires w.Cast? && AllWhitespace(w.gap) && FindsCast(w.inner, CastSuffix(w) + u)
    ensures FindsCast(w, u)
  {
    SuffixCast(w.gap, w.space + w.typeName, u);
    OuterCastText(
      Render(w.inner), CastSuffix(w), u, |w.gap|, if w.inner.Cast? then Some(FirstCast(w.inner)) else None);
  }

  lemma OuterCastText(subject: string, suffix: string, u: string, gap: nat, cast: Option<nat>)
    requires CastStart(suffix + u, 0) == Some(gap)
    requires CastStart(subject + (suffix + u), 0) ==
             if cast.Some? then cast else Offset(|subject|, CastStart(suffix + u, 0))
    ensures CastStart(subject + suffix + u, 0) == if cast.Some? then cast else Some(|subject| + gap)
  {
    Associative(subject, suffix, u);
  }

  lemma CastStartAlone(w: Wrapped)
    requires w.Cast? && Regular(w)
    ensures CastStart(Render(w), 0) == Some(FirstCast(w))
  {
    CastStartOf(w, "");
    assert Render(w) + "" == Render(w);
  }

  lemma {:induction false} NotParenthesized(w: Wrapped, u: string)
    requires Regular(w) && !StartsWith(u, '\'') && (w.Parens? ==> u != [])
    ensures !IsParenthesized(Render(w) + u)
    decreases w
  {
    match w
    case Core(text) => CoreNotParenthesized(text, u);
    case Parens(_, _, _) =>
      BetweenBalanced(w);
      ParensClose(Between(w), u);
    case Cast(inner, _, _, _) =>
      SuffixScan(w, u);
      Associative(Render(inner), CastSuffix(w), u);
      NotParenthesized(inner, CastSuffix(w) + u);
  }

  /** Parentheses that close within a text still close too early once more text follows. */
  lemma {:induction false} ClosesEarly(s: string, u: string, depth: nat)
    requires depth > 0 && Depth(s, depth) == Some(0) && u != [] && !StartsWith(u, '\'')
    ensures !ClosesAtEnd(s + u, depth)
    decreases |s|
  {
    TailAppend(s, u);
    if s[0] == '\'' {
      LiteralAppend(s, u);
      ClosesEarly(AfterLiteral(s), u, depth);
    } else if !(s[0] == ')' && depth == 1) {
      ClosesEarly(s[1..], u, if s[0] == '(' then depth + 1 else if s[0] == ')' then depth - 1 else depth);
    }
  }

  lemma CoreNotParenthesized(c: string, u: string)
    requires Balanced(c) && c != [] && !IsParenthesized(c) && !StartsWith(u, '\'')
    ensures !IsParenthesized(c + u)
  {
    if u == [] {
      assert c + u == c;
    } else if c[0] == '(' {
      TailAppend(c, u);
      ClosesEarly(c[1..], u, 1);
    }
  }

  lemma NoSuffix(s: string)
    ensures s + "" == s
  {
  }

  /** Whitespace around a trimmed text is all that trimming removes. */
  lemma TrimWrapped(left: string, s: string, right: string)
    requires AllWhitespace(left) && AllWhitespace(right) && s != [] && IsTrimmed(s)
    ensures Trim(left + s + right) == s
  {
    Associative(left, s, right);
    TrimLeft(left, s + right);
    TrimRight(s, right);
  }

  lemma {:induction false} TrimLeft(left: string, s: string)
    requires AllWhitespace(left) && s != [] && !IsWhitespace(s[0])
    ensures TrimStart(left + s) == s
  {
    if left == [] {
      assert left + s == s;
    } else {
      TailAppend(left, s);
      TrimLeft(left[1..], s);
    }
  }

  lemma {:induction false} TrimRight(s: string, right: string)
    requires AllWhitespace(right) && s != [] && !IsWhitespace(s[|s| - 1])
    ensures TrimEnd(s + right) == s
  {
    if right == [] {
      assert s + right == s;
    } else {
      var n := |right| - 1;
      assert (s + right)[..|s| + n] == s + right[..n];
      TrimRight(s, right[..n]);
    }
  }

  // ---------- unwrapping ----------

  lemma StripFixed(e: string)
    requires IsTrimmed(e) && StripCast(e) == e && !IsParenthesized(e)
    ensures Strip(e) == e
  {
    TrimFixed(e);
  }

  lemma StripCore(w: Wrapped)
    requires w.Core? && Regular(w)
    ensures Strip(Render(w)) == Render(w)
  {
    assert StripCast(w.text) == w.text;
    StripFixed(w.text);
  }

  lemma StripParens(w: Wrapped)
    requires w.Parens? && Regular(w)
    ensures StripCast(Render(w)) == Render(w)
    ensures StripOuterParens(Render(w)) == Render(w.inner)
  {
    BetweenBalanced(w);
    RenderRegular(w);
    RenderRegular(w.inner);
    NoCastInParens(Between(w));
    InsideParens(Render(w), Between(w));
    TrimWrapped(w.left, Render(w.inner), w.right);
  }

  lemma NoCastInParens(s: string)
    requires Balanced(s)
    ensures StripCast("(" + s + ")") == "(" + s + ")"
  {
    ParensCast(s, "");
    NoSuffix("(" + s + ")");
  }

  lemma InsideParens(e: string, s: string)
    requires Balanced(s) && e == "(" + s + ")" && IsTrimmed(e)
    ensures StripOuterParens(e) == Trim(s)
  {
    ParensClose(s, "");
    NoSuffix(e);
    TrimFixed(e);
    assert e[1..|e| - 1] == s;
  }

  lemma NoOperator(w: Wrapped)
    requires Regular(w) && !KeepsCast(w)
    ensures !HasOperator(Render(w), 0, true)
  {
    if w.Parens? {
      BetweenBalanced(w);
      ParensOperator(Between(w));
    }
  }

  lemma CastSlices(inner: string, gap: string, rest: string)
    ensures var e, start := inner + (gap + ("::" + rest)), |inner| + |gap|;
            e[..start] == inner + gap && e[start + 2..] == rest
  {
  }

  lemma TrimCast(inner: string, gap: string, space: string, typeName: string)
    requires inner != [] && IsTrimmed(inner) && AllWhitespace(gap)
    requires typeName != [] && IsTrimmed(typeName) && AllWhitespace(space)
    ensures Trim(inner + gap) == inner && Trim(space + typeName) == typeName
  {
    TrimWrapped("", inner, gap);
    TrimWrapped(space, typeName, "");
    assert "" + inner + gap == inner + gap;
    assert space + typeName + "" == space + typeName;
  }

  lemma StripCastText(e: string, start: nat, inner: string, gap: string, space: string, typeName: string)
    requires inner != [] && IsTrimmed(inner) && AllWhitespace(gap) && AllWhitespace(space)
    requires IsTrimmed(typeName) && IsCastTypeName(typeName)
    requires start + 2 <= |e| && e[..start] == inner + gap && e[start + 2..] == space + typeName
    ensures StripCastAt(e, start) == if HasOperator(inner, 0, true) then e else inner
  {
    TrimCast(inner, gap, space, typeName);
  }

  lemma StripOnlyCast(w: Wrapped)
    requires w.Cast? && Regular(w) && !w.inner.Cast?
    ensures StripCast(Render(w)) == if HasOperator(Render(w.inner), 0, true) then Render(w) else Render(w.inner)
  {
    CastStartAlone(w);
    StripCastFound(Render(w), FirstCast(w));
    RenderRegular(w.inner);
    CastSlices(Render(w.inner), w.gap, w.space + w.typeName);
    StripCastText(Render(w), FirstCast(w), Render(w.inner), w.gap, w.space, w.typeName);
  }

  lemma StripSingleCast(w: Wrapped)
    requires w.Cast? && Regular(w) && !KeepsCast(w.inner)
    ensures StripCast(Render(w)) == Render(w.inner)
  {
    NoOperator(w.inner);
    StripOnlyCast(w);
  }

  /** The type of an inner cast would have to contain the outer one; an operation is no subject. */
  lemma StripKeptCast(w: Wrapped)
    requires w.Cast? && Regular(w) && KeepsCast(w.inner)
    ensures Strip(Render(w)) == Render(w)
  {
    if w.inner.Cast? {
      KeepDoubleCast(w);
    } else {
      StripOnlyCast(w);
    }
    CastNotParenthesized(w);
    RenderRegular(w);
    StripFixed(Render(w));
  }

  lemma KeepDoubleCast(w: Wrapped)
    requires w.Cast? && Regular(w) && w.inner.Cast?
    ensures StripCast(Render(w)) == Render(w)
  {
    CastStartAlone(w);
    StripCastFound(Render(w), FirstCast(w));
    CastStartAlone(w.inner);
    CastFound(Render(w.inner), 0);
    TwoColons(Render(w), FirstCast(w), Render(w.inner), w.gap, w.space + w.typeName);
  }

  lemma CastNotParenthesized(w: Wrapped)
    requires w.Cast? && Regular(w)
    ensures !IsParenthesized(Render(w))
  {
    SuffixScan(w, "");
    NotParenthesized(w.inner, CastSuffix(w));
  }

  lemma TwoColons(e: string, start: nat, inner: string, gap: string, rest: string)
    requires e == inner + (gap + ("::" + rest)) && start + 2 <= |inner|
    ensures StripCastAt(e, start) == e
  {
    var s := e[start + 2..];
    assert s[|inner| + |gap| - start - 2] == ':';
    var left, right := TrimSplit(s);
    if IsCastTypeName(Trim(s)) {
      NoColon(left, Trim(s), right);
      assert false;
    }
  }

  lemma NoColon(left: string, s: string, right: string)
    requires AllWhitespace(left) && AllWhitespace(right) && IsCastTypeName(s)
    ensures ':' !in left + s + right
  {
    forall i | 0 <= i < |left + s + right| ensures (left + s + right)[i] != ':' {
      var c := (left + s + right)[i];
      assert IsWhitespace(c) || IsTypeChar(c);
    }
  }

  /** Normalization takes off every layer down to the core or to the outermost kept cast. */
  lemma {:induction false} SettleRender(w: Wrapped)
    requires Regular(w)
    ensures IsTrimmed(Render(w)) && Settle(Render(w)) == Render(Residue(w))
    decreases w
  {
    RenderRegular(w);
    match w
    case Core(_) => StripCore(w);
    case Parens(_, inner, _) =>
      StripParens(w);
      SettleRender(inner);
    case Cast(inner, _, _, _) =>
      if KeepsCast(inner) {
        StripKeptCast(w);
      } else {
        StripSingleCast(w);
        SettleRender(inner);
        if inner.Core? {
          StripCore(inner);
        } else {
          StripParens(inner);
          SettleRender(inner.inner);
        }
      }
  }
}
