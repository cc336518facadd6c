/**
 Normalization of default expressions as unwrapping. PostgreSQL wraps a default
 in parentheses and casts; a wrapped expression is a syntax tree around a core,
 and normalization is compared with what that tree holds.
 */
module DefaultLayers {
  import opened Text
  import opened DefaultExpression

  datatype Wrapped =
    | Core(text: string)
    | Parens(left: string, inner: Wrapped, right: string)
    | Cast(inner: Wrapped, gap: string, space: string, typeName: string)

  function Render(w: Wrapped): string {
    match w
    case Core(text) => text
    case Parens(left, inner, right) => "(" + (left + Render(inner) + right) + ")"
    case Cast(inner, gap, space, typeName) => Render(inner) + (gap + ("::" + (space + typeName)))
  }

  function CoreText(w: Wrapped): string {
    match w
    case Core(text) => text
    case Parens(_, inner, _) => CoreText(inner)
    case Cast(inner, _, _, _) => CoreText(inner)
  }

  /** Layers of whitespace, parentheses and casts to type names around a trimmed core. */
  ghost predicate Layered(w: Wrapped) {
    match w
    case Core(text) => IsTrimmed(text)
    case Parens(left, inner, right) => AllWhitespace(left) && AllWhitespace(right) && Layered(inner)
    case Cast(inner, gap, space, typeName) =>
      AllWhitespace(gap) && AllWhitespace(space) && IsTrimmed(typeName) && IsCastTypeName(typeName) && Layered(inner)
  }

  // ---------- what normalization removes is layers ----------

  lemma Enclosed(e: string)
    requires |e| > 1 && e[0] == '(' && e[|e| - 1] == ')'
    ensures e == "(" + e[1..|e| - 1] + ")"
  {
  }

  lemma AddParens(w: Wrapped, e: string) returns (v: Wrapped)
    requires |e| > 1 && e[0] == '(' && e[|e| - 1] == ')'
    requires Layered(w) && Render(w) == Inside(e)
    ensures Layered(v) && Render(v) == e && CoreText(v) == CoreText(w)
  {
    Enclosed(e);
    var left, right := TrimSplit(e[1..|e| - 1]);
    v := Parens(left, w, right);
  }

  /** A prefix of a trimmed text has no whitespace to lose on its left. */
  lemma LeftTrimmed(s: string, e: string) returns (gap: string)
    requires IsTrimmed(e) && s <= e
    ensures AllWhitespace(gap) && s == Trim(s) + gap
  {
    assert TrimStart(s) == s;
    gap := TrimEndSplit(s);
  }

  /** A suffix of a trimmed text has no whitespace to lose on its right. */
  lemma RightTrimmed(s: string, e: string) returns (space: string)
    requires IsTrimmed(e) && |s| <= |e| && s == e[|e| - |s|..]
    ensures AllWhitespace(space) && s == space + Trim(s)
  {
    var rest := TrimStart(s);
    space := TrimStartSplit(s);
    assert rest == [] || rest[|rest| - 1] == e[|e| - 1];
    assert TrimEnd(rest) == rest;
  }

  lemma CutAt(e: string, start: nat)
    requires start + 2 <= |e| && e[start] == e[start + 1] == ':'
    ensures e == e[..start] + ("::" + e[start + 2..])
  {
  }

  /** A trimmed text cut at a cast, with the whitespace around the cast. */
  lemma CastText(e: string, start: nat) returns (gap: string, space: string)
    requires IsTrimmed(e) && start + 2 <= |e| && e[start] == e[start + 1] == ':'
    ensures AllWhitespace(gap) && AllWhitespace(space)
    ensures e == Trim(e[..start]) + (gap + ("::" + (space + Trim(e[start + 2..]))))
  {
    var subject, suffix := e[..start], e[start + 2..];
    gap := LeftTrimmed(subject, e);
    space := RightTrimmed(suffix, e);
    CutAt(e, start);
    Associative(Trim(subject), gap, "::" + (space + Trim(suffix)));
  }

  lemma AddCast(w: Wrapped, e: string) returns (v: Wrapped)
    requires IsTrimmed(e) && StripCast(e) != e
    requires Layered(w) && Render(w) == StripCast(e)
    ensures Layered(v) && Render(v) == e && CoreText(v) == CoreText(w)
  {
    CastFound(e, 0);
    var start := CastStart(e, 0).value;
    StripCastFound(e, start);
    v := AddCastAt(w, e, start);
  }

  lemma AddCastAt(w: Wrapped, e: string, start: nat) returns (v: Wrapped)
    requires IsTrimmed(e) && start + 2 <= |e| && e[start] == e[start + 1] == ':'
    requires StripCastAt(e, start) != e
    requires Layered(w) && Render(w) == StripCastAt(e, start)
    ensures Layered(v) && Render(v) == e && CoreText(v) == CoreText(w)
  {
    var gap, space := CastText(e, start);
    v := Cast(w, gap, space, Trim(e[start + 2..]));
  }

  lemma StripCases(e: string)
    requires IsTrimmed(e)
    ensures var subject := StripCast(e);
            Strip(e) == if IsParenthesized(subject) then Inside(subject) else subject
  {
    StripCastShrinks(e);
    TrimFixed(StripCast(e));
  }

  lemma SubjectLayers(subject: string, core: Wrapped) returns (w: Wrapped)
    requires Layered(core) && Render(core) == if IsParenthesized(subject) then Inside(subject) else subject
    ensures Layered(w) && Render(w) == subject && CoreText(w) == CoreText(core)
  {
    if IsParenthesized(subject) {
      w := AddParens(core, subject);
    } else {
      w := core;
    }
  }

  /** Any expression is its normal form wrapped in layers. */
  lemma {:induction false} SettleLayers(e: string) returns (w: Wrapped)
    requires IsTrimmed(e)
    ensures Layered(w) && Render(w) == e && CoreText(w) == Settle(e)
    decreases |e|
  {
    StripShrinks(e);
    StripCases(e);
    if Strip(e) == e {
      w := Core(e);
    } else {
      var core := SettleLayers(Strip(e));
      var subject := SubjectLayers(StripCast(e), core);
      if StripCast(e) == e {
        w := subject;
      } else {
        w := AddCast(subject, e);
      }
    }
  }

  lemma NormalizeLayers(expression: string) returns (left: string, w: Wrapped, right: string)
    ensures AllWhitespace(left) && AllWhitespace(right) && Layered(w)
    ensures expression == left + Render(w) + right
    ensures CoreText(w) == Normalize(expression)
  {
    left, right := TrimSplit(expression);
    w := SettleLayers(Trim(expression));
  }
}
