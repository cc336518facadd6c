/**
 NUMERIC values as text: the entry point of the parser with signs and special
 values, and what an accepted text means.
 */
module NumericText {
  import opened Integers
  import opened Text
  import opened Numeric
  import opened NumericParser
  import opened NumericReader
  import opened NumericPrinter

  // ---------- parsing ----------

  function ParseSpecial(text: string, sign: Sign, explicitSign: bool): Result<PgNumeric, ParseNumericError> {
    var rest := TrimEnd(text);
    if EqualsIgnoreAsciiCase(rest, "nan") then
      if explicitSign then Failure(InvalidSyntax) else Success(NaN)
    else if EqualsIgnoreAsciiCase(rest, "infinity") || EqualsIgnoreAsciiCase(rest, "inf") then
      Success(if sign == Positive then PositiveInfinity else NegativeInfinity)
    else
      Failure(InvalidSyntax)
  }

  predicate StartsNumber(s: string) {
    s != [] && (IsDigit(s[0]) || s[0] == '.')
  }

  function ParseUnsignedText(rest: string, sign: Sign, explicitSign: bool): Result<PgNumeric, ParseNumericError> {
    if StartsNumber(rest) then ParseValue(rest, sign) else ParseSpecial(rest, sign, explicitSign)
  }

  function FromTrimmed(t: string): Result<PgNumeric, ParseNumericError> {
    if t == [] then Failure(InvalidSyntax)
    else if t[0] == '+' then ParseUnsignedText(t[1..], Positive, true)
    else if t[0] == '-' then ParseUnsignedText(t[1..], Negative, true)
    else ParseUnsignedText(t, Positive, false)
  }

  function FromText(input: string): Result<PgNumeric, ParseNumericError> {
    FromTrimmed(Trim(input))
  }

  method FromStr(input: string) returns (r: Result<PgNumeric, ParseNumericError>)
    requires |input| < 0x2000_0000
    ensures r == FromText(input)
  {
    var trimmed := Trim(input);
    if trimmed == [] {
      return Failure(InvalidSyntax);
    }
    var sign, rest, explicitSign := Positive, trimmed, false;
    if trimmed[0] == '+' {
      rest, explicitSign := trimmed[1..], true;
    } else if trimmed[0] == '-' {
      sign, rest, explicitSign := Negative, trimmed[1..], true;
    }
    if !StartsNumber(rest) {
      return ParseSpecial(rest, sign, explicitSign);
    }
    r := ParseNumericValue(rest, sign);
  }

  // ---------- what an accepted text means ----------

  function MantissaDigits(n: Numeral): Digits
    requires WellFormed(n)
  {
    RunDigits(n.whole) + RunDigits(n.fraction)
  }

  /** A value that denotes digits * 10^exponent, written canonically. */
  ghost predicate Denotes(v: PgNumeric, digits: Digits, exponent: int, sign: Sign) {
    && v.Value? && Canonical(v)
    && (v.digits != [] ==> v.sign == sign)
    && SameNumber(
         GroupsValue(v.digits), 4 * (v.weight - |v.digits| + 1), NatRange(digits, 0, |digits|), exponent)
  }

  /** A value with a numeral's number, at the scale the numeral shows. */
  ghost predicate Means(v: PgNumeric, n: Numeral, sign: Sign)
    requires WellFormed(n)
  {
    && Denotes(v, MantissaDigits(n), Power10(n.suffix) - |n.fraction|, sign)
    && v.scale == ShownScale(n)
  }

  lemma EncodeDenotes(ds: Digits, dweight: int, scale: u16, sign: Sign)
    requires FitsWeight(ds, dweight)
    ensures Denotes(Encode(ds, dweight, scale, sign), ds, dweight - |ds| + 1, sign)
  {
    EncodeGroups(ds, dweight, scale, sign);
    EncodeValue(ds, dweight, scale, sign);
  }

  lemma FinishDenotes(digits: Digits, fraction: nat, exponent: int, sign: Sign)
    requires Finish(digits, fraction, exponent, sign).Success?
    ensures var v := Finish(digits, fraction, exponent, sign).value;
            && Denotes(v, digits, exponent - fraction, sign)
            && v.scale == if fraction < exponent then 0 else fraction - exponent
  {
    EncodeDenotes(
      digits, |digits| - fraction - 1 + exponent, if fraction < exponent then 0 else fraction - exponent, sign);
  }

  lemma EvaluateMeans(n: Numeral, sign: Sign)
    requires WellFormed(n) && Evaluate(n, sign).Success?
    ensures Means(Evaluate(n, sign).value, n, sign)
  {
    FinishDenotes(MantissaDigits(n), |n.fraction|, Power10(n.suffix), sign);
  }

  // ---------- the limits ----------

  const MAX_DECIMAL_PLACES := 131_072

  /** n * 10^x is below 10^p. */
  ghost predicate Below(n: nat, x: int, p: int) {
    if x <= p then n < Power(10, p - x) else n == 0
  }

  /** The number of decimal places a numeral shows once its exponent is applied. */
  function ShownScale(n: Numeral): nat {
    if |n.fraction| < Power10(n.suffix) then 0 else |n.fraction| - Power10(n.suffix)
  }

  /** PostgreSQL's limits: below 10^131072 and at most 16383 places; an exponent past the guard is not looked at. */
  ghost predicate WithinLimits(n: Numeral)
    requires WellFormed(n)
  {
    && !PastGuard(n)
    && ShownScale(n) <= POSTGRES_NUMERIC_MAX_SCALE
    && Below(NatRange(MantissaDigits(n), 0, |MantissaDigits(n)|), Power10(n.suffix) - |n.fraction|, MAX_DECIMAL_PLACES)
  }

  lemma {:induction false} NatRangeBelow(ds: Digits, lo: int, hi: int)
    requires lo <= hi
    ensures NatRange(ds, lo, hi) < Power(10, hi - lo)
    decreases hi - lo
  {
    if lo < hi {
      NatRangeBelow(ds, lo, hi - 1);
    }
  }

  lemma {:induction false} NatRangeAtLeast(ds: Digits, lo: int, hi: int)
    requires lo < hi && DigitAt(ds, lo) > 0
    ensures NatRange(ds, lo, hi) >= Power(10, hi - lo - 1)
    decreases hi - lo
  {
    if lo + 1 < hi {
      NatRangeAtLeast(ds, lo, hi - 1);
    }
  }

  lemma {:induction false} PowerGrows(a: nat, b: nat)
    requires a <= b
    ensures Power(10, a) <= Power(10, b)
  {
    if a < b {
      PowerGrows(a, b - 1);
    }
  }

  /** A number of m digits, shifted by x places, is below 10^p exactly when its first digit stands below 10^p. */
  lemma BelowDigits(n: nat, m: nat, x: int, p: int)
    requires m > 0 && Power(10, m - 1) <= n < Power(10, m)
    ensures Below(n, x, p) <==> m - 1 + x < p
  {
    if x <= p {
      if m - 1 + x < p {
        PowerGrows(m, p - x);
      } else {
        PowerGrows(p - x, m - 1);
      }
    }
  }

  lemma BelowExact(ds: Digits, dweight: int, p: int)
    ensures Below(NatRange(ds, 0, |ds|), dweight - |ds| + 1, p) <==> AllZero(ds) || dweight - FirstNonZero(ds) < p
  {
    if AllZero(ds) {
      LeadingZeros(ds, 0, |ds|, |ds|);
    } else {
      var first := FirstNonZero(ds);
      LeadingZeros(ds, 0, first, |ds|);
      NatRangeBelow(ds, first, |ds|);
      NatRangeAtLeast(ds, first, |ds|);
      BelowDigits(NatRange(ds, 0, |ds|), |ds| - first, dweight - |ds| + 1, p);
    }
  }

  lemma FitsBelow(ds: Digits, dweight: int)
    requires AllZero(ds) || dweight - FirstNonZero(ds) >= -POSTGRES_NUMERIC_MAX_SCALE
    ensures FitsWeight(ds, dweight) <==>
            Below(NatRange(ds, 0, |ds|), dweight - |ds| + 1, MAX_DECIMAL_PLACES)
  {
    BelowExact(ds, dweight, MAX_DECIMAL_PLACES);
  }

  /** A numeral has a value exactly when it is within the limits. */
  lemma LimitsExact(n: Numeral, sign: Sign)
    requires WellFormed(n)
    ensures Evaluate(n, sign).Success? <==> WithinLimits(n)
    ensures Evaluate(n, sign) != Failure(InvalidSyntax)
  {
    var ds := MantissaDigits(n);
    if ShownScale(n) <= POSTGRES_NUMERIC_MAX_SCALE {
      FitsBelow(ds, |ds| - |n.fraction| - 1 + Power10(n.suffix));
    }
  }

  lemma {:induction false} RunLength(r: Run)
    requires forall i | 0 <= i < |r| :: r[i].digit < 10
    ensures |r| <= |RenderRun(r)|
  {
    if r != [] {
      RunLength(r[1..]);
    }
  }

  ghost predicate ZeroMantissa(n: Numeral) {
    (forall i | 0 <= i < |n.whole| :: n.whole[i].digit == 0) &&
    (forall i | 0 <= i < |n.fraction| :: n.fraction[i].digit == 0)
  }

  lemma ZeroDigits(n: Numeral)
    requires WellFormed(n)
    ensures AllZero(MantissaDigits(n)) <==> ZeroMantissa(n)
    ensures NatRange(MantissaDigits(n), 0, |MantissaDigits(n)|) == 0 <==> ZeroMantissa(n)
  {
    var ds := MantissaDigits(n);
    if AllZero(ds) {
      LeadingZeros(ds, 0, |ds|, |ds|);
      assert forall i | 0 <= i < |n.whole| :: n.whole[i].digit == ds[i];
      assert forall i | 0 <= i < |n.fraction| :: n.fraction[i].digit == ds[|n.whole| + i];
    } else {
      var first := FirstNonZero(ds);
      LeadingZeros(ds, 0, first, |ds|);
      NatRangeAtLeast(ds, first, |ds|);
      assert ds[first] == if first < |n.whole| then n.whole[first].digit else n.fraction[first - |n.whole|].digit;
    }
  }

  /** The guard refuses nothing that PostgreSQL accepts, but for a zero with a huge exponent. */
  lemma GuardHarmless(n: Numeral)
    requires WellFormed(n) && |Render(n)| < 0x2000_0000 && PastGuard(n)
    ensures || ShownScale(n) > 16_383
            || !Below(NatRange(MantissaDigits(n), 0, |MantissaDigits(n)|), Power10(n.suffix) - |n.fraction|, 131_072)
            || (ZeroMantissa(n) && Power10(n.suffix) > 0x3FFF_FFFF)
  {
    RunLength(n.fraction);
    ZeroDigits(n);
  }

  /**
   PostgreSQL's limits in plain numbers: a numeral has a value exactly if it is below 10^131072 and shows at most
   16383 places, unless it is a zero with an exponent beyond 2^30 - 1.
   */
  lemma LimitsInNumbers(n: Numeral, sign: Sign)
    requires WellFormed(n) && |Render(n)| < 0x2000_0000
    ensures Evaluate(n, sign).Success? <==>
            && ShownScale(n) <= 16_383
            && Below(NatRange(MantissaDigits(n), 0, |MantissaDigits(n)|), Power10(n.suffix) - |n.fraction|, 131_072)
            && !(ZeroMantissa(n) && Power10(n.suffix) > 0x3FFF_FFFF)
  {
    LimitsExact(n, sign);
    if PastGuard(n) {
      GuardHarmless(n);
    }
  }

  // ---------- which texts are accepted, and with which error the others are rejected ----------

  /** A text that starts with a numeral whose exponent is past the guard. */
  ghost predicate StartsPastGuard(s: string) {
    exists n :: WellFormed(n) && PastGuard(n) && Render(n) <= s
  }

  lemma PrefixPastGuard(n: Numeral, s: string, sign: Sign)
    requires WellFormed(n) && PastGuard(n) && Render(n) <= s
    ensures ParseValue(s, sign) == Failure(ValueOutOfRange)
  {
    var t := s[|Render(n)|..];
    assert s == Render(n) + t;
    ParsePastGuard(n, t, sign);
  }

  /**
   The texts accepted are exactly the numerals within the limits, each read for the number it writes. A
   rejected text is malformed exactly when it is no numeral and does not start with one past the guard.
   */
  lemma AcceptsExactly(s: string, sign: Sign)
    ensures ParseValue(s, sign).Success? <==> exists n :: WellFormed(n) && Render(n) == s && WithinLimits(n)
    ensures ParseValue(s, sign).Success? ==>
            exists n :: WellFormed(n) && Render(n) == s && Means(ParseValue(s, sign).value, n, sign)
    ensures ParseValue(s, sign) == Failure(InvalidSyntax) <==>
            (forall n | WellFormed(n) :: Render(n) != s) && !StartsPastGuard(s)
  {
    forall n | WellFormed(n) && Render(n) == s
      ensures ParseValue(s, sign) == Evaluate(n, sign)
      ensures Evaluate(n, sign).Success? <==> WithinLimits(n)
      ensures Evaluate(n, sign) != Failure(InvalidSyntax)
    {
      ParseRender(n, sign);
      LimitsExact(n, sign);
    }
    forall n | WellFormed(n) && PastGuard(n) && Render(n) <= s
      ensures ParseValue(s, sign) == Failure(ValueOutOfRange)
    {
      PrefixPastGuard(n, s, sign);
    }
    match ParseValue(s, sign)
    case Success(_) =>
      var n := ParseSound(s, sign);
      EvaluateMeans(n, sign);
    case Failure(ValueOutOfRange) =>
      var n := OutOfRangeSound(s, sign);
    case Failure(InvalidSyntax) =>
  }

  // ---------- the values that parsing produces ----------

  /** Canonical, within the scale limit, and with no digit below the scale shown. */
  ghost predicate Presentable(v: PgNumeric) {
    && Canonical(v)
    && (v.Value? ==>
          && v.scale <= POSTGRES_NUMERIC_MAX_SCALE
          && forall e | e + v.scale < 0 :: ExpansionAt(v.weight, v.digits, e) == 0)
  }

  /** The expansion of an encoded decimal is the decimal. */
  lemma EncodeExpansion(ds: Digits, dweight: int, scale: u16, sign: Sign, e: int)
    requires FitsWeight(ds, dweight)
    ensures var v := Encode(ds, dweight, scale, sign);
            InBase(v.digits) && ExpansionAt(v.weight, v.digits, e) == DecimalAt(ds, dweight, e)
  {
    EncodeGroups(ds, dweight, scale, sign);
    GroupDigits(ds, dweight, e / 4);
  }

  lemma SplitGroup(a: nat, b: nat, c: nat, d: nat)
    requires a < 10 && b < 10 && c < 10 && d < 10
    ensures var n := a * 1000 + b * 100 + c * 10 + d;
            DigitOfGroup(n, 0) == d && DigitOfGroup(n, 1) == c && DigitOfGroup(n, 2) == b && DigitOfGroup(n, 3) == a
  {
    var n := a * 1000 + b * 100 + c * 10 + d;
    assert n / 10 == a * 100 + b * 10 + c;
    assert n / 100 == a * 10 + b;
  }

  lemma GroupDigits(ds: Digits, dweight: int, g: int)
    ensures var n := GroupOf(ds, dweight, g);
            && DigitOfGroup(n, 0) == DecimalAt(ds, dweight, 4 * g)
            && DigitOfGroup(n, 1) == DecimalAt(ds, dweight, 4 * g + 1)
            && DigitOfGroup(n, 2) == DecimalAt(ds, dweight, 4 * g + 2)
            && DigitOfGroup(n, 3) == DecimalAt(ds, dweight, 4 * g + 3)
  {
    SplitGroup(
      DecimalAt(ds, dweight, 4 * g + 3), DecimalAt(ds, dweight, 4 * g + 2),
      DecimalAt(ds, dweight, 4 * g + 1), DecimalAt(ds, dweight, 4 * g));
  }

  lemma FinishPresentable(digits: Digits, fraction: nat, exponent: int, sign: Sign)
    requires Finish(digits, fraction, exponent, sign).Success?
    ensures Presentable(Finish(digits, fraction, exponent, sign).value)
  {
    var v := Finish(digits, fraction, exponent, sign).value;
    var dweight := |digits| - fraction - 1 + exponent;
    EncodeGroups(digits, dweight, v.scale, sign);
    forall e | e + v.scale < 0 ensures ExpansionAt(v.weight, v.digits, e) == 0 {
      EncodeExpansion(digits, dweight, v.scale, sign, e);
    }
  }

  lemma ValuePresentable(s: string, sign: Sign)
    requires ParseValue(s, sign).Success?
    ensures Presentable(ParseValue(s, sign).value)
  {
    var m := ScanMantissa(if s[0] == '.' then s[1..] else s, s[0] == '.').value;
    FinishPresentable(m.digits, m.fraction, ScanSuffix(m.rest).value.value, sign);
  }

  lemma UnsignedPresentable(rest: string, sign: Sign, explicitSign: bool)
    requires ParseUnsignedText(rest, sign, explicitSign).Success?
    ensures Presentable(ParseUnsignedText(rest, sign, explicitSign).value)
  {
    if StartsNumber(rest) {
      ValuePresentable(rest, sign);
    }
  }

  lemma ParsedPresentable(input: string)
    requires FromText(input).Success?
    ensures Presentable(FromText(input).value)
  {
    var trimmed := Trim(input);
    if trimmed[0] == '+' {
      UnsignedPresentable(trimmed[1..], Positive, true);
    } else if trimmed[0] == '-' {
      UnsignedPresentable(trimmed[1..], Negative, true);
    } else {
      UnsignedPresentable(trimmed, Positive, false);
    }
  }

  // ---------- special values ----------

  predicate IsInfinityWord(s: string) {
    EqualsIgnoreAsciiCase(s, "infinity") || EqualsIgnoreAsciiCase(s, "inf")
  }

  lemma ParsedIsFinite(s: string, sign: Sign)
    requires ParseValue(s, sign).Success?
    ensures ParseValue(s, sign).value.Value?
  {
  }

  lemma WordStarts(s: string)
    requires EqualsIgnoreAsciiCase(s, "nan") || IsInfinityWord(s)
    ensures s != [] && LowerAscii(s[0]) in "ni" && !StartsNumber(s) && s[0] != '+' && s[0] != '-'
  {
  }

  lemma SpecialWord(rest: string, sign: Sign, explicitSign: bool)
    requires rest == [] || !IsWhitespace(rest[|rest| - 1])
    ensures var r := ParseUnsignedText(rest, sign, explicitSign);
            && (r == Success(NaN) <==> EqualsIgnoreAsciiCase(rest, "nan") && !explicitSign)
            && (r == Success(PositiveInfinity) <==> IsInfinityWord(rest) && sign == Positive)
            && (r == Success(NegativeInfinity) <==> IsInfinityWord(rest) && sign == Negative)
  {
    if StartsNumber(rest) {
      if ParseValue(rest, sign).Success? {
        ParsedIsFinite(rest, sign);
      }
      NotAWord(rest);
    } else {
      assert TrimEnd(rest) == rest;
    }
  }

  lemma NotAWord(s: string)
    requires StartsNumber(s)
    ensures !EqualsIgnoreAsciiCase(s, "nan") && !IsInfinityWord(s)
  {
    if EqualsIgnoreAsciiCase(s, "nan") || IsInfinityWord(s) {
      WordStarts(s);
      assert false;
    }
  }

  /** The special values are exactly the unsigned word for NaN and the words for infinity with an optional sign. */
  lemma SpecialTexts(input: string)
    ensures var t, r := Trim(input), FromText(input);
            && (r == Success(NaN) <==> EqualsIgnoreAsciiCase(t, "nan"))
            && (r == Success(PositiveInfinity) <==> IsInfinityWord(if t != [] && t[0] == '+' then t[1..] else t))
            && (r == Success(NegativeInfinity) <==> t != [] && t[0] == '-' && IsInfinityWord(t[1..]))
  {
    var t := Trim(input);
    if t != [] {
      var signed := t[0] == '+' || t[0] == '-';
      SpecialWord(if signed then t[1..] else t, if t[0] == '-' then Negative else Positive, signed);
      if EqualsIgnoreAsciiCase(t, "nan") || IsInfinityWord(t) {
        WordStarts(t);
      }
    }
  }

  // ---------- whole texts ----------

  predicate IsSignText(prefix: string) {
    prefix == "" || prefix == "+" || prefix == "-"
  }

  function SignOf(prefix: string): Sign {
    if prefix == "-" then Negative else Positive
  }

  /** A text that is a numeral with an optional sign, whitespace aside. */
  ghost predicate Writes(input: string, prefix: string, n: Numeral) {
    IsSignText(prefix) && WellFormed(n) && Trim(input) == prefix + Render(n)
  }

  /** A text that starts, after an optional sign, with a numeral whose exponent is past the guard. */
  ghost predicate WritesPastGuard(input: string, prefix: string, n: Numeral) {
    IsSignText(prefix) && WellFormed(n) && PastGuard(n) && prefix + Render(n) <= Trim(input)
  }

  lemma RenderStarts(n: Numeral)
    requires WellFormed(n)
    ensures StartsNumber(Render(n))
  {
    if n.whole == [] {
      LeadingPoint(n, RenderSuffix(n.suffix));
    } else {
      WholeStarts(n, RenderSuffix(n.suffix));
    }
  }

  /** The sign of a text that starts with a number after it, and what is left. */
  lemma SignStripped(t: string, prefix: string, s: string)
    requires IsSignText(prefix) && StartsNumber(s) && t == prefix + s
    ensures t != [] && FromTrimmed(t) == ParseValue(s, SignOf(prefix))
  {
    if prefix == "" {
      assert t == s;
    } else {
      assert t[1..] == s;
    }
  }

  lemma WrittenReads(input: string, prefix: string, n: Numeral)
    requires Writes(input, prefix, n)
    ensures FromText(input) == Evaluate(n, SignOf(prefix))
  {
    RenderStarts(n);
    SignStripped(Trim(input), prefix, Render(n));
    ParseRender(n, SignOf(prefix));
  }

  lemma WrittenPastGuard(input: string, prefix: string, n: Numeral)
    requires WritesPastGuard(input, prefix, n)
    ensures FromText(input) == Failure(ValueOutOfRange)
  {
    var t := Trim(input);
    var rest := t[|prefix + Render(n)|..];
    SplitAt(t, |prefix + Render(n)|);
    Associative(prefix, Render(n), rest);
    RenderStarts(n);
    SignStripped(t, prefix, Render(n) + rest);
    ParsePastGuard(n, rest, SignOf(prefix));
  }

  /** Texts that are read as numbers at all, or found out of range, have a sign and a number after it. */
  lemma NumberText(input: string) returns (prefix: string, s: string)
    requires (FromText(input).Success? && FromText(input).value.Value?) || FromText(input) == Failure(ValueOutOfRange)
    ensures IsSignText(prefix) && Trim(input) == prefix + s
    ensures FromText(input) == ParseValue(s, SignOf(prefix))
  {
    var t := Trim(input);
    if t[0] == '+' {
      prefix, s := "+", t[1..];
    } else if t[0] == '-' {
      prefix, s := "-", t[1..];
    } else {
      prefix, s := "", t;
    }
  }

  /**
   Finite values are read exactly from numerals within the limits, with an optional sign and
   whitespace around them; out of range are exactly the other numerals and the texts that start with
   one past the guard.
   */
  lemma TextAcceptsExactly(input: string)
    ensures (FromText(input).Success? && FromText(input).value.Value?) <==>
            exists prefix, n :: Writes(input, prefix, n) && WithinLimits(n)
    ensures FromText(input).Success? && FromText(input).value.Value? ==>
            exists prefix, n :: Writes(input, prefix, n) && Means(FromText(input).value, n, SignOf(prefix))
    ensures FromText(input) == Failure(ValueOutOfRange) <==>
            || (exists prefix, n :: Writes(input, prefix, n) && !WithinLimits(n))
            || (exists prefix, n :: WritesPastGuard(input, prefix, n))
  {
    forall prefix, n | Writes(input, prefix, n)
      ensures FromText(input) == Evaluate(n, SignOf(prefix))
      ensures Evaluate(n, SignOf(prefix)).Success? <==> WithinLimits(n)
      ensures Evaluate(n, SignOf(prefix)) != Failure(InvalidSyntax)
    {
      WrittenReads(input, prefix, n);
      LimitsExact(n, SignOf(prefix));
    }
    forall prefix, n | WritesPastGuard(input, prefix, n)
      ensures FromText(input) == Failure(ValueOutOfRange)
    {
      WrittenPastGuard(input, prefix, n);
    }
    if FromText(input).Success? && FromText(input).value.Value? {
      var prefix, s := NumberText(input);
      var n := ParseSound(s, SignOf(prefix));
      EvaluateMeans(n, SignOf(prefix));
      assert Writes(input, prefix, n);
    } else if FromText(input) == Failure(ValueOutOfRange) {
      var prefix, s := NumberText(input);
      var n := OutOfRangeSound(s, SignOf(prefix));
      assert Writes(input, prefix, n) || WritesPastGuard(input, prefix, n);
    }
  }

  // ---------- a malformed text that is called out of range ----------

  lemma {:induction false} RunValueScales(value: nat, r: Run)
    ensures RunValue(value, r) >= value * Power(10, |r|)
    decreases r
  {
    if r != [] {
      var more := value * 10 + r[0].digit;
      RunValueScales(more, r[1..]);
      assert more * Power(10, |r| - 1) >= value * 10 * Power(10, |r| - 1) == value * Power(10, |r|);
    }
  }

  lemma {:induction false} RunChars(r: Run)
    requires forall i | 0 <= i < |r| :: r[i].digit < 10
    ensures 'x' !in RenderRun(r)
  {
    if r != [] {
      RunChars(r[1..]);
    }
  }

  lemma RenderChars(n: Numeral)
    requires WellFormed(n)
    ensures 'x' !in Render(n)
  {
    RunChars(n.whole);
    RunChars(n.fraction);
    if n.suffix.WithExponent? {
      RunChars(n.suffix.run);
    }
  }

  const NINES: Run := seq(10, i => RunDigit(9, false))

  lemma NinesPastGuard()
    ensures RunValue(0, NINES) > MAX_EXPONENT
  {
    RunValueScales(9, NINES[1..]);
    assert Power(10, 1) == 10 && Power(10, 2) == 100 && Power(10, 3) == 1000;
    PowerAdd(10, 3, 3);
    PowerAdd(10, 6, 3);
  }

  lemma {:induction false} RenderPlainRun(r: Run)
    requires forall i | 0 <= i < |r| :: r[i].digit < 10 && !r[i].underscore
    ensures |RenderRun(r)| == |r| && forall i | 0 <= i < |r| :: RenderRun(r)[i] == DigitChar(r[i].digit)
  {
    if r != [] {
      RenderPlainRun(r[1..]);
    }
  }

  lemma RenderNines() returns (n: Numeral)
    ensures WellFormed(n) && PastGuard(n) && Render(n) == "1e9999999999"
  {
    n := Numeral([RunDigit(1, false)], false, [], WithExponent(false, NoSign, NINES));
    NinesPastGuard();
    RenderPlainRun(NINES);
    RenderPlainRun([RunDigit(1, false)]);
    assert RenderRun(NINES) == "9999999999" && RenderRun([RunDigit(1, false)]) == "1";
    assert "1" + ("" + "") + ("e" + "" + "9999999999") == "1e9999999999";
  }

  /** Zero, and yet out of range. */
  lemma ZeroOutOfRange()
    ensures ParseValue("0e9999999999", Positive) == Failure(ValueOutOfRange)
  {
    var n := Numeral([RunDigit(0, false)], false, [], WithExponent(false, NoSign, NINES));
    NinesPastGuard();
    RenderPlainRun(NINES);
    RenderPlainRun([RunDigit(0, false)]);
    assert RenderRun(NINES) == "9999999999" && RenderRun([RunDigit(0, false)]) == "0";
    assert Render(n) == "0e9999999999";
    ParseRender(n, Positive);
  }

  /** No numeral, and yet out of range: the guard fires before the last character is seen. */
  lemma MalformedOutOfRange()
    ensures ParseValue("1e9999999999x", Positive) == Failure(ValueOutOfRange)
    ensures forall n | WellFormed(n) :: Render(n) != "1e9999999999x"
  {
    var n := RenderNines();
    assert Render(n) + "x" == "1e9999999999x";
    ParsePastGuard(n, "x", Positive);
    forall m | WellFormed(m) ensures Render(m) != "1e9999999999x" {
      RenderChars(m);
      assert "1e9999999999x"[12] == 'x';
    }
  }
}
