/**
 Parsing NUMERIC text. The scanners follow the source byte loop on the text that
 is left; a grammar of numeric literals, written as a syntax tree and its
 rendering, says which texts they accept and what they read there.
 */
module NumericParser {
  import opened Integers
  import opened Text
  import opened Numeric

  const MAX_TEXT: int := 0x2000_0000

  // ---------- conversion to base 10000 ----------

  /** The group of a digit, counted from the group of the first digit. */
  lemma GroupIndex(dweight: int, i: int)
    ensures dweight / 4 - ((dweight / 4 + 1) * 4 - (dweight + 1) + i) / 4 == (dweight - i) / 4
  {
  }

  method ConvertToBase10000(ds: Digits, dweight: CounterI32, dscale: CounterU32, sign: Sign)
    returns (r: Result<PgNumeric, ParseNumericError>)
    requires |ds| < MAX_TEXT
    requires -0x6000_0000 <= dweight <= 0x6000_0000
    ensures r.Success? <==> dscale as int < 0x1_0000 && FitsWeight(ds, dweight as int)
    ensures r.Success? ==> r.value == Encode(ds, dweight as int, dscale as int, sign)
    ensures r.Failure? ==> r.error == ValueOutOfRange
  {
    if dscale > 0xFFFF {
      return Failure(ValueOutOfRange);
    }
    var scale: u16 := dscale as int;
    if AllZero(ds) {
      return Success(Value(Positive, 0, scale, []));
    }
    var weight, offset, first, last := GroupLayout(ds, dweight);
    var finalWeight: CounterI32 := weight - first;
    if !(POSTGRES_NUMERIC_MIN_WEIGHT <= finalWeight as int <= POSTGRES_NUMERIC_MAX_WEIGHT) {
      return Failure(ValueOutOfRange);
    }
    var groups := FillGroups(ds, dweight, weight, offset, first, last);
    return Success(Value(sign, finalWeight as int, scale, groups));
  }

  /** Where the groups of a non-zero decimal start and end, and how its first group is padded. */
  method GroupLayout(ds: Digits, dweight: CounterI32)
    returns (weight: CounterI32, offset: CounterI32, first: CounterI32, last: CounterI32)
    requires |ds| < MAX_TEXT && !AllZero(ds)
    requires -0x6000_0000 <= dweight <= 0x6000_0000
    ensures -0x2000_0000 <= weight <= 0x2000_0000
    ensures 0 <= offset < 4 && offset as int == (weight as int + 1) * 4 - (dweight as int + 1)
    ensures 0 <= first <= last && last as int * 4 <= offset as int + |ds|
    ensures weight as int - first as int == TopGroup(ds, dweight as int)
    ensures weight as int - last as int == BottomGroup(ds, dweight as int)
  {
    weight := if dweight >= 0 then (dweight + 4) / 4 - 1 else -((-dweight - 1) / 4 + 1);
    assert weight as int == (dweight as int) / 4;
    offset := (weight + 1) * 4 - (dweight + 1);
    first := (offset + FirstNonZero(ds) as CounterI32) / 4;
    last := (offset + LastNonZero(ds) as CounterI32) / 4;
    GroupIndex(dweight as int, FirstNonZero(ds));
    GroupIndex(dweight as int, LastNonZero(ds));
  }

  /** Fills the groups from the first to the last that holds a non-zero digit. */
  method FillGroups(
    ds: Digits, dweight: CounterI32, weight: CounterI32, offset: CounterI32, first: CounterI32, last: CounterI32)
    returns (groups: seq<i16>)
    requires |ds| < MAX_TEXT
    requires -0x6000_0000 <= dweight <= 0x6000_0000 && -0x2000_0000 <= weight <= 0x2000_0000
    requires 0 <= offset < 4 && offset as int == (weight as int + 1) * 4 - (dweight as int + 1)
    requires 0 <= first <= last && last as int * 4 <= offset as int + |ds|
    ensures |groups| == last as int - first as int + 1
    ensures forall k | 0 <= k < |groups| :: groups[k] == GroupOf(ds, dweight as int, weight as int - first as int - k)
  {
    groups := [];
    var group := first;
    while group <= last
      invariant first <= group <= last + 1
      invariant |groups| == group as int - first as int
      invariant forall k | 0 <= k < |groups| ::
                  groups[k] == GroupOf(ds, dweight as int, weight as int - first as int - k)
      decreases last as int - group as int
    {
      var digit := ReadGroup(ds, dweight, group * 4 - offset, weight as int - group as int);
      groups := groups + [digit];
      group := group + 1;
    }
  }

  /** Reads four aligned decimal digits; positions outside the input are zero padding. */
  method ReadGroup(ds: Digits, dweight: CounterI32, start: CounterI32, ghost g: int) returns (digit: i16)
    requires -4 <= start as int <= |ds| < MAX_TEXT && start as int == dweight as int - 4 * g - 3
    ensures digit == GroupOf(ds, dweight as int, g)
  {
    digit := 0;
    var position := start;
    while position < start + 4
      invariant start <= position <= start + 4
      invariant digit == NatRange(ds, start as int, position as int) < Power(10, position as int - start as int)
    {
      assert Power(10, position as int - start as int) <= 1000;
      var decimal := if 0 <= position as int < |ds| then ds[position as int] else 0;
      digit := digit * 10 + decimal;
      position := position + 1;
    }
    FourDigits(ds, start as int);
  }

  // ---------- scanning ----------

  const MAX_EXPONENT: int := 0x3FFF_FFFF

  predicate StartsWithDigit(s: string) {
    |s| > 0 && IsDigit(s[0])
  }

  datatype Mantissa = Mantissa(digits: Digits, fraction: nat, rest: string)

  /** Reads digits, at most one decimal point, and underscores between digits. */
  function ScanMantissa(s: string, point: bool): Option<Mantissa> {
    if s == [] then
      Some(Mantissa([], 0, s))
    else if IsDigit(s[0]) then
      match ScanMantissa(s[1..], point)
      case None => None
      case Some(m) =>
        Some(Mantissa([DigitValue(s[0])] + m.digits, m.fraction + (if point then 1 else 0), m.rest))
    else if s[0] == '.' then
      if point || (|s| > 1 && s[1] == '_') then None else ScanMantissa(s[1..], true)
    else if s[0] == '_' then
      if StartsWithDigit(s[1..]) then ScanMantissa(s[1..], point) else None
    else
      Some(Mantissa([], 0, s))
  }

  datatype Exponent = Exponent(value: int, rest: string)

  /** Reads exponent digits; a value past the guard is rejected at once. */
  function ScanExponent(s: string, value: nat): Result<Exponent, ParseNumericError> {
    if s == [] then
      Success(Exponent(value, s))
    else if IsDigit(s[0]) then
      var more := value * 10 + DigitValue(s[0]);
      if more > MAX_EXPONENT then Failure(ValueOutOfRange) else ScanExponent(s[1..], more)
    else if s[0] == '_' then
      if StartsWithDigit(s[1..]) then ScanExponent(s[1..], value) else Failure(InvalidSyntax)
    else
      Success(Exponent(value, s))
  }

  /** What follows the exponent marker and its sign. */
  function ExponentDigits(s: string): string
    requires s != []
  {
    if |s| > 1 && (s[1] == '+' || s[1] == '-') then s[2..] else s[1..]
  }

  /** Reads an optional exponent after the mantissa. */
  function ScanSuffix(s: string): Result<Exponent, ParseNumericError> {
    if s == [] || (s[0] != 'e' && s[0] != 'E') then
      Success(Exponent(0, s))
    else
      var negative := |s| > 1 && s[1] == '-';
      var digits := ExponentDigits(s);
      if !StartsWithDigit(digits) then
        Failure(InvalidSyntax)
      else
        match ScanExponent(digits, 0)
        case Failure(error) => Failure(error)
        case Success(e) => Success(Exponent(if negative then -e.value else e.value, e.rest))
  }

  /** Applies the exponent and the range limits to what was read. */
  function Finish(digits: Digits, fraction: nat, exponent: int, sign: Sign): Result<PgNumeric, ParseNumericError> {
    var dweight := |digits| - fraction - 1 + exponent;
    var dscale := if fraction < exponent then 0 else fraction - exponent;
    if dscale > POSTGRES_NUMERIC_MAX_SCALE || !FitsWeight(digits, dweight)
    then Failure(ValueOutOfRange)
    else Success(Encode(digits, dweight, dscale, sign))
  }

  /** What follows the mantissa must be an exponent or nothing. */
  function AfterMantissa(m: Mantissa, sign: Sign): Result<PgNumeric, ParseNumericError> {
    match ScanSuffix(m.rest)
    case Failure(error) => Failure(error)
    case Success(e) => if e.rest != [] then Failure(InvalidSyntax) else Finish(m.digits, m.fraction, e.value, sign)
  }

  function ParseValue(s: string, sign: Sign): Result<PgNumeric, ParseNumericError> {
    var point := s != [] && s[0] == '.';
    var start := if point then s[1..] else s;
    if !StartsWithDigit(start) then
      Failure(InvalidSyntax)
    else
      match ScanMantissa(start, point)
      case None => Failure(InvalidSyntax)
      case Some(m) => AfterMantissa(m, sign)
  }

  // ---------- the grammar of finite numerals ----------

  /** One digit of a run, with the underscore that may separate it from the digit before. */
  datatype RunDigit = RunDigit(digit: nat, underscore: bool)

  type Run = seq<RunDigit>

  predicate WellFormedRun(r: Run) {
    && (forall i | 0 <= i < |r| :: r[i].digit < 10)
    && (r != [] ==> !r[0].underscore)
  }

  function RenderRun(r: Run): string
    requires forall i | 0 <= i < |r| :: r[i].digit < 10
  {
    if r == [] then ""
    else (if r[0].underscore then "_" else "") + [DigitChar(r[0].digit)] + RenderRun(r[1..])
  }

  function RunDigits(r: Run): Digits
    requires forall i | 0 <= i < |r| :: r[i].digit < 10
  {
    seq(|r|, i requires 0 <= i < |r| => r[i].digit)
  }

  function RunValue(value: nat, r: Run): nat
    decreases r
  {
    if r == [] then value else RunValue(value * 10 + r[0].digit, r[1..])
  }

  datatype ExponentSign = NoSign | Plus | Minus

  datatype Suffix = NoExponent | WithExponent(upper: bool, sign: ExponentSign, run: Run)

  datatype Numeral = Numeral(whole: Run, point: bool, fraction: Run, suffix: Suffix)

  predicate WellFormed(n: Numeral) {
    && WellFormedRun(n.whole) && WellFormedRun(n.fraction)
    && (n.fraction != [] ==> n.point)
    && (n.whole != [] || n.fraction != [])
    && (n.suffix.WithExponent? ==> WellFormedRun(n.suffix.run) && n.suffix.run != [])
  }

  function ExponentMark(upper: bool, sign: ExponentSign): string {
    [if upper then 'E' else 'e'] + match sign case NoSign => "" case Plus => "+" case Minus => "-"
  }

  function RenderSuffix(x: Suffix): string
    requires x.WithExponent? ==> WellFormedRun(x.run)
  {
    match x
    case NoExponent => ""
    case WithExponent(upper, sign, run) =>
      ExponentMark(upper, sign) + RenderRun(run)
  }

  function RenderMantissa(n: Numeral): string
    requires WellFormed(n)
  {
    RenderRun(n.whole) + ((if n.point then "." else "") + RenderRun(n.fraction))
  }

  function Render(n: Numeral): string
    requires WellFormed(n)
  {
    RenderMantissa(n) + RenderSuffix(n.suffix)
  }

  /** The power of ten the exponent part asks for. */
  function Power10(x: Suffix): int {
    match x
    case NoExponent => 0
    case WithExponent(_, sign, run) =>
      var value: int := RunValue(0, run);
      if sign == Minus then -value else value
  }

  /** What a numeral denotes: its digits, scaled by its exponent, within PostgreSQL's limits. */
  function Evaluate(n: Numeral, sign: Sign): Result<PgNumeric, ParseNumericError>
    requires WellFormed(n)
  {
    if n.suffix.WithExponent? && RunValue(0, n.suffix.run) > MAX_EXPONENT
    then Failure(ValueOutOfRange)
    else Finish(RunDigits(n.whole) + RunDigits(n.fraction), |n.fraction|, Power10(n.suffix), sign)
  }

  // ---------- every numeral is read for what it denotes ----------

  lemma RunDigitsCons(r: Run, tail: Digits)
    requires r != [] && forall i | 0 <= i < |r| :: r[i].digit < 10
    ensures RunDigits(r) + tail == [r[0].digit] + (RunDigits(r[1..]) + tail)
  {
  }

  /** A mantissa with more digits read in front of it. */
  function PutFirst(digits: Digits, fraction: nat, m: Option<Mantissa>): Option<Mantissa> {
    match m
    case None => None
    case Some(m) => Some(Mantissa(digits + m.digits, m.fraction + fraction, m.rest))
  }

  lemma ScanDigit(d: RunDigit, s: string, point: bool)
    requires d.digit < 10
    ensures ScanMantissa((if d.underscore then "_" else "") + [DigitChar(d.digit)] + s, point) ==
            PutFirst([d.digit], if point then 1 else 0, ScanMantissa(s, point))
  {
    var digits := [DigitChar(d.digit)] + s;
    assert digits[1..] == s;
    if d.underscore {
      assert "_" + [DigitChar(d.digit)] + s == "_" + digits;
      assert ("_" + digits)[1..] == digits;
    } else {
      assert "" + [DigitChar(d.digit)] + s == digits;
    }
  }

  lemma PutCons(r: Run, fraction: nat, more: nat, m: Option<Mantissa>)
    requires r != [] && forall i | 0 <= i < |r| :: r[i].digit < 10
    ensures PutFirst([r[0].digit], fraction, PutFirst(RunDigits(r[1..]), more, m)) ==
            PutFirst(RunDigits(r), fraction + more, m)
  {
    if m.Some? {
      RunDigitsCons(r, m.value.digits);
    }
  }

  lemma {:induction false} ScanRun(r: Run, t: string, point: bool)
    requires forall i | 0 <= i < |r| :: r[i].digit < 10
    ensures ScanMantissa(RenderRun(r) + t, point) ==
            PutFirst(RunDigits(r), if point then |r| else 0, ScanMantissa(t, point))
  {
    if r == [] {
      assert RenderRun(r) + t == t && RunDigits(r) == [];
      PutNothing(ScanMantissa(t, point));
    } else {
      ScanRun(r[1..], t, point);
      ScanDigit(r[0], RenderRun(r[1..]) + t, point);
      Associative(
        (if r[0].underscore then "_" else "") + [DigitChar(r[0].digit)], RenderRun(r[1..]), t);
      PutCons(r, if point then 1 else 0, if point then |r| - 1 else 0, ScanMantissa(t, point));
    }
  }

  lemma PutNothing(m: Option<Mantissa>)
    ensures PutFirst([], 0, m) == m
  {
    if m.Some? {
      assert [] + m.value.digits == m.value.digits;
    }
  }

  lemma {:induction false} RunValueGrows(value: nat, r: Run)
    ensures RunValue(value, r) >= value
    decreases r
  {
    if r != [] {
      RunValueGrows(value * 10 + r[0].digit, r[1..]);
    }
  }

  /** One digit of an exponent, with the underscore that may precede it. */
  lemma ScanExponentDigit(d: RunDigit, rest: string, value: nat)
    requires d.digit < 10
    ensures ScanExponent((if d.underscore then "_" else "") + [DigitChar(d.digit)] + rest, value) ==
            var more := value * 10 + d.digit;
            if more > MAX_EXPONENT then Failure(ValueOutOfRange) else ScanExponent(rest, more)
  {
    var digits := [DigitChar(d.digit)] + rest;
    assert digits[1..] == rest;
    if d.underscore {
      assert "_" + [DigitChar(d.digit)] + rest == "_" + digits;
      assert ("_" + digits)[1..] == digits;
    } else {
      assert "" + [DigitChar(d.digit)] + rest == digits;
    }
  }

  lemma {:induction false} ScanExponentRun(r: Run, value: nat)
    requires forall i | 0 <= i < |r| :: r[i].digit < 10
    requires value <= MAX_EXPONENT
    ensures ScanExponent(RenderRun(r), value) ==
            if RunValue(value, r) > MAX_EXPONENT then Failure(ValueOutOfRange)
            else Success(Exponent(RunValue(value, r), ""))
  {
    if r != [] {
      var more := value * 10 + r[0].digit;
      ScanExponentDigit(r[0], RenderRun(r[1..]), value);
      if more > MAX_EXPONENT {
        RunValueGrows(more, r[1..]);
      } else {
        ScanExponentRun(r[1..], more);
      }
    }
  }

  lemma RunStarts(r: Run, t: string)
    requires WellFormedRun(r) && r != []
    ensures StartsWithDigit(RenderRun(r) + t)
  {
  }

  /** An exponent marker with its sign, and the digits after it. */
  lemma MarkParts(upper: bool, sign: ExponentSign, digits: string)
    requires StartsWithDigit(digits)
    ensures var s := ExponentMark(upper, sign) + digits;
            && |s| > 1 && s[0] == (if upper then 'E' else 'e')
            && (s[1] == '-' <==> sign == Minus)
            && ExponentDigits(s) == digits
  {
    var s := ExponentMark(upper, sign) + digits;
    match sign
    case NoSign => assert s[1..] == digits;
    case Plus => assert s[2..] == digits;
    case Minus => assert s[2..] == digits;
  }

  /** Any text after an exponent marker is such a marker and what follows it. */
  lemma MarkSound(s: string) returns (upper: bool, sign: ExponentSign)
    requires s != [] && (s[0] == 'e' || s[0] == 'E')
    ensures s == ExponentMark(upper, sign) + ExponentDigits(s)
  {
    upper := s[0] == 'E';
    sign := if |s| > 1 && s[1] == '-' then Minus else if |s| > 1 && s[1] == '+' then Plus else NoSign;
  }

  /** A rendered exponent, taken apart. */
  lemma SuffixParts(x: Suffix, t: string)
    requires x.WithExponent? && WellFormedRun(x.run) && x.run != []
    ensures var s := RenderSuffix(x) + t;
            && |s| > 1 && s[0] == (if x.upper then 'E' else 'e')
            && (s[1] == '-' <==> x.sign == Minus)
            && ExponentDigits(s) == RenderRun(x.run) + t
  {
    RunStarts(x.run, t);
    Associative(ExponentMark(x.upper, x.sign), RenderRun(x.run), t);
    MarkParts(x.upper, x.sign, RenderRun(x.run) + t);
  }

  lemma SuffixRead(x: Suffix)
    requires x.WithExponent? ==> WellFormedRun(x.run) && x.run != []
    ensures ScanSuffix(RenderSuffix(x)) ==
            if x.WithExponent? && RunValue(0, x.run) > MAX_EXPONENT
            then Failure(ValueOutOfRange) else Success(Exponent(Power10(x), ""))
  {
    if x.WithExponent? {
      SuffixParts(x, "");
      assert RenderSuffix(x) + "" == RenderSuffix(x) && RenderRun(x.run) + "" == RenderRun(x.run);
      RunStarts(x.run, "");
      ScanExponentRun(x.run, 0);
    }
  }

  /** A text at which the mantissa scanner stops. */
  predicate EndsMantissa(s: string) {
    s == [] || !(IsDigit(s[0]) || s[0] == '.' || s[0] == '_')
  }

  lemma FractionRead(n: Numeral, rest: string)
    requires WellFormed(n) && EndsMantissa(rest)
    ensures ScanMantissa(RenderRun(n.fraction) + rest, true) ==
            Some(Mantissa(RunDigits(n.fraction), |n.fraction|, rest))
  {
    ScanRun(n.fraction, rest, true);
    assert RunDigits(n.fraction) + [] == RunDigits(n.fraction);
  }

  lemma PointRead(n: Numeral, rest: string)
    requires WellFormed(n) && EndsMantissa(rest)
    ensures ScanMantissa((if n.point then "." else "") + RenderRun(n.fraction) + rest, false) ==
            Some(Mantissa(RunDigits(n.fraction), |n.fraction|, rest))
  {
    var fraction := RenderRun(n.fraction) + rest;
    if n.point {
      FractionRead(n, rest);
      assert "." + RenderRun(n.fraction) + rest == "." + fraction;
      assert ("." + fraction)[1..] == fraction;
    } else {
      assert RunDigits(n.fraction) == [];
      assert "" + RenderRun(n.fraction) + rest == rest;
    }
  }

  lemma WholeRead(n: Numeral, rest: string)
    requires WellFormed(n) && EndsMantissa(rest)
    ensures ScanMantissa(RenderMantissa(n) + rest, false) ==
            Some(Mantissa(RunDigits(n.whole) + RunDigits(n.fraction), |n.fraction|, rest))
  {
    var fraction := (if n.point then "." else "") + RenderRun(n.fraction);
    Associative(RenderRun(n.whole), fraction, rest);
    PointRead(n, rest);
    ScanRun(n.whole, fraction + rest, false);
  }

  lemma WholeStarts(n: Numeral, rest: string)
    requires WellFormed(n) && n.whole != []
    ensures StartsWithDigit(RenderMantissa(n) + rest)
  {
  }

  lemma LeadingPoint(n: Numeral, rest: string)
    requires WellFormed(n) && n.whole == []
    ensures RenderMantissa(n) + rest == "." + (RenderRun(n.fraction) + rest)
    ensures (RenderMantissa(n) + rest)[1..] == RenderRun(n.fraction) + rest
    ensures StartsWithDigit(RenderRun(n.fraction) + rest)
    ensures RunDigits(n.whole) + RunDigits(n.fraction) == RunDigits(n.fraction)
  {
  }

  /** A rendered mantissa is read up to the text that follows it. */
  lemma MantissaRead(n: Numeral, rest: string, sign: Sign)
    requires WellFormed(n) && EndsMantissa(rest)
    ensures ParseValue(RenderMantissa(n) + rest, sign) ==
            AfterMantissa(Mantissa(RunDigits(n.whole) + RunDigits(n.fraction), |n.fraction|, rest), sign)
  {
    if n.whole == [] {
      LeadingPoint(n, rest);
      FractionRead(n, rest);
    } else {
      WholeRead(n, rest);
      WholeStarts(n, rest);
    }
  }

  /** Reading a rendered numeral gives exactly what it denotes. */
  lemma ParseRender(n: Numeral, sign: Sign)
    requires WellFormed(n)
    ensures ParseValue(Render(n), sign) == Evaluate(n, sign)
  {
    MantissaRead(n, RenderSuffix(n.suffix), sign);
    SuffixRead(n.suffix);
  }

  // ---------- an exponent past the guard is rejected, whatever follows ----------

  predicate PastGuard(n: Numeral) {
    n.suffix.WithExponent? && RunValue(0, n.suffix.run) > MAX_EXPONENT
  }

  lemma {:induction false} ScanPastGuard(r: Run, t: string, value: nat)
    requires forall i | 0 <= i < |r| :: r[i].digit < 10
    requires value <= MAX_EXPONENT && RunValue(value, r) > MAX_EXPONENT
    ensures ScanExponent(RenderRun(r) + t, value) == Failure(ValueOutOfRange)
  {
    Associative((if r[0].underscore then "_" else "") + [DigitChar(r[0].digit)], RenderRun(r[1..]), t);
    ScanExponentDigit(r[0], RenderRun(r[1..]) + t, value);
    if value * 10 + r[0].digit <= MAX_EXPONENT {
      ScanPastGuard(r[1..], t, value * 10 + r[0].digit);
    }
  }

  lemma SuffixPastGuard(x: Suffix, t: string)
    requires x.WithExponent? && WellFormedRun(x.run) && x.run != [] && RunValue(0, x.run) > MAX_EXPONENT
    ensures ScanSuffix(RenderSuffix(x) + t) == Failure(ValueOutOfRange)
  {
    SuffixParts(x, t);
    RunStarts(x.run, t);
    ScanPastGuard(x.run, t, 0);
  }

  lemma ParsePastGuard(n: Numeral, t: string, sign: Sign)
    requires WellFormed(n) && PastGuard(n)
    ensures ParseValue(Render(n) + t, sign) == Failure(ValueOutOfRange)
  {
    var rest := RenderSuffix(n.suffix) + t;
    Associative(RenderMantissa(n), RenderSuffix(n.suffix), t);
    SuffixPastGuard(n.suffix, t);
    assert EndsMantissa(rest);
    MantissaRead(n, rest, sign);
  }

  // ---------- whatever is read was a numeral ----------

  ghost predicate RunFor(r: Run, s: string, rest: string) {
    && (forall i | 0 <= i < |r| :: r[i].digit < 10)
    && s == RenderRun(r) + rest
    && (r != [] ==> (r[0].underscore <==> s[0] == '_'))
  }

  /** Puts the first character of `s` in front of the run read from the rest. */
  lemma GrowRun(s: string, r: Run, rest: string) returns (r': Run)
    requires s != [] && RunFor(r, s[1..], rest)
    requires IsDigit(s[0]) || (s[0] == '_' && StartsWithDigit(s[1..]) && r != [])
    ensures RunFor(r', s, rest)
    ensures r' == if IsDigit(s[0]) then [RunDigit(DigitValue(s[0]), false)] + r
                  else [r[0].(underscore := true)] + r[1..]
  {
    assert s == [s[0]] + s[1..];
    if IsDigit(s[0]) {
      r' := [RunDigit(DigitValue(s[0]), false)] + r;
      assert r'[1..] == r;
      assert RenderRun(r') == [s[0]] + RenderRun(r);
    } else {
      r' := [r[0].(underscore := true)] + r[1..];
      assert RenderRun(r') == "_" + RenderRun(r);
    }
  }

  lemma {:induction false} FractionSound(s: string) returns (r: Run)
    requires ScanMantissa(s, true).Some?
    ensures var m := ScanMantissa(s, true).value;
            RunFor(r, s, m.rest) && RunDigits(r) == m.digits && |r| == m.fraction
    ensures StartsWithDigit(s) ==> r != []
  {
    if s != [] && (IsDigit(s[0]) || s[0] == '_') {
      var shorter := FractionSound(s[1..]);
      r := GrowRun(s, shorter, ScanMantissa(s, true).value.rest);
      GrownRun(s[0], shorter, r);
    } else {
      r := [];
    }
  }

  lemma GrownRun(c: char, r: Run, r': Run)
    requires forall i | 0 <= i < |r| :: r[i].digit < 10
    requires IsDigit(c) || r != []
    requires r' == if IsDigit(c) then [RunDigit(DigitValue(c), false)] + r else [r[0].(underscore := true)] + r[1..]
    ensures |r'| == |r| + if IsDigit(c) then 1 else 0
    ensures RunDigits(r') == (if IsDigit(c) then [DigitValue(c)] else []) + RunDigits(r)
  {
  }

  lemma GrownDigits(c: char, r: Run, r': Run, fraction: Run)
    requires forall i | 0 <= i < |r| :: r[i].digit < 10
    requires forall i | 0 <= i < |fraction| :: fraction[i].digit < 10
    requires IsDigit(c) || r != []
    requires r' == if IsDigit(c) then [RunDigit(DigitValue(c), false)] + r else [r[0].(underscore := true)] + r[1..]
    ensures RunDigits(r') + RunDigits(fraction) ==
            (if IsDigit(c) then [DigitValue(c)] else []) + (RunDigits(r) + RunDigits(fraction))
  {
  }

  lemma PointSound(s: string) returns (fraction: Run)
    requires s != [] && s[0] == '.' && ScanMantissa(s, false).Some?
    ensures var m := ScanMantissa(s, false).value;
            && WellFormedRun(fraction) && s == "." + RenderRun(fraction) + m.rest
            && RunDigits(fraction) == m.digits && |fraction| == m.fraction
  {
    fraction := FractionSound(s[1..]);
    PointText(s, RenderRun(fraction), ScanMantissa(s, false).value.rest);
  }

  lemma PointText(s: string, run: string, rest: string)
    requires s != [] && s[0] == '.' && s[1..] == run + rest
    ensures s == "." + run + rest
  {
    Associative(".", run, rest);
  }

  lemma {:induction false} WholeSound(s: string) returns (whole: Run, point: bool, fraction: Run)
    requires ScanMantissa(s, false).Some?
    ensures var m := ScanMantissa(s, false).value;
            && WellFormedRun(fraction) && (fraction != [] ==> point)
            && RunFor(whole, s, (if point then "." else "") + RenderRun(fraction) + m.rest)
            && RunDigits(whole) + RunDigits(fraction) == m.digits && |fraction| == m.fraction
    ensures StartsWithDigit(s) ==> whole != []
  {
    if s == [] {
      whole, point, fraction := [], false, [];
    } else if IsDigit(s[0]) || s[0] == '_' {
      var m := ScanMantissa(s, false).value;
      whole, point, fraction := WholeSound(s[1..]);
      var shorter := whole;
      whole := GrowRun(s, whole, (if point then "." else "") + RenderRun(fraction) + m.rest);
      GrownDigits(s[0], shorter, whole, fraction);
    } else if s[0] == '.' {
      whole, point := [], true;
      fraction := PointSound(s);
      assert RunDigits(whole) + RunDigits(fraction) == RunDigits(fraction);
    } else {
      whole, point, fraction := [], false, [];
    }
  }

  lemma {:induction false} ExponentSound(s: string, value: nat) returns (r: Run)
    requires ScanExponent(s, value).Success?
    ensures RunFor(r, s, ScanExponent(s, value).value.rest)
    ensures StartsWithDigit(s) ==> r != []
  {
    if s != [] && (IsDigit(s[0]) || s[0] == '_') {
      r := ExponentSound(s[1..], if IsDigit(s[0]) then value * 10 + DigitValue(s[0]) else value);
      r := GrowRun(s, r, ScanExponent(s, value).value.rest);
    } else {
      r := [];
    }
  }

  lemma SuffixSound(s: string) returns (x: Suffix)
    requires ScanSuffix(s).Success? && ScanSuffix(s).value.rest == []
    ensures x.WithExponent? ==> WellFormedRun(x.run) && x.run != []
    ensures s == RenderSuffix(x)
  {
    if s == [] {
      x := NoExponent;
    } else {
      var upper, sign := MarkSound(s);
      var run := ExponentSound(ExponentDigits(s), 0);
      x := WithExponent(upper, sign, run);
      assert ExponentDigits(s) == RenderRun(run);
    }
  }

  /** One digit that takes the value past the guard. */
  lemma DigitPastGuard(s: string, value: nat) returns (r: Run, t: string)
    requires s != [] && IsDigit(s[0]) && value * 10 + DigitValue(s[0]) > MAX_EXPONENT
    ensures RunFor(r, s, t) && r != [] && RunValue(value, r) > MAX_EXPONENT
  {
    t := s[1..];
    assert RunFor([], s[1..], t);
    r := GrowRun(s, [], t);
    GrownValue(s[0], value, [], r);
  }

  lemma {:induction false} PastGuardSound(s: string, value: nat) returns (r: Run, t: string)
    requires ScanExponent(s, value) == Failure(ValueOutOfRange)
    ensures RunFor(r, s, t) && r != [] && RunValue(value, r) > MAX_EXPONENT
  {
    if IsDigit(s[0]) && value * 10 + DigitValue(s[0]) > MAX_EXPONENT {
      r, t := DigitPastGuard(s, value);
    } else {
      var more := if IsDigit(s[0]) then value * 10 + DigitValue(s[0]) else value;
      var shorter, rest := PastGuardSound(s[1..], more);
      r := GrowRun(s, shorter, rest);
      t := rest;
      GrownValue(s[0], value, shorter, r);
    }
  }

  lemma GrownValue(c: char, value: nat, r: Run, r': Run)
    requires IsDigit(c) || r != []
    requires r' == if IsDigit(c) then [RunDigit(DigitValue(c), false)] + r else [r[0].(underscore := true)] + r[1..]
    ensures RunValue(value, r') == RunValue(if IsDigit(c) then value * 10 + DigitValue(c) else value, r)
  {
  }

  /** The suffix at the start of a text whose exponent is past the guard. */
  lemma SuffixPastGuardSound(s: string) returns (x: Suffix, t: string)
    requires ScanSuffix(s) == Failure(ValueOutOfRange)
    ensures x.WithExponent? && WellFormedRun(x.run) && x.run != [] && RunValue(0, x.run) > MAX_EXPONENT
    ensures s == RenderSuffix(x) + t
  {
    var upper, sign := MarkSound(s);
    var run, rest := PastGuardSound(ExponentDigits(s), 0);
    x, t := WithExponent(upper, sign, run), rest;
    Associative(ExponentMark(upper, sign), RenderRun(run), rest);
  }

  /** The mantissa of a text that gets past the mantissa scanner, with any suffix. */
  lemma MantissaSound(s: string, m: Mantissa, suffix: Suffix, point: bool) returns (n: Numeral)
    requires suffix.WithExponent? ==> WellFormedRun(suffix.run) && suffix.run != []
    requires s != [] && point == (s[0] == '.') && StartsWithDigit(if point then s[1..] else s)
    requires ScanMantissa(if point then s[1..] else s, point) == Some(m)
    ensures WellFormed(n) && n.suffix == suffix && s == RenderMantissa(n) + m.rest
  {
    if point {
      var fraction := FractionSound(s[1..]);
      n := Numeral([], true, fraction, suffix);
      assert s == "." + s[1..];
      LeadingPoint(n, m.rest);
    } else {
      var whole, point', fraction := WholeSound(s);
      n := Numeral(whole, point', fraction, suffix);
      Associative(RenderRun(whole), (if point' then "." else "") + RenderRun(fraction), m.rest);
    }
  }

  /** Every accepted text is a numeral, so its value is what that numeral denotes. */
  lemma ParseSound(s: string, sign: Sign) returns (n: Numeral)
    requires ParseValue(s, sign).Success?
    ensures WellFormed(n) && Render(n) == s && Evaluate(n, sign) == ParseValue(s, sign)
  {
    var point := s[0] == '.';
    var m := ScanMantissa(if point then s[1..] else s, point).value;
    var suffix := SuffixSound(m.rest);
    n := MantissaSound(s, m, suffix, point);
    ParseRender(n, sign);
  }

  /** A text out of range is a numeral outside the limits, or starts with one whose exponent is past the guard. */
  lemma OutOfRangeSound(s: string, sign: Sign) returns (n: Numeral)
    requires ParseValue(s, sign) == Failure(ValueOutOfRange)
    ensures WellFormed(n)
    ensures (Render(n) == s && Evaluate(n, sign) == Failure(ValueOutOfRange)) || (PastGuard(n) && Render(n) <= s)
  {
    var point := s[0] == '.';
    var m := ScanMantissa(if point then s[1..] else s, point).value;
    if ScanSuffix(m.rest).Success? {
      var suffix := SuffixSound(m.rest);
      n := MantissaSound(s, m, suffix, point);
      ParseRender(n, sign);
    } else {
      var suffix, t := SuffixPastGuardSound(m.rest);
      n := MantissaSound(s, m, suffix, point);
      Associative(RenderMantissa(n), RenderSuffix(suffix), t);
    }
  }
}
