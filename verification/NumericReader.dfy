/**
 The byte loops of the numeric parser, with their fixed-width counters, refine
 the scanners.
 */
module NumericReader {
  import opened Integers
  import opened Text
  import opened Numeric
  import opened NumericParser

  /** The mantissa scan that finds `goal` has come to `pos`; `fraction` of the `digits` read are past the point. */
  ghost predicate MantissaScanAt(
    bytes: string, pos: nat, point: bool, digits: Digits, fraction: nat, goal: Option<Mantissa>)
  {
    && pos <= |bytes|
    && PutFirst(digits, fraction, ScanMantissa(bytes[pos..], point)) == goal
  }

  lemma MantissaStarts(bytes: string, start: nat, point: bool)
    requires start <= |bytes|
    ensures MantissaScanAt(bytes, start, point, [], 0, ScanMantissa(bytes[start..], point))
  {
    PutNothing(ScanMantissa(bytes[start..], point));
  }

  lemma MantissaDigit(bytes: string, pos: nat, point: bool, digits: Digits, fraction: nat, goal: Option<Mantissa>)
    requires MantissaScanAt(bytes, pos, point, digits, fraction, goal) && pos < |bytes| && IsDigit(bytes[pos])
    ensures MantissaScanAt(
              bytes, pos + 1, point, digits + [DigitValue(bytes[pos])], fraction + (if point then 1 else 0), goal)
  {
    assert bytes[pos..][1..] == bytes[pos + 1..];
    var d := DigitValue(bytes[pos]);
    match ScanMantissa(bytes[pos + 1..], point)
    case None =>
    case Some(m) => assert digits + ([d] + m.digits) == digits + [d] + m.digits;
  }

  lemma MantissaPoint(bytes: string, pos: nat, point: bool, digits: Digits, fraction: nat, goal: Option<Mantissa>)
    requires MantissaScanAt(bytes, pos, point, digits, fraction, goal) && pos < |bytes| && bytes[pos] == '.'
    ensures if point || (pos + 1 < |bytes| && bytes[pos + 1] == '_') then goal == None
            else MantissaScanAt(bytes, pos + 1, true, digits, fraction, goal)
  {
    assert bytes[pos..][1..] == bytes[pos + 1..];
  }

  lemma MantissaUnderscore(bytes: string, pos: nat, point: bool, digits: Digits, fraction: nat, goal: Option<Mantissa>)
    requires MantissaScanAt(bytes, pos, point, digits, fraction, goal) && pos < |bytes| && bytes[pos] == '_'
    ensures if pos + 1 < |bytes| && IsDigit(bytes[pos + 1])
            then MantissaScanAt(bytes, pos + 1, point, digits, fraction, goal) else goal == None
  {
    assert bytes[pos..][1..] == bytes[pos + 1..];
  }

  lemma MantissaEnds(bytes: string, pos: nat, point: bool, digits: Digits, fraction: nat, goal: Option<Mantissa>)
    requires MantissaScanAt(bytes, pos, point, digits, fraction, goal)
    requires pos == |bytes| || EndsMantissa(bytes[pos..])
    ensures goal == Some(Mantissa(digits, fraction, bytes[pos..]))
  {
    assert digits + [] == digits;
  }

  method ReadMantissa(bytes: string, start: nat, point: bool)
    returns (r: Option<(Digits, CounterI32, CounterU32, nat)>)
    requires start <= |bytes| < MAX_TEXT
    ensures r.None? <==> ScanMantissa(bytes[start..], point).None?
    ensures r.Some? ==>
              var (digits, dweight, dscale, pos) := r.value;
              && pos <= |bytes|
              && ScanMantissa(bytes[start..], point) == Some(Mantissa(digits, dscale as int, bytes[pos..]))
              && dweight as int == |digits| - dscale as int - 1
              && |digits| <= |bytes| && dscale as int <= |bytes|
  {
    var digits: Digits, havePoint, pos := [], point, start;
    var dweight: CounterI32, dscale: CounterU32 := -1, 0;
    ghost var goal := ScanMantissa(bytes[start..], point);
    MantissaStarts(bytes, start, point);
    while pos < |bytes|
      invariant MantissaScanAt(bytes, pos, havePoint, digits, dscale as int, goal)
      invariant |digits| <= pos && dscale as int <= |digits| && dweight as int == |digits| - dscale as int - 1
    {
      var byte := bytes[pos];
      if IsDigit(byte) {
        MantissaDigit(bytes, pos, havePoint, digits, dscale as int, goal);
        digits := digits + [DigitValue(byte)];
        if !havePoint {
          dweight := dweight + 1;
        } else {
          dscale := dscale + 1;
        }
      } else if byte == '.' {
        MantissaPoint(bytes, pos, havePoint, digits, dscale as int, goal);
        if havePoint || (pos + 1 < |bytes| && bytes[pos + 1] == '_') {
          return None;
        }
        havePoint := true;
      } else if byte == '_' {
        MantissaUnderscore(bytes, pos, havePoint, digits, dscale as int, goal);
        if !(pos + 1 < |bytes| && IsDigit(bytes[pos + 1])) {
          return None;
        }
      } else {
        break;
      }
      pos := pos + 1;
    }
    MantissaEnds(bytes, pos, havePoint, digits, dscale as int, goal);
    return Some((digits, dweight, dscale, pos));
  }

  method ReadExponent(bytes: string, start: nat) returns (r: Result<(CounterI64, nat), ParseNumericError>)
    requires start <= |bytes|
    ensures r.Failure? ==> ScanExponent(bytes[start..], 0) == Failure(r.error)
    ensures r.Success? ==>
              && r.value.1 <= |bytes|
              && ScanExponent(bytes[start..], 0) == Success(Exponent(r.value.0 as int, bytes[r.value.1..]))
              && 0 <= r.value.0 as int <= MAX_EXPONENT
  {
    var exponent: CounterI64, pos := 0, start;
    while pos < |bytes|
      invariant start <= pos <= |bytes| && 0 <= exponent as int <= MAX_EXPONENT
      invariant ScanExponent(bytes[pos..], exponent as int) == ScanExponent(bytes[start..], 0)
    {
      var byte := bytes[pos];
      assert bytes[pos..][1..] == bytes[pos + 1..];
      if IsDigit(byte) {
        pos := pos + 1;
        exponent := exponent * 10 + DigitValue(byte) as CounterI64;
        if exponent as int > MAX_EXPONENT {
          return Failure(ValueOutOfRange);
        }
      } else if byte == '_' {
        pos := pos + 1;
        if !(pos < |bytes| && IsDigit(bytes[pos])) {
          return Failure(InvalidSyntax);
        }
      } else {
        break;
      }
    }
    assert ScanExponent(bytes[pos..], exponent as int) == Success(Exponent(exponent as int, bytes[pos..]));
    return Success((exponent, pos));
  }

  /** Reads the exponent, if there is one, as a signed power of ten. */
  method ReadSuffix(bytes: string, start: nat) returns (r: Result<(CounterI64, nat), ParseNumericError>)
    requires start <= |bytes|
    ensures r.Failure? ==> ScanSuffix(bytes[start..]) == Failure(r.error)
    ensures r.Success? ==>
              && r.value.1 <= |bytes|
              && ScanSuffix(bytes[start..]) == Success(Exponent(r.value.0 as int, bytes[r.value.1..]))
              && -MAX_EXPONENT <= r.value.0 as int <= MAX_EXPONENT
  {
    var pos := start;
    if !(pos < |bytes| && (bytes[pos] == 'e' || bytes[pos] == 'E')) {
      return Success((0, pos));
    }
    pos := pos + 1;
    var negative := false;
    ghost var s := bytes[start..];
    if pos < |bytes| && bytes[pos] == '+' {
      pos := pos + 1;
    } else if pos < |bytes| && bytes[pos] == '-' {
      negative := true;
      pos := pos + 1;
    }
    assert bytes[pos..] == if |s| > 1 && (s[1] == '+' || s[1] == '-') then s[2..] else s[1..];
    if !(pos < |bytes| && IsDigit(bytes[pos])) {
      return Failure(InvalidSyntax);
    }
    var read := ReadExponent(bytes, pos);
    if read.Failure? {
      return Failure(read.error);
    }
    var (exponent, end) := read.value;
    if negative {
      exponent := -exponent;
    }
    return Success((exponent, end));
  }

  /** No counter overflows, and the result is the value the scanners define. */
  method ParseNumericValue(bytes: string, sign: Sign) returns (r: Result<PgNumeric, ParseNumericError>)
    requires |bytes| < MAX_TEXT
    ensures r == ParseValue(bytes, sign)
  {
    var point, pos := false, 0;
    if bytes != [] && bytes[0] == '.' {
      point, pos := true, 1;
    }
    assert bytes[0..] == bytes;
    if !(pos < |bytes| && IsDigit(bytes[pos])) {
      return Failure(InvalidSyntax);
    }
    var mantissa := ReadMantissa(bytes, pos, point);
    if mantissa.None? {
      return Failure(InvalidSyntax);
    }
    r := ParseRest(bytes, mantissa.value, sign);
  }

  method ParseRest(bytes: string, mantissa: (Digits, CounterI32, CounterU32, nat), sign: Sign)
    returns (r: Result<PgNumeric, ParseNumericError>)
    requires |bytes| < MAX_TEXT
    requires mantissa.3 <= |bytes| && |mantissa.0| <= |bytes| && mantissa.2 as int <= |bytes|
    requires mantissa.1 as int == |mantissa.0| - mantissa.2 as int - 1
    ensures r == AfterMantissa(Mantissa(mantissa.0, mantissa.2 as int, bytes[mantissa.3..]), sign)
  {
    var (digits, dweight, dscale, pos) := mantissa;
    var suffix := ReadSuffix(bytes, pos);
    if suffix.Failure? {
      return Failure(suffix.error);
    }
    var (exponent, end) := suffix.value;
    if end != |bytes| {
      return Failure(InvalidSyntax);
    }
    r := ShiftAndConvert(digits, dweight, dscale, exponent, sign);
  }

  /** Applies the exponent to the weight and the scale. */
  method ShiftAndConvert(digits: Digits, weight: CounterI32, fraction: CounterU32, exponent: CounterI64, sign: Sign)
    returns (r: Result<PgNumeric, ParseNumericError>)
    requires |digits| < MAX_TEXT && fraction as int < MAX_TEXT
    requires weight as int == |digits| - fraction as int - 1
    requires -MAX_EXPONENT <= exponent as int <= MAX_EXPONENT
    ensures r == Finish(digits, fraction as int, exponent as int, sign)
  {
    var dweight := weight + exponent as CounterI32;
    var shifted := fraction as CounterI64 - exponent;
    var dscale: CounterU32 := if shifted < 0 then 0 else shifted as CounterU32;
    if dscale as int > POSTGRES_NUMERIC_MAX_SCALE {
      return Failure(ValueOutOfRange);
    }
    r := ConvertToBase10000(digits, dweight, dscale, sign);
  }
}
