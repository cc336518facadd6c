/**
 The form of printed NUMERIC values: a plain decimal without leading zeros. Among
 all texts that parse, those in this form are exactly the ones that printing gives
 back unchanged.
 */
module NumericForm {
  import opened Integers
  import opened Text
  import opened Numeric
  import opened NumericParser
  import opened NumericPrinter
  import opened NumericText
  import opened NumericRoundTrip

  /** A sign, a whole part without leading zeros, and the fraction after a point, if there is one. */
  ghost predicate Decimals(text: string, negative: bool, whole: string, fraction: string) {
    && AllDigits(whole) && AllDigits(fraction)
    && whole != [] && (whole[0] == '0' ==> whole == "0")
    && text == (if negative then "-" else "") + (whole + if fraction == [] then "" else "." + fraction)
  }

  predicate AllZeros(s: string) {
    forall i | 0 <= i < |s| :: s[i] == '0'
  }

  /** A plain decimal; a zero has no sign. */
  ghost predicate Plain(text: string, negative: bool, whole: string, fraction: string) {
    && Decimals(text, negative, whole, fraction)
    && (negative ==> !AllZeros(whole) || !AllZeros(fraction))
  }

  ghost predicate InPlainForm(text: string) {
    exists negative, whole, fraction :: Plain(text, negative, whole, fraction)
  }

  // ---------- what is printed is a plain decimal ----------

  /** The first digit of a value with a whole part. */
  lemma TopDigit(weight: int, groups: seq<i16>)
    requires InBase(groups) && groups != [] && groups[0] != 0 && weight >= 0
    ensures ExpansionAt(weight, groups, TopExponent(weight, groups)) != 0
  {
    var n, top := groups[0], TopExponent(weight, groups);
    assert top / 4 == weight && top % 4 == Width(n) - 1;
    assert GroupAt(weight, groups, weight) == n;
    LeadingDigit(n);
  }

  lemma LeadingDigit(n: nat)
    requires 0 < n < 10000
    ensures DigitOfGroup(n, Width(n) - 1) != 0
  {
  }

  /** Two texts that hold the digits of a value before and after the point. */
  ghost predicate HoldDigits(weight: int, groups: seq<i16>, whole: string, fraction: string)
    requires InBase(groups)
  {
    && AllDigits(whole) && AllDigits(fraction)
    && (forall i | 0 <= i < |whole| :: DigitValue(whole[i]) == ExpansionAt(weight, groups, |whole| - 1 - i))
    && (forall i | 0 <= i < |fraction| :: DigitValue(fraction[i]) == ExpansionAt(weight, groups, -1 - i))
  }

  /** What is printed for groups, as the texts before and after the point. */
  lemma PrintedHolds(weight: int, scale: nat, groups: seq<i16>) returns (whole: string, fraction: string)
    requires InBase(groups)
    ensures HoldDigits(weight, groups, whole, fraction)
    ensures |whole| == TopExponent(weight, groups) + 1 && |fraction| == scale
    ensures PrintedUnsigned(weight, scale, groups) == whole + if fraction == [] then "" else "." + fraction
  {
    var top := TopExponent(weight, groups);
    whole, fraction := Expansion(weight, groups, top, top + 1), Expansion(weight, groups, -1, scale);
    ExpansionDigits(weight, groups, top, top + 1);
    ExpansionDigits(weight, groups, -1, scale);
  }

  /** The whole part is zero exactly if the value has none, and else starts with its first digit. */
  lemma WholeForm(weight: int, groups: seq<i16>, whole: string, fraction: string)
    requires InBase(groups) && (groups != [] ==> groups[0] != 0)
    requires HoldDigits(weight, groups, whole, fraction) && |whole| == TopExponent(weight, groups) + 1
    ensures whole[0] == '0' ==> whole == "0"
    ensures whole == "0" <==> groups == [] || weight < 0
  {
    if groups == [] || weight < 0 {
      assert |whole| == 1 && GroupAt(weight, groups, 0) == 0;
      assert ExpansionAt(weight, groups, 0) == 0;
      assert whole[0] == '0';
      assert whole == "0";
    } else {
      TopDigit(weight, groups);
      assert DigitValue(whole[0]) != 0;
    }
  }

  /** A canonical value is printed as a plain decimal with as many places as its scale. */
  lemma DisplayForm(v: PgNumeric) returns (whole: string, fraction: string)
    requires v.Value? && Canonical(v)
    ensures Decimals(Display(v), v.digits != [] && v.sign == Negative, whole, fraction)
    ensures |fraction| == v.scale && (whole == "0" <==> v.digits == [] || v.weight < 0)
    ensures HoldDigits(v.weight, Visible(v.digits), whole, fraction)
  {
    whole, fraction := PrintedHolds(v.weight, v.scale, Visible(v.digits));
    WholeForm(v.weight, Visible(v.digits), whole, fraction);
  }

  /** What parsing can give is printed without a sign on zero. */
  lemma DisplayPlain(v: PgNumeric)
    requires v.Value? && Presentable(v) && |v.digits| <= 0x8000
    ensures InPlainForm(Display(v))
  {
    var whole, fraction := DisplayForm(v);
    var negative := v.digits != [] && v.sign == Negative;
    if negative {
      PrintedNonZero(v, whole, fraction);
    }
    assert Plain(Display(v), negative, whole, fraction);
  }

  lemma PrintedNonZero(v: PgNumeric, whole: string, fraction: string)
    requires v.Value? && Presentable(v) && v.digits != [] && whole != [] && |fraction| == v.scale
    requires (whole[0] == '0' ==> whole == "0") && (whole == "0" ==> v.weight < 0)
    requires HoldDigits(v.weight, v.digits, whole, fraction)
    ensures !AllZeros(whole) || !AllZeros(fraction)
  {
    if v.weight < 0 {
      var n := v.digits[0];
      var e := 4 * v.weight + Width(n) - 1;
      LeadingDigit(n);
      assert e / 4 == v.weight && e % 4 == Width(n) - 1 && GroupAt(v.weight, v.digits, v.weight) == n;
      assert ExpansionAt(v.weight, v.digits, e) != 0;
      assert DigitValue(fraction[-1 - e]) != 0;
    }
  }

  // ---------- a plain decimal is printed as it is ----------

  ghost function PlainNumeral(whole: string, fraction: string): (n: Numeral)
    requires AllDigits(whole) && AllDigits(fraction) && whole != []
    ensures WellFormed(n)
  {
    Numeral(PlainRun(whole), fraction != [], PlainRun(fraction), NoExponent)
  }

  lemma PlainRenders(whole: string, fraction: string)
    requires AllDigits(whole) && AllDigits(fraction) && whole != []
    ensures Render(PlainNumeral(whole, fraction)) == whole + if fraction == [] then "" else "." + fraction
  {
    RenderPlain(whole);
    RenderPlain(fraction);
    var n := PlainNumeral(whole, fraction);
    assert Render(n) == whole + ((if fraction != [] then "." else "") + fraction) + "";
  }

  /** How a plain decimal is read. */
  lemma PlainReads(text: string, negative: bool, whole: string, fraction: string)
    requires Decimals(text, negative, whole, fraction)
    ensures FromText(text) == Evaluate(PlainNumeral(whole, fraction), if negative then Negative else Positive)
  {
    var s := whole + if fraction == [] then "" else "." + fraction;
    PlainRenders(whole, fraction);
    assert s[0] == whole[0];
    assert s[|s| - 1] == if fraction == [] then whole[|whole| - 1] else fraction[|fraction| - 1];
    SignedText(s, negative);
    ParseRender(PlainNumeral(whole, fraction), if negative then Negative else Positive);
  }

  lemma PlainDigit(whole: string, fraction: string, e: int)
    requires AllDigits(whole) && AllDigits(fraction) && whole != []
    ensures DecimalAt(MantissaDigits(PlainNumeral(whole, fraction)), |whole| - 1, e) ==
            if 0 <= e < |whole| then DigitValue(whole[|whole| - 1 - e])
            else if -|fraction| <= e < 0 then DigitValue(fraction[-1 - e])
            else 0
  {
    var ds := MantissaDigits(PlainNumeral(whole, fraction));
    assert |ds| == |whole| + |fraction|;
  }

  /** A value that holds the digits of a plain decimal has its first digit where the decimal has it. */
  lemma SameTop(weight: int, groups: seq<i16>, whole: string)
    requires InBase(groups) && (groups != [] ==> groups[0] != 0) && AllDigits(whole) && whole != []
    requires whole[0] == '0' ==> whole == "0"
    requires forall e | e >= 0 ::
               ExpansionAt(weight, groups, e) == if e < |whole| then DigitValue(whole[|whole| - 1 - e]) else 0
    ensures TopExponent(weight, groups) == |whole| - 1
  {
    var top, last := TopExponent(weight, groups), |whole| - 1;
    if groups != [] && weight >= 0 {
      TopDigit(weight, groups);
      assert ExpansionAt(weight, groups, top) != 0;
      assert top <= last;
    }
    if top < last {
      NothingAbove(weight, groups, last);
      assert false;
    }
  }

  /** Printing gives back the digits of a plain decimal. */
  lemma ExpandsTo(weight: int, groups: seq<i16>, start: int, s: string)
    requires InBase(groups) && AllDigits(s)
    requires forall i | 0 <= i < |s| :: ExpansionAt(weight, groups, start - i) == DigitValue(s[i])
    ensures Expansion(weight, groups, start, |s|) == s
  {
    ExpansionDigits(weight, groups, start, |s|);
    var e := Expansion(weight, groups, start, |s|);
    forall i | 0 <= i < |s| ensures e[i] == s[i] {
      assert DigitValue(e[i]) == DigitValue(s[i]);
    }
  }

  lemma PrintsDigits(weight: int, groups: seq<i16>, whole: string, fraction: string)
    requires InBase(groups) && TopExponent(weight, groups) == |whole| - 1
    requires HoldDigits(weight, groups, whole, fraction)
    ensures PrintedUnsigned(weight, |fraction|, groups) == whole + if fraction == [] then "" else "." + fraction
  {
    ExpandsTo(weight, groups, |whole| - 1, whole);
    ExpandsTo(weight, groups, -1, fraction);
  }

  /** A plain decimal that parses is encoded from its digits. */
  lemma PlainEncodes(text: string, negative: bool, whole: string, fraction: string)
    requires Decimals(text, negative, whole, fraction) && FromText(text).Success?
    ensures |fraction| <= 0xFFFF && FitsWeight(MantissaDigits(PlainNumeral(whole, fraction)), |whole| - 1)
    ensures FromText(text).value ==
            Encode(MantissaDigits(PlainNumeral(whole, fraction)), |whole| - 1, |fraction|,
                   if negative then Negative else Positive)
  {
    PlainReads(text, negative, whole, fraction);
    assert |MantissaDigits(PlainNumeral(whole, fraction))| == |whole| + |fraction|;
  }

  /** A plain decimal that parses is printed as it is. */
  lemma PlainStays(text: string, negative: bool, whole: string, fraction: string)
    requires Plain(text, negative, whole, fraction) && FromText(text).Success?
    ensures var v := FromText(text).value;
            v.Value? && InBase(v.digits) && (|v.digits| <= 0x8000 ==> Display(v) == text)
  {
    var v, sign := FromText(text).value, if negative then Negative else Positive;
    PlainEncodes(text, negative, whole, fraction);
    HoldsPlain(v, whole, fraction, sign);
    FirstGroup(MantissaDigits(PlainNumeral(whole, fraction)), |whole| - 1, |fraction|, sign);
    SameTop(v.weight, v.digits, whole);
    PrintsDigits(v.weight, v.digits, whole, fraction);
    SignKept(v, negative, whole, fraction, sign);
  }

  lemma FirstGroup(ds: Digits, dweight: int, scale: u16, sign: Sign)
    requires FitsWeight(ds, dweight)
    ensures var v := Encode(ds, dweight, scale, sign); v.digits != [] ==> v.digits[0] != 0
  {
    EncodeGroups(ds, dweight, scale, sign);
  }

  lemma HoldsPlain(v: PgNumeric, whole: string, fraction: string, sign: Sign)
    requires AllDigits(whole) && AllDigits(fraction) && whole != [] && |fraction| <= 0xFFFF
    requires FitsWeight(MantissaDigits(PlainNumeral(whole, fraction)), |whole| - 1)
    requires v == Encode(MantissaDigits(PlainNumeral(whole, fraction)), |whole| - 1, |fraction|, sign)
    ensures InBase(v.digits) && HoldDigits(v.weight, v.digits, whole, fraction)
    ensures forall e | e >= 0 ::
              ExpansionAt(v.weight, v.digits, e) == if e < |whole| then DigitValue(whole[|whole| - 1 - e]) else 0
  {
    var ds := MantissaDigits(PlainNumeral(whole, fraction));
    EncodeGroups(ds, |whole| - 1, |fraction|, sign);
    forall e ensures ExpansionAt(v.weight, v.digits, e) == DecimalAt(ds, |whole| - 1, e) {
      EncodeExpansion(ds, |whole| - 1, |fraction|, sign, e);
    }
    forall e ensures ExpansionAt(v.weight, v.digits, e) ==
                     if 0 <= e < |whole| then DigitValue(whole[|whole| - 1 - e])
                     else if -|fraction| <= e < 0 then DigitValue(fraction[-1 - e])
                     else 0
    {
      PlainDigit(whole, fraction, e);
    }
  }

  lemma SignKept(v: PgNumeric, negative: bool, whole: string, fraction: string, sign: Sign)
    requires AllDigits(whole) && AllDigits(fraction) && whole != [] && |fraction| <= 0xFFFF
    requires FitsWeight(MantissaDigits(PlainNumeral(whole, fraction)), |whole| - 1)
    requires v == Encode(MantissaDigits(PlainNumeral(whole, fraction)), |whole| - 1, |fraction|, sign)
    requires sign == (if negative then Negative else Positive)
    requires negative ==> !AllZeros(whole) || !AllZeros(fraction)
    ensures negative <==> v.digits != [] && v.sign == Negative
  {
    var n := PlainNumeral(whole, fraction);
    ZeroDigits(n);
    if negative {
      if i :| 0 <= i < |whole| && whole[i] != '0' {
        assert n.whole[i].digit != 0;
      } else {
        var i :| 0 <= i < |fraction| && fraction[i] != '0';
        assert n.fraction[i].digit != 0;
      }
    }
  }

  /** The special values are written in one way each, which is read back. */
  lemma SpecialsStay()
    ensures FromText("NaN") == Success(NaN) && Display(NaN) == "NaN"
    ensures FromText("Infinity") == Success(PositiveInfinity) && Display(PositiveInfinity) == "Infinity"
    ensures FromText("-Infinity") == Success(NegativeInfinity) && Display(NegativeInfinity) == "-Infinity"
  {
    PresentableRoundTrip(NaN);
    PresentableRoundTrip(PositiveInfinity);
    PresentableRoundTrip(NegativeInfinity);
  }

  /** Among the texts that parse, these are printed as they were read. */
  ghost predicate Stays(text: string, v: PgNumeric) {
    || text in ["NaN", "Infinity", "-Infinity"]
    || (InPlainForm(text) && v.Value? && |v.digits| <= 0x8000)
  }

  /** Among the texts that parse, exactly the special names and the plain decimals of at most 2^15 groups stay. */
  lemma StaysExactly(text: string)
    requires FromText(text).Success?
    ensures FromText(text).value.Value? ==> InBase(FromText(text).value.digits)
    ensures Display(FromText(text).value) == text <==> Stays(text, FromText(text).value)
  {
    var v := FromText(text).value;
    ParsedPresentable(text);
    TextRoundTrip(text);
    SpecialsStay();
    if negative, whole, fraction :| Plain(text, negative, whole, fraction) {
      PlainStays(text, negative, whole, fraction);
    }
    if Display(v) == text && v.Value? {
      DisplayPlain(v);
    }
  }
}
