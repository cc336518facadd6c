/**
 Printing against parsing NUMERIC text: exactly when reading back what was
 printed gives the same value.
 */
module NumericRoundTrip {
  import opened Integers
  import opened Text
  import opened Numeric
  import opened NumericParser
  import opened NumericPrinter
  import opened NumericText

  // ---------- reading back what was printed ----------

  /** A run of the digits of a text, without underscores. */
  function PlainRun(s: string): (r: Run)
    requires AllDigits(s)
    ensures |r| == |s| && WellFormedRun(r)
  {
    seq(|s|, i requires 0 <= i < |s| => RunDigit(DigitValue(s[i]), false))
  }

  lemma {:induction false} RenderPlain(s: string)
    requires AllDigits(s)
    ensures RenderRun(PlainRun(s)) == s
  {
    if s != [] {
      RenderPlain(s[1..]);
      assert PlainRun(s)[1..] == PlainRun(s[1..]);
    }
  }

  function PrintedNumeral(weight: int, scale: nat, groups: seq<i16>): (n: Numeral)
    requires InBase(groups)
    ensures WellFormed(n) && n.suffix == NoExponent
    ensures |n.whole| == TopExponent(weight, groups) + 1 && |n.fraction| == scale
  {
    var top := TopExponent(weight, groups);
    ExpansionDigits(weight, groups, top, top + 1);
    ExpansionDigits(weight, groups, -1, scale);
    Numeral(
      PlainRun(Expansion(weight, groups, top, top + 1)), scale > 0,
      PlainRun(Expansion(weight, groups, -1, scale)), NoExponent)
  }

  lemma PrintedIsNumeral(weight: int, scale: nat, groups: seq<i16>)
    requires InBase(groups)
    ensures PrintedUnsigned(weight, scale, groups) == Render(PrintedNumeral(weight, scale, groups))
  {
    var top := TopExponent(weight, groups);
    var whole, fraction := Expansion(weight, groups, top, top + 1), Expansion(weight, groups, -1, scale);
    ExpansionDigits(weight, groups, top, top + 1);
    ExpansionDigits(weight, groups, -1, scale);
    RenderPlain(whole);
    RenderPlain(fraction);
    var n := PrintedNumeral(weight, scale, groups);
    assert Render(n) == whole + (if scale > 0 then "." else "") + fraction + "";
    if scale > 0 {
      assert whole + ("." + fraction) == whole + "." + fraction + "";
    } else {
      assert fraction == "";
    }
  }

  /** Decimal digits that are the expansion of a value from its first printed digit down to its scale. */
  ghost predicate Shows(ds: Digits, weight: int, scale: nat, groups: seq<i16>)
    requires InBase(groups)
  {
    var top := TopExponent(weight, groups);
    |ds| == top + 1 + scale && forall i | 0 <= i < |ds| :: ds[i] == ExpansionAt(weight, groups, top - i)
  }

  lemma PrintedShows(weight: int, scale: nat, groups: seq<i16>)
    requires InBase(groups)
    ensures Shows(MantissaDigits(PrintedNumeral(weight, scale, groups)), weight, scale, groups)
  {
    var top := TopExponent(weight, groups);
    var whole, fraction := Expansion(weight, groups, top, top + 1), Expansion(weight, groups, -1, scale);
    ExpansionDigits(weight, groups, top, top + 1);
    ExpansionDigits(weight, groups, -1, scale);
    var ds := RunDigits(PlainRun(whole)) + RunDigits(PlainRun(fraction));
    assert MantissaDigits(PrintedNumeral(weight, scale, groups)) == ds;
    forall i | 0 <= i < |ds| ensures ds[i] == ExpansionAt(weight, groups, top - i) {
      if i <= top {
        assert ds[i] == DigitValue(whole[i]);
      } else {
        assert ds[i] == DigitValue(fraction[i - top - 1]);
      }
    }
  }

  /** Every non-zero digit of a value stands at or above its scale. */
  ghost predicate EndsAtScale(weight: int, scale: nat, groups: seq<i16>)
    requires InBase(groups)
  {
    forall e | e + scale < 0 :: ExpansionAt(weight, groups, e) == 0
  }

  /** No digit stands above the first one printed. */
  lemma NothingAbove(weight: int, groups: seq<i16>, e: int)
    requires InBase(groups) && e > TopExponent(weight, groups)
    ensures ExpansionAt(weight, groups, e) == 0
  {
    ExpansionOfGroup(weight, groups, e / 4);
  }

  lemma ShownDigit(ds: Digits, weight: int, scale: nat, groups: seq<i16>, e: int)
    requires InBase(groups) && Shows(ds, weight, scale, groups) && EndsAtScale(weight, scale, groups)
    ensures DecimalAt(ds, TopExponent(weight, groups), e) == ExpansionAt(weight, groups, e)
  {
    if e > TopExponent(weight, groups) {
      NothingAbove(weight, groups, e);
    }
  }

  lemma ShownGroup(ds: Digits, weight: int, scale: nat, groups: seq<i16>, g: int)
    requires InBase(groups) && Shows(ds, weight, scale, groups) && EndsAtScale(weight, scale, groups)
    ensures GroupOf(ds, TopExponent(weight, groups), g) == GroupAt(weight, groups, g)
  {
    ExpansionOfGroup(weight, groups, g);
    ShownDigit(ds, weight, scale, groups, 4 * g);
    ShownDigit(ds, weight, scale, groups, 4 * g + 1);
    ShownDigit(ds, weight, scale, groups, 4 * g + 2);
    ShownDigit(ds, weight, scale, groups, 4 * g + 3);
    JoinGroup(GroupAt(weight, groups, g));
  }

  lemma JoinGroup(n: nat)
    requires n < 10000
    ensures DigitOfGroup(n, 3) * 1000 + DigitOfGroup(n, 2) * 100 + DigitOfGroup(n, 1) * 10 + DigitOfGroup(n, 0) == n
  {
    assert n / 100 == n / 1000 * 10 + n / 100 % 10;
    assert n / 10 == n / 100 * 10 + n / 10 % 10;
  }

  /** The printed digits are within the weights that a value can have. */
  lemma ShownFits(ds: Digits, weight: i16, scale: nat, groups: seq<i16>)
    requires InBase(groups) && Shows(ds, weight, scale, groups) && EndsAtScale(weight, scale, groups)
    requires scale <= POSTGRES_NUMERIC_MAX_SCALE
    ensures FitsWeight(ds, TopExponent(weight, groups))
  {
    if !AllZero(ds) {
      var e := TopExponent(weight, groups) - FirstNonZero(ds);
      ShownDigit(ds, weight, scale, groups, e);
      NonZeroGroup(weight, groups, e);
    }
  }

  lemma NonZeroGroup(weight: int, groups: seq<i16>, e: int)
    requires InBase(groups) && ExpansionAt(weight, groups, e) != 0
    ensures e / 4 <= weight
  {
  }

  /** Reading a printed expansion gives the canonical value with the same groups. */
  lemma Reread(weight: i16, scale: u16, groups: seq<i16>, sign: Sign)
    requires InBase(groups) && scale <= POSTGRES_NUMERIC_MAX_SCALE && EndsAtScale(weight, scale, groups)
    ensures ParseValue(PrintedUnsigned(weight, scale, groups), sign).Success?
    ensures var v := ParseValue(PrintedUnsigned(weight, scale, groups), sign).value;
            && v.Value? && Canonical(v) && v.scale == scale && (v.digits != [] ==> v.sign == sign)
            && forall g :: GroupAt(v.weight, v.digits, g) == GroupAt(weight, groups, g)
  {
    var n, top := PrintedNumeral(weight, scale, groups), TopExponent(weight, groups);
    var ds := MantissaDigits(n);
    PrintedIsNumeral(weight, scale, groups);
    ParseRender(n, sign);
    PrintedShows(weight, scale, groups);
    ShownFits(ds, weight, scale, groups);
    assert Evaluate(n, sign) == Success(Encode(ds, top, scale, sign));
    EncodeGroups(ds, top, scale, sign);
    forall g ensures GroupOf(ds, top, g) == GroupAt(weight, groups, g) {
      ShownGroup(ds, weight, scale, groups, g);
    }
  }

  // ---------- whole values ----------

  lemma PrintedEnds(weight: int, scale: nat, groups: seq<i16>)
    requires InBase(groups)
    ensures var s := PrintedUnsigned(weight, scale, groups);
            s != [] && IsDigit(s[0]) && IsDigit(s[|s| - 1])
  {
    var top := TopExponent(weight, groups);
    ExpansionDigits(weight, groups, top, top + 1);
    ExpansionDigits(weight, groups, -1, scale);
  }

  /** Reading a signed text that starts and ends with a digit reads the digits under the sign. */
  lemma SignedText(s: string, negative: bool)
    requires s != [] && IsDigit(s[0]) && IsDigit(s[|s| - 1])
    ensures FromText((if negative then "-" else "") + s) == ParseValue(s, if negative then Negative else Positive)
  {
    var t := (if negative then "-" else "") + s;
    assert t[|t| - 1] == s[|s| - 1];
    TrimFixed(t);
    if negative {
      assert t[1..] == s;
    } else {
      assert t == s;
    }
  }

  lemma VisibleGroups(weight: int, groups: seq<i16>, g: int)
    ensures GroupAt(weight, Visible(groups), g) ==
            if weight - g < MAX_VISIBLE_GROUPS then GroupAt(weight, groups, g) else 0
  {
  }

  lemma VisibleEnds(weight: int, scale: nat, groups: seq<i16>)
    requires InBase(groups) && EndsAtScale(weight, scale, groups)
    ensures InBase(Visible(groups)) && EndsAtScale(weight, scale, Visible(groups))
  {
    forall e | e + scale < 0 ensures ExpansionAt(weight, Visible(groups), e) == 0 {
      VisibleGroups(weight, groups, e / 4);
      assert ExpansionAt(weight, groups, e) == 0;
    }
  }

  /** What is read back: the canonical value with the groups that printing showed. */
  lemma ReadBack(v: PgNumeric) returns (w: PgNumeric)
    requires v.Value? && Presentable(v)
    ensures FromText(Display(v)) == Success(w)
    ensures w.Value? && Canonical(w) && w.scale == v.scale && w.sign == v.sign
    ensures forall g :: GroupAt(w.weight, w.digits, g) == GroupAt(v.weight, Visible(v.digits), g)
  {
    var groups := Visible(v.digits);
    assert EndsAtScale(v.weight, v.scale, v.digits);
    VisibleEnds(v.weight, v.scale, v.digits);
    Reread(v.weight, v.scale, groups, v.sign);
    var s := PrintedUnsigned(v.weight, v.scale, groups);
    PrintedEnds(v.weight, v.scale, groups);
    SignedText(s, v.digits != [] && v.sign == Negative);
    w := ParseValue(s, v.sign).value;
    assert GroupAt(w.weight, w.digits, v.weight) == GroupAt(v.weight, groups, v.weight);
  }

  /** The value read back is the one printed exactly when no group was out of reach. */
  lemma SameWhenVisible(v: PgNumeric, w: PgNumeric)
    requires v.Value? && Canonical(v) && w.Value? && Canonical(w) && w.scale == v.scale && w.sign == v.sign
    requires forall g :: GroupAt(w.weight, w.digits, g) == GroupAt(v.weight, Visible(v.digits), g)
    ensures w == v <==> |v.digits| <= MAX_VISIBLE_GROUPS
  {
    if |v.digits| <= MAX_VISIBLE_GROUPS {
      CanonicalUnique(v, w);
    } else {
      var last := v.weight - |v.digits| + 1;
      VisibleGroups(v.weight, v.digits, last);
      assert GroupAt(v.weight, v.digits, last) != 0 && GroupAt(w.weight, w.digits, last) == 0;
    }
  }

  /** Reading back what was printed gives the value itself exactly when the printer saw all of its groups. */
  lemma PresentableRoundTrip(v: PgNumeric)
    requires Presentable(v)
    ensures FromText(Display(v)) == Success(v) <==> (v.Value? ==> |v.digits| <= MAX_VISIBLE_GROUPS)
  {
    if v.Value? {
      var w := ReadBack(v);
      SameWhenVisible(v, w);
    } else {
      SpecialText(v);
    }
  }

  /** For every value whatever, as any sender may encode it: reading back gives it exactly when it is presentable. */
  lemma RoundTrip(format: Formatter, v: PgNumeric)
    requires PadsToFour(format)
    ensures FromText(Shown(format, v)) == Success(v) <==>
            Presentable(v) && (v.Value? ==> |v.digits| <= MAX_VISIBLE_GROUPS)
  {
    if Presentable(v) {
      ShownExpands(format, v);
      PresentableRoundTrip(v);
    } else if FromText(Shown(format, v)) == Success(v) {
      ParsedPresentable(Shown(format, v));
      assert false;
    }
  }

  lemma SpecialText(v: PgNumeric)
    requires !v.Value?
    ensures FromText(Display(v)) == Success(v)
  {
    TrimFixed(Display(v));
    match v
    case NaN => NaNText();
    case PositiveInfinity => InfinityText(Positive, false);
    case NegativeInfinity =>
      InfinityText(Negative, true);
      assert Display(v)[1..] == "Infinity";
  }

  lemma NaNText()
    ensures ParseUnsignedText("NaN", Positive, false) == Success(NaN)
  {
    TrimEndFixed("NaN");
    assert EqualsIgnoreAsciiCase("NaN", "nan");
  }

  lemma InfinityText(sign: Sign, explicitSign: bool)
    ensures ParseUnsignedText("Infinity", sign, explicitSign) ==
            Success(if sign == Positive then PositiveInfinity else NegativeInfinity)
  {
    var s, t := "Infinity", "infinity";
    TrimEndFixed(s);
    assert !EqualsIgnoreAsciiCase(s, "nan");
    assert LowerAscii('I') == 'i';
    assert s[1..] == t[1..];
    assert EqualsIgnoreAsciiCase(s, t) by {
      forall i | 0 <= i < |s| ensures LowerAscii(s[i]) == LowerAscii(t[i]) {
        assert i > 0 ==> s[i] == s[1..][i - 1] && t[i] == t[1..][i - 1];
      }
    }
  }

  lemma TrimEndFixed(s: string)
    requires s != [] && !IsWhitespace(s[|s| - 1])
    ensures TrimEnd(s) == s
  {
  }

  /** The same for the values that texts stand for. */
  lemma TextRoundTrip(input: string)
    requires FromText(input).Success?
    ensures var v := FromText(input).value;
            && (v.Value? ==> InBase(v.digits))
            && (FromText(Display(v)) == Success(v) <==> (v.Value? ==> |v.digits| <= MAX_VISIBLE_GROUPS))
  {
    ParsedPresentable(input);
    PresentableRoundTrip(FromText(input).value);
  }

  /** Printing what was read back gives the same text, however many groups were lost. */
  lemma PrintingIsStable(v: PgNumeric)
    requires Presentable(v)
    ensures FromText(Display(v)).Success?
    ensures var w := FromText(Display(v)).value;
            (w.Value? ==> InBase(w.digits)) && Display(w) == Display(v)
  {
    if v.Value? {
      var w := ReadBack(v);
      SamePrint(v, w);
    } else {
      SpecialText(v);
    }
  }

  lemma SamePrint(v: PgNumeric, w: PgNumeric)
    requires v.Value? && Canonical(v) && w.Value? && Canonical(w) && w.scale == v.scale && w.sign == v.sign
    requires forall g :: GroupAt(w.weight, w.digits, g) == GroupAt(v.weight, Visible(v.digits), g)
    ensures Display(w) == Display(v)
  {
    var groups := Visible(v.digits);
    SameLead(v, w, groups);
    if w.digits != [] {
      NoMoreGroups(w, groups);
    }
    var top := TopExponent(v.weight, groups);
    SameExpansion(v.weight, groups, w.weight, w.digits, top, top + 1);
    SameExpansion(v.weight, groups, w.weight, w.digits, -1, v.scale);
  }

  lemma SameLead(v: PgNumeric, w: PgNumeric, groups: seq<i16>)
    requires v.Value? && Canonical(v) && w.Value? && Canonical(w) && groups == Visible(v.digits)
    requires forall g :: GroupAt(w.weight, w.digits, g) == GroupAt(v.weight, groups, g)
    ensures w.digits == [] <==> v.digits == []
    ensures w.weight == v.weight && (w.digits != [] ==> w.digits[0] == groups[0])
  {
    assert GroupAt(v.weight, groups, v.weight) == GroupAt(w.weight, w.digits, v.weight);
    assert GroupAt(v.weight, groups, w.weight) == GroupAt(w.weight, w.digits, w.weight);
  }

  lemma NoMoreGroups(w: PgNumeric, groups: seq<i16>)
    requires w.Value? && Canonical(w) && w.digits != []
    requires forall g :: GroupAt(w.weight, w.digits, g) == GroupAt(w.weight, groups, g)
    ensures |w.digits| <= |groups|
  {
    assert GroupAt(w.weight, w.digits, w.weight - |w.digits| + 1) != 0;
  }

  lemma {:induction false} SameExpansion(
    weight: int, groups: seq<i16>, weight': int, groups': seq<i16>, hi: int, count: nat)
    requires InBase(groups) && InBase(groups')
    requires forall g :: GroupAt(weight, groups, g) == GroupAt(weight', groups', g)
    ensures Expansion(weight, groups, hi, count) == Expansion(weight', groups', hi, count)
    decreases count
  {
    if count > 0 {
      SameExpansion(weight, groups, weight', groups', hi, count - 1);
    }
  }

  /** A text whose value has one group more than printing shows, so that printing loses its last digit. */
  lemma LostDigit() returns (input: string)
    ensures FromText(input).Success?
    ensures var v := FromText(input).value;
            && v.Value? && InBase(v.digits) && |v.digits| == MAX_VISIBLE_GROUPS + 1
            && FromText(Display(v)) != Success(v)
  {
    var ones := seq(4 * MAX_VISIBLE_GROUPS, i => '1');
    var n := Numeral(PlainRun(ones), true, PlainRun("1"), NoExponent);
    input := Render(n);
    RenderPlain(ones);
    RenderPlain("1");
    assert input == ones + "." + "1";
    var ds := MantissaDigits(n);
    assert ds[0] == 1 && ds[|ds| - 1] == 1;
    assert FirstNonZero(ds) == 0 && LastNonZero(ds) == |ds| - 1;
    ParseRender(n, Positive);
    SignedText(input, false);
    TextRoundTrip(input);
  }

  // ---------- builds that check arithmetic ----------

  /** Where the counter does not overflow, every group is seen: such a build prints what reads back, or stops. */
  lemma CheckedRoundTrip(v: PgNumeric)
    requires Presentable(v) && !CounterOverflows(v)
    ensures FromText(Display(v)) == Success(v)
  {
    if v.Value? && v.digits != [] {
      GroupsAboveScale(v);
    }
    PresentableRoundTrip(v);
  }

  /** The last group stands no lower than the scale reaches. */
  lemma GroupsAboveScale(v: PgNumeric)
    requires v.Value? && Presentable(v) && v.digits != []
    ensures |v.digits| <= v.weight + 1 + (v.scale + 3) / 4
  {
    var g := v.weight - |v.digits| + 1;
    var n: nat := GroupAt(v.weight, v.digits, g);
    ExpansionOfGroup(v.weight, v.digits, g);
    assert DigitOfGroup(n, 0) != 0 || DigitOfGroup(n, 1) != 0 || DigitOfGroup(n, 2) != 0 || DigitOfGroup(n, 3) != 0;
    assert 4 * g + 3 + v.scale >= 0;
  }

  /** The same for the values that texts stand for. */
  lemma CheckedTextRoundTrip(input: string)
    requires FromText(input).Success? && !CounterOverflows(FromText(input).value)
    ensures var v := FromText(input).value;
            (v.Value? ==> InBase(v.digits)) && FromText(Display(v)) == Success(v)
  {
    ParsedPresentable(input);
    CheckedRoundTrip(FromText(input).value);
  }

  /** A text on which the counter overflows although nothing is lost: one group, far above the point. */
  lemma HarmlessOverflow() returns (input: string)
    ensures FromText(input).Success?
    ensures var v := FromText(input).value;
            && v.Value? && InBase(v.digits) && v.weight == 0x7FFF && v.scale == 1 && |v.digits| == 1
            && CounterOverflows(v) && FromText(Display(v)) == Success(v)
  {
    var zeros := seq(4 * 0x7FFF, i => '0');
    var n := Numeral(PlainRun("1" + zeros), true, PlainRun("0"), NoExponent);
    input := Render(n);
    RenderPlain("1" + zeros);
    RenderPlain("0");
    assert input == ("1" + zeros) + ("." + "0") + "";
    OneFarAbove(n, zeros);
    ParseRender(n, Positive);
    SignedText(input, false);
    TextRoundTrip(input);
  }

  lemma OneFarAbove(n: Numeral, zeros: string)
    requires |zeros| == 4 * 0x7FFF && forall i | 0 <= i < |zeros| :: zeros[i] == '0'
    requires n == Numeral(PlainRun("1" + zeros), true, PlainRun("0"), NoExponent)
    ensures Evaluate(n, Positive).Success?
    ensures var v := Evaluate(n, Positive).value;
            v.Value? && v.weight == 0x7FFF && v.scale == 1 && |v.digits| == 1
  {
    var ds := MantissaDigits(n);
    assert |ds| == 4 * 0x7FFF + 2 && ds[0] == 1;
    forall i | 0 < i < |ds| ensures ds[i] == 0 {
      assert i <= |zeros| ==> ("1" + zeros)[i] == zeros[i - 1];
    }
    assert FirstNonZero(ds) == 0 && LastNonZero(ds) == 0;
  }
}
