/**
 Printing NUMERIC values: the decimal expansion from the leading digit down to
 the display scale. The printer counts groups in 16 bits, so it cannot see past
 the first 32768 groups of a value.
 */
module NumericPrinter {
  import opened Integers
  import opened Text
  import opened Numeric

  // ---------- the decimal expansion ----------

  function DigitOfGroup(n: nat, p: nat): (d: nat)
    requires n < 10000 && p < 4
    ensures d < 10
  {
    if p == 0 then n % 10 else if p == 1 then n / 10 % 10 else if p == 2 then n / 100 % 10 else n / 1000
  }

  /** The digit at 10^e of a value. */
  function ExpansionAt(weight: int, groups: seq<i16>, e: int): (d: nat)
    requires InBase(groups)
    ensures d < 10
  {
    DigitOfGroup(GroupAt(weight, groups, e / 4), e % 4)
  }

  /** `count` digits of the expansion, from 10^hi downwards. */
  function Expansion(weight: int, groups: seq<i16>, hi: int, count: nat): string
    requires InBase(groups)
  {
    if count == 0 then ""
    else
      Expansion(weight, groups, hi, count - 1) + [DigitChar(ExpansionAt(weight, groups, hi - count + 1))]
  }

  lemma {:induction false} ExpansionDigits(weight: int, groups: seq<i16>, hi: int, count: nat)
    requires InBase(groups)
    ensures var s := Expansion(weight, groups, hi, count);
            && |s| == count && AllDigits(s)
            && forall i | 0 <= i < count :: DigitValue(s[i]) == ExpansionAt(weight, groups, hi - i)
    decreases count
  {
    if count > 0 {
      ExpansionDigits(weight, groups, hi, count - 1);
    }
  }

  /** How many decimal digits a group shows without leading zeros. */
  function Width(n: nat): (w: nat)
    requires n < 10000
    ensures 1 <= w <= 4
  {
    if n >= 1000 then 4 else if n >= 100 then 3 else if n >= 10 then 2 else 1
  }

  /** The exponent of the first digit printed. */
  function TopExponent(weight: int, groups: seq<i16>): (e: int)
    requires InBase(groups)
    ensures e >= 0
  {
    if groups == [] || weight < 0 then 0 else 4 * weight + Width(groups[0]) - 1
  }

  function PrintedUnsigned(weight: int, scale: nat, groups: seq<i16>): string
    requires InBase(groups)
  {
    var top := TopExponent(weight, groups);
    Expansion(weight, groups, top, top + 1) + if scale > 0 then "." + Expansion(weight, groups, -1, scale) else ""
  }

  const MAX_VISIBLE_GROUPS := 0x8000

  /** The groups that a 16-bit counter can reach. */
  function Visible(groups: seq<i16>): (g: seq<i16>)
    ensures |groups| <= MAX_VISIBLE_GROUPS ==> g == groups
  {
    if |groups| <= MAX_VISIBLE_GROUPS then groups else groups[..MAX_VISIBLE_GROUPS]
  }

  /** The text of a value. */
  function Display(v: PgNumeric): string
    requires v.Value? ==> InBase(v.digits)
  {
    match v
    case NaN => "NaN"
    case PositiveInfinity => "Infinity"
    case NegativeInfinity => "-Infinity"
    case Value(sign, weight, scale, digits) =>
      (if digits != [] && sign == Negative then "-" else "") + PrintedUnsigned(weight, scale, Visible(digits))
  }

  // ---------- the text of groups ----------

  /** The standard library's `{:04}` of a 16-bit number. */
  type Formatter = i16 -> string

  /** The four digits of a group. */
  function FourDigitText(n: nat): (s: string)
    requires n < 10000
    ensures |s| == 4
  {
    [DigitChar(DigitOfGroup(n, 3)), DigitChar(DigitOfGroup(n, 2)),
     DigitChar(DigitOfGroup(n, 1)), DigitChar(DigitOfGroup(n, 0))]
  }

  /** Numbers below 10000 are padded to four digits; the text of any other 16-bit number is left open. */
  ghost predicate PadsToFour(format: Formatter) {
    forall n: i16 | 0 <= n < 10000 :: format(n) == FourDigitText(n)
  }

  /** As many of the first `n` characters as there are. */
  function Head(s: string, n: nat): string {
    if n <= |s| then s[..n] else s
  }

  function TrimZeros(s: string): string {
    if s != [] && s[0] == '0' then TrimZeros(s[1..]) else s
  }

  /** The text of the first group without leading zeros, but never nothing. */
  function FirstText(s: string): string {
    if TrimZeros(s) == [] then "0" else TrimZeros(s)
  }

  function GroupNo(groups: seq<i16>, i: int): i16 {
    if 0 <= i < |groups| then groups[i] else 0
  }

  /** The first `count` groups, the first of them without leading zeros. */
  function WholeText(format: Formatter, groups: seq<i16>, count: nat): string {
    if count == 0 then ""
    else if count == 1 then FirstText(format(GroupNo(groups, 0)))
    else WholeText(format, groups, count - 1) + format(GroupNo(groups, count - 1))
  }

  /** Four characters for each of `k` groups from `first` on. */
  function GroupsText(format: Formatter, groups: seq<i16>, first: int, k: nat): string {
    if k == 0 then ""
    else GroupsText(format, groups, first, k - 1) + Head(format(GroupNo(groups, first + k - 1)), 4)
  }

  /** The groups before the one at which a fraction of `count` digits ends. */
  function FullGroups(count: nat): (k: nat)
    requires count > 0
    ensures 4 * k < count <= 4 * k + 4
  {
    if count <= 4 then 0 else 1 + FullGroups(count - 4)
  }

  /** `count` characters of the groups from `first` on. */
  function FractionText(format: Formatter, groups: seq<i16>, first: int, count: nat): string {
    if count == 0 then ""
    else
      var k := FullGroups(count);
      GroupsText(format, groups, first, k) + Head(format(GroupNo(groups, first + k)), count - 4 * k)
  }

  function WholePart(format: Formatter, weight: int, groups: seq<i16>): string {
    if groups == [] || weight < 0 then "0" else WholeText(format, groups, weight + 1)
  }

  function FractionPart(format: Formatter, weight: int, scale: nat, groups: seq<i16>): string {
    if scale == 0 then ""
    else if groups == [] then "." + seq(scale, i => '0')
    else "." + FractionText(format, groups, weight + 1, scale)
  }

  /** What is printed for any value, whatever its groups. */
  function Shown(format: Formatter, v: PgNumeric): string {
    match v
    case NaN => "NaN"
    case PositiveInfinity => "Infinity"
    case NegativeInfinity => "-Infinity"
    case Value(sign, weight, scale, digits) =>
      (if digits != [] && sign == Negative then "-" else "") +
      WholePart(format, weight, Visible(digits)) + FractionPart(format, weight, scale, Visible(digits))
  }

  // ---------- the printing loops ----------

  function WrapI16(n: int): (w: i16)
    requires -0x8000 <= n < 0x1_0000
    ensures w == n || w == n - 0x1_0000
  {
    if n < 0x8000 then n else n - 0x1_0000
  }

  /** What the counter `d` reads is a group that can be reached. */
  lemma CounterReads(groups: seq<i16>, unwrapped: int)
    requires -0x8000 <= unwrapped < 0x1_0000
    ensures GroupNo(Visible(groups), unwrapped) == GroupNo(groups, WrapI16(unwrapped))
  {
  }

  method FormatWhole(format: Formatter, weight: i16, digits: seq<i16>) returns (out: string)
    requires weight >= 0
    ensures out == WholeText(format, Visible(digits), weight + 1)
  {
    out := "";
    for d := 0 to weight as int + 1
      invariant out == WholeText(format, Visible(digits), d)
    {
      var digit := if d < |digits| then digits[d] else 0;
      CounterReads(digits, d);
      out := if d == 0 then FirstText(format(digit)) else out + format(digit);
    }
  }

  /** The counter of the fraction loop leaves its 16 bits. */
  predicate CounterOverflows(v: PgNumeric) {
    v.Value? && v.digits != [] && v.scale > 0 && v.weight + 1 + (v.scale + 3) / 4 > 0x7FFF
  }

  /** `overflowed` tells whether a build that checks arithmetic would have stopped. */
  method FormatFraction(format: Formatter, weight: i16, scale: u16, digits: seq<i16>)
    returns (out: string, overflowed: bool)
    requires scale > 0
    ensures out == FractionText(format, Visible(digits), weight + 1, scale)
    ensures overflowed <==> weight + 1 + (scale + 3) / 4 > 0x7FFF
  {
    ghost var last := FullGroups(scale);
    assert (scale + 3) / 4 == last + 1;
    out := "";
    var remaining: int := scale;
    var d := WrapI16(weight + 1);
    overflowed := weight == 0x7FFF;
    ghost var done := 0;
    while remaining > 0
      invariant 0 <= done <= last + 1 && remaining == if done <= last then scale - 4 * done else 0
      invariant d == WrapI16(weight + 1 + done)
      invariant overflowed <==> weight + 1 + done > 0x7FFF
      invariant done <= last ==> out == GroupsText(format, Visible(digits), weight + 1, done)
      invariant done > last ==> out == FractionText(format, Visible(digits), weight + 1, scale)
    {
      var digit := if d >= 0 && d < |digits| then digits[d] else 0;
      CounterReads(digits, weight + 1 + done);
      var count := if remaining < 4 then remaining else 4;
      out := out + Head(format(digit), count);
      remaining := remaining - count;
      overflowed := overflowed || d == 0x7FFF;
      d := WrapI16(d + 1);
      done := done + 1;
    }
  }

  /** Printing a value, whatever its groups, and whether the counter overflows while doing so. */
  method Format(format: Formatter, v: PgNumeric) returns (out: string, overflowed: bool)
    ensures out == Shown(format, v)
    ensures overflowed <==> CounterOverflows(v)
  {
    match v {
      case NaN => return "NaN", false;
      case PositiveInfinity => return "Infinity", false;
      case NegativeInfinity => return "-Infinity", false;
      case Value(sign, weight, scale, digits) =>
        if digits == [] {
          out := FormatZero(scale);
          return "" + out, false;
        }
        out := if sign == Negative then "-" else "";
        if weight < 0 {
          out := out + "0";
        } else {
          var whole := FormatWhole(format, weight, digits);
          out := out + whole;
        }
        if scale == 0 {
          return out + "", false;
        }
        var fraction, wrapped := FormatFraction(format, weight, scale, digits);
        return out + ("." + fraction), wrapped;
    }
  }

  method FormatZero(scale: u16) returns (out: string)
    ensures out == "0" + if scale == 0 then "" else "." + seq(scale, i => '0')
  {
    if scale == 0 {
      return "0" + "";
    }
    var zeros := "";
    for i := 0 to scale
      invariant zeros == seq(i, k => '0')
    {
      zeros := zeros + "0";
    }
    return "0" + ("." + zeros);
  }

  // ---------- the groups of a number ----------

  lemma ExpansionOfGroup(weight: int, groups: seq<i16>, g: int)
    requires InBase(groups)
    ensures var n := GroupAt(weight, groups, g);
            && ExpansionAt(weight, groups, 4 * g) == DigitOfGroup(n, 0)
            && ExpansionAt(weight, groups, 4 * g + 1) == DigitOfGroup(n, 1)
            && ExpansionAt(weight, groups, 4 * g + 2) == DigitOfGroup(n, 2)
            && ExpansionAt(weight, groups, 4 * g + 3) == DigitOfGroup(n, 3)
  {
  }

  /** Trimming leaves the digits that the width of the group counts. */
  lemma FirstTextSuffix(n: nat)
    requires n < 10000
    ensures FirstText(FourDigitText(n)) == FourDigitText(n)[4 - Width(n)..]
  {
    var s, w := FourDigitText(n), Width(n);
    assert forall i | 0 <= i < 4 - w :: s[i] == '0';
    assert n > 0 ==> s[4 - w] != '0';
    TrimFirst(s, 4 - w);
    if n == 0 {
      assert s[3..] == "0";
    }
  }

  /** Trimming takes off the leading zeros one by one. */
  lemma {:induction false} TrimFirst(s: string, k: nat)
    requires k < |s| && forall i | 0 <= i < k :: s[i] == '0'
    ensures TrimZeros(s) == TrimZeros(s[k..])
    ensures s[k] != '0' ==> TrimZeros(s) == s[k..]
  {
    if k > 0 {
      TrimFirst(s[1..], k - 1);
      assert s[1..][k - 1..] == s[k..];
    } else {
      assert s[k..] == s;
    }
  }

  lemma DigitText(weight: int, groups: seq<i16>, g: int, i: nat, e: int)
    requires InBase(groups) && i < 4 && e == 4 * g + 3 - i
    ensures FourDigitText(GroupAt(weight, groups, g))[i] == DigitChar(ExpansionAt(weight, groups, e))
  {
    ExpansionOfGroup(weight, groups, g);
  }

  lemma {:induction false} ExpansionAppend(weight: int, groups: seq<i16>, hi: int, count: nat, g: int, n: nat)
    requires InBase(groups) && hi - count == 4 * g + 3 && n <= 4
    ensures Expansion(weight, groups, hi, count) + FourDigitText(GroupAt(weight, groups, g))[..n] ==
            Expansion(weight, groups, hi, count + n)
    decreases n
  {
    var text := FourDigitText(GroupAt(weight, groups, g));
    if n == 0 {
      assert text[..0] == "";
    } else {
      ExpansionAppend(weight, groups, hi, count, g, n - 1);
      DigitText(weight, groups, g, n - 1, hi - (count + n) + 1);
      assert text[..n] == text[..n - 1] + [text[n - 1]];
      Associative(Expansion(weight, groups, hi, count), text[..n - 1], [text[n - 1]]);
    }
  }

  lemma LastDigitsExpand(weight: int, groups: seq<i16>, n: nat, w: nat)
    requires InBase(groups) && n == GroupAt(weight, groups, weight) && 1 <= w <= 4
    ensures FourDigitText(n)[4 - w..] == Expansion(weight, groups, 4 * weight + w - 1, w)
  {
    ExpansionOfGroup(weight, groups, weight);
    ExpansionDigits(weight, groups, 4 * weight + w - 1, w);
  }

  lemma FirstTextExpands(weight: int, groups: seq<i16>)
    requires InBase(groups) && groups != []
    ensures FirstText(FourDigitText(groups[0])) ==
            Expansion(weight, groups, 4 * weight + Width(groups[0]) - 1, Width(groups[0]))
  {
    var n: nat, w := groups[0], Width(groups[0]);
    assert GroupAt(weight, groups, weight) == n;
    LastDigitsExpand(weight, groups, n, w);
    FirstTextSuffix(n);
  }

  /** Printing the group with index `i` continues the expansion. */
  lemma ExpansionText(
    format: Formatter, weight: int, groups: seq<i16>, hi: int, count: nat, i: int, n: nat, total: nat)
    requires PadsToFour(format) && InBase(groups) && hi - count == 4 * (weight - i) + 3 && n <= 4
    requires total == count + n
    ensures Expansion(weight, groups, hi, count) + Head(format(GroupNo(groups, i)), n) ==
            Expansion(weight, groups, hi, total)
  {
    assert GroupNo(groups, i) == GroupAt(weight, groups, weight - i);
    ExpansionAppend(weight, groups, hi, count, weight - i, n);
  }

  lemma FullText(format: Formatter, groups: seq<i16>, i: int)
    requires PadsToFour(format) && InBase(groups)
    ensures Head(format(GroupNo(groups, i)), 4) == format(GroupNo(groups, i))
  {
    var s := format(GroupNo(groups, i));
    assert |s| == 4 && s[..4] == s;
  }

  lemma {:induction false} WholeExpands(
    format: Formatter, weight: int, groups: seq<i16>, count: nat, hi: int, n: nat)
    requires PadsToFour(format) && InBase(groups) && groups != [] && 0 < count
    requires hi == 4 * weight + Width(groups[0]) - 1 && n == 4 * (count - 1) + Width(groups[0])
    ensures WholeText(format, groups, count) == Expansion(weight, groups, hi, n)
    decreases count
  {
    if count == 1 {
      FirstTextExpands(weight, groups);
    } else {
      WholeExpands(format, weight, groups, count - 1, hi, n - 4);
      ExpansionText(format, weight, groups, hi, n - 4, count - 1, 4, n);
      FullText(format, groups, count - 1);
    }
  }

  lemma {:induction false} GroupsExpand(format: Formatter, weight: int, groups: seq<i16>, k: nat, n: nat)
    requires PadsToFour(format) && InBase(groups) && n == 4 * k
    ensures GroupsText(format, groups, weight + 1, k) == Expansion(weight, groups, -1, n)
    decreases k
  {
    if k == 0 {
      assert Expansion(weight, groups, -1, 0) == "";
    } else {
      GroupsExpand(format, weight, groups, k - 1, n - 4);
      var i := weight + 1 + k - 1;
      ExpansionText(format, weight, groups, -1, n - 4, i, 4, n);
      assert GroupsText(format, groups, weight + 1, k) ==
             GroupsText(format, groups, weight + 1, k - 1) + Head(format(GroupNo(groups, i)), 4);
    }
  }

  lemma PartialExpands(format: Formatter, weight: int, groups: seq<i16>, k: nat, count: nat)
    requires PadsToFour(format) && InBase(groups) && 4 * k < count <= 4 * k + 4
    ensures GroupsText(format, groups, weight + 1, k) + Head(format(GroupNo(groups, weight + 1 + k)), count - 4 * k) ==
            Expansion(weight, groups, -1, count)
  {
    var before := 4 * k;
    GroupsExpand(format, weight, groups, k, before);
    ExpansionText(format, weight, groups, -1, before, weight + 1 + k, count - before, count);
  }

  lemma ZeroWhole(weight: int, groups: seq<i16>)
    requires InBase(groups) && (weight < 0 || groups == [])
    ensures TopExponent(weight, groups) == 0 && Expansion(weight, groups, 0, 1) == "0"
  {
    assert GroupAt(weight, groups, 0) == 0;
  }

  lemma ZeroFraction(weight: int, count: nat)
    ensures Expansion(weight, [], -1, count) == seq(count, i => '0')
  {
    ExpansionDigits(weight, [], -1, count);
    var s := Expansion(weight, [], -1, count);
    forall i | 0 <= i < count ensures s[i] == '0' {
      assert DigitValue(s[i]) == ExpansionAt(weight, [], -1 - i);
    }
  }

  lemma WholePartExpands(format: Formatter, weight: int, groups: seq<i16>, top: nat)
    requires PadsToFour(format) && InBase(groups) && top == TopExponent(weight, groups)
    ensures WholePart(format, weight, groups) == Expansion(weight, groups, top, top + 1)
  {
    if groups == [] || weight < 0 {
      ZeroWhole(weight, groups);
    } else {
      WholeExpands(format, weight, groups, weight + 1, top, top + 1);
    }
  }

  lemma FractionPartExpands(format: Formatter, weight: int, scale: nat, groups: seq<i16>)
    requires PadsToFour(format) && InBase(groups)
    ensures FractionPart(format, weight, scale, groups) ==
            if scale > 0 then "." + Expansion(weight, groups, -1, scale) else ""
  {
    if scale > 0 && groups == [] {
      ZeroFraction(weight, scale);
    } else if scale > 0 {
      PartialExpands(format, weight, groups, FullGroups(scale), scale);
    }
  }

  /** A value with proper groups is shown as its decimal expansion, as far as the counter reaches. */
  lemma ShownExpands(format: Formatter, v: PgNumeric)
    requires PadsToFour(format) && (v.Value? ==> InBase(v.digits))
    ensures Shown(format, v) == Display(v)
  {
    if v.Value? {
      var groups := Visible(v.digits);
      FractionPartExpands(format, v.weight, v.scale, groups);
      WholePartExpands(format, v.weight, groups, TopExponent(v.weight, groups));
      Associative(
        if v.digits != [] && v.sign == Negative then "-" else "", WholePart(format, v.weight, groups),
        FractionPart(format, v.weight, v.scale, groups));
    }
  }
}
