/**
 PostgreSQL NUMERIC values: decimal digits against base-10000 groups. A decimal
 is a digit sequence whose first digit stands at 10^dweight; a value is a group
 sequence whose first group stands at 10000^weight.
 */
module Numeric {
  import opened Integers
  import opened Text

  datatype Sign = Positive | Negative

  datatype PgNumeric =
    | NaN
    | PositiveInfinity
    | NegativeInfinity
    | Value(sign: Sign, weight: i16, scale: u16, digits: seq<i16>)

  datatype ParseNumericError = InvalidSyntax | ValueOutOfRange

  const POSTGRES_NUMERIC_MAX_SCALE := 16_383
  const POSTGRES_NUMERIC_MIN_WEIGHT := -0x8000
  const POSTGRES_NUMERIC_MAX_WEIGHT := 0x7FFF

  // ---------- decimal digits ----------

  type Digits = s: seq<nat> | forall i | 0 <= i < |s| :: s[i] < 10

  function DigitAt(ds: Digits, i: int): (d: nat)
    ensures d < 10
  {
    if 0 <= i < |ds| then ds[i] else 0
  }

  /** The number written by the digits at indices `lo` up to `hi`; zeros extend both ends. */
  function NatRange(ds: Digits, lo: int, hi: int): nat
    decreases hi - lo
  {
    if hi <= lo then 0 else NatRange(ds, lo, hi - 1) * 10 + DigitAt(ds, hi - 1)
  }

  /** The digit at 10^e of a decimal. */
  function DecimalAt(ds: Digits, dweight: int, e: int): (d: nat)
    ensures d < 10
  {
    DigitAt(ds, dweight - e)
  }

  /** The base-10000 group at 10000^g of a decimal. */
  function GroupOf(ds: Digits, dweight: int, g: int): (n: nat)
    ensures n < 10000
  {
    DecimalAt(ds, dweight, 4 * g + 3) * 1000 + DecimalAt(ds, dweight, 4 * g + 2) * 100 +
    DecimalAt(ds, dweight, 4 * g + 1) * 10 + DecimalAt(ds, dweight, 4 * g)
  }

  lemma FourDigits(ds: Digits, i: int)
    ensures NatRange(ds, i, i + 4) ==
            DigitAt(ds, i) * 1000 + DigitAt(ds, i + 1) * 100 + DigitAt(ds, i + 2) * 10 + DigitAt(ds, i + 3)
  {
    assert NatRange(ds, i, i + 1) == DigitAt(ds, i);
    assert NatRange(ds, i, i + 2) == NatRange(ds, i, i + 1) * 10 + DigitAt(ds, i + 1);
    assert NatRange(ds, i, i + 3) == NatRange(ds, i, i + 2) * 10 + DigitAt(ds, i + 2);
  }

  predicate AllZero(ds: Digits) {
    forall i | 0 <= i < |ds| :: ds[i] == 0
  }

  function FirstNonZero(ds: Digits): (i: nat)
    requires !AllZero(ds)
    ensures i < |ds| && ds[i] != 0 && forall j | 0 <= j < i :: ds[j] == 0
  {
    if ds[0] != 0 then 0 else
      assert ds == [ds[0]] + ds[1..];
      1 + FirstNonZero(ds[1..])
  }

  function LastNonZero(ds: Digits): (i: nat)
    requires !AllZero(ds)
    ensures i < |ds| && ds[i] != 0 && forall j | i < j < |ds| :: ds[j] == 0
  {
    if ds[|ds| - 1] != 0 then |ds| - 1 else
      assert ds == ds[..|ds| - 1] + [ds[|ds| - 1]];
      LastNonZero(ds[..|ds| - 1])
  }

  // ---------- base-10000 groups ----------

  /** The group at 10000^g of a value. */
  function GroupAt(weight: int, groups: seq<i16>, g: int): i16 {
    if 0 <= weight - g < |groups| then groups[weight - g] else 0
  }

  predicate InBase(groups: seq<i16>) {
    forall i | 0 <= i < |groups| :: 0 <= groups[i] < 10000
  }

  /** No zero group at either end, and the one zero is positive with weight 0. */
  predicate Canonical(v: PgNumeric) {
    v.Value? ==>
      && InBase(v.digits)
      && (v.digits == [] ==> v.sign == Positive && v.weight == 0)
      && (v.digits != [] ==> v.digits[0] != 0 && v.digits[|v.digits| - 1] != 0)
  }

  /** Canonical values with the same groups are the same value. */
  lemma CanonicalUnique(v: PgNumeric, w: PgNumeric)
    requires v.Value? && w.Value? && Canonical(v) && Canonical(w)
    requires v.sign == w.sign && v.scale == w.scale
    requires forall g :: GroupAt(v.weight, v.digits, g) == GroupAt(w.weight, w.digits, g)
    ensures v == w
  {
    SameTop(v, w);
    SameTop(w, v);
    if v.digits != [] && w.digits != [] {
      SameBottom(v, w);
      SameBottom(w, v);
      forall i | 0 <= i < |v.digits| ensures v.digits[i] == w.digits[i] {
        assert GroupAt(v.weight, v.digits, v.weight - i) == GroupAt(w.weight, w.digits, v.weight - i);
      }
    }
  }

  lemma SameTop(v: PgNumeric, w: PgNumeric)
    requires v.Value? && w.Value? && Canonical(v) && Canonical(w)
    requires forall g :: GroupAt(v.weight, v.digits, g) == GroupAt(w.weight, w.digits, g)
    ensures v.digits != [] ==> w.digits != [] && v.weight <= w.weight
  {
    assert v.digits != [] ==> GroupAt(v.weight, v.digits, v.weight) != 0;
  }

  lemma SameBottom(v: PgNumeric, w: PgNumeric)
    requires v.Value? && w.Value? && Canonical(v) && Canonical(w) && v.weight == w.weight && v.digits != []
    requires forall g :: GroupAt(v.weight, v.digits, g) == GroupAt(w.weight, w.digits, g)
    ensures |v.digits| <= |w.digits|
  {
    assert GroupAt(v.weight, v.digits, v.weight - |v.digits| + 1) != 0;
  }

  // ---------- conversion ----------

  function TopGroup(ds: Digits, dweight: int): int
    requires !AllZero(ds)
  {
    (dweight - FirstNonZero(ds)) / 4
  }

  function BottomGroup(ds: Digits, dweight: int): int
    requires !AllZero(ds)
  {
    (dweight - LastNonZero(ds)) / 4
  }

  predicate FitsWeight(ds: Digits, dweight: int) {
    AllZero(ds) || POSTGRES_NUMERIC_MIN_WEIGHT <= TopGroup(ds, dweight) <= POSTGRES_NUMERIC_MAX_WEIGHT
  }

  /** The value with the groups of a decimal, from its first to its last non-zero group. */
  function Encode(ds: Digits, dweight: int, scale: u16, sign: Sign): (v: PgNumeric)
    requires FitsWeight(ds, dweight)
    ensures v.Value? && v.scale == scale
  {
    if AllZero(ds) then
      Value(Positive, 0, scale, [])
    else
      var top, bottom := TopGroup(ds, dweight), BottomGroup(ds, dweight);
      assert bottom <= top;
      var count := top - bottom + 1;
      Value(sign, top, scale, seq(count, k requires 0 <= k < count => GroupOf(ds, dweight, top - k)))
  }

  /** A group is zero exactly when its four digits are. */
  lemma GroupZero(ds: Digits, dweight: int, g: int)
    ensures GroupOf(ds, dweight, g) == 0 <==>
            forall e | 4 * g <= e < 4 * g + 4 :: DecimalAt(ds, dweight, e) == 0
  {
  }

  /** Encoding keeps every group of the decimal, and is canonical. */
  lemma EncodeGroups(ds: Digits, dweight: int, scale: u16, sign: Sign)
    requires FitsWeight(ds, dweight)
    ensures Canonical(Encode(ds, dweight, scale, sign))
    ensures var v := Encode(ds, dweight, scale, sign);
            forall g :: GroupAt(v.weight, v.digits, g) == GroupOf(ds, dweight, g)
  {
    var v := Encode(ds, dweight, scale, sign);
    forall g ensures GroupAt(v.weight, v.digits, g) == GroupOf(ds, dweight, g) {
      GroupZero(ds, dweight, g);
    }
    if !AllZero(ds) {
      GroupZero(ds, dweight, TopGroup(ds, dweight));
      GroupZero(ds, dweight, BottomGroup(ds, dweight));
      assert DecimalAt(ds, dweight, dweight - FirstNonZero(ds)) != 0;
      assert DecimalAt(ds, dweight, dweight - LastNonZero(ds)) != 0;
    }
  }

  // ---------- the number denoted ----------

  /** The integer that groups write in base 10000. */
  function GroupsValue(groups: seq<i16>): nat
    requires InBase(groups)
  {
    if groups == [] then 0 else GroupsValue(groups[..|groups| - 1]) * 10000 + groups[|groups| - 1]
  }

  /** n * 10^x equals m * 10^y. */
  ghost predicate SameNumber(n: nat, x: int, m: nat, y: int) {
    var low := if x < y then x else y;
    n * Power(10, x - low) == m * Power(10, y - low)
  }

  lemma {:induction false} TrailingZeros(ds: Digits, lo: int, hi: int, k: nat)
    requires lo <= hi && forall i | hi <= i < hi + k :: DigitAt(ds, i) == 0
    ensures NatRange(ds, lo, hi + k) == NatRange(ds, lo, hi) * Power(10, k)
  {
    if k > 0 {
      TrailingZeros(ds, lo, hi, k - 1);
      assert DigitAt(ds, hi + k - 1) == 0;
      TimesTen(NatRange(ds, lo, hi), Power(10, k - 1));
    }
  }

  lemma TimesTen(a: nat, b: nat)
    ensures a * b * 10 == a * (10 * b)
  {
  }

  lemma {:induction false} LeadingZeros(ds: Digits, lo: int, mid: int, hi: int)
    requires lo <= mid <= hi && forall i | lo <= i < mid :: DigitAt(ds, i) == 0
    ensures NatRange(ds, lo, hi) == NatRange(ds, mid, hi)
    decreases hi - lo
  {
    if mid < hi {
      LeadingZeros(ds, lo, mid, hi - 1);
    } else if lo < hi {
      LeadingZeros(ds, lo, mid - 1, hi - 1);
      assert DigitAt(ds, hi - 1) == 0;
    }
  }

  /** Two windows that both hold every non-zero digit write the same number. */
  lemma SameWindow(ds: Digits, lo: int, hi: int, lo': int, hi': int)
    requires lo <= hi && lo' <= hi
    requires lo' <= hi' && lo <= hi'
    requires forall i | i < lo || hi <= i :: DigitAt(ds, i) == 0
    requires forall i | i < lo' || hi' <= i :: DigitAt(ds, i) == 0
    ensures SameNumber(NatRange(ds, lo, hi), -hi, NatRange(ds, lo', hi'), -hi')
  {
    var start, end := if lo < lo' then lo else lo', if hi < hi' then hi' else hi;
    LeadingZeros(ds, start, lo, end);
    LeadingZeros(ds, start, lo', end);
    TrailingZeros(ds, lo, hi, end - hi);
    TrailingZeros(ds, lo', hi', end - hi');
  }

  lemma {:induction false} GroupsWindow(ds: Digits, dweight: int, top: int, groups: seq<i16>)
    requires InBase(groups)
    requires forall k | 0 <= k < |groups| :: groups[k] == GroupOf(ds, dweight, top - k)
    ensures GroupsValue(groups) == NatRange(ds, dweight - 4 * top - 3, dweight - 4 * top - 3 + 4 * |groups|)
  {
    if groups != [] {
      var n := |groups| - 1;
      var i := dweight - 4 * top - 3;
      GroupsWindow(ds, dweight, top, groups[..n]);
      var j := i + 4 * n;
      assert NatRange(ds, i, j + 2) == NatRange(ds, i, j) * 100 + DigitAt(ds, j) * 10 + DigitAt(ds, j + 1);
      assert NatRange(ds, i, j + 4) == NatRange(ds, i, j + 2) * 100 + DigitAt(ds, j + 2) * 10 + DigitAt(ds, j + 3);
    }
  }

  /** The groups of a non-zero decimal span a window that holds every non-zero digit. */
  lemma WindowHolds(ds: Digits, dweight: int, lo: int, hi: int)
    requires !AllZero(ds)
    requires lo == dweight - 4 * TopGroup(ds, dweight) - 3 && hi == dweight - 4 * BottomGroup(ds, dweight) + 1
    ensures lo <= hi && lo <= |ds| && 0 <= hi
    ensures forall i | i < lo || hi <= i :: DigitAt(ds, i) == 0
  {
    forall i | i < lo || hi <= i ensures DigitAt(ds, i) == 0 {
      assert i < FirstNonZero(ds) || i > LastNonZero(ds);
    }
  }

  /** The groups of a decimal write the number in the window from `lo` up to `hi`. */
  lemma WindowNumber(ds: Digits, dweight: int, groups: seq<i16>, lo: int, hi: int)
    requires !AllZero(ds) && InBase(groups)
    requires lo == dweight - 4 * TopGroup(ds, dweight) - 3 && hi == dweight - 4 * BottomGroup(ds, dweight) + 1
    requires |groups| == TopGroup(ds, dweight) - BottomGroup(ds, dweight) + 1
    requires forall k | 0 <= k < |groups| :: groups[k] == GroupOf(ds, dweight, TopGroup(ds, dweight) - k)
    ensures GroupsValue(groups) == NatRange(ds, lo, hi)
  {
    GroupsWindow(ds, dweight, TopGroup(ds, dweight), groups);
    assert hi == lo + 4 * |groups|;
  }

  lemma NonZeroValue(ds: Digits, dweight: int, groups: seq<i16>)
    requires !AllZero(ds) && InBase(groups)
    requires |groups| == TopGroup(ds, dweight) - BottomGroup(ds, dweight) + 1
    requires forall k | 0 <= k < |groups| :: groups[k] == GroupOf(ds, dweight, TopGroup(ds, dweight) - k)
    ensures SameNumber(
              GroupsValue(groups), 4 * BottomGroup(ds, dweight), NatRange(ds, 0, |ds|), dweight - |ds| + 1)
  {
    var lo := dweight - 4 * TopGroup(ds, dweight) - 3;
    var hi := dweight - 4 * BottomGroup(ds, dweight) + 1;
    WindowNumber(ds, dweight, groups, lo, hi);
    WindowHolds(ds, dweight, lo, hi);
    SameWindow(ds, lo, hi, 0, |ds|);
    ShiftSame(
      NatRange(ds, lo, hi), -hi, NatRange(ds, 0, |ds|), -|ds|, 4 * BottomGroup(ds, dweight), dweight - |ds| + 1);
  }

  /** An encoded decimal denotes exactly the number its digits write. */
  lemma EncodeValue(ds: Digits, dweight: int, scale: u16, sign: Sign)
    requires FitsWeight(ds, dweight)
    ensures var v := Encode(ds, dweight, scale, sign);
            && InBase(v.digits)
            && SameNumber(
                 GroupsValue(v.digits), 4 * (v.weight - |v.digits| + 1), NatRange(ds, 0, |ds|), dweight - |ds| + 1)
  {
    EncodeInBase(ds, dweight, scale, sign);
    var v := Encode(ds, dweight, scale, sign);
    var bottom := v.weight - |v.digits| + 1;
    if AllZero(ds) {
      ZeroFrom(ds, v.digits, 4 * bottom, dweight - |ds| + 1);
    } else {
      ValueFrom(ds, dweight, v.digits, bottom);
    }
  }

  lemma EncodeInBase(ds: Digits, dweight: int, scale: u16, sign: Sign)
    requires FitsWeight(ds, dweight)
    ensures InBase(Encode(ds, dweight, scale, sign).digits)
  {
    EncodeGroups(ds, dweight, scale, sign);
  }

  lemma ZeroFrom(ds: Digits, groups: seq<i16>, x: int, y: int)
    requires AllZero(ds) && groups == []
    ensures SameNumber(GroupsValue(groups), x, NatRange(ds, 0, |ds|), y)
  {
    LeadingZeros(ds, 0, |ds|, |ds|);
    ZeroSame(x, y);
  }

  lemma ZeroSame(x: int, y: int)
    ensures SameNumber(0, x, 0, y)
  {
  }

  lemma ValueFrom(ds: Digits, dweight: int, groups: seq<i16>, bottom: int)
    requires !AllZero(ds) && InBase(groups) && bottom == BottomGroup(ds, dweight)
    requires |groups| == TopGroup(ds, dweight) - BottomGroup(ds, dweight) + 1
    requires forall k | 0 <= k < |groups| :: groups[k] == GroupOf(ds, dweight, TopGroup(ds, dweight) - k)
    ensures SameNumber(GroupsValue(groups), 4 * bottom, NatRange(ds, 0, |ds|), dweight - |ds| + 1)
  {
    NonZeroValue(ds, dweight, groups);
  }

  lemma ShiftSame(n: nat, x: int, m: nat, y: int, x': int, y': int)
    requires SameNumber(n, x, m, y) && x' - x == y' - y
    ensures SameNumber(n, x', m, y')
  {
  }
}
