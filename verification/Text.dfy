/**
 Text helpers shared by every component: failure datatypes, Rust's integer
 formatting and parsing, and `str::trim`.
 */
module Text {

  datatype Option<+T> = None | Some(value: T)

  datatype Result<+T, +E> = Success(value: T) | Failure(error: E)

  predicate IsDigit(c: char) {
    '0' <= c <= '9'
  }

  function DigitChar(d: nat): (c: char)
    requires d < 10
    ensures IsDigit(c) && DigitValue(c) == d
  {
    ('0' as int + d) as char
  }

  function DigitValue(c: char): (d: nat)
    requires IsDigit(c)
    ensures d < 10 && c == ('0' as int + d) as char
  {
    c as int - '0' as int
  }

  predicate AllDigits(s: string) {
    forall i | 0 <= i < |s| :: IsDigit(s[i])
  }

  /** The number a run of decimal digits stands for. */
  function DigitsValue(s: string): nat
    requires AllDigits(s)
  {
    if s == [] then 0 else DigitsValue(s[..|s| - 1]) * 10 + DigitValue(s[|s| - 1])
  }

  /** Rust's `{}` rendering of an unsigned integer. */
  function Decimal(n: nat): string {
    if n < 10 then [DigitChar(n)] else Decimal(n / 10) + [DigitChar(n % 10)]
  }

  lemma {:induction false} DecimalDigits(n: nat)
    ensures |Decimal(n)| > 0 && AllDigits(Decimal(n)) && DigitsValue(Decimal(n)) == n
  {
    if n >= 10 {
      DecimalDigits(n / 10);
      assert Decimal(n)[..|Decimal(n)| - 1] == Decimal(n / 10);
    }
  }

  /** A number other than zero is written without leading zeros. */
  lemma {:induction false} DecimalForm(n: nat)
    ensures Decimal(0) == "0" && (n > 0 ==> Decimal(n)[0] != '0')
  {
    if n >= 10 {
      DecimalForm(n / 10);
      assert Decimal(n)[0] == Decimal(n / 10)[0];
    }
  }

  lemma DecimalInjective(m: nat, n: nat)
    requires Decimal(m) == Decimal(n)
    ensures m == n
  {
    DecimalDigits(m);
    DecimalDigits(n);
  }

  /** Rust's `{}` rendering of a signed integer. */
  function SignedDecimal(n: int): string {
    if n < 0 then "-" + Decimal(-n) else Decimal(n)
  }

  lemma SignedForm(n: int)
    ensures SignedDecimal(n)[0] == '-' <==> n < 0
  {
    DecimalDigits(if n < 0 then -n else n);
    if n >= 0 {
      assert IsDigit(Decimal(n)[0]);
    }
  }

  /** Rust's `parse` for an unsigned type whose largest value is `max`. */
  function ParseUnsigned(s: string, max: nat): Option<nat> {
    var digits := if |s| > 0 && s[0] == '+' then s[1..] else s;
    if digits != [] && AllDigits(digits) && DigitsValue(digits) <= max
    then Some(DigitsValue(digits))
    else None
  }

  lemma ParseDecimal(n: nat, max: nat)
    requires n <= max
    ensures ParseUnsigned(Decimal(n), max) == Some(n)
  {
    DecimalDigits(n);
    assert IsDigit(Decimal(n)[0]);
  }

  ghost predicate WritesUnsigned(s: string, sign: string, zeros: string, n: nat) {
    && (sign == "" || sign == "+") && (forall i | 0 <= i < |zeros| :: zeros[i] == '0')
    && s == sign + (zeros + Decimal(n))
  }

  lemma DigitsGrow(zeros: string, n: nat, d: nat) returns (more: string)
    requires d < 10 && forall i | 0 <= i < |zeros| :: zeros[i] == '0'
    ensures (forall i | 0 <= i < |more| :: more[i] == '0')
    ensures zeros + Decimal(n) + [DigitChar(d)] == more + Decimal(10 * n + d)
  {
    if n == 0 {
      more := zeros + "0";
      assert Decimal(d) == [DigitChar(d)];
    } else {
      more := zeros;
      assert (10 * n + d) / 10 == n && (10 * n + d) % 10 == d;
      assert Decimal(10 * n + d) == Decimal(n) + [DigitChar(d)];
    }
  }

  /** Any digits are zeros and the number they stand for. */
  lemma {:induction false} DigitsForm(s: string) returns (zeros: string)
    requires s != [] && AllDigits(s)
    ensures (forall i | 0 <= i < |zeros| :: zeros[i] == '0') && s == zeros + Decimal(DigitsValue(s))
  {
    var front, d := s[..|s| - 1], DigitValue(s[|s| - 1]);
    if front == [] {
      zeros := [];
      assert DigitsValue(front) == 0;
      assert s == [DigitChar(d)] == Decimal(d);
    } else {
      zeros := DigitsForm(front);
      zeros := DigitsGrow(zeros, DigitsValue(front), d);
    }
  }

  lemma {:induction false} ZerosValue(zeros: string, n: nat)
    requires forall i | 0 <= i < |zeros| :: zeros[i] == '0'
    ensures AllDigits(zeros + Decimal(n)) && DigitsValue(zeros + Decimal(n)) == n
    decreases n
  {
    DecimalDigits(n);
    if n < 10 {
      ZerosDigit(zeros, n);
    } else {
      ZerosValue(zeros, n / 10);
      var s := zeros + Decimal(n);
      assert s[..|s| - 1] == zeros + Decimal(n / 10);
    }
  }

  lemma ZerosDigit(zeros: string, d: nat)
    requires d < 10 && forall i | 0 <= i < |zeros| :: zeros[i] == '0'
    ensures DigitsValue(zeros + [DigitChar(d)]) == d
  {
    AllZerosValue(zeros);
    assert (zeros + [DigitChar(d)])[..|zeros|] == zeros;
  }

  lemma {:induction false} AllZerosValue(zeros: string)
    requires forall i | 0 <= i < |zeros| :: zeros[i] == '0'
    ensures AllDigits(zeros) && DigitsValue(zeros) == 0
  {
    if zeros != [] {
      AllZerosValue(zeros[..|zeros| - 1]);
    }
  }

  lemma ReadsUnsigned(s: string, sign: string, zeros: string, n: nat, max: nat)
    requires n <= max && WritesUnsigned(s, sign, zeros, n)
    ensures ParseUnsigned(s, max) == Some(n)
  {
    var digits := zeros + Decimal(n);
    ZerosValue(zeros, n);
    DecimalDigits(n);
    assert IsDigit(digits[0]);
    if sign == "+" {
      assert s[1..] == digits;
    } else {
      assert s == digits;
    }
  }

  /** The accepted texts are exactly a number up to `max` with leading zeros and a plus sign, or without them. */
  lemma UnsignedExactly(s: string, max: nat, n: nat)
    ensures ParseUnsigned(s, max) == Some(n) <==> n <= max && exists sign, zeros :: WritesUnsigned(s, sign, zeros, n)
  {
    if ParseUnsigned(s, max) == Some(n) {
      var sign := if s[0] == '+' then "+" else "";
      var zeros := DigitsForm(s[|sign|..]);
      assert WritesUnsigned(s, sign, zeros, n);
    }
    if sign, zeros :| n <= max && WritesUnsigned(s, sign, zeros, n) {
      ReadsUnsigned(s, sign, zeros, n, max);
    }
  }

  /** A shorter run of digits without leading zeros denotes a smaller number. */
  lemma {:induction false} DecimalLength(n: nat, width: nat)
    requires width > 0 && n < Power(10, width)
    ensures |Decimal(n)| <= width
  {
    if n >= 10 {
      assert width > 1;
      DecimalLength(n / 10, width - 1);
    }
  }

  function Power(base: nat, exponent: nat): (p: nat)
    ensures base > 0 ==> p > 0
  {
    if exponent == 0 then 1 else base * Power(base, exponent - 1)
  }

  lemma {:induction false} PowerAdd(base: nat, a: nat, b: nat)
    ensures Power(base, a + b) == Power(base, a) * Power(base, b)
  {
    if a > 0 {
      PowerAdd(base, a - 1, b);
    }
  }

  function LowerAscii(c: char): char {
    if 'A' <= c <= 'Z' then (c as int + 32) as char else c
  }

  /** Characters agree up to case exactly when they are the same or a letter and its other case. */
  lemma SameLetter(c: char, d: char)
    ensures LowerAscii(c) == LowerAscii(d) <==>
            || c == d
            || ('A' <= c <= 'Z' && d as int == c as int + 32)
            || ('A' <= d <= 'Z' && c as int == d as int + 32)
  {
    assert c as char as int == c as int && d as char as int == d as int;
  }

  predicate EqualsIgnoreAsciiCase(a: string, b: string) {
    |a| == |b| && forall i | 0 <= i < |a| :: LowerAscii(a[i]) == LowerAscii(b[i])
  }

  /** The code points `char::is_whitespace` accepts: Unicode `White_Space`. */
  predicate IsWhitespace(c: char) {
    || '\t' <= c <= '\r'
    || c == ' '
    || c == '\U{0085}'
    || c == '\U{00A0}'
    || c == '\U{1680}'
    || '\U{2000}' <= c <= '\U{200A}'
    || c == '\U{2028}'
    || c == '\U{2029}'
    || c == '\U{202F}'
    || c == '\U{205F}'
    || c == '\U{3000}'
  }

  /** Unicode's 25 whitespace characters by number. */
  lemma WhitespaceExactly(c: char)
    ensures IsWhitespace(c) <==>
            c as int in {9, 10, 11, 12, 13, 32, 133, 160, 5760,
                         8192, 8193, 8194, 8195, 8196, 8197, 8198, 8199, 8200, 8201, 8202,
                         8232, 8233, 8239, 8287, 12288}
  {
    var n := c as int;
    assert c == n as char;
    assert IsWhitespace(c) <==>
           || 9 <= n <= 13 || n == 32 || n == 133 || n == 160 || n == 5760 || 8192 <= n <= 8202
           || n == 8232 || n == 8233 || n == 8239 || n == 8287 || n == 12288;
  }

  predicate AllWhitespace(s: string) {
    forall i | 0 <= i < |s| :: IsWhitespace(s[i])
  }

  predicate IsTrimmed(s: string) {
    |s| > 0 ==> !IsWhitespace(s[0]) && !IsWhitespace(s[|s| - 1])
  }

  /** `str::trim_start`. */
  function TrimStart(s: string): string {
    if |s| > 0 && IsWhitespace(s[0]) then TrimStart(s[1..]) else s
  }

  /** `str::trim_end`. */
  function TrimEnd(s: string): string {
    if |s| > 0 && IsWhitespace(s[|s| - 1]) then TrimEnd(s[..|s| - 1]) else s
  }

  lemma {:induction false} TrimStartSplit(s: string) returns (left: string)
    ensures AllWhitespace(left) && s == left + TrimStart(s)
    ensures TrimStart(s) == [] || !IsWhitespace(TrimStart(s)[0])
  {
    if |s| > 0 && IsWhitespace(s[0]) {
      left := TrimStartSplit(s[1..]);
      Associative([s[0]], left, TrimStart(s));
      left := [s[0]] + left;
    } else {
      left := [];
    }
  }

  lemma {:induction false} TrimEndSplit(s: string) returns (right: string)
    ensures AllWhitespace(right) && s == TrimEnd(s) + right
    ensures TrimEnd(s) == [] || !IsWhitespace(TrimEnd(s)[|TrimEnd(s)| - 1])
  {
    if |s| > 0 && IsWhitespace(s[|s| - 1]) {
      right := TrimEndSplit(s[..|s| - 1]);
      Associative(TrimEnd(s), right, [s[|s| - 1]]);
      right := right + [s[|s| - 1]];
    } else {
      right := [];
    }
  }

  lemma Associative(a: string, b: string, c: string)
    ensures (a + b) + c == a + (b + c)
  {
  }

  /** `str::trim`. */
  function Trim(s: string): (r: string)
    ensures |r| <= |s| && IsTrimmed(r)
  {
    TrimEnds(s);
    TrimEnd(TrimStart(s))
  }

  lemma TrimEnds(s: string)
    ensures var r := TrimEnd(TrimStart(s));
            |r| <= |s| && IsTrimmed(r)
  {
    var left := TrimStartSplit(s);
    var right := TrimEndSplit(TrimStart(s));
  }

  lemma TrimFixed(s: string)
    requires IsTrimmed(s)
    ensures Trim(s) == s
  {
  }

  lemma SplitAt(s: string, i: nat)
    requires i <= |s|
    ensures s == s[..i] + s[i..]
  {
  }

  /** What `Trim` takes away is whitespace on both sides. */
  lemma TrimSplit(s: string) returns (left: string, right: string)
    ensures AllWhitespace(left) && AllWhitespace(right)
    ensures s == left + Trim(s) + right
  {
    left := TrimStartSplit(s);
    right := TrimEndSplit(TrimStart(s));
    Associative(left, Trim(s), right);
  }
}
