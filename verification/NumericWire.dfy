/**
 The binary form of NUMERIC values: group count, weight, sign word and scale in
 16-bit big-endian words, then the groups.
 */
module NumericWire {
  import opened Integers
  import opened Text
  import opened Numeric
  import opened NumericPrinter
  import opened NumericText

  datatype WireError = UnexpectedEof | InvalidSign(word: u16) | TooManyDigits

  const POSITIVE_SIGN: u16 := 0x0000
  const NEGATIVE_SIGN: u16 := 0x4000
  const NAN_SIGN: u16 := 0xC000
  const POSITIVE_INFINITY_SIGN: u16 := 0xD000
  const NEGATIVE_INFINITY_SIGN: u16 := 0xF000

  // ---------- 16-bit words ----------

  function ToBytes(n: u16): seq<u8> {
    [n / 0x100, n % 0x100]
  }

  function FromBytes(high: u8, low: u8): u16 {
    high * 0x100 + low
  }

  /** The two's-complement word of a signed number. */
  function Unsigned(n: i16): u16 {
    if n < 0 then n + 0x1_0000 else n
  }

  function Signed(n: u16): (i: i16)
    ensures Unsigned(i) == n
  {
    if n >= 0x8000 then n - 0x1_0000 else n
  }

  // ---------- the image of a value ----------

  function SignWord(v: PgNumeric): u16 {
    match v
    case NaN => NAN_SIGN
    case PositiveInfinity => POSITIVE_INFINITY_SIGN
    case NegativeInfinity => NEGATIVE_INFINITY_SIGN
    case Value(sign, _, _, _) => if sign == Positive then POSITIVE_SIGN else NEGATIVE_SIGN
  }

  function Groups(v: PgNumeric): seq<i16> {
    if v.Value? then v.digits else []
  }

  function GroupBytes(groups: seq<i16>): (b: seq<u8>)
    ensures |b| == 2 * |groups|
  {
    if groups == [] then [] else ToBytes(Unsigned(groups[0])) + GroupBytes(groups[1..])
  }

  function Header(v: PgNumeric): (b: seq<u8>)
    requires |Groups(v)| < 0x1_0000
    ensures |b| == 8
  {
    ToBytes(|Groups(v)|) + ToBytes(Unsigned(if v.Value? then v.weight else 0)) +
    ToBytes(SignWord(v)) + ToBytes(if v.Value? then v.scale else 0)
  }

  function Image(v: PgNumeric): seq<u8>
    requires |Groups(v)| < 0x1_0000
  {
    Header(v) + GroupBytes(Groups(v))
  }

  lemma {:induction false} GroupBytesAppend(groups: seq<i16>, group: i16)
    ensures GroupBytes(groups + [group]) == GroupBytes(groups) + ToBytes(Unsigned(group))
  {
    if groups == [] {
      assert [group] == groups + [group] && [group][1..] == [];
    } else {
      GroupBytesAppend(groups[1..], group);
      assert (groups + [group])[1..] == groups[1..] + [group];
    }
  }

  /** Two bytes hold a number modulo 2^16, the high byte first. */
  ghost predicate Holds(bytes: seq<u8>, pos: nat, n: int)
    requires pos + 2 <= |bytes|
  {
    (bytes[pos] * 0x100 + bytes[pos + 1] - n) % 0x1_0000 == 0
  }

  lemma WordHolds(n: int, word: u16)
    requires word == n || word == n + 0x1_0000
    ensures Holds(ToBytes(word), 0, n)
  {
    assert word / 0x100 * 0x100 + word % 0x100 == word;
  }

  lemma {:induction false} GroupsHold(groups: seq<i16>, k: nat)
    requires k < |groups|
    ensures Holds(GroupBytes(groups), 2 * k, groups[k])
  {
    var word := Unsigned(groups[0]);
    WordHolds(groups[0], word);
    if k > 0 {
      GroupsHold(groups[1..], k - 1);
      assert GroupBytes(groups)[2 * k..2 * k + 2] == GroupBytes(groups[1..])[2 * (k - 1)..2 * (k - 1) + 2];
    }
  }

  lemma HeaderForm(v: PgNumeric)
    requires |Groups(v)| < 0x1_0000
    ensures Holds(Header(v), 0, |Groups(v)|)
    ensures v.Value? ==>
            && Holds(Header(v), 2, v.weight) && Holds(Header(v), 6, v.scale)
            && Header(v)[4..6] == if v.sign == Positive then [0x00, 0x00] else [0x40, 0x00]
    ensures Header(NaN) == [0, 0, 0, 0, 0xC0, 0x00, 0, 0]
    ensures Header(PositiveInfinity) == [0, 0, 0, 0, 0xD0, 0x00, 0, 0]
    ensures Header(NegativeInfinity) == [0, 0, 0, 0, 0xF0, 0x00, 0, 0]
  {
    WordHolds(|Groups(v)|, |Groups(v)|);
    if v.Value? {
      WordHolds(v.weight, Unsigned(v.weight));
      WordHolds(v.scale, v.scale);
    }
  }

  /** The bytes of a finite value: count, weight, sign, scale and groups, each a two's-complement 16-bit word. */
  lemma ImageForm(v: PgNumeric)
    requires v.Value? && |v.digits| < 0x1_0000
    ensures |Image(v)| == 8 + 2 * |v.digits|
    ensures Holds(Image(v), 0, |v.digits|) && Holds(Image(v), 2, v.weight) && Holds(Image(v), 6, v.scale)
    ensures Image(v)[4..6] == if v.sign == Positive then [0x00, 0x00] else [0x40, 0x00]
    ensures forall k | 0 <= k < |v.digits| :: Holds(Image(v), 8 + 2 * k, v.digits[k])
  {
    HeaderForm(v);
    assert Image(v)[4..6] == Header(v)[4..6];
    forall k | 0 <= k < |v.digits| ensures Holds(Image(v), 8 + 2 * k, v.digits[k]) {
      GroupsHold(v.digits, k);
    }
  }

  /** Appends the image of a value to `out`, unless its group count does not fit its word. */
  method ToSql(v: PgNumeric, out: seq<u8>) returns (r: Result<seq<u8>, WireError>)
    ensures r == if |Groups(v)| < 0x1_0000 then Success(out + Image(v)) else Failure(TooManyDigits)
  {
    var digits := Groups(v);
    if |digits| > 0xFFFF {
      return Failure(TooManyDigits);
    }
    var bytes := out + Header(v);
    for i := 0 to |digits|
      invariant bytes == out + (Header(v) + GroupBytes(digits[..i]))
    {
      assert digits[..i + 1] == digits[..i] + [digits[i]];
      GroupBytesAppend(digits[..i], digits[i]);
      bytes := bytes + ToBytes(Unsigned(digits[i]));
    }
    assert digits[..|digits|] == digits;
    return Success(bytes);
  }

  // ---------- reading ----------

  function WordAt(raw: seq<u8>, pos: nat): u16
    requires pos + 2 <= |raw|
  {
    FromBytes(raw[pos], raw[pos + 1])
  }

  function ReadGroups(raw: seq<u8>, count: nat): Result<seq<i16>, WireError>
    decreases count
  {
    if count == 0 then Success([])
    else if |raw| < 2 then Failure(UnexpectedEof)
    else
      match ReadGroups(raw[2..], count - 1)
      case Failure(error) => Failure(error)
      case Success(groups) => Success([Signed(WordAt(raw, 0))] + groups)
  }

  function FromWire(raw: seq<u8>): Result<PgNumeric, WireError> {
    if |raw| < 6 then Failure(UnexpectedEof)
    else
      var word := WordAt(raw, 4);
      if word == NAN_SIGN then Success(NaN)
      else if word == POSITIVE_INFINITY_SIGN then Success(PositiveInfinity)
      else if word == NEGATIVE_INFINITY_SIGN then Success(NegativeInfinity)
      else if word != POSITIVE_SIGN && word != NEGATIVE_SIGN then Failure(InvalidSign(word))
      else if |raw| < 8 then Failure(UnexpectedEof)
      else
        match ReadGroups(raw[8..], WordAt(raw, 0))
        case Failure(error) => Failure(error)
        case Success(groups) =>
          Success(Value(
            if word == POSITIVE_SIGN then Positive else Negative, Signed(WordAt(raw, 2)), WordAt(raw, 6), groups))
  }

  /** Reads a value with a cursor over the bytes. */
  method FromSql(raw: seq<u8>) returns (r: Result<PgNumeric, WireError>)
    ensures r == FromWire(raw)
  {
    if |raw| < 6 {
      return Failure(UnexpectedEof);
    }
    var count, weight, word := WordAt(raw, 0), Signed(WordAt(raw, 2)), WordAt(raw, 4);
    if word == NAN_SIGN {
      return Success(NaN);
    } else if word == POSITIVE_INFINITY_SIGN {
      return Success(PositiveInfinity);
    } else if word == NEGATIVE_INFINITY_SIGN {
      return Success(NegativeInfinity);
    } else if word != POSITIVE_SIGN && word != NEGATIVE_SIGN {
      return Failure(InvalidSign(word));
    }
    if |raw| < 8 {
      return Failure(UnexpectedEof);
    }
    var digits := FetchGroups(raw, count);
    match digits {
      case Failure(error) => return Failure(error);
      case Success(groups) =>
        return Success(Value(if word == POSITIVE_SIGN then Positive else Negative, weight, WordAt(raw, 6), groups));
    }
  }

  /** What the reader gives once `groups` have been read. */
  ghost function Resume(groups: seq<i16>, rest: Result<seq<i16>, WireError>): Result<seq<i16>, WireError> {
    match rest
    case Failure(error) => Failure(error)
    case Success(more) => Success(groups + more)
  }

  lemma ResumeStep(groups: seq<i16>, raw: seq<u8>, count: nat)
    requires count > 0
    ensures Resume(groups, ReadGroups(raw, count)) ==
            if |raw| < 2 then Failure(UnexpectedEof)
            else Resume(groups + [Signed(WordAt(raw, 0))], ReadGroups(raw[2..], count - 1))
  {
    if |raw| >= 2 && ReadGroups(raw[2..], count - 1).Success? {
      var more := ReadGroups(raw[2..], count - 1).value;
      var group := Signed(WordAt(raw, 0));
      assert groups + ([group] + more) == groups + [group] + more;
    }
  }

  lemma ResumeNothing(rest: Result<seq<i16>, WireError>)
    ensures Resume([], rest) == rest
  {
    if rest.Success? {
      assert [] + rest.value == rest.value;
    }
  }

  method FetchGroups(raw: seq<u8>, count: u16) returns (r: Result<seq<i16>, WireError>)
    requires |raw| >= 8
    ensures r == ReadGroups(raw[8..], count)
  {
    var groups, pos := [], 8;
    ResumeNothing(ReadGroups(raw[8..], count));
    for i := 0 to count
      invariant pos == 8 + 2 * i <= |raw|
      invariant Resume(groups, ReadGroups(raw[pos..], count - i)) == ReadGroups(raw[8..], count)
    {
      ResumeStep(groups, raw[pos..], count - i);
      if pos + 2 > |raw| {
        return Failure(UnexpectedEof);
      }
      assert raw[pos..][2..] == raw[pos + 2..];
      assert WordAt(raw[pos..], 0) == WordAt(raw, pos);
      groups := groups + [Signed(WordAt(raw, pos))];
      pos := pos + 2;
    }
    assert groups + [] == groups;
    return Success(groups);
  }

  // ---------- reading is the inverse of writing ----------

  lemma WordRoundTrip(n: u16, rest: seq<u8>)
    ensures WordAt(ToBytes(n) + rest, 0) == n && (ToBytes(n) + rest)[2..] == rest
  {
  }

  lemma {:induction false} ReadWritten(groups: seq<i16>, rest: seq<u8>)
    ensures ReadGroups(GroupBytes(groups) + rest, |groups|) == Success(groups)
  {
    if groups != [] {
      var word := Unsigned(groups[0]);
      assert GroupBytes(groups) + rest == ToBytes(word) + (GroupBytes(groups[1..]) + rest);
      WordRoundTrip(word, GroupBytes(groups[1..]) + rest);
      ReadWritten(groups[1..], rest);
      assert groups == [Signed(word)] + groups[1..];
    }
  }

  lemma WordBytes(raw: seq<u8>, pos: nat)
    requires pos + 2 <= |raw|
    ensures ToBytes(WordAt(raw, pos)) == raw[pos..pos + 2]
  {
  }

  lemma {:induction false} WrittenRead(raw: seq<u8>, count: nat)
    requires ReadGroups(raw, count).Success?
    ensures var groups := ReadGroups(raw, count).value;
            |groups| == count && GroupBytes(groups) <= raw
    decreases count
  {
    if count > 0 {
      WrittenRead(raw[2..], count - 1);
      var groups := ReadGroups(raw[2..], count - 1).value;
      WordBytes(raw, 0);
      ConsPrefix(raw, Signed(WordAt(raw, 0)), groups);
    }
  }

  lemma ConsPrefix(raw: seq<u8>, group: i16, groups: seq<i16>)
    requires |raw| >= 2 && ToBytes(Unsigned(group)) == raw[0..2] && GroupBytes(groups) <= raw[2..]
    ensures GroupBytes([group] + groups) <= raw
  {
    assert ([group] + groups)[1..] == groups;
    var rest := raw[2..][|GroupBytes(groups)|..];
    assert raw == raw[0..2] + raw[2..] == raw[0..2] + GroupBytes(groups) + rest;
  }

  lemma HeaderWords(v: PgNumeric, rest: seq<u8>)
    requires |Groups(v)| < 0x1_0000
    ensures var raw := Header(v) + rest;
            && WordAt(raw, 0) == |Groups(v)| && WordAt(raw, 4) == SignWord(v)
            && (v.Value? ==> WordAt(raw, 2) == Unsigned(v.weight) && WordAt(raw, 6) == v.scale)
            && raw[8..] == rest
  {
  }

  /** A written value is read back, whatever follows it. */
  lemma WireRoundTrip(v: PgNumeric, rest: seq<u8>)
    requires |Groups(v)| < 0x1_0000
    ensures FromWire(Image(v) + rest) == Success(v)
  {
    var groups := Groups(v);
    assert Image(v) + rest == Header(v) + (GroupBytes(groups) + rest);
    HeaderWords(v, GroupBytes(groups) + rest);
    ReadWritten(groups, rest);
    if v.Value? {
      assert Signed(Unsigned(v.weight)) == v.weight;
    }
  }

  /** The bytes read as a finite value are exactly those that start with its image. */
  lemma ReadsExactly(raw: seq<u8>, v: PgNumeric)
    requires v.Value?
    ensures FromWire(raw) == Success(v) <==> |v.digits| < 0x1_0000 && Image(v) <= raw
  {
    if |v.digits| < 0x1_0000 && Image(v) <= raw {
      WireRoundTrip(v, raw[|Image(v)|..]);
      assert raw == Image(v) + raw[|Image(v)|..];
    } else if FromWire(raw) == Success(v) {
      ImageRead(raw, v);
      assert false;
    }
  }

  lemma ImageRead(raw: seq<u8>, v: PgNumeric)
    requires v.Value? && FromWire(raw) == Success(v)
    ensures |v.digits| < 0x1_0000 && Image(v) <= raw
  {
    WrittenRead(raw[8..], WordAt(raw, 0));
    WordBytes(raw, 0);
    WordBytes(raw, 2);
    WordBytes(raw, 4);
    WordBytes(raw, 6);
    assert Header(v) == raw[0..2] + raw[2..4] + raw[4..6] + raw[6..8] == raw[..8];
    assert raw == raw[..8] + raw[8..];
  }

  /** The special values are told by the sign word alone. */
  lemma ReadsSpecials(raw: seq<u8>)
    ensures FromWire(raw) == Success(NaN) <==> |raw| >= 6 && raw[4..6] == [0xC0, 0x00]
    ensures FromWire(raw) == Success(PositiveInfinity) <==> |raw| >= 6 && raw[4..6] == [0xD0, 0x00]
    ensures FromWire(raw) == Success(NegativeInfinity) <==> |raw| >= 6 && raw[4..6] == [0xF0, 0x00]
  {
    if |raw| >= 6 {
      WordBytes(raw, 4);
    }
  }

  /** Bytes are rejected exactly for an unknown sign word, or for ending before the last group they announce. */
  lemma RejectsExactly(raw: seq<u8>)
    ensures FromWire(raw).Failure? <==>
            || |raw| < 6
            || raw[4] !in {0x00, 0x40, 0xC0, 0xD0, 0xF0} || raw[5] != 0
            || (raw[4] in {0x00, 0x40} && |raw| < 8 + 2 * (raw[0] as int * 0x100 + raw[1] as int))
  {
    if |raw| >= 8 {
      ReadsEnough(raw[8..], WordAt(raw, 0));
    }
  }

  lemma {:induction false} ReadsEnough(raw: seq<u8>, count: nat)
    ensures ReadGroups(raw, count).Success? <==> |raw| >= 2 * count
    decreases count
  {
    if count > 0 && |raw| >= 2 {
      ReadsEnough(raw[2..], count - 1);
    }
  }

  // ---------- parsed values always fit ----------

  const MAX_PARSED_GROUPS := 36_864

  /** A value without digits below its scale has a bounded number of groups. */
  lemma PresentableGroups(v: PgNumeric)
    requires v.Value? && Presentable(v)
    ensures |v.digits| <= MAX_PARSED_GROUPS
    ensures v.digits != [] ==> v.weight >= -4096
  {
    if v.digits != [] {
      GroupAboveScale(v, v.weight - |v.digits| + 1);
      GroupAboveScale(v, v.weight);
    }
  }

  lemma GroupAboveScale(v: PgNumeric, g: int)
    requires v.Value? && Presentable(v) && GroupAt(v.weight, v.digits, g) != 0
    ensures g >= -4096
  {
    var n: nat := GroupAt(v.weight, v.digits, g);
    ExpansionOfGroup(v.weight, v.digits, g);
    assert DigitOfGroup(n, 0) != 0 || DigitOfGroup(n, 1) != 0 || DigitOfGroup(n, 2) != 0 || DigitOfGroup(n, 3) != 0;
  }

  /** Every parsed text can be sent and comes back as the same value. */
  lemma TextOverWire(input: string, rest: seq<u8>)
    requires FromText(input).Success?
    ensures |Groups(FromText(input).value)| <= MAX_PARSED_GROUPS
    ensures FromWire(Image(FromText(input).value) + rest) == Success(FromText(input).value)
  {
    var v := FromText(input).value;
    ParsedPresentable(input);
    if v.Value? {
      PresentableGroups(v);
    }
    WireRoundTrip(v, rest);
  }
}
