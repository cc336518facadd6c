/**
 Composite log-position keys: the schema snapshot identifier ordered by commit
 LSN then message LSN, its text form, and the packed CDC sequence key.
 */
module Snapshots {
  import opened Integers
  import opened Text

  datatype SnapshotId = SnapshotId(commitLsn: u64, messageLsn: u64) {
    predicate Less(other: SnapshotId) {
      || commitLsn < other.commitLsn
      || (commitLsn == other.commitLsn && messageLsn < other.messageLsn)
    }

    predicate AtMost(other: SnapshotId) {
      this == other || Less(other)
    }
  }

  /** The inclusive schema bound of a WAL frontier. */
  function AtLsn(lsn: u64): SnapshotId {
    SnapshotId(lsn, U64_MAX)
  }

  function Print(id: SnapshotId): string {
    Decimal(id.commitLsn) + ":" + Decimal(id.messageLsn)
  }

  /** Where `c` first occurs in `s`, or the length of `s`. */
  function FirstIndex(s: string, c: char): (i: nat)
    ensures i <= |s| && c !in s[..i] && (i < |s| ==> s[i] == c)
  {
    if s == [] || s[0] == c then 0 else
      var i := 1 + FirstIndex(s[1..], c);
      assert s[..i] == [s[0]] + s[1..][..i - 1];
      i
  }

  function Parse(s: string): Option<SnapshotId> {
    var colon := FirstIndex(s, ':');
    if colon == |s| || ':' in s[colon + 1..] then
      None
    else
      match (ParseUnsigned(s[..colon], U64_MAX), ParseUnsigned(s[colon + 1..], U64_MAX))
      case (Some(commit), Some(message)) => Some(SnapshotId(commit, message))
      case _ => None
  }

  lemma {:induction false} FirstIndexUnique(s: string, c: char, i: nat)
    requires i < |s| && s[i] == c && c !in s[..i]
    ensures FirstIndex(s, c) == i
  {
    if i > 0 {
      assert s[..i][0] != c;
      assert s[1..][..i - 1] == s[..i][1..];
      FirstIndexUnique(s[1..], c, i - 1);
    }
  }

  lemma NoColon(s: string)
    requires ParseUnsigned(s, U64_MAX).Some?
    ensures ':' !in s
  {
    var digits := if s[0] == '+' then s[1..] else s;
    forall i | 0 <= i < |s| ensures s[i] != ':' {
      assert i > 0 || s[0] != '+' ==> IsDigit(digits[i - (|s| - |digits|)]);
    }
  }

  lemma ParseAround(commit: string, message: string, id: SnapshotId)
    requires ':' !in commit
    ensures Parse(commit + ":" + message) == Some(id) <==>
            && ParseUnsigned(commit, U64_MAX) == Some(id.commitLsn)
            && ParseUnsigned(message, U64_MAX) == Some(id.messageLsn)
  {
    var s := commit + ":" + message;
    assert s[..|commit|] == commit && s[|commit| + 1..] == message;
    FirstIndexUnique(s, ':', |commit|);
    if ParseUnsigned(message, U64_MAX).Some? {
      NoColon(message);
    }
  }

  ghost predicate Writes(s: string, commit: string, message: string, id: SnapshotId) {
    && s == commit + ":" + message
    && ParseUnsigned(commit, U64_MAX) == Some(id.commitLsn)
    && ParseUnsigned(message, U64_MAX) == Some(id.messageLsn)
  }

  /** The accepted texts are exactly two unsigned 64-bit numbers around one colon. */
  lemma ParseExactly(s: string, id: SnapshotId)
    ensures Parse(s) == Some(id) <==> exists commit, message :: Writes(s, commit, message, id)
  {
    if Parse(s) == Some(id) {
      var colon := FirstIndex(s, ':');
      assert s == s[..colon] + ":" + s[colon + 1..];
      assert Writes(s, s[..colon], s[colon + 1..], id);
    }
    if commit, message :| Writes(s, commit, message, id) {
      NoColon(commit);
      ParseAround(commit, message, id);
    }
  }

  lemma ParsePrint(id: SnapshotId)
    ensures Parse(Print(id)) == Some(id)
  {
    assert !IsDigit(':');
    DecimalDigits(id.commitLsn);
    ParseAround(Decimal(id.commitLsn), Decimal(id.messageLsn), id);
    ParseDecimal(id.commitLsn, U64_MAX);
    ParseDecimal(id.messageLsn, U64_MAX);
  }

  /** A frontier bound admits exactly the schemas committed at or before it. */
  lemma FrontierAdmits(id: SnapshotId, lsn: u64)
    ensures id.AtMost(AtLsn(lsn)) <==> id.commitLsn <= lsn
  {
  }

  datatype EventSequenceKey = EventSequenceKey(commitLsn: u64, txOrdinal: u64)

  /** The commit LSN in the high 64 bits, the ordinal in the low 64 bits. */
  function AsU128(key: EventSequenceKey): (packed: nat)
    ensures packed / (U64_MAX + 1) == key.commitLsn
    ensures packed % (U64_MAX + 1) == key.txOrdinal
  {
    key.commitLsn * (U64_MAX + 1) + key.txOrdinal
  }

  /** Packed keys compare as (commit LSN, ordinal) pairs and lose nothing. */
  lemma PackedOrder(a: EventSequenceKey, b: EventSequenceKey)
    ensures AsU128(a) < 0x1_0000_0000_0000_0000 * 0x1_0000_0000_0000_0000
    ensures AsU128(a) == AsU128(b) <==> a == b
    ensures AsU128(a) < AsU128(b) <==>
            a.commitLsn < b.commitLsn || (a.commitLsn == b.commitLsn && a.txOrdinal < b.txOrdinal)
  {
  }
}
