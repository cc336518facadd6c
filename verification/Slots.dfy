/**
 Names of logical replication slots: printing, parsing, and the LIKE pattern that
 selects the table-sync slots of one pipeline.
 */
module Slots {
  import opened Integers
  import opened Text

  const MAX_SLOT_NAME_LENGTH := 63

  const APPLY_WORKER_PREFIX := "supabase_etl_apply"
  const TABLE_SYNC_WORKER_PREFIX := "supabase_etl_table_sync"

  datatype Slot = Apply(pipelineId: u64) | TableSync(pipelineId: u64, tableId: u32)

  datatype SlotError = InvalidSlotNameLength(name: string) | InvalidSlotName(name: string)

  // ---------- printing ----------

  function Name(slot: Slot): string {
    match slot
    case Apply(pipelineId) => APPLY_WORKER_PREFIX + "_" + Decimal(pipelineId)
    case TableSync(pipelineId, tableId) => TableSyncName(pipelineId) + Decimal(tableId)
  }

  function TableSyncName(pipelineId: u64): string {
    TABLE_SYNC_WORKER_PREFIX + "_" + Decimal(pipelineId) + "_"
  }

  function Print(slot: Slot): Result<string, SlotError> {
    var name := Name(slot);
    if |name| > MAX_SLOT_NAME_LENGTH then Failure(InvalidSlotNameLength(name)) else Success(name)
  }

  function ApplyPrefix(pipelineId: u64): Result<string, SlotError> {
    var prefix := APPLY_WORKER_PREFIX + "_" + Decimal(pipelineId);
    if |prefix| >= MAX_SLOT_NAME_LENGTH then Failure(InvalidSlotNameLength(prefix)) else Success(prefix)
  }

  function TableSyncPrefix(pipelineId: u64): Result<string, SlotError> {
    var prefix := TableSyncName(pipelineId);
    if |prefix| >= MAX_SLOT_NAME_LENGTH then Failure(InvalidSlotNameLength(prefix)) else Success(prefix)
  }

  // ---------- parsing ----------

  function StripPrefix(s: string, prefix: string): Option<string> {
    if prefix <= s then Some(s[|prefix|..]) else None
  }

  /** The last occurrence of `c`. */
  function LastIndex(s: string, c: char): (i: Option<nat>)
    ensures i.Some? ==> i.value < |s| && s[i.value] == c && forall k | i.value < k < |s| :: s[k] != c
    ensures i.None? ==> c !in s
  {
    if s == [] then None
    else if s[|s| - 1] == c then Some(|s| - 1)
    else LastIndex(s[..|s| - 1], c)
  }

  function ParseApply(rest: string): Option<Slot> {
    match StripPrefix(rest, "_")
    case None => None
    case Some(digits) =>
      match ParseUnsigned(digits, U64_MAX)
      case None => None
      case Some(pipelineId) => Some(Apply(pipelineId))
  }

  function ParseTableSync(rest: string): Option<Slot> {
    match StripPrefix(rest, "_")
    case None => None
    case Some(ids) =>
      match LastIndex(ids, '_')
      case None => None
      case Some(i) =>
        var pipelineId, tableId := ParseUnsigned(ids[..i], U64_MAX), ParseUnsigned(ids[i + 1..], U32_MAX);
        if pipelineId.None? || tableId.None? then None else Some(TableSync(pipelineId.value, tableId.value))
  }

  function ParseName(name: string): Option<Slot> {
    if APPLY_WORKER_PREFIX <= name then ParseApply(name[|APPLY_WORKER_PREFIX|..])
    else if TABLE_SYNC_WORKER_PREFIX <= name then ParseTableSync(name[|TABLE_SYNC_WORKER_PREFIX|..])
    else None
  }

  function Parse(name: string): Result<Slot, SlotError> {
    match ParseName(name)
    case None => Failure(InvalidSlotName(name))
    case Some(slot) => Success(slot)
  }

  // ---------- every slot prints and parses back ----------

  lemma TenToTheTwenty()
    ensures Power(10, 10) == 10_000_000_000
    ensures Power(10, 20) == 100_000_000_000_000_000_000
  {
    assert Power(10, 5) == 100_000 by {
      assert Power(10, 1) == 10 && Power(10, 2) == 100 && Power(10, 3) == 1000 && Power(10, 4) == 10000;
    }
    PowerAdd(10, 5, 5);
    PowerAdd(10, 10, 10);
  }

  /** No name and no prefix reaches PostgreSQL's length limit, so printing never fails. */
  lemma PrintsAlways(slot: Slot)
    ensures Print(slot) == Success(Name(slot)) && |Name(slot)| <= 55
    ensures ApplyPrefix(slot.pipelineId).Success? && TableSyncPrefix(slot.pipelineId).Success?
  {
    TenToTheTwenty();
    DecimalLength(slot.pipelineId, 20);
    if slot.TableSync? {
      DecimalLength(slot.tableId, 10);
    }
  }

  lemma LastIndexUnique(s: string, c: char, i: nat)
    requires i < |s| && s[i] == c && c !in s[i + 1..]
    ensures LastIndex(s, c) == Some(i)
  {
    assert forall k | i < k < |s| :: s[k] == s[i + 1..][k - i - 1];
  }

  /** Ids without underscores are split at the one between them. */
  lemma SplitIds(a: string, b: string)
    requires '_' !in b
    ensures LastIndex(a + "_" + b, '_') == Some(|a|)
    ensures (a + "_" + b)[..|a|] == a && (a + "_" + b)[|a| + 1..] == b
  {
    var s := a + "_" + b;
    assert s[|a| + 1..] == b;
    LastIndexUnique(s, '_', |a|);
  }

  lemma DigitsOnly(n: nat)
    ensures '_' !in Decimal(n)
  {
    DecimalDigits(n);
  }

  lemma ParseTableSyncName(pipelineId: u64, tableId: u32)
    ensures ParseTableSync("_" + (Decimal(pipelineId) + "_" + Decimal(tableId))) == Some(TableSync(pipelineId, tableId))
  {
    var ids := Decimal(pipelineId) + "_" + Decimal(tableId);
    assert ("_" + ids)[1..] == ids;
    DigitsOnly(tableId);
    SplitIds(Decimal(pipelineId), Decimal(tableId));
    ParseDecimal(pipelineId, U64_MAX);
    ParseDecimal(tableId, U32_MAX);
  }

  lemma ParseApplyName(pipelineId: u64)
    ensures ParseApply("_" + Decimal(pipelineId)) == Some(Apply(pipelineId))
  {
    assert ("_" + Decimal(pipelineId))[1..] == Decimal(pipelineId);
    ParseDecimal(pipelineId, U64_MAX);
  }

  lemma PrefixRest(prefix: string, rest: string)
    ensures prefix <= prefix + rest && (prefix + rest)[|prefix|..] == rest
  {
  }

  lemma PrefixesDiffer(rest: string)
    ensures !(APPLY_WORKER_PREFIX <= TABLE_SYNC_WORKER_PREFIX + rest)
  {
    assert APPLY_WORKER_PREFIX[13] == 'a';
    assert (TABLE_SYNC_WORKER_PREFIX + rest)[13] == TABLE_SYNC_WORKER_PREFIX[13] == 't';
  }

  lemma ParsePrinted(slot: Slot)
    ensures Parse(Name(slot)) == Success(slot)
  {
    match slot
    case Apply(pipelineId) =>
      var rest := "_" + Decimal(pipelineId);
      assert Name(slot) == APPLY_WORKER_PREFIX + rest;
      PrefixRest(APPLY_WORKER_PREFIX, rest);
      ParseApplyName(pipelineId);
    case TableSync(pipelineId, tableId) =>
      var rest := "_" + (Decimal(pipelineId) + "_" + Decimal(tableId));
      assert Name(slot) == TABLE_SYNC_WORKER_PREFIX + rest;
      PrefixesDiffer(rest);
      PrefixRest(TABLE_SYNC_WORKER_PREFIX, rest);
      ParseTableSyncName(pipelineId, tableId);
  }

  /** A slot name written with these texts for its ids. */
  ghost predicate Writes(name: string, pipeline: string, table: string, slot: Slot) {
    && ParseUnsigned(pipeline, 0xFFFF_FFFF_FFFF_FFFF) == Some(slot.pipelineId)
    && match slot
       case Apply(_) => name == APPLY_WORKER_PREFIX + ("_" + pipeline)
       case TableSync(_, tableId) =>
         && name == TABLE_SYNC_WORKER_PREFIX + ("_" + (pipeline + "_" + table))
         && ParseUnsigned(table, 0xFFFF_FFFF) == Some(tableId)
  }

  lemma NoUnderscore(s: string, max: nat)
    requires ParseUnsigned(s, max).Some?
    ensures '_' !in s
  {
    var digits := if s[0] == '+' then s[1..] else s;
    forall i | 0 <= i < |s| ensures s[i] != '_' {
      assert i > 0 || s[0] != '+' ==> IsDigit(digits[i - (|s| - |digits|)]);
    }
  }

  lemma TableSyncExactly(pipeline: string, table: string, slot: Slot)
    requires '_' !in table
    ensures ParseTableSync("_" + (pipeline + "_" + table)) == Some(slot) <==>
            && slot.TableSync?
            && ParseUnsigned(pipeline, U64_MAX) == Some(slot.pipelineId)
            && ParseUnsigned(table, U32_MAX) == Some(slot.tableId)
  {
    var ids := pipeline + "_" + table;
    assert ("_" + ids)[1..] == ids;
    SplitIds(pipeline, table);
  }

  lemma ReadsWritten(name: string, pipeline: string, table: string, slot: Slot)
    requires Writes(name, pipeline, table, slot)
    ensures Parse(name) == Success(slot)
  {
    if slot.Apply? {
      PrefixRest(APPLY_WORKER_PREFIX, "_" + pipeline);
      assert ("_" + pipeline)[1..] == pipeline;
    } else {
      var rest := "_" + (pipeline + "_" + table);
      PrefixesDiffer(rest);
      PrefixRest(TABLE_SYNC_WORKER_PREFIX, rest);
      NoUnderscore(table, U32_MAX);
      TableSyncExactly(pipeline, table, slot);
    }
  }

  lemma HeadTail(s: string)
    requires s != []
    ensures s == [s[0]] + s[1..]
  {
  }

  lemma AroundIndex(s: string, i: nat)
    requires i < |s|
    ensures s == s[..i] + [s[i]] + s[i + 1..]
  {
  }

  lemma ApplyWritten(rest: string, slot: Slot) returns (pipeline: string)
    requires ParseApply(rest) == Some(slot)
    ensures slot.Apply? && rest == "_" + pipeline
    ensures ParseUnsigned(pipeline, U64_MAX) == Some(slot.pipelineId)
  {
    pipeline := rest[1..];
    HeadTail(rest);
  }

  lemma SyncWritten(rest: string, slot: Slot) returns (pipeline: string, table: string)
    requires ParseTableSync(rest) == Some(slot)
    ensures slot.TableSync? && rest == "_" + (pipeline + "_" + table)
    ensures ParseUnsigned(pipeline, U64_MAX) == Some(slot.pipelineId)
    ensures ParseUnsigned(table, U32_MAX) == Some(slot.tableId)
  {
    var ids := rest[1..];
    var i := LastIndex(ids, '_').value;
    pipeline, table := ids[..i], ids[i + 1..];
    HeadTail(rest);
    AroundIndex(ids, i);
  }

  lemma PrefixSplit(name: string, prefix: string)
    requires prefix <= name
    ensures name == prefix + name[|prefix|..]
  {
    SplitAt(name, |prefix|);
  }

  lemma WritesRead(name: string, slot: Slot) returns (pipeline: string, table: string)
    requires Parse(name) == Success(slot)
    ensures Writes(name, pipeline, table, slot)
  {
    if APPLY_WORKER_PREFIX <= name {
      PrefixSplit(name, APPLY_WORKER_PREFIX);
      pipeline := ApplyWritten(name[|APPLY_WORKER_PREFIX|..], slot);
      table := "";
    } else {
      PrefixSplit(name, TABLE_SYNC_WORKER_PREFIX);
      pipeline, table := SyncWritten(name[|TABLE_SYNC_WORKER_PREFIX|..], slot);
    }
  }

  /** The accepted names are exactly a prefix and its ids, each an unsigned number of its width. */
  lemma ParseExactly(name: string, slot: Slot)
    ensures Parse(name) == Success(slot) <==> exists pipeline, table :: Writes(name, pipeline, table, slot)
    ensures Parse(name).Failure? ==> Parse(name).error == InvalidSlotName(name)
  {
    if Parse(name) == Success(slot) {
      var pipeline, table := WritesRead(name, slot);
    }
    if pipeline, table :| Writes(name, pipeline, table, slot) {
      ReadsWritten(name, pipeline, table, slot);
    }
  }

  /** The names as they are written. */
  lemma NameExamples()
    ensures Name(Apply(7)) == "supabase_etl_apply_7"
    ensures Name(TableSync(7, 9)) == "supabase_etl_table_sync_7_9"
  {
    assert Decimal(7) == "7" && Decimal(9) == "9";
  }

  /** Distinct slots have distinct names. */
  lemma NameInjective(a: Slot, b: Slot)
    requires Name(a) == Name(b)
    ensures a == b
  {
    ParsePrinted(a);
    ParsePrinted(b);
  }

  // ---------- the LIKE pattern ----------

  /** SQL `text LIKE pattern ESCAPE '\'`. */
  predicate Like(text: string, pattern: string)
    decreases |pattern| + |text|
  {
    if pattern == [] then text == []
    else if pattern[0] == '\\' then
      |pattern| > 1 && text != [] && text[0] == pattern[1] && Like(text[1..], pattern[2..])
    else if pattern[0] == '%' then Like(text, pattern[1..]) || (text != [] && Like(text[1..], pattern))
    else text != [] && (pattern[0] == '_' || pattern[0] == text[0]) && Like(text[1..], pattern[1..])
  }

  /** Rust's `replace('_', r"\_")`. */
  function EscapeUnderscores(s: string): string {
    if s == [] then "" else (if s[0] == '_' then "\\_" else [s[0]]) + EscapeUnderscores(s[1..])
  }

  function TableSyncLikePattern(pipelineId: u64): Result<string, SlotError> {
    match TableSyncPrefix(pipelineId)
    case Failure(error) => Failure(error)
    case Success(prefix) => Success(EscapeUnderscores(prefix) + "%")
  }

  lemma {:induction false} PercentMatches(text: string)
    ensures Like(text, "%")
  {
    if text == [] {
      assert "%"[1..] == "";
    } else {
      PercentMatches(text[1..]);
    }
  }

  predicate NoWildcards(s: string) {
    '%' !in s && '\\' !in s
  }

  /** An escaped text followed by `%` matches exactly the texts that start with it. */
  lemma {:induction false} EscapedPrefix(text: string, prefix: string)
    requires NoWildcards(prefix)
    ensures Like(text, EscapeUnderscores(prefix) + "%") <==> prefix <= text
  {
    if prefix == [] {
      PercentMatches(text);
      assert EscapeUnderscores(prefix) + "%" == "%";
    } else {
      var rest := EscapeUnderscores(prefix[1..]) + "%";
      var pattern := EscapeUnderscores(prefix) + "%";
      if prefix[0] == '_' {
        assert pattern == "\\_" + rest && pattern[2..] == rest;
      } else {
        assert pattern == [prefix[0]] + rest && pattern[1..] == rest;
      }
      if text != [] {
        EscapedPrefix(text[1..], prefix[1..]);
        assert text == [text[0]] + text[1..] && prefix == [prefix[0]] + prefix[1..];
      }
    }
  }

  lemma PrefixIsPlain(pipelineId: u64)
    ensures NoWildcards(TableSyncName(pipelineId))
  {
    var digits := Decimal(pipelineId);
    DecimalDigits(pipelineId);
    assert forall i | 0 <= i < |digits| :: IsDigit(digits[i]);
    assert NoWildcards(TABLE_SYNC_WORKER_PREFIX) && NoWildcards("_");
  }

  /** The pattern of a pipeline matches exactly the names with its prefix. */
  lemma PatternIsPrefix(pipelineId: u64, name: string)
    ensures TableSyncLikePattern(pipelineId).Success?
    ensures Like(name, TableSyncLikePattern(pipelineId).value) <==> TableSyncName(pipelineId) <= name
  {
    PrintsAlways(Apply(pipelineId));
    PrefixIsPlain(pipelineId);
    EscapedPrefix(name, TableSyncName(pipelineId));
  }

  function LeadingDigits(s: string): nat {
    if s != [] && IsDigit(s[0]) then 1 + LeadingDigits(s[1..]) else 0
  }

  lemma {:induction false} CountDigits(a: string, rest: string)
    requires AllDigits(a)
    ensures LeadingDigits(a + "_" + rest) == |a|
  {
    if a != [] {
      CountDigits(a[1..], rest);
      assert (a + "_" + rest)[1..] == a[1..] + "_" + rest;
    }
  }

  lemma SplitDigits(a: string, b: string, rest: string)
    requires AllDigits(a) && AllDigits(b) && a + "_" <= b + "_" + rest
    ensures a == b
  {
    var s := b + "_" + rest;
    var rest' := s[|a| + 1..];
    assert s == a + "_" + rest';
    CountDigits(a, rest');
    CountDigits(b, rest);
    assert a == s[..|a|] == s[..|b|] == b;
  }

  lemma CommonPrefix(prefix: string, a: string, b: string)
    requires prefix + a <= prefix + b
    ensures a <= b
  {
    assert a == (prefix + a)[|prefix|..] && b == (prefix + b)[|prefix|..];
  }

  /** Printed names with the prefix of a pipeline are the table-sync names of that pipeline. */
  lemma PrefixOfName(pipelineId: u64, slot: Slot)
    ensures TableSyncName(pipelineId) <= Name(slot) <==> slot.TableSync? && slot.pipelineId == pipelineId
  {
    match slot
    case Apply(other) =>
      assert TABLE_SYNC_WORKER_PREFIX[13] == 't' && TableSyncName(pipelineId)[13] == 't';
      assert APPLY_WORKER_PREFIX[13] == 'a' && Name(slot)[13] == 'a';
    case TableSync(other, tableId) =>
      var head := TABLE_SYNC_WORKER_PREFIX + "_";
      assert TableSyncName(pipelineId) == head + (Decimal(pipelineId) + "_");
      assert Name(slot) == head + (Decimal(other) + "_" + Decimal(tableId));
      if TableSyncName(pipelineId) <= Name(slot) {
        DecimalDigits(pipelineId);
        DecimalDigits(other);
        CommonPrefix(head, Decimal(pipelineId) + "_", Decimal(other) + "_" + Decimal(tableId));
        SplitDigits(Decimal(pipelineId), Decimal(other), Decimal(tableId));
        DecimalInjective(pipelineId, other);
      }
  }

  /** The pattern selects a printed slot exactly when it is a table-sync slot of the pipeline. */
  lemma PatternSelects(pipelineId: u64, slot: Slot)
    ensures TableSyncLikePattern(pipelineId).Success?
    ensures Like(Name(slot), TableSyncLikePattern(pipelineId).value) <==>
            slot.TableSync? && slot.pipelineId == pipelineId
  {
    PatternIsPrefix(pipelineId, Name(slot));
    PrefixOfName(pipelineId, slot);
  }

  lemma ParsedIds(digits: string, rest: string, slot: Slot)
    requires digits != [] && ParseTableSync("_" + (digits + "_" + rest)) == Some(slot)
    ensures slot.TableSync? && ParseUnsigned(digits, U64_MAX) == Some(slot.pipelineId)
  {
    var ids := digits + "_" + rest;
    assert ("_" + ids)[1..] == ids;
    if '_' in rest {
      ThreeIds(digits, rest);
      assert false;
    } else {
      SplitIds(digits, rest);
    }
  }

  lemma ThreeIds(digits: string, rest: string)
    requires digits != [] && '_' in rest
    ensures var i := LastIndex(digits + "_" + rest, '_');
            i.Some? && ParseUnsigned((digits + "_" + rest)[..i.value], U64_MAX).None?
  {
    var ids, k := digits + "_" + rest, LastIndex(rest, '_').value;
    var i := |digits| + 1 + k;
    assert ids[i] == '_' && ids[i + 1..] == rest[k + 1..];
    LastIndexUnique(ids, '_', i);
    UnderscoreInside(ids[..i], |digits|);
  }

  lemma UnderscoreInside(s: string, i: nat)
    requires 0 < i < |s| && s[i] == '_'
    ensures ParseUnsigned(s, U64_MAX).None?
  {
    var digits := if s[0] == '+' then s[1..] else s;
    assert digits[i - (|s| - |digits|)] == '_';
  }

  /** Whatever name the pattern selects, if it is a slot name at all, it belongs to the pipeline. */
  lemma PatternIsSafe(pipelineId: u64, name: string, slot: Slot)
    requires TableSyncLikePattern(pipelineId).Success?
    requires Like(name, TableSyncLikePattern(pipelineId).value) && Parse(name) == Success(slot)
    ensures slot.TableSync? && slot.pipelineId == pipelineId
  {
    PatternIsPrefix(pipelineId, name);
    PrefixIsSafe(pipelineId, name, slot);
  }

  lemma PrefixIsSafe(pipelineId: u64, name: string, slot: Slot)
    requires TableSyncName(pipelineId) <= name && Parse(name) == Success(slot)
    ensures slot.TableSync? && slot.pipelineId == pipelineId
  {
    var rest := name[|TableSyncName(pipelineId)|..];
    NameAfterPrefix(pipelineId, name, rest);
    ParseSyncName(name, "_" + (Decimal(pipelineId) + "_" + rest), slot);
    DecimalDigits(pipelineId);
    ParsedIds(Decimal(pipelineId), rest, slot);
    ParseDecimal(pipelineId, U64_MAX);
  }

  lemma NameAfterPrefix(pipelineId: u64, name: string, rest: string)
    requires TableSyncName(pipelineId) <= name && rest == name[|TableSyncName(pipelineId)|..]
    ensures name == TABLE_SYNC_WORKER_PREFIX + ("_" + (Decimal(pipelineId) + "_" + rest))
  {
    SplitAt(name, |TableSyncName(pipelineId)|);
    Regroup(TABLE_SYNC_WORKER_PREFIX, Decimal(pipelineId), rest);
  }

  lemma Regroup(head: string, digits: string, rest: string)
    ensures head + "_" + digits + "_" + rest == head + ("_" + (digits + "_" + rest))
  {
  }

  lemma ParseSyncName(name: string, ids: string, slot: Slot)
    requires name == TABLE_SYNC_WORKER_PREFIX + ids && Parse(name) == Success(slot)
    ensures ParseTableSync(ids) == Some(slot)
  {
    PrefixesDiffer(ids);
    PrefixRest(TABLE_SYNC_WORKER_PREFIX, ids);
  }
}
