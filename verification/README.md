# Verified core of a PostgreSQL replication pipeline

This project models the parts of an extract-and-load pipeline that decide what a destination ends up with, and proves
what they promise. It is written for Dafny 4.11; `dafny verify dfyconfig.toml` covers every file.

## What is modelled

**Schema changes** (`Columns`, `SchemaDiff`, `Execution`, `RenameGraph`, `RenamePhase`, `Planner`, `FewestRenames`,
`RenameLoop`, `SchemaPlanning`). Two replicated schemas are diffed by a merge over ordinals. A planner object turns the
diff into drops, renames, additions and other alterations. The rename loop works off requests whose target name is free
and breaks each cycle with one temporary name. Execution of the operations is defined independently of the planner: every step must find
the column it expects, in exactly the expected state, and may not introduce a name in use. The main results are about
all pairs of schemas: planning fails exactly when an endpoint has colliding destination names, the plan executes from
the before table and reaches the after table up to primary-key places, the rename loop cannot fail or run forever,
there is one extra rename per cycle of the rename graph, no other way needs fewer renames, and no prefix of the plan
has a name clash, not even after the destination's own case folding.

**Destination runs** (`PhysicalExecution`, `Destination`). A BigQuery table is created, changed, truncated, cleaned up
and written to in any order, with a crash possible between any two effects. A truncation makes a new version of the
table, and a view follows. Destinations may keep other column metadata than a plan asks for. In every reachable state
the durable metadata tells the truth about the physical columns and their names, and the history of events tells
which rows are accepted.

**Recovery** (`ColumnLayout`, `PlanProgress`, `MetadataReplay`, `Recovery`). ClickHouse keeps columns in a physical
order and completes interrupted changes by looking at the names that are present. The order is right at every point of
every plan, the names decide exactly how far a change got, and running metadata alterations again does no harm.

**NUMERIC values** (`Numeric`, `NumericParser`, `NumericReader`, `NumericPrinter`, `NumericText`, `NumericForm`,
`NumericRoundTrip`, `NumericWire`). The parser's loops, with their fixed-width counters, refine scanners over the remaining text. A
grammar of numerals, given as syntax trees with a rendering, says which texts are accepted and which number each one
denotes. Printing is specified by the decimal expansion and by the plain form of its text, the binary form by the
bytes of a value.

**Column defaults** (`DefaultExpression`, `DefaultLayers`, `DefaultUnwrap`, `DefaultParsing`, `DefaultTypes`).
Normalization takes casts and parentheses off a default. Wrapped defaults are syntax trees around a core; normalization
is compared with what the tree holds, in both directions. A grammar of type names says which casts come off.

**Names and startup** (`TableNames`, `Slots`, `Startup`, `Retry`, `Snapshots`). Destination table names and
replication slot names with their decoders, the startup procedure as a sequence of durable writes that may stop
anywhere, the retry loop, and the LSN orderings. `Integers`, `Text` and `Finite` hold shared helpers.

## Where the code and its promises differ

- The plan does not carry changes of a column's place in the primary key. `SchemaPlanning.PlanConverges` states
  exactly when the after table is reached with that field included, and `SchemaPlanning.PrimaryKeyExample` misses it.
- Printing a NUMERIC value counts groups in 16 bits and the counter wraps, because release builds do not check
  overflow. Parse, print, parse is the identity exactly for values of at most 32768 groups
  (`NumericRoundTrip.TextRoundTrip`); `NumericRoundTrip.LostDigit` gives a text beyond that. A build that checks
  overflow stops exactly when `NumericPrinter.CounterOverflows` holds, which `NumericPrinter.Format` reports; where it
  does not stop the round trip holds (`NumericRoundTrip.CheckedTextRoundTrip`), and it also stops on values that a
  wrapping build prints correctly (`NumericRoundTrip.HarmlessOverflow`).
- A default that casts a cast, or an operation, without parentheses in between keeps the cast and is not parsed
  (`DefaultParsing.UnwrapsExactly`, `DefaultParsing.WrappedDefault`, `DefaultParsing.DoubleCastExample`,
  `DefaultParsing.OperationExample`).
- A startup that stops between deleting a table's state and deleting its slot leaves a slot that later startups do
  not remove (`Startup.OrphanExample`, `Startup.OrphanSlotStays`). With `n` new entries in the published list and `g`
  tables that left it, this happens exactly for `n < writes < n + 2 * g` with `writes - n` odd, if the table visited
  then has a slot (`Startup.StoppedAt`, in the contract of `Startup.Pipeline.InitializeTableStates`);
  `Startup.OrphansOfRun` counts the slots over restarts. The source calls this cleanup best-effort.
- The rename loop ends for every pair of schemas, but not for every diff that `plan_for_column_names` takes. If a
  wanted name is held by a column outside the diff, the loop reports it or runs forever; `RenameLoop.LoopOutcome`
  states which, and `RenameLoop.EndlessExample` never ends.
- An exponent beyond the parser's guard is reported as out of range even if the rest of the text is malformed.
  `NumericText.AcceptsExactly` and `NumericText.TextAcceptsExactly` state exactly which texts get which error, and
  `NumericText.MalformedOutOfRange` gives one.
- A zero whose exponent is beyond that guard is reported as out of range although zero fits every limit
  (`NumericText.ZeroOutOfRange`). Zeros are the only such texts: `NumericText.GuardHarmless` shows that the guard
  refuses no other number within the limits.

## Model

| member | source | states |
|---|---|---|
| `SchemaDiff.ComputeDiff` | crates/etl/src/schema.rs:699-795 | the merge loop yields exactly the added, dropped and altered columns by ordinal, in ascending order; the reason is a mask change exactly when a column of the other full table, replicated or not, has the ordinal |
| `Columns.SelectedPlaces` | crates/etl/src/schema.rs:587-594 | the replicated columns stand at strictly increasing places of the table, exactly those whose mask entry is 1 |
| `Columns.ReplicatedExactly` | crates/etl/src/schema.rs:587-594 | a column is replicated exactly when the table lists it at a place whose mask entry is 1 |
| `Columns.DestinationExactly` | crates/etl/src/schema.rs:587-594 | the destination columns are exactly those replicated columns, each under its ordinal with its mapped name |
| `Columns.FoldsExactly` | crates/etl/src/schema.rs:386-397 | two names are equivalent exactly when they are equal, equal after lowercasing, or equal up to the case of ASCII letters |
| `SchemaDiff.DiffIgnoresListing` | crates/etl/src/schema.rs:699-795 | two schemas that list the same columns in different orders have the same diff |
| `SchemaDiff.EmptyDiff` | crates/etl/src/schema.rs:1252-1256 | the diff is empty exactly when the two replicated column maps are equal |
| `Execution.PrefixesExecute` | crates/etl/src/schema.rs:1940-2008 | if a list of operations executes, so does every prefix, and no prefix leaves two columns with one name |
| `Execution.EraseExecute` | crates/etl/src/schema.rs:997-1001 | executing without primary-key metadata simulates executing with it |
| `RenameGraph.ClosedIsPermutation` | crates/etl/src/schema.rs:1631-1645 | requests whose targets are all owned by requests among them permute their names |
| `RenameGraph.CycleThrough` | crates/etl/src/schema.rs:1631-1645 | every request in a closed set lies on a cycle inside that set |
| `RenameGraph.CyclesDisjoint` | crates/etl/src/schema.rs:1631-1645 | two cycles that share a request are one cycle |
| `RenameGraph.HasCycle` | crates/etl/src/schema.rs:1414-1418 | there is a cycle exactly when some non-empty set of requests is closed |
| `RenamePhase.ReadyStep` | crates/etl/src/schema.rs:1604-1629 | a ready rename can be executed and keeps the invariant of the rename loop |
| `RenamePhase.StuckIsPermutation` | crates/etl/src/schema.rs:1631-1645 | when nothing is ready, the pending renames only trade names among themselves, so no after-name is blocked |
| `RenamePhase.BreakStep` | crates/etl/src/schema.rs:1647-1677 | a move to a temporary name can be executed, keeps the invariant, belongs to a cycle not broken before and readies a pending rename |
| `RenamePhase.Finished` | crates/etl/src/schema.rs:1603-1681 | when nothing is pending every shared column has its after name and exactly the cycles were broken |
| `Planner.TemporaryNameInjective` | crates/etl/src/schema.rs:1648-1651 | temporary names of one ordinal differ in their sequence number |
| `Planner.TemporaryNameForm` | crates/etl/src/schema.rs:1648-1651 | two temporary names as they are written |
| `Planner.FreshTemporaryName` | crates/etl/src/schema.rs:1647-1655 | the search ends, with the first unreserved name from the given sequence number on |
| `Planner.CollectUniqueColumnNames` | crates/etl/src/schema.rs:1446-1468 | succeeds exactly when no two names are equivalent under the mapping, and then holds every mapped name; otherwise reports a colliding pair of the endpoint |
| `Planner.CollectPending` | crates/etl/src/schema.rs:1568-1600 | the pending renames are the alterations whose mapped names differ, with the reverse lookup by after-name |
| `Planner.SchemaOperationPlanner.constructor` | crates/etl/src/schema.rs:1531-1538 | starts with no operations in the given namespaces |
| `Planner.SchemaOperationPlanner.PlanDrops` | crates/etl/src/schema.rs:1551-1559 | emits the drops in order, executes on the table and frees exactly their names |
| `Planner.SchemaOperationPlanner.PlanRenames` | crates/etl/src/schema.rs:1562-1681 | never fails; the emitted renames execute, give every column its after name, and number one per request plus one per cycle, each cycle with a temporary name of its own |
| `Planner.SchemaOperationPlanner.RunReady` | crates/etl/src/schema.rs:1604-1629 | one ready rename: the source's bookkeeping follows the invariant |
| `Planner.SchemaOperationPlanner.BreakCycle` | crates/etl/src/schema.rs:1634-1677 | one cycle break: never reports a blocked name, and makes progress |
| `Planner.SchemaOperationPlanner.PlanAdditions` | crates/etl/src/schema.rs:1684-1693 | emits the additions in order; each name is free when it is added |
| `Planner.SchemaOperationPlanner.PlanAlterations` | crates/etl/src/schema.rs:1696-1737 | emits exactly one alteration for each changed type, nullability or default; they execute and bring every altered column to its after state, primary key aside |
| `Planner.SchemaOperationPlanner.PlanAlteration` | crates/etl/src/schema.rs:1698-1735 | the same for one column |
| `Planner.SchemaOperationPlanner.PushAlteration` | crates/etl/src/schema.rs:1748-1756 | appends one alteration that changes only the field its kind names |
| `Planner.SchemaOperationPlanner.Plan` | crates/etl/src/schema.rs:1541-1548 | the four phases together execute from the before table to the reached table, in phase order |
| `SchemaPlanning.PlanSchemaChange` | crates/etl/src/schema.rs:816-822 | succeeds exactly when both endpoints have unique destination names and then returns a correct plan; otherwise names the first two colliding columns of the first bad endpoint |
| `SchemaPlanning.PlanConverges` | crates/etl/src/schema.rs:1940-2008 | executing the plan reaches the after columns up to primary-key places, and reaches them exactly if and only if no shared column changes that place |
| `SchemaPlanning.PrimaryKeyExample` | crates/etl/src/schema.rs:1696-1737 | two schemas between which a shared column enters the primary key, and whose plan misses the after table |
| `SchemaPlanning.PlanRenamesLeast` | crates/etl/src/schema.rs:1631-1678 | no list of operations that keeps the shared columns and reaches the same table has fewer renames than the plan |
| `FewestRenames.FirstMover` | crates/etl/src/schema.rs:1631-1633 | whatever the operations, the first column of a cycle to be renamed is renamed twice |
| `FewestRenames.AtLeast` | crates/etl/src/schema.rs:1414-1418 | any way to the wanted names takes one rename per request and one more per cycle |
| `RenameLoop.LoopOutcome` | crates/etl/src/schema.rs:1603-1678 | for requests that do not account for every name in use: the loop succeeds exactly if none leads to a name held outside; else it reports the least that does if that one waits directly, and otherwise never ends; it never finds a ready rename that is not pending |
| `RenameLoop.NoneDoomed` | crates/etl/src/schema.rs:1604-1645 | some request leads to a name held outside exactly if one wants such a name |
| `RenameLoop.EndlessExample` | crates/etl/src/schema.rs:1648-1676 | two renames on which the loop never ends |
| `SchemaPlanning.PlanSafeWhenInterrupted` | crates/etl/src/schema.rs:1400-1412 | every prefix of the plan executes and leaves distinct names |
| `SchemaPlanning.PlanNamesFolded` | crates/etl/src/schema.rs:384-405 | at every prefix no two live names are equivalent under the destination's mapping, for mappings that fix folded and temporary names |
| `SchemaPlanning.BuiltInMappingsFold` | crates/etl/src/schema.rs:391-398 | the identity and ASCII mappings are idempotent and leave temporary names as they are |
| `SchemaPlanning.RenameCyclesDetected` | crates/etl/src/schema.rs:1418-1441 | a rename cycle is reported exactly when some non-empty set of renames is closed under name ownership |
| `Destination.EnsureRelationSchemaTransition` | crates/etl-destinations/src/recovery.rs:40-79 | accepts exactly a later snapshot, or the applied snapshot with the applied mask |
| `Destination.RowsAcceptedExactly` | crates/etl-destinations/src/recovery.rs:87-113 | in every state of every run, rows of a schema are accepted exactly if it was completed by the last creation or schema change and nothing has been started since |
| `Destination.BigQueryDestination.HandleRelationEvent` | crates/etl-destinations/src/bigquery/core.rs:735-870 | plans exactly the relations that are newer, representable and not refused; for every crash point the state is that of the effects made so far, and a change whose effects all happen is completed, with the view on the table |
| `Destination.BigQueryDestination.ApplyPlan` | crates/etl-destinations/src/bigquery/core.rs:824-858 | announces the change, runs a prefix of the operations, sets the view and records the schema, stopping after any of these effects |
| `Destination.BigQueryDestination.PrepareTableForWrites` | crates/etl-destinations/src/bigquery/core.rs:464-570 | resolves, resumes or creates the table up to any crash point, and ends with the view on the recorded version |
| `Destination.BigQueryDestination.ProcessTruncate` | crates/etl-destinations/src/bigquery/core.rs:1188-1272 | creates the next version, shows it and records it, up to any crash point; the same rows are accepted afterwards |
| `Destination.BigQueryDestination.NextVersion` | crates/etl-destinations/src/bigquery/core.rs:1223-1238 | the first version after the recorded one that no table has, however many earlier attempts left |
| `PhysicalExecution.ShapeExecute` | crates/etl-destinations/src/bigquery/core.rs:903-1012 | whatever metadata a destination keeps or skips, a list of operations that executes leaves the columns and names it should; an exact destination leaves exactly the table |
| `PhysicalExecution.PhysicalPrefixSafe` | crates/etl-destinations/src/bigquery/core.rs:903-1012 | operations that run, in any destination, never leave two columns with one name |
| `PhysicalExecution.RunOperations` | crates/etl-destinations/src/bigquery/core.rs:903-1012 | runs exactly the first operations that the budget allows |
| `Destination.CompletePlanReaches` | crates/etl-destinations/src/bigquery/core.rs:840-858 | a completely executed plan leaves the columns of the new schema under their names, and their exact metadata if the destination keeps it |
| `Destination.RunInvariant` | crates/etl-destinations/src/bigquery/core.rs:735-870 | in every state of every run, truncations, cleanups and crashes included, metadata marked as applied has its columns in the recorded version, and snapshots and versions never go back |
| `Destination.ViewNeverDangles` | crates/etl-destinations/src/bigquery/core.rs:1249-1318 | in every state of every run the view shows a version that exists and is not older than the recorded one, although cleanup runs beside everything else |
| `Destination.RowsFitTheTable` | crates/etl-destinations/src/bigquery/core.rs:475-494 | whenever rows are accepted the table has exactly the columns of their schema under their names, for every destination; an exact destination has exactly the table |
| `Destination.TableNeverClashes` | crates/etl-destinations/src/bigquery/core.rs:824-850 | in every state of every run, crashed schema changes included, no version of the table has two columns of one name |
| `ColumnLayout.PlaceStep` | crates/etl-destinations/src/clickhouse/core.rs:1277-1380 | one operation keeps the tracked names those of the columns in ordinal order, wherever the insertion rule puts a new column |
| `Recovery.PlanKeepsOrder` | crates/etl-destinations/src/clickhouse/core.rs:1266-1380 | however far a plan has run, rename cycles included, the columns are in ordinal order, and a complete plan leaves the physical order of the after schema |
| `PlanProgress.PlanMovesOnce` | crates/etl/src/schema.rs:1540-1548 | if no name changes hands, a plan moves every column at most once, straight from its old name to its new one |
| `PlanProgress.AtOldNames` | crates/etl-destinations/src/clickhouse/core.rs:276-279 | after any structural operation the names differ from the old ones |
| `PlanProgress.AtNewNames` | crates/etl-destinations/src/clickhouse/core.rs:280-281 | before the last structural operation the names differ from the new ones |
| `Recovery.NothingStructural` | crates/etl-destinations/src/clickhouse/core.rs:961-968 | a plan has structural work exactly if some column changes its name or presence |
| `Recovery.ClassifiesExactly` | crates/etl-destinations/src/clickhouse/core.rs:283-318 | after any number of operations of any plan the names alone tell whether nothing, everything structural or a part has happened; a change is ambiguous exactly when a replicated column of the after schema maps to the name of an old column with another ordinal and there is something structural to do |
| `Recovery.ReuseByLookup` | crates/etl-destinations/src/clickhouse/core.rs:945-960 | looking names up in the map from old names to ordinals finds a reused name exactly when some pair of columns shares a mapped name under different ordinals |
| `Recovery.GuardNeeded` | crates/etl-destinations/src/clickhouse/core.rs:292-303 | two schemas with the same names although every column changes: without the guard recovery would call the change done |
| `Recovery.ApplySchemaPlan` | crates/etl-destinations/src/clickhouse/core.rs:1256-1440 | runs exactly the first operations that the budget allows, on the table and on the tracked names |
| `PlanProgress.PlansAgree` | crates/etl-destinations/src/clickhouse/core.rs:933 | two plans for one change have the same diff, length, structural length and metadata part, so a recomputed plan fits a change that another one began |
| `MetadataReplay.PhasesComplete` | crates/etl-destinations/src/clickhouse/core.rs:238-243 | in a destination that keeps metadata exactly, running a plan to its end leaves exactly the after columns, whichever alterations had already run |
| `Recovery.MetadataSuffix` | crates/etl-destinations/src/clickhouse/core.rs:243-272 | the plan for what is left at the target is exactly the part of the whole plan that follows its structural part |
| `Recovery.InterruptionLeaves` | crates/etl-destinations/src/clickhouse/core.rs:1248-1380 | running any part of a plan on a table of the before schema leaves an interrupted change at that point |
| `Recovery.RecoverPendingChange` | crates/etl-destinations/src/clickhouse/core.rs:894-1010 | refuses exactly the ambiguous changes and those stopped among the structural operations; from the start it runs the whole plan and from the target what follows its structural operations, as far as the budget allows, and completes exactly if it suffices; complete, the names and the physical order are those of the new schema, and so is the metadata if the destination keeps it; what a crash leaves is again an interrupted change, which can be completed exactly if it is at the start or past the structural operations |
| `Recovery.RecoverKeptNames` | crates/etl-destinations/src/clickhouse/core.rs:945-1010 | a change in which every shared name keeps its ordinal is never refused as ambiguous; stopped at the start or past its structure, it is completed by a run that is long enough |
| `Numeric.CanonicalUnique` | crates/etl-postgres/src/numeric.rs:404-458 | two canonical values with the same groups are the same value |
| `Numeric.EncodeGroups` | crates/etl-postgres/src/numeric.rs:404-458 | the groups of the value are the aligned groups of the decimal, with non-zero ends and a normalized zero |
| `Numeric.EncodeValue` | crates/etl-postgres/src/numeric.rs:404-458 | the sum of the groups times powers of 10000 is the number the decimal writes |
| `NumericParser.ConvertToBase10000` | crates/etl-postgres/src/numeric.rs:404-458 | no 32-bit intermediate overflows; succeeds exactly when scale and weight fit, with the encoded decimal |
| `NumericParser.FillGroups` | crates/etl-postgres/src/numeric.rs:438-455 | the group loop writes the aligned groups |
| `NumericParser.ParseRender` | crates/etl-postgres/src/numeric.rs:276-396 | reading a rendered numeral gives exactly what the numeral denotes |
| `NumericParser.ParseSound` | crates/etl-postgres/src/numeric.rs:276-396 | every accepted text is the rendering of a numeral that denotes the result |
| `NumericParser.ParsePastGuard` | crates/etl-postgres/src/numeric.rs:354-366 | a numeral whose exponent is past the guard is out of range, whatever text follows it |
| `NumericParser.OutOfRangeSound` | crates/etl-postgres/src/numeric.rs:354-395 | every text out of range is a numeral outside the limits or starts with one whose exponent is past the guard |
| `NumericReader.ReadMantissa` | crates/etl-postgres/src/numeric.rs:297-329 | the mantissa loop follows the scanner and its counters follow the digits |
| `NumericReader.ReadExponent` | crates/etl-postgres/src/numeric.rs:349-375 | the exponent loop follows the scanner and stays within the guard |
| `NumericReader.ReadSuffix` | crates/etl-postgres/src/numeric.rs:331-383 | the exponent with its marker and sign follows the scanner |
| `NumericReader.ParseNumericValue` | crates/etl-postgres/src/numeric.rs:276-396 | the byte parser computes what the scanners define, without overflow |
| `NumericText.FromStr` | crates/etl-postgres/src/numeric.rs:111-134 | the entry point computes the text reading of signs, special values and numerals |
| `Text.WhitespaceExactly` | crates/etl-postgres/src/numeric.rs:112 | the characters trimmed around a text are exactly Unicode's 25 whitespace characters |
| `NumericText.AcceptsExactly` | crates/etl-postgres/src/numeric.rs:276-396 | the accepted texts are exactly the numerals within the limits, each read as its exact number at its scale; a text is malformed exactly when it is no numeral and does not start with one past the guard |
| `NumericText.LimitsExact` | crates/etl-postgres/src/numeric.rs:390-395 | a numeral has a value exactly when it is below 10^131072, shows at most 16383 places and its exponent is within the guard; the guard is tied to the limits by `GuardHarmless` |
| `NumericText.LimitsInNumbers` | crates/etl-postgres/src/numeric.rs:354-395 | for texts below 2^29 characters: a numeral has a value exactly when it is below 10^131072 and shows at most 16383 places, unless it is a zero with an exponent above 2^30 - 1 |
| `NumericText.GuardHarmless` | crates/etl-postgres/src/numeric.rs:354-366 | the guard on the exponent refuses only what the limits of scale and size refuse, or a zero with an exponent above 2^30 - 1 |
| `NumericText.ZeroOutOfRange` | crates/etl-postgres/src/numeric.rs:354-366 | a text for zero that the guard refuses |
| `NumericText.TextAcceptsExactly` | crates/etl-postgres/src/numeric.rs:111-134 | the same for whole texts with signs and whitespace, for acceptance, meaning and the out-of-range error |
| `NumericText.MalformedOutOfRange` | crates/etl-postgres/src/numeric.rs:359-365 | a text that is no numeral and yet is called out of range |
| `NumericText.EvaluateMeans` | crates/etl-postgres/src/numeric.rs:377-396 | the value of a numeral equals its mantissa times ten to its exponent, canonically |
| `NumericText.ParsedPresentable` | crates/etl-postgres/src/numeric.rs:381-395 | parsed values are canonical, have a scale of at most 16383 and no digit below it |
| `NumericText.SpecialTexts` | crates/etl-postgres/src/numeric.rs:246-267 | NaN comes exactly from its unsigned word, infinities exactly from their words with an optional sign |
| `NumericPrinter.Format` | crates/etl-postgres/src/numeric.rs:460-558 | for every value: prints the groups that the wrapping counter reaches, and tells exactly when a build that checks arithmetic would have stopped |
| `NumericPrinter.ShownExpands` | crates/etl-postgres/src/numeric.rs:478-558 | a value with groups below 10000 is printed as its decimal expansion |
| `NumericPrinter.FormatWhole` | crates/etl-postgres/src/numeric.rs:504-528 | the whole part is the text of the groups down to the units, the first without leading zeros |
| `NumericPrinter.FormatFraction` | crates/etl-postgres/src/numeric.rs:530-555 | the fraction is cut at the scale, and the counter overflows exactly when the weight and the groups of the scale pass 16 bits |
| `NumericForm.DisplayForm` | crates/etl-postgres/src/numeric.rs:478-558 | every canonical value is printed as a plain decimal: a minus sign only if negative, a whole part without needless leading zeros, exactly as many places as its scale, and the digits of its expansion |
| `NumericForm.StaysExactly` | crates/etl/src/fuzzing.rs:113-125 | parsing any text and printing the value gives the text back exactly for the three special names and for plain decimals, without a sign on zero, of at most 32768 groups |
| `NumericRoundTrip.Reread` | crates/etl-postgres/src/numeric.rs:276-558 | reading a printed expansion gives the canonical value with the same groups and scale |
| `NumericRoundTrip.RoundTrip` | crates/etl-postgres/src/numeric.rs:478-558 | for every value whatever, printing then parsing is the identity exactly when the value is one that parsing can give and has at most 32768 groups |
| `NumericRoundTrip.TextRoundTrip` | crates/etl/src/fuzzing.rs:113-125 | the same for every text that parses |
| `NumericRoundTrip.PrintingIsStable` | crates/etl/src/fuzzing.rs:113-125 | printing what was read back gives the same text, whether or not groups were lost |
| `NumericRoundTrip.LostDigit` | crates/etl-postgres/src/numeric.rs:535-554 | a text whose last digit is lost by printing |
| `NumericRoundTrip.CheckedRoundTrip` | crates/etl-postgres/src/numeric.rs:530-555 | where the counter does not overflow, printing then parsing is the identity |
| `NumericRoundTrip.CheckedTextRoundTrip` | crates/etl/src/fuzzing.rs:113-125 | the same for every text that parses |
| `NumericRoundTrip.HarmlessOverflow` | crates/etl-postgres/src/numeric.rs:535-553 | a text on which the counter overflows although its value round-trips when it wraps |
| `NumericWire.ToSql` | crates/etl-postgres/src/numeric.rs:178-207 | appends the image of the value, and fails exactly when the group count exceeds 16 bits |
| `NumericWire.ImageForm` | crates/etl-postgres/src/numeric.rs:178-207 | the bytes of a finite value: its counts and groups as big-endian two's-complement words, and the sign bytes 00 00 or 40 00 |
| `NumericWire.HeaderForm` | crates/etl-postgres/src/numeric.rs:178-202 | the eight bytes of NaN and of the infinities |
| `NumericWire.FromSql` | crates/etl-postgres/src/numeric.rs:137-171 | the cursor computes the wire reading, errors included |
| `NumericWire.WireRoundTrip` | crates/etl-postgres/src/numeric.rs:137-207 | a written value is read back, whatever follows it |
| `NumericWire.ReadsExactly` | crates/etl-postgres/src/numeric.rs:137-171 | bytes are read as a finite value exactly when they start with its image |
| `NumericWire.ReadsSpecials` | crates/etl-postgres/src/numeric.rs:149-161 | NaN and the infinities are read exactly from their sign words, whatever else the bytes hold |
| `NumericWire.RejectsExactly` | crates/etl-postgres/src/numeric.rs:137-171 | bytes are rejected exactly for a sign word other than 0000, 4000, C000, D000 and F000, or for ending too early |
| `NumericWire.PresentableGroups` | crates/etl-postgres/src/numeric.rs:381-395 | parsed values have at most 36864 groups and a weight of at least -4096 |
| `NumericWire.TextOverWire` | crates/etl-postgres/src/numeric.rs:108-207 | every parsed text can be sent and comes back as the same value |
| `DefaultExpression.StringLiteralEnd` | crates/etl-postgres/src/default_expression.rs:284-304 | finds the closing quote, with doubled quotes as content |
| `DefaultExpression.TopLevelCastStart` | crates/etl-postgres/src/default_expression.rs:132-181 | finds the first cast outside of parentheses and literals |
| `DefaultExpression.HasTopLevelBinaryOperator` | crates/etl-postgres/src/default_expression.rs:231-272 | finds an operator outside of parentheses and literals, a leading sign aside |
| `DefaultExpression.ScanOuterParens` | crates/etl-postgres/src/default_expression.rs:354-397 | decides whether the first parenthesis is closed by the last character |
| `DefaultExpression.TakeOffParens` | crates/etl-postgres/src/default_expression.rs:348-404 | takes off one pair of parentheses around the whole expression |
| `DefaultExpression.TakeOffCast` | crates/etl-postgres/src/default_expression.rs:91-129 | takes off one cast to a type name from a subject that is no operation |
| `DefaultExpression.StripShrinks` | crates/etl-postgres/src/default_expression.rs:67-81 | a rewrite changes nothing or shortens the expression, so the first guard cannot be reached |
| `DefaultExpression.NormalizePostgresExpression` | crates/etl-postgres/src/default_expression.rs:62-88 | ends at a fixed point within its budget; a guard is hit exactly for blank input |
| `DefaultExpression.NormalizeIdempotent` | crates/etl-postgres/src/default_expression.rs:62-88 | normalization is idempotent |
| `DefaultExpression.UnquoteExact` | crates/etl-postgres/src/default_expression.rs:221-228 | unquoting is the exact inverse of quoting by doubling |
| `DefaultLayers.NormalizeLayers` | crates/etl-postgres/src/default_expression.rs:62-129 | every expression is its normal form wrapped in whitespace, parentheses and casts |
| `DefaultUnwrap.SettleRender` | crates/etl-postgres/src/default_expression.rs:62-129 | normalization takes off every layer down to the core or to the outermost cast that stands on a cast or an operation |
| `DefaultParsing.UnwrapsExactly` | crates/etl-postgres/src/default_expression.rs:91-181 | a wrapped core is recovered exactly when no cast stands directly on a cast or on an operation |
| `DefaultParsing.DoubleCastExample` | crates/etl-postgres/src/default_expression.rs:91-129 | a cast on a cast that is kept |
| `DefaultParsing.OperationExample` | crates/etl-postgres/src/default_expression.rs:91-129 | a cast that is kept on an operation that starts with a parenthesis |
| `DefaultParsing.ScanNumericLiteral` | crates/etl-postgres/src/default_expression.rs:412-431 | accepts exactly an optional sign and digits with at most one point |
| `DefaultParsing.LiteralAtom` | crates/etl-postgres/src/default_expression.rs:407-436 | string, numeric and boolean literals are cores that no scan mistakes for a layer |
| `DefaultParsing.OnlyWrappedLiterals` | crates/etl-postgres/src/default_expression.rs:36-59 | a result is returned only for a wrapped single literal, and holds that literal, its quoted form or its content |
| `DefaultParsing.TypedLiterals` | crates/etl-postgres/src/default_expression.rs:448-485 | each kind of result comes exactly from the cores and column types it is meant for |
| `DefaultParsing.LiteralsParse` | crates/etl-postgres/src/default_expression.rs:439-485 | a literal is refused exactly when `::` or, in any case, the text of a subquery stands in it, or when its content does not fit the column; the other boundaries never apply |
| `DefaultParsing.WrappedDefault` | crates/etl-postgres/src/default_expression.rs:36-88 | wrapping a literal does not change the parsed default, unless a cast stands on a cast or an operation; then nothing is parsed |
| `DefaultTypes.TypeNamesRegular` | crates/etl-postgres/src/default_expression.rs:184-190 | every type name of the grammar (words, a schema, modifiers, array brackets) is accepted as a cast type, is trimmed and closes its own parentheses |
| `DefaultTypes.CastsParse` | crates/etl-postgres/src/default_expression.rs:36-129 | a literal cast to any such type name is parsed as the literal |
| `DefaultTypes.OtherSuffixKept` | crates/etl-postgres/src/default_expression.rs:91-190 | a suffix with any character but letters, digits and the nine marks of type names keeps the cast, and nothing is parsed |
| `DefaultTypes.SuffixExactly` | crates/etl-postgres/src/default_expression.rs:91-190 | of the suffixes that close their own parentheses, exactly those of letters, digits and the nine marks come off a literal |
| `DefaultTypes.PrecisionExample` | crates/etl-postgres/src/default_expression.rs:184-190 | a cast with a precision as it is written |
| `DefaultTypes.OperatorsExactly` | crates/etl-postgres/src/default_expression.rs:231-272 | of the characters between two plain operands exactly + - * / and % keep a cast on them |
| `DefaultTypes.ConcatenationKeeps` | crates/etl-postgres/src/default_expression.rs:231-272 | a cast on a concatenation is kept |
| `DefaultTypes.NumberByType` | crates/etl-postgres/src/default_expression.rs:470-476 | what any number gives for each column type |
| `DefaultTypes.QuotedNumberByType` | crates/etl-postgres/src/default_expression.rs:448-467 | what any quoted number gives for each column type |
| `DefaultTypes.BoolByType` | crates/etl-postgres/src/default_expression.rs:479-485 | what the boolean words, in any case, give for each column type |
| `TableNames.AcceptsExactly` | crates/etl-destinations/src/table_name.rs:32-71 | a table is accepted exactly when both components can be encoded; otherwise the first bad component is blamed, for its first fault |
| `TableNames.EscapeExactly` | crates/etl-destinations/src/table_name.rs:21-29 | text without underscores stays and each underscore is doubled |
| `TableNames.IdentifierExample` | crates/etl-destinations/src/table_name.rs:15-20 | an identifier as it is written |
| `TableNames.DecodeJoin` | crates/etl-destinations/src/table_name.rs:15-29 | the separator lies in the only odd run of underscores, and decoding recovers all that the identifier determines |
| `TableNames.CollidesExactly` | crates/etl-destinations/src/table_name.rs:8-14 | without validation, two pairs share an identifier exactly when underscores moved across the separator |
| `TableNames.StringifyDecodes` | crates/etl-destinations/src/table_name.rs:15-20 | an accepted identifier decodes to its schema and table |
| `TableNames.StringifyInjective` | crates/etl-destinations/src/table_name.rs:15-20 | no two accepted tables share an identifier |
| `TableNames.RejectedCollision` | crates/etl-destinations/src/table_name.rs:10-14 | the documented ambiguous pair collides and is rejected |
| `Slots.PrintsAlways` | crates/etl-postgres/src/slots.rs:61-80 | no slot name exceeds 55 characters, so printing and both prefixes never fail |
| `Slots.ParsePrinted` | crates/etl-postgres/src/slots.rs:83-149 | parsing a printed slot name gives the slot |
| `Slots.ParseExactly` | crates/etl-postgres/src/slots.rs:83-127 | the accepted names are exactly a prefix followed by its ids, each an unsigned number of its width; every other name is refused as it stands |
| `Slots.NameExamples` | crates/etl-postgres/src/slots.rs:130-149 | both kinds of names as they are written |
| `Text.UnsignedExactly` | crates/etl-postgres/src/slots.rs:91-119 | an id is accepted exactly as a number within its width, with leading zeros and a plus sign or without |
| `Slots.NameInjective` | crates/etl-postgres/src/slots.rs:130-149 | distinct slots have distinct names |
| `Slots.PatternIsPrefix` | crates/etl-postgres/src/slots.rs:161-164 | under LIKE with escapes the pattern matches exactly the names with the pipeline's prefix |
| `Slots.PatternSelects` | crates/etl-postgres/src/slots.rs:151-164 | a printed slot name matches the pattern of a pipeline exactly when it is a table-sync slot of that pipeline |
| `Slots.PatternIsSafe` | crates/etl-postgres/src/slots.rs:83-164 | any parsable name that the pattern matches is a table-sync slot of that pipeline |
| `Startup.Pipeline.InitializeTableStates` | crates/etl/src/pipeline.rs:348-415 | for every number of writes before an interruption: what is left is exactly what its writes make of what was found; it finishes exactly if the writes suffice, and then leaves one state per published table and deletes exactly the slots of purged tables; it orphans exactly the slot of the table that the inputs say it stops at |
| `Startup.Pipeline.AddNewTables` | crates/etl/src/pipeline.rs:377-382 | published tables without state get `Init`, nothing else changes, with one write for each new entry of the list |
| `Startup.Pipeline.PurgeRemovedTables` | crates/etl/src/pipeline.rs:384-412 | states and slots are deleted in turn for the tables that left the publication, for exactly as many as the writes allow |
| `Startup.PurgeStops` | crates/etl/src/pipeline.rs:389-404 | the table left without state but with its slot not yet deleted is the one computed from the inputs, if there is one |
| `Startup.Pipeline.PurgeTable` | crates/etl/src/pipeline.rs:396-404 | one table: the state goes with the first write and the slot with the second |
| `Startup.ProgressTransitive` | crates/etl/src/pipeline.rs:348-415 | what startups may do composes over restarts |
| `Startup.RestartsSettle` | crates/etl/src/pipeline.rs:336-347 | after any interrupted startups a completed one leaves one state per published table, the known ones unchanged |
| `Startup.SlotsSafe` | crates/etl/src/pipeline.rs:396-404 | at every point of every run a deleted slot belonged to an unpublished table of this pipeline that has no state |
| `Startup.OrphanSlotStays` | crates/etl/src/pipeline.rs:343-347 | a slot whose table has no state is never deleted |
| `Startup.OrphansExactly` | crates/etl/src/pipeline.rs:396-404 | a startup orphans exactly the slots of the tables it purged without reaching their slot |
| `Startup.OrphansOfRun` | crates/etl/src/pipeline.rs:336-347 | over any restarts the orphans are exactly those of the single startups, one for each that stopped at a table with a slot |
| `Startup.OrphanExample` | crates/etl/src/pipeline.rs:396-404 | a startup that orphans a slot, and a complete restart that leaves it |
| `Retry.NextDelay` | crates/etl-destinations/src/retry.rs:106-107 | saturating doubling with a cap equals the exact exponential delay with a cap |
| `Retry.DelayByCases` | crates/etl-destinations/src/retry.rs:83-107 | the first delay is the initial one or the limit, each next one is the double or the limit |
| `Retry.StopsExactly` | crates/etl-destinations/src/retry.rs:86-96 | an attempt is the last exactly for its success, for an error that is not retried, or once a limit below the largest is used up |
| `Retry.DelaysGrow` | crates/etl-destinations/src/retry.rs:82-107 | delays never shrink and never pass the limit |
| `Retry.LimitStops` | crates/etl-destinations/src/retry.rs:84-93 | below the largest limit the count stops the loop; at that limit it never does |
| `Retry.RetryWithBackoff` | crates/etl-destinations/src/retry.rs:60-111 | ends whenever some attempt is a last one, at the first attempt that succeeds, is not retryable or exhausts the retries; reports one entry per retry with its exact delays, and the saturated number of attempts on failure |
| `Snapshots.ParseExactly` | crates/etl-postgres/src/schema.rs:113-131 | a text is accepted exactly when it is two unsigned 64-bit numbers around a colon, and then as those numbers |
| `Snapshots.ParsePrint` | crates/etl-postgres/src/schema.rs:113-138 | parsing a printed snapshot id gives the id |
| `Snapshots.FrontierAdmits` | crates/etl-postgres/src/schema.rs:74-83 | a snapshot is at most the frontier of an LSN exactly when it was committed at or before it |
| `Snapshots.PackedOrder` | crates/etl/src/event.rs:335-341 | the packed key is injective and ordered by commit LSN, then ordinal |

## Left out

- Unicode lowercasing: a parameter of the mapping; folding of live names is proved for mappings that fix folded and temporary names.
- Identity masks, primary-key identity inference and row encoding: not part of the schema plan.
- RenameLoop.LoopOutcome: diffs that rename columns the before names lack, or that want a name twice or one the after names lack.
- The width of the temporary-name sequence: modelled as unbounded.
- Which metadata a destination keeps, such as the type, nullability and default changes that BigQuery skips: a parameter of the executor.
- Destination-specific validation: parameters that say which tables and changes are refused.
- ClickHouse's own refusals before recovery, its current-state view and its trailing columns.
- Recovery.ClassifiesExactly: stated for schemas that list their columns by ordinal, as the schema store returns them.
- Recovery.PlanKeepsOrder: the same schemas.
- Recovery.RecoverKeptNames: the same schemas.
- Recovery.RecoverPendingChange: the same schemas; metadata is promised for destinations that set every field they are asked to.
- Recovery in DuckLake, dropping a table before a new copy, caches and connections.
- The schema store's lookup of the newest schema at or before a snapshot: modelled as a lookup of exactly that snapshot.
- NumericReader.ParseNumericValue: inputs of 2^29 characters and more, where 32-bit counters could overflow.
- NumericReader.ReadMantissa: the same inputs.
- NumericText.FromStr: the same inputs.
- NumericParser.FillGroups: the same inputs.
- NumericParser.ConvertToBase10000: decimals of 2^29 digits and more, and weights that only such texts reach.
- NumericPrinter.Format: the standard library's text of a group outside 0 to 9999, which PostgreSQL does not send, is a parameter.
- Texts are sequences of characters, not bytes: every delimiter is ASCII, and the iteration budget of the normalizer, counted in characters, is never larger than the source's.
- DefaultExpression.NormalizePostgresExpression: parenthesis depth is unbounded, so the guards for an overflowing depth are not modelled.
- DefaultParsing.WrappedDefault: stated for type names that close their own parentheses.
- DefaultParsing.UnwrapsExactly: the same type names.
- DefaultUnwrap.SettleRender: the same type names.
- Retry.RetryWithBackoff: sleeping, logging and the callbacks' own state are parameters; a run in which no attempt is a last one does not end, in the source either.
- Concurrent changes to the publication or the stored states during a startup, and what workers do between startups.
- Snapshots.PackedOrder: the packing is written as a sum, which equals the bitwise form for 64-bit operands.
- SQL execution, the network, stores, configuration, telemetry, the HTTP API, the maintenance coordination and the date and time codecs.
