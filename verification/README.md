# Context allocation: the compiler's budget search, canonical records, chunking, local stores, admission and ranking

This project models the parts of the repository whose correctness is hardest to see from one function
at a time, and proves what they promise. `dafny verify dfyconfig.toml` checks all of it.

| part | files |
|---|---|
| budget allocation and the render-aware search of a compilation | `BudgetAllocator`, `Fallback`, `FallbackChoice`, `Compilation`, `InputOrder`, over `Choices`, `Precedence`, `Minimums`, `Allocation`, `Priorities`, `Eviction`, `Bases`, `Rescue`, `Preference`, `Correction`, `Selections`, `Combinations`, `Subsets`, `Numbers` |
| canonical text and isolated copies of untrusted object graphs | `ObjectGraph`, `CanonicalRecord`, `RecordCopy`, `SqliteJson`, over `Json`, `JsonText`, `JsonString`, `Spelling`, `JsonNumber`, `Utf16`, `Entries` |
| plain-text chunking and the evidence sweep over its blocks | `Lines`, `Splitting`, `Grouping`, `TextChunking`, `Evidence` |
| the audit store for traces, as functions on a table, as statements of one connection, and as interleaved connections | `TraceStore`, `TraceDatabase`, `TraceMachine`, `TraceRuns`, over `SqliteDatabase`, `StoredCells`, `Scopes`, `ScopeText` |
| the registry of sources, and the map it implements | `ControlStore`, `Registry`, `ControlDatabase`, `Timestamps`, `TimestampText`, over `KeyedTable`, `Histories` |
| request admission and shutdown | `ApiHandler`, `ApiServer` |
| benchmark arithmetic and ranking | `HeldoutMetrics`, `DogfoodMetrics`, `Ranking`, over `Sorting` |

How the source is represented:

* A JavaScript string is a sequence of 16-bit code units, lone surrogates included. Object graphs live
  in an explicit finite heap, so cycles and sharing are real; a node may have accessors, holes,
  non-enumerable and symbol keys, a foreign prototype, or throw when it is inspected.
* The token counter is an arbitrary function of the measured text. Nothing assumes that longer text
  has more tokens. Rendering a selection and counting its tokens is likewise one arbitrary function of
  the set of selected blocks, which may also fail.
* A selection of a compilation is the set of its block identifiers; what the policy asks of it and what
  its content costs are defined on that set (`Choices.MeetsPolicy`, `Choices.Content`), apart from every
  list the algorithms build. Eligible blocks have different identifiers, as the deduplicator before
  them ensures. A generator is modelled by the list it yields.
* What the source changes step by step is a class or a loop here: the walkers' shared set of ancestors,
  the heap copies are allocated in, the scanners and splitters, a database connection, the request
  handler and the listener, the allocator's running budget, the subset walk's shared stack and counters,
  the search's cache and visited set. Each is proved against a function or predicate about which the main
  results are stated.
* SQLite is assumed to take one write lock at `BEGIN IMMEDIATE`, to commit or roll back as a whole, to
  keep primary keys unique, and to hold text that is well-formed Unicode: a bound lone surrogate is
  stored as U+FFFD, as the source itself reports. Any statement may fail for reasons of the driver's
  own, and stored columns may hold anything the schema allows.
* Code between two awaits of the event loop is one step of the admission protocol.

## Where the code and its documentation disagree

The model follows the code. Each of these has a concrete witness and an exact condition among the
members below.

* `putTrace` promises that storing the identical record twice succeeds and that a stored trace can be
  read back as it was. Both hold exactly when the compilation identifier is well-formed text; with a
  lone surrogate the record is stored under another identifier and then conflicts with itself
  (`TraceStore.PutThenGet`, `TraceStore.PutTwice`, `TraceStore.LoneSurrogateIdentifier`).
* `registerSource` and `updateSource` accept any timestamp that is not blank, but `listSources` refuses
  a row whose timestamp is not a real instant: one such write makes its whole scope unlistable, until
  that row is updated or removed. Over any table, a scope can be listed after a write exactly when the
  written timestamps are real instants and every other row of the scope could be listed before
  (`Registry.RegisterThenList`, `Registry.UpdateThenList`, `Registry.RemoveThenList`,
  `Registry.WordAsTimestamp`). Every operation still acts on the table as on a map, whatever the
  timestamps (`Registry.HistoryRefines`).
* The title is protected against lossy text binding, the namespace, key and locator are not: two
  different keys can reach one row (`ControlStore.KeptIffWellFormed`, `Registry.RowKeyInjective`,
  `Registry.AliasedKeys`).
* `sumTokens` says that every later check rejects a sum that is no safe integer. The ceiling comparison in
  the search does not: a comparison with `NaN` is false, so such a selection is rendered and can end the
  search. Nothing over the ceiling is published for that, because the result check recomputes the sum and
  refuses it (`Compilation.CompileSound`); but a compilation that should end as exhausted then ends with an
  invalid result. For some tokenizer that happens exactly when some selection the policy allows has an
  unsafe sum (`Compilation.UnsafeSumIsReached`, `Compilation.SafeSumsAreValid`,
  `Compilation.UnsafePairIsReached`). The trace built before the search refuses a batch whose total is no
  safe integer, so behind that guard no compilation meets such a sum (`Compilation.SafeTotalIsSafe`).
* A timestamp in a year below 100 is refused although it names a real date, because `Date.UTC` moves
  two-digit years into the twentieth century (`Timestamps.RealInstantIffCalendar`,
  `Timestamps.FirstCenturyRefused`).
* The provider does not refuse a library answer that names one block twice; the mapping behind it
  does, and exactly then (`Ranking.RankedAreMapped`, `Ranking.RepeatedResultIsRefused`).

## Model

| member | source | states |
|---|---|---|
| BudgetAllocator.Allocate | packages/compiler/src/budget-allocator.ts:648-715 | allocation succeeds exactly when some selection satisfies the policy within the content budget; what is selected keeps the policy and nothing excluded could still be added. Required blocks are decided by identifier, minimums by category, cost, higher score and identifier, the rest by higher score and identifier; a block left out had at least the budget of every lower one that was taken, with the reason of its moment. A refusal names its cause: impossible counts with exactly the issues in order, or the first block that does not fit |
| Priorities.GreedyLeavesOut | packages/compiler/src/budget-allocator.ts:861-911 | every candidate the score pass leaves out has its place among those it takes: all before it score higher, all after it lower, and its reason and remainder are those of that place |
| Priorities.MinimumsTakeCheapest | packages/compiler/src/budget-allocator.ts:535-549 | the minimums stand category by category, and of no category is one taken while a cheaper, or equally cheap and higher scored, one is left |
| Priorities.MisfitIsFirst | packages/compiler/src/budget-allocator.ts:784-803 | the block a refusal names: all before it fit, and it does not fit any more |
| BudgetAllocator.NothingIsCheaper | packages/compiler/src/budget-allocator.ts:811-848 | no selection the policy allows costs less than the required blocks with the cheapest picks of every minimum: if those do not fit, none does |
| Minimums.CheapestCostsLeast | packages/compiler/src/budget-allocator.ts:543-549 | the union of the cheapest picks of each category costs no more than any candidates that meet the same minimums |
| BudgetAllocator.GreedyKeeps | packages/compiler/src/budget-allocator.ts:881-911 | selecting the rest by score never leaves the policy or the budget and takes nothing back |
| BudgetAllocator.ArrivalOrderIrrelevant | packages/compiler/src/budget-allocator.ts:655-672 | permuting the candidates and the constraints changes nothing of an allocation: not its decisions, remainders, exclusions, eviction order, issues or blocking candidate |
| Allocation.Allocator.IncludeAll | packages/compiler/src/budget-allocator.ts:784-803 | including candidates one by one succeeds exactly when their sum is available, and otherwise names the first that does not fit |
| Allocation.Allocator.AllocateOptional | packages/compiler/src/budget-allocator.ts:881-911 | the loop with its running remainder and counters makes the greedy choice and leaves out the rest, each with the reason and remainder of its moment; every candidate is decided once and every exclusion stays justified to the end |
| Eviction.EvictionOrder | packages/compiler/src/budget-allocator.ts:941-960 | the order names different selected optional blocks, each the one with the lowest score, and on equal scores the largest identifier, among those the policy could spare at its turn; every prefix may be given back without leaving the policy, and after all of it every optional block that remains is protected by a minimum |
| Eviction.DropsSafely | packages/compiler/src/budget-allocator.ts:949-957 | a selected optional block can be given back exactly when its category keeps its minimum without it |
| BudgetAllocator.EvictionKeepsBest | packages/compiler/src/budget-allocator.ts:913-940 | whatever prefix of its order a selection gives back, no block is gone while one with a lower score, or the same score and a larger identifier, is kept that the policy could spare |
| Selections.Walker.Walk | packages/compiler/src/context-compiler.ts:1489-1533 | the pruned recursive walk with its shared stack and counters yields exactly the accepted subsets of one size, in lexicographic order, and restores the shared state |
| Rescue.CategoryBudgets | packages/compiler/src/context-compiler.ts:1441-1468 | answers what the constraints leave open for each category and where it stands in the pool, or nothing when no selection satisfies the policy |
| Rescue.PolicyValidOptionalSelections | packages/compiler/src/context-compiler.ts:1406-1430 | the enumeration with its cardinality, capacity and reachability prunes equals the filtered power set of the pool |
| Rescue.EachValidOnce | packages/compiler/src/context-compiler.ts:1378-1400 | that list holds exactly the picks that complete a policy-valid selection, each once, by size and then in lexicographic order |
| Preference.RescuePrefers | packages/compiler/src/context-compiler.ts:1334-1357 | the rescue settles on a smallest selection that fits; among those of one size on the one that holds the first block on which they differ, by declared category and identifier, blocks without a category last |
| Combinations.AllCombinations | packages/compiler/src/context-compiler.ts:1285-1306 | the row of indices steps through every combination of one size exactly once, in lexicographic order |
| Bases.ProductMembers | packages/compiler/src/context-compiler.ts:1321-1332 | the lazy product holds exactly the tuples with one item from each sequence |
| Bases.BaseMeetsPolicy | packages/compiler/src/context-compiler.ts:1044-1089 | every hard base satisfies all constraints and holds exactly what each category needs |
| Preference.ProductOrdered | packages/compiler/src/context-compiler.ts:1309-1332 | the product lists its tuples lexicographically, the last sequence varying fastest |
| FallbackChoice.BasesAreMinimal | packages/compiler/src/context-compiler.ts:1032-1089 | the hard bases name exactly the minimal selections: allowed by the policy, with the required blocks and of each constrained category just what its minimum still needs |
| FallbackChoice.BasePrefers | packages/compiler/src/context-compiler.ts:1032-1043 | the base phase settles on the minimal selection that fits and, compared with any other that fits, holds the first block on which they differ, by category, cost, higher score and identifier |
| Fallback.FirstBaseIsReserved | packages/compiler/src/context-compiler.ts:1032-1038 | the first hard base is the selection the allocator reserved |
| Correction.Search.Visit | packages/compiler/src/context-compiler.ts:1001-1027 | the bound is checked before a new selection is admitted, the ceiling before it is rendered; a selection is counted once, tokenized at most once, and not at all if the renderer already measured it |
| Correction.Search.TryAll | packages/compiler/src/context-compiler.ts:904-935 | a phase settles on the first of its selections that fits; it reports the limit only with the bound used up and one of its selections unvisited, a failure only of a selection the tokenizer cannot count, and its end only when every selection was visited and none fits |
| Correction.WalkStopsFirst | packages/compiler/src/context-compiler.ts:1001-1027 | a phase goes on past every selection that is too dear by its sum or measured over the budget, and stops at the first that fits, cannot be measured, or is not admitted by the bound |
| Fallback.AllowedIsYielded | packages/compiler/src/context-compiler.ts:921-926 | every selection the policy allows is among those the rescue walks |
| Fallback.YieldedIsAllowed | packages/compiler/src/context-compiler.ts:921-926 | everything the rescue walks is a selection the policy allows |
| Fallback.SearchFallback | packages/compiler/src/context-compiler.ts:864-941 | the three phases with their shared cache, visited set and bound give exactly the outcome and the visited selections of the specified search |
| Fallback.SearchSound | packages/compiler/src/context-compiler.ts:843-863 | for an arbitrary tokenizer and every bound: exhaustion means every policy-valid selection under the ceiling was measured over budget and everything was visited; the limit means the bound is used up and something the policy allows, or the required blocks alone, is unvisited; settling is on the first fitting base, or else the first fitting selection of the rescue |
| FallbackChoice.ChoiceIsBest | packages/compiler/src/context-compiler.ts:843-863 | a fallback settles on a minimal selection exactly when one fits, and on the preferred one; otherwise on the preferred smallest selection that fits |
| Compilation.GiveBack | packages/compiler/src/context-compiler.ts:796-825 | the cheap path gives back the published order entry by entry and stops at the first prefix that fits or cannot be counted |
| Compilation.Settle | packages/compiler/src/context-compiler.ts:756-841 | the outcome and the visited selections are those of the specification, and mean what they say |
| Compilation.SettleSound | packages/compiler/src/context-compiler.ts:721-755 | which selection is settled on: the allocator's own, the first prefix of the eviction order that fits with all earlier ones measured over budget, the first fitting base, or the first fitting selection of the rescue |
| Compilation.LimitIffTooSmall | packages/compiler/src/context-compiler.ts:981-999 | where nothing fits, the limit is reported exactly when the bound is smaller than the number of selections there are to visit, and exhaustion otherwise |
| Compilation.Compile | packages/compiler/src/context-compiler.ts:586-636 | from eligible blocks to a verdict: refused exactly when no selection satisfies the policy within the content budget; what is published satisfies the policy, with its content and its rendering within the budget, and is the preferred one: what was given back is the worst that could be spared, and a fallback settles on the preferred minimal selection that fits, or else on the preferred smallest one; the limit is reported only with the bound used up and too small; with a tokenizer that counts, a bound that covers the selections and safe sums it publishes exactly when something works |
| Compilation.CompileSound | packages/compiler/src/context-compiler.ts:1619-1673 | nothing over the content ceiling is ever published, whatever its sum, and every other end means what it says |
| Compilation.PublishesIffSomethingWorks | packages/compiler/src/context-compiler.ts:943-951 | with a tokenizer that counts, a bound that covers the selections and safe sums, a compilation publishes exactly when some policy-valid selection has content and rendering within the budget, and is exhausted or refused otherwise |
| Compilation.VerifyResult | packages/compiler/src/context-compiler.ts:1660-1673 | the result check lets a settled selection pass exactly when its recomputed content is a safe integer within the ceiling |
| InputOrder.InputOrderIrrelevant | packages/compiler/src/context-compiler.ts:1240-1252 | permuting the candidates and the constraints changes no verdict, no published identifiers, token count or phase, no refusal, and not the visited selections |
| Compilation.SettlesIffSomethingFits | packages/compiler/src/context-compiler.ts:943-951 | with a tokenizer that counts and a bound that covers the selections, the search settles exactly when some policy-valid selection the ceiling comparison admits renders within the budget, and is exhausted otherwise |
| Compilation.SafeTotalIsSafe | packages/compiler/src/context-compiler.ts:1254-1269 | a safe total of the eligible blocks makes the sum of every allowed selection safe |
| Compilation.UnsafeSumIsReached | packages/compiler/src/context-compiler.ts:1019-1021 | every allowed selection with an unsafe sum is settled on for some tokenizer, and the compilation then ends with an invalid result although nothing under the ceiling fits |
| Compilation.SafeSumsAreValid | packages/compiler/src/context-compiler.ts:1019-1021 | with safe sums no compilation ends so, whatever the tokenizer |
| Compilation.UnsafePairIsReached | packages/compiler/src/context-compiler.ts:1019-1021 | two concrete optional blocks the allocator leaves out and the search settles on together |
| ObjectGraph.UnfoldsIffJsonGraph | packages/application/src/canonical-record.ts:93-140 | on every finite heap reading terminates, and it succeeds exactly when no cycle is reachable and every reachable value is JSON data; a node that is only shared is accepted |
| ObjectGraph.InspectAgrees | packages/application/src/canonical-record.ts:67-140 | a node can be read exactly when it has no accessor (enumerable or not), no symbol key, a plain prototype and a readable length, and what is read is exactly what lies below it |
| CanonicalRecord.OwnDataEntries | packages/application/src/canonical-record.ts:93-105 | the loop answers the own enumerable data properties in order, or nothing at the first accessor or any symbol key |
| CanonicalRecord.OwnArrayItems | packages/application/src/canonical-record.ts:121-140 | the loop answers every element with holes as `undefined`, or nothing at the first accessor, a symbol key or an unreadable length |
| CanonicalRecord.Canonicalize | packages/application/src/canonical-record.ts:223-275 | on cyclic, shared and hostile heaps alike the recursive walk terminates, answers the canonical text the unfolded value has, and leaves the shared set of ancestors as it found it on every path |
| CanonicalRecord.TryCanonicalRecordJson | packages/application/src/canonical-record.ts:208-221 | succeeds exactly on acyclic graphs of JSON data with no `undefined` array element, which are not `undefined` themselves |
| CanonicalRecord.JsonOfSucceeds | packages/application/src/canonical-record.ts:246-263 | a tree has a JSON value exactly when `undefined` occurs only as the value of a property |
| CanonicalRecord.SameRecordIffSameJson | packages/application/src/canonical-record.ts:258-271 | two trees have one JSON value exactly when they agree up to key order, keys that are `undefined`, the kind of plain prototype and the sign of zero |
| CanonicalRecord.CanonicalTextDecides | packages/application/src/canonical-record.ts:180-221 | two accepted values, in any two heaps, have the same canonical text exactly when they are the same record |
| CanonicalRecord.CanonicalTextParses | packages/application/src/canonical-record.ts:205-275 | canonical text read by the grammar of RFC 8259 gives back the JSON value it was printed from |
| CanonicalRecord.LeafText | packages/application/src/canonical-record.ts:224-233 | the text of every value that is not an object, unit by unit: a string between quotes in its spelling, the literals, the number text, 0 for negative zero; undefined, numbers that are not finite, big integers, symbols and functions have none |
| JsonText.ArrayGrows | packages/application/src/canonical-record.ts:243-258 | an array one element longer has the same text with a comma, unless it is the first, and the text of that element before the bracket |
| JsonText.ObjectGrows | packages/application/src/canonical-record.ts:260-271 | an object with one more member, whose key comes after all others, has the same text with a comma, unless it is the first, the quoted key, a colon and the text of its value before the brace |
| Utf16.LessIffFirstDifference | packages/application/src/canonical-record.ts:263-263 | keys are ordered by the first unit in which they differ, a prefix first |
| Json.ParsePrint | packages/adapters/src/sqlite-json.ts:30-70 | reading is a left inverse of printing, for every JSON value |
| Json.PrintInjective | packages/adapters/src/sqlite-json.ts:6-11 | sorted-key text of two values is equal exactly when the values are |
| Json.PrintIsWellFormed | packages/adapters/src/sqlite-json.ts:30-41 | printed JSON never holds a lone surrogate, whatever strings it carries |
| JsonString.QuoteRoundTrip | packages/application/src/canonical-record.ts:227-227 | a quoted string followed by any text reads back unchanged, lone surrogates included |
| JsonString.QuoteIsWellFormed | packages/adapters/src/sqlite-control-store.ts:246-261 | a quoted string never holds a lone surrogate |
| Spelling.QuoteIsSpelled | packages/application/src/canonical-record.ts:227-227 | the exact spelling of a string: the seven short escapes, lower-case four-digit escapes for every other control and every lone surrogate, and every other unit as it is |
| Spelling.UnescapedIffPlain | packages/application/src/canonical-record.ts:227-227 | a string stands as it is between its quotes exactly when it holds no control, quote, backslash or lone surrogate |
| Spelling.SurrogatesAre | packages/application/src/canonical-record.ts:227-227 | two surrogates are copied exactly when they are a high and a low one, and both escaped otherwise |
| JsonNumber.NumberRoundTrip | packages/application/src/canonical-record.ts:228-233 | every form of number text (integer, fraction, leading zeros, exponent) reads back to the decimal it was printed from |
| JsonNumber.PrintedIntRoundTrip | packages/adapters/src/sqlite-trace-store.ts:220-230 | an integer printed as a JSON number and followed by any text is read back as that integer |
| JsonText.IntegerText | packages/application/src/canonical-record.ts:228-233 | every integer below 10^21 is written as its plain decimal digits |
| JsonText.NotationIs | packages/application/src/canonical-record.ts:228-233 | a number has an exponent exactly from 10^21 on and below 10^-6, and a point exactly when digits remain after it |
| SqliteJson.SameTextAsCanonicalRecord | packages/adapters/src/sqlite-json.ts:30-41 | on JSON-safe values the store's serializer writes exactly the canonical record text |
| SqliteJson.StoredObjectRoundTrip | packages/adapters/src/sqlite-json.ts:58-70 | an object the store printed is the object it reads |
| JsonText.ParsesOnlyOneValue | packages/adapters/src/sqlite-json.ts:58-70 | a stored text is read as one value with spaces around it and nothing else |
| RecordCopy.DefinedInPlace | packages/application/src/canonical-record.ts:167-174 | defining an own property, for any key, makes its entry the value in place or adds it last; every other name and entry keeps its position and names stay distinct |
| RecordCopy.CloneUntrusted | packages/application/src/canonical-record.ts:325-365 | the recursive copier terminates, restores the ancestors, changes no existing node, and lays out a copy of exactly the tree the value unfolds to |
| RecordCopy.TryCloneJsonRecord | packages/application/src/canonical-record.ts:312-320 | copying succeeds exactly on acyclic graphs of copyable data and leaves the source heap unchanged; the copy unfolds to the same tree, reaches no object of the source, and reaches none of its own by two paths |
| RecordCopy.CopyUnfolds | packages/application/src/canonical-record.ts:294-301 | a laid-out copy unfolds to the tree it was made from |
| RecordCopy.CopyIsFresh | packages/application/src/canonical-record.ts:284-287 | every object reachable inside a copy is newly allocated |
| RecordCopy.CopyIsUnshared | packages/application/src/canonical-record.ts:303-306 | no object of a copy is reached by two different paths |
| RecordCopy.CopyIsEqual | packages/application/src/canonical-record.ts:289-301 | a copy has the canonical text of its source and along every path shows the same scalars, prototypes and keys in the same order, keys that are `undefined` included |
| RecordCopy.CanonicalImpliesCopyable | packages/application/src/canonical-record.ts:289-291 | whatever canonicalizes can be copied |
| Lines.ScanLines | packages/application/src/chunking-primitives.ts:233-255 | the lines tile the source: consecutive, not empty, numbered, ending at each newline, with the carriage return left out of the text |
| Lines.LineEnds | packages/application/src/chunking-primitives.ts:216-255 | a line is its text and what ends it: a newline, one carriage return, both, or nothing; only the last line may go without a newline, and no text keeps one or the carriage return before it |
| Lines.LinesJoinToSource | packages/application/src/chunking-primitives.ts:216-255 | the lines put together are the source |
| Lines.NewlinesBeforeLine | packages/application/src/chunking-primitives.ts:257-271 | every offset in line i has exactly i newlines before it |
| Lines.LineNumberAtOffset | packages/application/src/chunking-primitives.ts:258-271 | the binary search answers one plus the newlines before an offset in the source, and clamps offsets outside |
| Splitting.TrimmedEnd | packages/application/src/chunking-primitives.ts:297-301 | the largest end without trailing whitespace |
| Splitting.SentenceBoundaries | packages/application/src/chunking-primitives.ts:304-313 | lists exactly the ends of a terminator with its closers before whitespace, in order |
| Splitting.WhitespaceBoundaries | packages/application/src/chunking-primitives.ts:316-326 | lists exactly the starts of whitespace runs after the first unit, in order |
| Splitting.CodePointBoundaries | packages/application/src/chunking-primitives.ts:382-390 | lists exactly the cuts that divide no surrogate pair, up to the limit |
| Splitting.BestFittingBoundary | packages/application/src/chunking-primitives.ts:350-373 | answers nothing exactly when no candidate fits; otherwise a fitting one nearest the target, the last of the nearest |
| Splitting.HardBoundary | packages/application/src/chunking-primitives.ts:404-422 | the best whole-code-point cut, or one whole code point when none fits |
| Splitting.NextPiece | packages/application/src/chunking-primitives.ts:446-467 | the order of preference: remainder, sentence, whitespace, code point, single code point, each with its exact choice |
| Splitting.SplitRange | packages/application/src/chunking-primitives.ts:431-478 | the loop terminates for every counter and answers exactly the pieces the rule cuts from the front, in order, inside the range and holding all its text |
| Splitting.SplitConserves | packages/application/src/chunking-primitives.ts:424-478 | pieces are in order, apart, inside the range and not empty, and every code unit that is not whitespace is in exactly one of them |
| Splitting.PiecesFit | packages/application/src/chunking-primitives.ts:392-478 | every piece fits the limit, or is one code point before which no whole-code-point prefix of the remainder fits, or is the untouched whitespace-only range |
| Splitting.WholeSlice | packages/application/src/chunking-primitives.ts:183-212 | a slice of well-formed content between offsets that divide no surrogate pair is well-formed; every call of the counter goes through `Splitting.Measure`, which demands that, so on such content the tokenizer never sees a lone surrogate |
| Splitting.SplitKeepsPairs | packages/application/src/chunking-primitives.ts:381-402 | no piece starts or ends inside a surrogate pair unless the range does |
| Grouping.GroupRanges | packages/application/src/chunking-primitives.ts:503-556 | the groups are consecutive maximal runs of the ranges, each with the exact token count of its slice, and in order if the ranges are |
| Grouping.GroupsAreOrdered | packages/application/src/chunking-primitives.ts:491-497 | groups of ordered disjoint ranges are ordered, disjoint, and hold every range whole |
| Grouping.MergesApproachTarget | packages/application/src/chunking-primitives.ts:539-546 | no sequence of merges leaves a group farther from the target than it was |
| Grouping.GroupsAreMaximal | packages/application/src/chunking-primitives.ts:503-556 | two groups stay apart for a reason: one begins with an atomic range over the limit, or joining the next range would exceed the limit or move farther from the target |
| Grouping.JoinedForAReason | packages/application/src/chunking-primitives.ts:503-556 | ranges share a group for a reason: none of them is an atomic range over the limit, and each step stayed within the limit and no farther from the target |
| TextChunking.ScanParagraphs | packages/application/src/text-chunker.ts:244-279 | paragraphs are maximal runs of lines that are not blank, in order, each with text, together all of the text, cutting no surrogate pair |
| TextChunking.SplitDivisible | packages/application/src/text-chunker.ts:347-353 | splitting the divisible ranges and keeping the atomic ones keeps order, text and surrogate pairs, and every new piece fits or is excused |
| TextChunking.SplitAndGroup | packages/application/src/text-chunker.ts:347-359 | split and grouped ranges are ordered, disjoint, hold every code unit that is not whitespace, and exceed the limit only where a single piece had to |
| TextChunking.ChunkText | packages/application/src/text-chunker.ts:337-360 | from text to groups no code unit that is not whitespace is lost and no surrogate pair is cut; every group has its exact token count, and one over the limit is a single unavoidable code point |
| TextChunking.PrepareThenSweep | benchmarks/dogfood/prepare.ts:198-208 | split, group, sweep: an evidence span whose text lies in ordered ranges is always reported as completely prepared |
| TextChunking.TextEvidenceIsPrepared | benchmarks/dogfood/prepare.ts:142-142 | in a plain-text source every evidence span is completely prepared, for every token counter and limit |
| Evidence.Sweep | benchmarks/dogfood/prepare.ts:198-208 | the one-cursor sweep stays covered exactly when every code unit that is not whitespace lies in some span, for overlapping, nested and unsorted spans |
| Evidence.MapTextEvidence | benchmarks/dogfood/prepare.ts:178-211 | rejects exactly the ranges and quotes that do not match the source; otherwise answers the overlapping blocks, complete exactly when the blocks of the document hold all text of the span |
| Evidence.OverlappingCovers | benchmarks/dogfood/prepare.ts:188-197 | leaving out blocks that do not overlap loses nothing inside the span |
| Scopes.ScopeKeyInjective | packages/adapters/src/sqlite-control-store.ts:112-127 | two scopes have one key exactly when they are equal, absent projects included |
| ScopeText.ScopeKeyText | packages/adapters/src/sqlite-control-store.ts:121-127 | the exact text of a scope key: project, tenant and workspace in this order, `null` for an absent project |
| ScopeText.ScopeJsonText | packages/adapters/src/sqlite-control-store.ts:135-141 | the exact text of a stored scope, without a member for an absent project |
| TraceStore.EnvelopeDecides | packages/adapters/src/sqlite-trace-store.ts:214-231 | two records have one envelope text exactly when every field agrees, payloads up to key order |
| TraceStore.RowRoundTrip | packages/adapters/src/sqlite-trace-store.ts:155-298 | a valid record comes back from its row with the identifier the column could keep |
| TraceStore.PutThenGet | packages/adapters/src/sqlite-trace-store.ts:386-485 | after a successful put over any rows, get answers a record; it is the one put exactly when the identifier is well-formed |
| TraceStore.PutTwice | packages/adapters/src/sqlite-trace-store.ts:367-382 | putting again changes nothing and succeeds exactly when the identifier is well-formed, else it conflicts |
| TraceStore.LoneSurrogateIdentifier | packages/adapters/src/sqlite-trace-store.ts:170-176 | a concrete record that is stored, read back changed, and then conflicts with itself |
| TraceStore.GetThenPut | packages/adapters/src/sqlite-trace-store.ts:386-485 | storing back what get answered succeeds and changes nothing, over any stored rows |
| TraceStore.StoredReadsUnderItsScope | packages/adapters/src/sqlite-trace-store.ts:439-485 | a stored record is answered under its own scope and under no other |
| TraceStore.ScopeKeyDecides | packages/adapters/src/sqlite-trace-store.ts:471-480 | invalid stored data is reported only for a row that cannot be read: the last scope comparison never fails |
| TraceStore.PutAppends | packages/adapters/src/sqlite-trace-store.ts:386-437 | a put appends at most one row, under a fresh identifier, and keeps identifiers unique |
| TraceStore.InputRefused | packages/adapters/src/sqlite-trace-store.ts:155-190 | a put is refused as invalid input exactly unless the record has version 1, names its scope and compilation, and its trace version is a safe integer |
| SqliteDatabase.Connection.Begin | packages/adapters/src/sqlite-database.ts:36-40 | takes the lock and sees the committed content, or fails and changes nothing |
| SqliteDatabase.Connection.Finish | packages/adapters/src/sqlite-database.ts:41-54 | the content becomes the body's exactly when body and commit succeed; the lock is given back either way |
| SqliteDatabase.Connection.Close | packages/adapters/src/sqlite-trace-store.ts:357-365 | only the first close can fail, exactly when the driver does; afterwards the handle is closed and the content unchanged |
| TraceDatabase.Store.PutTrace | packages/adapters/src/sqlite-trace-store.ts:386-437 | under every combination of driver faults, closed handle and foreign lock the call has the whole effect of one atomic put or none, with the exact outcome, and gives the lock back |
| TraceDatabase.Store.GetTrace | packages/adapters/src/sqlite-trace-store.ts:446-485 | answers the read specification, with invalid input before a closed handle |
| TraceMachine.StepRefines | packages/adapters/src/sqlite-trace-store.ts:386-437 | each step of interleaved puts keeps the lock holder's decision current and is either invisible or one atomic put |
| TraceMachine.Serializable | packages/adapters/src/sqlite-database.ts:35-55 | in every run of any number of connections, tampering included, the rows are those of the settled puts one after another, every put had its atomic outcome or failed without effect, every read answered the rows of its moment, and identifiers stay unique |
| TraceRuns.HolderCanSettle | packages/adapters/src/sqlite-trace-store.ts:389-432 | from every reachable state the lock holder can finish by its own steps, with the outcome and the rows of the atomic put |
| TraceRuns.EveryWriteAnswers | packages/adapters/src/sqlite-trace-store.ts:386-437 | at any moment a resting connection can have its put answered by its own steps: refused input, a failed write under a foreign lock, and otherwise the outcome and the rows of the atomic put |
| TraceRuns.EveryReadAnswers | packages/adapters/src/sqlite-trace-store.ts:446-485 | a resting connection can read whoever holds the lock, and is answered from the committed rows |
| TraceRuns.WritesOnlyAppend | packages/adapters/src/sqlite-trace-store.ts:382-384 | no step of a put changes, moves or removes a row, whatever was tampered before |
| TraceRuns.LaterWritesAgree | packages/adapters/src/sqlite-trace-store.ts:371-381 | once a record is stored, every later put of its identifier succeeds for that record, conflicts for any other, inserts nothing, or failed to run |
| TraceRuns.OneWinner | packages/adapters/src/sqlite-trace-store.ts:371-373 | two different records never both succeed under one identifier |
| TraceRuns.ReadsSeeStored | packages/adapters/src/sqlite-trace-store.ts:439-485 | any connection reading later, before tampering, gets the stored record |
| Timestamps.RealInstantIffCalendar | packages/domain/src/timestamp.ts:27-52 | the round trip through `Date` accepts exactly the real dates and times of the calendar in years from 100 |
| Timestamps.FirstCenturyRefused | packages/domain/src/timestamp.ts:43-45 | a concrete date of the year 99 that is in the calendar and is refused |
| Timestamps.TimestampIsCalendarDate | packages/domain/src/timestamp.ts:54-58 | a timestamp is exactly a text of the pattern naming such a date |
| TimestampText.WrittenIsTimestamp | packages/domain/src/timestamp.ts:15-52 | any date and time written digit by digit, with or without a fraction, is a timestamp exactly when the month has that day, the hour, minute and second exist and the year is 100 or later |
| TimestampText.TimestampIff | packages/domain/src/timestamp.ts:15-58 | the timestamps are exactly the texts written that way from a real date and time of the year 100 or later |
| Timestamps.ReplacedTimestamp | packages/adapters/src/sqlite-control-store.ts:331-342 | a lossy column neither makes nor breaks a timestamp |
| ControlStore.TitleRoundTrip | packages/adapters/src/sqlite-control-store.ts:256-292 | every title comes back unchanged, lone surrogates and the empty string included, and absence stays absence |
| ControlStore.TitleText | packages/adapters/src/sqlite-control-store.ts:252-292 | the column holds the title between quotes in its exact spelling, as it is exactly when nothing has to be escaped |
| ControlStore.OnlyStringsAreTitles | packages/adapters/src/sqlite-control-store.ts:272-292 | of all JSON texts a column may hold exactly the strings are read as titles; every other is reported as invalid stored data |
| ControlStore.RawTitleLosesLoneSurrogates | packages/adapters/src/sqlite-control-store.ts:246-250 | binding the raw title would lose exactly the titles with a lone surrogate |
| ControlStore.RowRoundTrip | packages/adapters/src/sqlite-control-store.ts:294-397 | reading back what was written succeeds exactly when both timestamps are real instants, and answers what the raw columns kept |
| ControlStore.FaithfulIff | packages/adapters/src/sqlite-control-store.ts:294-397 | a registration comes back as it was exactly when its timestamps are real instants and its raw text is well-formed |
| ControlStore.RowDecodes | packages/adapters/src/sqlite-control-store.ts:294-342 | every accepted registration, whatever its timestamps, is decoded from its row as what the raw columns keep, timestamps included |
| Registry.RowKeyInjective | packages/adapters/src/sqlite-control-store.ts:112-127 | the primary key separates exactly the logical keys that differ after binding |
| Registry.RegisterRefines | packages/adapters/src/sqlite-control-store.ts:518-550 | registering any accepted registration adds one entry to the map, or reports a conflict and changes nothing |
| Registry.UpdateRefines | packages/adapters/src/sqlite-control-store.ts:563-595 | updating with any accepted registration replaces one entry under its key, or reports that there is none and changes nothing |
| Registry.RemoveRefinesMap | packages/adapters/src/sqlite-control-store.ts:606-614 | removing takes one entry away and answers whether it was there, also when the row cannot be listed |
| Registry.ListRefines | packages/adapters/src/sqlite-control-store.ts:482-506 | listing answers the entries of exactly one scope, each once, or fails: it succeeds exactly when every entry of the scope has real timestamps |
| Registry.HistoryRefines | packages/adapters/src/sqlite-control-store.ts:408-614 | over every history of accepted operations, whatever their timestamps, the table gives the answers of the map and ends with its entries |
| Registry.OtherRowsUntouched | packages/adapters/src/sqlite-control-store.ts:555-605 | over any rows, an operation leaves rows under other keys as they are and makes no second row for a key |
| Registry.ReadRowsIff | packages/adapters/src/sqlite-control-store.ts:482-506 | over any rows, reading a scope succeeds exactly when each of its rows can be read, and then answers exactly those rows |
| Registry.InputRefused | packages/adapters/src/sqlite-control-store.ts:160-235 | which registrations, updates, removals and listings are refused as invalid input, from their own fields |
| Registry.RegisterThenList | packages/adapters/src/sqlite-control-store.ts:331-342 | over any rows, after an accepted registration its scope can be listed exactly when it could before and the new timestamps are real instants |
| Registry.RegisterWrittenTimes | packages/adapters/src/sqlite-control-store.ts:331-342 | over any rows, registering with two times written digit by digit leaves the scope listable exactly when it was and both are real dates and times from the year 100 on |
| Registry.UpdateThenList | packages/adapters/src/sqlite-control-store.ts:563-595 | over any rows, after an accepted update its scope can be listed exactly when the new timestamps are real instants and every other row of the scope can be listed |
| Registry.RemoveThenList | packages/adapters/src/sqlite-control-store.ts:606-614 | over any rows, after a removal its scope can be listed exactly when every other row of it can |
| Registry.HistoryThenList | packages/adapters/src/sqlite-control-store.ts:408-614 | after any history from an empty store a scope can be listed exactly when every entry the map ends with there has real timestamps |
| Registry.WordAsTimestamp | packages/adapters/src/sqlite-control-store.ts:231-234 | a concrete accepted registration whose creation time is a word and whose scope then cannot be listed |
| ControlStore.KeptIffWellFormed | packages/adapters/src/sqlite-control-store.ts:305-317 | a registration is kept as written exactly when its raw text is well-formed |
| Registry.AliasedKeys | packages/adapters/src/sqlite-control-store.ts:160-168 | two different accepted keys that bind alike |
| ControlDatabase.Store.RegisterSource | packages/adapters/src/sqlite-control-store.ts:518-550 | all or nothing under every driver fault, closed handle and foreign lock, with the exact outcome otherwise |
| ControlDatabase.Store.UpdateSource | packages/adapters/src/sqlite-control-store.ts:563-595 | all or nothing in the same way, for the update |
| ControlDatabase.Store.RemoveSource | packages/adapters/src/sqlite-control-store.ts:606-614 | one statement: the removal with its answer, or a write failure and nothing changed |
| ControlDatabase.Store.ListSources | packages/adapters/src/sqlite-control-store.ts:482-506 | the row loop answers exactly the specified list or its failure |
| ApiHandler.Handler.Enter | apps/api/src/handler.ts:38-67 | the steps up to the first await give the specified verdict and change only the active count |
| ApiHandler.Handler.Leave | apps/api/src/handler.ts:96-104 | the cleanup gives the slot back, and the last one out resolves every waiter |
| ApiHandler.Handler.WhenIdle | apps/api/src/handler.ts:30-32 | resolves at once on an idle handler, else registers the waiter |
| ApiServer.Listener.Close | apps/api/src/server.ts:53-65 | the first call stops the handler and registers for idleness in one step; later calls change nothing |
| ApiServer.Listener.Finish | apps/api/src/server.ts:63-71 | the runtime is closed once however the drain ended, and the shutdown succeeds only if nothing failed |
| ApiServer.StepKeeps | apps/api/src/handler.ts:17-107 | every step keeps the invariant of handler, requests and shutdown together |
| ApiServer.EveryRun | apps/api/src/handler.ts:61-66 | in every run the active count is the number of slot holders and within the limit, waiters exist only while a slot is taken, a stopping server is not ready, and the runtime is closed at most once and only without slot holders |
| ApiServer.ReadyIffOpen | apps/api/src/handler.ts:23-29 | in every run the server is ready exactly from the moment it was marked ready until somebody closes it |
| ApiServer.EveryAnswer | apps/api/src/handler.ts:45-66 | what any request is told at any moment of any run, in order: 405 for a wrong method, the failures of the route and of a body on a GET, 200 for health, 200 or 503 for the readiness probe, 503 for work unless the server is open, the failure of the headers, and then admission while fewer than the limit hold a slot, otherwise 503 |
| ApiServer.OpenServerServes | apps/api/src/handler.ts:61-104 | a well-formed request for work on an open server with a free slot takes one and can give it back |
| ApiServer.StoppingIsForever | apps/api/src/handler.ts:23-29 | after closing, in every run, readiness never returns and no slot is taken |
| ApiServer.ClosedAnswers | apps/api/src/handler.ts:50-61 | at any moment after closing, work and the readiness probe get 503, the health probe 200, and nothing changes |
| ApiServer.IdleWakesEveryone | apps/api/src/handler.ts:97-103 | no lost wake-up: any run that reaches a moment without slot holders has woken everybody who waited, and a drained shutdown can finish there |
| ApiServer.HoldersCanLeave | apps/api/src/handler.ts:96-104 | the slot holders can leave in any order, and then nobody is left waiting |
| ApiServer.CloseIsShared | apps/api/src/server.ts:52-55 | closing again at any later moment of any run changes nothing |
| ApiServer.ShutdownOutcome | apps/api/src/server.ts:53-71 | in every run the shutdown is over exactly when the runtime was closed, and it succeeded exactly when the drain settled without an error and closing the runtime did not throw |
| HeldoutMetrics.NearestRank | benchmarks/heldout/metrics.ts:109-122 | a percentile is a value of the sample with at least its share at or below it and less than its share below it |
| HeldoutMetrics.DistributionIs | benchmarks/heldout/metrics.ts:109-122 | the fields of a distribution: the size, the mean, and values with a half, a tenth and nine tenths of the sample at or below them and less than that below, counted by positions |
| HeldoutMetrics.DistributionIsOrdered | benchmarks/heldout/metrics.ts:113-121 | minimum and maximum are the sample's own bounds, the percentiles stand in order between them, and so does the mean |
| HeldoutMetrics.DistributionOrderIndependent | benchmarks/heldout/metrics.ts:109-122 | a distribution does not depend on the order of its sample |
| HeldoutMetrics.MedianInRange | benchmarks/heldout/aggregate.ts:18-24 | the full median is one of the leave-one-out medians, so their range contains it |
| HeldoutMetrics.MicroInRange | benchmarks/heldout/metrics.ts:123-148 | the leave-one-out range exists exactly for two or more requests with a positive total denominator, and contains the pooled ratio |
| DogfoodMetrics.LossesAttributed | benchmarks/dogfood/metrics.ts:12-37 | where counting does not reject, each loss is exactly the number of units first lost at that stage, each stage count is the one before without its loss, and losses and survivors make up all units |
| DogfoodMetrics.MapEvidence | benchmarks/dogfood/prepare.ts:149-224 | every unit is mapped to exactly the blocks that carry it, with exact completeness, and every negative judgment names a block of the corpus that carries no evidence; rejection happens only for a unit no answer is right for, or a misjudged block |
| DogfoodMetrics.EvidenceCounted | benchmarks/dogfood/metrics.ts:38-60 | the count of evidence at a stage is the number of mapped units that survive there: the source available, or prepared as a whole into blocks that are all still there |
| DogfoodMetrics.FactsCounted | benchmarks/dogfood/metrics.ts:48-60 | the counts of facts, and of critical facts, at a stage are the numbers of those one of whose alternatives survives there with all its evidence |
| DogfoodMetrics.RejectedIffSkips | benchmarks/dogfood/metrics.ts:24-26 | counting rejects exactly when some evidence reaches a stage without the one before |
| DogfoodMetrics.MappedNeverRejected | benchmarks/dogfood/metrics.ts:38-60 | for any mapped evidence, any facts and any nested stages, counting never rejects, neither evidence nor facts nor critical facts |
| Ranking.DocumentsOf | packages/adapters/src/minisearch-candidate-provider.ts:693-746 | indexes every block once under its own identifier, or answers the failure of the first block that is unreadable or repeats an identifier |
| Ranking.RankOrderIndependent | packages/adapters/src/minisearch-candidate-provider.ts:639-644 | every permutation of the library's answer gives the same candidates |
| Ranking.RankIsBest | packages/adapters/src/minisearch-candidate-provider.ts:651-678 | results in descending score, ties by identifier, ranked by position; nothing cut belongs before anything kept |
| Ranking.RankedEntries | packages/adapters/src/minisearch-candidate-provider.ts:651-678 | the candidates are the library's own entries from the highest score, ties by identifier, as many as may be kept, each with the block it names, its position as rank and the library's own score |
| Ranking.RankedIffUsable | packages/adapters/src/minisearch-candidate-provider.ts:859-902 | a ranking is given exactly when every entry names a block of the request with a positive finite score; otherwise the first entry that does not decides the failure |
| Ranking.GetCandidates | packages/adapters/src/minisearch-candidate-provider.ts:614-628 | a blank query answers nothing without inspecting a block, an unacceptable corpus its first problem, otherwise the ranking |
| Ranking.CandidatesAreRequestBlocks | packages/adapters/src/minisearch-candidate-provider.ts:654-656 | every candidate carries a block of the request itself |
| Ranking.RankedAreMapped | benchmarks/retrieval-calibration/profile.ts:34-70 | the mapping accepts a ranking exactly when no block occurs twice, keeps order and blocks, and scores each by the reciprocal of its position |
| Ranking.RepeatedResultIsRefused | benchmarks/retrieval-calibration/profile.ts:38-39 | a concrete library answer that the provider ranks and the mapping refuses, because it names one block twice |
| Ranking.ReciprocalsDecrease | benchmarks/retrieval-calibration/profile.ts:64-64 | mapped scores strictly decrease from 1 and stay positive |
| Ranking.MapOrderIndependent | benchmarks/retrieval-calibration/profile.ts:34-39 | what the mapping accepts does not depend on the order candidates arrive in |
| Ranking.MapAcceptsRankings | benchmarks/retrieval-calibration/profile.ts:34-70 | every rearrangement of a proper native ranking is accepted and mapped as that ranking |
| Ranking.MapAcceptsOnlyRankings | benchmarks/retrieval-calibration/profile.ts:38-55 | whatever is accepted is a rearrangement of a proper native ranking |
| Ranking.MappedIffRanking | benchmarks/retrieval-calibration/profile.ts:34-70 | a batch is accepted exactly when it rearranges blocks ranked from 0 on under the native contract, each once, with positive scores that never rise; the answer is those blocks in order under the mapped contract with reciprocal scores |
| Ranking.RefusedForRepetition | benchmarks/retrieval-calibration/profile.ts:38-39 | a batch is refused as repeated exactly when it names one block twice |
| Ranking.NamedOnceIsMapped | benchmarks/retrieval-calibration/profile.ts:73-84 | a library that names no block twice gives a ranking the mapping accepts |
| Ranking.ProfileOrderIndependent | benchmarks/retrieval-calibration/profile.ts:72-84 | the profile's candidates do not depend on the order of the request's blocks, for any library |
| Ranking.ProfileDocuments | benchmarks/retrieval-calibration/profile.ts:73-84 | the library is given every document of the request, by ascending identifier |
| Ranking.ProfileKeepsAll | benchmarks/retrieval-calibration/profile.ts:73-84 | the profile cuts nothing of an answer that names no block twice |

## Supporting facts

Smaller statements the results above rest on, or that follow from them in a step.

- `Lines.LineTextHasNoNewline` (packages/application/src/chunking-primitives.ts:219-221): no line text holds a newline.
- `StoredCells.BindIsIdentity` (packages/adapters/src/sqlite-control-store.ts:246-250): binding text is lossless exactly on well-formed text.
- `Scopes.ScopeRoundTrip` (packages/adapters/src/sqlite-control-store.ts:135-154): a valid scope is read back from its stored fields.
- `TraceStore.ReadStoredFacts` (packages/adapters/src/sqlite-trace-store.ts:246-298): a row that can be read declares version 1 and carries a valid scope, its own scope key, identifier and trace version.
- `TraceStore.UnreadableRowRefused` (packages/adapters/src/sqlite-trace-store.ts:375-384): a row that cannot be read never yields success and is never overwritten.
- `Registry.AliasedRemoval` (packages/adapters/src/sqlite-control-store.ts:606-614): keys whose text binds alike remove the same row.
- `Ranking.RankPrefixStable` (packages/adapters/src/minisearch-candidate-provider.ts:664-664): a smaller bound gives a prefix of a larger one.
- `Ranking.ByIdFacts` (packages/adapters/src/minisearch-candidate-provider.ts:681-692): an identifier finds a block exactly when the request has one, and without repetitions the only one.
- `Ranking.ResolvedAreFromCorpus` (packages/adapters/src/minisearch-candidate-provider.ts:859-902): a resolved result names a block of the request, carries that very block, and has a positive score.
- `Grouping.OversizedGroups` (packages/application/src/chunking-primitives.ts:519-530): a group over the limit is one range, and an atomic range over the limit stands alone.
- `Ranking.FirstProblemIs` (packages/adapters/src/minisearch-candidate-provider.ts:693-746): a request is refused for its first block without a readable identifier and content, or else with an identifier that occurred before.
- `Fallback.RequiredAreFirst` (packages/compiler/src/context-compiler.ts:900-903): where the required blocks alone cannot be measured, nothing else is tried.
- `TraceStore.QueryRefused` (packages/adapters/src/sqlite-trace-store.ts:446-455): a get is refused as invalid input exactly unless scope and compilation are named.
- `Evidence.OverlapsIffShares` (benchmarks/dogfood/prepare.ts:188-197): a block overlaps a span exactly when they share a code unit.
- `Utf16.WhitespaceIs` (packages/application/src/chunking-primitives.ts:289-301): the units counted as whitespace, listed one by one.
- `Splitting.SentenceCharacters` (packages/application/src/chunking-primitives.ts:303-313): the characters that end a sentence and those that may close after it.
- `Lines.LineNumberIs` (packages/application/src/chunking-primitives.ts:258-271): inside the text the line of an offset is one plus the number of newline positions before it.
- `Spelling.HexDigitsRead`, `Spelling.EscapesRead`, `JsonText.MalformedIntegers`, `JsonText.MalformedExponents` (packages/adapters/src/sqlite-json.ts:58-70): what a reader of stored text takes as a hexadecimal digit, an escape and a number.
- `Histories.RunAt` (packages/adapters/src/sqlite-control-store.ts:408-614): a history answers every operation in order, from the state the operations before it left.
- `ObjectGraph.ValueUnfolds` (packages/application/src/canonical-record.ts:224-236): which values that are no objects stand for themselves, and which for nothing.
- `Timestamps.Epoch`, `Timestamps.Carries` (packages/domain/src/timestamp.ts:43-43): where instants are counted from, and how months and two-digit years carry.
- `Timestamps.ShowsOne` (packages/domain/src/timestamp.ts:43-51): the accessors are well defined: an instant shows one set of components.
- `ApiHandler.AdmittedIff` (apps/api/src/handler.ts:43-66): a slot is taken exactly by a well-formed request for work on a ready handler with room, and by nothing else.
- `ApiServer.FinishIffIdle` (apps/api/src/server.ts:63-71): the runtime can be closed exactly when the drain has settled, either way, and no request holds a slot.
- `Grouping.GroupsSpanRuns` (packages/application/src/chunking-primitives.ts:491-497): the groups use every range once, in order, and span from the first start to the last end.
- `TraceStore.OtherScopeReadsAbsent` (packages/adapters/src/sqlite-trace-store.ts:439-466): a get answers absent exactly when the row found under the identifier carries another scope key, whether or not that row can be read.

## Left out

- JsonNumber.Read: keeps the exact decimal where the engine's parser rounds to a double, so a stored number written with excess digits, or too large for a double, is not identified with its rounding; numbers the stores print themselves are not affected.
- HeldoutMetrics.Index: computes the rank from the exact product of share and size; the engine's product is rounded, which can move a percentile other than the median by one position.
- HeldoutMetrics.MicroInRange: over exact reals; floating-point rounding of ratios, means and differences is not modelled.
- Lines.LineNumberAtOffset: halves with exact integers; the source's 32-bit shift differs only beyond a thousand million lines.
- RecordCopy.TryCloneJsonRecord: a hole of an array becomes an element that is explicitly `undefined` in the copy, as in the source, and both read as `undefined` here.
- Registry.ListRefines: rows are listed in table order; the source promises no order and the statement is about the set of entries.
- StoredCells.RequiredInteger: takes every integer column value; the driver's own error for an integer beyond the safe range is a read failure that is not modelled.
- ApiServer.EveryRun: starts from a listener that is up; a failed start closes the runtime once and serves nothing, and is not part of the runs.
- Tokenizer ports: a throwing tokenizer or an unusable count ends chunking with an error; the counter here is total.
- Block construction: hashes, identifiers, occurrence numbers and locations of blocks, which add no choice to the ranges.
- Markdown structure scanning: it only supplies ordered ranges, some atomic, which is what `TextChunking.SplitAndGroup` assumes.
- Schema validation: the stores accept values their schemas parsed; scope, source type, timestamp and integer rules are modelled, the general object schemas are not.
- Reading an untrusted envelope field by field: a record or registration arrives here as the values its own data properties hold.
- Proxies: a trap that throws is modelled as a node that cannot be inspected; a trap that answers differently on each read is not.
- Engine key order: integer-like keys come first in an engine's enumeration; entries keep the heap's order here, and canonical text does not depend on it.
- Stack depth: deep recursion is unbounded here.
- The copy of records that are already validated (`cloneRecord`): a simpler case of the untrusted copy.
- Schema migration, file opening and configuration: all-or-nothing by the same transaction, and otherwise plumbing.
- Error messages: failures carry their code only.
- HTTP parsing, body reading and response writing: their outcomes are parameters of a request; timers and the grace period only force the drain to settle.
- Liveness that depends on clients or timers: only the conditional forms are stated.
- The search library, its tokenization and its scores: an arbitrary answer.
- Correction.Search: the cache and the visited set are keyed by the set of block identifiers, where the source keys by their sorted list as JSON; identifiers are unique within a compilation.
- Fallback.SearchFallback: enumerations are lists here, so the laziness that keeps memory bounded is not modelled; what is visited, in which order, and when the search stops is.
- Allocation.Allocator: the allocator's tolerance of two groups under one identifier, which the pipeline cannot produce, and its reconciliation of its own result, which checks what is proved here.
- Compilation.VerifyResult: only the recomputed content; the other conditions of the result check are proved of what reaches it, or concern the trace and the rendered text.
- Selections.Candidate: scores are real numbers, only ever compared.
- The rest of the compiler kernel: validation, scoring, deduplication, filtering, ordering, rendering, traces, identifiers and fingerprints; their results are the eligible blocks and the rendering function.
- Aggregates of benchmark rows beyond the ranges above, gates and reports: sums and comparisons without a law of their own.
