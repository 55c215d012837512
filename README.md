# mtg-collection-manager: the collection/deck reconciliation, modelled in Dafny

`main` in `src/main.py` compares a Magic: The Gathering card collection with the
cards that a directory of deck lists uses. This project models that comparison:

- The collection is a table of rows (card, variation, set id, foil, quantity). The
  `" // "` in split-card names such as `Fire // Ice` is rewritten to `/`.
- Each deck list is a text file. Every non-empty line is parsed with one regular
  expression: `<quantity> <card>[ <variation>] [<set id>][ (F)]`.
- The foil group becomes `'foil'` or `'regular'`.
- Every row is tagged with the deck name. A file whose stem starts with `"Deck - "`
  is first renamed without that prefix. The deck name is the stem of the file after
  the rename.
- The per-file tables are concatenated and the quantities are read as int64, the
  default integer of NumPy on 64-bit Linux and macOS (see "## Left out").
- Rows are grouped by (card, variation, set id, foil). Each group sums its quantities
  and lists its decks.
- The collection and the grouped table are joined with an outer merge on all five
  columns. Only the rows present on one side are kept: this is the diff report.

Modules, one file each:

- `Common` (`common.dfy`): `Option`, `Result`, the key and the collection row.
- `Text` (`text.dfy`): digits, greedy spans, decimal reading.
- `LineParser` (`line_parser.dfy`): the regular expression. There is a declarative
  description of a match (`IsMatch`) and the engine's result (`Match`). The engine is
  proved sound, complete and preferred (greedy), and rendering round-trips through it.
- `Names` (`names.dfy`): the prefix strip and the separator rewrite.
- `Aggregator` (`aggregator.dfy`): the per-file parse and the loop over the files.
  The loop is the method `LoadDecks`, proved equal to the function `CombineDecks`.
  This module also holds the int64 conversion.
- `Reducer` (`reducer.dfy`): the group-by. It is proved against a per-key reference
  summary.
- `Differ` (`differ.dfy`): the outer merge minus the rows found on both sides.
- `Pipeline` (`pipeline.dfy`): the whole of `main` from line 16 to line 45. It is the
  method `Reconcile` and the function `Reconciliation`.

In several places the code behaves differently from what a reader might expect.
The model follows the code:

- **The set id is mandatory.** One might expect the set id to be optional, but the
  expression has no `?` after `\[(?P<set_id>\w+)\]`. `LineParser.MatchNeedsBracket`
  proves that a line without `[` never matches.
- **Deck card names are not rewritten.** One might expect `1 Fire // Ice
  <Showcase> [STX] (F)` to give the card `Fire/Ice`. The code rewrites only the collection's
  card column (line 16), so deck lines keep `Fire // Ice`. This is proved in
  `LineParser.ExampleSplitCardLine`. As a consequence, an owned split card is reported
  on both sides (`Pipeline.ExampleSplitCardReported`).
- **The diff compares quantities.** One might expect a diff by card existence.
  The merge of line 44 joins on all five columns, quantity included, so a card owned
  in a different quantity than the decks need is reported once per side
  (`Differ.ExampleQuantityMismatch`).
- **No deck file aborts the run.** One might expect an empty deck directory to give
  an empty deck table. `pd.concat` of an empty list raises instead
  (`Pipeline.NoFilesAborts`).
- **A deck file with only blank lines aborts the run.** Its table has no `foil`
  column, so line 31 raises (`Aggregator.Error.EmptyDeckFile`).

Two further facts about the code are proved as concrete examples:

- Stripping `"Deck - "` is not idempotent (`Names.StripNotIdempotent`).
- The single-pass `" // "` rewrite can leave a `" // "` behind
  (`Names.ReplaceCanLeaveSeparator`).

## Model

| member | source | states |
|---|---|---|
| LineParser.Match | src/main.py:18-19 | The groups `re.match` returns at line 30, or `None`. It has no contract of its own; `MatchSound`, `MatchComplete` and `RenderedRoundTrip` specify it against the declarative `IsMatch`. |
| LineParser.MatchSound | src/main.py:18-19 | Whatever `Match` returns is a match of the expression at the start of the line: digits, a space, a card without `[`/`<`, an optional ` <variation>`, ` [set id]` of word characters, an optional ` (F)`. |
| LineParser.MatchComplete | src/main.py:18-19 | Whenever any match exists, `Match` finds one. It has the same quantity and card, and the variation exactly when the other match has one, at least as long (greedy). With equal variations it has the same set id and takes the foil group whenever the other does. |
| LineParser.RenderedRoundTrip | src/main.py:18-19 | A line that is exactly the text of well-formed groups parses back to those groups. |
| LineParser.MatchNeedsBracket | src/main.py:18-19 | The set id is mandatory: a line that matches contains `[`. |
| LineParser.ExamplePlainLine | src/main.py:18-19 | `2 Opt [XLN]` gives quantity `2`, card `Opt`, no variation, set `XLN`, no foil marker. |
| LineParser.ExampleFoilLine | src/main.py:18-19 | `1 Opt <P> [X] (F)` gives variation `P`, set `X`, and the foil group matched. |
| LineParser.ExampleSplitCardLine | src/main.py:18-19 | The deck line `1 A // B [X]` keeps the card name `A // B`. |
| LineParser.ExampleGreedyVariation | src/main.py:18-19 | In `1 A <x> [S] <y> [T]` the greedy variation runs to the last `>`: variation `x> [S] <y`, set `T`. |
| Text.DecimalRoundTrip | src/main.py:37 | Reading the decimal text of a number gives the number back. |
| Text.LeadingZeroIgnored | src/main.py:37 | A leading zero does not change the quantity that is read. |
| Names.StripDeckPrefix | src/main.py:24-25 | A stem starting with `Deck - ` is that prefix followed by the deck name; any other stem is the deck name itself. |
| Names.StripChangesOnlyPrefixed | src/main.py:24-25 | The deck name differs from the stem exactly when the stem starts with `Deck - `. |
| Names.StripTwice | src/main.py:24-25 | A second strip changes the name exactly when the name still starts with the prefix. |
| Names.StripNotIdempotent | src/main.py:24-25 | `Deck - Deck - Burn` is read as `Deck - Burn` and, after the rename, as `Burn` on the next run. |
| Names.DeckName | src/main.py:24-33 | The deck name of line 33 is the stem of the renamed file: the stem without a leading `Deck - `, except that the stem `Deck - ` alone leaves the file `.txt`, whose stem is `.txt`. |
| Names.DeckNameNonEmpty | src/main.py:24-33 | A non-empty stem never gives an empty deck name. |
| Names.ReplaceSeparator | src/main.py:16 | The `str.replace` of line 16. It has no contract of its own; `ReplaceIsJoinOfSplit`, with `SplitJoin` and `SplitPiecesFree`, specifies it. |
| Names.SplitJoin | src/main.py:16 | Joining the pieces of the left-to-right split on ` // ` with ` // ` gives the name back. |
| Names.SplitPiecesFree | src/main.py:16 | No piece of that split contains ` // `. |
| Names.ReplaceIsJoinOfSplit | src/main.py:16 | The rewrite replaces every occurrence that the scan finds by `/` and keeps all other characters in order: it is the split joined with `/`. |
| Names.ReplaceWithoutSeparator | src/main.py:16 | A name without ` // ` is unchanged. |
| Names.ExampleSplitCard | src/main.py:16 | `A // B` becomes `A/B`. |
| Names.ReplaceCanLeaveSeparator | src/main.py:16 | The single pass turns `a / //  b` into `a // b`, which still contains ` // `. |
| Names.NormalizeCollection | src/main.py:16 | Same number of rows in the same order. Each card is the rewritten card of its row, and every other column is unchanged. |
| Aggregator.FoilColumn | src/main.py:31 | The foil column is `foil` exactly when the foil group matched, and `regular` otherwise. |
| Aggregator.ParseLines | src/main.py:30-33 | One file's rows, or the first unmatched line. It has no contract of its own; `ParseLinesSucceeds`, `ParseLinesRows`, `ParseLinesFirstFailure` and `ParseLinesParsed` specify it. |
| Aggregator.ParseLinesSucceeds | src/main.py:30 | A file's lines parse exactly when every non-empty line matches. |
| Aggregator.ParseLinesRows | src/main.py:30-33 | Empty lines give no row. The `j`-th non-empty line gives row `j`: its match, tagged with the deck. |
| Aggregator.ParseLinesFirstFailure | src/main.py:30 | A failed parse reports the first non-empty line that does not match. Every non-empty line before it matches. |
| Aggregator.ParseLinesParsed | src/main.py:30-33 | Every row has a digit quantity, a card without `[`/`<`, a set id, a `foil`/`regular` label and the file's deck. |
| Aggregator.ParseDeckFile | src/main.py:24-33 | One file's table, or the error that aborts the run. It has no contract of its own; `ParseDeckFileSpec` and `ParseDeckFileRows` specify it. |
| Aggregator.ParseDeckFileSpec | src/main.py:24-33 | A file loads exactly when it has a non-empty line and every non-empty line matches. Its table then has one row per non-empty line, tagged with the stem of the renamed file (`DeckName`). |
| Aggregator.ParseDeckFileRows | src/main.py:24-33 | A loaded file's row `j` is the parse of its `j`-th non-empty line, tagged with the stem of the renamed file. |
| Aggregator.ExamplePrefixOnlyFile | src/main.py:24-33 | The file `Deck - .txt` is renamed to `.txt`, and its rows are tagged `.txt`. |
| Aggregator.ParseAllSucceeds | src/main.py:21-34 | The loop over the files completes exactly when every file loads. |
| Aggregator.ParseAllTables | src/main.py:21-34 | After the loop, `deck_list` holds one table per file, in walk order, each that file's own. |
| Aggregator.ParseAllStopsAtFailure | src/main.py:21-34 | When the files before `i` load and file `i` fails, the run aborts with file `i`'s error. |
| Aggregator.LoadDecks | src/main.py:21-36 | The loop and the `pd.concat` give exactly `CombineDecks`: the concatenation of the per-file tables, the first file's error, or the no-files error. |
| Aggregator.CombineDecks | src/main.py:21-36 | The concatenated deck table, or the error that aborts the run. It has no contract of its own; `LoadDecks`, `CombineDecksSpec` and `CombineDecksProvenance` specify it. |
| Aggregator.CombineDecksSpec | src/main.py:21-36 | Loading succeeds exactly when there is a file and every file loads. The combined table then has one row per non-empty line over all files, and every row is parsed. |
| Aggregator.CombineDecksProvenance | src/main.py:21-36 | Row `LineCount(files[..i]) + j` of the combined table is the parse of the `j`-th non-empty line of file `i`, tagged with that file's deck name. |
| Aggregator.ToEntries | src/main.py:37 | The conversion succeeds exactly when every quantity fits in int64. Each entry then keeps its row's key and deck and carries the decimal value of its quantity. |
| Reducer.SelectCount | src/main.py:39-42 | The rows selected for a key are the rows with that key, each as often as it occurs, and no other. |
| Reducer.Reduce | src/main.py:39-42 | The grouped table. It has no contract of its own; `ReduceSpec` and `ReduceConserves` specify it against the per-key `Summary`. |
| Reducer.ReduceSpec | src/main.py:39-42 | The grouped table has exactly one group per key of the rows. Each group carries the sum of that key's quantities and that key's decks in table order. |
| Reducer.ReduceLookup | src/main.py:39-42 | Every key of the rows has its group in the grouped table. |
| Reducer.ReduceGroupsNonEmpty | src/main.py:39-42 | Every group lists at least one deck. |
| Reducer.ReduceConserves | src/main.py:39-42 | The groups' quantities add up to the sum of all row quantities. |
| Reducer.ExampleTwoDecks | src/main.py:39-42 | Two rows of one card from decks `Burn` (2) and `Control` (1) become one group of 3 listing both decks. |
| Differ.Diff | src/main.py:44-45 | The rows of the outer merge whose indicator is not `both`. It has no contract of its own; `DiffMembership`, `DiffSides` and `DiffMultiplicity` specify it. |
| Differ.DiffMembership | src/main.py:44-45 | A five-column tuple is in the report exactly when it occurs in the collection or among the grouped rows, but not both. |
| Differ.DiffSides | src/main.py:44-45 | A `left_only` row is a collection tuple absent from the groups, with no decks. A `right_only` row is a group's tuple absent from the collection, with that group's decks. |
| Differ.LeftMultiplicity | src/main.py:44-45 | A collection tuple absent from the groups is reported as often as the collection holds it. Any other tuple is not reported as `left_only`. |
| Differ.RightMultiplicity | src/main.py:44-45 | With one group per key, a grouped tuple that the collection lacks is reported exactly once as `right_only`. Any other tuple is not reported as `right_only`. |
| Differ.DiffMultiplicity | src/main.py:44-45 | With one group per key, the report holds a tuple as often as the collection does when no group has it, once when only a group has it, and never when both sides have it. |
| Differ.DiffEmpty | src/main.py:44-45 | The report is empty exactly when the collection and the grouped rows hold the same tuples. |
| Differ.ExampleQuantityMismatch | src/main.py:44-45 | A card owned 3 times and used 4 times is reported twice, once per side, because quantity is a join column. |
| Pipeline.DeckEntries | src/main.py:21-37 | The deck rows with integer quantities, or the loading error. It has no contract of its own; `DeckEntriesSucceed` specifies when it succeeds. |
| Pipeline.Reconciliation | src/main.py:16-45 | The unsorted report, or the loading error. It has no contract of its own; `ReconciliationReports`, `ReconciliationCounts` and `ReconciliationEmpty` specify it. |
| Pipeline.Reconcile | src/main.py:16-45 | The run computes `Reconciliation`: the diff of the normalised collection and the grouped deck rows, or the loading error. |
| Pipeline.DeckEntriesSucceed | src/main.py:21-37 | The deck rows are obtained exactly when there is a file, every file loads and every quantity fits in int64. |
| Pipeline.NoFilesAborts | src/main.py:36 | Without deck files the run aborts with the no-files error, whatever the collection holds. |
| Pipeline.ReducedRows | src/main.py:39-42 | A tuple is a grouped row exactly when its key occurs in the decks and its quantity is that key's total over all decks. |
| Pipeline.ReconciliationReports | src/main.py:16-45 | A tuple is reported exactly when the normalised collection has it but the decks do not use that key in exactly that total, or the other way round. |
| Pipeline.ReconciliationCounts | src/main.py:16-45 | A normalised collection tuple that the decks do not use at exactly that total is reported once per collection row that carries it. A deck key at its total that the collection lacks is reported once. Every other tuple is not reported. |
| Pipeline.ReconciliationEmpty | src/main.py:16-45 | The report is empty exactly when the normalised collection rows are the deck keys at their totals. |
| Pipeline.ExampleSplitCardReported | src/main.py:16-45 | An owned `A // B` used once by a deck is reported twice: `A/B` as collection-only, `A // B` as deck-only. |

## Left out

- Reading the collection CSV, selecting its columns and renaming them (lines 11-15): the collection is given as a sequence of rows.
- The directory walk, `sorted`, the rename of `Deck - ` files on disk, and the file reads (lines 22, 25, 27-28): the deck files are given as an ordered sequence of stems and lines.
- The progress printing and the output of the report (lines 7, 23, 50-54): they produce no data.
- Sorting the report by `decks` and resetting its index (lines 47-48): no ordering is modelled. The group-by's sorted key order is also left out; `Reduce` keeps first-appearance order.
- An owned/missing partitioning per deck: `src/main.py` has no such code, so there is nothing to model.
- The Unicode `\d` and `\w` classes: the quantity (`\d+`) and the set id (`\w+`) are modelled with ASCII digits, letters and underscore only. A quantity or set id written with other Unicode digits or letters is rejected by the model although Python accepts it. Card names and variations are unaffected: `[^[<]` and `.` accept any character, including non-ASCII ones.
- Missing values in the collection (NaN cells, float quantities): collection cells are modelled as present strings or `Option`s and integer quantities. The merge matches a missing value only with a missing value, as the model's `None == None` does.
- Differ.Diff: the model assumes that `read_csv` reads every key column of the collection (card, variation, set id, foil) as strings. pandas refuses to merge a numeric column with a string column, so line 44 raises `ValueError` when one of them gets a numeric dtype: a `Set ID` or `Variation` column that is empty in every row (read as float NaN) while the deck rows carry strings there, or a `Set ID` column that holds only digits (read as int64). The model's `Diff` never fails, so `Reconciliation` succeeds whenever the decks load, where the program would abort in those cases.
- Pipeline.Reconciliation: the same assumption as `Differ.Diff` about the dtypes of the collection's key columns; `ReconciliationReports`, `ReconciliationCounts` and `ReconciliationEmpty` hold under it.
- Aggregator.ParseDeckFileSpec: the deck name is `DeckName` of the stem, the stem the renamed file has with Python 3.9 to 3.12. From Python 3.13 on, `with_stem` raises for a file named `Deck - .txt` and the run aborts; the model tags that file's rows `.txt` instead. The model also assumes that no rename lands on a file that the walk reaches later. Such a rename (`Deck - Zoo.txt` onto `Zoo.txt`) replaces that file on disk, so its original lines are never read and the renamed file's lines are read twice. The model reads each file's own lines once.
- Aggregator.ParseDeckFileRows: the same two assumptions as `ParseDeckFileSpec` about the deck name and rename collisions.
- Aggregator.CombineDecksProvenance: the same two assumptions as `ParseDeckFileSpec` about the deck name and rename collisions.
- Reducer.Reduce: the int64 sum of quantities is modelled as an unbounded sum; numpy's wrap-around past 2^63 - 1 is not modelled.
- Aggregator.ToEntries: `astype(int)` gives NumPy's default integer, which the model takes to be int64 (bound `Int64Max` = 2^63 - 1), as on 64-bit Linux and macOS. On Windows with NumPy 1.x it is int32, and quantities above 2^31 - 1 overflow there; that platform is not modelled. When several quantities are out of range, the error names the first such row. pandas' exact error message is not modelled.
