/** Lines 21-37 of src/main.py: every deck file is read line by line, each non-empty
    line is parsed, the foil group becomes `'foil'` or `'regular'`, every row is tagged
    with the file's deck name, the per-file tables are concatenated, and the quantity
    column is converted to 64-bit integers.

    The directory walk (`sorted(Path(deck_dir).rglob('*.txt'))`) and the file reads are
    replaced by an ordered sequence of `DeckFile`s, one per file in walk order. */
module Aggregator {
  import opened Common
  import opened Text
  import opened LineParser
  import opened Names

  /** Largest value of numpy's int64, the type `astype(int)` produces on 64-bit Linux
      and macOS (Windows with NumPy 1.x gives int32, which is not modelled). */
  const Int64Max: int := 0x7FFF_FFFF_FFFF_FFFF

  /** One deck file: its stem (file name without `.txt`) and its lines. */
  datatype DeckFile = DeckFile(stem: string, lines: seq<string>)

  /** A row of a per-file table: the quantity still as text, the key columns, the deck. */
  datatype TaggedLine = TaggedLine(quantity: string, key: Key, deck: string)

  /** A row of the concatenated table once `quantity` is an integer. */
  datatype DeckEntry = DeckEntry(key: Key, quantity: int, deck: string)

  /** The ways the run aborts while the deck files are loaded. */
  datatype Error =
    | UnmatchedLine(deck: string, line: string)  // `re.match` gave None: `.groupdict()` raises
    | EmptyDeckFile(deck: string)                // no rows: the table has no 'foil' column
    | NoDeckFiles                                // `pd.concat` of an empty list raises
    | QuantityOutOfRange(quantity: string)       // too large for int64

  /** Line 31: the foil column holds `'foil'` exactly when the foil group matched, and
      `'regular'` otherwise. */
  function FoilColumn(matched: bool): (column: string)
    ensures column == "foil" <==> matched
    ensures column == "foil" || column == "regular"
  {
    if matched then "foil" else "regular"
  }

  /** One row of a per-file table (lines 30-33). */
  function Tag(g: Groups, deck: string): TaggedLine {
    TaggedLine(g.quantity, Key(g.card, g.variation, Some(g.setId), FoilColumn(g.foil)), deck)
  }

  /** What every parsed row satisfies: a digit quantity, a card without `[` or `<`, a
      set id, and a foil label. */
  predicate Parsed(t: TaggedLine) {
    && |t.quantity| > 0 && AllOf(t.quantity, IsDigit)
    && |t.key.card| > 0 && AllOf(t.key.card, IsCardChar)
    && t.key.setId.Some? && |t.key.setId.value| > 0 && AllOf(t.key.setId.value, IsWordChar)
    && (t.key.foil == "foil" || t.key.foil == "regular")
  }

  /** The lines that `if len(line)` keeps. */
  function NonEmpty(lines: seq<string>): (kept: seq<string>)
    ensures |kept| <= |lines|
    ensures forall j :: 0 <= j < |kept| ==> kept[j] != []
  {
    if lines == [] then []
    else if lines[0] == [] then NonEmpty(lines[1..])
    else [lines[0]] + NonEmpty(lines[1..])
  }

  /** Line 30 with lines 31 and 33: parse the non-empty lines in order; the first one
      that does not match aborts. */
  function ParseLines(lines: seq<string>, deck: string): Result<seq<TaggedLine>, Error>
    decreases |lines|
  {
    if lines == [] then Success([])
    else if lines[0] == [] then ParseLines(lines[1..], deck)
    else
      var g := Match(lines[0]);
      if g.None? then Failure(UnmatchedLine(deck, lines[0]))
      else
        var rest :- ParseLines(lines[1..], deck);
        Success([Tag(g.value, deck)] + rest)
  }

  /** The parse succeeds exactly when every non-empty line matches. */
  lemma {:induction false} ParseLinesSucceeds(lines: seq<string>, deck: string)
    ensures ParseLines(lines, deck).Success? <==>
      forall i :: 0 <= i < |lines| && lines[i] != [] ==> Match(lines[i]).Some?
    decreases |lines|
  {
    if lines != [] {
      var tail := lines[1..];
      ParseLinesSucceeds(tail, deck);
      assert forall i :: 0 <= i < |tail| ==> tail[i] == lines[i + 1];
      if !ParseLines(lines, deck).Success? && (lines[0] == [] || Match(lines[0]).Some?) {
        var i :| 0 <= i < |tail| && tail[i] != [] && Match(tail[i]).None?;
        assert lines[i + 1] == tail[i];
      }
    }
  }

  /** Empty lines give no row; every other line gives exactly one row, the parse of that
      line tagged with the deck, in line order. */
  lemma {:induction false} ParseLinesRows(lines: seq<string>, deck: string)
    requires ParseLines(lines, deck).Success?
    ensures var rows := ParseLines(lines, deck).value;
      && |rows| == |NonEmpty(lines)|
      && forall j :: 0 <= j < |rows| ==>
           Match(NonEmpty(lines)[j]).Some? && rows[j] == Tag(Match(NonEmpty(lines)[j]).value, deck)
    decreases |lines|
  {
    if lines != [] {
      var tail := lines[1..];
      if lines[0] == [] {
        ParseLinesRows(tail, deck);
      } else {
        var g := Match(lines[0]);
        var rest := ParseLines(tail, deck);
        assert ParseLines(lines, deck) == Success([Tag(g.value, deck)] + rest.value);
        ParseLinesRows(tail, deck);
        assert NonEmpty(lines) == [lines[0]] + NonEmpty(tail);
      }
    }
  }

  /** A failed parse names the first non-empty line that does not match. */
  lemma {:induction false} ParseLinesFirstFailure(lines: seq<string>, deck: string)
    requires ParseLines(lines, deck).Failure?
    ensures exists i :: (0 <= i < |lines| && lines[i] != [] && Match(lines[i]).None?
      && ParseLines(lines, deck).error == UnmatchedLine(deck, lines[i])
      && forall j :: 0 <= j < i && lines[j] != [] ==> Match(lines[j]).Some?)
    decreases |lines|
  {
    var tail := lines[1..];
    if lines[0] != [] && Match(lines[0]).None? {
      assert ParseLines(lines, deck).error == UnmatchedLine(deck, lines[0]);
    } else {
      assert ParseLines(tail, deck).Failure?;
      assert ParseLines(lines, deck).error == ParseLines(tail, deck).error;
      ParseLinesFirstFailure(tail, deck);
      var i :| 0 <= i < |tail| && tail[i] != [] && Match(tail[i]).None?
        && ParseLines(tail, deck).error == UnmatchedLine(deck, tail[i])
        && forall j :: 0 <= j < i && tail[j] != [] ==> Match(tail[j]).Some?;
      assert lines[i + 1] == tail[i];
      forall j | 0 <= j < i + 1 && lines[j] != [] ensures Match(lines[j]).Some? {
        if j > 0 { assert lines[j] == tail[j - 1]; }
      }
    }
  }

  /** Every row the parse produces satisfies `Parsed`. */
  lemma ParseLinesParsed(lines: seq<string>, deck: string)
    requires ParseLines(lines, deck).Success?
    ensures forall j :: 0 <= j < |ParseLines(lines, deck).value| ==>
      Parsed(ParseLines(lines, deck).value[j]) && ParseLines(lines, deck).value[j].deck == deck
  {
    ParseLinesRows(lines, deck);
    var rows := ParseLines(lines, deck).value;
    forall j | 0 <= j < |rows| ensures Parsed(rows[j]) && rows[j].deck == deck {
      MatchSound(NonEmpty(lines)[j]);
    }
  }

  /** Lines 24-33 for one file: the deck name is the stem of the file once it has been
      renamed without its `"Deck - "` prefix, then the lines are parsed; a file with no
      non-empty line aborts, because its table has no `foil` column. */
  function ParseDeckFile(f: DeckFile): Result<seq<TaggedLine>, Error> {
    var deck := DeckName(f.stem);
    var table :- ParseLines(f.lines, deck);
    if table == [] then Failure(EmptyDeckFile(deck)) else Success(table)
  }

  /** A file loads exactly when every non-empty line matches and there is at least one;
      it then holds one row per non-empty line, all tagged with the file's deck name. */
  lemma ParseDeckFileSpec(f: DeckFile)
    ensures ParseDeckFile(f).Success? <==>
      |NonEmpty(f.lines)| > 0 && forall i :: 0 <= i < |f.lines| && f.lines[i] != [] ==> Match(f.lines[i]).Some?
    ensures ParseDeckFile(f).Success? ==>
      var table := ParseDeckFile(f).value;
      && |table| == |NonEmpty(f.lines)|
      && forall j :: 0 <= j < |table| ==> Parsed(table[j]) && table[j].deck == DeckName(f.stem)
  {
    var deck := DeckName(f.stem);
    ParseLinesSucceeds(f.lines, deck);
    if ParseLines(f.lines, deck).Success? {
      ParseLinesRows(f.lines, deck);
      ParseLinesParsed(f.lines, deck);
    }
  }

  /** A loaded file's table is the parse of its non-empty lines, in order, each tagged
      with the file's deck name. */
  lemma ParseDeckFileRows(f: DeckFile)
    requires ParseDeckFile(f).Success?
    ensures |ParseDeckFile(f).value| == |NonEmpty(f.lines)|
    ensures forall j :: 0 <= j < |NonEmpty(f.lines)| ==>
      && Match(NonEmpty(f.lines)[j]).Some?
      && ParseDeckFile(f).value[j] == Tag(Match(NonEmpty(f.lines)[j]).value, DeckName(f.stem))
  {
    ParseLinesRows(f.lines, DeckName(f.stem));
  }

  /** A matching line followed by a blank line gives one row. */
  lemma ParseLineThenBlank(line: string, deck: string, g: Groups)
    requires line != [] && Match(line) == Some(g)
    ensures ParseLines([line, ""], deck) == Success([Tag(g, deck)])
  {
    assert [line, ""][1..] == [""] && [""][1..] == [];
    assert [Tag(g, deck)] + [] == [Tag(g, deck)];
  }

  /** A file `Deck - .txt` is renamed to `.txt`, and its rows are tagged `.txt`. */
  lemma ExamplePrefixOnlyFile(f: DeckFile)
    requires f == DeckFile("Deck - ", ["2 Opt [XLN]", ""])
    ensures ParseDeckFile(f) == Success([TaggedLine("2", Key("Opt", None, Some("XLN"), "regular"), ".txt")])
  {
    assert DeckName(f.stem) == ".txt";
    ExamplePlainLine(f.lines[0]);
    ParseLineThenBlank(f.lines[0], ".txt", Groups("2", "Opt", None, "XLN", false));
  }

  /** What loading one file gives: its table, or the error that aborts the run. */
  type Outcome = Result<seq<TaggedLine>, Error>

  /** The tables of `deck_list` (lines 21-34) from each file's outcome in walk order;
      the first file that fails aborts the walk. */
  function Collect(outcomes: seq<Outcome>): Result<seq<seq<TaggedLine>>, Error>
    decreases |outcomes|
  {
    if outcomes == [] then Success([])
    else
      var before :- Collect(outcomes[..|outcomes| - 1]);
      var last :- outcomes[|outcomes| - 1];
      Success(before + [last])
  }

  /** Each file's outcome, in walk order. */
  function Outcomes(files: seq<DeckFile>): (outcomes: seq<Outcome>)
    ensures |outcomes| == |files|
    ensures forall i :: 0 <= i < |files| ==> outcomes[i] == ParseDeckFile(files[i])
  {
    seq(|files|, i requires 0 <= i < |files| => ParseDeckFile(files[i]))
  }

  /** The per-file tables of the walk over `files`. */
  function ParseAll(files: seq<DeckFile>): Result<seq<seq<TaggedLine>>, Error> {
    Collect(Outcomes(files))
  }

  /** A successful walk over a non-empty list is the walk over all but the last file,
      extended by the last file's table. */
  lemma CollectSnoc(outcomes: seq<Outcome>)
    requires outcomes != [] && Collect(outcomes).Success?
    ensures var n := |outcomes| - 1;
      && Collect(outcomes[..n]).Success? && outcomes[n].Success?
      && Collect(outcomes).value == Collect(outcomes[..n]).value + [outcomes[n].value]
  {
  }

  /** A successful walk holds each file's table at that file's position. */
  lemma {:induction false} CollectAt(outcomes: seq<Outcome>, i: nat)
    requires Collect(outcomes).Success? && i < |outcomes|
    ensures |Collect(outcomes).value| == |outcomes|
    ensures outcomes[i] == Success(Collect(outcomes).value[i])
    decreases |outcomes|
  {
    var n := |outcomes| - 1;
    CollectSnoc(outcomes);
    if i < n {
      CollectAt(outcomes[..n], i);
    } else if n > 0 {
      CollectAt(outcomes[..n], 0);
    }
  }

  /** When every file loads, so does the walk. */
  lemma {:induction false} CollectFromEach(outcomes: seq<Outcome>)
    requires forall i :: 0 <= i < |outcomes| ==> outcomes[i].Success?
    ensures Collect(outcomes).Success?
    decreases |outcomes|
  {
    if outcomes != [] {
      var n := |outcomes| - 1;
      CollectFromEach(outcomes[..n]);
    }
  }

  /** Once the file at position `i` fails, the whole walk fails with its error. */
  lemma {:induction false} CollectStopsAtFailure(outcomes: seq<Outcome>, i: nat)
    requires i < |outcomes| && Collect(outcomes[..i]).Success? && outcomes[i].Failure?
    ensures Collect(outcomes) == Failure(outcomes[i].error)
    decreases |outcomes|
  {
    var init := outcomes[..|outcomes| - 1];
    if i == |outcomes| - 1 {
      assert init == outcomes[..i];
    } else {
      assert init[..i] == outcomes[..i];
      CollectStopsAtFailure(init, i);
    }
  }

  /** The walk succeeds exactly when every file loads. */
  lemma ParseAllSucceeds(files: seq<DeckFile>)
    ensures ParseAll(files).Success? <==> forall i :: 0 <= i < |files| ==> ParseDeckFile(files[i]).Success?
  {
    var outcomes := Outcomes(files);
    if ParseAll(files).Success? {
      forall i | 0 <= i < |files| ensures ParseDeckFile(files[i]).Success? {
        CollectAt(outcomes, i);
      }
    } else if forall i :: 0 <= i < |files| ==> ParseDeckFile(files[i]).Success? {
      CollectFromEach(outcomes);
    }
  }

  /** A successful walk holds one table per file, each file's own. */
  lemma ParseAllTables(files: seq<DeckFile>)
    requires ParseAll(files).Success?
    ensures |ParseAll(files).value| == |files|
    ensures forall i :: 0 <= i < |files| ==> ParseDeckFile(files[i]) == Success(ParseAll(files).value[i])
  {
    var outcomes := Outcomes(files);
    if files != [] {
      CollectAt(outcomes, 0);
    }
    forall i | 0 <= i < |files| ensures ParseDeckFile(files[i]) == Success(ParseAll(files).value[i]) {
      CollectAt(outcomes, i);
    }
  }

  /** Once the file at position `i` fails, the whole walk fails with its error. */
  lemma ParseAllStopsAtFailure(files: seq<DeckFile>, i: nat)
    requires i < |files| && ParseAll(files[..i]).Success? && ParseDeckFile(files[i]).Failure?
    ensures ParseAll(files) == Failure(ParseDeckFile(files[i]).error)
  {
    assert Outcomes(files)[..i] == Outcomes(files[..i]);
    CollectStopsAtFailure(Outcomes(files), i);
  }

  /** `pd.concat`: the rows of all tables, table after table. */
  function Flatten(tables: seq<seq<TaggedLine>>): seq<TaggedLine> {
    if tables == [] then [] else Flatten(tables[..|tables| - 1]) + tables[|tables| - 1]
  }

  /** Lines 21-36: the concatenated table of all deck files, or the error that aborts
      the run (the first failing file, or `pd.concat` of no tables). */
  function CombineDecks(files: seq<DeckFile>): Result<seq<TaggedLine>, Error> {
    var tables :- ParseAll(files);
    if tables == [] then Failure(NoDeckFiles) else Success(Flatten(tables))
  }

  /** One more file that loads extends the walk by its table. */
  lemma CollectExtend(outcomes: seq<Outcome>, i: nat, tables: seq<seq<TaggedLine>>)
    requires i < |outcomes| && Collect(outcomes[..i]) == Success(tables) && outcomes[i].Success?
    ensures Collect(outcomes[..i + 1]) == Success(tables + [outcomes[i].value])
  {
    assert outcomes[..i + 1][..i] == outcomes[..i];
  }

  /** The loop of lines 21-34 followed by the `pd.concat` of line 36. */
  method LoadDecks(files: seq<DeckFile>) returns (r: Result<seq<TaggedLine>, Error>)
    ensures r == CombineDecks(files)
  {
    var deckList: seq<seq<TaggedLine>> := [];
    for i := 0 to |files|
      invariant Collect(Outcomes(files)[..i]) == Success(deckList)
    {
      var deck := ParseDeckFile(files[i]);
      if deck.Failure? {
        CollectStopsAtFailure(Outcomes(files), i);
        return Failure(deck.error);
      }
      CollectExtend(Outcomes(files), i, deckList);
      deckList := deckList + [deck.value];
    }
    assert Outcomes(files)[..|files|] == Outcomes(files);
    if deckList == [] {
      return Failure(NoDeckFiles);
    }
    return Success(Flatten(deckList));
  }

  /** The number of non-empty lines over all files. */
  function LineCount(files: seq<DeckFile>): nat {
    if files == [] then 0 else LineCount(files[..|files| - 1]) + |NonEmpty(files[|files| - 1].lines)|
  }

  /** The run gets past loading exactly when there is at least one file and every file
      loads; the concatenated table then has one row per non-empty line of all files,
      and every row is a parsed line. */
  lemma {:induction false} CombineDecksSpec(files: seq<DeckFile>)
    ensures CombineDecks(files).Success? <==>
      |files| > 0 && forall i :: 0 <= i < |files| ==> ParseDeckFile(files[i]).Success?
    ensures CombineDecks(files).Success? ==>
      && |CombineDecks(files).value| == LineCount(files)
      && forall p :: 0 <= p < |CombineDecks(files).value| ==> Parsed(CombineDecks(files).value[p])
  {
    ParseAllSucceeds(files);
    if CombineDecks(files).Success? {
      var tables := ParseAll(files).value;
      LoadedTables(files);
      FlattenLength(files, tables);
      FlattenParsed(tables);
    }
  }

  /** The tables of a successful walk: one per file, with one parsed row per non-empty
      line of that file, each tagged with the file's deck name. */
  lemma LoadedTables(files: seq<DeckFile>)
    requires ParseAll(files).Success?
    ensures |ParseAll(files).value| == |files|
    ensures forall k :: 0 <= k < |files| ==> |ParseAll(files).value[k]| == |NonEmpty(files[k].lines)|
    ensures forall k, j :: 0 <= k < |files| && 0 <= j < |ParseAll(files).value[k]| ==>
      Parsed(ParseAll(files).value[k][j]) && ParseAll(files).value[k][j].deck == DeckName(files[k].stem)
  {
    var tables := ParseAll(files).value;
    ParseAllTables(files);
    forall k | 0 <= k < |files|
      ensures |tables[k]| == |NonEmpty(files[k].lines)|
      ensures forall j :: 0 <= j < |tables[k]| ==> Parsed(tables[k][j]) && tables[k][j].deck == DeckName(files[k].stem)
    {
      ParseDeckFileSpec(files[k]);
    }
  }

  /** The concatenation has as many rows as the files have non-empty lines, when each
      table has one row per non-empty line of its file. */
  lemma {:induction false} FlattenLength(files: seq<DeckFile>, tables: seq<seq<TaggedLine>>)
    requires |tables| == |files|
    requires forall k :: 0 <= k < |files| ==> |tables[k]| == |NonEmpty(files[k].lines)|
    ensures |Flatten(tables)| == LineCount(files)
    decreases |files|
  {
    if files != [] {
      var n := |files| - 1;
      assert forall k :: 0 <= k < n ==> files[..n][k] == files[k] && tables[..n][k] == tables[k];
      FlattenLength(files[..n], tables[..n]);
    }
  }

  /** Every row of the concatenation is a row of one of the tables. */
  lemma {:induction false} FlattenParsed(tables: seq<seq<TaggedLine>>)
    requires forall k, j :: 0 <= k < |tables| && 0 <= j < |tables[k]| ==> Parsed(tables[k][j])
    ensures forall p :: 0 <= p < |Flatten(tables)| ==> Parsed(Flatten(tables)[p])
    decreases |tables|
  {
    if tables != [] {
      var n := |tables| - 1;
      var before := Flatten(tables[..n]);
      assert forall k :: 0 <= k < n ==> tables[..n][k] == tables[k];
      FlattenParsed(tables[..n]);
      forall p | 0 <= p < |Flatten(tables)| ensures Parsed(Flatten(tables)[p]) {
        if p >= |before| {
          assert Flatten(tables)[p] == tables[n][p - |before|];
        } else {
          assert Flatten(tables)[p] == before[p];
        }
      }
    }
  }

  /** Row `j` of table `i` sits in the concatenation after the rows of all earlier
      tables. */
  lemma {:induction false} FlattenAt(tables: seq<seq<TaggedLine>>, i: nat, j: nat)
    requires i < |tables| && j < |tables[i]|
    ensures |Flatten(tables[..i])| + j < |Flatten(tables)|
    ensures Flatten(tables)[|Flatten(tables[..i])| + j] == tables[i][j]
    decreases |tables|
  {
    var n := |tables| - 1;
    var before := Flatten(tables[..n]);
    assert Flatten(tables) == before + tables[n];
    if i == n {
      assert tables[..i] == tables[..n];
    } else {
      assert tables[..n][..i] == tables[..i];
      FlattenAt(tables[..n], i, j);
    }
  }

  /** With one table per file and one row per non-empty line, row `j` of table `i`
      sits in the concatenation after the non-empty lines of the files before `i`. */
  lemma FlattenOffset(files: seq<DeckFile>, tables: seq<seq<TaggedLine>>, i: nat, j: nat)
    requires |tables| == |files|
    requires forall k :: 0 <= k < |files| ==> |tables[k]| == |NonEmpty(files[k].lines)|
    requires i < |files| && j < |tables[i]|
    ensures LineCount(files[..i]) + j < |Flatten(tables)|
    ensures Flatten(tables)[LineCount(files[..i]) + j] == tables[i][j]
  {
    assert forall k :: 0 <= k < i ==> tables[..i][k] == tables[k] && files[..i][k] == files[k];
    FlattenLength(files[..i], tables[..i]);
    FlattenAt(tables, i, j);
  }

  /** Row `p` of the concatenated table is the parse of one particular line: when the
      files before file `i` have `LineCount(files[..i])` non-empty lines, row
      `LineCount(files[..i]) + j` is the `j`-th non-empty line of file `i`, parsed and
      tagged with that file's deck name. */
  lemma CombineDecksProvenance(files: seq<DeckFile>, i: nat, j: nat)
    requires CombineDecks(files).Success? && i < |files| && j < |NonEmpty(files[i].lines)|
    ensures LineCount(files[..i]) + j < |CombineDecks(files).value|
    ensures var line := NonEmpty(files[i].lines)[j];
      && Match(line).Some?
      && CombineDecks(files).value[LineCount(files[..i]) + j] == Tag(Match(line).value, DeckName(files[i].stem))
  {
    var tables := ParseAll(files).value;
    LoadedTables(files);
    CollectAt(Outcomes(files), i);
    ParseDeckFileRows(files[i]);
    FlattenOffset(files, tables, i, j);
  }

  /** Line 37: `astype(int)` reads each quantity as a decimal number; one that does not
      fit in int64 aborts. The keys and deck names are carried over unchanged. */
  function ToEntries(rows: seq<TaggedLine>): (r: Result<seq<DeckEntry>, Error>)
    requires forall i :: 0 <= i < |rows| ==> AllOf(rows[i].quantity, IsDigit)
    ensures r.Success? <==> forall i :: 0 <= i < |rows| ==> DecimalValue(rows[i].quantity) <= Int64Max
    ensures r.Success? ==> |r.value| == |rows| && forall i :: 0 <= i < |rows| ==>
      && r.value[i].key == rows[i].key && r.value[i].deck == rows[i].deck
      && r.value[i].quantity == DecimalValue(rows[i].quantity) && 0 <= r.value[i].quantity <= Int64Max
    decreases |rows|
  {
    if rows == [] then Success([])
    else
      var q := DecimalValue(rows[0].quantity);
      if q > Int64Max then Failure(QuantityOutOfRange(rows[0].quantity))
      else
        var rest :- ToEntries(rows[1..]);
        Success([DeckEntry(rows[0].key, q, rows[0].deck)] + rest)
  }
}
