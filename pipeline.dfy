/** The whole of `main` in src/main.py from the loaded collection to `diffs` (lines
    16-45): normalise the collection's card names, load and concatenate the deck files,
    read the quantities as integers, group and sum per key, and keep the five-column
    tuples that occur on one side only. */
module Pipeline {
  import opened Common
  import opened Text
  import opened Names
  import opened Aggregator
  import opened Reducer
  import opened Differ

  /** Lines 21-37: the deck rows with integer quantities, or the error that aborts the
      run. */
  function DeckEntries(files: seq<DeckFile>): Result<seq<DeckEntry>, Error> {
    var rows :- CombineDecks(files);
    CombineDecksSpec(files);
    ToEntries(rows)
  }

  /** Lines 16-45: `diffs` before it is sorted, or the error that aborts the run. */
  function Reconciliation(collection: seq<Row>, files: seq<DeckFile>): Result<seq<DiffRow>, Error> {
    var entries :- DeckEntries(files);
    Success(Diff(NormalizeCollection(collection), Reduce(entries)))
  }

  /** `main` from line 16 to line 45, with the deck files already read. */
  method Reconcile(collection: seq<Row>, files: seq<DeckFile>) returns (r: Result<seq<DiffRow>, Error>)
    ensures r == Reconciliation(collection, files)
  {
    var owned := NormalizeCollection(collection);
    var combined := LoadDecks(files);
    if combined.Failure? {
      return Failure(combined.error);
    }
    CombineDecksSpec(files);
    var entries := ToEntries(combined.value);
    if entries.Failure? {
      return Failure(entries.error);
    }
    var groups := Reduce(entries.value);
    return Success(Diff(owned, groups));
  }

  /** The run gets past loading exactly when there is a deck file, every file loads and
      every quantity fits in int64. */
  lemma DeckEntriesSucceed(files: seq<DeckFile>)
    ensures DeckEntries(files).Success? <==>
      && CombineDecks(files).Success?
      && forall p :: 0 <= p < |CombineDecks(files).value| ==>
           var q := CombineDecks(files).value[p].quantity;
           AllOf(q, IsDigit) && DecimalValue(q) <= Int64Max
    ensures CombineDecks(files).Success? <==>
      |files| > 0 && forall i :: 0 <= i < |files| ==> ParseDeckFile(files[i]).Success?
  {
    CombineDecksSpec(files);
  }

  /** With no deck file the run aborts, whatever the collection holds. */
  lemma NoFilesAborts(collection: seq<Row>)
    ensures Reconciliation(collection, []) == Failure(NoDeckFiles)
  {
  }

  /** A tuple is among the reduced deck rows exactly when its key occurs in some deck
      and its quantity is the sum of that key's quantities over all decks. */
  lemma ReducedRows(entries: seq<DeckEntry>, x: Row)
    ensures x in DeckRows(Reduce(entries)) <==>
      x.key in EntryKeys(entries) && x.quantity == Total(Select(entries, x.key))
  {
    var groups := Reduce(entries);
    ReduceSpec(entries);
    if x in DeckRows(groups) {
      var i :| 0 <= i < |groups| && DeckRows(groups)[i] == x;
      assert groups[i] == Summary(entries, groups[i].key);
      assert groups[i].key in GroupKeys(groups);
    }
    if x.key in EntryKeys(entries) && x.quantity == Total(Select(entries, x.key)) {
      var i := ReduceLookup(entries, x.key);
      assert DeckRows(groups)[i] == x;
    }
  }

  /** What the report says: a tuple is reported exactly when the normalised collection
      holds it but the decks do not use that key in exactly that total quantity, or the
      decks use the key in that total but the collection does not hold that tuple. */
  lemma ReconciliationReports(collection: seq<Row>, files: seq<DeckFile>, x: Row)
    requires DeckEntries(files).Success?
    ensures Reconciliation(collection, files).Success?
    ensures x in DiffRows(Reconciliation(collection, files).value) <==>
      (x in NormalizeCollection(collection)) !=
      (x.key in EntryKeys(DeckEntries(files).value) && x.quantity == Total(Select(DeckEntries(files).value, x.key)))
  {
    var entries := DeckEntries(files).value;
    DiffMembership(NormalizeCollection(collection), Reduce(entries), x);
    ReducedRows(entries, x);
  }

  /** How often the report holds a tuple: a normalised collection tuple that the decks
      do not use in exactly that total appears once per collection row carrying it; a
      deck key at its total that the collection lacks appears once; any other tuple
      never. */
  lemma ReconciliationCounts(collection: seq<Row>, files: seq<DeckFile>, x: Row)
    requires DeckEntries(files).Success?
    ensures Reconciliation(collection, files).Success?
    ensures var entries := DeckEntries(files).value;
      var owned := NormalizeCollection(collection);
      var used := x.key in EntryKeys(entries) && x.quantity == Total(Select(entries, x.key));
      multiset(DiffRows(Reconciliation(collection, files).value))[x]
        == if used then (if x in owned then 0 else 1) else multiset(owned)[x]
  {
    var entries := DeckEntries(files).value;
    ReduceSpec(entries);
    ReducedRows(entries, x);
    DiffMultiplicity(NormalizeCollection(collection), Reduce(entries), x);
  }

  /** The report is empty exactly when every normalised collection row is a deck key at
      its total deck quantity and every deck key at its total is in the collection. */
  lemma ReconciliationEmpty(collection: seq<Row>, files: seq<DeckFile>)
    requires DeckEntries(files).Success?
    ensures Reconciliation(collection, files).Success?
    ensures Reconciliation(collection, files).value == [] <==>
      forall x :: x in NormalizeCollection(collection) <==> x in DeckRows(Reduce(DeckEntries(files).value))
  {
    DiffEmpty(NormalizeCollection(collection), Reduce(DeckEntries(files).value));
  }

  /** The two tables of the split-card example: the collection row renamed, the deck
      entry as its own group. */
  lemma SplitCardTables(k: Key)
    requires k == Key("A // B", None, Some("X"), "regular")
    ensures NormalizeCollection([Row(k, 1)]) == [Row(k.(card := "A/B"), 1)]
    ensures Reduce([DeckEntry(k, 1, "d")]) == [Group(k, 1, ["d"])]
  {
    ExampleSplitCard();
    assert [DeckEntry(k, 1, "d")][..0] == [];
  }

  /** The diff of the split-card example's two tables. */
  lemma SplitCardDiff(k: Key)
    requires k == Key("A // B", None, Some("X"), "regular")
    ensures Diff([Row(k.(card := "A/B"), 1)], [Group(k, 1, ["d"])])
         == [DiffRow(Row(k.(card := "A/B"), 1), None, LeftOnly), DiffRow(Row(k, 1), Some(["d"]), RightOnly)]
  {
    var owned := Row(k.(card := "A/B"), 1);
    var groups := [Group(k, 1, ["d"])];
    assert DeckRows(groups) == [Row(k, 1)] by {
      assert groups[..0] == [];
    }
    assert [owned][..0] == [];
    assert LeftRows([owned], groups) == [DiffRow(owned, None, LeftOnly)];
    assert RightRows([owned], groups) == [DiffRow(Row(k, 1), Some(["d"]), RightOnly)];
  }

  /** Only the collection's card names are rewritten: an owned split card `A // B` that a
      deck uses in the same quantity (a deck line `1 A // B [X]` keeps the name as
      written) is still reported, once under each spelling. */
  lemma ExampleSplitCardReported(k: Key)
    requires k == Key("A // B", None, Some("X"), "regular")
    ensures Diff(NormalizeCollection([Row(k, 1)]), Reduce([DeckEntry(k, 1, "d")]))
         == [DiffRow(Row(k.(card := "A/B"), 1), None, LeftOnly), DiffRow(Row(k, 1), Some(["d"]), RightOnly)]
  {
    SplitCardTables(k);
    SplitCardDiff(k);
  }
}
