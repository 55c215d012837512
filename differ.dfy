/** Lines 44-45 of src/main.py: the collection and the reduced deck table are joined
    with an outer merge on all five columns card, variation, set_id, foil and quantity,
    and the rows found on both sides are dropped. A row therefore survives exactly
    when its five-column tuple occurs on one side only, so an owned card whose deck
    quantity differs from the collection's is reported twice, once per side.

    The order of the merged rows is not modelled: `Diff` lists the collection-only rows
    in collection order, then the deck-only rows in group order. */
module Differ {
  import opened Common
  import opened Reducer

  /** The `_merge` indicator of a surviving row. */
  datatype Side = LeftOnly | RightOnly

  /** A row of `diffs`: the five merge columns, the `decks` cell (null for a
      collection-only row) and the indicator. */
  datatype DiffRow = DiffRow(row: Row, decks: Option<seq<string>>, side: Side)

  /** The five merge columns of a reduced group. */
  function AsRow(g: Group): Row {
    Row(g.key, g.quantity)
  }

  /** The five merge columns of every reduced group. */
  function DeckRows(groups: seq<Group>): (rows: seq<Row>)
    ensures |rows| == |groups|
    ensures forall i :: 0 <= i < |groups| ==> rows[i] == AsRow(groups[i])
    decreases |groups|
  {
    if groups == [] then [] else DeckRows(groups[..|groups| - 1]) + [AsRow(groups[|groups| - 1])]
  }

  /** The five merge columns of every row of a diff. */
  function DiffRows(diff: seq<DiffRow>): (rows: seq<Row>)
    ensures |rows| == |diff|
    ensures forall i :: 0 <= i < |diff| ==> rows[i] == diff[i].row
    decreases |diff|
  {
    if diff == [] then [] else DiffRows(diff[..|diff| - 1]) + [diff[|diff| - 1].row]
  }

  /** The `left_only` rows: collection rows whose tuple no group has, one per row. */
  function LeftRows(collection: seq<Row>, groups: seq<Group>): seq<DiffRow>
    decreases |collection|
  {
    if collection == [] then []
    else
      var r := collection[|collection| - 1];
      LeftRows(collection[..|collection| - 1], groups)
        + (if r in DeckRows(groups) then [] else [DiffRow(r, None, LeftOnly)])
  }

  /** The `right_only` rows: groups whose tuple the collection does not have. */
  function RightRows(collection: seq<Row>, groups: seq<Group>): seq<DiffRow>
    decreases |groups|
  {
    if groups == [] then []
    else
      var g := groups[|groups| - 1];
      RightRows(collection, groups[..|groups| - 1])
        + (if AsRow(g) in collection then [] else [DiffRow(AsRow(g), Some(g.decks), RightOnly)])
  }

  /** `diffs` after line 45. */
  function Diff(collection: seq<Row>, groups: seq<Group>): seq<DiffRow> {
    LeftRows(collection, groups) + RightRows(collection, groups)
  }

  /** Every `left_only` row is a collection row that no group has, and has no decks;
      every collection row that no group has is among them. */
  lemma {:induction false} LeftRowsSpec(collection: seq<Row>, groups: seq<Group>)
    ensures forall d :: d in LeftRows(collection, groups) ==>
      d.side == LeftOnly && d.decks == None && d.row in collection && d.row !in DeckRows(groups)
    ensures forall r :: r in collection && r !in DeckRows(groups) ==> DiffRow(r, None, LeftOnly) in LeftRows(collection, groups)
    decreases |collection|
  {
    if collection != [] {
      var init := collection[..|collection| - 1];
      var r := collection[|collection| - 1];
      LeftRowsSpec(init, groups);
      assert collection == init + [r];
    }
  }

  /** Every `right_only` row is a group's tuple that the collection lacks, with that
      group's decks; every such group is among them. */
  lemma {:induction false} RightRowsSpec(collection: seq<Row>, groups: seq<Group>)
    ensures forall d :: d in RightRows(collection, groups) ==>
      && d.side == RightOnly && d.row !in collection
      && exists i :: 0 <= i < |groups| && d.row == AsRow(groups[i]) && d.decks == Some(groups[i].decks)
    ensures forall i :: 0 <= i < |groups| && AsRow(groups[i]) !in collection ==>
      DiffRow(AsRow(groups[i]), Some(groups[i].decks), RightOnly) in RightRows(collection, groups)
    decreases |groups|
  {
    if groups != [] {
      var n := |groups| - 1;
      var init := groups[..n];
      RightRowsSpec(collection, init);
      assert forall i :: 0 <= i < n ==> init[i] == groups[i];
    }
  }

  /** The tuples of two concatenated diffs are the tuples of each in turn. */
  lemma {:induction false} DiffRowsAppend(a: seq<DiffRow>, b: seq<DiffRow>)
    ensures DiffRows(a + b) == DiffRows(a) + DiffRows(b)
  {
    var ab := a + b;
    assert forall i :: 0 <= i < |ab| ==> DiffRows(ab)[i] == (DiffRows(a) + DiffRows(b))[i];
  }

  /** A tuple is among a diff's tuples exactly when some row of the diff carries it. */
  lemma DiffRowsMember(diff: seq<DiffRow>, x: Row)
    ensures x in DiffRows(diff) <==> exists d :: d in diff && d.row == x
  {
    if x in DiffRows(diff) {
      var p :| 0 <= p < |diff| && DiffRows(diff)[p] == x;
      assert diff[p] in diff;
    }
    if d :| d in diff && d.row == x {
      var p :| 0 <= p < |diff| && diff[p] == d;
      assert DiffRows(diff)[p] == x;
    }
  }

  /** A tuple survives in the diff exactly when it occurs on one side only. */
  lemma DiffMembership(collection: seq<Row>, groups: seq<Group>, x: Row)
    ensures x in DiffRows(Diff(collection, groups)) <==> ((x in collection) != (x in DeckRows(groups)))
  {
    var left, right := LeftRows(collection, groups), RightRows(collection, groups);
    LeftRowsSpec(collection, groups);
    RightRowsSpec(collection, groups);
    DiffRowsMember(left + right, x);
    if x in collection && x !in DeckRows(groups) {
      assert DiffRow(x, None, LeftOnly) in left + right;
    } else if x !in collection && x in DeckRows(groups) {
      var i :| 0 <= i < |groups| && DeckRows(groups)[i] == x;
      assert DiffRow(x, Some(groups[i].decks), RightOnly) in left + right;
    }
  }

  /** Each surviving row is labelled with the side it occurs on, a collection-only row
      has no decks, and a deck-only row lists the decks of its group. */
  lemma DiffSides(collection: seq<Row>, groups: seq<Group>, d: DiffRow)
    requires d in Diff(collection, groups)
    ensures d.side == LeftOnly ==> d.decks == None && d.row in collection && d.row !in DeckRows(groups)
    ensures d.side == RightOnly ==>
      && d.row !in collection
      && exists i :: 0 <= i < |groups| && d.row == AsRow(groups[i]) && d.decks == Some(groups[i].decks)
  {
    LeftRowsSpec(collection, groups);
    RightRowsSpec(collection, groups);
  }

  /** Appending a row adds one occurrence of its tuple. */
  lemma DiffRowsCount(diff: seq<DiffRow>, d: DiffRow, x: Row)
    ensures multiset(DiffRows(diff + [d]))[x] == multiset(DiffRows(diff))[x] + if x == d.row then 1 else 0
  {
    DiffRowsAppend(diff, [d]);
    assert DiffRows([d]) == [d.row];
  }

  /** Collection rows are never merged away or duplicated: a tuple that no group has
      appears among the `left_only` rows as often as in the collection, any other not
      at all. */
  lemma {:induction false} LeftMultiplicity(collection: seq<Row>, groups: seq<Group>, x: Row)
    ensures multiset(DiffRows(LeftRows(collection, groups)))[x]
         == if x in DeckRows(groups) then 0 else multiset(collection)[x]
    decreases |collection|
  {
    if collection != [] {
      var init := collection[..|collection| - 1];
      var r := collection[|collection| - 1];
      var left := LeftRows(init, groups);
      LeftMultiplicity(init, groups, x);
      CountSnoc(collection, x);
      if r in DeckRows(groups) {
        assert LeftRows(collection, groups) == left;
      } else {
        assert LeftRows(collection, groups) == left + [DiffRow(r, None, LeftOnly)];
        DiffRowsCount(left, DiffRow(r, None, LeftOnly), x);
      }
    }
  }

  /** With one group per key, every deck-side tuple that the collection lacks is
      reported exactly once as `right_only`, and no other tuple is. */
  lemma {:induction false} RightMultiplicity(collection: seq<Row>, groups: seq<Group>, x: Row)
    requires UniqueKeys(groups)
    ensures multiset(DiffRows(RightRows(collection, groups)))[x]
         == if x in DeckRows(groups) && x !in collection then 1 else 0
    decreases |groups|
  {
    if groups != [] {
      var n := |groups| - 1;
      var init, g := groups[..n], groups[n];
      var right := RightRows(collection, init);
      assert DeckRows(groups) == DeckRows(init) + [AsRow(g)];
      assert UniqueKeys(init) by {
        forall i, j | 0 <= i < j < n ensures init[i].key != init[j].key {
          assert init[i] == groups[i] && init[j] == groups[j];
        }
      }
      RightMultiplicity(collection, init, x);
      if x == AsRow(g) {
        assert x !in DeckRows(init) by {
          forall i | 0 <= i < n ensures DeckRows(init)[i] != x {
            assert init[i] == groups[i];
          }
        }
      }
      if AsRow(g) in collection {
        assert RightRows(collection, groups) == right;
      } else {
        assert RightRows(collection, groups) == right + [DiffRow(AsRow(g), Some(g.decks), RightOnly)];
        DiffRowsCount(right, DiffRow(AsRow(g), Some(g.decks), RightOnly), x);
      }
    }
  }

  /** How often the report holds a tuple: as often as the collection does when no
      group has it, once when only a group has it, and never when both sides do. */
  lemma DiffMultiplicity(collection: seq<Row>, groups: seq<Group>, x: Row)
    requires UniqueKeys(groups)
    ensures multiset(DiffRows(Diff(collection, groups)))[x]
         == if x in DeckRows(groups) then (if x in collection then 0 else 1) else multiset(collection)[x]
  {
    DiffRowsAppend(LeftRows(collection, groups), RightRows(collection, groups));
    LeftMultiplicity(collection, groups, x);
    RightMultiplicity(collection, groups, x);
  }

  /** The report is empty exactly when the collection and the decks hold the same
      tuples. */
  lemma DiffEmpty(collection: seq<Row>, groups: seq<Group>)
    ensures Diff(collection, groups) == [] <==> forall x :: x in collection <==> x in DeckRows(groups)
  {
    var diff := Diff(collection, groups);
    if diff == [] {
      forall x ensures x in collection <==> x in DeckRows(groups) {
        DiffMembership(collection, groups, x);
      }
    } else {
      DiffMembership(collection, groups, diff[0].row);
      assert DiffRows(diff)[0] == diff[0].row;
    }
  }

  /** An owned card whose deck quantity differs from the collection's is reported on
      both sides. */
  lemma ExampleQuantityMismatch(k: Key)
    ensures Diff([Row(k, 3)], [Group(k, 4, ["Burn"])])
         == [DiffRow(Row(k, 3), None, LeftOnly), DiffRow(Row(k, 4), Some(["Burn"]), RightOnly)]
  {
    var collection, groups := [Row(k, 3)], [Group(k, 4, ["Burn"])];
    assert DeckRows(groups) == [Row(k, 4)] by {
      assert groups[..0] == [];
    }
    assert collection[..0] == [];
    assert LeftRows(collection, groups) == [DiffRow(Row(k, 3), None, LeftOnly)];
    assert AsRow(groups[0]) !in collection;
    assert RightRows(collection, groups) == [DiffRow(Row(k, 4), Some(["Burn"]), RightOnly)];
  }
}
