/** Lines 39-42 of src/main.py: the concatenated deck table is grouped by
    (card, variation, set_id, foil) with `dropna=False`, so a missing variation is a key
    value like any other; each group sums its quantities and lists the decks of its rows
    in table order.

    `Reduce` folds the entries into groups one at a time. Its reference is the summary
    of a key: `Select` picks the entries with that key, `Total` sums them and `DecksOf`
    lists their decks. `ReduceSpec` proves that `Reduce` holds exactly one group per key
    of the entries, each equal to the summary of its key. */
module Reducer {
  import opened Common
  import opened Aggregator

  /** A row of the reduced table: the key, the summed quantity, the list of decks. */
  datatype Group = Group(key: Key, quantity: int, decks: seq<string>)

  /** The entries whose key is `k`, in table order. */
  function Select(entries: seq<DeckEntry>, k: Key): (picked: seq<DeckEntry>)
    ensures |picked| <= |entries|
    ensures forall i :: 0 <= i < |picked| ==> picked[i].key == k
    decreases |entries|
  {
    if entries == [] then []
    else
      var last := entries[|entries| - 1];
      Select(entries[..|entries| - 1], k) + (if last.key == k then [last] else [])
  }

  /** `Select` keeps every entry with key `k` as often as it occurs, and nothing else. */
  lemma {:induction false} SelectCount(entries: seq<DeckEntry>, k: Key, e: DeckEntry)
    ensures multiset(Select(entries, k))[e] == if e.key == k then multiset(entries)[e] else 0
    decreases |entries|
  {
    if entries != [] {
      var init := entries[..|entries| - 1];
      var last := entries[|entries| - 1];
      SelectCount(init, k, e);
      CountSnoc(entries, e);
      if last.key == k {
        assert Select(entries, k) == Select(init, k) + [last];
        CountSnoc(Select(entries, k), e);
        assert Select(entries, k)[..|Select(entries, k)| - 1] == Select(init, k);
      } else {
        assert Select(entries, k) == Select(init, k);
      }
    }
  }

  /** The sum of the quantities. */
  function Total(entries: seq<DeckEntry>): int
    decreases |entries|
  {
    if entries == [] then 0 else Total(entries[..|entries| - 1]) + entries[|entries| - 1].quantity
  }

  /** The deck of every entry, in order. */
  function DecksOf(entries: seq<DeckEntry>): (decks: seq<string>)
    ensures |decks| == |entries|
    ensures forall i :: 0 <= i < |entries| ==> decks[i] == entries[i].deck
    decreases |entries|
  {
    if entries == [] then [] else DecksOf(entries[..|entries| - 1]) + [entries[|entries| - 1].deck]
  }

  /** The group pandas builds for key `k`. */
  function Summary(entries: seq<DeckEntry>, k: Key): Group {
    var picked := Select(entries, k);
    Group(k, Total(picked), DecksOf(picked))
  }

  /** The keys that occur in the entries. */
  function EntryKeys(entries: seq<DeckEntry>): set<Key> {
    set i | 0 <= i < |entries| :: entries[i].key
  }

  /** The keys of the groups. */
  function GroupKeys(groups: seq<Group>): set<Key> {
    set i | 0 <= i < |groups| :: groups[i].key
  }

  /** No two groups share a key. */
  predicate UniqueKeys(groups: seq<Group>) {
    forall i, j :: 0 <= i < j < |groups| ==> groups[i].key != groups[j].key
  }

  /** A group after one more entry with its key: the quantity is added and the deck
      appended. */
  function Merge(g: Group, e: DeckEntry): Group {
    Group(g.key, g.quantity + e.quantity, g.decks + [e.deck])
  }

  /** Adds one entry: the group with its key takes the quantity and the deck, or a new
      group is started at the end. */
  function Absorb(groups: seq<Group>, e: DeckEntry): seq<Group>
    decreases |groups|
  {
    if groups == [] then [Group(e.key, e.quantity, [e.deck])]
    else if groups[0].key == e.key then [Merge(groups[0], e)] + groups[1..]
    else [groups[0]] + Absorb(groups[1..], e)
  }

  /** The reduced table, groups in order of first appearance of their key. */
  function Reduce(entries: seq<DeckEntry>): seq<Group>
    decreases |entries|
  {
    if entries == [] then [] else Absorb(Reduce(entries[..|entries| - 1]), entries[|entries| - 1])
  }

  /** The sum of the group quantities. */
  function GroupTotal(groups: seq<Group>): int
    decreases |groups|
  {
    if groups == [] then 0 else GroupTotal(groups[..|groups| - 1]) + groups[|groups| - 1].quantity
  }

  /** A key that does not occur selects nothing. */
  lemma {:induction false} SelectAbsent(entries: seq<DeckEntry>, k: Key)
    requires k !in EntryKeys(entries)
    ensures Select(entries, k) == []
    decreases |entries|
  {
    if entries != [] {
      var init := entries[..|entries| - 1];
      assert EntryKeys(init) <= EntryKeys(entries) by {
        forall x | x in EntryKeys(init) ensures x in EntryKeys(entries) {
          var i :| 0 <= i < |init| && init[i].key == x;
          assert entries[i] == init[i];
        }
      }
      assert entries[|entries| - 1].key in EntryKeys(entries);
      SelectAbsent(init, k);
    }
  }

  /** The summary of a key after one more entry. */
  lemma SummaryStep(entries: seq<DeckEntry>, e: DeckEntry, k: Key)
    ensures var s, s' := Summary(entries, k), Summary(entries + [e], k);
      s' == if e.key == k then Group(k, s.quantity + e.quantity, s.decks + [e.deck]) else s
  {
    var all := entries + [e];
    assert all[..|all| - 1] == entries;
    var before := Select(entries, k);
    if e.key == k {
      var picked := before + [e];
      assert Select(all, k) == picked;
      assert picked[..|picked| - 1] == before;
    } else {
      assert Select(all, k) == before + [];
      assert before + [] == before;
    }
  }

  /** The keys after one more entry. */
  lemma EntryKeysStep(entries: seq<DeckEntry>, e: DeckEntry)
    ensures EntryKeys(entries + [e]) == EntryKeys(entries) + {e.key}
  {
    var all := entries + [e];
    forall x | x in EntryKeys(all) ensures x in EntryKeys(entries) + {e.key} {
      var i :| 0 <= i < |all| && all[i].key == x;
      if i < |entries| {
        assert all[i] == entries[i];
      }
    }
    forall x | x in EntryKeys(entries) ensures x in EntryKeys(all) {
      var i :| 0 <= i < |entries| && entries[i].key == x;
      assert all[i] == entries[i];
    }
    assert all[|entries|] == e;
  }

  /** What `Reduce` keeps true: unique keys, the keys of the entries and no others,
      and every group is the summary of its key. */
  predicate Summarizes(groups: seq<Group>, entries: seq<DeckEntry>) {
    && UniqueKeys(groups)
    && GroupKeys(groups) == EntryKeys(entries)
    && AllSummaries(groups, entries)
  }

  /** With unique keys, `Absorb` merges the entry into the one group with its key. */
  lemma {:induction false} AbsorbExisting(groups: seq<Group>, e: DeckEntry, j: nat)
    requires UniqueKeys(groups) && j < |groups| && groups[j].key == e.key
    ensures Absorb(groups, e) == groups[j := Merge(groups[j], e)]
    decreases |groups|
  {
    var tail := groups[1..];
    if j > 0 {
      assert groups[0].key != e.key;
      assert tail[j - 1] == groups[j];
      AbsorbExisting(tail, e, j - 1);
      assert [groups[0]] + tail[j - 1 := Merge(groups[j], e)] == groups[j := Merge(groups[j], e)];
    }
  }

  /** Without a group for its key, `Absorb` appends a new group. */
  lemma {:induction false} AbsorbFresh(groups: seq<Group>, e: DeckEntry)
    requires forall i :: 0 <= i < |groups| ==> groups[i].key != e.key
    ensures Absorb(groups, e) == groups + [Group(e.key, e.quantity, [e.deck])]
    decreases |groups|
  {
    if groups != [] {
      var tail := groups[1..];
      AbsorbFresh(tail, e);
      assert [groups[0]] + (tail + [Group(e.key, e.quantity, [e.deck])]) == groups + [Group(e.key, e.quantity, [e.deck])];
    }
  }

  /** Replacing a group by one with the same key keeps the keys. */
  lemma GroupKeysUpdate(groups: seq<Group>, j: nat, g: Group)
    requires j < |groups| && g.key == groups[j].key
    ensures GroupKeys(groups[j := g]) == GroupKeys(groups)
    ensures UniqueKeys(groups) ==> UniqueKeys(groups[j := g])
  {
    var next := groups[j := g];
    assert forall i :: 0 <= i < |groups| ==> next[i].key == groups[i].key;
    forall x | x in GroupKeys(next) ensures x in GroupKeys(groups) {
      var i :| 0 <= i < |next| && next[i].key == x;
    }
    forall x | x in GroupKeys(groups) ensures x in GroupKeys(next) {
      var i :| 0 <= i < |groups| && groups[i].key == x;
    }
  }

  /** Keys of a sequence that starts with `g`. */
  lemma GroupKeysCons(g: Group, rest: seq<Group>)
    ensures GroupKeys([g] + rest) == {g.key} + GroupKeys(rest)
  {
    var all := [g] + rest;
    forall x | x in GroupKeys(all) ensures x in {g.key} + GroupKeys(rest) {
      var i :| 0 <= i < |all| && all[i].key == x;
      if i > 0 {
        assert all[i] == rest[i - 1];
      }
    }
    forall x | x in GroupKeys(rest) ensures x in GroupKeys(all) {
      var i :| 0 <= i < |rest| && rest[i].key == x;
      assert all[i + 1] == rest[i];
    }
    assert all[0] == g;
  }

  /** `Absorb` adds the entry's key to the keys, and no other. */
  lemma {:induction false} AbsorbKeys(groups: seq<Group>, e: DeckEntry)
    ensures GroupKeys(Absorb(groups, e)) == GroupKeys(groups) + {e.key}
    decreases |groups|
  {
    if groups == [] {
      GroupKeysCons(Group(e.key, e.quantity, [e.deck]), []);
    } else {
      var tail := groups[1..];
      assert groups == [groups[0]] + tail;
      GroupKeysCons(groups[0], tail);
      if groups[0].key == e.key {
        GroupKeysCons(Merge(groups[0], e), tail);
      } else {
        AbsorbKeys(tail, e);
        GroupKeysCons(groups[0], Absorb(tail, e));
      }
    }
  }

  /** `Absorb` keeps the keys unique. */
  lemma AbsorbUnique(groups: seq<Group>, e: DeckEntry)
    requires UniqueKeys(groups)
    ensures UniqueKeys(Absorb(groups, e))
  {
    if e.key in GroupKeys(groups) {
      var j :| 0 <= j < |groups| && groups[j].key == e.key;
      AbsorbExisting(groups, e, j);
      GroupKeysUpdate(groups, j, Merge(groups[j], e));
    } else {
      assert forall i :: 0 <= i < |groups| ==> groups[i].key in GroupKeys(groups);
      AbsorbFresh(groups, e);
    }
  }

  /** Every group is the summary of its key. */
  predicate AllSummaries(groups: seq<Group>, entries: seq<DeckEntry>) {
    forall i :: 0 <= i < |groups| ==> groups[i] == Summary(entries, groups[i].key)
  }

  /** Merging the entry into the group of its key keeps every group a summary. */
  lemma MergeSummaries(groups: seq<Group>, entries: seq<DeckEntry>, e: DeckEntry, j: nat)
    requires UniqueKeys(groups) && AllSummaries(groups, entries)
    requires j < |groups| && groups[j].key == e.key
    ensures AllSummaries(groups[j := Merge(groups[j], e)], entries + [e])
  {
    var next := groups[j := Merge(groups[j], e)];
    forall i | 0 <= i < |next| ensures next[i] == Summary(entries + [e], next[i].key) {
      SummaryStep(entries, e, groups[i].key);
    }
  }

  /** Starting a group for a new key keeps every group a summary. */
  lemma StartSummaries(groups: seq<Group>, entries: seq<DeckEntry>, e: DeckEntry)
    requires AllSummaries(groups, entries) && e.key !in EntryKeys(entries)
    requires forall i :: 0 <= i < |groups| ==> groups[i].key != e.key
    ensures AllSummaries(groups + [Group(e.key, e.quantity, [e.deck])], entries + [e])
  {
    var next := groups + [Group(e.key, e.quantity, [e.deck])];
    forall i | 0 <= i < |next| ensures next[i] == Summary(entries + [e], next[i].key) {
      if i < |groups| {
        assert next[i] == groups[i];
        SummaryStep(entries, e, groups[i].key);
      } else {
        NewGroupSummary(entries, e);
      }
    }
  }

  /** After `Absorb`, every group is the summary of its key over the longer table. */
  lemma AbsorbSummaries(groups: seq<Group>, entries: seq<DeckEntry>, e: DeckEntry)
    requires UniqueKeys(groups) && GroupKeys(groups) == EntryKeys(entries)
    requires AllSummaries(groups, entries)
    ensures AllSummaries(Absorb(groups, e), entries + [e])
  {
    if e.key in GroupKeys(groups) {
      var j :| 0 <= j < |groups| && groups[j].key == e.key;
      AbsorbExisting(groups, e, j);
      MergeSummaries(groups, entries, e, j);
    } else {
      assert forall i :: 0 <= i < |groups| ==> groups[i].key in GroupKeys(groups);
      AbsorbFresh(groups, e);
      StartSummaries(groups, entries, e);
    }
  }

  /** The group started for a key that does not occur yet is that key's summary. */
  lemma NewGroupSummary(entries: seq<DeckEntry>, e: DeckEntry)
    requires e.key !in EntryKeys(entries)
    ensures Summary(entries + [e], e.key) == Group(e.key, e.quantity, [e.deck])
  {
    SelectAbsent(entries, e.key);
    SummaryStep(entries, e, e.key);
  }

  /** `Absorb` keeps `Summarizes` when the entry joins the table. */
  lemma AbsorbSummarizes(groups: seq<Group>, entries: seq<DeckEntry>, e: DeckEntry)
    requires Summarizes(groups, entries)
    ensures Summarizes(Absorb(groups, e), entries + [e])
  {
    AbsorbKeys(groups, e);
    EntryKeysStep(entries, e);
    AbsorbUnique(groups, e);
    AbsorbSummaries(groups, entries, e);
  }

  /** The group-by result holds exactly one group per key of the entries, each equal
      to the summary of its key: the summed quantity of that key's entries and their
      decks in table order. */
  lemma {:induction false} ReduceSpec(entries: seq<DeckEntry>)
    ensures Summarizes(Reduce(entries), entries)
    decreases |entries|
  {
    if entries != [] {
      var init := entries[..|entries| - 1];
      var e := entries[|entries| - 1];
      ReduceSpec(init);
      AbsorbSummarizes(Reduce(init), init, e);
      assert init + [e] == entries;
    }
  }

  /** Every key of the entries has its group in the reduced table, at some position `i`. */
  lemma ReduceLookup(entries: seq<DeckEntry>, k: Key) returns (i: nat)
    requires k in EntryKeys(entries)
    ensures i < |Reduce(entries)| && Reduce(entries)[i] == Summary(entries, k)
  {
    ReduceSpec(entries);
    assert k in GroupKeys(Reduce(entries));
    i :| 0 <= i < |Reduce(entries)| && Reduce(entries)[i].key == k;
  }

  /** A group never comes from nothing: the entries of its key are not empty, so every
      group lists at least one deck. */
  lemma ReduceGroupsNonEmpty(entries: seq<DeckEntry>, i: nat)
    requires i < |Reduce(entries)|
    ensures |Reduce(entries)[i].decks| > 0
  {
    ReduceSpec(entries);
    var k := Reduce(entries)[i].key;
    assert k in GroupKeys(Reduce(entries));
    SelectPresent(entries, k);
  }

  /** A key that occurs selects at least one entry. */
  lemma {:induction false} SelectPresent(entries: seq<DeckEntry>, k: Key)
    requires k in EntryKeys(entries)
    ensures |Select(entries, k)| > 0
    decreases |entries|
  {
    var n := |entries| - 1;
    var init := entries[..n];
    if entries[n].key != k {
      var i :| 0 <= i < |entries| && entries[i].key == k;
      assert init[i] == entries[i];
      SelectPresent(init, k);
    }
  }

  /** `Absorb` adds the entry's quantity to the sum of the groups. */
  lemma {:induction false} AbsorbTotal(groups: seq<Group>, e: DeckEntry)
    ensures GroupTotal(Absorb(groups, e)) == GroupTotal(groups) + e.quantity
    decreases |groups|
  {
    if groups != [] {
      var tail := groups[1..];
      var next := Absorb(groups, e);
      GroupTotalCons(groups);
      GroupTotalCons(next);
      if groups[0].key == e.key {
        assert next[1..] == tail;
      } else {
        assert next[1..] == Absorb(tail, e);
        AbsorbTotal(tail, e);
      }
    }
  }

  /** The sum of the groups, taken from the front. */
  lemma {:induction false} GroupTotalCons(groups: seq<Group>)
    requires groups != []
    ensures GroupTotal(groups) == groups[0].quantity + GroupTotal(groups[1..])
    decreases |groups|
  {
    var n := |groups| - 1;
    if n > 0 {
      GroupTotalCons(groups[..n]);
      assert groups[..n][1..] == groups[1..][..n - 1];
    }
  }

  /** Nothing is lost or counted twice: the groups' quantities add up to the sum over
      all entries. */
  lemma {:induction false} ReduceConserves(entries: seq<DeckEntry>)
    ensures GroupTotal(Reduce(entries)) == Total(entries)
    decreases |entries|
  {
    if entries != [] {
      var init := entries[..|entries| - 1];
      ReduceConserves(init);
      AbsorbTotal(Reduce(init), entries[|entries| - 1]);
    }
  }

  /** Two rows for the same card from two decks become one group with the summed
      quantity and both decks. */
  lemma ExampleTwoDecks(k: Key)
    ensures Reduce([DeckEntry(k, 2, "Burn"), DeckEntry(k, 1, "Control")]) == [Group(k, 3, ["Burn", "Control"])]
  {
    var e0, e1 := DeckEntry(k, 2, "Burn"), DeckEntry(k, 1, "Control");
    var es := [e0, e1];
    assert es[..1] == [e0] && [e0][..0] == [];
    var g := Group(k, 2, ["Burn"]);
    assert Reduce([e0]) == Absorb([], e0) == [g];
    assert Absorb([g], e1) == [Merge(g, e1)] + [g][1..];
    assert Reduce(es) == Absorb([g], e1);
    assert Merge(g, e1).decks == ["Burn"] + ["Control"] == ["Burn", "Control"];
  }
}
