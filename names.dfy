/** Name normalisation in src/main.py: the `"Deck - "` prefix stripped from deck file
    stems, and the `" // "` separator of split cards rewritten to `"/"` in the
    collection's card names. */
module Names {
  import opened Common

  const DeckPrefix: string := "Deck - "

  /** `str.removeprefix("Deck - ")`: at most one leading copy of the prefix goes. */
  function StripDeckPrefix(stem: string): (name: string)
    ensures DeckPrefix <= stem ==> stem == DeckPrefix + name
    ensures !(DeckPrefix <= stem) ==> name == stem
  {
    if DeckPrefix <= stem then stem[|DeckPrefix|..] else stem
  }

  /** The name changes exactly when the stem starts with the prefix. */
  lemma StripChangesOnlyPrefixed(stem: string)
    ensures StripDeckPrefix(stem) != stem <==> DeckPrefix <= stem
  {
    if DeckPrefix <= stem {
      assert |StripDeckPrefix(stem)| < |stem|;
    }
  }

  /** Stripping a second time changes nothing unless the stem carried the prefix twice. */
  lemma StripTwice(stem: string)
    ensures !(DeckPrefix <= StripDeckPrefix(stem)) ==> StripDeckPrefix(StripDeckPrefix(stem)) == StripDeckPrefix(stem)
    ensures DeckPrefix <= StripDeckPrefix(stem) ==> StripDeckPrefix(StripDeckPrefix(stem)) != StripDeckPrefix(stem)
  {
    StripChangesOnlyPrefixed(StripDeckPrefix(stem));
  }

  /** Stripping is not idempotent: a file `Deck - Deck - Burn.txt` is read as the deck
      `Deck - Burn` and renamed so, and the next run reads it as `Burn`. */
  lemma StripNotIdempotent()
    ensures StripDeckPrefix("Deck - Deck - Burn") == "Deck - Burn"
    ensures StripDeckPrefix(StripDeckPrefix("Deck - Deck - Burn")) == "Burn"
  {
    assert DeckPrefix <= "Deck - Deck - Burn";
    assert DeckPrefix <= "Deck - Burn";
  }

  /** The suffix of every deck file the walk of line 22 finds. */
  const DeckSuffix: string := ".txt"

  /** The stem of a deck file after line 25, which line 33 uses as the deck name.
      `with_stem` keeps the suffix, so a stem that is the prefix alone leaves the file
      `.txt`, whose stem pathlib reads as `.txt` (Python 3.9 to 3.12); any other stem
      just loses a leading prefix. */
  function DeckName(stem: string): (name: string)
    ensures DeckPrefix <= stem && stem != DeckPrefix ==> stem == DeckPrefix + name
    ensures !(DeckPrefix <= stem) ==> name == stem
    ensures stem == DeckPrefix ==> name == DeckSuffix
  {
    if stem == DeckPrefix then DeckSuffix else StripDeckPrefix(stem)
  }

  /** Every deck file keeps a non-empty name, even one named `Deck - .txt`. */
  lemma DeckNameNonEmpty(stem: string)
    requires stem != []
    ensures DeckName(stem) != []
  {
    if DeckPrefix <= stem && stem != DeckPrefix {
      assert |stem| > |DeckPrefix|;
    }
  }

  const Separator: string := " // "

  /** `s` holds the separator at position `i`. */
  predicate SeparatorAt(s: string, i: nat) {
    i + |Separator| <= |s| && s[i..i + |Separator|] == Separator
  }

  predicate ContainsSeparator(s: string) {
    exists i: nat | i < |s| :: SeparatorAt(s, i)
  }

  /** `str.replace(" // ", "/")`: one left-to-right pass that replaces each occurrence
      it finds and resumes after it. */
  function ReplaceSeparator(s: string): string
    decreases |s|
  {
    if s == [] then []
    else if Separator <= s then "/" + ReplaceSeparator(s[|Separator|..])
    else [s[0]] + ReplaceSeparator(s[1..])
  }

  /** `str.split(" // ")`: the pieces between the occurrences, scanning from the left. */
  function Split(s: string): (pieces: seq<string>)
    ensures |pieces| >= 1
    decreases |s|
  {
    if s == [] then [[]]
    else if Separator <= s then [[]] + Split(s[|Separator|..])
    else
      var rest := Split(s[1..]);
      [[s[0]] + rest[0]] + rest[1..]
  }

  /** `sep.join(pieces)`. */
  function Join(pieces: seq<string>, sep: string): string
    requires |pieces| >= 1
    decreases |pieces|
  {
    if |pieces| == 1 then pieces[0] else pieces[0] + sep + Join(pieces[1..], sep)
  }

  lemma JoinPrepend(c: string, pieces: seq<string>, sep: string)
    requires |pieces| >= 1
    ensures Join([c + pieces[0]] + pieces[1..], sep) == c + Join(pieces, sep)
  {
    var ps := [c + pieces[0]] + pieces[1..];
    if |pieces| > 1 {
      assert ps[1..] == pieces[1..];
    }
  }

  /** The first piece of a split is a prefix of the text. */
  lemma {:induction false} SplitHeadIsPrefix(s: string)
    ensures Split(s)[0] <= s
    decreases |s|
  {
    if s != [] && !(Separator <= s) {
      SplitHeadIsPrefix(s[1..]);
    }
  }

  /** Round trip: joining the pieces with the separator gives the text back. */
  lemma {:induction false} SplitJoin(s: string)
    ensures Join(Split(s), Separator) == s
    decreases |s|
  {
    if s == [] {
    } else if Separator <= s {
      SplitJoin(s[|Separator|..]);
      assert s == Separator + s[|Separator|..];
    } else {
      SplitJoin(s[1..]);
      JoinPrepend([s[0]], Split(s[1..]), Separator);
    }
  }

  /** No piece of a split holds the separator. */
  lemma {:induction false} SplitPiecesFree(s: string)
    ensures forall k :: 0 <= k < |Split(s)| ==> !ContainsSeparator(Split(s)[k])
    decreases |s|
  {
    if s == [] {
      assert !SeparatorAt([], 0);
    } else if Separator <= s {
      SplitPiecesFree(s[|Separator|..]);
      assert Split(s)[1..] == Split(s[|Separator|..]);
    } else {
      var rest := Split(s[1..]);
      SplitPiecesFree(s[1..]);
      SplitHeadIsPrefix(s[1..]);
      var head := [s[0]] + rest[0];
      forall i: nat | i < |head| ensures !SeparatorAt(head, i) {
        if i > 0 {
          assert !SeparatorAt(rest[0], i - 1);
          if i + |Separator| <= |head| {
            assert rest[0][i - 1..i - 1 + |Separator|] == head[i..i + |Separator|];
          }
        } else if |Separator| <= |head| {
          assert head[..|Separator|] == s[..|Separator|];
        }
      }
      assert Split(s)[1..] == rest[1..];
    }
  }

  /** The rewrite is the split joined with `/`: every occurrence found by the scan
      becomes `/`, and every other character stays, in order. */
  lemma {:induction false} ReplaceIsJoinOfSplit(s: string)
    ensures ReplaceSeparator(s) == Join(Split(s), "/")
    decreases |s|
  {
    if s == [] {
    } else if Separator <= s {
      ReplaceIsJoinOfSplit(s[|Separator|..]);
    } else {
      ReplaceIsJoinOfSplit(s[1..]);
      JoinPrepend([s[0]], Split(s[1..]), "/");
    }
  }

  /** A name without the separator is left as it is. */
  lemma {:induction false} ReplaceWithoutSeparator(s: string)
    requires !ContainsSeparator(s)
    ensures ReplaceSeparator(s) == s
    decreases |s|
  {
    if s != [] {
      assert !SeparatorAt(s, 0);
      forall i: nat | i < |s| - 1 ensures !SeparatorAt(s[1..], i) {
        assert !SeparatorAt(s, i + 1);
        if i + |Separator| <= |s| - 1 {
          assert s[1..][i..i + |Separator|] == s[i + 1..i + 1 + |Separator|];
        }
      }
      ReplaceWithoutSeparator(s[1..]);
    }
  }

  /** A text whose character `i` differs from the separator's does not start with it. */
  lemma NotSeparatorStart(s: string, i: nat)
    requires i < |Separator| && i < |s| && s[i] != Separator[i]
    ensures !(Separator <= s)
  {
  }

  /** A text shorter than the separator cannot hold it. */
  lemma ShortWithoutSeparator(s: string)
    requires |s| < |Separator|
    ensures !ContainsSeparator(s)
  {
  }

  /** `A // B` (a split card such as `Fire // Ice`) is rewritten to `A/B`. */
  lemma ExampleSplitCard()
    ensures ReplaceSeparator("A // B") == "A/B"
  {
    ShortWithoutSeparator("B");
    ReplaceWithoutSeparator("B");
    assert " // B"[4..] == "B";
    assert ReplaceSeparator(" // B") == "/B";
    NotSeparatorStart("A // B", 0);
  }

  /** `" //  b"` starts with the separator and becomes `"/ b"`. */
  lemma ReplaceLeadingSeparator(s: string)
    requires s == " //  b"
    ensures ReplaceSeparator(s) == "/ b"
  {
    assert s[..4] == Separator;
    assert s[4..] == " b";
    ShortWithoutSeparator(s[4..]);
    ReplaceWithoutSeparator(s[4..]);
  }

  /** `"/ //  b"` keeps its `/` and then rewrites the separator: `"// b"`. */
  lemma ReplaceAfterSlash(s: string)
    requires s == "/ //  b"
    ensures ReplaceSeparator(s) == "// b"
  {
    NotSeparatorStart(s, 0);
    assert s[1..] == " //  b";
    ReplaceLeadingSeparator(s[1..]);
    ReplaceKeeps(s, "/ b");
  }

  /** `" / //  b"` does not start with the separator either: `" // b"`. */
  lemma ReplaceAfterSpace(s: string)
    requires s == " / //  b"
    ensures ReplaceSeparator(s) == " // b"
  {
    NotSeparatorStart(s, 2);
    assert s[1..] == "/ //  b";
    ReplaceAfterSlash(s[1..]);
    ReplaceKeeps(s, "// b");
  }

  /** The single pass can leave a separator behind: in `a / //  b` it replaces the
      occurrence at position 3, and the characters around it form a new one. */
  lemma ReplaceCanLeaveSeparator(s: string)
    requires s == "a / //  b"
    ensures ReplaceSeparator(s) == "a // b"
    ensures ContainsSeparator(ReplaceSeparator(s))
  {
    NotSeparatorStart(s, 0);
    assert s[1..] == " / //  b";
    ReplaceAfterSpace(s[1..]);
    ReplaceKeeps(s, " // b");
    SeparatorInside("a // b");
  }

  /** `a // b` holds the separator at position 1. */
  lemma SeparatorInside(t: string)
    requires t == "a // b"
    ensures ContainsSeparator(t)
  {
    assert SeparatorAt(t, 1);
  }

  /** A text that does not start with the separator keeps its first character. */
  lemma ReplaceKeeps(s: string, rest: string)
    requires s != [] && !(Separator <= s) && ReplaceSeparator(s[1..]) == rest
    ensures ReplaceSeparator(s) == [s[0]] + rest
  {
  }

  /** Line 16 of src/main.py: the collection's card column after the rewrite; every
      other column and the row order stay as loaded. */
  function NormalizeCollection(rows: seq<Row>): (r: seq<Row>)
    ensures |r| == |rows|
    ensures forall i :: 0 <= i < |r| ==>
      && r[i].key.card == ReplaceSeparator(rows[i].key.card)
      && r[i].key.variation == rows[i].key.variation && r[i].key.setId == rows[i].key.setId
      && r[i].key.foil == rows[i].key.foil && r[i].quantity == rows[i].quantity
  {
    seq(|rows|, i requires 0 <= i < |rows| => rows[i].(key := rows[i].key.(card := ReplaceSeparator(rows[i].key.card))))
  }
}
