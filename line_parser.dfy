/** The deck-line grammar of src/main.py: the regular expression
      (?P<quantity>\d+) (?P<card>[^[<]+)( <(?P<variation>.+)>)? \[(?P<set_id>\w+)\](?P<foil> \(F\))?
    applied with `re.match`, i.e. anchored at the start of the line only.

    `IsMatch` says declaratively when the expression matches a line with given groups;
    `Match` is the result Python's backtracking engine returns, and the lemmas
    `MatchSound` and `MatchComplete` prove that it is a match, that it exists whenever
    any match exists, and that it is the one the engine prefers (longest variation,
    foil marker taken when present). */
module LineParser {
  import opened Common
  import opened Text

  /** `\w`, restricted to ASCII letters, digits and underscore. */
  predicate IsWordChar(c: char) { 'a' <= c <= 'z' || 'A' <= c <= 'Z' || IsDigit(c) || c == '_' }

  /** `[^[<]`: anything but an opening bracket or an opening angle. */
  predicate IsCardChar(c: char) { c != '[' && c != '<' }

  /** `.`: anything but a newline. */
  predicate IsDotChar(c: char) { c != '\n' }

  const FoilMarker: string := " (F)"

  /** What `groupdict()` returns for a match: the quantity digits, the card name, the
      optional variation, the set id, and whether the foil group took part. */
  datatype Groups = Groups(quantity: string, card: string, variation: Option<string>, setId: string, foil: bool)

  function TailText(setId: string, foil: bool): string {
    " [" + setId + "]" + (if foil then FoilMarker else "")
  }

  /** The text after the card: the optional ` <variation>`, then the tail. */
  function RestText(variation: Option<string>, setId: string, foil: bool): string {
    match variation
    case None => TailText(setId, foil)
    case Some(v) => " <" + ((v + ">") + TailText(setId, foil))
  }

  /** The text a match with groups `g` consumes. */
  function Rendered(g: Groups): string {
    (g.quantity + " ") + (g.card + RestText(g.variation, g.setId, g.foil))
  }

  /** Each group holds what its sub-expression may match. */
  predicate WellFormed(g: Groups) {
    && |g.quantity| > 0 && AllOf(g.quantity, IsDigit)
    && |g.card| > 0 && AllOf(g.card, IsCardChar)
    && (g.variation.Some? ==> |g.variation.value| > 0 && AllOf(g.variation.value, IsDotChar))
    && |g.setId| > 0 && AllOf(g.setId, IsWordChar)
  }

  /** The expression matches at the start of `line` with groups `g`; whatever follows
      the consumed text is ignored. */
  predicate IsMatch(line: string, g: Groups) {
    WellFormed(g) && Rendered(g) <= line
  }

  /** ` \[(?P<set_id>\w+)\](?P<foil> \(F\))?` at the start of `s`. */
  predicate IsTail(s: string, setId: string, foil: bool) {
    0 < |setId| && AllOf(setId, IsWordChar) && TailText(setId, foil) <= s
  }

  /** The engine on ` \[\w+\]( \(F\))?`: `\w+` runs as far as it can (a shorter run
      would be followed by a word character, not `]`), and the optional foil group is
      tried first. */
  function MatchTail(s: string): Option<(string, bool)> {
    if 2 <= |s| && s[0] == ' ' && s[1] == '[' then
      var w := Span(s[2..], IsWordChar);
      if 0 < w && 2 + w < |s| && s[2 + w] == ']' then
        Some((s[2..2 + w], FoilMarker <= s[3 + w..]))
      else
        None
    else
      None
  }

  lemma TailSound(s: string)
    requires MatchTail(s).Some?
    ensures IsTail(s, MatchTail(s).value.0, MatchTail(s).value.1)
  {
    var w := Span(s[2..], IsWordChar);
    var setId := s[2..2 + w];
    var foil := MatchTail(s).value.1;
    assert s[..3 + w] == " [" + setId + "]";
    if foil {
      assert s[..7 + w] == s[..3 + w] + s[3 + w..][..4];
    }
  }

  lemma TailComplete(s: string, setId: string, foil: bool)
    requires IsTail(s, setId, foil)
    ensures MatchTail(s).Some? && MatchTail(s).value.0 == setId
    ensures foil ==> MatchTail(s).value.1
  {
    var t := TailText(setId, foil);
    var w := |setId|;
    assert s[..|t|] == t;
    assert s[0] == t[0] && s[1] == t[1];
    forall i | 0 <= i < w ensures IsWordChar(s[2..][i]) {
      assert s[2 + i] == t[2 + i] == setId[i];
    }
    assert s[2 + w] == t[2 + w] == ']';
    assert Span(s[2..], IsWordChar) == w;
    assert s[2..2 + w] == t[2..2 + w] == setId;
    if foil {
      assert s[3 + w..][..4] == t[3 + w..] == FoilMarker;
    }
  }

  /** The engine on `(?P<variation>.+)>` followed by the tail, with `s` the text after
      ` <`: greedy `.+` first tries length `m`, then `m - 1`, down to 1, and the first
      length after which `>` and the tail match wins. */
  function SearchVariation(s: string, m: nat): Option<(string, string, bool)>
    requires m <= |s|
    decreases m
  {
    if m == 0 then None
    else if m < |s| && s[m] == '>' && MatchTail(s[m + 1..]).Some? then
      Some((s[..m], MatchTail(s[m + 1..]).value.0, MatchTail(s[m + 1..]).value.1))
    else SearchVariation(s, m - 1)
  }

  lemma {:induction false} SearchSound(s: string, m: nat)
    requires m <= |s|
    requires SearchVariation(s, m).Some?
    ensures var n := |SearchVariation(s, m).value.0|;
      && 0 < n <= m && n < |s| && SearchVariation(s, m).value.0 == s[..n] && s[n] == '>'
      && MatchTail(s[n + 1..]) == Some((SearchVariation(s, m).value.1, SearchVariation(s, m).value.2))
    decreases m
  {
    if m < |s| && s[m] == '>' && MatchTail(s[m + 1..]).Some? {
      assert SearchVariation(s, m).value.0 == s[..m];
    } else {
      assert SearchVariation(s, m) == SearchVariation(s, m - 1);
      SearchSound(s, m - 1);
    }
  }

  lemma {:induction false} SearchComplete(s: string, m: nat, n: nat)
    requires n <= m <= |s|
    requires 0 < n < |s| && s[n] == '>' && MatchTail(s[n + 1..]).Some?
    ensures SearchVariation(s, m).Some? && n <= |SearchVariation(s, m).value.0|
    decreases m
  {
    if !(m < |s| && s[m] == '>' && MatchTail(s[m + 1..]).Some?) {
      SearchComplete(s, m - 1, n);
    }
  }

  /** The engine on `( <(?P<variation>.+)>)? \[(?P<set_id>\w+)\](?P<foil> \(F\))?` at the
      start of `t`: the variation group is tried first; without it the text must start
      with ` [`, which cannot happen once it starts with ` <`. */
  function MatchRest(t: string): Option<(Option<string>, string, bool)> {
    if 2 <= |t| && t[0] == ' ' && t[1] == '<' then
      var s := t[2..];
      match SearchVariation(s, Span(s, IsDotChar))
      case None => None
      case Some((v, setId, foil)) => Some((Some(v), setId, foil))
    else
      match MatchTail(t)
      case None => None
      case Some((setId, foil)) => Some((None, setId, foil))
  }

  /** The optional variation group and the tail match at the start of `t` with these groups. */
  predicate IsRest(t: string, variation: Option<string>, setId: string, foil: bool) {
    && (variation.Some? ==> 0 < |variation.value| && AllOf(variation.value, IsDotChar))
    && 0 < |setId| && AllOf(setId, IsWordChar)
    && RestText(variation, setId, foil) <= t
  }

  /** A prefix followed by a prefix of the remainder is a prefix. */
  lemma PrefixJoin(a: string, b: string, s: string)
    requires a <= s && b <= s[|a|..]
    ensures a + b <= s
  {
    assert (a + b) == s[..|a|] + s[|a|..][..|b|];
    assert s[..|a + b|] == s[..|a|] + s[|a|..][..|b|];
  }

  /** A prefix `a + b` splits into a prefix `a` and a prefix `b` of the remainder. */
  lemma PrefixSplit(a: string, b: string, s: string)
    requires a + b <= s
    ensures a <= s && b <= s[|a|..]
  {
    assert s[..|a|] == (a + b)[..|a|];
    assert s[|a|..][..|b|] == (a + b)[|a|..];
  }

  /** A run of `n` characters that satisfy `p` bounds `Span` from below. */
  lemma SpanAtLeast(s: string, p: char -> bool, n: nat)
    requires n <= |s| && AllOf(s[..n], p)
    ensures n <= Span(s, p)
  {
  }

  /** The first `n` characters of a run of `p` characters satisfy `p`. */
  lemma SpanPrefix(s: string, p: char -> bool, n: nat)
    requires n <= Span(s, p)
    ensures AllOf(s[..n], p)
  {
    forall i | 0 <= i < n ensures p(s[..n][i]) {
      assert s[..n][i] == s[i];
    }
  }

  /** A variation of `n` characters, then `>` and a tail, is a prefix of the text. */
  lemma VariationJoin(s: string, n: nat, setId: string, foil: bool)
    requires n < |s| && s[n] == '>'
    requires TailText(setId, foil) <= s[n + 1..]
    ensures s[..n] + ">" + TailText(setId, foil) <= s
  {
    assert s[..n] + ">" == s[..n + 1];
    PrefixJoin(s[..n + 1], TailText(setId, foil), s);
  }

  /** The variation branch of `MatchRest`, on the text `s` after ` <`. */
  lemma VariationSound(s: string)
    requires SearchVariation(s, Span(s, IsDotChar)).Some?
    ensures var (v, setId, foil) := SearchVariation(s, Span(s, IsDotChar)).value;
      && 0 < |v| && AllOf(v, IsDotChar)
      && 0 < |setId| && AllOf(setId, IsWordChar)
      && v + ">" + TailText(setId, foil) <= s
  {
    var m := Span(s, IsDotChar);
    SearchSound(s, m);
    var found := SearchVariation(s, m).value;
    var n := |found.0|;
    TailSound(s[n + 1..]);
    VariationJoin(s, n, found.1, found.2);
    SpanPrefix(s, IsDotChar, n);
  }

  lemma RestSound(t: string)
    requires MatchRest(t).Some?
    ensures var (variation, setId, foil) := MatchRest(t).value; IsRest(t, variation, setId, foil)
  {
    var (variation, setId, foil) := MatchRest(t).value;
    if 2 <= |t| && t[0] == ' ' && t[1] == '<' {
      var s := t[2..];
      VariationSound(s);
      var v := variation.value;
      var tt := TailText(setId, foil);
      assert " <" == t[..2];
      PrefixJoin(" <", v + ">" + tt, t);
    } else {
      TailSound(t);
    }
  }

  /** A prefix `v>` followed by a tail splits at the `>`. */
  lemma VariationPrefix(s: string, v: string, tt: string)
    requires v + ">" + tt <= s
    ensures |v| < |s| && s[..|v|] == v && s[|v|] == '>' && tt <= s[|v| + 1..]
  {
    PrefixSplit(v + ">", tt, s);
    assert s[..|v| + 1] == v + ">";
  }

  /** A search from `m` down finds a variation at least as long as any `v` of at most
      `m` characters that a `>` and a tail follow, and for `v` itself the tail's groups. */
  lemma SearchFinds(s: string, m: nat, v: string, setId: string, foil: bool)
    requires 0 < |v| <= m <= |s| && |v| < |s| && s[..|v|] == v && s[|v|] == '>'
    requires IsTail(s[|v| + 1..], setId, foil)
    ensures SearchVariation(s, m).Some?
    ensures var (v', setId', foil') := SearchVariation(s, m).value;
      && |v| <= |v'| && (v' == v ==> setId' == setId && (foil ==> foil'))
  {
    TailComplete(s[|v| + 1..], setId, foil);
    SearchComplete(s, m, |v|);
    if SearchVariation(s, m).value.0 == v {
      SearchSame(s, m, v, setId, foil);
    }
  }

  /** When the search settles on `v` itself, it reads the tail that follows `v`. */
  lemma SearchSame(s: string, m: nat, v: string, setId: string, foil: bool)
    requires m <= |s| && SearchVariation(s, m).Some? && SearchVariation(s, m).value.0 == v
    requires |v| < |s| && IsTail(s[|v| + 1..], setId, foil)
    ensures SearchVariation(s, m).value.1 == setId
    ensures foil ==> SearchVariation(s, m).value.2
  {
    SearchSound(s, m);
    TailComplete(s[|v| + 1..], setId, foil);
  }

  /** The variation branch of `RestComplete`, on the text `s` after ` <`. */
  lemma VariationComplete(s: string, v: string, setId: string, foil: bool)
    requires 0 < |v| && AllOf(v, IsDotChar) && 0 < |setId| && AllOf(setId, IsWordChar)
    requires v + ">" + TailText(setId, foil) <= s
    ensures SearchVariation(s, Span(s, IsDotChar)).Some?
    ensures var (v', setId', foil') := SearchVariation(s, Span(s, IsDotChar)).value;
      && |v| <= |v'| && (v' == v ==> setId' == setId && (foil ==> foil'))
  {
    VariationPrefix(s, v, TailText(setId, foil));
    SpanAtLeast(s, IsDotChar, |v|);
    SearchFinds(s, Span(s, IsDotChar), v, setId, foil);
  }

  lemma RestComplete(t: string, variation: Option<string>, setId: string, foil: bool)
    requires IsRest(t, variation, setId, foil)
    ensures MatchRest(t).Some?
    ensures var (v', setId', foil') := MatchRest(t).value;
      && v'.Some? == variation.Some?
      && (variation.Some? ==> |variation.value| <= |v'.value|)
      && (v' == variation ==> setId' == setId && (foil ==> foil'))
  {
    var tt := TailText(setId, foil);
    if variation.Some? {
      var v := variation.value;
      PrefixSplit(" <", v + ">" + tt, t);
      assert t[0] == ' ' && t[1] == '<' by {
        assert t[..2] == " <";
      }
      VariationComplete(t[2..], v, setId, foil);
    } else {
      TailComplete(t, setId, foil);
    }
  }

  /** The match `re.match` returns for `line`, or `None` when the expression does not
      match (in src/main.py, `.groupdict()` on that `None` aborts the run).
      `\d+` must be followed by a space, so it takes every leading digit. */
  function Match(line: string): Option<Groups> {
    var d := Span(line, IsDigit);
    if d == 0 || d == |line| || line[d] != ' ' then None
    else MatchCard(line[..d], line[d + 1..])
  }

  /** The engine from the card group on, with the quantity already read. The card
      cannot contain `[` or `<` and must be followed by ` <` or ` [`, so it ends one
      character before the first `[` or `<`. */
  function MatchCard(quantity: string, r: string): Option<Groups> {
    var k := Span(r, IsCardChar);
    if k < 2 || k == |r| || r[k - 1] != ' ' then None
    else
      var rest := MatchRest(r[k - 1..]);
      if rest.None? then None
      else Some(Groups(quantity, r[..k - 1], rest.value.0, rest.value.1, rest.value.2))
  }

  /** The text after a card starts with a space and then `<` exactly when there is a
      variation, `[` otherwise. */
  lemma RestTextStart(variation: Option<string>, setId: string, foil: bool)
    ensures var t := RestText(variation, setId, foil);
      |t| > 2 && t[0] == ' ' && t[1] == (if variation.Some? then '<' else '[')
  {
  }

  lemma CardSound(quantity: string, r: string)
    requires MatchCard(quantity, r).Some?
    ensures var g := MatchCard(quantity, r).value;
      && g.quantity == quantity && 0 < |g.card| && AllOf(g.card, IsCardChar)
      && IsRest(r[|g.card|..], g.variation, g.setId, g.foil)
      && g.card + RestText(g.variation, g.setId, g.foil) <= r
  {
    var g := MatchCard(quantity, r).value;
    var k := Span(r, IsCardChar);
    RestSound(r[k - 1..]);
    assert g.card == r[..k - 1];
    PrefixJoin(g.card, RestText(g.variation, g.setId, g.foil), r);
  }

  /** Text `b` that starts the remainder after a quantity `q` and its space starts,
      behind `q + " "`, the line itself. */
  lemma QuantityJoin(line: string, q: string, b: string)
    requires |q| < |line| && line[..|q|] == q && line[|q|] == ' ' && b <= line[|q| + 1..]
    ensures (q + " ") + b <= line
  {
    assert line[..|q| + 1] == q + " ";
    PrefixJoin(q + " ", b, line);
  }

  lemma MatchUnfold(line: string)
    requires Match(line).Some?
    ensures var d := Span(line, IsDigit);
      0 < d < |line| && line[d] == ' ' && Match(line) == MatchCard(line[..d], line[d + 1..])
  {
  }

  /** A digit run, a space, and a card with the rest of the expression after it make a
      match. */
  lemma MatchJoin(line: string, d: nat, g: Groups)
    requires 0 < d == Span(line, IsDigit) && d < |line| && line[d] == ' ' && g.quantity == line[..d]
    requires 0 < |g.card| && AllOf(g.card, IsCardChar)
    requires g.card + RestText(g.variation, g.setId, g.foil) <= line[d + 1..]
    requires IsRest(line[d + 1..][|g.card|..], g.variation, g.setId, g.foil)
    ensures IsMatch(line, g)
  {
    QuantityJoin(line, g.quantity, g.card + RestText(g.variation, g.setId, g.foil));
    forall i | 0 <= i < d ensures IsDigit(g.quantity[i]) {
      assert g.quantity[i] == line[i];
    }
  }

  /** What `Match` returns is a match of the expression. */
  lemma MatchSound(line: string)
    requires Match(line).Some?
    ensures IsMatch(line, Match(line).value)
  {
    var d := Span(line, IsDigit);
    MatchUnfold(line);
    CardSound(line[..d], line[d + 1..]);
    MatchJoin(line, d, Match(line).value);
  }

  /** In a match, the card ends one character before the first `[` or `<`. */
  lemma DecomposeCard(r: string, card: string, after: string)
    requires 0 < |card| && AllOf(card, IsCardChar)
    requires |after| > 2 && after[0] == ' ' && !IsCardChar(after[1])
    requires card + after <= r
    ensures |card| + 2 < |r| && Span(r, IsCardChar) == |card| + 1
    ensures r[|card|] == ' ' && r[..|card|] == card
    ensures after <= r[|card|..]
  {
    var c := |card|;
    PrefixSplit(card, after, r);
    var t := r[c..];
    assert t[0] == after[0] && t[1] == after[1];
    assert r[c] == ' ' && !IsCardChar(r[c + 1]);
    RunExtends(r, card, IsCardChar);
    SpanExactly(r, IsCardChar, c + 1);
  }

  /** A run of `p` characters that one more `p` character follows is a longer run. */
  lemma RunExtends(r: string, run: string, p: char -> bool)
    requires run <= r && |run| < |r| && AllOf(run, p) && p(r[|run|])
    ensures AllOf(r[..|run| + 1], p)
  {
    var longer := r[..|run| + 1];
    forall i | 0 <= i < |longer| ensures p(longer[i]) {
      if i < |run| {
        assert longer[i] == run[i];
      }
    }
  }

  /** A run of `n` characters satisfying `p` that a character failing `p` ends is
      exactly what `Span` measures. */
  lemma SpanExactly(s: string, p: char -> bool, n: nat)
    requires n < |s| && AllOf(s[..n], p) && !p(s[n])
    ensures Span(s, p) == n
  {
    SpanAtLeast(s, p, n);
  }

  /** In a match, the quantity is every leading digit, and a space follows it. */
  lemma DecomposeQuantity(line: string, h: Groups)
    requires IsMatch(line, h)
    ensures var d := |h.quantity|;
      && d < |line| && Span(line, IsDigit) == d && line[d] == ' ' && line[..d] == h.quantity
      && h.card + RestText(h.variation, h.setId, h.foil) <= line[d + 1..]
  {
    var d := |h.quantity|;
    PrefixSplit(h.quantity + " ", h.card + RestText(h.variation, h.setId, h.foil), line);
    assert line[..d] == h.quantity && line[d] == ' ' by {
      assert line[..d + 1] == h.quantity + " ";
    }
    SpanAtLeast(line, IsDigit, d);
  }

  /** Whenever the expression matches `line` with some groups `h`, `Match` finds a
      match, and it is the one the backtracking engine prefers over `h`: the same
      quantity and card, a variation exactly when `h` has one and at least as long,
      and, with the same variation, the same set id and the foil group taken whenever
      `h` takes it. */
  lemma MatchComplete(line: string, h: Groups)
    requires IsMatch(line, h)
    ensures Match(line).Some?
    ensures var g := Match(line).value;
      && g.quantity == h.quantity && g.card == h.card
      && g.variation.Some? == h.variation.Some?
      && (h.variation.Some? ==> |h.variation.value| <= |g.variation.value|)
      && (g.variation == h.variation ==> g.setId == h.setId && (h.foil ==> g.foil))
  {
    DecomposeQuantity(line, h);
    var d := |h.quantity|;
    assert Match(line) == MatchCard(line[..d], line[d + 1..]);
    CardComplete(h.quantity, line[d + 1..], h);
  }

  /** The card step of `MatchComplete`, on the text `r` after the quantity and its
      space. */
  lemma CardComplete(quantity: string, r: string, h: Groups)
    requires WellFormed(h) && h.card + RestText(h.variation, h.setId, h.foil) <= r
    ensures MatchCard(quantity, r).Some?
    ensures var g := MatchCard(quantity, r).value;
      && g.quantity == quantity && g.card == h.card
      && g.variation.Some? == h.variation.Some?
      && (h.variation.Some? ==> |h.variation.value| <= |g.variation.value|)
      && (g.variation == h.variation ==> g.setId == h.setId && (h.foil ==> g.foil))
  {
    var c := |h.card|;
    RestTextStart(h.variation, h.setId, h.foil);
    DecomposeCard(r, h.card, RestText(h.variation, h.setId, h.foil));
    RestComplete(r[c..], h.variation, h.setId, h.foil);
  }

  /** Where the `[` opening the set id sits in the text of `g`. */
  function BracketIndex(g: Groups): nat {
    |g.quantity| + 1 + |g.card| + (if g.variation.Some? then |g.variation.value| + 3 else 0) + 1
  }

  lemma RenderedHasBracket(g: Groups)
    ensures BracketIndex(g) < |Rendered(g)| && Rendered(g)[BracketIndex(g)] == '['
  {
    var tail := TailText(g.setId, g.foil);
    var before := (g.quantity + " ") + g.card + (if g.variation.Some? then " <" + (g.variation.value + ">") else "");
    assert Rendered(g) == before + tail;
    assert |before| + 1 == BracketIndex(g);
    assert tail[1] == '[';
  }

  /** The set id is mandatory: every line that matches contains `[`, so a line without
      one never matches and the run aborts. */
  lemma MatchNeedsBracket(line: string)
    requires Match(line).Some?
    ensures '[' in line
  {
    MatchSound(line);
    var g := Match(line).value;
    RenderedHasBracket(g);
    assert line[BracketIndex(g)] == Rendered(g)[BracketIndex(g)];
  }

  /** No `>` occurs in the tail: set ids are word characters. */
  lemma TailHasNoAngle(setId: string, foil: bool)
    requires AllOf(setId, IsWordChar)
    ensures forall i :: 0 <= i < |TailText(setId, foil)| ==> TailText(setId, foil)[i] != '>'
  {
    var t := TailText(setId, foil);
    forall i | 0 <= i < |t| ensures t[i] != '>' {
      if 2 <= i < 2 + |setId| {
        assert t[i] == setId[i - 2];
      }
    }
  }

  /** Behind a common prefix `a`, a variation `v'` at least as long as `v` and followed
      by `>` must be `v` itself when the text after `v` and its `>` has no `>`. */
  lemma VariationForced(a: string, v: string, t: string, v': string, t': string)
    requires |v| <= |v'|
    requires forall i :: 0 <= i < |t| ==> t[i] != '>'
    requires a + ((v' + ">") + t') <= a + ((v + ">") + t)
    ensures v' == v
  {
    var l := a + ((v + ">") + t);
    var r := a + ((v' + ">") + t');
    var n := |a| + |v'|;
    assert r[n] == '>';
    assert l[n] == r[n];
    assert v' == r[|a|..n] == l[|a|..n] == v;
  }

  /** The text of groups with a variation, split after the ` <` that opens it. */
  lemma RenderedVariation(g: Groups)
    requires g.variation.Some?
    ensures Rendered(g)
         == ((g.quantity + " ") + (g.card + " <")) + ((g.variation.value + ">") + TailText(g.setId, g.foil))
  {
  }

  /** In a line that is exactly the text of `h`, a match `g` with the same card and a
      variation at least as long as `h`'s has `h`'s variation. */
  lemma SameVariation(h: Groups, g: Groups)
    requires WellFormed(h) && IsMatch(Rendered(h), g)
    requires g.quantity == h.quantity && g.card == h.card && g.variation.Some? == h.variation.Some?
    requires h.variation.Some? ==> |h.variation.value| <= |g.variation.value|
    ensures g.variation == h.variation
  {
    if h.variation.Some? {
      var v, v' := h.variation.value, g.variation.value;
      var a := (h.quantity + " ") + (h.card + " <");
      var t, t' := TailText(h.setId, h.foil), TailText(g.setId, g.foil);
      RenderedVariation(h);
      RenderedVariation(g);
      TailHasNoAngle(h.setId, h.foil);
      VariationForced(a, v, t, v', t');
    }
  }

  /** Round trip: a line that is exactly the text of well-formed groups `h` parses back
      to `h`. A longer variation would need a later `>`, and the tail has none; a foil
      group not in `h` would need four more characters. */
  lemma {:induction false} RenderedRoundTrip(h: Groups)
    requires WellFormed(h)
    ensures Match(Rendered(h)) == Some(h)
  {
    var line := Rendered(h);
    MatchComplete(line, h);
    MatchSound(line);
    var g := Match(line).value;
    SameVariation(h, g);
    assert g == h;
  }

  /** `2 Opt [XLN]`: quantity 2, no variation, set XLN, no foil marker. */
  lemma ExamplePlainLine(line: string)
    requires line == "2 Opt [XLN]"
    ensures Match(line) == Some(Groups("2", "Opt", None, "XLN", false))
  {
    var h := Groups("2", "Opt", None, "XLN", false);
    assert WellFormed(h) by {
      assert AllOf(h.card, IsCardChar) by { assert '[' !in h.card && '<' !in h.card; }
    }
    assert Rendered(h) == "2 Opt [XLN]";
    RenderedRoundTrip(h);
  }

  /** `1 Opt <P> [X] (F)`: a variation, and the foil group matches. */
  lemma ExampleFoilLine(line: string)
    requires line == "1 Opt <P> [X] (F)"
    ensures Match(line) == Some(Groups("1", "Opt", Some("P"), "X", true))
  {
    var h := Groups("1", "Opt", Some("P"), "X", true);
    assert Rendered(h) == "1 Opt <P> [X] (F)";
    RenderedRoundTrip(h);
  }

  /** `1 A // B [X]`: the card name of a deck line keeps its ` // `. */
  lemma ExampleSplitCardLine(line: string)
    requires line == "1 A // B [X]"
    ensures Match(line) == Some(Groups("1", "A // B", None, "X", false))
  {
    var h := Groups("1", "A // B", None, "X", false);
    assert Rendered(h) == "1 A // B [X]";
    RenderedRoundTrip(h);
  }

  /** `1 A <x> [S] <y> [T]`: the greedy `.+` of the variation runs to the last `>`
      that a set id follows, so the variation is `x> [S] <y` and the set id `T`. */
  lemma ExampleGreedyVariation(line: string)
    requires line == "1 A <x> [S] <y> [T]"
    ensures Match(line) == Some(Groups("1", "A", Some("x> [S] <y"), "T", false))
  {
    var h := Groups("1", "A", Some("x> [S] <y"), "T", false);
    assert Rendered(h) == "1 A <x> [S] <y> [T]";
    RenderedRoundTrip(h);
  }
}
