/**
 * The OpenAlex collector: for every catalogue row not yet enriched, search
 * OpenAlex by title, pick the candidate whose normalised title is most
 * similar, accept it when the similarity is exact or at least 0.92, and
 * append a record with its identifiers, concept tags and reconstructed
 * abstract to the output file in batches.
 */
module OpenAlexCollector {
  import opened Common

  /** Records are written every SAVE_EVERY rows (on the paths that check). */
  const SAVE_EVERY: nat := 5
  /** The lowest similarity accepted without an exact title match. */
  const SIM_THRESHOLD: real := 0.92
  /** extract_concepts keeps the names of this many best-scored concepts. */
  const TOP_K: nat := 10

  /** The characters norm_title turns into spaces, in the order it does. */
  const TITLE_PUNCTUATION: seq<char> :=
    [':', ';', ',', '.', '(', ')', '[', ']', '{', '}', '\'', '"', '/', '\\', '|']

  // ---------------------------------------------------------------------
  // Title normalisation and similarity
  // ---------------------------------------------------------------------

  /** t.replace(ch, " ") for each ch of chars in turn. */
  function ReplaceEach(t: string, chars: seq<char>): (r: string)
    ensures |r| == |t|
    decreases |chars|
  {
    if chars == [] then t else ReplaceEach(ReplaceChar(t, chars[0], ' '), chars[1..])
  }

  /** The replacements amount to one pass mapping every listed character to
      a space, since a space is never one of them. */
  lemma {:induction false} ReplaceEachSpec(t: string, chars: seq<char>)
    requires ' ' !in chars
    ensures forall i :: 0 <= i < |t| ==>
      ReplaceEach(t, chars)[i] == if t[i] in chars then ' ' else t[i]
    decreases |chars|
  {
    if chars != [] {
      ReplaceEachSpec(ReplaceChar(t, chars[0], ' '), chars[1..]);
    }
  }

  predicate IsTitlePunctuation(c: char) {
    || c == ':' || c == ';' || c == ',' || c == '.' || c == '(' || c == ')' || c == '['
    || c == ']' || c == '{' || c == '}' || c == '\'' || c == '"' || c == '/' || c == '\\' || c == '|'
  }

  /** The fifteen replace calls of norm_title as one pass over the title. */
  function PunctuationToSpace(s: string): (r: string)
    ensures |r| == |s|
    ensures forall i :: 0 <= i < |s| ==> r[i] == if IsTitlePunctuation(s[i]) then ' ' else s[i]
  {
    seq(|s|, i requires 0 <= i < |s| => if IsTitlePunctuation(s[i]) then ' ' else s[i])
  }

  /** Replacing the punctuation one character after another is the same
      as the single pass. */
  lemma ReplaceEachIsOnePass(s: string)
    ensures ReplaceEach(s, TITLE_PUNCTUATION) == PunctuationToSpace(s)
  {
    ReplaceEachPointwise(s, TITLE_PUNCTUATION);
    forall i | 0 <= i < |s|
      ensures s[i] in TITLE_PUNCTUATION <==> IsTitlePunctuation(s[i])
    {
      PunctuationListed(s[i]);
    }
  }

  lemma PunctuationListed(c: char)
    ensures c in TITLE_PUNCTUATION <==> IsTitlePunctuation(c)
  {
  }

  lemma ReplaceEachPointwise(s: string, chars: seq<char>)
    requires chars == TITLE_PUNCTUATION
    ensures forall i :: 0 <= i < |s| ==>
      ReplaceEach(s, chars)[i] == if s[i] in chars then ' ' else s[i]
  {
    assert ' ' !in chars;
    ReplaceEachSpec(s, chars);
  }

  /** norm_title: strip, lower-case, punctuation to spaces, collapse the
      whitespace; None for a missing or blank result. */
  function NormTitle(t: Option<string>): (r: Option<string>)
    ensures t.None? ==> r.None?
    ensures r.Some? ==> r.value != []
  {
    if t.None? then None
    else
      var s := Lower(Strip(t.value));
      if s == [] then None
      else
        var c := Collapse(PunctuationToSpace(s));
        if c == [] then None else Some(c)
  }

  predicate NoPunctuation(s: string) {
    forall i :: 0 <= i < |s| ==> !IsTitlePunctuation(s[i])
  }

  /** A normalised title is lower case, free of the punctuation, and has
      single spaces between words and none at the ends. */
  lemma NormTitleShape(t: Option<string>)
    requires NormTitle(t).Some?
    ensures var r := NormTitle(t).value;
      NoUpper(r) && NoPunctuation(r) && Collapsed(r) && Stripped(r)
  {
    var s := Lower(Strip(t.value));
    var p := PunctuationToSpace(s);
    PunctuationToSpaces(s);
    CollapseKeepsClean(p);
  }

  lemma PunctuationToSpaces(s: string)
    requires NoUpper(s)
    ensures var p := PunctuationToSpace(s);
      NoUpper(p) && NoPunctuation(p)
      && forall i :: 0 <= i < |s| ==> (IsSpace(p[i]) <==> BlankOrPunctuation(s[i]))
  {
  }

  lemma CollapseKeepsClean(p: string)
    requires NoUpper(p) && NoPunctuation(p)
    ensures NoUpper(Collapse(p)) && NoPunctuation(Collapse(p))
  {
    var r := Collapse(p);
    forall i | 0 <= i < |r|
      ensures !IsAsciiUpper(r[i]) && !IsTitlePunctuation(r[i])
    {
      assert r[i] in r;
      if r[i] != ' ' {
        var j :| 0 <= j < |p| && p[j] == r[i];
      }
    }
  }

  /** Normalising a normalised title changes nothing. */
  lemma NormTitleIdempotent(t: Option<string>)
    ensures NormTitle(NormTitle(t)) == NormTitle(t)
  {
    if NormTitle(t).Some? {
      var r := NormTitle(t).value;
      NormTitleShape(t);
      FixedPoint(r);
    }
  }

  lemma FixedPoint(r: string)
    requires r != [] && NoUpper(r) && NoPunctuation(r) && Collapsed(r) && Stripped(r)
    ensures NormTitle(Some(r)) == Some(r)
  {
    StripSpec(r);
    LowerFixesNoUpper(r);
    assert PunctuationToSpace(r) == r;
    CollapseFixesCollapsed(r);
  }

  predicate BlankOrPunctuation(c: char) {
    IsSpace(c) || IsTitlePunctuation(c)
  }

  predicate AllBlankOrPunctuation(s: string) {
    forall i :: 0 <= i < |s| ==> BlankOrPunctuation(s[i])
  }

  /** A title normalises to nothing exactly when it holds only whitespace
      and the punctuation. */
  lemma NormTitleBlank(t: string)
    ensures NormTitle(Some(t)).None? <==> AllBlankOrPunctuation(t)
  {
    var u := Strip(t);
    var s := Lower(u);
    StripKeepsBlankness(t);
    LowerKeepsBlankness(u);
    if s != [] {
      PunctuationToSpaces(s);
    }
  }

  lemma LowerKeepsBlankness(u: string)
    ensures AllBlankOrPunctuation(Lower(u)) <==> AllBlankOrPunctuation(u)
  {
    assert forall i :: 0 <= i < |u| ==> (BlankOrPunctuation(Lower(u)[i]) <==> BlankOrPunctuation(u[i]));
  }

  lemma StripKeepsBlankness(t: string)
    ensures AllBlankOrPunctuation(Strip(t)) <==> AllBlankOrPunctuation(t)
  {
    var u := Strip(t);
    TrimLeftSpec(t);
    TrimRightSpec(TrimLeft(t));
    var a := |t| - |TrimLeft(t)|;
    assert u == t[a..a + |u|];
    assert forall i :: 0 <= i < a ==> IsSpace(t[i]);
    forall i | a + |u| <= i < |t|
      ensures IsSpace(t[i])
    {
      assert TrimLeft(t)[i - a] == t[i];
    }
    assert forall i :: 0 <= i < |u| ==> u[i] == t[a + i];
  }

  /** A ratio function behaves as SequenceMatcher.ratio does: a value in
      [0, 1] that reaches 1 only for equal strings. */
  ghost predicate ValidRatio(ratio: (string, string) -> real) {
    forall a, b :: 0.0 <= ratio(a, b) <= 1.0 && (ratio(a, b) == 1.0 ==> a == b)
  }

  /** title_similarity: 0 when either title is missing or empty. */
  function TitleSimilarity(a: Option<string>, b: Option<string>, ratio: (string, string) -> real): (s: real)
    ensures !Truthy(a) || !Truthy(b) ==> s == 0.0
    ensures ValidRatio(ratio) ==> 0.0 <= s <= 1.0
    ensures ValidRatio(ratio) && s == 1.0 ==> a == b
  {
    if !Truthy(a) || !Truthy(b) then 0.0 else ratio(a.value, b.value)
  }

  // ---------------------------------------------------------------------
  // Abstract reconstruction
  // ---------------------------------------------------------------------

  /** abstract_inverted_index as delivered: not a dict at all, or its items
      in order, each a word with its position list (None when the value is
      not a list). */
  datatype AbstractIndex = NotADict | Index(entries: seq<(string, Option<seq<int>>)>)

  /** positions[p] = word for each p of ps in turn. */
  function PlaceAll(m: map<int, string>, word: string, ps: seq<int>): (r: map<int, string>)
    decreases |ps|
  {
    if ps == [] then m else PlaceAll(m, word, ps[..|ps| - 1])[ps[|ps| - 1] := word]
  }

  /** The positions dict built from the items in order; a value that is not
      a list is skipped. */
  function Placed(entries: seq<(string, Option<seq<int>>)>): (m: map<int, string>)
    decreases |entries|
  {
    if entries == [] then map[]
    else
      var m := Placed(entries[..|entries| - 1]);
      var e := entries[|entries| - 1];
      if e.1.None? then m else PlaceAll(m, e.0, e.1.value)
  }

  /** Item i lists position p. */
  predicate Lists(entries: seq<(string, Option<seq<int>>)>, i: int, p: int)
    requires 0 <= i < |entries|
  {
    entries[i].1.Some? && p in entries[i].1.value
  }

  lemma {:induction false} PlaceAllAt(m: map<int, string>, word: string, ps: seq<int>, p: int)
    ensures p in ps ==> p in PlaceAll(m, word, ps) && PlaceAll(m, word, ps)[p] == word
    ensures p !in ps ==> Get(PlaceAll(m, word, ps), p) == Get(m, p)
    decreases |ps|
  {
    if ps != [] {
      var pre := ps[..|ps| - 1];
      PlaceAllAt(m, word, pre, p);
      assert p in ps <==> p in pre || p == ps[|ps| - 1];
    }
  }

  /** The word stored at a position is the word of the last item listing it
      (later items overwrite earlier ones), and a position is stored exactly
      when some item lists it. */
  lemma {:induction false} PlacedLastWriter(entries: seq<(string, Option<seq<int>>)>, p: int)
    ensures p in Placed(entries) <==> exists i :: 0 <= i < |entries| && Lists(entries, i, p)
    ensures p in Placed(entries) ==> exists i ::
      && 0 <= i < |entries| && Lists(entries, i, p)
      && Placed(entries)[p] == entries[i].0
      && forall j :: i < j < |entries| ==> !Lists(entries, j, p)
    decreases |entries|
  {
    if entries != [] {
      var n := |entries| - 1;
      var pre, e := entries[..n], entries[n];
      PlacedLastWriter(pre, p);
      assert forall i :: 0 <= i < n ==> (Lists(pre, i, p) <==> Lists(entries, i, p));
      if e.1.Some? {
        PlaceAllAt(Placed(pre), e.0, e.1.value, p);
      }
      if Lists(entries, n, p) {
        assert Placed(entries)[p] == e.0;
      } else if p in Placed(entries) {
        assert p in Placed(pre);
        var i :| && 0 <= i < n && Lists(pre, i, p) && Placed(pre)[p] == pre[i].0
                 && forall j :: i < j < n ==> !Lists(pre, j, p);
        assert Lists(entries, i, p) && Placed(entries)[p] == entries[i].0;
      }
    }
  }

  /** A non-empty set of positions has an element. */
  lemma SomeElement(s: set<int>)
    requires s != {}
    ensures exists x :: x in s
  {
    if forall x :: x !in s {
      assert false;
    }
  }

  /** k is the largest key of m (max(positions.keys())). */
  ghost predicate IsMaxKey(m: map<int, string>, k: int) {
    k in m && forall j :: j in m ==> j <= k
  }

  lemma MaxKeyExists(keys: set<int>)
    requires keys != {}
    ensures exists k :: k in keys && forall j :: j in keys ==> j <= k
    decreases |keys|
  {
    SomeElement(keys);
    var x :| x in keys;
    if keys - {x} != {} {
      MaxKeyExists(keys - {x});
      var k :| k in keys - {x} && forall j :: j in keys - {x} ==> j <= k;
      assert forall j :: j in keys ==> j == x || j in keys - {x};
      if x > k {
        assert forall j :: j in keys ==> j <= x;
      } else {
        assert forall j :: j in keys ==> j <= k;
      }
    } else {
      assert keys == {x};
    }
  }

  /** [w for w in (positions.get(i, "") for i in range(n)) if w]. */
  function WordsBelow(m: map<int, string>, n: nat): (ws: seq<string>)
    decreases n
  {
    if n == 0 then []
    else
      var w := if n - 1 in m then m[n - 1] else [];
      WordsBelow(m, n - 1) + (if w != [] then [w] else [])
  }

  /** The words kept are exactly the non-empty words at positions below n. */
  lemma {:induction false} WordsBelowContents(m: map<int, string>, n: nat, w: string)
    ensures w in WordsBelow(m, n) <==> w != [] && exists k :: 0 <= k < n && k in m && m[k] == w
    decreases n
  {
    if n > 0 {
      WordsBelowContents(m, n - 1, w);
    }
  }

  /** reconstruct_abstract, as a specification. */
  ghost function AbstractText(index: AbstractIndex): (text: Option<string>)
    ensures text.Some? ==> text.value != [] && Stripped(text.value)
  {
    if index.NotADict? then None
    else
      var m := Placed(index.entries);
      if m == map[] then None
      else
        assert exists k :: IsMaxKey(m, k) by {
          MaxKeyExists(m.Keys);
          var k :| k in m.Keys && forall j :: j in m.Keys ==> j <= k;
          assert IsMaxKey(m, k);
        }
        var k :| IsMaxKey(m, k);
        TextUpTo(m, k)
  }

  /** The words at positions 0..k joined by spaces and trimmed; None when
      nothing is left. */
  function TextUpTo(m: map<int, string>, k: int): (text: Option<string>)
    ensures text.Some? ==> text.value != [] && Stripped(text.value)
  {
    var joined := Join(" ", WordsBelow(m, if k >= 0 then k + 1 else 0));
    StripSpec(joined);
    var t := Strip(joined);
    if t == [] then None else Some(t)
  }

  /** A map has one largest key. */
  lemma MaxKeyUnique(m: map<int, string>, a: int, b: int)
    requires IsMaxKey(m, a) && IsMaxKey(m, b)
    ensures a == b
  {
  }

  /** The loop of reconstruct_abstract that fills the positions dict. */
  method PlacePositions(entries: seq<(string, Option<seq<int>>)>) returns (positions: map<int, string>)
    ensures positions == Placed(entries)
  {
    positions := map[];
    for e := 0 to |entries|
      invariant positions == Placed(entries[..e])
    {
      assert entries[..e + 1][..e] == entries[..e];
      var word, posList := entries[e].0, entries[e].1;
      if posList.Some? {
        var ps := posList.value;
        for j := 0 to |ps|
          invariant positions == PlaceAll(Placed(entries[..e]), word, ps[..j])
        {
          assert ps[..j + 1][..j] == ps[..j];
          positions := positions[ps[j] := word];
        }
        assert ps[..|ps|] == ps;
      }
    }
    assert entries[..|entries|] == entries;
  }

  /** max(positions.keys()). */
  method MaxKey(positions: map<int, string>) returns (maxPos: int)
    requires positions != map[]
    ensures IsMaxKey(positions, maxPos)
  {
    SomeElement(positions.Keys);
    maxPos :| maxPos in positions;
    var rest := positions.Keys - {maxPos};
    while rest != {}
      invariant maxPos in positions && rest <= positions.Keys
      invariant forall j :: j in positions && j !in rest ==> j <= maxPos
      decreases rest
    {
      SomeElement(rest);
      var k :| k in rest;
      if k > maxPos {
        maxPos := k;
      }
      rest := rest - {k};
    }
  }

  /** The non-empty words at positions 0 .. n - 1, in order. */
  method WordsInOrder(positions: map<int, string>, n: nat) returns (kept: seq<string>)
    ensures kept == WordsBelow(positions, n)
  {
    kept := [];
    for i := 0 to n
      invariant kept == WordsBelow(positions, i)
    {
      var w := if i in positions then positions[i] else [];
      if w != [] {
        kept := kept + [w];
      }
    }
  }

  /** reconstruct_abstract: rebuild the text from the word positions. */
  method ReconstructAbstract(index: AbstractIndex) returns (text: Option<string>)
    ensures text == AbstractText(index)
  {
    if index.NotADict? {
      return None;
    }
    var positions := PlacePositions(index.entries);
    if positions == map[] {
      return None;
    }
    var maxPos := MaxKey(positions);
    var kept := WordsInOrder(positions, if maxPos >= 0 then maxPos + 1 else 0);
    var t := Strip(Join(" ", kept));
    text := if t == [] then None else Some(t);
    assert text == TextUpTo(positions, maxPos);
    ghost var k :| IsMaxKey(positions, k) && AbstractText(index) == TextUpTo(positions, k);
    MaxKeyUnique(positions, k, maxPos);
  }

  // ---------------------------------------------------------------------
  // Concept tags
  // ---------------------------------------------------------------------

  /** One entry of a work's concepts list. */
  datatype Concept = Concept(displayName: Option<string>, score: Option<real>)

  /** x.get("score", 0). */
  function ScoreOf(c: Concept): real {
    if c.score.Some? then c.score.value else 0.0
  }

  predicate SortedByScore(cs: seq<Concept>) {
    forall i, j :: 0 <= i < j < |cs| ==> ScoreOf(cs[i]) >= ScoreOf(cs[j])
  }

  /** The concepts of cs that have score v, in order. */
  function WithScore(cs: seq<Concept>, v: real): seq<Concept>
    decreases |cs|
  {
    if cs == [] then []
    else (if ScoreOf(cs[0]) == v then [cs[0]] else []) + WithScore(cs[1..], v)
  }

  /** Put c in front of the first concept that does not score higher. */
  function InsertByScore(c: Concept, cs: seq<Concept>): (r: seq<Concept>)
    ensures |r| == |cs| + 1
    ensures multiset(r) == multiset(cs) + multiset{c}
    decreases |cs|
  {
    if cs == [] || ScoreOf(c) >= ScoreOf(cs[0]) then [c] + cs
    else
      assert cs == [cs[0]] + cs[1..];
      [cs[0]] + InsertByScore(c, cs[1..])
  }

  /** sorted(concepts, key=score, reverse=True): highest score first, and
      concepts with equal scores in their original order. */
  function SortByScore(cs: seq<Concept>): (r: seq<Concept>)
    ensures |r| == |cs|
    ensures multiset(r) == multiset(cs)
    decreases |cs|
  {
    if cs == [] then []
    else
      assert cs == [cs[0]] + cs[1..];
      InsertByScore(cs[0], SortByScore(cs[1..]))
  }

  lemma {:induction false} InsertKeepsSorted(c: Concept, cs: seq<Concept>)
    requires SortedByScore(cs)
    ensures SortedByScore(InsertByScore(c, cs))
    decreases |cs|
  {
    if cs != [] && ScoreOf(c) < ScoreOf(cs[0]) {
      InsertKeepsSorted(c, cs[1..]);
      var r := InsertByScore(c, cs[1..]);
      var all := [cs[0]] + r;
      forall i, j | 0 <= i < j < |all|
        ensures ScoreOf(all[i]) >= ScoreOf(all[j])
      {
        if i == 0 {
          var x := all[j];
          assert x in multiset(r);
          if x != c {
            assert x in multiset(cs[1..]);
            var k :| 0 <= k < |cs[1..]| && cs[1..][k] == x;
            assert cs[k + 1] == x;
          }
        } else {
          assert all[i] == r[i - 1] && all[j] == r[j - 1];
        }
      }
    }
  }

  lemma {:induction false} SortByScoreSorted(cs: seq<Concept>)
    ensures SortedByScore(SortByScore(cs))
    decreases |cs|
  {
    if cs != [] {
      SortByScoreSorted(cs[1..]);
      InsertKeepsSorted(cs[0], SortByScore(cs[1..]));
    }
  }

  lemma {:induction false} InsertStable(c: Concept, cs: seq<Concept>, v: real)
    requires SortedByScore(cs)
    ensures WithScore(InsertByScore(c, cs), v) == WithScore([c] + cs, v)
    decreases |cs|
  {
    assert ([c] + cs)[1..] == cs;
    if cs != [] && ScoreOf(c) < ScoreOf(cs[0]) {
      InsertStable(c, cs[1..], v);
      var r := InsertByScore(c, cs[1..]);
      assert ([cs[0]] + r)[1..] == r;
      assert ([c] + cs[1..])[1..] == cs[1..];
      if ScoreOf(cs[0]) == v {
        // Every concept after cs[0] scores at most v, so c (lower) is not v
        // unless ... it is strictly lower than cs[0] == v.
        assert ScoreOf(c) != v;
      }
    }
  }

  /** The sort is stable: the concepts of any one score keep their order. */
  lemma {:induction false} SortByScoreStable(cs: seq<Concept>, v: real)
    ensures WithScore(SortByScore(cs), v) == WithScore(cs, v)
    decreases |cs|
  {
    if cs != [] {
      SortByScoreStable(cs[1..], v);
      SortByScoreSorted(cs[1..]);
      InsertStable(cs[0], SortByScore(cs[1..]), v);
      assert ([cs[0]] + SortByScore(cs[1..]))[1..] == SortByScore(cs[1..]);
    }
  }

  function Min(a: nat, b: nat): nat { if a <= b then a else b }

  /** sorted(...)[:TOP_K]: the TOP_K first concepts, or all of them. */
  function TopConcepts(cs: seq<Concept>): (r: seq<Concept>)
    ensures |r| == Min(TOP_K, |cs|)
    ensures multiset(r) <= multiset(cs)
  {
    var sorted := SortByScore(cs);
    var k := Min(TOP_K, |cs|);
    assert sorted == sorted[..k] + sorted[k..];
    sorted[..k]
  }

  /** The top concepts are the TOP_K (or all) best scored: sorted, taken
      from cs, and none left out scores higher than one kept. */
  lemma TopConceptsAreBest(cs: seq<Concept>)
    ensures var top := TopConcepts(cs);
      && |top| == Min(TOP_K, |cs|)
      && SortedByScore(top)
      && multiset(top) <= multiset(cs)
      && forall x, y :: x in top && y in multiset(cs) - multiset(top) ==> ScoreOf(y) <= ScoreOf(x)
  {
    var sorted := SortByScore(cs);
    var k := Min(TOP_K, |cs|);
    var top, rest := sorted[..k], sorted[k..];
    SortByScoreSorted(cs);
    SortedSplit(sorted, k);
    assert sorted == top + rest;
    assert multiset(cs) - multiset(top) == multiset(rest);
  }

  lemma SortedSplit(sorted: seq<Concept>, k: nat)
    requires SortedByScore(sorted) && k <= |sorted|
    ensures SortedByScore(sorted[..k])
    ensures forall x, y :: x in sorted[..k] && y in multiset(sorted[k..]) ==> ScoreOf(y) <= ScoreOf(x)
  {
    forall x, y | x in sorted[..k] && y in multiset(sorted[k..])
      ensures ScoreOf(y) <= ScoreOf(x)
    {
      var i :| 0 <= i < k && sorted[..k][i] == x;
      var j :| 0 <= j < |sorted| - k && sorted[k..][j] == y;
      assert sorted[i] == x && sorted[k + j] == y;
    }
  }

  /** The truthy display names, in order. */
  function NamesOf(cs: seq<Concept>): (names: seq<string>)
    ensures |names| <= |cs|
    ensures forall n :: n in names ==> n != [] && exists c :: c in cs && c.displayName == Some(n)
    decreases |cs|
  {
    if cs == [] then []
    else
      var rest := NamesOf(cs[1..]);
      if Truthy(cs[0].displayName) then [cs[0].displayName.value] + rest else rest
  }

  /** The names keep the order of the concepts and drop exactly those
      without a truthy display name: a single concept gives its name or
      nothing, and the names of a concatenation are the concatenation of
      the names. */
  lemma {:induction false} NamesOfInOrder(a: seq<Concept>, b: seq<Concept>)
    ensures NamesOf(a + b) == NamesOf(a) + NamesOf(b)
    ensures |a| == 1 ==> NamesOf(a) == if Truthy(a[0].displayName) then [a[0].displayName.value] else []
    decreases |a|
  {
    if a != [] {
      var c, rest := a[0], a[1..];
      var h := if Truthy(c.displayName) then [c.displayName.value] else [];
      assert (a + b)[0] == c && (a + b)[1..] == rest + b;
      assert NamesOf(a) == h + NamesOf(rest);
      NamesOfInOrder(rest, b);
      calc {
        NamesOf(a + b);
        h + NamesOf(rest + b);
        h + (NamesOf(rest) + NamesOf(b));
        { assert h + (NamesOf(rest) + NamesOf(b)) == (h + NamesOf(rest)) + NamesOf(b); }
        NamesOf(a) + NamesOf(b);
      }
      if |a| == 1 {
        assert rest == [];
      }
    } else {
      assert a + b == b;
    }
  }

  /** extract_concepts: the names of the TOP_K best-scored concepts joined by
      "; ", or None when the list is missing, empty or has no names there. */
  function ExtractConcepts(concepts: Option<seq<Concept>>): (tags: Option<string>)
    ensures concepts.None? || concepts.value == [] ==> tags.None?
    ensures tags.Some? <==> concepts.Some? && NamesOf(TopConcepts(concepts.value)) != []
    ensures tags.Some? ==> tags.value == Join("; ", NamesOf(TopConcepts(concepts.value)))
  {
    if concepts.None? || concepts.value == [] then None
    else
      var names := NamesOf(TopConcepts(concepts.value));
      if names == [] then None else Some(Join("; ", names))
  }

  // ---------------------------------------------------------------------
  // Choosing the candidate
  // ---------------------------------------------------------------------

  /** A work returned by the OpenAlex search, with the fields read here. */
  datatype Work = Work(
    id: Option<string>,
    displayName: Option<string>,
    doi: Option<string>,
    workType: Option<string>,
    year: Option<int>,
    citedByCount: Option<int>,
    concepts: Option<seq<Concept>>,
    abstractIndex: AbstractIndex)

  /** The candidate has a display name (others are skipped). */
  predicate Named(w: Work) {
    Truthy(w.displayName)
  }

  /** The candidate's normalised display name is the query. */
  predicate ExactMatch(q: string, w: Work) {
    Named(w) && NormTitle(w.displayName) == Some(q)
  }

  function Similarity(q: string, w: Work, ratio: (string, string) -> real): real {
    TitleSimilarity(Some(q), NormTitle(w.displayName), ratio)
  }

  /** The candidate loop from a given (best, best_sim): a named candidate
      that is strictly more similar becomes the best, and an exact title
      match ends the loop with similarity 1.0. */
  function Scan(q: string, cands: seq<Work>, ratio: (string, string) -> real,
                best: Option<Work>, bestSim: real): (r: (Option<Work>, real))
    ensures r.0 == best || (r.0.Some? && r.0.value in cands && Named(r.0.value))
    ensures r.0.None? ==> r == (best, bestSim)
    decreases |cands|
  {
    if cands == [] then (best, bestSim)
    else
      var w := cands[0];
      if !Named(w) then Scan(q, cands[1..], ratio, best, bestSim)
      else if ExactMatch(q, w) then (Some(w), 1.0)
      else if Similarity(q, w, ratio) > bestSim then
        Scan(q, cands[1..], ratio, Some(w), Similarity(q, w, ratio))
      else Scan(q, cands[1..], ratio, best, bestSim)
  }

  /** The candidate loop, from best = None and best_sim = -1. */
  method ScanCandidates(q: string, cands: seq<Work>, ratio: (string, string) -> real)
    returns (best: Option<Work>, bestSim: real)
    ensures (best, bestSim) == Scan(q, cands, ratio, None, -1.0)
  {
    best, bestSim := None, -1.0;
    var i := 0;
    while i < |cands|
      invariant 0 <= i <= |cands|
      invariant Scan(q, cands[i..], ratio, best, bestSim) == Scan(q, cands, ratio, None, -1.0)
    {
      var w := cands[i];
      assert cands[i..][1..] == cands[i + 1..];
      if !Truthy(w.displayName) {
        i := i + 1;
        continue;
      }
      var sim := TitleSimilarity(Some(q), NormTitle(w.displayName), ratio);
      if sim > bestSim {
        bestSim := sim;
        best := Some(w);
      }
      if NormTitle(w.displayName) == Some(q) {
        bestSim := 1.0;
        best := Some(w);
        break;
      }
      i := i + 1;
    }
    assert cands[|cands|..] == [];
  }

  /** The first exact title match wins, with similarity 1.0. */
  lemma {:induction false} ScanFindsFirstExact(q: string, cands: seq<Work>, ratio: (string, string) -> real,
                                               best: Option<Work>, bestSim: real, i: nat)
    requires i < |cands| && ExactMatch(q, cands[i])
    requires forall j :: 0 <= j < i ==> !ExactMatch(q, cands[j])
    ensures Scan(q, cands, ratio, best, bestSim) == (Some(cands[i]), 1.0)
    decreases i
  {
    if i > 0 {
      var w := cands[0];
      var sim := Similarity(q, w, ratio);
      var b := if Named(w) && sim > bestSim then Some(w) else best;
      var s := if Named(w) && sim > bestSim then sim else bestSim;
      ScanFindsFirstExact(q, cands[1..], ratio, b, s, i - 1);
    }
  }

  /** No named candidate is more similar than s. */
  predicate NoneAbove(q: string, cands: seq<Work>, ratio: (string, string) -> real, s: real) {
    forall j :: 0 <= j < |cands| && Named(cands[j]) ==> Similarity(q, cands[j], ratio) <= s
  }

  /** cands[i] is named, scores s above bestSim, and every named candidate
      before it scores strictly less. */
  predicate FirstWithScore(q: string, cands: seq<Work>, ratio: (string, string) -> real,
                           bestSim: real, b: Option<Work>, s: real, i: int) {
    && 0 <= i < |cands| && Named(cands[i])
    && b == Some(cands[i]) && s == Similarity(q, cands[i], ratio) && bestSim < s
    && forall j :: 0 <= j < i && Named(cands[j]) ==> Similarity(q, cands[j], ratio) < s
  }

  /** Without an exact match the loop keeps the first most similar named
      candidate, and only when it beats the starting best_sim. */
  lemma {:induction false} ScanKeepsFirstMostSimilar(q: string, cands: seq<Work>, ratio: (string, string) -> real,
                                                     best: Option<Work>, bestSim: real)
    requires forall j :: 0 <= j < |cands| ==> !ExactMatch(q, cands[j])
    ensures var (b, s) := Scan(q, cands, ratio, best, bestSim);
      && s >= bestSim
      && NoneAbove(q, cands, ratio, s)
      && ((b, s) == (best, bestSim) || exists i :: FirstWithScore(q, cands, ratio, bestSim, b, s, i))
    decreases |cands|
  {
    if cands != [] {
      var w, tail := cands[0], cands[1..];
      var sim := Similarity(q, w, ratio);
      assert forall j :: 0 <= j < |tail| ==> tail[j] == cands[j + 1];
      var b0 := if Named(w) && sim > bestSim then Some(w) else best;
      var s0 := if Named(w) && sim > bestSim then sim else bestSim;
      ScanKeepsFirstMostSimilar(q, tail, ratio, b0, s0);
      var (b, s) := Scan(q, cands, ratio, best, bestSim);
      assert (b, s) == Scan(q, tail, ratio, b0, s0);
      assert NoneAbove(q, cands, ratio, s);
      if (b, s) != (b0, s0) {
        var i :| FirstWithScore(q, tail, ratio, s0, b, s, i);
        assert FirstWithScore(q, cands, ratio, bestSim, b, s, i + 1);
      } else if (b0, s0) != (best, bestSim) {
        assert FirstWithScore(q, cands, ratio, bestSim, b, s, 0);
      }
    }
  }

  /** The loop ends with no best exactly when no candidate has a display
      name. */
  lemma {:induction false} ScanNoneIffUnnamed(q: string, cands: seq<Work>, ratio: (string, string) -> real,
                                             best: Option<Work>, bestSim: real)
    requires ValidRatio(ratio)
    requires best.None? ==> bestSim < 0.0
    ensures Scan(q, cands, ratio, best, bestSim).0.None? <==>
      best.None? && forall j :: 0 <= j < |cands| ==> !Named(cands[j])
    decreases |cands|
  {
    if cands != [] {
      var w := cands[0];
      var sim := Similarity(q, w, ratio);
      var b := if Named(w) && sim > bestSim then Some(w) else best;
      var s := if Named(w) && sim > bestSim then sim else bestSim;
      ScanNoneIffUnnamed(q, cands[1..], ratio, b, s);
      assert forall j :: 1 <= j < |cands| ==> cands[j] == cands[1..][j - 1];
    }
  }

  /** best_sim ends at 1.0 exactly when some candidate's normalised title
      is the query. */
  lemma ScanExactIffTitleMatch(q: string, cands: seq<Work>, ratio: (string, string) -> real)
    requires ValidRatio(ratio)
    ensures Scan(q, cands, ratio, None, -1.0).1 == 1.0 <==>
      exists i :: 0 <= i < |cands| && ExactMatch(q, cands[i])
  {
    if exists i :: 0 <= i < |cands| && ExactMatch(q, cands[i]) {
      var i :| 0 <= i < |cands| && ExactMatch(q, cands[i]);
      var k := FirstExact(q, cands, i);
      ScanFindsFirstExact(q, cands, ratio, None, -1.0, k);
    } else {
      ScanKeepsFirstMostSimilar(q, cands, ratio, None, -1.0);
      var (b, s) := Scan(q, cands, ratio, None, -1.0);
      if (b, s) != (None, -1.0) {
        var i :| FirstWithScore(q, cands, ratio, -1.0, b, s, i);
        SimilarityBelowOne(q, cands[i], ratio);
      }
    }
  }

  lemma FirstExact(q: string, cands: seq<Work>, i: nat) returns (k: nat)
    requires i < |cands| && ExactMatch(q, cands[i])
    ensures k <= i && ExactMatch(q, cands[k])
    ensures forall j :: 0 <= j < k ==> !ExactMatch(q, cands[j])
  {
    k := i;
    while exists j :: 0 <= j < k && ExactMatch(q, cands[j])
      invariant k <= i && ExactMatch(q, cands[k])
      decreases k
    {
      var j :| 0 <= j < k && ExactMatch(q, cands[j]);
      k := j;
    }
  }

  /** A named candidate that is not an exact match scores below 1.0. */
  lemma SimilarityBelowOne(q: string, w: Work, ratio: (string, string) -> real)
    requires ValidRatio(ratio) && Named(w) && !ExactMatch(q, w)
    ensures Similarity(q, w, ratio) < 1.0
  {
  }

  // ---------------------------------------------------------------------
  // One row
  // ---------------------------------------------------------------------

  /** The oa_status of a record. */
  datatype Status =
    | EmptyTitle
    | NoCandidates
    | NoValidCandidate
    | OkExactTitle
    | OkHighConfidence
    | RejectedLowConfidence
    | Failed(errorName: string)

  function StatusText(st: Status): string {
    match st
    case EmptyTitle => "empty_title"
    case NoCandidates => "no_candidates"
    case NoValidCandidate => "no_valid_candidate"
    case OkExactTitle => "ok_exact_title"
    case OkHighConfidence => "ok_high_confidence"
    case RejectedLowConfidence => "rejected_low_confidence"
    case Failed(name) => "error:" + name
  }

  /** The record was appended by a path that ends with `continue`, so the
      buffer is not checked for saving after it. */
  predicate SkipsSaveCheck(st: Status) {
    st == EmptyTitle || st == NoCandidates || st == NoValidCandidate
  }

  predicate Accepted(st: Status) {
    st == OkExactTitle || st == OkHighConfidence
  }

  /** The verdict on the best candidate's similarity. */
  function Classify(bestSim: real): (st: Status)
    ensures st == OkExactTitle <==> bestSim == 1.0
    ensures Accepted(st) <==> bestSim == 1.0 || bestSim >= SIM_THRESHOLD
    ensures st == OkExactTitle || st == OkHighConfidence || st == RejectedLowConfidence
  {
    if bestSim == 1.0 then OkExactTitle
    else if bestSim >= SIM_THRESHOLD then OkHighConfidence
    else RejectedLowConfidence
  }

  /** A row of the input: its row_id and its Title cell. */
  datatype InputRow = InputRow(rowId: int, title: Option<string>)

  /** One row of the output file. */
  datatype Record = Record(
    rowId: int,
    title: Option<string>,
    openalexId: Option<string>,
    openalexTitle: Option<string>,
    doi: Option<string>,
    workType: Option<string>,
    year: Option<int>,
    citedByCount: Option<int>,
    similarity: Option<real>,
    conceptTags: Option<string>,
    abstractText: Option<string>,
    status: Status)

  /** A record with every OpenAlex field empty. */
  function Blank(row: InputRow, st: Status): (r: Record)
    ensures r.rowId == row.rowId && r.title == row.title && r.status == st
    ensures r.openalexId.None? && r.openalexTitle.None? && r.similarity.None?
  {
    Record(row.rowId, row.title, None, None, None, None, None, None, None, None, None, st)
  }

  /** What the search for a title gives: the results list, or the name of
      the exception raised. */
  datatype SearchResponse = Results(works: seq<Work>) | Raised(errorName: string)

  /** The record for the best candidate; identifier, DOI, tags and abstract
      only when it is accepted. */
  ghost function Matched(row: InputRow, w: Work, bestSim: real): Record {
    var st := Classify(bestSim);
    var ok := Accepted(st);
    Record(row.rowId, row.title,
           if ok then w.id else None, w.displayName,
           if ok then w.doi else None, w.workType, w.year, w.citedByCount,
           Some(bestSim),
           if ok then ExtractConcepts(w.concepts) else None,
           if ok then AbstractText(w.abstractIndex) else None,
           st)
  }

  /** The record the collector appends for a row it has not done before. */
  ghost function RecordFor(row: InputRow, search: string -> SearchResponse,
                           ratio: (string, string) -> real): (r: Record)
    ensures r.rowId == row.rowId && r.title == row.title
  {
    var q := NormTitle(row.title);
    if q.None? then Blank(row, EmptyTitle)
    else match search(row.title.value)
      case Raised(name) => Blank(row, Failed(name))
      case Results(cands) =>
        if cands == [] then Blank(row, NoCandidates)
        else
          var (best, bestSim) := Scan(q.value, cands, ratio, None, -1.0);
          if best.None? then Blank(row, NoValidCandidate) else Matched(row, best.value, bestSim)
  }

  /** The body of the main loop for one row that is not done. */
  method ProcessRow(row: InputRow, search: string -> SearchResponse, ratio: (string, string) -> real)
    returns (rec: Record)
    ensures rec == RecordFor(row, search, ratio)
  {
    var q := NormTitle(row.title);
    if q.None? {
      return Blank(row, EmptyTitle);
    }
    var response := search(row.title.value);
    if response.Raised? {
      return Blank(row, Failed(response.errorName));
    }
    var cands := response.works;
    if cands == [] {
      return Blank(row, NoCandidates);
    }
    var best, bestSim := ScanCandidates(q.value, cands, ratio);
    if best.None? {
      return Blank(row, NoValidCandidate);
    }
    var w := best.value;
    var st := Classify(bestSim);
    var ok := Accepted(st);
    var tags := if ok then ExtractConcepts(w.concepts) else None;
    var abstractText := None;
    if ok {
      abstractText := ReconstructAbstract(w.abstractIndex);
    }
    rec := Record(row.rowId, row.title,
                  if ok then w.id else None, w.displayName,
                  if ok then w.doi else None, w.workType, w.year, w.citedByCount,
                  Some(bestSim), tags, abstractText, st);
  }

  /** Every row gets exactly one record under its own row_id and title; a
      rejected candidate contributes no identifier, DOI, tags or abstract.
      A classified record, accepted or rejected, keeps the best candidate's
      title, type, year and citation count for audit; an accepted one also
      carries its identifier, DOI, concept tags and abstract. */
  lemma RecordForFields(row: InputRow, search: string -> SearchResponse, ratio: (string, string) -> real)
    ensures var r := RecordFor(row, search, ratio);
      && r.rowId == row.rowId && r.title == row.title
      && (r.status == EmptyTitle <==> NormTitle(row.title).None?)
      && (r.similarity.Some? <==> Accepted(r.status) || r.status == RejectedLowConfidence)
      && (!Accepted(r.status) ==>
            r.openalexId.None? && r.doi.None? && r.conceptTags.None? && r.abstractText.None?)
      && (Accepted(r.status) ==> r.similarity.value == 1.0 || r.similarity.value >= SIM_THRESHOLD)
      && (r.status == RejectedLowConfidence ==> r.similarity.value < SIM_THRESHOLD)
      && (Accepted(r.status) || r.status == RejectedLowConfidence ==>
            var (best, bestSim) := Scan(NormTitle(row.title).value, search(row.title.value).works, ratio, None, -1.0);
            && best.Some? && r.similarity == Some(bestSim)
            && r.openalexTitle == best.value.displayName && r.workType == best.value.workType
            && r.year == best.value.year && r.citedByCount == best.value.citedByCount
            && (Accepted(r.status) ==>
                  && r.openalexId == best.value.id && r.doi == best.value.doi
                  && r.conceptTags == ExtractConcepts(best.value.concepts)
                  && r.abstractText == AbstractText(best.value.abstractIndex)))
  {
  }

  /** A row is marked an exact title match exactly when one of the named
      candidates has the row's normalised title. */
  lemma ExactStatusIffTitleMatch(row: InputRow, search: string -> SearchResponse,
                                 ratio: (string, string) -> real)
    requires ValidRatio(ratio)
    ensures RecordFor(row, search, ratio).status == OkExactTitle <==>
      && NormTitle(row.title).Some?
      && search(row.title.value).Results?
      && exists i :: 0 <= i < |search(row.title.value).works|
           && ExactMatch(NormTitle(row.title).value, search(row.title.value).works[i])
  {
    var q := NormTitle(row.title);
    if q.Some? && search(row.title.value).Results? {
      var cands := search(row.title.value).works;
      ScanExactIffTitleMatch(q.value, cands, ratio);
      ScanNoneIffUnnamed(q.value, cands, ratio, None, -1.0);
    }
  }

  // ---------------------------------------------------------------------
  // The run: resume, buffer, save
  // ---------------------------------------------------------------------

  /** The input CSV: missing, or its rows with a flag per column present. */
  datatype BooksFile = NoBooksFile | BooksFile(hasTitle: bool, hasRowId: bool, rows: seq<InputRow>)

  datatype StartError = InputNotFound | NoTitleColumn

  /** The rows to enrich: a missing file or a missing Title column is an
      error; without a row_id column each row's id is its index. */
  function InputRows(file: BooksFile): (r: Result<seq<InputRow>, StartError>)
    ensures file.NoBooksFile? ==> r == Err(InputNotFound)
    ensures file.BooksFile? && !file.hasTitle ==> r == Err(NoTitleColumn)
    ensures r.Ok? ==> |r.value| == |file.rows|
    ensures r.Ok? ==> forall i :: 0 <= i < |r.value| ==>
      && r.value[i].title == file.rows[i].title
      && r.value[i].rowId == (if file.hasRowId then file.rows[i].rowId else i)
  {
    if file.NoBooksFile? then Err(InputNotFound)
    else if !file.hasTitle then Err(NoTitleColumn)
    else if file.hasRowId then Ok(file.rows)
    else Ok(seq(|file.rows|, i requires 0 <= i < |file.rows| => InputRow(i, file.rows[i].title)))
  }

  /** The records, made by recordOf, of the rows not yet done, in order. */
  ghost function PendingWith(rows: seq<InputRow>, done: set<int>, recordOf: InputRow -> Record): seq<Record>
    decreases |rows|
  {
    if rows == [] then []
    else
      var r := rows[|rows| - 1];
      PendingWith(rows[..|rows| - 1], done, recordOf)
        + (if r.rowId in done then [] else [recordOf(r)])
  }

  /** The records of the rows not yet done, in order. */
  ghost function Pending(rows: seq<InputRow>, done: set<int>, search: string -> SearchResponse,
                         ratio: (string, string) -> real): seq<Record>
  {
    PendingWith(rows, done, row => RecordFor(row, search, ratio))
  }

  /** A batch written inside the loop: it was saved when the buffer held
      SAVE_EVERY records or more, right after a record whose path checks the
      buffer. */
  predicate SavedInLoop(b: seq<Record>) {
    |b| >= SAVE_EVERY && !SkipsSaveCheck(b[|b| - 1].status)
  }

  /** No proper prefix of b would have been saved inside the loop: the
      buffer is written at the first point where it may be. */
  predicate NoEarlierCut(b: seq<Record>) {
    forall k :: SAVE_EVERY - 1 <= k < |b| - 1 ==> SkipsSaveCheck(b[k].status)
  }

  /** Every batch holds something, every batch but the last was saved
      inside the loop, and every batch, the last included, was cut at the
      first point where it could be. */
  predicate WellCut(batches: seq<seq<Record>>) {
    && (forall j :: 0 <= j < |batches| ==> batches[j] != [])
    && (forall j :: 0 <= j < |batches| - 1 ==> SavedInLoop(batches[j]))
    && AllCutEarly(batches)
  }

  predicate AllSavedInLoop(batches: seq<seq<Record>>) {
    forall j :: 0 <= j < |batches| ==> SavedInLoop(batches[j])
  }

  predicate AllCutEarly(batches: seq<seq<Record>>) {
    forall j :: 0 <= j < |batches| ==> NoEarlierCut(batches[j])
  }

  /** A buffer that was not saved stays cut early when a record is added. */
  lemma ExtendBuffer(buffer: seq<Record>, rec: Record)
    requires NoEarlierCut(buffer) && !SavedInLoop(buffer)
    ensures NoEarlierCut(buffer + [rec])
  {
    var b := buffer + [rec];
    forall k | SAVE_EVERY - 1 <= k < |b| - 1
      ensures SkipsSaveCheck(b[k].status)
    {
      assert b[k] == buffer[k];
    }
  }

  /** The main loop and the final save: the batches appended to the output
      file. */
  method CollectRows(rows: seq<InputRow>, done: set<int>, search: string -> SearchResponse,
                     ratio: (string, string) -> real)
    returns (batches: seq<seq<Record>>)
    ensures Flatten(batches) == Pending(rows, done, search, ratio)
    ensures WellCut(batches)
  {
    batches := [];
    var buffer: seq<Record> := [];
    for i := 0 to |rows|
      invariant Flatten(batches) + buffer == Pending(rows[..i], done, search, ratio)
      invariant AllSavedInLoop(batches) && AllCutEarly(batches)
      invariant NoEarlierCut(buffer) && !SavedInLoop(buffer)
    {
      PendingStep(rows, i, done, search, ratio);
      var row := rows[i];
      if row.rowId in done {
        continue;
      }
      var rec := ProcessRow(row, search, ratio);
      ExtendBuffer(buffer, rec);
      buffer := buffer + [rec];
      if SkipsSaveCheck(rec.status) {
        continue;
      }
      if |buffer| >= SAVE_EVERY {
        FlattenSnoc(batches, buffer);
        batches := batches + [buffer];
        buffer := [];
      }
    }
    assert rows[..|rows|] == rows;
    if buffer != [] {
      FlattenSnoc(batches, buffer);
      batches := batches + [buffer];
    }
  }

  lemma PendingStep(rows: seq<InputRow>, i: nat, done: set<int>,
                    search: string -> SearchResponse, ratio: (string, string) -> real)
    requires i < |rows|
    ensures Pending(rows[..i + 1], done, search, ratio) == Pending(rows[..i], done, search, ratio)
      + (if rows[i].rowId in done then [] else [RecordFor(rows[i], search, ratio)])
  {
    assert rows[..i + 1][..i] == rows[..i];
    var f := row => RecordFor(row, search, ratio);
    assert PendingWith(rows[..i + 1], done, f) == PendingWith(rows[..i], done, f)
      + (if rows[i].rowId in done then [] else [f(rows[i])]);
  }

  /** main: read the input, resume from the existing output, enrich. */
  method Collect(file: BooksFile, out: OutputFile, search: string -> SearchResponse,
                 ratio: (string, string) -> real)
    returns (r: Result<seq<seq<Record>>, StartError>)
    ensures InputRows(file).Err? ==> r == Err(InputRows(file).error)
    ensures InputRows(file).Ok? ==> r.Ok?
    ensures r.Ok? ==> Flatten(r.value) == Pending(InputRows(file).value, DoneIds(out), search, ratio)
    ensures r.Ok? ==> WellCut(r.value)
  {
    var rows := InputRows(file);
    if rows.Err? {
      return Err(rows.error);
    }
    var batches := CollectRows(rows.value, DoneIds(out), search, ratio);
    return Ok(batches);
  }

  /** Each row not yet done gets exactly one record, under its row_id. */
  lemma PendingRowIds(rows: seq<InputRow>, done: set<int>,
                      search: string -> SearchResponse, ratio: (string, string) -> real)
    ensures forall x :: HasRecordFor(Pending(rows, done, search, ratio), x) <==> x !in done && HasRow(rows, x)
  {
    var f := row => RecordFor(row, search, ratio);
    forall row
      ensures f(row).rowId == row.rowId
    {
      RecordForFields(row, search, ratio);
    }
    assert Pending(rows, done, search, ratio) == PendingWith(rows, done, f);
    PendingWithRowIds(rows, done, f);
  }

  /** Keeps its record's row_id. */
  ghost predicate KeepsRowId(recordOf: InputRow -> Record) {
    forall row :: recordOf(row).rowId == row.rowId
  }

  ghost predicate HasRecordFor(p: seq<Record>, x: int) {
    exists k :: 0 <= k < |p| && p[k].rowId == x
  }

  ghost predicate HasRow(rows: seq<InputRow>, x: int) {
    exists i :: 0 <= i < |rows| && rows[i].rowId == x
  }

  lemma {:induction false} PendingWithRowIds(rows: seq<InputRow>, done: set<int>, recordOf: InputRow -> Record)
    requires KeepsRowId(recordOf)
    ensures forall x :: HasRecordFor(PendingWith(rows, done, recordOf), x) <==> x !in done && HasRow(rows, x)
    decreases |rows|
  {
    if rows != [] {
      var pre := rows[..|rows| - 1];
      PendingWithRowIds(pre, done, recordOf);
      assert forall i :: 0 <= i < |pre| ==> pre[i] == rows[i];
      var p := PendingWith(rows, done, recordOf);
      var pp := PendingWith(pre, done, recordOf);
      forall x
        ensures HasRecordFor(p, x) <==> x !in done && HasRow(rows, x)
      {
        if HasRecordFor(p, x) {
          var k :| 0 <= k < |p| && p[k].rowId == x;
          if k < |pp| {
            assert p[k] == pp[k];
          }
        }
        if x !in done && HasRow(rows, x) {
          var i :| 0 <= i < |rows| && rows[i].rowId == x;
          if i < |pre| {
            var k :| 0 <= k < |pp| && pp[k].rowId == x;
            assert p[k] == pp[k];
          } else {
            assert p[|pp|].rowId == x;
          }
        }
      }
    }
  }

  /** A second run whose done set holds the saved row ids enriches nothing
      again. */
  lemma RerunAddsNothing(rows: seq<InputRow>, done: set<int>,
                         search: string -> SearchResponse, ratio: (string, string) -> real)
    ensures var saved := Pending(rows, done, search, ratio);
      Pending(rows, done + set k | 0 <= k < |saved| :: saved[k].rowId, search, ratio) == []
  {
    var saved := Pending(rows, done, search, ratio);
    PendingRowIds(rows, done, search, ratio);
    NoPending(rows, done + set k | 0 <= k < |saved| :: saved[k].rowId, row => RecordFor(row, search, ratio));
  }

  lemma {:induction false} NoPending(rows: seq<InputRow>, done: set<int>, recordOf: InputRow -> Record)
    requires forall i :: 0 <= i < |rows| ==> rows[i].rowId in done
    ensures PendingWith(rows, done, recordOf) == []
    decreases |rows|
  {
    if rows != [] {
      NoPending(rows[..|rows| - 1], done, recordOf);
    }
  }
}
