/**
 * Shared vocabulary of the pipeline: an Option type for nullable cells and
 * the handful of Python string operations the collectors, the merge engine
 * and the fusion stage are built from (strip, split-and-join, replace, find,
 * join, zero-fill), each written with the semantics Python gives it.
 */
module Common {

  datatype Option<+T> = None | Some(value: T)

  /** The outcome of an operation that may raise instead of returning. */
  datatype Result<+T, +E> = Ok(value: T) | Err(error: E)

  /** dict.get(k): the value stored under k, or None. */
  function Get<K, V>(m: map<K, V>, k: K): (r: Option<V>)
    ensures r.Some? <==> k in m
    ensures r.Some? ==> r.value == m[k]
  {
    if k in m then Some(m[k]) else None
  }

  /** Python truthiness of a cell that holds a string or nothing. */
  predicate Truthy(x: Option<string>) {
    x.Some? && x.value != []
  }

  /** One row of a CSV table: its cells by column name, None for an empty
      (NaN) cell. */
  type Cells = map<string, Option<string>>

  /** The cell of a row under a column (row.get(col)); None when the row
      has none. */
  function Cell(row: Cells, col: string): (c: Option<string>)
    ensures col !in row ==> c.None?
  {
    if col in row then row[col] else None
  }

  // ---------------------------------------------------------------------
  // Characters
  // ---------------------------------------------------------------------

  /** The characters Python's str.isspace() accepts, i.e. what str.strip()
      removes and what str.split() splits on. */
  predicate IsSpace(c: char) {
    if c <= ' ' then '\t' <= c <= '\r' || '\U{1C}' <= c
    else '\U{85}' <= c && IsWideSpace(c)
  }

  /** The whitespace characters above U+0084. */
  predicate IsWideSpace(c: char) {
    || c == '\U{85}' || c == '\U{A0}' || c == '\U{1680}' || ('\U{2000}' <= c <= '\U{200A}')
    || c == '\U{2028}' || c == '\U{2029}' || c == '\U{202F}' || c == '\U{205F}' || c == '\U{3000}'
  }

  predicate IsAsciiUpper(c: char) { 'A' <= c <= 'Z' }

  predicate IsAsciiLower(c: char) { 'a' <= c <= 'z' }

  predicate IsAsciiDigit(c: char) { '0' <= c <= '9' }

  predicate IsAscii(s: string) {
    forall i :: 0 <= i < |s| ==> s[i] < '\U{80}'
  }

  function LowerChar(c: char): (d: char)
    ensures !IsAsciiUpper(d)
    ensures !IsAsciiUpper(c) ==> d == c
  {
    if IsAsciiUpper(c) then (c as int + 32) as char else c
  }

  function UpperChar(c: char): (d: char)
    ensures !IsAsciiLower(d)
    ensures IsAsciiDigit(d) <==> IsAsciiDigit(c)
    ensures !IsAsciiLower(c) ==> d == c
  {
    if IsAsciiLower(c) then (c as int - 32) as char else c
  }

  /** s.lower(), on the ASCII letters. */
  function Lower(s: string): (r: string)
    ensures |r| == |s|
    ensures forall i :: 0 <= i < |s| ==> r[i] == LowerChar(s[i])
  {
    seq(|s|, i requires 0 <= i < |s| => LowerChar(s[i]))
  }

  /** s.upper(), on the ASCII letters. */
  function Upper(s: string): (r: string)
    ensures |r| == |s|
    ensures forall i :: 0 <= i < |s| ==> r[i] == UpperChar(s[i])
  {
    seq(|s|, i requires 0 <= i < |s| => UpperChar(s[i]))
  }

  lemma UpperFixesNoLower(s: string)
    requires NoLower(s)
    ensures Upper(s) == s
  {
  }

  lemma LowerFixesNoUpper(s: string)
    requires NoUpper(s)
    ensures Lower(s) == s
  {
  }

  predicate NoUpper(s: string) {
    forall i :: 0 <= i < |s| ==> !IsAsciiUpper(s[i])
  }

  predicate NoLower(s: string) {
    forall i :: 0 <= i < |s| ==> !IsAsciiLower(s[i])
  }

  /** s.isdigit(), on the ASCII digits: non-empty and all digits. */
  predicate IsDigits(s: string) {
    s != [] && forall i :: 0 <= i < |s| ==> IsAsciiDigit(s[i])
  }

  // ---------------------------------------------------------------------
  // strip()
  // ---------------------------------------------------------------------

  /** s.lstrip(). */
  function TrimLeft(s: string): (r: string)
    ensures |r| <= |s|
    decreases |s|
  {
    if s != [] && IsSpace(s[0]) then TrimLeft(s[1..]) else s
  }

  /** lstrip() removes the leading whitespace and nothing else. */
  lemma TrimLeftSpec(s: string)
    ensures var r := TrimLeft(s);
      && r == s[|s| - |r|..]
      && (r == [] || !IsSpace(r[0]))
      && (forall i :: 0 <= i < |s| - |r| ==> IsSpace(s[i]))
    decreases |s|
  {
    if s != [] && IsSpace(s[0]) {
      TrimLeftSpec(s[1..]);
    }
  }

  /** s.rstrip(). */
  function TrimRight(s: string): (r: string)
    ensures |r| <= |s|
    decreases |s|
  {
    if s != [] && IsSpace(s[|s| - 1]) then TrimRight(s[..|s| - 1]) else s
  }

  /** rstrip() removes the trailing whitespace and nothing else. */
  lemma TrimRightSpec(s: string)
    ensures var r := TrimRight(s);
      && r == s[..|r|]
      && (r == [] || !IsSpace(r[|r| - 1]))
      && (forall i :: |r| <= i < |s| ==> IsSpace(s[i]))
    decreases |s|
  {
    if s != [] && IsSpace(s[|s| - 1]) {
      TrimRightSpec(s[..|s| - 1]);
    }
  }

  /** Neither end of s is whitespace. */
  predicate Stripped(s: string) {
    s == [] || (!IsSpace(s[0]) && !IsSpace(s[|s| - 1]))
  }

  /** s.strip(): the longest slice of s with no whitespace at either end. */
  function Strip(s: string): (r: string)
    ensures |r| <= |s|
  {
    TrimRight(TrimLeft(s))
  }

  /** strip() leaves a stripped string and does nothing to one. */
  lemma StripSpec(s: string)
    ensures Stripped(Strip(s))
    ensures Stripped(s) ==> Strip(s) == s
  {
    var t := TrimLeft(s);
    TrimLeftSpec(s);
    TrimRightSpec(t);
  }

  /** strip() leaves nothing exactly when the string is all whitespace. */
  lemma StripBlank(s: string)
    ensures Strip(s) == [] <==> forall i :: 0 <= i < |s| ==> IsSpace(s[i])
  {
    var t := TrimLeft(s);
    TrimLeftSpec(s);
    TrimRightSpec(t);
    assert Strip(s) == [] ==> t == [];
  }

  lemma StripChars(s: string, c: char)
    requires c in Strip(s)
    ensures c in s
  {
    var t := TrimLeft(s);
    TrimLeftSpec(s);
    TrimRightSpec(t);
    var a := |s| - |t|;
    assert Strip(s) == t[..|Strip(s)|];
    assert t == s[a..];
    var i :| 0 <= i < |Strip(s)| && Strip(s)[i] == c;
    assert s[a + i] == c;
  }

  lemma StripIdempotent(s: string)
    ensures Strip(Strip(s)) == Strip(s)
  {
    StripSpec(s);
    StripSpec(Strip(s));
  }

  // ---------------------------------------------------------------------
  // " ".join(s.split())
  // ---------------------------------------------------------------------

  predicate NoSpace(s: string) {
    forall i :: 0 <= i < |s| ==> !IsSpace(s[i])
  }

  /** The shape " ".join(s.split()) produces: no whitespace at the start, and
      every whitespace character is a plain space with a non-space after it. */
  predicate Collapsed(s: string) {
    && (s == [] || !IsSpace(s[0]))
    && forall i :: 0 <= i < |s| ==> SpaceFollowedByWord(s, i)
  }

  /** If s[i] is whitespace, it is a plain space and a non-space follows. */
  predicate SpaceFollowedByWord(s: string, i: nat)
    requires i < |s|
  {
    IsSpace(s[i]) ==> s[i] == ' ' && i + 1 < |s| && !IsSpace(s[i + 1])
  }

  /** Length of the maximal run of non-space characters at the start of t. */
  function WordLen(t: string): (n: nat)
    ensures n <= |t|
    ensures forall i :: 0 <= i < n ==> !IsSpace(t[i])
    ensures n < |t| ==> IsSpace(t[n])
    decreases |t|
  {
    if t == [] || IsSpace(t[0]) then 0 else 1 + WordLen(t[1..])
  }

  /** s.split() with no separator: the maximal runs of non-space characters. */
  function Words(s: string): (ws: seq<string>)
    ensures forall i :: 0 <= i < |ws| ==> ws[i] != [] && NoSpace(ws[i])
    decreases |s|
  {
    var t := TrimLeft(s);
    if t == [] then []
    else
      TrimLeftSpec(s);
      var n := WordLen(t);
      [t[..n]] + Words(t[n..])
  }

  lemma InSuffix(s: string, a: nat, c: char)
    requires a <= |s| && c in s[a..]
    ensures c in s
  {
    var i :| 0 <= i < |s| - a && s[a..][i] == c;
    assert s[a + i] == c;
  }

  lemma {:induction false} WordsChars(s: string, w: string, c: char)
    requires w in Words(s) && c in w
    ensures c in s
    decreases |s|
  {
    var t := TrimLeft(s);
    TrimLeftSpec(s);
    if t != [] {
      var n := WordLen(t);
      assert Words(s) == [t[..n]] + Words(t[n..]);
      if w == t[..n] {
        assert c in t;
      } else {
        assert w in Words(t[n..]);
        WordsChars(t[n..], w, c);
        InSuffix(t, n, c);
      }
      InSuffix(s, |s| - |t|, c);
    }
  }

  /** sep.join(parts). */
  function Join(sep: string, parts: seq<string>): string
    decreases |parts|
  {
    if parts == [] then []
    else if |parts| == 1 then parts[0]
    else parts[0] + sep + Join(sep, parts[1..])
  }

  /** A join starts with the first part and ends with the last one. */
  lemma {:induction false} JoinEnds(sep: string, parts: seq<string>)
    requires parts != []
    ensures |parts[0]| <= |Join(sep, parts)|
    ensures Join(sep, parts)[..|parts[0]|] == parts[0]
    ensures |parts[|parts| - 1]| <= |Join(sep, parts)|
    ensures Join(sep, parts)[|Join(sep, parts)| - |parts[|parts| - 1]|..] == parts[|parts| - 1]
    decreases |parts|
  {
    if |parts| > 1 {
      var rest := Join(sep, parts[1..]);
      JoinEnds(sep, parts[1..]);
      assert Join(sep, parts) == parts[0] + sep + rest;
      assert parts[1..][|parts[1..]| - 1] == parts[|parts| - 1];
    }
  }

  /** Joining non-empty stripped parts gives a non-empty stripped string. */
  lemma JoinStripped(sep: string, parts: seq<string>)
    requires parts != []
    requires forall i :: 0 <= i < |parts| ==> parts[i] != [] && Stripped(parts[i])
    ensures Join(sep, parts) != [] && Stripped(Join(sep, parts))
  {
    JoinEnds(sep, parts);
    var j, first, last := Join(sep, parts), parts[0], parts[|parts| - 1];
    assert j[0] == j[..|first|][0] == first[0];
    assert j[|j| - 1] == j[|j| - |last|..][|last| - 1] == last[|last| - 1];
  }

  lemma JoinChars(sep: string, parts: seq<string>, c: char)
    requires c in Join(sep, parts)
    ensures c in sep || exists w :: w in parts && c in w
    decreases |parts|
  {
    if |parts| > 1 {
      var rest := Join(sep, parts[1..]);
      assert Join(sep, parts) == parts[0] + sep + rest;
      if c in rest {
        JoinChars(sep, parts[1..], c);
      }
    }
  }

  lemma {:induction false} JoinSpaceCollapsed(ws: seq<string>)
    requires forall i :: 0 <= i < |ws| ==> ws[i] != [] && NoSpace(ws[i])
    ensures Collapsed(Join(" ", ws))
    ensures Join(" ", ws) == [] <==> ws == []
    decreases |ws|
  {
    if |ws| > 1 {
      JoinSpaceCollapsed(ws[1..]);
      var w, rest := ws[0], Join(" ", ws[1..]);
      var r := w + " " + rest;
      assert Join(" ", ws) == r;
      forall i | 0 <= i < |r|
        ensures SpaceFollowedByWord(r, i)
      {
        if i < |w| {
          assert r[i] == w[i];
        } else if i == |w| {
          assert r[i + 1] == rest[0];
        } else {
          assert SpaceFollowedByWord(rest, i - |w| - 1);
          assert r[i] == rest[i - |w| - 1];
          assert i + 1 < |r| ==> r[i + 1] == rest[i - |w|];
        }
      }
    }
  }

  /** " ".join(s.split()): whitespace runs become one space, ends trimmed. */
  function Collapse(s: string): (r: string)
    ensures Collapsed(r) && Stripped(r)
    ensures forall c :: c in r ==> c in s || c == ' '
    ensures r == [] <==> forall i :: 0 <= i < |s| ==> IsSpace(s[i])
  {
    var ws := Words(s);
    JoinSpaceCollapsed(ws);
    var r := Join(" ", ws);
    assert forall c :: c in r ==> c in s || c == ' ' by {
      forall c | c in r ensures c in s || c == ' ' {
        JoinChars(" ", ws, c);
        if c != ' ' {
          var w :| w in ws && c in w;
          WordsChars(s, w, c);
        }
      }
    }
    assert r == [] <==> forall i :: 0 <= i < |s| ==> IsSpace(s[i]) by {
      TrimLeftSpec(s);
      if ws != [] {
        var t := TrimLeft(s);
        assert t != [];
        assert t[0] == s[|s| - |t|];
      }
    }
    assert r != [] ==> SpaceFollowedByWord(r, |r| - 1);
    r
  }

  lemma CollapsedSuffix(s: string, k: nat)
    requires Collapsed(s) && k <= |s| && (k == |s| || !IsSpace(s[k]))
    ensures Collapsed(s[k..])
  {
    var t := s[k..];
    forall i | 0 <= i < |t|
      ensures SpaceFollowedByWord(t, i)
    {
      assert SpaceFollowedByWord(s, k + i);
      assert t[i] == s[k + i];
    }
  }

  lemma WordsAfterSpace(x: string)
    requires x != [] && IsSpace(x[0])
    ensures Words(x) == Words(x[1..])
  {
    assert TrimLeft(x) == TrimLeft(x[1..]);
  }

  lemma WordsAtWord(x: string)
    requires x != [] && !IsSpace(x[0])
    ensures Words(x) == [x[..WordLen(x)]] + Words(x[WordLen(x)..])
  {
    assert TrimLeft(x) == x;
  }

  lemma SuffixOfSuffix(s: string, n: nat)
    requires n < |s|
    ensures s[n..][1..] == s[n + 1..]
  {
  }

  lemma {:induction false} CollapseFixesCollapsed(s: string)
    requires Collapsed(s)
    ensures Join(" ", Words(s)) == s
    decreases |s|
  {
    if s != [] {
      var n := WordLen(s);
      WordsAtWord(s);
      if n < |s| {
        assert SpaceFollowedByWord(s, n);
        var rest := s[n + 1..];
        WordsAfterSpace(s[n..]);
        SuffixOfSuffix(s, n);
        CollapsedSuffix(s, n + 1);
        CollapseFixesCollapsed(rest);
        WordsAtWord(rest);
        JoinStep(s[..n], Words(rest));
        SplitAt(s, n);
      } else {
        assert s[..n] == s;
        assert Words(s[n..]) == [];
      }
    }
  }

  lemma SplitAt(s: string, n: nat)
    requires n < |s|
    ensures s == s[..n] + [s[n]] + s[n + 1..]
  {
  }

  lemma JoinStep(w: string, ws: seq<string>)
    requires ws != []
    ensures Join(" ", [w] + ws) == w + " " + Join(" ", ws)
  {
    assert ([w] + ws)[1..] == ws;
  }

  lemma CollapseIdempotent(s: string)
    ensures Collapse(Collapse(s)) == Collapse(s)
  {
    CollapseFixesCollapsed(Collapse(s));
  }

  // ---------------------------------------------------------------------
  // replace, find, startswith
  // ---------------------------------------------------------------------

  /** s.replace(c, d) for single characters. */
  function ReplaceChar(s: string, c: char, d: char): (r: string)
    ensures |r| == |s|
    ensures forall i :: 0 <= i < |s| ==> r[i] == if s[i] == c then d else s[i]
  {
    seq(|s|, i requires 0 <= i < |s| => if s[i] == c then d else s[i])
  }

  /** s.replace(c, ""). */
  function RemoveChar(s: string, c: char): (r: string)
    ensures c !in r
    ensures forall x :: x in r <==> x in s && x != c
    ensures |r| <= |s|
    decreases |s|
  {
    if s == [] then []
    else if s[0] == c then RemoveChar(s[1..], c)
    else [s[0]] + RemoveChar(s[1..], c)
  }

  lemma RemoveCharAbsent(s: string, c: char)
    requires c !in s
    ensures RemoveChar(s, c) == s
  {
    if s != [] {
      assert c !in s[1..];
      RemoveCharAbsent(s[1..], c);
      assert s == [s[0]] + s[1..];
    }
  }

  /** str(x).strip().replace("-", "").replace(" ", ""): the compaction
      both collectors apply to an ISBN cell before their own checks. */
  function Compact(raw: string): (s: string)
    ensures '-' !in s && ' ' !in s
  {
    RemoveChar(RemoveChar(Strip(raw), '-'), ' ')
  }

  lemma CompactChars(raw: string, c: char)
    requires c in Compact(raw)
    ensures c in raw
  {
    StripChars(raw, c);
  }

  /** s.replace(pat, rep): left to right, non-overlapping occurrences. */
  function ReplaceAll(s: string, pat: string, rep: string): string
    requires pat != []
    decreases |s|
  {
    if |s| < |pat| then s
    else if s[..|pat|] == pat then rep + ReplaceAll(s[|pat|..], pat, rep)
    else [s[0]] + ReplaceAll(s[1..], pat, rep)
  }

  /** A text without the first character of the pattern is left alone, and
      a replacement no longer than the pattern never lengthens the text. */
  lemma {:induction false} ReplaceAllBounds(s: string, pat: string, rep: string)
    requires pat != []
    ensures pat[0] !in s ==> ReplaceAll(s, pat, rep) == s
    ensures |rep| <= |pat| ==> |ReplaceAll(s, pat, rep)| <= |s|
    decreases |s|
  {
    if |s| >= |pat| {
      if s[..|pat|] == pat {
        assert s[0] == pat[0];
        ReplaceAllBounds(s[|pat|..], pat, rep);
      } else {
        ReplaceAllBounds(s[1..], pat, rep);
        assert pat[0] !in s ==> pat[0] !in s[1..];
        assert s == [s[0]] + s[1..];
      }
    }
  }

  /** pat occurs in s at index i. */
  predicate OccursAt(s: string, pat: string, i: int) {
    0 <= i && i + |pat| <= |s| && s[i..i + |pat|] == pat
  }

  function FindFrom(s: string, pat: string, k: nat): (r: Option<nat>)
    requires k <= |s|
    ensures r.Some? ==> k <= r.value && OccursAt(s, pat, r.value)
    ensures r.Some? ==> forall j :: k <= j < r.value ==> !OccursAt(s, pat, j)
    ensures r.None? ==> forall j :: k <= j ==> !OccursAt(s, pat, j)
    decreases |s| - k
  {
    if k + |pat| > |s| then None
    else if s[k..k + |pat|] == pat then Some(k)
    else if k == |s| then None
    else FindFrom(s, pat, k + 1)
  }

  /** s.find(pat), with None for -1. */
  function Find(s: string, pat: string): (r: Option<nat>)
    ensures r.Some? ==> OccursAt(s, pat, r.value)
    ensures r.Some? ==> forall j :: 0 <= j < r.value ==> !OccursAt(s, pat, j)
    ensures r.None? ==> forall j :: !OccursAt(s, pat, j)
  {
    FindFrom(s, pat, 0)
  }

  /** pat in s. */
  predicate Contains(s: string, pat: string) {
    Find(s, pat).Some?
  }

  predicate StartsWith(s: string, prefix: string) {
    |prefix| <= |s| && s[..|prefix|] == prefix
  }

  // ---------------------------------------------------------------------
  // zfill, drop_duplicates
  // ---------------------------------------------------------------------

  function Repeat(c: char, n: nat): (r: string)
    ensures |r| == n && forall i :: 0 <= i < n ==> r[i] == c
  {
    seq(n, _ => c)
  }

  /** s.zfill(width) for a string without a sign. */
  function ZFill(s: string, width: nat): (r: string)
    ensures |r| == if |s| >= width then |s| else width
    ensures r[|r| - |s|..] == s
    ensures forall i :: 0 <= i < |r| - |s| ==> r[i] == '0'
  {
    if |s| >= width then s else Repeat('0', width - |s|) + s
  }

  /** The first occurrence of each element, in order (drop_duplicates). */
  function Distinct<T(==,!new)>(s: seq<T>): (r: seq<T>)
    ensures forall x :: x in r <==> x in s
    ensures forall i, j :: 0 <= i < j < |r| ==> r[i] != r[j]
    decreases |s|
  {
    if s == [] then []
    else
      var d := Distinct(s[..|s| - 1]);
      assert forall x :: x in s <==> x in s[..|s| - 1] || x == s[|s| - 1];
      if s[|s| - 1] in d then d else d + [s[|s| - 1]]
  }

  /** Of two elements of r, the earlier one occurs in s before the later
      one first does. */
  ghost predicate FirstOccurrenceOrder<T>(s: seq<T>, r: seq<T>) {
    forall i, j :: 0 <= i < j < |r| ==> EarlierIn(s, r[i], r[j])
  }

  /** x occurs in s before any occurrence of y. */
  ghost predicate EarlierIn<T>(s: seq<T>, x: T, y: T) {
    exists p :: 0 <= p < |s| && s[p] == x && y !in s[..p]
  }

  /** Distinct keeps first occurrences in order. */
  lemma {:induction false} DistinctFirstOrder<T(!new)>(s: seq<T>)
    ensures FirstOccurrenceOrder(s, Distinct(s))
    decreases |s|
  {
    if s != [] {
      var s', x := s[..|s| - 1], s[|s| - 1];
      DistinctFirstOrder(s');
      var d, r := Distinct(s'), Distinct(s);
      forall i, j | 0 <= i < j < |r|
        ensures EarlierIn(s, r[i], r[j])
      {
        assert r[i] == d[i];
        if j < |d| {
          assert r[j] == d[j];
          assert EarlierIn(s', d[i], d[j]);
          var p :| 0 <= p < |s'| && s'[p] == d[i] && d[j] !in s'[..p];
          assert s[..p] == s'[..p];
          assert s[p] == s'[p];
        } else {
          assert r[j] == x && x !in s';
          assert d[i] in s';
          var p :| 0 <= p < |s'| && s'[p] == d[i];
          assert s[..p] == s'[..p];
          assert s[p] == s'[p];
          assert forall y :: y in s'[..p] ==> y in s';
        }
      }
    }
  }

  // ---------------------------------------------------------------------
  // The best row per key
  // ---------------------------------------------------------------------

  /** A row offered to a best-per-key map, under its key; a row without a
      key is dropped. */
  datatype Entry<K, T> = Entry(key: Option<K>, item: T)

  /** The row kept when x is offered against the stored one: x replaces it
      only when it scores strictly higher. */
  function Keep<T>(prev: Option<T>, x: T, score: T -> int): (r: T)
    ensures r == x || (prev.Some? && r == prev.value)
    ensures prev.Some? ==> score(r) >= score(prev.value) && score(r) >= score(x)
  {
    if prev.None? then x else if score(x) > score(prev.value) then x else prev.value
  }

  /** The entries offered in order to an initially empty map. */
  function FoldBest<K, T>(entries: seq<Entry<K, T>>, score: T -> int): map<K, T>
    decreases |entries|
  {
    if entries == [] then map[]
    else
      var m := FoldBest(entries[..|entries| - 1], score);
      var e := entries[|entries| - 1];
      if e.key.None? then m else m[e.key.value := Keep(Get(m, e.key.value), e.item, score)]
  }

  /** The keys of the map are the keys of the entries. */
  lemma {:induction false} FoldBestKeys<K, T>(entries: seq<Entry<K, T>>, score: T -> int, k: K)
    ensures k in FoldBest(entries, score) <==> exists i :: 0 <= i < |entries| && entries[i].key == Some(k)
    decreases |entries|
  {
    if entries != [] {
      var pre := entries[..|entries| - 1];
      FoldBestKeys(pre, score, k);
      assert forall i :: 0 <= i < |pre| ==> pre[i] == entries[i];
    }
  }

  /** Entry i has key k and the highest score among the entries with key
      k, strictly higher than every earlier one. */
  ghost predicate FirstMaximum<K, T>(entries: seq<Entry<K, T>>, score: T -> int, k: K, i: int) {
    && 0 <= i < |entries| && entries[i].key == Some(k)
    && (forall j :: 0 <= j < |entries| && entries[j].key == Some(k) ==>
          score(entries[j].item) <= score(entries[i].item))
    && (forall j :: 0 <= j < i && entries[j].key == Some(k) ==>
          score(entries[j].item) < score(entries[i].item))
  }

  /** For each key, the map holds the first of the highest-scoring entries
      with that key. */
  lemma {:induction false} FoldBestIsFirstMaximum<K, T>(entries: seq<Entry<K, T>>, score: T -> int, k: K)
    requires k in FoldBest(entries, score)
    ensures exists i :: FirstMaximum(entries, score, k, i) && FoldBest(entries, score)[k] == entries[i].item
    decreases |entries|
  {
    var n := |entries| - 1;
    var pre, e := entries[..n], entries[n];
    assert forall i :: 0 <= i < n ==> pre[i] == entries[i];
    if e.key != Some(k) {
      FoldBestIsFirstMaximum(pre, score, k);
      var i :| FirstMaximum(pre, score, k, i) && FoldBest(pre, score)[k] == pre[i].item;
      assert FirstMaximum(entries, score, k, i);
    } else if k !in FoldBest(pre, score) {
      FoldBestKeys(pre, score, k);
      assert FirstMaximum(entries, score, k, n);
    } else {
      FoldBestIsFirstMaximum(pre, score, k);
      var i :| FirstMaximum(pre, score, k, i) && FoldBest(pre, score)[k] == pre[i].item;
      if score(e.item) > score(pre[i].item) {
        assert FirstMaximum(entries, score, k, n);
      } else {
        assert FirstMaximum(entries, score, k, i);
      }
    }
  }

  // ---------------------------------------------------------------------
  // Resume and append
  // ---------------------------------------------------------------------

  /** The existing output file as load_done_ids sees it: missing, unreadable,
      without a row_id column, or its row_id cells (None where a cell is not
      numeric). */
  datatype OutputFile = NoOutput | Unreadable | NoRowIdColumn | OutputRowIds(cells: seq<Option<int>>)

  /** load_done_ids: the numeric row ids of the existing output. */
  function DoneIds(out: OutputFile): (done: set<int>)
    ensures !out.OutputRowIds? ==> done == {}
    ensures out.OutputRowIds? ==> forall x :: x in done <==> Some(x) in out.cells
  {
    if out.OutputRowIds? then set c | c in out.cells && c.Some? :: c.value else {}
  }

  /** The batches appended to the file, in order, as one sequence. */
  function Flatten<T>(batches: seq<seq<T>>): seq<T>
    decreases |batches|
  {
    if batches == [] then [] else Flatten(batches[..|batches| - 1]) + batches[|batches| - 1]
  }

  lemma FlattenSnoc<T>(batches: seq<seq<T>>, b: seq<T>)
    ensures Flatten(batches + [b]) == Flatten(batches) + b
  {
    assert (batches + [b])[..|batches|] == batches;
  }

  // ---------------------------------------------------------------------
  // Numbers in text cells (pd.to_numeric on one cell)
  // ---------------------------------------------------------------------

  predicate AllDigits(s: string) {
    forall i :: 0 <= i < |s| ==> IsAsciiDigit(s[i])
  }

  /** The value of a run of decimal digits. */
  function DigitsValue(s: string): nat
    requires AllDigits(s)
    decreases |s|
  {
    if s == [] then 0 else 10 * DigitsValue(s[..|s| - 1]) + (s[|s| - 1] as int - '0' as int)
  }

  function Pow10(n: nat): (p: nat)
    ensures p >= 1
  {
    if n == 0 then 1 else 10 * Pow10(n - 1)
  }

  /** The index of the first c in s, or |s| when there is none. */
  function IndexOfChar(s: string, c: char): (k: nat)
    ensures k <= |s|
    ensures forall i :: 0 <= i < k ==> s[i] != c
    ensures k < |s| ==> s[k] == c
    decreases |s|
  {
    if s == [] then 0 else if s[0] == c then 0 else 1 + IndexOfChar(s[1..], c)
  }

  /** A decimal number as text: an optional '-', digits, and an optional
      '.' followed by digits, with at least one digit in all; anything else
      does not parse. */
  function ParseNumber(s: string): (r: Option<real>)
  {
    var neg := s != [] && s[0] == '-';
    var body := if neg then s[1..] else s;
    var k := IndexOfChar(body, '.');
    var whole := body[..k];
    var frac := if k < |body| then body[k + 1..] else [];
    if !AllDigits(whole) || !AllDigits(frac) || whole + frac == [] then None
    else
      var v := DigitsValue(whole) as real + DigitsValue(frac) as real / Pow10(|frac|) as real;
      Some(if neg then -v else v)
  }

  function DigitChar(d: nat): (c: char)
    requires d < 10
    ensures IsAsciiDigit(c) && c as int - '0' as int == d
  {
    ('0' as int + d) as char
  }

  /** str(n) for an integer. */
  function IntText(n: int): (s: string)
    ensures s != []
    decreases if n < 0 then 1 - n else n
  {
    if n < 0 then "-" + IntText(-n)
    else if n < 10 then [DigitChar(n)]
    else IntText(n / 10) + [DigitChar(n % 10)]
  }

  lemma {:induction false} NatTextDigits(n: nat)
    ensures AllDigits(IntText(n)) && DigitsValue(IntText(n)) == n
  {
    if n >= 10 {
      NatTextDigits(n / 10);
      var s := IntText(n);
      assert s[..|s| - 1] == IntText(n / 10);
    }
  }

  /** A plain run of digits parses to its value. */
  lemma ParseDigits(t: string)
    requires t != [] && AllDigits(t) && t[0] != '-'
    ensures ParseNumber(t) == Some(DigitsValue(t) as real)
  {
    assert IndexOfChar(t, '.') == |t|;
    assert t[..|t|] == t;
  }

  /** Text written for an integer parses back to it. */
  lemma ParseIntText(n: int)
    ensures ParseNumber(IntText(n)) == Some(n as real)
  {
    var m := if n < 0 then -n else n;
    NatTextDigits(m);
    var t := IntText(m);
    ParseDigits(t);
    if n < 0 {
      assert IntText(n)[1..] == t;
    }
  }
}
