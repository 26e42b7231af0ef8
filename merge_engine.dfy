// The merge engine of build_final_dataset.py: the base inventory joined
// with the Koha, Open Library and OpenAlex enrichment tables.

module MergeEngine {
  import opened Common
  import OpenAlexCollector

  // ---------------------------------------------------------------------
  // Tables
  // ---------------------------------------------------------------------

  /** A table read from a CSV file: its column names and its rows. */
  datatype Frame = Frame(columns: set<string>, rows: seq<Cells>)

  function IsbnOf(row: Cells): Option<string> {
    Cell(row, "ISBN")
  }

  // ---------------------------------------------------------------------
  // clean_isbn_col
  // ---------------------------------------------------------------------

  /** The four texts that stand for a missing ISBN. */
  predicate IsPlaceholder(s: string) {
    s == "nan" || s == "None" || s == "NaN" || s == ""
  }

  /** One ISBN cell: its text stripped, and None for a placeholder. An
      empty cell reads as "nan" and so becomes None too. */
  function CleanIsbnCell(c: Option<string>): (r: Option<string>)
    ensures r.None? <==> c.None? || IsPlaceholder(Strip(c.value))
    ensures r.Some? ==> Stripped(r.value) && r.value != []
    ensures r.Some? ==> r.value == Strip(c.value)
  {
    StripSpec(if c.Some? then c.value else "");
    if c.None? then None
    else
      var s := Strip(c.value);
      if IsPlaceholder(s) then None else Some(s)
  }

  /** Cleaning a cell twice is cleaning it once. */
  lemma CleanIsbnCellIdempotent(c: Option<string>)
    ensures CleanIsbnCell(CleanIsbnCell(c)) == CleanIsbnCell(c)
  {
    if c.Some? {
      StripIdempotent(c.value);
    }
  }

  /** Strip removes whitespace only: every other character survives. */
  lemma StripKeepsNonSpace(s: string, i: nat)
    requires i < |s| && !IsSpace(s[i])
    ensures s[i] in Strip(s)
  {
    var l := TrimLeft(s);
    TrimLeftSpec(s);
    var k := i - (|s| - |l|);
    assert 0 <= k < |l| && l[k] == s[i];
    TrimRightSpec(l);
    assert k < |TrimRight(l)|;
    assert TrimRight(l)[k] == s[i];
  }

  /** Unlike the collectors' normalisers, the merge keeps the hyphens (and
      every other non-blank character) of an ISBN. */
  lemma CleanIsbnCellKeepsHyphens(s: string, i: nat)
    requires i < |s| && s[i] == '-'
    ensures CleanIsbnCell(Some(s)).Some? && '-' in CleanIsbnCell(Some(s)).value
  {
    StripKeepsNonSpace(s, i);
    assert "-" != "nan" && "-" != "None" && "-" != "NaN";
    if IsPlaceholder(Strip(s)) {
      assert false;
    }
  }

  /** clean_isbn_col: a table without the column is left as it is;
      otherwise every row's cell under the column is cleaned and nothing
      else changes. */
  function CleanIsbnCol(f: Frame, col: string): (g: Frame)
    ensures g.columns == f.columns && |g.rows| == |f.rows|
    ensures col !in f.columns ==> g == f
    ensures col in f.columns ==> forall i :: 0 <= i < |f.rows| ==>
      && Cell(g.rows[i], col) == CleanIsbnCell(Cell(f.rows[i], col))
      && forall c :: c != col ==> Cell(g.rows[i], c) == Cell(f.rows[i], c)
  {
    if col !in f.columns then f
    else Frame(f.columns, seq(|f.rows|, i requires 0 <= i < |f.rows| =>
                                 f.rows[i][col := CleanIsbnCell(Cell(f.rows[i], col))]))
  }

  /** Cleaning a column twice is cleaning it once. */
  lemma CleanIsbnColIdempotent(f: Frame, col: string)
    ensures CleanIsbnCol(CleanIsbnCol(f, col), col) == CleanIsbnCol(f, col)
  {
    if col in f.columns {
      var g := CleanIsbnCol(f, col);
      var h := CleanIsbnCol(g, col);
      forall i | 0 <= i < |g.rows|
        ensures h.rows[i] == g.rows[i]
      {
        CleanIsbnCellIdempotent(Cell(f.rows[i], col));
      }
    }
  }

  // ---------------------------------------------------------------------
  // norm_title
  // ---------------------------------------------------------------------

  /** norm_title of the merge: lower-cased, stripped, the fifteen
      punctuation characters made spaces and the whitespace collapsed; ""
      for an empty cell. */
  function NormTitle(t: Option<string>): (r: string)
    ensures t.None? ==> r == []
  {
    if t.None? then []
    else Collapse(OpenAlexCollector.PunctuationToSpace(Strip(Lower(t.value))))
  }

  lemma {:induction false} LowerTrimLeft(s: string)
    ensures TrimLeft(Lower(s)) == Lower(TrimLeft(s))
    decreases |s|
  {
    if s != [] {
      assert Lower(s)[1..] == Lower(s[1..]);
      LowerTrimLeft(s[1..]);
    }
  }

  lemma {:induction false} LowerTrimRight(s: string)
    ensures TrimRight(Lower(s)) == Lower(TrimRight(s))
    decreases |s|
  {
    if s != [] {
      assert Lower(s)[..|s| - 1] == Lower(s[..|s| - 1]);
      LowerTrimRight(s[..|s| - 1]);
    }
  }

  /** Lower-casing and stripping commute. */
  lemma LowerStrip(s: string)
    ensures Strip(Lower(s)) == Lower(Strip(s))
  {
    LowerTrimLeft(s);
    LowerTrimRight(TrimLeft(s));
  }

  /** The merge's title key is the collector's, with "" where the
      collector has None. */
  lemma NormTitleAgreesWithCollector(t: Option<string>)
    ensures NormTitle(t) == match OpenAlexCollector.NormTitle(t) case None => [] case Some(k) => k
  {
    if t.Some? {
      LowerStrip(t.value);
    }
  }

  /** The title key is a fixed point of itself, lower-case, without the
      punctuation characters and with single inner spaces only. */
  lemma NormTitleKey(t: Option<string>)
    ensures NormTitle(Some(NormTitle(t))) == NormTitle(t)
    ensures NoUpper(NormTitle(t)) && OpenAlexCollector.NoPunctuation(NormTitle(t))
    ensures Collapsed(NormTitle(t)) && Stripped(NormTitle(t))
  {
    NormTitleAgreesWithCollector(t);
    var k := NormTitle(t);
    if OpenAlexCollector.NormTitle(t).Some? {
      OpenAlexCollector.NormTitleShape(t);
      OpenAlexCollector.FixedPoint(k);
      NormTitleAgreesWithCollector(Some(k));
    } else {
      NormTitleAgreesWithCollector(Some(k));
    }
  }

  // ---------------------------------------------------------------------
  // One row per key
  // ---------------------------------------------------------------------

  predicate HasKey<K(==)>(rows: seq<Cells>, key: Cells -> K, k: K) {
    exists j :: 0 <= j < |rows| && key(rows[j]) == k
  }

  predicate DistinctKeys<K(==)>(rows: seq<Cells>, key: Cells -> K) {
    forall i, j :: 0 <= i < j < |rows| ==> key(rows[i]) != key(rows[j])
  }

  /** Row j is the first row with its key. */
  predicate FirstOfKey<K(==)>(rows: seq<Cells>, key: Cells -> K, j: int) {
    0 <= j < |rows| && forall i :: 0 <= i < j ==> key(rows[i]) != key(rows[j])
  }

  /** drop_duplicates(subset=[key], keep="first"): it only drops rows, and
      the first row of the table always stays first. */
  function FirstPerKey<K(==)>(rows: seq<Cells>, key: Cells -> K): (r: seq<Cells>)
    ensures |r| <= |rows|
    ensures rows != [] ==> r != [] && r[0] == rows[0]
    decreases |rows|
  {
    if rows == [] then []
    else
      var pre := FirstPerKey(rows[..|rows| - 1], key);
      var last := rows[|rows| - 1];
      if HasKey(rows[..|rows| - 1], key, key(last)) then pre else pre + [last]
  }

  /** drop_duplicates keeps, for every key of the table, exactly its first
      row, and no other row. */
  lemma {:induction false} FirstPerKeySpec<K>(rows: seq<Cells>, key: Cells -> K)
    ensures var r := FirstPerKey(rows, key);
      && DistinctKeys(r, key)
      && (forall k :: HasKey(r, key, k) <==> HasKey(rows, key, k))
      && forall i :: 0 <= i < |r| ==> exists j :: FirstOfKey(rows, key, j) && rows[j] == r[i]
    decreases |rows|
  {
    if rows != [] {
      var n := |rows| - 1;
      var pre := rows[..n];
      var last := rows[n];
      FirstPerKeySpec(pre, key);
      var p := FirstPerKey(pre, key);
      var r := FirstPerKey(rows, key);
      assert forall j :: 0 <= j < n ==> rows[j] == pre[j];
      forall i | 0 <= i < |p|
        ensures exists j :: FirstOfKey(rows, key, j) && rows[j] == p[i]
      {
        var j :| FirstOfKey(pre, key, j) && pre[j] == p[i];
        assert FirstOfKey(rows, key, j);
      }
      forall k
        ensures HasKey(rows, key, k) <==> HasKey(pre, key, k) || key(last) == k
      {
        if HasKey(rows, key, k) {
          var j :| 0 <= j < |rows| && key(rows[j]) == k;
          if j < n {
            assert key(pre[j]) == k;
          }
        }
        if HasKey(pre, key, k) {
          var j :| 0 <= j < |pre| && key(pre[j]) == k;
          assert key(rows[j]) == k;
        }
      }
      if !HasKey(pre, key, key(last)) {
        assert r == p + [last];
        assert FirstOfKey(rows, key, n);
        assert HasKey(r, key, key(last)) by {
          assert r[|p|] == last;
        }
        forall k
          ensures HasKey(r, key, k) <==> HasKey(p, key, k) || key(last) == k
        {
          if HasKey(r, key, k) {
            var j :| 0 <= j < |r| && key(r[j]) == k;
            if j < |p| {
              assert key(p[j]) == k;
            }
          }
          if HasKey(p, key, k) {
            var j :| 0 <= j < |p| && key(p[j]) == k;
            assert key(r[j]) == k;
          }
        }
        forall i | 0 <= i < |p|
          ensures key(p[i]) != key(last)
        {
          assert HasKey(p, key, key(p[i]));
        }
      }
    }
  }

  /** The ordering of the sort before a drop_duplicates: None (an empty
      or non-numeric cell) below every number. */
  predicate Below(a: Option<real>, b: Option<real>) {
    b.Some? && (a.None? || a.value < b.value)
  }

  /** Row i is the first of the rows with key k that no row with key k
      ranks above. */
  predicate FirstMaximum<K(==)>(rows: seq<Cells>, key: Cells -> K, rank: Cells -> Option<real>, k: K, i: int) {
    && 0 <= i < |rows| && key(rows[i]) == k
    && (forall j :: 0 <= j < |rows| && key(rows[j]) == k ==> !Below(rank(rows[i]), rank(rows[j])))
    && (forall j :: 0 <= j < i && key(rows[j]) == k ==> Below(rank(rows[j]), rank(rows[i])))
  }

  /** The first best-ranked row with key k, if any. */
  function FirstBest<K(==)>(rows: seq<Cells>, key: Cells -> K, rank: Cells -> Option<real>, k: K): Option<Cells>
    decreases |rows|
  {
    if rows == [] then None
    else
      var pre := FirstBest(rows[..|rows| - 1], key, rank, k);
      var last := rows[|rows| - 1];
      if key(last) != k then pre
      else if pre.None? || Below(rank(pre.value), rank(last)) then Some(last)
      else pre
  }

  /** There is a best row with key k exactly when some row has key k. */
  lemma {:induction false} FirstBestFound<K>(rows: seq<Cells>, key: Cells -> K, rank: Cells -> Option<real>, k: K)
    ensures FirstBest(rows, key, rank, k).Some? <==> HasKey(rows, key, k)
    decreases |rows|
  {
    if rows != [] {
      var n := |rows| - 1;
      var pre := rows[..n];
      FirstBestFound(pre, key, rank, k);
      if HasKey(rows, key, k) && !HasKey(pre, key, k) {
        var j :| 0 <= j < |rows| && key(rows[j]) == k;
        assert j == n;
      }
      if HasKey(pre, key, k) {
        var j :| 0 <= j < |pre| && key(pre[j]) == k;
        assert key(rows[j]) == k;
      }
    }
  }

  /** The best row with key k is the first of the rows with key k that no
      row with key k ranks above. */
  lemma {:induction false} FirstBestIsFirstMaximum<K>(rows: seq<Cells>, key: Cells -> K, rank: Cells -> Option<real>, k: K)
    requires FirstBest(rows, key, rank, k).Some?
    ensures exists i :: FirstMaximum(rows, key, rank, k, i) && rows[i] == FirstBest(rows, key, rank, k).value
    decreases |rows|
  {
    var n := |rows| - 1;
    var pre := rows[..n];
    var last := rows[n];
    assert forall j :: 0 <= j < n ==> rows[j] == pre[j];
    var b := FirstBest(pre, key, rank, k);
    if b.Some? {
      FirstBestIsFirstMaximum(pre, key, rank, k);
      var i :| FirstMaximum(pre, key, rank, k, i) && pre[i] == b.value;
      if key(last) != k || !Below(rank(b.value), rank(last)) {
        assert FirstMaximum(rows, key, rank, k, i);
      } else {
        assert FirstMaximum(rows, key, rank, k, n);
      }
    } else {
      FirstBestFound(pre, key, rank, k);
      assert FirstMaximum(rows, key, rank, k, n);
    }
  }

  /** The best row of the key of r, or r itself where there is none. */
  function BestOrSelf<K(==)>(rows: seq<Cells>, key: Cells -> K, rank: Cells -> Option<real>, r: Cells): Cells {
    match FirstBest(rows, key, rank, key(r))
    case Some(b) => b
    case None => r
  }

  /** sort_values(by=[key, rank...], ascending=[True, False...]) followed by
      drop_duplicates(subset=[key], keep="first"): one row per key, the
      first of the best-ranked rows (the sort is stable). The rows come in
      the order their keys first appear. */
  function BestPerKey<K(==)>(rows: seq<Cells>, key: Cells -> K, rank: Cells -> Option<real>): (r: seq<Cells>)
    ensures |r| <= |rows|
    ensures rows != [] ==> r != []
  {
    var f := FirstPerKey(rows, key);
    seq(|f|, i requires 0 <= i < |f| => BestOrSelf(rows, key, rank, f[i]))
  }

  /** The best row per key is exactly one row for every key of the table,
      the first of its best-ranked rows. */
  lemma BestPerKeySpec<K>(rows: seq<Cells>, key: Cells -> K, rank: Cells -> Option<real>)
    ensures var r := BestPerKey(rows, key, rank);
      && DistinctKeys(r, key)
      && (forall k :: HasKey(r, key, k) <==> HasKey(rows, key, k))
      && forall i :: 0 <= i < |r| ==> exists j :: FirstMaximum(rows, key, rank, key(r[i]), j) && rows[j] == r[i]
  {
    var f := FirstPerKey(rows, key);
    var r := BestPerKey(rows, key, rank);
    FirstPerKeySpec(rows, key);
    forall i | 0 <= i < |f|
      ensures key(r[i]) == key(f[i])
      ensures exists j :: FirstMaximum(rows, key, rank, key(r[i]), j) && rows[j] == r[i]
    {
      var j0 :| FirstOfKey(rows, key, j0) && rows[j0] == f[i];
      assert HasKey(rows, key, key(f[i]));
      FirstBestFound(rows, key, rank, key(f[i]));
      FirstBestIsFirstMaximum(rows, key, rank, key(f[i]));
      var j :| FirstMaximum(rows, key, rank, key(f[i]), j) && rows[j] == r[i];
    }
    forall k
      ensures HasKey(r, key, k) <==> HasKey(f, key, k)
    {
      if HasKey(r, key, k) {
        var j :| 0 <= j < |r| && key(r[j]) == k;
        assert key(f[j]) == k;
      }
      if HasKey(f, key, k) {
        var j :| 0 <= j < |f| && key(f[j]) == k;
        assert key(r[j]) == k;
      }
    }
  }

  // ---------------------------------------------------------------------
  // Left joins
  // ---------------------------------------------------------------------

  /** The right rows whose key equals k, in order. */
  function Matches<K(==)>(right: seq<Cells>, rkey: Cells -> K, k: K): (m: seq<Cells>)
    ensures |m| <= |right|
    decreases |right|
  {
    if right == [] then []
    else
      var pre := Matches(right[..|right| - 1], rkey, k);
      if rkey(right[|right| - 1]) == k then pre + [right[|right| - 1]] else pre
  }

  /** merge(how="left"): every left row, once per matching right row in
      right order, or once with no right row when nothing matches. */
  function LeftJoin<L, K(==)>(left: seq<L>, lkey: L -> K, right: seq<Cells>, rkey: Cells -> K): (r: seq<(L, Option<Cells>)>)
    ensures r == [] <==> left == []
    decreases |left|
  {
    if left == [] then []
    else
      var l := left[|left| - 1];
      var m := Matches(right, rkey, lkey(l));
      LeftJoin(left[..|left| - 1], lkey, right, rkey)
        + (if m == [] then [(l, None)] else seq(|m|, i requires 0 <= i < |m| => (l, Some(m[i]))))
  }

  /** The right row with key k, when the right keys are distinct. */
  function Lookup<K(==)>(right: seq<Cells>, rkey: Cells -> K, k: K): Option<Cells> {
    var m := Matches(right, rkey, k);
    if m == [] then None else Some(m[0])
  }

  /** With distinct right keys there is at most one match, and there is
      one exactly when some right row has the key. */
  lemma {:induction false} MatchesDistinct<K>(right: seq<Cells>, rkey: Cells -> K, k: K)
    requires DistinctKeys(right, rkey)
    ensures |Matches(right, rkey, k)| <= 1
    ensures Matches(right, rkey, k) != [] <==> HasKey(right, rkey, k)
    ensures forall r :: r in Matches(right, rkey, k) ==> r in right && rkey(r) == k
    decreases |right|
  {
    if right != [] {
      var n := |right| - 1;
      var pre := right[..n];
      MatchesDistinct(pre, rkey, k);
      assert forall j :: 0 <= j < n ==> right[j] == pre[j];
      if HasKey(right, rkey, k) && rkey(right[n]) != k {
        var j :| 0 <= j < |right| && rkey(right[j]) == k;
        assert rkey(pre[j]) == k;
      }
      if HasKey(pre, rkey, k) {
        var j :| 0 <= j < n && rkey(pre[j]) == k;
        assert rkey(right[j]) == k;
      }
    }
  }

  /** A left join against a table with distinct keys keeps every left row
      exactly once, in order, with its matching right row or none. */
  lemma {:induction false} LeftJoinDistinct<L, K>(left: seq<L>, lkey: L -> K, right: seq<Cells>, rkey: Cells -> K)
    requires DistinctKeys(right, rkey)
    ensures |LeftJoin(left, lkey, right, rkey)| == |left|
    ensures forall i :: 0 <= i < |left| ==>
      LeftJoin(left, lkey, right, rkey)[i] == (left[i], Lookup(right, rkey, lkey(left[i])))
    decreases |left|
  {
    if left != [] {
      var n := |left| - 1;
      LeftJoinDistinct(left[..n], lkey, right, rkey);
      MatchesDistinct(right, rkey, lkey(left[n]));
    }
  }

  /** The looked-up row has the key, and there is one exactly when the
      right table has the key. */
  lemma LookupSpec<K>(right: seq<Cells>, rkey: Cells -> K, k: K)
    requires DistinctKeys(right, rkey)
    ensures Lookup(right, rkey, k).Some? <==> HasKey(right, rkey, k)
    ensures Lookup(right, rkey, k).Some? ==>
      Lookup(right, rkey, k).value in right && rkey(Lookup(right, rkey, k).value) == k
  {
    MatchesDistinct(right, rkey, k);
  }

  // ---------------------------------------------------------------------
  // dedupe_openlibrary_best
  // ---------------------------------------------------------------------

  /** has_text(col): the table has the column and the row's cell is
      non-blank. */
  predicate HasText(columns: set<string>, row: Cells, col: string) {
    col in columns && Cell(row, col).Some? && Strip(Cell(row, col).value) != []
  }

  /** is_ok: the status cell, stripped and lower-cased, is "ok". */
  predicate IsOk(row: Cells) {
    Cell(row, "status").Some? && Lower(Strip(Cell(row, "status").value)) == "ok"
  }

  /** The four helper flags read as one number, so that the descending
      sort on (is_ok, has_desc, has_subj, has_title) is the descending
      order of the number. */
  function OlFlags(columns: set<string>, row: Cells): (n: int)
    ensures 0 <= n < 16
  {
    (if IsOk(row) then 8 else 0) + (if HasText(columns, row, "description") then 4 else 0)
      + (if HasText(columns, row, "subjects") then 2 else 0) + (if HasText(columns, row, "title") then 1 else 0)
  }

  /** The flags compare lexicographically: status ok first, then a
      description, then subjects, then a title. */
  lemma OlFlagsLexicographic(columns: set<string>, a: Cells, b: Cells)
    ensures IsOk(a) && !IsOk(b) ==> OlFlags(columns, a) > OlFlags(columns, b)
    ensures IsOk(a) == IsOk(b) && HasText(columns, a, "description") && !HasText(columns, b, "description")
      ==> OlFlags(columns, a) > OlFlags(columns, b)
    ensures IsOk(a) == IsOk(b) && HasText(columns, a, "description") == HasText(columns, b, "description")
      && HasText(columns, a, "subjects") && !HasText(columns, b, "subjects")
      ==> OlFlags(columns, a) > OlFlags(columns, b)
    ensures IsOk(a) == IsOk(b) && HasText(columns, a, "description") == HasText(columns, b, "description")
      && HasText(columns, a, "subjects") == HasText(columns, b, "subjects")
      ==> (OlFlags(columns, a) > OlFlags(columns, b) <==> HasText(columns, a, "title") && !HasText(columns, b, "title"))
  {
  }

  function OlRank(columns: set<string>): Cells -> Option<real> {
    (r: Cells) => Some(OlFlags(columns, r) as real)
  }

  /** dedupe_openlibrary_best. The helper flag columns are never added to
      the rows here, so the table keeps its columns. */
  function DedupeOpenLibraryBest(ol: Frame): (d: Frame)
    ensures d.columns == ol.columns
    ensures "ISBN" !in ol.columns ==> d == ol
    ensures |d.rows| <= |ol.rows| && (ol.rows != [] ==> d.rows != [])
  {
    if "ISBN" !in ol.columns then ol
    else
      var c := CleanIsbnCol(ol, "ISBN");
      if "status" !in ol.columns then Frame(ol.columns, FirstPerKey(c.rows, IsbnOf))
      else Frame(ol.columns, BestPerKey(c.rows, IsbnOf, OlRank(ol.columns)))
  }

  /** With a status column the dedupe keeps one row per cleaned ISBN: the
      first of the rows of that ISBN with the highest flags. */
  lemma DedupeKeepsBestFlags(ol: Frame)
    requires "ISBN" in ol.columns && "status" in ol.columns
    ensures var c := CleanIsbnCol(ol, "ISBN").rows;
      var d := DedupeOpenLibraryBest(ol).rows;
      && DistinctKeys(d, IsbnOf)
      && (forall k :: HasKey(d, IsbnOf, k) <==> HasKey(c, IsbnOf, k))
      && forall i :: 0 <= i < |d| ==> exists j ::
        && 0 <= j < |c| && c[j] == d[i]
        && (forall j' :: 0 <= j' < |c| && IsbnOf(c[j']) == IsbnOf(c[j]) ==>
              OlFlags(ol.columns, c[j']) <= OlFlags(ol.columns, c[j]))
        && (forall j' :: 0 <= j' < j && IsbnOf(c[j']) == IsbnOf(c[j]) ==>
              OlFlags(ol.columns, c[j']) < OlFlags(ol.columns, c[j]))
  {
    var c := CleanIsbnCol(ol, "ISBN").rows;
    var d := DedupeOpenLibraryBest(ol).rows;
    var rank := OlRank(ol.columns);
    BestPerKeySpec(c, IsbnOf, rank);
    forall i | 0 <= i < |d|
      ensures exists j ::
        && 0 <= j < |c| && c[j] == d[i]
        && (forall j' :: 0 <= j' < |c| && IsbnOf(c[j']) == IsbnOf(c[j]) ==>
              OlFlags(ol.columns, c[j']) <= OlFlags(ol.columns, c[j]))
        && (forall j' :: 0 <= j' < j && IsbnOf(c[j']) == IsbnOf(c[j]) ==>
              OlFlags(ol.columns, c[j']) < OlFlags(ol.columns, c[j]))
    {
      var j :| FirstMaximum(c, IsbnOf, rank, IsbnOf(d[i]), j) && c[j] == d[i];
      forall j' | 0 <= j' < |c| && IsbnOf(c[j']) == IsbnOf(c[j])
        ensures OlFlags(ol.columns, c[j']) <= OlFlags(ol.columns, c[j])
      {
        assert !Below(rank(c[j]), rank(c[j']));
      }
      forall j' | 0 <= j' < j && IsbnOf(c[j']) == IsbnOf(c[j])
        ensures OlFlags(ol.columns, c[j']) < OlFlags(ol.columns, c[j])
      {
        assert Below(rank(c[j']), rank(c[j]));
      }
    }
  }

  /** The Open Library columns get the prefix ol_, except ISBN. */
  function OlName(c: string): string {
    if c == "ISBN" then c else "ol_" + c
  }

  lemma OlNameNotIsbn(x: string)
    requires x != "ISBN"
    ensures OlName(x) != "ISBN"
  {
    assert OlName(x)[0] == 'o';
  }

  lemma OlNameInjective()
    ensures forall a, b :: OlName(a) == OlName(b) ==> a == b
  {
    forall a, b | OlName(a) == OlName(b)
      ensures a == b
    {
      if a != "ISBN" && b != "ISBN" {
        assert a == OlName(a)[3..] && b == OlName(b)[3..];
      } else if a != "ISBN" {
        OlNameNotIsbn(a);
      } else if b != "ISBN" {
        OlNameNotIsbn(b);
      }
    }
  }

  /** The rename of every column but ISBN to ol_<name>, on one row. */
  function RenameOl(row: Cells): (r: Cells)
    ensures forall c :: c in row ==> OlName(c) in r && r[OlName(c)] == row[c]
    ensures forall c :: c in r ==> exists c0 :: c0 in row && OlName(c0) == c
  {
    OlNameInjective();
    map c | c in row :: OlName(c) := row[c]
  }

  /** The Open Library table reduced to one row per ISBN: a file written by
      the collector (it has ol_status) keeps its first row per ISBN; any
      other goes through the dedupe and the rename. */
  function OlBest(ol: Frame): (r: seq<Cells>)
    ensures |r| <= |ol.rows| && (ol.rows != [] ==> r != [])
  {
    if "ol_status" in ol.columns then FirstPerKey(ol.rows, IsbnOf)
    else
      var d := DedupeOpenLibraryBest(ol).rows;
      seq(|d|, i requires 0 <= i < |d| => RenameOl(d[i]))
  }

  /** The rename keeps the ISBN cell, so the reduced table has distinct
      ISBNs either way. */
  lemma OlBestDistinct(ol: Frame)
    requires "ISBN" in ol.columns
    ensures DistinctKeys(OlBest(ol), IsbnOf)
  {
    if "ol_status" in ol.columns {
      FirstPerKeySpec(ol.rows, IsbnOf);
    } else {
      var d := DedupeOpenLibraryBest(ol).rows;
      if "status" in ol.columns {
        BestPerKeySpec(CleanIsbnCol(ol, "ISBN").rows, IsbnOf, OlRank(ol.columns));
      } else {
        FirstPerKeySpec(CleanIsbnCol(ol, "ISBN").rows, IsbnOf);
      }
      forall i | 0 <= i < |d|
        ensures IsbnOf(RenameOl(d[i])) == IsbnOf(d[i])
      {
        OlNameInjective();
        if "ISBN" in RenameOl(d[i]) {
          var c0 :| c0 in d[i] && OlName(c0) == "ISBN";
          assert OlName("ISBN") == "ISBN";
        }
      }
    }
  }

  // ---------------------------------------------------------------------
  // The OpenAlex table, one row per title key
  // ---------------------------------------------------------------------

  /** The title key of an OpenAlex row, from its title column. */
  function TitleKeyIn(titleCol: string): Cells -> string {
    (r: Cells) => NormTitle(Cell(r, titleCol))
  }

  /** The similarity of an OpenAlex row; None when the cell is empty or
      not a number. */
  function SimRank(simCol: string): Cells -> Option<real> {
    (r: Cells) => if Cell(r, simCol).Some? then ParseNumber(Cell(r, simCol).value) else None
  }

  /** The similarity column, when there is one: similarity before
      oa_similarity. */
  function SimColumn(columns: set<string>): Option<string> {
    if "similarity" in columns then Some("similarity")
    else if "oa_similarity" in columns then Some("oa_similarity")
    else None
  }

  /** oa_best: one row per title key, the first of the most similar ones,
      or the first row of the key when there is no similarity column. */
  function OaBest(oa: Frame, titleCol: string): (r: seq<Cells>)
    ensures |r| <= |oa.rows| && (oa.rows != [] ==> r != [])
  {
    match SimColumn(oa.columns)
    case Some(col) => BestPerKey(oa.rows, TitleKeyIn(titleCol), SimRank(col))
    case None => FirstPerKey(oa.rows, TitleKeyIn(titleCol))
  }

  /** The OpenAlex table keeps one row per title key; with a similarity
      column that row has the highest similarity of its key and is the
      first of those. */
  lemma OaBestSpec(oa: Frame, titleCol: string)
    ensures var r := OaBest(oa, titleCol);
      && DistinctKeys(r, TitleKeyIn(titleCol))
      && (forall k :: HasKey(r, TitleKeyIn(titleCol), k) <==> HasKey(oa.rows, TitleKeyIn(titleCol), k))
      && (SimColumn(oa.columns).Some? ==> forall i :: 0 <= i < |r| ==> exists j ::
            FirstMaximum(oa.rows, TitleKeyIn(titleCol), SimRank(SimColumn(oa.columns).value), TitleKeyIn(titleCol)(r[i]), j)
            && oa.rows[j] == r[i])
      && (SimColumn(oa.columns).None? ==> forall i :: 0 <= i < |r| ==> exists j ::
            FirstOfKey(oa.rows, TitleKeyIn(titleCol), j) && oa.rows[j] == r[i])
  {
    if SimColumn(oa.columns).Some? {
      BestPerKeySpec(oa.rows, TitleKeyIn(titleCol), SimRank(SimColumn(oa.columns).value));
    } else {
      var r := OaBest(oa, titleCol);
      assert r == FirstPerKey(oa.rows, TitleKeyIn(titleCol));
      FirstPerKeySpec(oa.rows, TitleKeyIn(titleCol));
      assert forall i :: 0 <= i < |r| ==> exists j :: FirstOfKey(oa.rows, TitleKeyIn(titleCol), j) && oa.rows[j] == r[i];
    }
  }

  // ---------------------------------------------------------------------
  // main
  // ---------------------------------------------------------------------

  /** An input file: missing, or the table read from it. */
  datatype Input = Missing | Read(frame: Frame)

  datatype Source = BaseFile | KohaFile | OpenLibraryFile | OpenAlexFile

  /** FileNotFoundError, ValueError on the base or OpenAlex columns, and
      the KeyError of a source table without an ISBN column. */
  datatype BuildError =
    | FileNotFound(source: Source)
    | BaseWithoutIsbn
    | BaseWithoutTitle
    | NoIsbnColumn(table: Source)
    | OpenAlexWithoutTitle

  /** A row of the final dataset: the base row and the row each source
      contributed to it, if any. */
  datatype MasterRow = MasterRow(base: Cells, koha: Option<Cells>, ol: Option<Cells>, oa: Option<Cells>)

  function BaseIsbn(p: (Cells, Option<Cells>)): Option<string> {
    IsbnOf(p.0)
  }

  function BaseTitleKey(p: ((Cells, Option<Cells>), Option<Cells>)): string {
    NormTitle(Cell(p.0.0, "Title"))
  }

  /** The title column of the OpenAlex table: Title before oa_Title. */
  function OaTitleColumn(columns: set<string>): string {
    if "Title" in columns then "Title" else "oa_Title"
  }

  /** main: the three left joins, after the file and column checks in the
      order the script makes them. */
  function BuildFinalDataset(base: Input, koha: Input, ol: Input, oa: Input): (r: Result<seq<MasterRow>, BuildError>)
    ensures base.Missing? ==> r == Err(FileNotFound(BaseFile))
    ensures base.Read? && koha.Missing? ==> r == Err(FileNotFound(KohaFile))
    ensures base.Read? && koha.Read? && ol.Missing? ==> r == Err(FileNotFound(OpenLibraryFile))
    ensures base.Read? && koha.Read? && ol.Read? && oa.Missing? ==> r == Err(FileNotFound(OpenAlexFile))
    ensures r.Ok? <==>
      && base.Read? && koha.Read? && ol.Read? && oa.Read?
      && "ISBN" in base.frame.columns && "Title" in base.frame.columns
      && "ISBN" in koha.frame.columns && "ISBN" in ol.frame.columns
      && ("Title" in oa.frame.columns || "oa_Title" in oa.frame.columns)
    ensures r.Ok? ==> |r.value| == |base.frame.rows|
  {
    if base.Missing? then Err(FileNotFound(BaseFile))
    else if koha.Missing? then Err(FileNotFound(KohaFile))
    else if ol.Missing? then Err(FileNotFound(OpenLibraryFile))
    else if oa.Missing? then Err(FileNotFound(OpenAlexFile))
    else if "ISBN" !in base.frame.columns then Err(BaseWithoutIsbn)
    else if "Title" !in base.frame.columns then Err(BaseWithoutTitle)
    else
      var b := CleanIsbnCol(base.frame, "ISBN");
      var k := CleanIsbnCol(koha.frame, "ISBN");
      if "ISBN" !in k.columns then Err(NoIsbnColumn(KohaFile))
      else
        var kohaBest := FirstPerKey(k.rows, IsbnOf);
        FirstPerKeySpec(k.rows, IsbnOf);
        LeftJoinDistinct(b.rows, IsbnOf, kohaBest, IsbnOf);
        var m1 := LeftJoin(b.rows, IsbnOf, kohaBest, IsbnOf);
        var o := CleanIsbnCol(ol.frame, "ISBN");
        if "ISBN" !in o.columns then Err(NoIsbnColumn(OpenLibraryFile))
        else
          var olBest := OlBest(o);
          OlBestDistinct(o);
          LeftJoinDistinct(m1, BaseIsbn, olBest, IsbnOf);
          var m2 := LeftJoin(m1, BaseIsbn, olBest, IsbnOf);
          var a := oa.frame;
          if "Title" !in a.columns && "oa_Title" !in a.columns then Err(OpenAlexWithoutTitle)
          else
            var titleCol := OaTitleColumn(a.columns);
            var oaBest := OaBest(a, titleCol);
            OaBestSpec(a, titleCol);
            LeftJoinDistinct(m2, BaseTitleKey, oaBest, TitleKeyIn(titleCol));
            var joined := LeftJoin(m2, BaseTitleKey, oaBest, TitleKeyIn(titleCol));
            Ok(seq(|joined|, i requires 0 <= i < |joined| =>
                   MasterRow(joined[i].0.0.0, joined[i].0.0.1, joined[i].0.1, joined[i].1)))
  }

  /** Every base row appears once in the final dataset, in order, with its
      ISBN cleaned, together with the Koha row of the same ISBN, the Open
      Library row of the same ISBN and the OpenAlex row of the same title
      key, each None when its table has no such row. */
  lemma FinalRows(base: Input, koha: Input, ol: Input, oa: Input)
    requires BuildFinalDataset(base, koha, ol, oa).Ok?
    ensures var r := BuildFinalDataset(base, koha, ol, oa).value;
      var b := CleanIsbnCol(base.frame, "ISBN").rows;
      var o := CleanIsbnCol(ol.frame, "ISBN");
      var titleCol := OaTitleColumn(oa.frame.columns);
      forall i :: 0 <= i < |r| ==>
        && r[i].base == b[i]
        && r[i].koha == Lookup(FirstPerKey(CleanIsbnCol(koha.frame, "ISBN").rows, IsbnOf), IsbnOf, IsbnOf(b[i]))
        && r[i].ol == Lookup(OlBest(o), IsbnOf, IsbnOf(b[i]))
        && r[i].oa == Lookup(OaBest(oa.frame, titleCol), TitleKeyIn(titleCol), NormTitle(Cell(b[i], "Title")))
  {
    var b := CleanIsbnCol(base.frame, "ISBN");
    var k := CleanIsbnCol(koha.frame, "ISBN");
    var kohaBest := FirstPerKey(k.rows, IsbnOf);
    FirstPerKeySpec(k.rows, IsbnOf);
    LeftJoinDistinct(b.rows, IsbnOf, kohaBest, IsbnOf);
    var m1 := LeftJoin(b.rows, IsbnOf, kohaBest, IsbnOf);
    var o := CleanIsbnCol(ol.frame, "ISBN");
    OlBestDistinct(o);
    LeftJoinDistinct(m1, BaseIsbn, OlBest(o), IsbnOf);
    var m2 := LeftJoin(m1, BaseIsbn, OlBest(o), IsbnOf);
    var titleCol := OaTitleColumn(oa.frame.columns);
    OaBestSpec(oa.frame, titleCol);
    var oaBest := OaBest(oa.frame, titleCol);
    LeftJoinDistinct(m2, BaseTitleKey, oaBest, TitleKeyIn(titleCol));
    var joined := LeftJoin(m2, BaseTitleKey, oaBest, TitleKeyIn(titleCol));
    var r := BuildFinalDataset(base, koha, ol, oa).value;
    assert r == seq(|joined|, i requires 0 <= i < |joined| =>
                    MasterRow(joined[i].0.0.0, joined[i].0.0.1, joined[i].0.1, joined[i].1));
    forall i | 0 <= i < |r|
      ensures r[i] == MasterRow(b.rows[i], Lookup(kohaBest, IsbnOf, IsbnOf(b.rows[i])),
                                Lookup(OlBest(o), IsbnOf, IsbnOf(b.rows[i])),
                                Lookup(oaBest, TitleKeyIn(titleCol), NormTitle(Cell(b.rows[i], "Title"))))
    {
      assert joined[i] == (m2[i], Lookup(oaBest, TitleKeyIn(titleCol), BaseTitleKey(m2[i])));
      assert m2[i] == (m1[i], Lookup(OlBest(o), IsbnOf, BaseIsbn(m1[i])));
      assert m1[i] == (b.rows[i], Lookup(kohaBest, IsbnOf, IsbnOf(b.rows[i])));
    }
  }

  /** A base row gets a Koha row exactly when the Koha table has a row
      with its ISBN (an empty ISBN matches an empty ISBN), and then the
      first such row. */
  lemma FinalKohaMatch(base: Input, koha: Input, ol: Input, oa: Input, i: nat)
    requires BuildFinalDataset(base, koha, ol, oa).Ok? && i < |base.frame.rows|
    ensures var r := BuildFinalDataset(base, koha, ol, oa).value;
      var b := CleanIsbnCol(base.frame, "ISBN").rows;
      var k := CleanIsbnCol(koha.frame, "ISBN").rows;
      && (r[i].koha.Some? <==> HasKey(k, IsbnOf, IsbnOf(b[i])))
      && (r[i].koha.Some? ==> exists j :: FirstOfKey(k, IsbnOf, j) && k[j] == r[i].koha.value
                                       && IsbnOf(k[j]) == IsbnOf(b[i]))
  {
    var b := CleanIsbnCol(base.frame, "ISBN").rows;
    var k := CleanIsbnCol(koha.frame, "ISBN").rows;
    FinalRows(base, koha, ol, oa);
    FirstPerKeySpec(k, IsbnOf);
    LookupSpec(FirstPerKey(k, IsbnOf), IsbnOf, IsbnOf(b[i]));
  }

  /** A base row gets an OpenAlex row exactly when some OpenAlex row has
      its title key; with a similarity column it is the first of the most
      similar rows of that key. */
  lemma FinalOpenAlexMatch(base: Input, koha: Input, ol: Input, oa: Input, i: nat)
    requires BuildFinalDataset(base, koha, ol, oa).Ok? && i < |base.frame.rows|
    ensures var r := BuildFinalDataset(base, koha, ol, oa).value;
      var b := CleanIsbnCol(base.frame, "ISBN").rows;
      var key := TitleKeyIn(OaTitleColumn(oa.frame.columns));
      var t := NormTitle(Cell(b[i], "Title"));
      && (r[i].oa.Some? <==> HasKey(oa.frame.rows, key, t))
      && (r[i].oa.Some? && SimColumn(oa.frame.columns).Some? ==> exists j ::
            FirstMaximum(oa.frame.rows, key, SimRank(SimColumn(oa.frame.columns).value), t, j)
            && oa.frame.rows[j] == r[i].oa.value)
  {
    var b := CleanIsbnCol(base.frame, "ISBN").rows;
    var titleCol := OaTitleColumn(oa.frame.columns);
    var t := NormTitle(Cell(b[i], "Title"));
    FinalRows(base, koha, ol, oa);
    OaBestSpec(oa.frame, titleCol);
    LookupSpec(OaBest(oa.frame, titleCol), TitleKeyIn(titleCol), t);
  }
}
