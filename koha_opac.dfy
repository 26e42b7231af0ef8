/**
 * The Koha OPAC enrichment stage (ingestion/opac_data_scraper.py). It covers:
 *  - how an ISBN cell becomes a lookup key;
 *  - how the search page is retried while the catalogue shows a block page;
 *  - how a visit becomes a row, and how a row is scored;
 *  - which of two rows for one ISBN is kept, and which stored rows are
 *    fetched again;
 *  - how the checkpoint file is loaded into one best row per ISBN;
 *  - the run that walks the work list and writes a checkpoint every
 *    SAVE_EVERY updates.
 */
module KohaOpac {
  import opened Common

  const SAVE_EVERY: nat := 5
  const MAX_BLOCK_RETRIES: nat := 3

  // ---------------------------------------------------------------------
  // ISBN keys
  // ---------------------------------------------------------------------

  /**
   * clean_isbn. A missing cell, or one that compacts to nothing, has no
   * key; otherwise the key is the compacted text upper-cased, zero-filled
   * to 10 when it is all digits.
   */
  function CleanIsbn(x: Option<string>): (r: Option<string>)
    ensures r.None? <==> x.None? || Compact(x.value) == []
  {
    if x.None? then None
    else
      var s := Compact(x.value);
      if s == [] then None
      else
        var u := Upper(s);
        if IsDigits(u) && |u| < 10 then Some(ZFill(u, 10)) else Some(u)
  }

  /**
   * The shape of a key: the upper-cased compacted text, preceded by zeros
   * exactly when that text is all digits and shorter than 10; so a key has
   * no lower-case letter, hyphen or space, and an all-digit key has at
   * least 10 characters.
   */
  lemma CleanIsbnShape(raw: string)
    requires CleanIsbn(Some(raw)).Some?
    ensures var r, core := CleanIsbn(Some(raw)).value, Upper(Compact(raw));
      && |core| <= |r|
      && r[|r| - |core|..] == core
      && (forall i :: 0 <= i < |r| - |core| ==> r[i] == '0')
      && (|core| < |r| <==> IsDigits(core) && |core| < 10)
    ensures var r := CleanIsbn(Some(raw)).value;
      && r != [] && NoLower(r) && '-' !in r && ' ' !in r
      && (IsDigits(r) ==> |r| >= 10)
  {
    var s := Compact(raw);
    var u := Upper(s);
    var r := CleanIsbn(Some(raw)).value;
    forall i | 0 <= i < |u| ensures u[i] != '-' && u[i] != ' ' {
      assert s[i] in s;
    }
  }

  /** The key has no whitespace when the raw cell has none besides ' '. */
  lemma CleanIsbnNoSpace(raw: string)
    requires forall i :: 0 <= i < |raw| && IsSpace(raw[i]) ==> raw[i] == ' '
    ensures CleanIsbn(Some(raw)).Some? ==> NoSpace(CleanIsbn(Some(raw)).value)
  {
    var r := CleanIsbn(Some(raw));
    if r.Some? {
      CleanIsbnShape(raw);
      var s := Compact(raw);
      var core := Upper(s);
      forall i | 0 <= i < |r.value| ensures !IsSpace(r.value[i]) {
        if i >= |r.value| - |core| {
          var j := i - (|r.value| - |core|);
          assert r.value[i] == core[j] == UpperChar(s[j]);
          CompactChars(raw, s[j]);
        }
      }
    }
  }

  /** Cleaning a key again gives the same key, for cells whose only
      whitespace is the plain space. */
  lemma CleanIsbnIdempotent(raw: string)
    requires forall i :: 0 <= i < |raw| && IsSpace(raw[i]) ==> raw[i] == ' '
    ensures CleanIsbn(CleanIsbn(Some(raw))) == CleanIsbn(Some(raw))
  {
    var r := CleanIsbn(Some(raw));
    if r.Some? {
      var k := r.value;
      CleanIsbnShape(raw);
      CleanIsbnNoSpace(raw);
      StripSpec(k);
      assert Strip(k) == k;
      RemoveCharAbsent(k, '-');
      RemoveCharAbsent(k, ' ');
      assert Compact(k) == k;
      UpperFixesNoLower(k);
    }
  }

  /** A tab left in front of a hyphen survives the first cleaning and is
      stripped by the second, so the key changes when it is cleaned again. */
  lemma CleanIsbnNotIdempotentWithTab()
    ensures CleanIsbn(Some("1\t-")) == Some("1\t")
    ensures CleanIsbn(Some("1\t")) == Some("0000000001")
  {
    CleanIsbnKeepsTab();
    CleanIsbnStripsTab();
  }

  lemma CleanIsbnKeepsTab()
    ensures CleanIsbn(Some("1\t-")) == Some("1\t")
  {
    assert TrimLeft("1\t-") == "1\t-";
    assert TrimRight("1\t-") == "1\t-";
    assert RemoveChar("1\t-", '-') == "1\t" by {
      assert RemoveChar("-", '-') == [];
      assert RemoveChar("\t-", '-') == "\t";
    }
    assert RemoveChar("1\t", ' ') == "1\t" by {
      assert RemoveChar("\t", ' ') == "\t";
    }
    assert Compact("1\t-") == "1\t";
    assert Upper("1\t") == "1\t";
    assert !IsDigits("1\t");
  }

  lemma CleanIsbnStripsTab()
    ensures CleanIsbn(Some("1\t")) == Some("0000000001")
  {
    assert TrimLeft("1\t") == "1\t";
    assert TrimRight("1\t") == "1" by {
      assert "1\t"[..1] == "1";
    }
    assert Compact("1\t") == "1";
    assert Upper("1") == "1";
    assert IsDigits("1");
    assert ZFill("1", 10) == "0000000001";
  }

  /** The work list: the keys of the inventory's ISBN cells, first
      occurrences only. */
  function CleanedKeys(cells: seq<Option<string>>): (keys: seq<string>)
    ensures forall k :: k in keys <==> exists i :: 0 <= i < |cells| && CleanIsbn(cells[i]) == Some(k)
    decreases |cells|
  {
    if cells == [] then []
    else
      var pre := cells[..|cells| - 1];
      var c := CleanIsbn(cells[|cells| - 1]);
      assert forall i :: 0 <= i < |pre| ==> pre[i] == cells[i];
      CleanedKeys(pre) + (if c.Some? then [c.value] else [])
  }

  datatype InventoryFile = NoInventory | NoIsbnColumn | Inventory(isbnCells: seq<Option<string>>)

  datatype StartError = InputNotFound | InputLacksIsbn

  /** The unique keys main() will visit, or the error it raises first. */
  function Worklist(file: InventoryFile): (r: Result<seq<string>, StartError>)
    ensures file.NoInventory? <==> r == Err(InputNotFound)
    ensures file.NoIsbnColumn? <==> r == Err(InputLacksIsbn)
    ensures r.Ok? ==> forall i, j :: 0 <= i < j < |r.value| ==> r.value[i] != r.value[j]
    ensures r.Ok? ==> forall k :: k in r.value <==>
      exists i :: 0 <= i < |file.isbnCells| && CleanIsbn(file.isbnCells[i]) == Some(k)
  {
    match file
    case NoInventory => Err(InputNotFound)
    case NoIsbnColumn => Err(InputLacksIsbn)
    case Inventory(cells) => Ok(Distinct(CleanedKeys(cells)))
  }

  // ---------------------------------------------------------------------
  // Block pages
  // ---------------------------------------------------------------------

  const BLOCK_KEYWORDS: seq<string> := [
    "captcha", "cloudflare", "security check", "verify you are human",
    "access denied", "attention required", "checking your browser",
    "unusual traffic", "blocked", "request blocked", "forbidden"
  ]

  /** is_block_page, on the lower-cased page content. Every keyword has at
      least seven characters, so a shorter page is never taken for a block
      page, and the empty page never is. */
  predicate IsBlockPage(htmlLower: string)
    ensures |htmlLower| < 7 ==> !IsBlockPage(htmlLower)
  {
    exists i :: 0 <= i < |BLOCK_KEYWORDS| && Contains(htmlLower, BLOCK_KEYWORDS[i])
  }

  lemma OccursInContext(a: string, s: string, b: string, pat: string, j: nat)
    requires OccursAt(s, pat, j)
    ensures OccursAt(a + s + b, pat, |a| + j)
  {
    assert (a + s + b)[|a| + j..|a| + j + |pat|] == s[j..j + |pat|];
  }

  /** A block page stays a block page inside any larger page. */
  lemma BlockPageInContext(a: string, s: string, b: string)
    requires IsBlockPage(s)
    ensures IsBlockPage(a + s + b)
  {
    var i :| 0 <= i < |BLOCK_KEYWORDS| && Contains(s, BLOCK_KEYWORDS[i]);
    var j := Find(s, BLOCK_KEYWORDS[i]).value;
    OccursInContext(a, s, b, BLOCK_KEYWORDS[i], j);
    assert Contains(a + s + b, BLOCK_KEYWORDS[i]);
  }

  /**
   * The block-page loop of scrape_one_isbn. load(n) is the lower-cased
   * content after the n-th navigation to the search URL, 0 being the first.
   * The search page gets through when one of the first MAX_BLOCK_RETRIES
   * loads is not a block page. After the last allowed retry the loop gives
   * up without looking at the page that retry loaded.
   */
  method PassBlockGate(load: nat -> string) returns (passed: bool, navigations: nat)
    ensures passed <==> exists n :: 0 <= n < MAX_BLOCK_RETRIES && !IsBlockPage(load(n))
    ensures passed ==> 1 <= navigations <= MAX_BLOCK_RETRIES && !IsBlockPage(load(navigations - 1))
    ensures passed ==> forall n :: 0 <= n < navigations - 1 ==> IsBlockPage(load(n))
    ensures !passed ==> navigations == MAX_BLOCK_RETRIES + 1
  {
    navigations := 1;
    var blockTries := 0;
    while IsBlockPage(load(navigations - 1))
      invariant 1 <= navigations <= MAX_BLOCK_RETRIES
      invariant blockTries == navigations - 1
      invariant forall n :: 0 <= n < navigations - 1 ==> IsBlockPage(load(n))
      decreases MAX_BLOCK_RETRIES - blockTries
    {
      blockTries := blockTries + 1;
      navigations := navigations + 1;
      if blockTries >= MAX_BLOCK_RETRIES {
        passed := false;
        return;
      }
    }
    passed := true;
  }

  // ---------------------------------------------------------------------
  // Rows
  // ---------------------------------------------------------------------

  /** One row of the enrichment file; a missing cell is None. */
  datatype KohaRow = KohaRow(
    isbn: Option<string>,
    detailUrl: Option<string>,
    subjects: Option<string>,
    summary: Option<string>,
    status: Option<string>)

  /** The status, stripped and lower-cased; a missing status reads as "". */
  function StatusOf(row: KohaRow): string {
    if row.status.None? then [] else Lower(Strip(row.status.value))
  }

  /** The cell is a string with something besides whitespace. */
  predicate HasText(x: Option<string>) {
    x.Some? && Strip(x.value) != []
  }

  function StatusBase(status: string): int {
    if status == "ok" then 50
    else if status == "found_but_empty" then 30
    else if status == "timeout" then 10
    else if status == "security_check_failed" then 5
    else if status == "no_results" then 0
    else 8
  }

  /**
   * row_score: a status base of 0 to 50, plus 20 for each of subjects and
   * summary that holds text; no row scores -999.
   */
  function RowScore(row: Option<KohaRow>): (score: int)
    ensures row.None? <==> score == -999
    ensures row.Some? ==> 0 <= score <= 90
    ensures row.Some? && (HasText(row.value.subjects) || HasText(row.value.summary)) ==> score >= 20
    ensures row.Some? && !HasText(row.value.subjects) && !HasText(row.value.summary) ==> score <= 50
    ensures row.Some? && score == 90 <==>
      row.Some? && StatusOf(row.value) == "ok" && HasText(row.value.subjects) && HasText(row.value.summary)
  {
    if row.None? then -999
    else
      var r := row.value;
      StatusBase(StatusOf(r)) + (if HasText(r.subjects) then 20 else 0) + (if HasText(r.summary) then 20 else 0)
  }

  /** The score table: each status has its base (ok 50, found_but_empty 30,
      timeout 10, security_check_failed 5, no_results 0, any other 8), and
      subjects and summary each add 20 when they hold text. */
  lemma RowScoreTable(row: KohaRow)
    ensures var bonus := (if HasText(row.subjects) then 20 else 0) + (if HasText(row.summary) then 20 else 0);
      && (StatusOf(row) == "ok" ==> RowScore(Some(row)) == 50 + bonus)
      && (StatusOf(row) == "found_but_empty" ==> RowScore(Some(row)) == 30 + bonus)
      && (StatusOf(row) == "timeout" ==> RowScore(Some(row)) == 10 + bonus)
      && (StatusOf(row) == "security_check_failed" ==> RowScore(Some(row)) == 5 + bonus)
      && (StatusOf(row) == "no_results" ==> RowScore(Some(row)) == bonus)
      && (StatusOf(row) !in {"ok", "found_but_empty", "timeout", "security_check_failed", "no_results"} ==>
            RowScore(Some(row)) == 8 + bonus)
  {
  }

  /** A row with status "ok" and any text outscores every row without text. */
  lemma OkWithTextOutranksEmpty(a: KohaRow, b: KohaRow)
    requires StatusOf(a) == "ok" && (HasText(a.subjects) || HasText(a.summary))
    requires !HasText(b.subjects) && !HasText(b.summary)
    ensures RowScore(Some(a)) > RowScore(Some(b))
  {
  }

  /** The score does not look at the ISBN or the detail URL. */
  lemma ScoreIgnoresKey(row: KohaRow, k: Option<string>, url: Option<string>)
    ensures RowScore(Some(row.(isbn := k, detailUrl := url))) == RowScore(Some(row))
  {
  }

  /**
   * pick_better_row: with one side missing, the other; otherwise the new
   * row only when it scores strictly higher, so a tie keeps the old row.
   */
  function PickBetterRow(oldRow: Option<KohaRow>, newRow: Option<KohaRow>): (r: Option<KohaRow>)
    ensures r == oldRow || r == newRow
    ensures oldRow.None? ==> r == newRow
    ensures newRow.None? ==> r == oldRow
    ensures oldRow.Some? && newRow.Some? && RowScore(newRow) > RowScore(oldRow) ==> r == newRow
    ensures oldRow.Some? && newRow.Some? && RowScore(newRow) <= RowScore(oldRow) ==> r == oldRow
    ensures RowScore(r) == if RowScore(oldRow) >= RowScore(newRow) then RowScore(oldRow) else RowScore(newRow)
  {
    if oldRow.None? then newRow
    else if newRow.None? then oldRow
    else if RowScore(newRow) > RowScore(oldRow) then newRow
    else oldRow
  }

  /**
   * should_retry: a missing row, a timeout, a block, an empty detail page,
   * an error, and an "ok" row without text are fetched again; a row with
   * no search results, an "ok" row with text, and a row with any other
   * status are kept.
   */
  function ShouldRetry(existing: Option<KohaRow>): (retry: bool)
    ensures existing.None? ==> retry
    ensures existing.Some? && StatusOf(existing.value) == "no_results" ==> !retry
    ensures existing.Some? && StatusOf(existing.value) in {"timeout", "security_check_failed", "found_but_empty"} ==> retry
    ensures existing.Some? && StartsWith(StatusOf(existing.value), "error:") ==> retry
    ensures existing.Some? && StatusOf(existing.value) == "ok" ==>
      (retry <==> !HasText(existing.value.subjects) && !HasText(existing.value.summary))
    ensures existing.Some? && retry ==>
      StatusOf(existing.value) in {"timeout", "security_check_failed", "found_but_empty", "ok"}
      || StartsWith(StatusOf(existing.value), "error:")
  {
    if existing.None? then true
    else
      var row := existing.value;
      var status := StatusOf(row);
      if status == "no_results" then
        assert !StartsWith(status, "error:") by { assert status[..6][0] == 'n'; }
        false
      else if status in {"timeout", "security_check_failed", "found_but_empty"} then true
      else if StartsWith(status, "error:") then true
      else status == "ok" && !(HasText(row.subjects) || HasText(row.summary))
  }

  // ---------------------------------------------------------------------
  // One visit
  // ---------------------------------------------------------------------

  /** Texts that are not blank, each stripped (get_text with strip=True,
      then dropping empty texts). */
  function NonBlank(texts: seq<string>): (kept: seq<string>)
    ensures forall i :: 0 <= i < |kept| ==> kept[i] != [] && Stripped(kept[i])
    ensures kept == [] <==> !AnyText(texts)
    decreases |texts|
  {
    if texts == [] then []
    else
      var t := Strip(texts[0]);
      StripSpec(texts[0]);
      var rest := NonBlank(texts[1..]);
      assert AnyText(texts) <==> t != [] || AnyText(texts[1..]) by {
        if AnyText(texts[1..]) {
          var i :| 0 <= i < |texts[1..]| && Strip(texts[1..][i]) != [];
          assert texts[i + 1] == texts[1..][i];
        }
        if AnyText(texts) && t == [] {
          var i :| 0 <= i < |texts| && Strip(texts[i]) != [];
          assert texts[1..][i - 1] == texts[i];
        }
      }
      (if t == [] then [] else [t]) + rest
  }

  /** One text is kept, stripped, exactly when it is not blank. */
  lemma NonBlankOne(t: string)
    ensures NonBlank([t]) == if Strip(t) == [] then [] else [Strip(t)]
  {
    assert [t][1..] == [];
  }

  /** The kept texts of two lists in a row are those of the first followed
      by those of the second: order is kept. */
  lemma {:induction false} NonBlankAppend(xs: seq<string>, ys: seq<string>)
    ensures NonBlank(xs + ys) == NonBlank(xs) + NonBlank(ys)
    decreases |xs|
  {
    if xs == [] {
      assert xs + ys == ys;
    } else {
      assert (xs + ys)[1..] == xs[1..] + ys;
      assert (xs + ys)[0] == xs[0];
      NonBlankAppend(xs[1..], ys);
    }
  }

  predicate AnyText(texts: seq<string>) {
    exists i :: 0 <= i < |texts| && Strip(texts[i]) != []
  }

  /** The subjects cell: the subject links' texts joined with "; ", or
      nothing when no link has text. */
  function SubjectsField(texts: seq<string>): (r: Option<string>)
    ensures r.None? <==> !AnyText(texts)
    ensures r.Some? ==> r.value != [] && Stripped(r.value)
    ensures r.Some? ==> r.value == Join("; ", NonBlank(texts))
  {
    var kept := NonBlank(texts);
    if kept == [] then None
    else
      JoinStripped("; ", kept);
      Some(Join("; ", kept))
  }

  /** The summary cell: no summary block gives nothing; otherwise the
      block's texts, label removed, joined with " " (possibly ""). */
  function SummaryField(parts: Option<seq<string>>): (r: Option<string>)
    ensures r.None? <==> parts.None?
    ensures r.Some? ==> Stripped(r.value)
    ensures Truthy(r) <==> parts.Some? && AnyText(parts.value)
    ensures parts.Some? ==> r == Some(Join(" ", NonBlank(parts.value)))
  {
    if parts.None? then None
    else
      var kept := NonBlank(parts.value);
      assert kept != [] ==> Join(" ", kept) != [] && Stripped(Join(" ", kept)) by {
        if kept != [] { JoinStripped(" ", kept); }
      }
      Some(Join(" ", kept))
  }

  /** How one visit ended: the return points of scrape_one_isbn and the
      two handlers the run puts around it. */
  datatype ScrapeOutcome =
    | StillBlocked(url: string)
    | NoResults(url: string)
    | Detail(url: string, subjectTexts: seq<string>, summaryParts: Option<seq<string>>)
    | TimedOut
    | Raised(errorName: string)

  /** The row a visit produces for the key it was made for. */
  function RowOf(isbn: string, o: ScrapeOutcome): (row: KohaRow)
    ensures row.isbn == Some(isbn)
    ensures o.Detail? ==> (row.subjects.Some? <==> AnyText(o.subjectTexts))
    ensures o.Detail? ==> (row.summary.Some? <==> o.summaryParts.Some?)
    ensures !o.Detail? ==> row.subjects.None? && row.summary.None?
  {
    match o
    case StillBlocked(url) => KohaRow(Some(isbn), Some(url), None, None, Some("security_check_failed"))
    case NoResults(url) => KohaRow(Some(isbn), Some(url), None, None, Some("no_results"))
    case Detail(url, texts, parts) =>
      var subjects := SubjectsField(texts);
      var summary := SummaryField(parts);
      var status := if Truthy(subjects) || Truthy(summary) then "ok" else "found_but_empty";
      KohaRow(Some(isbn), Some(url), subjects, summary, Some(status))
    case TimedOut => KohaRow(Some(isbn), None, None, None, Some("timeout"))
    case Raised(name) => KohaRow(Some(isbn), None, None, None, Some("error:" + name))
  }

  /** The visit found a detail page with some subject or summary text. */
  predicate FoundText(o: ScrapeOutcome) {
    o.Detail? && (AnyText(o.subjectTexts) || (o.summaryParts.Some? && AnyText(o.summaryParts.value)))
  }

  lemma StatusOfLiteral(row: KohaRow, s: string)
    requires row.status == Some(s) && Stripped(s) && NoUpper(s)
    ensures StatusOf(row) == s
  {
    StripSpec(s);
    LowerFixesNoUpper(s);
  }

  lemma StatusOfError(row: KohaRow, name: string)
    requires row.status == Some("error:" + name)
    ensures StartsWith(StatusOf(row), "error:")
  {
    var s := "error:" + name;
    var t := TrimLeft(s);
    assert t == s;
    var r := TrimRight(t);
    TrimRightSpec(t);
    assert !IsSpace(s[5]);
    assert |r| > 5;
    assert r[..6] == "error:";
    var l := Lower(r);
    assert l[..6] == "error:";
  }

  /**
   * The run fetches a key again exactly when its last visit did not settle
   * it: only "no search results" and a detail page with text are final.
   */
  lemma RetryFollowsOutcome(isbn: string, o: ScrapeOutcome)
    ensures !ShouldRetry(Some(RowOf(isbn, o))) <==> o.NoResults? || FoundText(o)
  {
    var row := RowOf(isbn, o);
    match o
    case StillBlocked(_) => StatusOfLiteral(row, "security_check_failed");
    case NoResults(_) => StatusOfLiteral(row, "no_results");
    case TimedOut => StatusOfLiteral(row, "timeout");
    case Raised(name) => StatusOfError(row, name);
    case Detail(url, texts, parts) => RetryAfterDetail(isbn, url, texts, parts);
  }

  /** A detail page settles the key exactly when it gave subjects or a
      summary. */
  lemma RetryAfterDetail(isbn: string, url: string, texts: seq<string>, parts: Option<seq<string>>)
    ensures var o := Detail(url, texts, parts);
      !ShouldRetry(Some(RowOf(isbn, o))) <==> FoundText(o)
  {
    var row := RowOf(isbn, Detail(url, texts, parts));
    var subjects, summary := SubjectsField(texts), SummaryField(parts);
    assert row.subjects == subjects && row.summary == summary;
    StrippedHasText(subjects);
    StrippedHasText(summary);
    if Truthy(subjects) || Truthy(summary) {
      assert row.status == Some("ok");
      StatusOk(row);
    } else {
      assert row.status == Some("found_but_empty");
      StatusFoundButEmpty(row);
    }
  }

  /** For an already stripped cell, having text is being non-empty. */
  lemma StrippedHasText(x: Option<string>)
    requires x.Some? ==> Stripped(x.value)
    ensures HasText(x) <==> Truthy(x)
  {
    if x.Some? { StripSpec(x.value); }
  }

  lemma StatusOk(row: KohaRow)
    requires row.status == Some("ok")
    ensures StatusOf(row) == "ok"
  {
    StatusOfLiteral(row, "ok");
  }

  lemma StatusFoundButEmpty(row: KohaRow)
    requires row.status == Some("found_but_empty")
    ensures StatusOf(row) == "found_but_empty"
  {
    StatusOfLiteral(row, "found_but_empty");
  }

  // ---------------------------------------------------------------------
  // The checkpoint file
  // ---------------------------------------------------------------------

  datatype CheckpointFile = NoCheckpoint | NoIsbnKey | Checkpoint(rows: seq<KohaRow>)

  /** Every stored row carries the key it is stored under. */
  ghost predicate KeyedMap(m: map<string, KohaRow>) {
    forall k :: k in m ==> m[k].isbn == Some(k)
  }

  /** The score of a present row. */
  function Score(row: KohaRow): int {
    RowScore(Some(row))
  }

  /** Offering a row through pick_better_row keeps what Keep keeps. */
  lemma PickIsKeep(prev: Option<KohaRow>, row: KohaRow)
    ensures PickBetterRow(prev, Some(row)) == Some(Keep(prev, row, Score))
  {
  }

  /** The best map after offering `row` under key k. */
  function Offer(m: map<string, KohaRow>, k: string, row: KohaRow): map<string, KohaRow> {
    m[k := PickBetterRow(Get(m, k), Some(row)).value]
  }

  /** The checkpoint's rows under their cleaned keys, with the ISBN cell
      replaced by the key. */
  function Entries(rows: seq<KohaRow>): (entries: seq<Entry<string, KohaRow>>)
    ensures |entries| == |rows|
    ensures forall i :: 0 <= i < |rows| ==>
      entries[i].key == CleanIsbn(rows[i].isbn) && entries[i].item == rows[i].(isbn := CleanIsbn(rows[i].isbn))
  {
    seq(|rows|, i requires 0 <= i < |rows| => Entry(CleanIsbn(rows[i].isbn), rows[i].(isbn := CleanIsbn(rows[i].isbn))))
  }

  /** The map load_existing_best builds from the checkpoint's rows. */
  function BestOf(rows: seq<KohaRow>): map<string, KohaRow> {
    FoldBest(Entries(rows), Score)
  }

  /** load_existing_best. */
  method LoadExistingBest(file: CheckpointFile) returns (best: map<string, KohaRow>)
    ensures best == if file.Checkpoint? then BestOf(file.rows) else map[]
    ensures KeyedMap(best)
  {
    best := map[];
    if file.Checkpoint? {
      var rows := file.rows;
      ghost var entries := Entries(rows);
      for i := 0 to |rows|
        invariant best == FoldBest(entries[..i], Score)
        invariant KeyedMap(best)
      {
        assert entries[..i + 1][..i] == entries[..i];
        var k := CleanIsbn(rows[i].isbn);
        if k.Some? {
          PickIsKeep(Get(best, k.value), rows[i].(isbn := k));
          best := best[k.value := PickBetterRow(Get(best, k.value), Some(rows[i].(isbn := k))).value];
        }
      }
      assert entries[..|rows|] == entries;
    }
  }

  /** The keys of the loaded map are the keys of the checkpoint's rows. */
  lemma BestOfKeys(rows: seq<KohaRow>, k: string)
    ensures k in BestOf(rows) <==> exists i :: 0 <= i < |rows| && CleanIsbn(rows[i].isbn) == Some(k)
  {
    FoldBestKeys(Entries(rows), Score, k);
  }

  /**
   * For each key, the loaded row is the checkpoint row with that key that
   * scores highest, the earliest one among equals, carrying the key.
   */
  lemma BestOfIsFirstMaximum(rows: seq<KohaRow>, k: string)
    requires k in BestOf(rows)
    ensures exists i ::
      && 0 <= i < |rows| && CleanIsbn(rows[i].isbn) == Some(k)
      && BestOf(rows)[k] == rows[i].(isbn := Some(k))
      && (forall j :: 0 <= j < |rows| && CleanIsbn(rows[j].isbn) == Some(k) ==> Score(rows[j]) <= Score(rows[i]))
      && (forall j :: 0 <= j < i && CleanIsbn(rows[j].isbn) == Some(k) ==> Score(rows[j]) < Score(rows[i]))
  {
    var entries := Entries(rows);
    FoldBestIsFirstMaximum(entries, Score, k);
    var i :| FirstMaximum(entries, Score, k, i) && BestOf(rows)[k] == entries[i].item;
    forall j | 0 <= j < |rows| ensures Score(entries[j].item) == Score(rows[j]) {
      EntryScore(rows, j);
    }
    assert entries[i].key == CleanIsbn(rows[i].isbn);
  }

  /** An entry scores as its row: the cleaned key does not count. */
  lemma EntryScore(rows: seq<KohaRow>, j: nat)
    requires j < |rows|
    ensures Score(Entries(rows)[j].item) == Score(rows[j])
  {
    var r := rows[j];
    assert Entries(rows)[j].item == r.(isbn := CleanIsbn(r.isbn), detailUrl := r.detailUrl);
    ScoreIgnoresKey(r, CleanIsbn(r.isbn), r.detailUrl);
  }

  // ---------------------------------------------------------------------
  // The run
  // ---------------------------------------------------------------------

  /** The run leaves a stored row alone when it does not need a retry. */
  predicate Skips(m: map<string, KohaRow>, isbn: string) {
    isbn in m && !ShouldRetry(Some(m[isbn]))
  }

  /** The best map after visiting one key. */
  function Step(m: map<string, KohaRow>, isbn: string, scrape: string -> ScrapeOutcome): map<string, KohaRow> {
    if Skips(m, isbn) then m else Offer(m, isbn, RowOf(isbn, scrape(isbn)))
  }

  /** The best map and the number of updates so far. */
  datatype Progress = Progress(best: map<string, KohaRow>, updates: nat)

  /** One pass of the loop body: a skipped key changes nothing, a visited
      one offers its row and counts as an update. */
  function Advance(p: Progress, isbn: string, scrape: string -> ScrapeOutcome): Progress {
    Progress(Step(p.best, isbn, scrape), p.updates + if Skips(p.best, isbn) then 0 else 1)
  }

  /** The progress after visiting the keys in order. */
  function RunProgress(m: map<string, KohaRow>, isbns: seq<string>, scrape: string -> ScrapeOutcome): Progress
    decreases |isbns|
  {
    if isbns == [] then Progress(m, 0)
    else Advance(RunProgress(m, isbns[..|isbns| - 1], scrape), isbns[|isbns| - 1], scrape)
  }

  /** The best map after visiting the keys in order. */
  function RunMap(m: map<string, KohaRow>, isbns: seq<string>, scrape: string -> ScrapeOutcome): map<string, KohaRow> {
    RunProgress(m, isbns, scrape).best
  }

  /** How many visits updated the map (the ones that were not skipped). */
  function Updates(m: map<string, KohaRow>, isbns: seq<string>, scrape: string -> ScrapeOutcome): nat {
    RunProgress(m, isbns, scrape).updates
  }

  lemma RunSnoc(m: map<string, KohaRow>, isbns: seq<string>, i: nat, scrape: string -> ScrapeOutcome)
    requires i < |isbns|
    ensures RunProgress(m, isbns[..i + 1], scrape) == Advance(RunProgress(m, isbns[..i], scrape), isbns[i], scrape)
  {
    assert isbns[..i + 1][..i] == isbns[..i];
  }

  lemma Quotient(n: nat, q: nat, u: nat)
    requires n == SAVE_EVERY * q + u && u < SAVE_EVERY
    ensures n / SAVE_EVERY == q
  {
  }

  /** The state main() keeps while it walks the work list. */
  class Enricher {
    var bestMap: map<string, KohaRow>
    var updatesSinceSave: nat
    /** Every map handed to write_best_map, oldest first. */
    var checkpoints: seq<map<string, KohaRow>>

    ghost predicate Valid()
      reads this
    {
      updatesSinceSave < SAVE_EVERY && KeyedMap(bestMap)
    }

    constructor (loaded: map<string, KohaRow>)
      requires KeyedMap(loaded)
      ensures Valid()
      ensures bestMap == loaded && updatesSinceSave == 0 && checkpoints == []
    {
      bestMap := loaded;
      updatesSinceSave := 0;
      checkpoints := [];
    }

    /** One pass of the loop body: skip a settled key, or visit it, keep
        the better row and write a checkpoint on every SAVE_EVERY-th update. */
    method Visit(isbn: string, scrape: string -> ScrapeOutcome) returns (updated: bool)
      requires Valid()
      modifies this
      ensures Valid()
      ensures updated == !Skips(old(bestMap), isbn)
      ensures bestMap == Step(old(bestMap), isbn, scrape)
      ensures !updated ==> updatesSinceSave == old(updatesSinceSave) && checkpoints == old(checkpoints)
      ensures updated && old(updatesSinceSave) + 1 == SAVE_EVERY ==>
        updatesSinceSave == 0 && checkpoints == old(checkpoints) + [bestMap]
      ensures updated && old(updatesSinceSave) + 1 < SAVE_EVERY ==>
        updatesSinceSave == old(updatesSinceSave) + 1 && checkpoints == old(checkpoints)
    {
      var oldRow := Get(bestMap, isbn);
      if oldRow.Some? && !ShouldRetry(oldRow) {
        return false;
      }
      var row := RowOf(isbn, scrape(isbn));
      bestMap := bestMap[isbn := PickBetterRow(Get(bestMap, isbn), Some(row)).value];
      updatesSinceSave := updatesSinceSave + 1;
      if updatesSinceSave >= SAVE_EVERY {
        checkpoints := checkpoints + [bestMap];
        updatesSinceSave := 0;
      }
      return true;
    }

    /** The loop of main() over the work list, then the final write. */
    method Run(isbns: seq<string>, scrape: string -> ScrapeOutcome)
      requires Valid()
      modifies this
      ensures Valid()
      ensures bestMap == RunMap(old(bestMap), isbns, scrape)
      ensures |checkpoints| ==
        |old(checkpoints)| + (old(updatesSinceSave) + Updates(old(bestMap), isbns, scrape)) / SAVE_EVERY + 1
      ensures checkpoints[..|old(checkpoints)|] == old(checkpoints)
      ensures checkpoints[|checkpoints| - 1] == bestMap
    {
      ghost var m0, u0, c0 := bestMap, updatesSinceSave, checkpoints;
      ghost var p := Progress(m0, 0);
      var i := 0;
      while i < |isbns|
        invariant 0 <= i <= |isbns|
        invariant Valid()
        invariant p == RunProgress(m0, isbns[..i], scrape)
        invariant bestMap == p.best
        invariant |c0| <= |checkpoints|
        invariant u0 + p.updates == SAVE_EVERY * (|checkpoints| - |c0|) + updatesSinceSave
        invariant |c0| <= |checkpoints| && checkpoints[..|c0|] == c0
      {
        RunSnoc(m0, isbns, i, scrape);
        var updated := Visit(isbns[i], scrape);
        p := Advance(p, isbns[i], scrape);
        i := i + 1;
      }
      assert isbns[..i] == isbns;
      Quotient(u0 + p.updates, |checkpoints| - |c0|, updatesSinceSave);
      checkpoints := checkpoints + [bestMap];
    }
  }

  /** After a run the stored keys are the loaded keys and the visited ones. */
  lemma {:induction false} RunMapKeys(m: map<string, KohaRow>, isbns: seq<string>, scrape: string -> ScrapeOutcome, k: string)
    ensures k in RunMap(m, isbns, scrape) <==> k in m || k in isbns
    decreases |isbns|
  {
    if isbns != [] {
      var pre := isbns[..|isbns| - 1];
      RunMapKeys(m, pre, scrape, k);
      assert isbns == pre + [isbns[|isbns| - 1]];
    }
  }

  /** A run never lowers the score of a stored row. */
  lemma {:induction false} RunNeverDowngrades(m: map<string, KohaRow>, isbns: seq<string>, scrape: string -> ScrapeOutcome, k: string)
    requires k in m
    ensures k in RunMap(m, isbns, scrape)
    ensures RowScore(Some(RunMap(m, isbns, scrape)[k])) >= RowScore(Some(m[k]))
    decreases |isbns|
  {
    if isbns != [] {
      var pre := isbns[..|isbns| - 1];
      RunNeverDowngrades(m, pre, scrape, k);
      StepNeverDowngrades(RunMap(m, pre, scrape), isbns[|isbns| - 1], scrape, k);
    }
  }

  /** One step keeps every stored key, at a score no lower. */
  lemma StepNeverDowngrades(m: map<string, KohaRow>, isbn: string, scrape: string -> ScrapeOutcome, k: string)
    requires k in m
    ensures k in Step(m, isbn, scrape)
    ensures RowScore(Some(Step(m, isbn, scrape)[k])) >= RowScore(Some(m[k]))
  {
    if !Skips(m, isbn) && k == isbn {
      var picked := PickBetterRow(Get(m, k), Some(RowOf(isbn, scrape(isbn))));
      assert Step(m, isbn, scrape)[k] == picked.value;
      assert Get(m, k) == Some(m[k]);
    }
  }

  /** A stored row that needs no retry survives the run unchanged. */
  lemma {:induction false} RunKeepsSettled(m: map<string, KohaRow>, isbns: seq<string>, scrape: string -> ScrapeOutcome, k: string)
    requires k in m && !ShouldRetry(Some(m[k]))
    ensures k in RunMap(m, isbns, scrape) && RunMap(m, isbns, scrape)[k] == m[k]
    decreases |isbns|
  {
    if isbns != [] {
      RunKeepsSettled(m, isbns[..|isbns| - 1], scrape, k);
    }
  }

  /** After a run, a visited key holds its old row or the row its visit
      produced; a key that had no row holds the visit's row. */
  lemma {:induction false} RunRowOrigin(m: map<string, KohaRow>, isbns: seq<string>, scrape: string -> ScrapeOutcome, k: string)
    requires k in isbns
    ensures k in RunMap(m, isbns, scrape)
    ensures RunMap(m, isbns, scrape)[k] == RowOf(k, scrape(k)) || (k in m && RunMap(m, isbns, scrape)[k] == m[k])
    ensures k !in m ==> RunMap(m, isbns, scrape)[k] == RowOf(k, scrape(k))
    decreases |isbns|
  {
    var pre := isbns[..|isbns| - 1];
    var last := isbns[|isbns| - 1];
    assert isbns == pre + [last];
    if k in pre {
      RunMapKeys(m, pre, scrape, k);
      RunRowOrigin(m, pre, scrape, k);
    } else {
      assert k == last;
      RunMapKeys(m, pre, scrape, k);
      if k in m {
        RunMapUnvisited(m, pre, scrape, k);
      }
    }
  }

  /** A key the run does not visit keeps its row. */
  lemma {:induction false} RunMapUnvisited(m: map<string, KohaRow>, isbns: seq<string>, scrape: string -> ScrapeOutcome, k: string)
    requires k in m && k !in isbns
    ensures k in RunMap(m, isbns, scrape) && RunMap(m, isbns, scrape)[k] == m[k]
    decreases |isbns|
  {
    if isbns != [] {
      var pre := isbns[..|isbns| - 1];
      assert isbns == pre + [isbns[|isbns| - 1]];
      RunMapUnvisited(m, pre, scrape, k);
    }
  }

  /** A run keeps every stored row under its own key. */
  lemma {:induction false} RunMapKeyed(m: map<string, KohaRow>, isbns: seq<string>, scrape: string -> ScrapeOutcome)
    requires KeyedMap(m)
    ensures KeyedMap(RunMap(m, isbns, scrape))
    decreases |isbns|
  {
    if isbns != [] {
      RunMapKeyed(m, isbns[..|isbns| - 1], scrape);
    }
  }
}
