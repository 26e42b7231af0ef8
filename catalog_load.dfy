// Loading the fused catalogue into the `books` table: the ten kept
// columns are renamed, row_id / year / title are sanitised, and every
// surviving row is upserted by row_id, counting the rows sent.

module CatalogLoad {
  import opened Common
  import MergeEngine

  // ---------------------------------------------------------------------
  // Column selection and renaming
  // ---------------------------------------------------------------------

  /** The columns kept from the fused file, in order. */
  const KEEP: seq<string> := ["row_id", "ISBN", "Title", "Author/Editor", "Year",
    "Place & Publisher", "final_description", "final_subjects",
    "final_description_source", "final_subjects_source"]

  const UNKNOWN_TITLE: string := "UNKNOWN_TITLE"

  /** One row of the `books` table, apart from its key. */
  datatype Book = Book(
    isbn: Option<string>,
    title: string,
    author: Option<string>,
    year: Option<int>,
    publisher: Option<string>,
    description: Option<string>,
    subjects: Option<string>,
    descriptionSource: Option<string>,
    subjectsSource: Option<string>)

  /** A row ready for the upsert: its integer key and the nine values. */
  datatype Staged = Staged(rowId: int, book: Book)

  /** Selecting a column the file lacks raises; the error names them all. */
  datatype LoadError = MissingColumns(missing: set<string>)

  // ---------------------------------------------------------------------
  // Sanitising
  // ---------------------------------------------------------------------

  /** astype(int) on a float: truncation toward zero. */
  function Truncate(x: real): (n: int)
    ensures x >= 0.0 ==> 0 <= n && n as real <= x < n as real + 1.0
    ensures x < 0.0 ==> n <= 0 && n as real - 1.0 < x <= n as real
  {
    if x >= 0.0 then x.Floor else -((-x).Floor)
  }

  /** The row key: to_numeric with coercion, then truncated; None drops the row. */
  function RowIdOf(cell: Option<string>): (r: Option<int>)
    ensures r.Some? <==> cell.Some? && ParseNumber(cell.value).Some?
    ensures r.Some? ==> r.value == Truncate(ParseNumber(cell.value).value)
  {
    if cell.Some? then
      match ParseNumber(cell.value)
      case Some(x) => Some(Truncate(x))
      case None => None
    else None
  }

  /** The year: numeric and within 1800..2026, else None; int() at insert. */
  function YearOf(cell: Option<string>): (r: Option<int>)
    ensures r.Some? ==> 1800 <= r.value <= 2026
    ensures r.Some? <==> cell.Some? && ParseNumber(cell.value).Some?
                          && 1800.0 <= ParseNumber(cell.value).value <= 2026.0
    ensures r.Some? ==> r.value == Truncate(ParseNumber(cell.value).value)
  {
    if cell.Some? then
      match ParseNumber(cell.value)
      case Some(y) => if y < 1800.0 || y > 2026.0 then None else Some(Truncate(y))
      case None => None
    else None
  }

  /** A missing or blank title becomes UNKNOWN_TITLE; any other is kept. */
  function TitleOf(cell: Option<string>): (t: string)
    ensures Strip(t) != []
    ensures cell.Some? && Strip(cell.value) != [] ==> t == cell.value
    ensures cell.None? || Strip(cell.value) == [] ==> t == UNKNOWN_TITLE
  {
    if cell.None? || Strip(cell.value) == [] then
      assert Strip(UNKNOWN_TITLE) == UNKNOWN_TITLE by {
        StripSpec(UNKNOWN_TITLE);
        assert Stripped(UNKNOWN_TITLE);
      }
      UNKNOWN_TITLE
    else cell.value
  }

  /** One file row as it reaches the database, if its row_id is numeric. */
  function Stage(row: Cells): (r: Option<Staged>)
    ensures r.Some? <==> RowIdOf(Cell(row, "row_id")).Some?
  {
    match RowIdOf(Cell(row, "row_id"))
    case None => None
    case Some(id) => Some(Staged(id, Book(
      Cell(row, "ISBN"),
      TitleOf(Cell(row, "Title")),
      Cell(row, "Author/Editor"),
      YearOf(Cell(row, "Year")),
      Cell(row, "Place & Publisher"),
      Cell(row, "final_description"),
      Cell(row, "final_subjects"),
      Cell(row, "final_description_source"),
      Cell(row, "final_subjects_source"))))
  }

  /** Each stored value comes from exactly one source column under its
      new name, and the sanitised ones keep their guarantees. */
  lemma StageSpec(row: Cells)
    ensures var r := Stage(row);
      r.Some? ==>
        && r.value.rowId == RowIdOf(Cell(row, "row_id")).value
        && r.value.book.isbn == Cell(row, "ISBN")
        && r.value.book.author == Cell(row, "Author/Editor")
        && r.value.book.publisher == Cell(row, "Place & Publisher")
        && r.value.book.description == Cell(row, "final_description")
        && r.value.book.subjects == Cell(row, "final_subjects")
        && r.value.book.descriptionSource == Cell(row, "final_description_source")
        && r.value.book.subjectsSource == Cell(row, "final_subjects_source")
        && Strip(r.value.book.title) != []
        && (r.value.book.year.Some? ==> 1800 <= r.value.book.year.value <= 2026)
  {
  }

  /** The values f gives, in order, skipping the inputs it rejects. */
  function FilterMap<A, B>(f: A -> Option<B>, xs: seq<A>): (r: seq<B>)
    ensures |r| <= |xs|
  {
    if xs == [] then []
    else
      var rest := FilterMap(f, xs[1..]);
      match f(xs[0])
      case Some(y) => [y] + rest
      case None => rest
  }

  /** A strictly increasing list of positions. */
  predicate Increasing(idx: seq<nat>) {
    forall a, b :: 0 <= a < b < |idx| ==> idx[a] < idx[b]
  }

  /** FilterMap keeps exactly the accepted inputs, in order: idx lists
      their positions. */
  lemma {:induction false} FilterMapSpec<A, B>(f: A -> Option<B>, xs: seq<A>) returns (idx: seq<nat>)
    ensures Positions(f, xs, FilterMap(f, xs), idx)
    decreases |xs|
  {
    if xs == [] {
      idx := [];
    } else {
      var tailIdx := FilterMapSpec(f, xs[1..]);
      var shifted := Shift(f, xs, FilterMap(f, xs[1..]), tailIdx);
      var rest := FilterMap(f, xs[1..]);
      if f(xs[0]).Some? {
        assert FilterMap(f, xs) == [f(xs[0]).value] + rest;
        idx := Prepend(f, xs, rest, shifted);
      } else {
        assert FilterMap(f, xs) == rest;
        idx := shifted;
      }
    }
  }

  /** An accepted first input puts position 0 before the shifted ones. */
  lemma Prepend<A, B>(f: A -> Option<B>, xs: seq<A>, rest: seq<B>, shifted: seq<nat>) returns (idx: seq<nat>)
    requires xs != [] && f(xs[0]).Some?
    requires |shifted| == |rest| && Increasing(shifted)
    requires forall k :: 0 <= k < |shifted| ==> 1 <= shifted[k] < |xs| && f(xs[shifted[k]]) == Some(rest[k])
    requires forall i :: 1 <= i < |xs| && f(xs[i]).Some? ==> i in shifted
    ensures Positions(f, xs, [f(xs[0]).value] + rest, idx)
  {
    idx := [0] + shifted;
    var r := [f(xs[0]).value] + rest;
    forall k | 0 <= k < |idx|
      ensures idx[k] < |xs| && f(xs[idx[k]]) == Some(r[k])
    {
      if k > 0 {
        assert idx[k] == shifted[k - 1] && r[k] == rest[k - 1];
      }
    }
  }

  /** idx lists, in increasing order, the positions of xs that f accepts,
      and r holds the values it gives there. */
  ghost predicate Positions<A, B>(f: A -> Option<B>, xs: seq<A>, r: seq<B>, idx: seq<nat>) {
    && |idx| == |r| && Increasing(idx)
    && (forall k :: 0 <= k < |idx| ==> idx[k] < |xs| && f(xs[idx[k]]) == Some(r[k]))
    && (forall i :: 0 <= i < |xs| && f(xs[i]).Some? ==> i in idx)
  }

  /** Positions in the tail, shifted by one, are positions in the whole. */
  lemma Shift<A, B>(f: A -> Option<B>, xs: seq<A>, r: seq<B>, tailIdx: seq<nat>) returns (shifted: seq<nat>)
    requires xs != [] && Positions(f, xs[1..], r, tailIdx)
    ensures |shifted| == |r| && Increasing(shifted)
    ensures forall k :: 0 <= k < |shifted| ==> 1 <= shifted[k] < |xs| && f(xs[shifted[k]]) == Some(r[k])
    ensures forall i :: 1 <= i < |xs| && f(xs[i]).Some? ==> i in shifted
  {
    shifted := seq(|tailIdx|, k requires 0 <= k < |tailIdx| => tailIdx[k] + 1);
    forall k | 0 <= k < |shifted|
      ensures 1 <= shifted[k] < |xs| && f(xs[shifted[k]]) == Some(r[k])
    {
      assert xs[1..][tailIdx[k]] == xs[shifted[k]];
    }
    ShiftCovers(f, xs, r, tailIdx, shifted);
  }

  lemma ShiftCovers<A, B>(f: A -> Option<B>, xs: seq<A>, r: seq<B>, tailIdx: seq<nat>, shifted: seq<nat>)
    requires xs != [] && Positions(f, xs[1..], r, tailIdx)
    requires |shifted| == |tailIdx| && forall k :: 0 <= k < |tailIdx| ==> shifted[k] == tailIdx[k] + 1
    ensures forall i :: 1 <= i < |xs| && f(xs[i]).Some? ==> i in shifted
  {
    forall i | 1 <= i < |xs| && f(xs[i]).Some?
      ensures i in shifted
    {
      assert xs[1..][i - 1] == xs[i];
      var k :| 0 <= k < |tailIdx| && tailIdx[k] == i - 1;
      assert shifted[k] == i;
    }
  }

  /** The rows that survive the row_id filter, in file order: exactly the
      rows whose row_id is numeric, each staged. */
  lemma StageRowsSpec(rows: seq<Cells>) returns (idx: seq<nat>)
    ensures var r := FilterMap(Stage, rows);
      && |idx| == |r| && Increasing(idx)
      && (forall k :: 0 <= k < |idx| ==> idx[k] < |rows| && Stage(rows[idx[k]]) == Some(r[k]))
      && (forall i :: 0 <= i < |rows| && RowIdOf(Cell(rows[i], "row_id")).Some? ==> i in idx)
  {
    idx := FilterMapSpec(Stage, rows);
    assert Positions(Stage, rows, FilterMap(Stage, rows), idx);
  }

  /** df[keep]: selecting the columns fails on any missing one. */
  function Prepare(file: MergeEngine.Frame): (r: Result<seq<Staged>, LoadError>)
    ensures r.Err? <==> exists c :: c in KEEP && c !in file.columns
    ensures r.Err? ==> r.error.missing == set c | c in KEEP && c !in file.columns
    ensures r.Ok? ==> r.value == FilterMap(Stage, file.rows)
  {
    var missing := set c | c in KEEP && c !in file.columns;
    if missing != {} then Err(MissingColumns(missing))
    else
      assert forall c :: c in KEEP && c !in file.columns ==> c in missing;
      Ok(FilterMap(Stage, file.rows))
  }

  // ---------------------------------------------------------------------
  // Upsert
  // ---------------------------------------------------------------------

  /** The table after upserting the rows in order: an existing key has all
      nine columns overwritten, a new key is inserted. No row is ever
      deleted, and the last row loaded is stored as given. */
  function Upserted(db: map<int, Book>, rows: seq<Staged>): (r: map<int, Book>)
    ensures db.Keys <= r.Keys
    ensures rows != [] ==> rows[|rows| - 1].rowId in r && r[rows[|rows| - 1].rowId] == rows[|rows| - 1].book
    decreases |rows|
  {
    if rows == [] then db
    else
      var last := rows[|rows| - 1];
      Upserted(db, rows[..|rows| - 1])[last.rowId := last.book]
  }

  /** The keys present after the load: the old ones and every loaded one. */
  lemma {:induction false} UpsertedKeys(db: map<int, Book>, rows: seq<Staged>)
    ensures Upserted(db, rows).Keys == db.Keys + set i | 0 <= i < |rows| :: rows[i].rowId
    decreases |rows|
  {
    if rows != [] {
      var front := rows[..|rows| - 1];
      UpsertedKeys(db, front);
      var ids := set i | 0 <= i < |rows| :: rows[i].rowId;
      var frontIds := set i | 0 <= i < |front| :: front[i].rowId;
      assert ids == frontIds + {rows[|rows| - 1].rowId} by {
        forall x | x in ids ensures x in frontIds + {rows[|rows| - 1].rowId} {
          var i :| 0 <= i < |rows| && rows[i].rowId == x;
          if i < |front| {
            assert front[i] == rows[i];
          }
        }
        forall x | x in frontIds ensures x in ids {
          var i :| 0 <= i < |front| && front[i].rowId == x;
          assert rows[i] == front[i];
        }
      }
    }
  }

  /** The last row in file order with a given row_id decides that row. */
  lemma {:induction false} LastRowWins(db: map<int, Book>, rows: seq<Staged>, i: nat)
    requires i < |rows|
    requires forall j :: i < j < |rows| ==> rows[j].rowId != rows[i].rowId
    ensures rows[i].rowId in Upserted(db, rows)
    ensures Upserted(db, rows)[rows[i].rowId] == rows[i].book
    decreases |rows|
  {
    if i < |rows| - 1 {
      var front := rows[..|rows| - 1];
      assert front[i] == rows[i];
      LastRowWins(db, front, i);
    }
  }

  /** A row_id absent from the file keeps whatever the table held. */
  lemma {:induction false} UntouchedIds(db: map<int, Book>, rows: seq<Staged>, id: int)
    requires forall j :: 0 <= j < |rows| ==> rows[j].rowId != id
    ensures id in Upserted(db, rows) <==> id in db
    ensures id in db ==> Upserted(db, rows)[id] == db[id]
    decreases |rows|
  {
    if rows != [] {
      var front := rows[..|rows| - 1];
      assert forall j :: 0 <= j < |front| ==> front[j] == rows[j];
      UntouchedIds(db, front, id);
    }
  }

  /** Loading the same rows twice leaves the table as loading them once. */
  lemma ReloadIdempotent(db: map<int, Book>, rows: seq<Staged>)
    ensures Upserted(Upserted(db, rows), rows) == Upserted(db, rows)
  {
    var once := Upserted(db, rows);
    var twice := Upserted(once, rows);
    UpsertedKeys(db, rows);
    UpsertedKeys(once, rows);
    forall id | id in twice
      ensures id in once && twice[id] == once[id]
    {
      if exists j :: 0 <= j < |rows| && rows[j].rowId == id {
        var i := LastIndex(rows, id);
        LastRowWins(db, rows, i);
        LastRowWins(once, rows, i);
      } else {
        UntouchedIds(once, rows, id);
      }
    }
  }

  /** The position of the last row carrying a row_id that occurs. */
  lemma LastIndex(rows: seq<Staged>, id: int) returns (i: nat)
    requires exists j :: 0 <= j < |rows| && rows[j].rowId == id
    ensures i < |rows| && rows[i].rowId == id
    ensures forall j :: i < j < |rows| ==> rows[j].rowId != id
  {
    i := |rows| - 1;
    while rows[i].rowId != id
      invariant 0 <= i < |rows|
      invariant exists j :: 0 <= j <= i && rows[j].rowId == id
      invariant forall j :: i < j < |rows| ==> rows[j].rowId != id
      decreases i
    {
      i := i - 1;
    }
  }

  /** The `books` table, keyed by row_id. */
  class CatalogStore {
    var books: map<int, Book>

    constructor(existing: map<int, Book>)
      ensures books == existing
    {
      books := existing;
    }

    /** INSERT ... ON CONFLICT(row_id) DO UPDATE for one row. */
    method Upsert(row: Staged)
      modifies this
      ensures books == old(books)[row.rowId := row.book]
    {
      books := books[row.rowId := row.book];
    }

    /** The loop over the rows, counting each one sent. */
    method LoadRows(rows: seq<Staged>) returns (count: nat)
      modifies this
      ensures books == Upserted(old(books), rows)
      ensures count == |rows|
    {
      count := 0;
      var k := 0;
      while k < |rows|
        invariant 0 <= k <= |rows| && count == k
        invariant books == Upserted(old(books), rows[..k])
      {
        assert rows[..k + 1][..k] == rows[..k];
        Upsert(rows[k]);
        count := count + 1;
        k := k + 1;
      }
      assert rows[..k] == rows;
    }

    /** The whole script: select and sanitise, then upsert and report the
        number of rows loaded; a missing column stops it before any write. */
    method LoadFile(file: MergeEngine.Frame) returns (r: Result<nat, LoadError>)
      modifies this
      ensures r.Err? ==> books == old(books) && Prepare(file).Err?
      ensures r.Ok? ==> Prepare(file).Ok?
                        && books == Upserted(old(books), Prepare(file).value)
                        && r.value == |Prepare(file).value|
    {
      match Prepare(file)
      case Err(e) =>
        r := Err(e);
      case Ok(staged) =>
        var count := LoadRows(staged);
        r := Ok(count);
    }
  }
}
