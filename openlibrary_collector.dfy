/**
 * The Open Library collector: for every catalogue row not yet enriched,
 * look the ISBN up on Open Library, follow the edition to its authors and
 * its work, and append one record per row, in batches, to the output file.
 * Every HTTP request goes through a bounded retry loop with a capped
 * exponential backoff.
 */
module OpenLibraryCollector {
  import opened Common

  /** Records are written SAVE_EVERY at a time. */
  const SAVE_EVERY: nat := 20
  /** fetch_json tries a URL at most this many times. */
  const MAX_RETRIES: nat := 5
  /** The longest wait between two attempts, in seconds. */
  const MAX_WAIT: nat := 20

  // ---------------------------------------------------------------------
  // ISBN and description cleanup
  // ---------------------------------------------------------------------

  /** clean_isbn of this collector: no upper-casing and no padding; a
      missing cell, an empty result or "nan" in any case gives None. */
  function CleanIsbn(x: Option<string>): (r: Option<string>)
    ensures r.None? <==> x.None? || Compact(x.value) == [] || Lower(Compact(x.value)) == "nan"
    ensures r.Some? ==> r.value == Compact(x.value)
  {
    if x.None? then None
    else
      var s := Compact(x.value);
      if s != [] && Lower(s) != "nan" then Some(s) else None
  }

  /** A cleaned ISBN keeps every character of the stripped cell except the
      hyphens and spaces, in particular its letters in their original case. */
  lemma CleanIsbnKeeps(raw: string, c: char)
    requires CleanIsbn(Some(raw)).Some?
    ensures c in CleanIsbn(Some(raw)).value <==> c in Strip(raw) && c != '-' && c != ' '
  {
  }

  /** Cleaning a cleaned ISBN changes nothing, for cells whose only
      whitespace is the plain space. */
  lemma CleanIsbnIdempotent(raw: string)
    requires forall i :: 0 <= i < |raw| && IsSpace(raw[i]) ==> raw[i] == ' '
    ensures CleanIsbn(CleanIsbn(Some(raw))) == CleanIsbn(Some(raw))
  {
    var r := CleanIsbn(Some(raw));
    if r.Some? {
      var k := r.value;
      forall i | 0 <= i < |k|
        ensures !IsSpace(k[i])
      {
        assert k[i] in k;
        StripChars(raw, k[i]);
      }
      StripSpec(k);
      RemoveCharAbsent(k, '-');
      RemoveCharAbsent(k, ' ');
    }
  }

  /** A description as Open Library delivers it: absent, a string, a dict
      (with the str() of its "value" entry, when there is one), or anything
      else. */
  datatype Description = NoDescription | Text(text: string) | Typed(value: Option<string>) | OtherShape

  /** parse_description: the trimmed text, None when it is blank. */
  function ParseDescription(d: Description): (r: Option<string>)
    ensures r.Some? ==> r.value != [] && Stripped(r.value)
    ensures d.Text? ==> (r.None? <==> Strip(d.text) == [])
    ensures d.Typed? && d.value.Some? ==> (r.None? <==> Strip(d.value.value) == [])
    ensures d.NoDescription? || d.OtherShape? || d == Typed(None) ==> r.None?
    ensures d.Text? && r.Some? ==> r.value == Strip(d.text)
    ensures d.Typed? && d.value.Some? && r.Some? ==> r.value == Strip(d.value.value)
  {
    match d
    case Text(s) => StripSpec(s); var t := Strip(s); if t != [] then Some(t) else None
    case Typed(v) =>
      if v.None? then None
      else StripSpec(v.value); var t := Strip(v.value); if t != [] then Some(t) else None
    case _ => None
  }

  // ---------------------------------------------------------------------
  // fetch_json
  // ---------------------------------------------------------------------

  /** What one attempt at a URL gives: a response with its status code and
      decoded body (None for a JSON null), a timeout or connection error
      (retried), or another exception (which propagates). */
  datatype Attempt<J> = Response(status: int, body: Option<J>) | Timeout | Raises(errorName: string)

  /** The code fetch_json returns: an HTTP status, or "error". */
  datatype Code = Http(status: int) | Error

  /** The outcome of fetch_json: (data, code), or an exception it lets through. */
  datatype Fetch<J> = Fetched(data: Option<J>, code: Code) | Propagated(errorName: string)

  /** The outcome and the waits slept before it, in order. */
  datatype FetchRun<J> = FetchRun(result: Fetch<J>, waits: seq<nat>)

  function Pow2(k: nat): (p: nat)
    ensures p >= 1
  {
    if k == 0 then 1 else 2 * Pow2(k - 1)
  }

  /** The wait after failed attempt k: min(2 ** k, 20). */
  function Backoff(k: nat): (w: nat)
    ensures w <= MAX_WAIT && w <= Pow2(k)
    ensures w == MAX_WAIT || w == Pow2(k)
    ensures Pow2(k) < MAX_WAIT ==> w == Pow2(k)
  {
    if Pow2(k) < MAX_WAIT then Pow2(k) else MAX_WAIT
  }

  /** An attempt that leads to another one: a timeout or a status other
      than 200 and 404. */
  predicate Retried<J>(a: Attempt<J>) {
    a.Timeout? || (a.Response? && a.status != 200 && a.status != 404)
  }

  /** fetch_json from the given attempt number on. Data only ever comes
      with code 200, and the code is 200, 404 or "error". */
  function FetchFrom<J>(respond: nat -> Attempt<J>, attempt: nat): (run: FetchRun<J>)
    requires 1 <= attempt
    ensures run.result.Fetched? && run.result.data.Some? ==> run.result.code == Http(200)
    ensures run.result.Fetched? ==> run.result.code in {Http(200), Http(404), Error}
    decreases MAX_RETRIES + 1 - attempt
  {
    if attempt > MAX_RETRIES then FetchRun(Fetched(None, Error), [])
    else
      var a := respond(attempt);
      if a.Raises? then FetchRun(Propagated(a.errorName), [])
      else if a.Response? && a.status == 200 then FetchRun(Fetched(a.body, Http(200)), [])
      else if a.Response? && a.status == 404 then FetchRun(Fetched(None, Http(404)), [])
      else
        var rest := FetchFrom(respond, attempt + 1);
        FetchRun(rest.result, [Backoff(attempt)] + rest.waits)
  }

  /** fetch_json: up to MAX_RETRIES attempts with a backoff between them. */
  method FetchJson<J>(respond: nat -> Attempt<J>) returns (result: Fetch<J>, waits: seq<nat>)
    ensures FetchRun(result, waits) == FetchFrom(respond, 1)
  {
    waits := [];
    var attempt := 1;
    while attempt <= MAX_RETRIES
      invariant 1 <= attempt <= MAX_RETRIES + 1
      invariant FetchFrom(respond, 1).result == FetchFrom(respond, attempt).result
      invariant FetchFrom(respond, 1).waits == waits + FetchFrom(respond, attempt).waits
      decreases MAX_RETRIES + 1 - attempt
    {
      var a := respond(attempt);
      if a.Raises? {
        return Propagated(a.errorName), waits;
      }
      if a.Response? && a.status == 200 {
        return Fetched(a.body, Http(200)), waits;
      }
      if a.Response? && a.status == 404 {
        return Fetched(None, Http(404)), waits;
      }
      // Other status codes and timeouts: wait and retry.
      FetchRetryStep(respond, attempt, waits);
      waits := waits + [Backoff(attempt)];
      attempt := attempt + 1;
    }
    return Fetched(None, Error), waits;
  }

  lemma FetchRetryStep<J>(respond: nat -> Attempt<J>, attempt: nat, waits: seq<nat>)
    requires 1 <= attempt <= MAX_RETRIES && Retried(respond(attempt))
    ensures FetchFrom(respond, attempt).result == FetchFrom(respond, attempt + 1).result
    ensures waits + FetchFrom(respond, attempt).waits == (waits + [Backoff(attempt)]) + FetchFrom(respond, attempt + 1).waits
  {
  }

  /** Data comes back only with code 200; the code is 200, 404 or "error";
      one wait follows each retried attempt, with the capped backoff. */
  lemma {:induction false} FetchFromShape<J>(respond: nat -> Attempt<J>, attempt: nat)
    requires 1 <= attempt <= MAX_RETRIES + 1
    ensures var run := FetchFrom(respond, attempt);
      && (run.result.Fetched? && run.result.data.Some? ==> run.result.code == Http(200))
      && (run.result.Fetched? ==> run.result.code in {Http(200), Http(404), Error})
      && |run.waits| <= MAX_RETRIES + 1 - attempt
      && (forall i :: 0 <= i < |run.waits| ==> run.waits[i] == Backoff(attempt + i) && Retried(respond(attempt + i)))
      && (run.result == Fetched(None, Error) ==> |run.waits| == MAX_RETRIES + 1 - attempt)
      && (run.result != Fetched(None, Error) ==>
            attempt + |run.waits| <= MAX_RETRIES && AnsweredBy(run.result, respond(attempt + |run.waits|)))
    decreases MAX_RETRIES + 1 - attempt
  {
    if attempt <= MAX_RETRIES {
      FetchFromShape(respond, attempt + 1);
      var run, rest := FetchFrom(respond, attempt), FetchFrom(respond, attempt + 1);
      if run.waits != [] {
        assert run.waits == [Backoff(attempt)] + rest.waits;
        forall i | 0 <= i < |run.waits|
          ensures run.waits[i] == Backoff(attempt + i) && Retried(respond(attempt + i))
        {
          if i > 0 {
            assert run.waits[i] == rest.waits[i - 1];
          }
        }
      }
    }
  }

  /** The outcome fetch_json gives for an attempt that is not retried: the
      body with 200, None with 404, or the exception it raised. */
  ghost predicate AnsweredBy<J>(f: Fetch<J>, a: Attempt<J>) {
    || (a.Raises? && f == Propagated(a.errorName))
    || (a.Response? && a.status == 200 && f == Fetched(a.body, Http(200)))
    || (a.Response? && a.status == 404 && f == Fetched(None, Http(404)))
  }

  /** The first attempt that is not retried decides the outcome: (json, 200),
      (None, 404) or the exception, after one capped backoff per earlier
      attempt. */
  lemma FetchFromFirstAnswer<J>(respond: nat -> Attempt<J>, attempt: nat, k: nat)
    requires 1 <= attempt <= k <= MAX_RETRIES
    requires forall j :: attempt <= j < k ==> Retried(respond(j))
    requires !Retried(respond(k))
    ensures AnsweredBy(FetchFrom(respond, attempt).result, respond(k))
    ensures FetchFrom(respond, attempt).waits == seq(k - attempt, i requires 0 <= i => Backoff(attempt + i))
  {
    FetchFromShape(respond, attempt);
  }

  /** When every attempt is retried, fetch_json gives (None, "error") after
      waiting 2, 4, 8, 16 and 20 seconds. */
  lemma AllAttemptsFail<J>(respond: nat -> Attempt<J>)
    requires forall k :: 1 <= k <= MAX_RETRIES ==> Retried(respond(k))
    ensures FetchFrom(respond, 1) == FetchRun(Fetched(None, Error), [2, 4, 8, 16, 20])
  {
    assert Retried(respond(1)) && Retried(respond(2)) && Retried(respond(3));
    assert Retried(respond(4)) && Retried(respond(5));
    assert FetchFrom(respond, 6) == FetchRun(Fetched(None, Error), []);
    assert Pow2(4) == 16 && Pow2(5) == 32;
  }

  // ---------------------------------------------------------------------
  // enrich_one
  // ---------------------------------------------------------------------

  /** The exception iterating over a value that is not iterable raises. */
  const NOT_ITERABLE := "TypeError"

  /** An entry of an edition's authors list: a dict with its "key" entry,
      or something else. */
  datatype AuthorRef = AuthorDict(key: Option<string>) | NotAnAuthorDict

  /** An entry of an edition's works list: a dict with its "key" entry, or
      something else. */
  datatype WorkRef = WorkDict(key: Option<string>) | NotAWorkDict

  /** The fields read from an edition; publishers and works are None when
      they are not lists. authors is None when its value cannot be iterated
      (a JSON null or a number); a missing entry reads as the empty list,
      and a string or a dict iterates to entries that are not author dicts. */
  datatype Edition = Edition(
    title: Option<string>,
    publishDate: Option<string>,
    numberOfPages: Option<int>,
    publishers: Option<seq<string>>,
    authors: Option<seq<AuthorRef>>,
    description: Description,
    works: Option<seq<WorkRef>>)

  /** The fields read from an author; an empty author dict has no name. */
  datatype Author = Author(name: Option<string>)

  /** The fields read from a work; subjects is None when it is not a list,
      and a subject is None when it is falsy. */
  datatype Work = Work(description: Description, subjects: Option<seq<Option<string>>>)

  /** The answers of the Open Library server, per edition ISBN, author key
      and work key, attempt by attempt. */
  datatype Server = Server(
    edition: string -> nat -> Attempt<Edition>,
    author: string -> nat -> Attempt<Author>,
    work: string -> nat -> Attempt<Work>)

  /** The ol_status of a record. */
  datatype Status = InvalidIsbn | EditionNotFound | ErrorFetchEdition | StatusOk | Failed(errorName: string)

  /** One row of the output; the ol_ fields are empty unless the status is
      ok. */
  datatype Record = Record(
    rowId: int,
    isbn: Option<string>,
    status: Status,
    title: Option<string>,
    authors: Option<string>,
    publisher: Option<string>,
    publishDate: Option<string>,
    numberOfPages: Option<int>,
    workKey: Option<string>,
    description: Option<string>,
    subjects: Option<string>)

  function Short(rowId: int, isbn: Option<string>, st: Status): (r: Record)
    ensures r.rowId == rowId && r.isbn == isbn && r.status == st && r.title.None?
  {
    Record(rowId, isbn, st, None, None, None, None, None, None, None, None)
  }

  /** get_author_name: the name of an author fetched with code 200. */
  function AuthorName(server: Server, key: string): Result<Option<string>, string> {
    match FetchFrom(server.author(key), 1).result
    case Propagated(e) => Err(e)
    case Fetched(data, code) => if data.None? || code != Http(200) then Ok(None) else Ok(data.value.name)
  }

  /** The non-empty names of the authors with a key, in order; the first
      exception raised while fetching one propagates. */
  function AuthorNames(server: Server, refs: seq<AuthorRef>): (r: Result<seq<string>, string>)
    ensures r.Ok? ==> |r.value| <= |refs|
    ensures r.Err? ==> refs != []
    decreases |refs|
  {
    if refs == [] then Ok([])
    else
      var names := AuthorNames(server, refs[..|refs| - 1]);
      var a := refs[|refs| - 1];
      if names.Err? || !a.AuthorDict? || !Truthy(a.key) then names
      else
        var name := AuthorName(server, a.key.value);
        if name.Err? then Err(name.error)
        else if Truthy(name.value) then Ok(names.value + [name.value.value])
        else names
  }

  /** The key of the first work, when works is a non-empty list whose first
      entry is a dict. */
  function WorkKey(works: Option<seq<WorkRef>>): Option<string> {
    if works.Some? && works.value != [] && works.value[0].WorkDict? then works.value[0].key else None
  }

  /** The str() of the truthy subjects joined by "; ". */
  function SubjectText(subs: seq<Option<string>>): string {
    Join("; ", Present(subs))
  }

  /** The truthy entries, in order. */
  function Present(subs: seq<Option<string>>): (r: seq<string>)
    ensures forall s :: s in r ==> s != []
    ensures forall i :: 0 <= i < |subs| && Truthy(subs[i]) ==> subs[i].value in r
    decreases |subs|
  {
    if subs == [] then []
    else
      var rest := Present(subs[..|subs| - 1]);
      var x := subs[|subs| - 1];
      if Truthy(x) then rest + [x.value] else rest
  }

  /** The description and subjects after looking at the work: a non-blank
      work description replaces the edition's; a non-empty subjects list
      gives the subjects. */
  function FromWork(server: Server, workKey: Option<string>, editionDescription: Option<string>)
    : (r: Result<(Option<string>, Option<string>), string>)
    ensures !Truthy(workKey) ==> r == Ok((editionDescription, None))
    ensures r.Ok? && (r.value.1.Some? || r.value.0 != editionDescription) ==> Truthy(workKey)
  {
    if !Truthy(workKey) then Ok((editionDescription, None))
    else match FetchFrom(server.work(workKey.value), 1).result
      case Propagated(e) => Err(e)
      case Fetched(work, code) =>
        if work.None? || code != Http(200) then Ok((editionDescription, None))
        else
          var workDescription := ParseDescription(work.value.description);
          var subs := work.value.subjects;
          Ok((if workDescription.Some? then workDescription else editionDescription,
              if subs.Some? && subs.value != [] then Some(SubjectText(subs.value)) else None))
  }

  /** The ok record for an edition that was found. */
  function Details(rowId: int, isbn: string, e: Edition, server: Server): Result<Record, string> {
    if e.authors.None? then Err(NOT_ITERABLE)
    else
      var names := AuthorNames(server, e.authors.value);
      if names.Err? then Err(names.error)
      else
        var workKey := WorkKey(e.works);
        var fromWork := FromWork(server, workKey, ParseDescription(e.description));
        if fromWork.Err? then Err(fromWork.error)
        else
          Ok(Record(rowId, Some(isbn), StatusOk, e.title,
                    if names.value != [] then Some(Join("; ", names.value)) else None,
                    if e.publishers.Some? && e.publishers.value != [] then Some(e.publishers.value[0]) else None,
                    e.publishDate, e.numberOfPages, workKey, fromWork.value.0, fromWork.value.1))
  }

  /** enrich_one, as a specification: the record, or the exception raised.
      The record always belongs to the row, and an ISBN that does not clean
      is answered without a request. */
  function Enrich(rowId: int, isbnCell: Option<string>, server: Server): (r: Result<Record, string>)
    ensures r.Ok? ==> r.value.rowId == rowId
    ensures CleanIsbn(isbnCell).None? ==> r == Ok(Short(rowId, None, InvalidIsbn))
  {
    var isbn := CleanIsbn(isbnCell);
    if isbn.None? then Ok(Short(rowId, None, InvalidIsbn))
    else match FetchFrom(server.edition(isbn.value), 1).result
      case Propagated(e) => Err(e)
      case Fetched(edition, code) =>
        if code == Http(404) || edition.None? then Ok(Short(rowId, isbn, EditionNotFound))
        else if code != Http(200) then Ok(Short(rowId, isbn, ErrorFetchEdition))
        else Details(rowId, isbn.value, edition.value, server)
  }

  /** get_author_name. */
  method GetAuthorName(server: Server, key: string) returns (name: Result<Option<string>, string>)
    ensures name == AuthorName(server, key)
  {
    var fetched, _ := FetchJson(server.author(key));
    if fetched.Propagated? {
      return Err(fetched.errorName);
    }
    if fetched.data.None? || fetched.code != Http(200) {
      return Ok(None);
    }
    return Ok(fetched.data.value.name);
  }

  /** Once fetching an author has raised, the rest of the list is not
      looked at. */
  lemma {:induction false} AuthorNamesErrSticks(server: Server, refs: seq<AuthorRef>, k: nat)
    requires k <= |refs| && AuthorNames(server, refs[..k]).Err?
    ensures AuthorNames(server, refs) == AuthorNames(server, refs[..k])
    decreases |refs| - k
  {
    if k < |refs| {
      assert refs[..k + 1][..k] == refs[..k];
      AuthorNamesErrSticks(server, refs, k + 1);
    } else {
      assert refs[..k] == refs;
    }
  }

  /** The authors loop of enrich_one. */
  method CollectAuthorNames(server: Server, refs: seq<AuthorRef>) returns (names: Result<seq<string>, string>)
    ensures names == AuthorNames(server, refs)
  {
    var found: seq<string> := [];
    for k := 0 to |refs|
      invariant AuthorNames(server, refs[..k]) == Ok(found)
    {
      assert refs[..k + 1][..k] == refs[..k];
      var a := refs[k];
      if a.AuthorDict? && Truthy(a.key) {
        var name := GetAuthorName(server, a.key.value);
        if name.Err? {
          AuthorNamesErrSticks(server, refs, k + 1);
          return Err(name.error);
        }
        if Truthy(name.value) {
          found := found + [name.value.value];
        }
      }
    }
    assert refs[..|refs|] == refs;
    return Ok(found);
  }

  /** The work lookup of enrich_one. */
  method LookUpWork(server: Server, workKey: Option<string>, editionDescription: Option<string>)
    returns (r: Result<(Option<string>, Option<string>), string>)
    ensures r == FromWork(server, workKey, editionDescription)
  {
    if !Truthy(workKey) {
      return Ok((editionDescription, None));
    }
    var fetched, _ := FetchJson(server.work(workKey.value));
    if fetched.Propagated? {
      return Err(fetched.errorName);
    }
    if fetched.data.None? || fetched.code != Http(200) {
      return Ok((editionDescription, None));
    }
    var work := fetched.data.value;
    var description := editionDescription;
    var workDescription := ParseDescription(work.description);
    if workDescription.Some? {
      description := workDescription;
    }
    var subjects := None;
    if work.subjects.Some? && work.subjects.value != [] {
      subjects := Some(SubjectText(work.subjects.value));
    }
    return Ok((description, subjects));
  }

  /** enrich_one. */
  method EnrichOne(rowId: int, isbnCell: Option<string>, server: Server) returns (r: Result<Record, string>)
    ensures r == Enrich(rowId, isbnCell, server)
  {
    var isbn := CleanIsbn(isbnCell);
    if isbn.None? {
      return Ok(Short(rowId, None, InvalidIsbn));
    }
    var fetched, _ := FetchJson(server.edition(isbn.value));
    if fetched.Propagated? {
      return Err(fetched.errorName);
    }
    var edition, code := fetched.data, fetched.code;
    if code == Http(404) || edition.None? {
      return Ok(Short(rowId, isbn, EditionNotFound));
    }
    if code != Http(200) {
      return Ok(Short(rowId, isbn, ErrorFetchEdition));
    }
    var e := edition.value;
    var publisher := if e.publishers.Some? && e.publishers.value != [] then Some(e.publishers.value[0]) else None;
    if e.authors.None? {
      return Err(NOT_ITERABLE);
    }
    var names := CollectAuthorNames(server, e.authors.value);
    if names.Err? {
      return Err(names.error);
    }
    var authors := if names.value != [] then Some(Join("; ", names.value)) else None;
    var workKey := WorkKey(e.works);
    var fromWork := LookUpWork(server, workKey, ParseDescription(e.description));
    if fromWork.Err? {
      return Err(fromWork.error);
    }
    return Ok(Record(rowId, isbn, StatusOk, e.title, authors, publisher, e.publishDate,
                     e.numberOfPages, workKey, fromWork.value.0, fromWork.value.1));
  }

  /** The record of enrich_one belongs to the row; an invalid ISBN is the
      only way to lose the ISBN; the error_fetch_edition branch is never
      taken, because fetch_json returns data only with code 200; and only
      an ok record carries Open Library fields. */
  lemma EnrichStatus(rowId: int, isbnCell: Option<string>, server: Server)
    ensures var r := Enrich(rowId, isbnCell, server);
      r.Ok? ==>
        && r.value.rowId == rowId
        && (r.value.status == InvalidIsbn <==> CleanIsbn(isbnCell).None?)
        && (r.value.status != InvalidIsbn ==> r.value.isbn == CleanIsbn(isbnCell))
        && (r.value.status == InvalidIsbn ==> r.value.isbn.None?)
        && r.value.status != ErrorFetchEdition
        && (r.value.status == StatusOk || r.value.status == InvalidIsbn || r.value.status == EditionNotFound)
        && (r.value.status != StatusOk ==> r.value.title.None? && r.value.authors.None? && r.value.description.None?)
  {
    var isbn := CleanIsbn(isbnCell);
    if isbn.Some? {
      FetchFromShape(server.edition(isbn.value), 1);
    }
  }

  /** The edition of the cleaned ISBN was fetched with data. */
  predicate EditionObtained(isbnCell: Option<string>, server: Server) {
    && CleanIsbn(isbnCell).Some?
    && var fetched := FetchFrom(server.edition(CleanIsbn(isbnCell).value), 1).result;
       fetched.Fetched? && fetched.data.Some?
  }

  /** An edition obtained for the ISBN yields an ok record, unless its
      authors value cannot be iterated (TypeError) or fetching an author or
      the work raises: the record carries the edition's title,
      publish date, page count and first publisher, the author names joined
      by "; " and the description and subjects settled by the work. An
      edition that was not obtained gives edition_not_found, and a raised
      fetch propagates. So a record is ok exactly when the edition was
      obtained. */
  lemma EnrichEditionFound(rowId: int, isbnCell: Option<string>, server: Server)
    ensures var r := Enrich(rowId, isbnCell, server);
      r.Ok? ==> (r.value.status == StatusOk <==> EditionObtained(isbnCell, server))
    ensures CleanIsbn(isbnCell).Some? ==>
      var isbn := CleanIsbn(isbnCell).value;
      var fetched := FetchFrom(server.edition(isbn), 1).result;
      var r := Enrich(rowId, isbnCell, server);
      && (fetched.Propagated? ==> r == Err(fetched.errorName))
      && (fetched.Fetched? && fetched.data.None? ==> r == Ok(Short(rowId, Some(isbn), EditionNotFound)))
      && (fetched.Fetched? && fetched.data.Some? ==>
            var e := fetched.data.value;
            && (e.authors.None? ==> r == Err(NOT_ITERABLE))
            && (e.authors.Some? ==>
              var names := AuthorNames(server, e.authors.value);
              var fromWork := FromWork(server, WorkKey(e.works), ParseDescription(e.description));
              && (names.Err? ==> r == Err(names.error))
              && (names.Ok? && fromWork.Err? ==> r == Err(fromWork.error))
              && (names.Ok? && fromWork.Ok? ==>
                    && r.Ok? && r.value.status == StatusOk && r.value.isbn == Some(isbn)
                    && r.value.title == e.title && r.value.publishDate == e.publishDate
                    && r.value.numberOfPages == e.numberOfPages
                    && r.value.publisher == (if e.publishers.Some? && e.publishers.value != [] then Some(e.publishers.value[0]) else None)
                    && r.value.authors == (if names.value != [] then Some(Join("; ", names.value)) else None)
                    && r.value.workKey == WorkKey(e.works)
                    && (r.value.description, r.value.subjects) == fromWork.value)))
  {
  }

  /** The authors field lists only non-empty names, at most one per
      reference. */
  lemma {:induction false} AuthorNamesNonEmpty(server: Server, refs: seq<AuthorRef>)
    ensures AuthorNames(server, refs).Ok? ==>
      && |AuthorNames(server, refs).value| <= |refs|
      && forall n :: n in AuthorNames(server, refs).value ==> n != []
    decreases |refs|
  {
    if refs != [] {
      AuthorNamesNonEmpty(server, refs[..|refs| - 1]);
    }
  }

  /** One reference: a dict with a truthy key contributes its author's
      name when that name is truthy, and the fetch's exception when it
      raises; anything else contributes nothing. */
  lemma AuthorNamesOne(server: Server, a: AuthorRef)
    ensures AuthorNames(server, [a]) ==
      if !a.AuthorDict? || !Truthy(a.key) then Ok([])
      else match AuthorName(server, a.key.value)
        case Err(e) => Err(e)
        case Ok(n) => Ok(if Truthy(n) then [n.value] else [])
  {
    assert [a][..0] == [];
    assert AuthorNames(server, []) == Ok([]);
    if a.AuthorDict? && Truthy(a.key) && AuthorName(server, a.key.value).Ok? {
      var n := AuthorName(server, a.key.value).value;
      assert Truthy(n) ==> [] + [n.value] == [n.value];
    }
  }

  /** The authors loop over two lists in a row: the first list's exception
      wins, then the second's; otherwise the names follow one another. */
  lemma {:induction false} AuthorNamesAppend(server: Server, xs: seq<AuthorRef>, ys: seq<AuthorRef>)
    ensures var l := AuthorNames(server, xs); var m := AuthorNames(server, ys);
      AuthorNames(server, xs + ys) ==
        if l.Err? then l else if m.Err? then m else Ok(l.value + m.value)
    decreases |ys|
  {
    if ys == [] {
      assert xs + ys == xs;
      assert AuthorNames(server, ys) == Ok([]);
      assert AuthorNames(server, xs).Ok? ==> AuthorNames(server, xs).value + [] == AuthorNames(server, xs).value;
    } else {
      var ys' := ys[..|ys| - 1];
      assert (xs + ys)[..|xs + ys| - 1] == xs + ys';
      assert (xs + ys)[|xs + ys| - 1] == ys[|ys| - 1];
      AuthorNamesAppend(server, xs, ys');
      var l := AuthorNames(server, xs);
      var m' := AuthorNames(server, ys');
      if l.Ok? && m'.Ok? {
        var y := ys[|ys| - 1];
        if y.AuthorDict? && Truthy(y.key) && AuthorName(server, y.key.value).Ok? {
          var n := AuthorName(server, y.key.value).value;
          assert Truthy(n) ==> l.value + (m'.value + [n.value]) == (l.value + m'.value) + [n.value];
        }
      }
    }
  }

  /** One subject is kept exactly when it is truthy. */
  lemma PresentOne(x: Option<string>)
    ensures Present([x]) == if Truthy(x) then [x.value] else []
  {
    assert [x][..0] == [];
  }

  /** The truthy subjects of two lists in a row are those of the first
      followed by those of the second. */
  lemma {:induction false} PresentAppend(xs: seq<Option<string>>, ys: seq<Option<string>>)
    ensures Present(xs + ys) == Present(xs) + Present(ys)
    decreases |ys|
  {
    if ys == [] {
      assert xs + ys == xs;
    } else {
      var ys' := ys[..|ys| - 1];
      assert (xs + ys)[..|xs + ys| - 1] == xs + ys';
      assert (xs + ys)[|xs + ys| - 1] == ys[|ys| - 1];
      PresentAppend(xs, ys');
    }
  }

  /** A non-blank description of a work fetched with code 200 replaces the
      edition's description; otherwise the edition's stays. Subjects come
      only from such a work, and exactly when its subjects list is
      non-empty: the truthy entries joined by "; ". */
  lemma WorkDescriptionWins(server: Server, workKey: Option<string>, editionDescription: Option<string>)
    ensures var r := FromWork(server, workKey, editionDescription);
      r.Ok? ==>
        var fetched := if Truthy(workKey) then FetchFrom(server.work(workKey.value), 1).result else Fetched(None, Error);
        var got := fetched.Fetched? && fetched.data.Some? && fetched.code == Http(200);
        && (got && ParseDescription(fetched.data.value.description).Some? ==>
              r.value.0 == ParseDescription(fetched.data.value.description))
        && (!(got && ParseDescription(fetched.data.value.description).Some?) ==> r.value.0 == editionDescription)
        && (r.value.1.Some? ==> got)
        && (got && fetched.data.value.subjects.Some? && fetched.data.value.subjects.value != [] ==>
              r.value.1 == Some(SubjectText(fetched.data.value.subjects.value)))
        && (!(got && fetched.data.value.subjects.Some? && fetched.data.value.subjects.value != []) ==>
              r.value.1.None?)
  {
  }

  // ---------------------------------------------------------------------
  // The run: resume, buffer, save
  // ---------------------------------------------------------------------

  /** A row of the input: its row_id and its ISBN cell. */
  datatype InputRow = InputRow(rowId: int, isbn: Option<string>)

  /** The input CSV: missing, or its rows with a flag per column present. */
  datatype BooksFile = NoBooksFile | BooksFile(hasRowId: bool, hasIsbn: bool, rows: seq<InputRow>)

  datatype StartError = InputNotFound | NoIsbnColumn

  /** The rows to enrich: a missing file or a missing ISBN column is an
      error; without a row_id column each row's id is its index. */
  function InputRows(file: BooksFile): (r: Result<seq<InputRow>, StartError>)
    ensures file.NoBooksFile? ==> r == Err(InputNotFound)
    ensures file.BooksFile? && !file.hasIsbn ==> r == Err(NoIsbnColumn)
    ensures r.Ok? ==> |r.value| == |file.rows|
    ensures r.Ok? ==> forall i :: 0 <= i < |r.value| ==>
      && r.value[i].isbn == file.rows[i].isbn
      && r.value[i].rowId == (if file.hasRowId then file.rows[i].rowId else i)
  {
    if file.NoBooksFile? then Err(InputNotFound)
    else
      var rows := if file.hasRowId then file.rows
                  else seq(|file.rows|, i requires 0 <= i < |file.rows| => InputRow(i, file.rows[i].isbn));
      if !file.hasIsbn then Err(NoIsbnColumn) else Ok(rows)
  }

  /** The record of a processed row: enrich_one's, or the error record when
      it raised. */
  function RecordFor(row: InputRow, server: Server): Record {
    match Enrich(row.rowId, row.isbn, server)
    case Ok(r) => r
    case Err(name) => Short(row.rowId, CleanIsbn(row.isbn), Failed(name))
  }

  /** The records of the rows not yet done, in order. */
  function Pending(rows: seq<InputRow>, done: set<int>, server: Server): seq<Record>
    decreases |rows|
  {
    if rows == [] then []
    else
      var r := rows[|rows| - 1];
      Pending(rows[..|rows| - 1], done, server) + (if r.rowId in done then [] else [RecordFor(r, server)])
  }

  lemma PendingStep(rows: seq<InputRow>, i: nat, done: set<int>, server: Server)
    requires i < |rows|
    ensures Pending(rows[..i + 1], done, server) == Pending(rows[..i], done, server)
      + (if rows[i].rowId in done then [] else [RecordFor(rows[i], server)])
  {
    assert rows[..i + 1][..i] == rows[..i];
  }

  /** Every batch but the last holds exactly SAVE_EVERY records; the last
      holds between one and SAVE_EVERY. */
  predicate Chunked(batches: seq<seq<Record>>) {
    && (forall j :: 0 <= j < |batches| - 1 ==> |batches[j]| == SAVE_EVERY)
    && (batches != [] ==> 0 < |batches[|batches| - 1]| <= SAVE_EVERY)
  }

  /** Every batch holds exactly SAVE_EVERY records. */
  predicate AllFull(batches: seq<seq<Record>>) {
    forall j :: 0 <= j < |batches| ==> |batches[j]| == SAVE_EVERY
  }

  /** The main loop and the final save: the batches appended to the output
      file. */
  method CollectRows(rows: seq<InputRow>, done: set<int>, server: Server) returns (batches: seq<seq<Record>>)
    ensures Flatten(batches) == Pending(rows, done, server)
    ensures Chunked(batches)
  {
    batches := [];
    var buffer: seq<Record> := [];
    for i := 0 to |rows|
      invariant Flatten(batches) + buffer == Pending(rows[..i], done, server)
      invariant AllFull(batches)
      invariant |buffer| < SAVE_EVERY
    {
      PendingStep(rows, i, done, server);
      var row := rows[i];
      if row.rowId in done {
        continue;
      }
      var out := EnrichOne(row.rowId, row.isbn, server);
      var rec := if out.Ok? then out.value else Short(row.rowId, CleanIsbn(row.isbn), Failed(out.error));
      buffer := buffer + [rec];
      if |buffer| >= SAVE_EVERY {
        FlattenSnoc(batches, buffer);
        batches := batches + [buffer];
        buffer := [];
      }
    }
    assert rows[..|rows|] == rows;
    // save_append returns at once for an empty buffer.
    if buffer != [] {
      FlattenSnoc(batches, buffer);
      batches := batches + [buffer];
    }
  }

  /** main: read the input, resume from the existing output, enrich. */
  method Collect(file: BooksFile, out: OutputFile, server: Server) returns (r: Result<seq<seq<Record>>, StartError>)
    ensures InputRows(file).Err? ==> r == Err(InputRows(file).error)
    ensures InputRows(file).Ok? ==> r.Ok?
    ensures r.Ok? ==> Flatten(r.value) == Pending(InputRows(file).value, DoneIds(out), server)
    ensures r.Ok? ==> Chunked(r.value)
  {
    var rows := InputRows(file);
    if rows.Err? {
      return Err(rows.error);
    }
    var batches := CollectRows(rows.value, DoneIds(out), server);
    return Ok(batches);
  }

  /** Every row not yet done gets exactly one record, under its row_id, and
      done rows get none. */
  lemma {:induction false} PendingOnePerRow(rows: seq<InputRow>, done: set<int>, server: Server)
    ensures |Pending(rows, done, server)| == |NotDone(rows, done)|
    ensures forall k :: 0 <= k < |Pending(rows, done, server)| ==>
      Pending(rows, done, server)[k].rowId == NotDone(rows, done)[k].rowId
    decreases |rows|
  {
    if rows != [] {
      PendingOnePerRow(rows[..|rows| - 1], done, server);
      var r := rows[|rows| - 1];
      if r.rowId !in done {
        EnrichStatus(r.rowId, r.isbn, server);
      }
    }
  }

  /** The rows whose row_id is not done, in order. */
  function NotDone(rows: seq<InputRow>, done: set<int>): (r: seq<InputRow>)
    ensures forall x :: x in r <==> x in rows && x.rowId !in done
    decreases |rows|
  {
    if rows == [] then []
    else
      var rest := NotDone(rows[..|rows| - 1], done);
      var x := rows[|rows| - 1];
      assert forall y :: y in rows <==> y in rows[..|rows| - 1] || y == x;
      if x.rowId in done then rest else rest + [x]
  }

  /** Resuming from an output that holds the records of a run leaves
      nothing to do. */
  lemma RerunAddsNothing(rows: seq<InputRow>, done: set<int>, server: Server)
    ensures var saved := Pending(rows, done, server);
      Pending(rows, done + set k | 0 <= k < |saved| :: saved[k].rowId, server) == []
  {
    var saved := Pending(rows, done, server);
    var all := done + set k | 0 <= k < |saved| :: saved[k].rowId;
    PendingOnePerRow(rows, done, server);
    forall i | 0 <= i < |rows|
      ensures rows[i].rowId in all
    {
      if rows[i].rowId !in done {
        var nd := NotDone(rows, done);
        assert rows[i] in nd;
        var k :| 0 <= k < |nd| && nd[k] == rows[i];
        assert saved[k].rowId == rows[i].rowId;
      }
    }
    NoPending(rows, all, server);
  }

  lemma {:induction false} NoPending(rows: seq<InputRow>, done: set<int>, server: Server)
    requires forall i :: 0 <= i < |rows| ==> rows[i].rowId in done
    ensures Pending(rows, done, server) == []
    decreases |rows|
  {
    if rows != [] {
      NoPending(rows[..|rows| - 1], done, server);
    }
  }
}
