# Book-finder enrichment pipeline, modelled in Dafny

This project models the batch record-linkage pipeline of a library
book-finder. The pipeline takes the library's inventory and runs these stages:

- **Koha OPAC scraper** (`KohaOpac`). It normalises every ISBN and keeps a
  best-of map with one row per ISBN, scored by status and payload. It re-visits
  only the ISBNs whose stored row is still worth retrying, and writes a
  checkpoint every five updates.
- **OpenAlex collector** (`OpenAlexCollector`). It normalises titles and scans
  the search candidates, stopping at an exact title match. Matches are
  classified as exact, high-confidence (similarity at least 0.92) or rejected.
  It rebuilds abstracts from their inverted index and keeps the ten
  best-scored concepts. Resume works by skipping the row ids already saved,
  and the buffer is flushed every five records.
- **Open Library collector** (`OpenLibraryCollector`). It has its own ISBN
  cleaner and a bounded retry loop with backoff. Each edition goes through a
  status decision tree, and a work description replaces the edition's
  description. Resume works the same way as in the OpenAlex collector.
- **Merge** (`MergeEngine`). The stage cleans ISBN columns and reduces each
  source table to one row per key: the first row for Koha, the best-flagged
  row for Open Library, and the most similar row for OpenAlex. It then
  left-joins the three tables onto the inventory.
- **Field fusion** (`FieldFusion`). It cleans text: mojibake repair, HTML tag
  removal, truncation at a table of contents, and rejection of placeholders.
  It then fuses the description and subjects by source precedence (Koha
  OPAC, then Open Library, then OpenAlex) and records which source won.
- **Catalog load** (`CatalogLoad`). It keeps and renames the ten catalogue
  columns and sanitises `row_id`, year and title. Each row is then upserted
  into the `books` table by `row_id`. The table is a `map<int, Book>` field
  of the class `CatalogStore`.

`Common` holds the string primitives the Python code relies on:
`strip`, `lower`, `split`/`join`, `replace`, `find` and `zfill`. It also
holds the generic best-of fold and the set of row ids read back from an
output file.

Everything that touches the outside world is a parameter, not a call:

- the browser page loads;
- the HTTP responses;
- the OpenAlex search results;
- `SequenceMatcher.ratio`;
- `html.unescape`;
- the parsed HTML texts.

Every claim below therefore holds for every behaviour of those services. A
file read is a datatype, with one case for each way the read can end.

Points where the code behaves differently from what its names or comments suggest:

- `fetch_json` never returns data with a code other than 200. So
  `enrich_one`'s `error_fetch_edition` branch cannot be taken. An edition
  fetch that returns without data yields `edition_not_found`, and an
  exception `fetch_json` does not catch propagates and gives `error:<Type>`
  (`OpenLibraryCollector.EnrichStatus`, `OpenLibraryCollector.EnrichEditionFound`).
- The mojibake table in `clean_text` consists of five three-character
  patterns. The third pattern ends in U+009D, not in the closing quote. It
  therefore does not swallow the prefix of the two dash patterns, and both
  dash repairs do take effect (`FieldFusion.DashRepairsFire`).
- The Koha `clean_isbn` is idempotent only when the only whitespace in its
  input is the space character. With a tab, for example, hyphen removal can
  expose whitespace that a second pass strips.
  `KohaOpac.CleanIsbnNotIdempotentWithTab` exhibits the case.
- The security-check loop in `scrape_one_isbn` gives up after its third
  retry without looking at the page loaded by that retry. At most three
  loads are ever inspected.
- The OpenAlex collector's `continue` paths skip the flush check, so its
  buffer can grow past five. A batch flushed inside the loop holds at least
  five records and ends with a record whose path does check the buffer. It
  is saved at the first such point (`OpenAlexCollector.CollectRows`). The Open Library collector checks after
  every row, so its batches hold exactly twenty records, except the last one.

## Model

| member | source | states |
|---|---|---|
| Common.Compact | ingestion/opac_data_scraper.py:22 | the compacted cell has no hyphen and no space; the Open Library cleaner (ingestion/openlibrary_data_collector.py line 29) applies the same step |
| Common.CompactChars | ingestion/opac_data_scraper.py:22 | compaction introduces no character that was not in the cell |
| KohaOpac.CleanIsbn | ingestion/opac_data_scraper.py:19-28 | the key is missing exactly when the cell is missing or nothing is left after stripping and separator removal |
| KohaOpac.CleanIsbnShape | ingestion/opac_data_scraper.py:19-28 | a key is the upper-cased compacted input, left-padded with '0' exactly when that is all digits and shorter than 10; it has no hyphen, space or lower-case letter, and an all-digit key has at least 10 characters |
| KohaOpac.CleanIsbnNoSpace | ingestion/opac_data_scraper.py:19-28 | when the only whitespace in the input is ' ', the key contains no whitespace at all |
| KohaOpac.CleanIsbnIdempotent | ingestion/opac_data_scraper.py:19-28 | cleaning a key again changes nothing, for inputs whose only whitespace is ' ' |
| KohaOpac.CleanIsbnNotIdempotentWithTab | ingestion/opac_data_scraper.py:19-28 | "1\t-" cleans to "1\t", which cleans again to "0000000001": without that restriction the cleaner is not idempotent |
| KohaOpac.CleanedKeys | ingestion/opac_data_scraper.py:241-244 | the listed keys are exactly the cleaned ISBNs of the cells the cleaner accepts |
| KohaOpac.Worklist | ingestion/opac_data_scraper.py:234-244 | a missing input file and a missing ISBN column are the two start errors; otherwise the list is duplicate-free and contains exactly the keys of the valid ISBN cells |
| Common.DistinctFirstOrder | ingestion/opac_data_scraper.py:243 | drop_duplicates keeps first occurrences in order: of two kept keys, the earlier one occurs in the input before any occurrence of the later one |
| KohaOpac.BlockPageInContext | ingestion/opac_data_scraper.py:31-37 | a page that shows a block keyword still counts as blocked inside any surrounding text |
| KohaOpac.IsBlockPage | ingestion/opac_data_scraper.py:31-37 | every block keyword has at least seven characters, so a shorter page never counts as blocked |
| KohaOpac.PassBlockGate | ingestion/opac_data_scraper.py:174-189 | the gate passes exactly when one of the first three loads is unblocked; it stops at the first unblocked load, and a failure costs four navigations |
| KohaOpac.RowScore | ingestion/opac_data_scraper.py:66-91 | -999 exactly for a missing row; otherwise between 0 and 90; any text gives at least 20, no text at most 50, and 90 exactly for ok with both subjects and summary |
| KohaOpac.RowScoreTable | ingestion/opac_data_scraper.py:66-91 | the score is the status base (ok 50, found_but_empty 30, timeout 10, security_check_failed 5, no_results 0, any other status 8) plus 20 for each of subjects and summary that holds text |
| KohaOpac.OkWithTextOutranksEmpty | ingestion/opac_data_scraper.py:66-91 | an ok row carrying some text outscores every row without text |
| KohaOpac.ScoreIgnoresKey | ingestion/opac_data_scraper.py:66-91 | the score does not depend on the ISBN or the detail URL |
| KohaOpac.PickBetterRow | ingestion/opac_data_scraper.py:94-99 | the result is one of the two rows; a missing side yields the other; the new row wins only with a strictly higher score, so ties keep the old row and the result scores the maximum |
| KohaOpac.ShouldRetry | ingestion/opac_data_scraper.py:143-163 | retry a missing row, a timeout, a failed security check, an empty detail page and every error status; never retry no_results; retry ok only without subjects and summary; retry nothing else |
| KohaOpac.NonBlank | ingestion/opac_data_scraper.py:44-47 | the kept texts are stripped and non-empty, and none are kept exactly when every text is blank |
| KohaOpac.NonBlankOne | ingestion/opac_data_scraper.py:44-47 | one text is kept, stripped, exactly when it is not blank |
| KohaOpac.NonBlankAppend | ingestion/opac_data_scraper.py:44-47 | the kept texts of two lists in a row are those of the first followed by those of the second, so the page order is kept |
| KohaOpac.SubjectsField | ingestion/opac_data_scraper.py:40-59 | the subjects field is absent exactly when no subject text is non-blank; otherwise it is the non-blank texts, stripped, joined with "; " |
| KohaOpac.SummaryField | ingestion/opac_data_scraper.py:40-59 | the summary is absent exactly when there is no summary element; otherwise it is the non-blank parts, stripped, joined with " ", and non-empty exactly when one of its parts has text |
| KohaOpac.RowOf | ingestion/opac_data_scraper.py:166-227 | a visit's row carries its ISBN; only a detail page yields subjects or a summary, and then exactly when the page has them |
| KohaOpac.RetryFollowsOutcome | ingestion/opac_data_scraper.py:143-227 | a freshly scraped row is settled (not retried) exactly when the search found nothing or the detail page had text |
| KohaOpac.PickIsKeep | ingestion/opac_data_scraper.py:94-99 | offering a row to pick_better_row is the generic keep-the-best step of the checkpoint fold |
| KohaOpac.Entries | ingestion/opac_data_scraper.py:113-123 | each checkpoint row is paired with its cleaned ISBN and stored with its ISBN field overwritten by that key |
| KohaOpac.LoadExistingBest | ingestion/opac_data_scraper.py:102-123 | the loop over the checkpoint builds the best-of map, which is empty when there is no checkpoint or no ISBN column; every entry is stored under its own ISBN |
| KohaOpac.BestOfKeys | ingestion/opac_data_scraper.py:113-123 | the loaded map has an entry exactly for each ISBN some checkpoint row cleans to |
| KohaOpac.BestOfIsFirstMaximum | ingestion/opac_data_scraper.py:113-123 | the row kept for an ISBN is the first of its highest-scoring rows in file order |
| KohaOpac.Enricher.constructor | ingestion/opac_data_scraper.py:247-251 | the run starts from the loaded map, with no pending updates and no checkpoints |
| KohaOpac.Enricher.Visit | ingestion/opac_data_scraper.py:266-290 | a settled ISBN is skipped; otherwise its entry becomes the better of old and scraped, and the fifth update writes a checkpoint and resets the counter |
| KohaOpac.Enricher.Run | ingestion/opac_data_scraper.py:266-292 | the final map is the fold of the visits; one checkpoint is written per five updates and the final write is the map itself |
| KohaOpac.RunMapKeys | ingestion/opac_data_scraper.py:266-292 | after a run, the map holds exactly the loaded ISBNs and the visited ones |
| KohaOpac.StepNeverDowngrades | ingestion/opac_data_scraper.py:267-282 | one visit never lowers the score of any stored row |
| KohaOpac.RunNeverDowngrades | ingestion/opac_data_scraper.py:266-292 | a whole run never lowers the score of any stored row |
| KohaOpac.RunKeepsSettled | ingestion/opac_data_scraper.py:266-292 | a row that needs no retry survives the run unchanged |
| KohaOpac.RunRowOrigin | ingestion/opac_data_scraper.py:266-292 | a visited ISBN ends with either its scraped row or its loaded row, and a new ISBN with its scraped row |
| KohaOpac.RunMapUnvisited | ingestion/opac_data_scraper.py:266-292 | a loaded ISBN that is not in the work list keeps its row |
| KohaOpac.RunMapKeyed | ingestion/opac_data_scraper.py:266-292 | every stored row keeps carrying its own ISBN |
| OpenAlexCollector.ReplaceEach | ingestion/openalex_data_collector.py:35-36 | the chain of replace calls keeps the length |
| OpenAlexCollector.ReplaceEachSpec | ingestion/openalex_data_collector.py:35-36 | after the chain, each position holds a space if its character is listed, and is unchanged otherwise |
| OpenAlexCollector.PunctuationToSpace | ingestion/openalex_data_collector.py:35-36 | each of the fifteen punctuation characters becomes a space and every other character is kept |
| OpenAlexCollector.ReplaceEachIsOnePass | ingestion/openalex_data_collector.py:35-36 | the fifteen chained replacements equal one pass over the string |
| OpenAlexCollector.NormTitle | ingestion/openalex_data_collector.py:28-39 | a missing title has no key, and a key is never empty |
| OpenAlexCollector.NormTitleShape | ingestion/openalex_data_collector.py:28-39 | a key has no upper-case letter and no title punctuation, single spaces only, and no spaces at its ends |
| OpenAlexCollector.NormTitleIdempotent | ingestion/openalex_data_collector.py:28-39 | normalising a key again changes nothing |
| OpenAlexCollector.FixedPoint | ingestion/openalex_data_collector.py:28-39 | every string of that shape is its own key |
| OpenAlexCollector.NormTitleBlank | ingestion/openalex_data_collector.py:28-39 | a title has no key exactly when it consists only of whitespace and punctuation |
| OpenAlexCollector.TitleSimilarity | ingestion/openalex_data_collector.py:42-45 | 0.0 when either side is missing or empty; given a ratio in [0,1] that reaches 1 only on equal strings, the similarity stays in [0,1] and reaches 1 only for equal keys |
| OpenAlexCollector.PlaceAllAt | ingestion/openalex_data_collector.py:61-62 | placing a word writes it at each of its positions and leaves every other position alone |
| OpenAlexCollector.PlacedLastWriter | ingestion/openalex_data_collector.py:57-62 | a position is filled exactly when some list-valued entry names it, and holds the word of the last such entry |
| OpenAlexCollector.WordsBelowContents | ingestion/openalex_data_collector.py:68-69 | the words read off below a bound are exactly the non-empty words placed below it |
| OpenAlexCollector.AbstractText | ingestion/openalex_data_collector.py:48-70 | a rebuilt abstract is never empty and has no surrounding whitespace |
| OpenAlexCollector.TextUpTo | ingestion/openalex_data_collector.py:68-70 | the text joined up to the largest position is never empty and has no surrounding whitespace |
| OpenAlexCollector.PlacePositions | ingestion/openalex_data_collector.py:57-62 | the loop builds the last-writer position map |
| OpenAlexCollector.MaxKey | ingestion/openalex_data_collector.py:67 | the loop finds the largest position |
| OpenAlexCollector.WordsInOrder | ingestion/openalex_data_collector.py:68-69 | the loop reads the non-empty words in increasing position order |
| OpenAlexCollector.ReconstructAbstract | ingestion/openalex_data_collector.py:48-70 | the procedure returns the abstract of the specification: nothing for a non-dict or an index without positions, else the words in position order |
| OpenAlexCollector.InsertByScore | ingestion/openalex_data_collector.py:89 | inserting a concept adds exactly that concept |
| OpenAlexCollector.SortByScore | ingestion/openalex_data_collector.py:89 | sorting permutes the concepts |
| OpenAlexCollector.SortByScoreSorted | ingestion/openalex_data_collector.py:89 | the sorted list has non-increasing scores, a missing score counting as 0 |
| OpenAlexCollector.SortByScoreStable | ingestion/openalex_data_collector.py:89 | concepts with equal scores keep their original order |
| OpenAlexCollector.TopConceptsAreBest | ingestion/openalex_data_collector.py:89 | the top list has min(10, n) concepts in score order, taken from the input, and none left out scores higher |
| OpenAlexCollector.TopConcepts | ingestion/openalex_data_collector.py:89 | the slice holds min(10, n) concepts, all taken from the input |
| OpenAlexCollector.NamesOf | ingestion/openalex_data_collector.py:90 | only non-empty display names of the given concepts are kept |
| OpenAlexCollector.NamesOfInOrder | ingestion/openalex_data_collector.py:90 | the names follow the concepts' order: a concept gives its name when it is truthy and nothing otherwise, and the names of a concatenation are the concatenation of the names |
| OpenAlexCollector.ExtractConcepts | ingestion/openalex_data_collector.py:84-91 | no tags for a missing or empty list; tags exactly when some top concept has a name, and then they are the top concepts' names joined with "; " |
| OpenAlexCollector.ScanCandidates | ingestion/openalex_data_collector.py:183-200 | the candidate loop computes the scan of the specification |
| OpenAlexCollector.Scan | ingestion/openalex_data_collector.py:183-200 | the chosen work is the starting one or a named candidate; when nothing is chosen the starting similarity comes back unchanged |
| OpenAlexCollector.ScanFindsFirstExact | ingestion/openalex_data_collector.py:186-200 | the first candidate whose key equals the query key is chosen with similarity 1.0 |
| OpenAlexCollector.ScanKeepsFirstMostSimilar | ingestion/openalex_data_collector.py:186-200 | without an exact match, no named candidate beats the final similarity, and the chosen one is the first that reached it |
| OpenAlexCollector.ScanNoneIffUnnamed | ingestion/openalex_data_collector.py:183-217 | no candidate is chosen exactly when none has a display name |
| OpenAlexCollector.ScanExactIffTitleMatch | ingestion/openalex_data_collector.py:183-219 | the scan ends at similarity 1.0 exactly when some candidate's key equals the query key |
| OpenAlexCollector.SimilarityBelowOne | ingestion/openalex_data_collector.py:191-197 | a named candidate whose key differs from the query scores below 1.0 |
| OpenAlexCollector.Classify | ingestion/openalex_data_collector.py:219-227 | exact exactly at 1.0; accepted exactly at 1.0 or at least 0.92; otherwise rejected |
| OpenAlexCollector.Blank | ingestion/openalex_data_collector.py:147-160 | a record without a match carries the row id, the raw title and the status, and nothing else |
| OpenAlexCollector.ProcessRow | ingestion/openalex_data_collector.py:141-258 | one row yields the record of the specification, error status included |
| OpenAlexCollector.RecordFor | ingestion/openalex_data_collector.py:141-258 | every record carries its row's row_id and title |
| OpenAlexCollector.RecordForFields | ingestion/openalex_data_collector.py:141-258 | status empty_title exactly when the title has no key; a similarity exactly for classified rows; a rejected row has no id, doi, tags or abstract and scores below 0.92; an accepted row scores 1.0 or at least 0.92; every classified row keeps the best candidate's similarity, title, type, year and citation count for audit, and an accepted row also carries its id, doi, concept tags and reconstructed abstract |
| OpenAlexCollector.ExactStatusIffTitleMatch | ingestion/openalex_data_collector.py:163-242 | ok_exact_title exactly when the title has a key, the search succeeds and some candidate's key equals it |
| OpenAlexCollector.InputRows | ingestion/openalex_data_collector.py:118-128 | a missing file and a missing Title column are the start errors; otherwise one row per line, with the row index as row_id when the column is absent |
| OpenAlexCollector.CollectRows | ingestion/openalex_data_collector.py:133-269 | the saved batches concatenate to one record per row not already done, in order; no batch is empty; every batch but the last holds at least five records and ends with a record whose path checks the buffer; and no batch, the last included, has a shorter prefix that could have been saved |
| OpenAlexCollector.PendingStep | ingestion/openalex_data_collector.py:136-139 | each row adds its record unless its id is already done |
| OpenAlexCollector.Collect | ingestion/openalex_data_collector.py:117-269 | start errors propagate unchanged; otherwise the batches hold the records of the rows whose ids are not in the output file |
| OpenAlexCollector.PendingRowIds | ingestion/openalex_data_collector.py:136-139 | a record for an id is written exactly when some input row has that id and it was not done |
| OpenAlexCollector.PendingWithRowIds | ingestion/openalex_data_collector.py:136-139 | the same, for any per-row record function that keeps the row id |
| OpenAlexCollector.RerunAddsNothing | ingestion/openalex_data_collector.py:130-139 | a rerun after a complete run writes no records |
| OpenAlexCollector.NoPending | ingestion/openalex_data_collector.py:136-139 | when every row id is done, nothing is written |
| OpenLibraryCollector.CleanIsbn | ingestion/openlibrary_data_collector.py:26-30 | missing for a missing cell, an empty result or "nan" in any case; otherwise the compacted string, neither upper-cased nor padded |
| OpenLibraryCollector.CleanIsbnKeeps | ingestion/openlibrary_data_collector.py:26-30 | a key contains exactly the characters of the stripped input other than '-' and ' ' |
| OpenLibraryCollector.CleanIsbnIdempotent | ingestion/openlibrary_data_collector.py:26-30 | cleaning a key again changes nothing, for inputs whose only whitespace is ' ' |
| OpenLibraryCollector.ParseDescription | ingestion/openlibrary_data_collector.py:63-72 | a string, or a dict's value, gives that text stripped, and nothing when it is blank; any other shape gives nothing |
| OpenLibraryCollector.Backoff | ingestion/openlibrary_data_collector.py:56 | the wait after attempt k is min(2^k, 20): at most both, equal to one of them, and exactly 2^k while that is below 20 |
| OpenLibraryCollector.FetchJson | ingestion/openlibrary_data_collector.py:33-60 | the retry loop returns the outcome and waits of the specification |
| OpenLibraryCollector.FetchFrom | ingestion/openlibrary_data_collector.py:33-60 | data comes only with code 200, and the code is 200, 404 or error |
| OpenLibraryCollector.FetchRetryStep | ingestion/openlibrary_data_collector.py:38-58 | a retried attempt waits its backoff and then behaves as the next attempt |
| OpenLibraryCollector.FetchFromShape | ingestion/openlibrary_data_collector.py:33-60 | data comes only with 200; the code is 200, 404 or error; each wait follows a retried attempt with its backoff; error comes only after every attempt; any other outcome is the answer of the attempt right after the waits |
| OpenLibraryCollector.FetchFromFirstAnswer | ingestion/openlibrary_data_collector.py:33-60 | when attempt k is the first one not retried, the result is (json, 200) for a 200, (None, 404) for a 404 or the raised exception, after the backoffs of the earlier attempts |
| OpenLibraryCollector.AllAttemptsFail | ingestion/openlibrary_data_collector.py:33-60 | five failed attempts give (None, "error") after waits of 2, 4, 8, 16 and 20 seconds |
| OpenLibraryCollector.Short | ingestion/openlibrary_data_collector.py:84-92 | a short record carries only the row id, the ISBN and the status |
| OpenLibraryCollector.Present | ingestion/openlibrary_data_collector.py:128 | only non-empty subjects are joined, and every truthy subject is among them |
| OpenLibraryCollector.PresentOne | ingestion/openlibrary_data_collector.py:128 | one subject is kept exactly when it is truthy |
| OpenLibraryCollector.PresentAppend | ingestion/openlibrary_data_collector.py:128 | the kept subjects of two lists in a row are those of the first followed by those of the second, so the list order is kept |
| OpenLibraryCollector.GetAuthorName | ingestion/openlibrary_data_collector.py:75-79 | the author lookup computes the specification's name: the name from a 200 response with data, nothing otherwise, and an exception propagates |
| OpenLibraryCollector.AuthorNamesErrSticks | ingestion/openlibrary_data_collector.py:101-106 | an exception while fetching one author ends the whole author list with that exception |
| OpenLibraryCollector.CollectAuthorNames | ingestion/openlibrary_data_collector.py:101-107 | the author loop returns AuthorNames, whose per-reference and concatenation laws are AuthorNamesOne and AuthorNamesAppend |
| OpenLibraryCollector.AuthorNamesOne | ingestion/openlibrary_data_collector.py:102-106 | a reference that is a dict with a truthy key contributes its author's name when that is truthy, and the fetch's exception when it raises; any other reference contributes nothing |
| OpenLibraryCollector.AuthorNamesAppend | ingestion/openlibrary_data_collector.py:101-107 | over two lists in a row the first list's exception wins, then the second's; otherwise the names of the first list are followed by those of the second |
| OpenLibraryCollector.AuthorNames | ingestion/openlibrary_data_collector.py:101-107 | at most one name per author reference; an exception needs at least one reference to fetch |
| OpenLibraryCollector.AuthorNamesNonEmpty | ingestion/openlibrary_data_collector.py:101-107 | the author list has at most one name per reference, and every name is non-empty (no falsy name is appended) |
| OpenLibraryCollector.LookUpWork | ingestion/openlibrary_data_collector.py:111-128 | the work lookup returns FromWork, whose description and subjects rules are stated by WorkDescriptionWins |
| OpenLibraryCollector.FromWork | ingestion/openlibrary_data_collector.py:109-128 | without a work key the edition's description is kept and there are no subjects; subjects or a replaced description come only with a work key |
| OpenLibraryCollector.WorkDescriptionWins | ingestion/openlibrary_data_collector.py:109-128 | a non-blank work description from a 200 response replaces the edition's description, which is kept otherwise; subjects are present exactly when such a work has a non-empty subjects list, and are then its truthy entries joined by "; " |
| OpenLibraryCollector.EnrichOne | ingestion/openlibrary_data_collector.py:83-142 | one ISBN is enriched as in the specification |
| OpenLibraryCollector.Enrich | ingestion/openlibrary_data_collector.py:83-142 | the record carries the row's id; an ISBN that does not clean gives invalid_isbn with no ISBN and no request |
| OpenLibraryCollector.EnrichStatus | ingestion/openlibrary_data_collector.py:83-142 | invalid_isbn with no ISBN exactly when the cleaner rejects the cell; the status is never error_fetch_edition; only ok carries title, authors and description |
| OpenLibraryCollector.EnrichEditionFound | ingestion/openlibrary_data_collector.py:83-142 | a record is ok exactly when the edition was obtained; it then carries the edition's title, publish date, page count and first publisher, the author names joined by "; ", the work key and the description and subjects settled by the work; an authors value that cannot be iterated raises TypeError; an exception from the edition, an author or the work propagates; an edition not obtained gives edition_not_found |
| OpenLibraryCollector.InputRows | ingestion/openlibrary_data_collector.py:173-183 | a missing file and a missing ISBN column are the start errors; otherwise one row per line, with the row index as row_id when the column is absent |
| OpenLibraryCollector.PendingStep | ingestion/openlibrary_data_collector.py:191-208 | each row adds its record unless its id is already done |
| OpenLibraryCollector.CollectRows | ingestion/openlibrary_data_collector.py:188-217 | the saved batches concatenate to one record per row not already done, in order, and every batch but the last holds exactly twenty |
| OpenLibraryCollector.Collect | ingestion/openlibrary_data_collector.py:172-218 | start errors propagate unchanged; otherwise the batches hold the records of the rows whose ids are not in the output file |
| OpenLibraryCollector.PendingOnePerRow | ingestion/openlibrary_data_collector.py:191-208 | exactly one record per row not done, carrying that row's id, in order |
| OpenLibraryCollector.NotDone | ingestion/openlibrary_data_collector.py:191-194 | the rows processed are exactly those whose id is not done |
| OpenLibraryCollector.RerunAddsNothing | ingestion/openlibrary_data_collector.py:185-194 | a rerun after a complete run writes no records |
| OpenLibraryCollector.NoPending | ingestion/openlibrary_data_collector.py:191-194 | when every row id is done, nothing is written |
| MergeEngine.CleanIsbnCell | build_final_dataset.py:24-25 | the cell becomes null exactly when it is missing or strips to a placeholder; otherwise it is the stripped cell, non-empty |
| MergeEngine.CleanIsbnCellIdempotent | build_final_dataset.py:21-26 | cleaning a cleaned cell changes nothing |
| MergeEngine.CleanIsbnCellKeepsHyphens | build_final_dataset.py:21-26 | hyphens survive: this cleaner differs from both collectors' ISBN keys |
| MergeEngine.CleanIsbnCol | build_final_dataset.py:21-26 | without the column the frame is unchanged; otherwise only that column is cleaned, row by row |
| MergeEngine.CleanIsbnColIdempotent | build_final_dataset.py:21-26 | cleaning a column twice is the same as once |
| MergeEngine.NormTitle | build_final_dataset.py:58-65 | a missing title gives the empty key |
| MergeEngine.NormTitleAgreesWithCollector | build_final_dataset.py:58-65 | the merge key equals the collector's key, with "" standing for none, although the merge lower-cases before stripping |
| MergeEngine.NormTitleKey | build_final_dataset.py:58-65 | the merge key is idempotent, lower-case, free of title punctuation, single-spaced and trimmed |
| MergeEngine.FirstPerKeySpec | build_final_dataset.py:89 | keep-first deduplication leaves distinct keys, the same key set, and each survivor is the first row of its key |
| MergeEngine.FirstPerKey | build_final_dataset.py:89 | keep-first deduplication never adds rows, and a non-empty table keeps its first row in first place |
| MergeEngine.FirstBestFound | build_final_dataset.py:134-136 | a best row exists for a key exactly when some row has that key |
| MergeEngine.FirstBestIsFirstMaximum | build_final_dataset.py:134-136 | the best row is the first row of its key with the maximal rank, a missing rank ranking last |
| MergeEngine.BestPerKeySpec | build_final_dataset.py:134-136 | best-per-key deduplication leaves distinct keys, the same key set, and each survivor is its key's first maximum |
| MergeEngine.BestPerKey | build_final_dataset.py:134-136 | best-per-key deduplication never adds rows and leaves at least one row of a non-empty table |
| MergeEngine.MatchesDistinct | build_final_dataset.py:91 | on a table with distinct keys, a key matches at most one row, and one exactly when present |
| MergeEngine.LeftJoinDistinct | build_final_dataset.py:91 | a left join onto distinct keys keeps every left row once, in order, paired with its lookup |
| MergeEngine.LeftJoin | build_final_dataset.py:91 | the left join is empty exactly when the left table is |
| MergeEngine.LookupSpec | build_final_dataset.py:104 | on distinct keys, the lookup finds a row exactly when the key is present, and the row carries that key |
| MergeEngine.OlFlags | build_final_dataset.py:39-45 | the four flags pack into a number below 16 |
| MergeEngine.OlFlagsLexicographic | build_final_dataset.py:47-50 | the packed flags order rows by ok, then description, then subjects, then title |
| MergeEngine.DedupeOpenLibraryBest | build_final_dataset.py:29-55 | the columns are unchanged, and a table without ISBN is returned as is |
| MergeEngine.DedupeKeepsBestFlags | build_final_dataset.py:29-55 | one row per cleaned ISBN, for the same ISBN set; each is the first of its ISBN's rows with the best flags |
| MergeEngine.OlNameInjective | build_final_dataset.py:102 | the ol_ renaming never merges two columns |
| MergeEngine.RenameOl | build_final_dataset.py:102 | each column reappears under its new name with its value, and no other column appears |
| MergeEngine.OlBestDistinct | build_final_dataset.py:98-102 | the reduced Open Library table has one row per ISBN on either path |
| MergeEngine.OlBest | build_final_dataset.py:98-102 | the reduced Open Library table has no more rows than the file and at least one when the file has rows |
| MergeEngine.OaBestSpec | build_final_dataset.py:123-136 | one row per title key, for the same key set; the most similar row when a similarity column exists, else the first |
| MergeEngine.OaBest | build_final_dataset.py:123-136 | the reduced OpenAlex table has no more rows than the file and at least one when the file has rows |
| MergeEngine.BuildFinalDataset | build_final_dataset.py:69-147 | the missing files are reported in checking order; the build succeeds exactly when all files exist and the required columns are present; the result has one row per base row |
| MergeEngine.FinalRows | build_final_dataset.py:84-139 | each output row is the cleaned base row with its Koha, Open Library and OpenAlex lookups |
| MergeEngine.FinalKohaMatch | build_final_dataset.py:86-91 | a base row gets Koha data exactly when some Koha row has its ISBN, and then from the first such row |
| MergeEngine.FinalOpenAlexMatch | build_final_dataset.py:111-139 | a base row gets OpenAlex data exactly when some OpenAlex row has its title key, and then the most similar one |
| FieldFusion.BreakTagLength | transformation/final_dataset_transformation.py:23 | a matched break tag runs from '<' to '>' and is at least four characters long |
| FieldFusion.BreakTagLengthSpec | transformation/final_dataset_transformation.py:23 | a match is a prefix of the form <br, any whitespace, an optional '/', then '>' (either case of b and r), and every prefix of that form is the match |
| FieldFusion.TagLength | transformation/final_dataset_transformation.py:24 | a matched tag runs from '<' to the first '>' and is at least three characters long; an unmatched '<' has no '>' after it |
| FieldFusion.SubBreaks | transformation/final_dataset_transformation.py:23 | break replacement introduces only spaces, and text without '<' is unchanged |
| FieldFusion.BreaksAtBreak | transformation/final_dataset_transformation.py:23 | a break tag becomes one space, whatever follows it |
| FieldFusion.SubBreaksPieces | transformation/final_dataset_transformation.py:23 | on text made of plain pieces without '<' and break tags, every break tag becomes one space and the plain pieces stay, in order |
| FieldFusion.SubBreaksPlainStep | transformation/final_dataset_transformation.py:23 | a character other than '<' passes break replacement unchanged |
| FieldFusion.SubBreaksPlainPrefix | transformation/final_dataset_transformation.py:23 | a leading part without '<' passes through break replacement unchanged |
| FieldFusion.BreaksMissTag | transformation/final_dataset_transformation.py:23 | where no break matches at a tag with no '<' after its first character, that whole tag is kept |
| FieldFusion.BreaksAtTag | transformation/final_dataset_transformation.py:23 | at a tag with no '<' after its first character, break replacement either turns exactly that tag into a space or keeps it, whatever follows |
| FieldFusion.SubTags | transformation/final_dataset_transformation.py:24 | tag replacement introduces only spaces, and text without '<' is unchanged |
| FieldFusion.TagLengthSpec | transformation/final_dataset_transformation.py:24 | a match is a prefix from '<' to the first '>' with at least one character between, and every prefix of that form is the match |
| FieldFusion.SubTagsPlainStep | transformation/final_dataset_transformation.py:24 | a character other than '<' passes tag replacement unchanged |
| FieldFusion.SubTagsPlainPrefix | transformation/final_dataset_transformation.py:24 | a leading part without '<' passes through tag replacement unchanged |
| FieldFusion.TagsAtTag | transformation/final_dataset_transformation.py:24 | a tag becomes one space, whatever follows it |
| FieldFusion.SubTagsPieces | transformation/final_dataset_transformation.py:24 | on text made of plain pieces without '<' and tags, every tag becomes one space and the plain pieces stay, in order |
| FieldFusion.TagAmidPlain | transformation/final_dataset_transformation.py:23-24 | a tag with no '<' after its first character, followed by text without '<', becomes one space under both substitutions |
| FieldFusion.OneTagBecomesSpace | transformation/final_dataset_transformation.py:23-24 | a break tag or other tag between two texts without '<' becomes one space and both texts stay |
| FieldFusion.TagsBecomeSpaces | transformation/final_dataset_transformation.py:23-24 | the two substitutions in a row turn every tag of a text made of plain pieces without '<' and tags with no '<' after their first character into one space, break tags included, and keep the plain pieces in order |
| FieldFusion.SubTagsRemovesTags | transformation/final_dataset_transformation.py:24 | no complete tag is left after replacement |
| FieldFusion.StripHtml | transformation/final_dataset_transformation.py:21-26 | the result has single spaces only and no surrounding whitespace |
| FieldFusion.StripHtmlPlain | transformation/final_dataset_transformation.py:21-26 | when the unescaped text has no '<', only its whitespace is collapsed |
| FieldFusion.StripHtmlKeeps | transformation/final_dataset_transformation.py:21-26 | single-spaced text without '<' that unescaping leaves alone comes through unchanged |
| FieldFusion.StripHtmlOneTag | transformation/final_dataset_transformation.py:21-26 | one tag between two texts without '<' leaves the two texts joined by a space, whitespace then collapsed |
| FieldFusion.StripHtmlPieces | transformation/final_dataset_transformation.py:21-26 | when the unescaped text is made of plain pieces without '<' and tags with no '<' after their first character, the result is that text with every tag replaced by one space, whitespace then collapsed |
| FieldFusion.RemoveTocNoise | transformation/final_dataset_transformation.py:29-37 | truncation never lengthens the text |
| FieldFusion.RemoveTocNoiseSpec | transformation/final_dataset_transformation.py:29-37 | text without either marker is unchanged; with "table of contents" the text is cut before its first occurrence and stripped, wherever "contents:" stands; with only "contents:" it is cut before the first "contents:"; the marker that cut no longer occurs |
| FieldFusion.CutBeforeFirst | transformation/final_dataset_transformation.py:33-36 | cutting before the first occurrence leaves no occurrence |
| FieldFusion.CollapsedPrefix | transformation/final_dataset_transformation.py:36 | a stripped prefix of cleaned text is still single-spaced and trimmed |
| FieldFusion.ReplaceAllKeepsAbsent | transformation/final_dataset_transformation.py:49-55 | a replacement by a character outside a pattern never creates that pattern |
| FieldFusion.ReplaceAllRemoves | transformation/final_dataset_transformation.py:49-55 | after the replacement, the replaced pattern no longer occurs |
| FieldFusion.FixMojibakeComplete | transformation/final_dataset_transformation.py:49-55 | none of the five mojibake patterns survives the repair |
| FieldFusion.FixMojibake | transformation/final_dataset_transformation.py:49-55 | a text without U+00E2 passes unchanged, and the repair never lengthens a text |
| Common.ReplaceAllBounds | transformation/final_dataset_transformation.py:49-55 | a text without the first character of the pattern is unchanged, and a replacement no longer than the pattern never lengthens the text |
| FieldFusion.DashRepairsFire | transformation/final_dataset_transformation.py:53-54 | the em-dash and en-dash patterns both become "-", so the later replacements do take effect |
| FieldFusion.CleanTextShape | transformation/final_dataset_transformation.py:40-66 | missing or blank input gives nothing; otherwise, with t the stripped cell after mojibake repair, strip_html and remove_toc_noise, there is a result exactly when t is non-empty and no placeholder in any case, and the result is t; a result is non-empty, trimmed, single-spaced and not a placeholder |
| FieldFusion.CleanTextKeepsCleanText | transformation/final_dataset_transformation.py:40-66 | text that is already clean (trimmed, single-spaced, no '<', no U+00E2, no table-of-contents key, no placeholder, unchanged by unescaping) is returned unchanged |
| FieldFusion.CleanText | transformation/final_dataset_transformation.py:40-66 | a missing or blank cell gives nothing; a result is non-empty and no placeholder in any case |
| FieldFusion.CleanTextRejectsPlaceholder | transformation/final_dataset_transformation.py:60-64 | a placeholder that cleaning leaves intact is rejected |
| FieldFusion.PickFirstWithSourceSpec | transformation/final_dataset_transformation.py:83-88 | the value and its label are present together, and missing exactly when every column cleans to nothing; otherwise they come from the first column that survives cleaning |
| FieldFusion.PickFirstWithSource | transformation/final_dataset_transformation.py:83-88 | the value and its label are present together; a value is non-empty and no placeholder; no columns give nothing |
| FieldFusion.Fuse | transformation/final_dataset_transformation.py:91-108 | one fused row per input row |
| FieldFusion.FuseRowSpec | transformation/final_dataset_transformation.py:94-108 | the row keeps its cells and index; each has_final flag is 1 exactly when its value is present; labels are koha_opac, openlibrary or openalex |
| FieldFusion.FuseRow | transformation/final_dataset_transformation.py:94-108 | the row keeps its cells and index, both flags are 0 or 1, and each value comes with its label |
| FieldFusion.FuseSpec | transformation/final_dataset_transformation.py:93-94 | row_id is the position, so the ids are unique |
| FieldFusion.DescriptionPrecedence | transformation/final_dataset_transformation.py:96-99 | the description comes from the Koha summary, else the Open Library description, else the OpenAlex abstract, with the matching label |
| FieldFusion.SubjectsPrecedence | transformation/final_dataset_transformation.py:102-105 | the subjects come from the Koha subjects, else the Open Library subjects, else the OpenAlex concept tags, with the matching label |
| CatalogLoad.Truncate | storage/db_books_load.py:42 | the float-to-int cast truncates toward zero |
| CatalogLoad.RowIdOf | storage/db_books_load.py:40-42 | a row id exists exactly when the cell parses as a number, and it is that number truncated toward zero |
| CatalogLoad.YearOf | storage/db_books_load.py:44-45 | the year is kept exactly when it parses as a number between 1800 and 2026; a kept year is that number truncated toward zero, in that range |
| CatalogLoad.TitleOf | storage/db_books_load.py:47-48 | every title is non-blank; a non-blank title is kept, and anything else becomes UNKNOWN_TITLE |
| CatalogLoad.Stage | storage/db_books_load.py:40-50 | a row is staged exactly when its row_id parses |
| CatalogLoad.StageSpec | storage/db_books_load.py:12-50 | each kept source column fills exactly one book field; the title is non-blank and the year is in range |
| CatalogLoad.FilterMapSpec | storage/db_books_load.py:41 | the staged rows are the images of the surviving rows, in file order, and no surviving row is lost |
| CatalogLoad.StageRowsSpec | storage/db_books_load.py:40-50 | the staged file keeps every row with a numeric row_id, in order, and nothing else |
| CatalogLoad.Prepare | storage/db_books_load.py:12-50 | selection fails exactly when some kept column is missing, and the error names all of them; otherwise the rows are those Stage keeps, in order |
| CatalogLoad.UpsertedKeys | storage/db_books_load.py:57-93 | after loading, the table holds the old ids plus every loaded id |
| CatalogLoad.Upserted | storage/db_books_load.py:57-93 | no id is ever removed, and the last row loaded is stored as given |
| CatalogLoad.LastRowWins | storage/db_books_load.py:57-93 | a loaded id maps to the last row in file order with that id, all nine columns overwritten |
| CatalogLoad.UntouchedIds | storage/db_books_load.py:57-93 | ids not in the file keep their old rows |
| CatalogLoad.ReloadIdempotent | storage/db_books_load.py:57-93 | loading the same rows again changes nothing |
| CatalogLoad.CatalogStore.constructor | storage/db_books_load.py:52-53 | the store starts from the existing table |
| CatalogLoad.CatalogStore.Upsert | storage/db_books_load.py:57-92 | inserting a new id adds it, and a conflict overwrites that id alone |
| CatalogLoad.CatalogStore.LoadRows | storage/db_books_load.py:75-93 | the loop leaves the table upserted with every row in order, and the counter equals the number of rows |
| CatalogLoad.CatalogStore.LoadFile | storage/db_books_load.py:10-99 | a missing kept column leaves the table untouched; otherwise the staged rows are upserted and counted |

## Left out

- Network, browser and files:
  - The Playwright browser, the interactive `input()` pause and `time.sleep` are parameters or are absent.
  - `requests`, `session.get`, `get_json` and `search_openalex_by_title` are parameters.
  - CSV reading and writing (`safe_read_csv`, `save_append`, `to_csv`) are not modelled. The model's values are rows, batches and maps.
  - `on_bad_lines="skip"` is not modelled.
  - The sqlite connection, the WAL pragma and the commit are not modelled.
  - The schema of the `books` table is defined in `storage/db_create.py`, which is not part of this model. A `row_id` primary key is assumed.
- Foreign libraries:
  - BeautifulSoup's parsing of the detail page is a parameter: the subject texts and the summary parts arrive already extracted.
  - `html.unescape` is a parameter.
  - `difflib.SequenceMatcher.ratio` is a parameter. It is assumed to lie in [0,1] and to reach 1 only on equal strings.
  - `round(best_sim, 4)` is not applied to the stored similarity.
- `print` output is not modelled: progress lines and the match counts after the merge.
- `write_best_map`: the sort by ISBN and the column fill of the checkpoint file are not modelled. A checkpoint is the map itself.
- Every `lower()`, `upper()` and `isdigit()` is modelled on ASCII only, and non-ASCII letters are left unchanged. Whitespace is Python's full `isspace` set.
- pandas cell handling:
  - `str()` of a cell and pandas' numeric type inference are not modelled; for example, an ISBN column read as floats and printed as "9780000000000.0" is out of scope.
  - Cells are strings or missing.
  - `pd.to_numeric` is modelled by a decimal parser (optional '-', digits, optional fraction). Exponents, "inf", a leading '+' and inner whitespace are not accepted.
- FieldFusion.SubBreaks: its own contract states only that spaces are introduced and that text without '<' is unchanged. That every break tag becomes one space is stated by BreaksAtBreak and SubBreaksPieces.
- FieldFusion.SubTags: its own contract states only that spaces are introduced and that text without '<' is unchanged. That every tag becomes one space is stated by TagsAtTag and SubTagsPieces.
- FieldFusion.StripHtml: its own contract states only that the result is collapsed and trimmed. The full result, for an unescaped text cut into plain pieces without '<' and whole tags, is stated by StripHtmlPieces.
- FieldFusion.TagsBecomeSpaces, FieldFusion.StripHtmlPieces: a tag with a '<' after its first character, such as `<x<br>`, is excluded on purpose. There the break substitution matches the inner `<br>` first, and `<x` is left in the text.
- MergeEngine.BuildFinalDataset: the output row is the base row plus its three looked-up rows. The flattened column layout, the `_x`/`_y` suffixes pandas adds to clashing column names and the dropped `title_key` column are not modelled.
- MergeEngine.DedupeOpenLibraryBest: only which row survives per ISBN is stated. The output order of the sorted table is not.
- MergeEngine.DedupeKeepsBestFlags, MergeEngine.BestPerKeySpec: ties are resolved in favour of the first row in file order, as with a stable sort.
- OpenAlexCollector.InputRows, OpenLibraryCollector.InputRows: row ids are taken as integers. Both loops convert `row_id` with `int(...)` outside their `try` (ingestion/openalex_data_collector.py:137, ingestion/openlibrary_data_collector.py:192). So a missing or non-numeric id aborts the whole run and loses the records still in the buffer, and a fractional id is truncated toward zero. Neither effect is modelled.
- FieldFusion.Fuse: on a file with no data rows the source raises ValueError when it unpacks `zip(*df.apply(...))` into two names (transformation/final_dataset_transformation.py:97-104) and writes nothing. The model returns an empty result instead.
- OpenLibraryCollector.Enrich: the edition's and the work's JSON fields other than `authors` are assumed to have the shape the code expects. An edition that is not a dict, or a `title` or `publish_date` that is not a string, is not modelled; in the source such values raise inside `enrich_one` or are written as they are.
- An exception raised inside a pure helper is not modelled. A failed visit, fetch or search is one of the outcomes given as input, and its status becomes `error:<name>`.
- OpenAlexCollector.NormTitle, FieldFusion.CleanText: the worked examples on concrete strings are not stated as lemmas. These are the Gatsby title key and the HTML sample that cleans to "A great book.". The sample is a case of laws stated in general form. StripHtmlPieces turns each of its four tags into a space, and RemoveTocNoiseSpec cuts it before "table of contents". These laws are not chained into a statement about the sample itself.
- `clean_text` is not idempotent: `html.unescape` can decode twice-escaped entities on a second pass, and a truncated prefix can still contain "contents:". No idempotence is stated for it.
