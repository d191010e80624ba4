# Banned books near me: the record pipeline, modelled in Dafny

The repository builds `books.json`, the list of banned or challenged books that a
static site shows, in three batch stages:

1. **Combine sources** (`combine_sources.py`): read the PEN America index
   (source A) and the Book Censorship Database (source B), reshape both into one
   record schema (`title`, `author`, `state`, `source`, `district`), abbreviate
   state names to USPS codes (source A only), keep only the "Banned/Removed"
   decisions of source B, look each record up in the Open Library search API
   (retrying once with a title-only free-text query when the first query finds
   nothing), and write the resolved records with their catalog key, first ISBN and
   availability to `combined_books.csv`.
2. **Filter for cover** (`filter_for_cover.py`): derive a cover-image URL for each
   row (ISBN first, catalog key second), keep it in `cover_url` when the cover
   service answers 200 and clear it otherwise, and make sure the header has a
   `cover_url` column.
3. **Books to JSON** (`books_to_json.py`): keep the rows with a cover, relabel
   `source`, `availability` and `district` for display, add a WorldCat search URL,
   and collect the rows in order.

The Dafny modules follow those files:

- `Wrappers` (wrappers.dfy): `Option`, for Python's `None`-or-value.
- `Csv` (csv.dfy): a CSV row as `csv.DictReader` yields it, a `map<string, string>`.
  It also holds `dict.get` and the truthiness of a cell.
- `Text` (text.dfy): Python's `str.replace`, with lemmas about it.
- `Selection` (selection.dfy): the shape shared by the source-B comprehension, the
  loop of `main` and the export loop. Each emits zero or one output per input, in
  input order (`FilterMap`). The cover loop instead rewrites its rows in place. `Kept` gives the surviving
  positions. `FilterMapInOrder` proves that the output follows them.
- `CombineSources` (combine_sources.dfy): the state table, the two loaders, the lookup
  and the main loop. The loop is a method proved equal to a `FilterMap`.
- `FilterForCover` (filter_for_cover.dfy): the URL rule and the per-row annotation.
  The loop is a method that rewrites an `array` of rows in place. The header update
  is a function on the field-name list.
- `BooksToJson` (books_to_json.dfy): the WorldCat URL, the three relabelling tables and
  the export loop. The loop is a method proved equal to a `FilterMap`.

The network is an input to the model. The search service is a function from the
request URL to a reply: an exception, or a status with a body that does or does not
parse. The cover service is a function from the URL to an exception or a status.
Making each service a function is an assumption of the model: the same URL always
gets the same reply within one run, and a second run sees the same answers. The
cached session stores only 200 replies, so the real services can vary. Exceptions,
timeouts and non-200 replies are fetched again, and a later fetch may succeed.
`requote_uri` is a fixed function of the URL, so the model keys the service by the
URL before escaping.

Behaviours of the code that are easy to misread, and what the model does:

- The broader query is sent when the first response is a non-empty JSON object whose
  `numFound`, read with a default of 0, is 0. It is not sent on an empty `docs`
  list. A response with `numFound > 0` but no `docs` is dropped without a retry.
- The catalog key is not only stripped of a leading prefix: every "/works/" in it
  is removed, anywhere in the string.
- An empty JSON object (`{}`) counts as no data, because `if data` is false for it.
  It neither triggers the retry nor yields a record.
- State names are abbreviated for source A only. Source-B states are copied verbatim.

## Model

| member | source | states |
|---|---|---|
| `CombineSources.StateCode` | combine_sources.py:8-22 | each known state name maps to a two-upper-case-letter code; every name in the table has at least four characters |
| `CombineSources.Abbreviate` | combine_sources.py:97 | a name in the table becomes its USPS code; any other name passes through unchanged |
| `CombineSources.AbbreviateIdempotent` | combine_sources.py:8-22 | abbreviating an already abbreviated state changes nothing, because no code is a table key |
| `CombineSources.NormalizeA` | combine_sources.py:94-100 | a row becomes a record with its title and author, its abbreviated state, source "A", and district from `Overseeing_Agency` or "" when the column is absent |
| `CombineSources.LoadSourceA` | combine_sources.py:90-102 | one record per row, in order: title, author, abbreviated state, source "A", district from `Overseeing_Agency` or "" when the column is absent |
| `CombineSources.SourceAStates` | combine_sources.py:95-99 | every source-A record is labelled "A"; its state is a USPS code, or the row's name verbatim when the table does not know it |
| `CombineSources.NormalizeB` | combine_sources.py:108-116 | a row yields a record exactly when its decision is "Banned/Removed"; state copied verbatim, source "B", district from `County` or "" |
| `CombineSources.LoadSourceB` | combine_sources.py:105-117 | never more records than rows |
| `CombineSources.SourceBSelectsRemovals` | combine_sources.py:105-117 | the output holds exactly the "Banned/Removed" rows, in input order, each the normalised form of its row, labelled "B" with its state copied verbatim |
| `CombineSources.SourceBLabels` | combine_sources.py:113 | every source-B record is labelled "B" |
| `CombineSources.AllBooks` | combine_sources.py:123 | the list is every source-A record, normalised from its row in order, followed by the normalised "Banned/Removed" rows of source B in order; source-A records are labelled "A" and the rest "B" |
| `CombineSources.FetchJson` | combine_sources.py:52-59 | the parsed body is returned only for a 200 reply whose body parses; exceptions and other statuses give `None` |
| `CombineSources.NeedsRetry` | combine_sources.py:66 | a retry needs a response that is present, non-empty and reports zero hits (`numFound` defaults to 0); a failed fetch or an empty object never retries; a present, non-empty response whose `numFound` is 0 or absent retries, and a non-zero one does not |
| `CombineSources.FinalResponse` | combine_sources.py:62-70 | the inspected response is the first reply or the free-text reply; it differs from the first only when the retry rule fires, and then it is the free-text reply |
| `CombineSources.HasHit` | combine_sources.py:72 | a response has a hit exactly when it is present and its `docs` list exists and is non-empty |
| `CombineSources.AvailabilityOf` | combine_sources.py:76-80 | the availability object's `status`, or "Unknown" when there is no status or the availability is not an object |
| `CombineSources.LookupBook` | combine_sources.py:42-85 | `None` exactly when the final response is missing, empty or has no docs; otherwise title, author and state kept, key from `docs[0]`, ISBN the first of `docs[0]`'s list or `None`, availability as above |
| `CombineSources.LookupUsesFirstHitOnly` | combine_sources.py:72-80 | two responses with the same first hit give the same lookup: later docs never matter |
| `CombineSources.NoRetryUnlessZeroHits` | combine_sources.py:64-70 | unless the first response exists, is non-empty and reports zero hits, the reply to the second query cannot affect the result |
| `CombineSources.RetryDecides` | combine_sources.py:64-72 | once the retry fires, only the reply to the free-text query decides the lookup, whatever docs the first reply had |
| `CombineSources.FailedFetchDrops` | combine_sources.py:64-83 | a failed first fetch (exception, non-200 or unparseable) drops the record |
| `CombineSources.Merge` | combine_sources.py:135-136 | the row has the book's source and district and every other field of the looked-up record |
| `CombineSources.CombineStep` | combine_sources.py:133-137 | a book yields a row exactly when its lookup resolves; the row keeps the book's title, author and state, copies its source and district, and carries the key, ISBN and availability the lookup found |
| `CombineSources.CombineAll` | combine_sources.py:132-138 | the loop's output is the order-preserving filter-map of the books through the lookup, never longer than the input |
| `CombineSources.CombinedFollowsInput` | combine_sources.py:132-137 | at most one row per book, at increasing book positions; book i yields a row iff its lookup resolves; each row carries its book's title, author, state, source and district, and the key, ISBN and availability of that book's lookup |
| `FilterForCover.StripWorks` | filter_for_cover.py:10 | removing "/works/" never lengthens the key |
| `FilterForCover.CoverUrl` | filter_for_cover.py:6-12 | a non-empty ISBN gives the ISBN URL whatever the key holds; else a non-empty key gives the olid URL of the key without "/works/"; no candidate exactly when both are empty or missing |
| `FilterForCover.CoverUrlNonEmpty` | filter_for_cover.py:6-12 | a candidate URL is never empty |
| `FilterForCover.CoverUrlDependsOnIdentifiers` | filter_for_cover.py:7-11 | the candidate depends only on the ISBN and, when there is no ISBN, the key |
| `FilterForCover.IsbnCoverExample` | filter_for_cover.py:7-8 | ISBN 1234567890 gives `https://covers.openlibrary.org/b/isbn/1234567890-M.jpg?default=false` |
| `FilterForCover.WorkKeyId` | filter_for_cover.py:9-11 | a key "/works/" + id, with no further "/works/" in id, becomes id |
| `FilterForCover.CoverValue` | filter_for_cover.py:36-52 | `cover_url` is non-empty exactly when a candidate exists and the service answers 200 for it, and then it equals the candidate |
| `FilterForCover.Annotate` | filter_for_cover.py:33-52 | the row gets `cover_url` with that value; no other column is added, removed or changed |
| `FilterForCover.AnnotateIdempotent` | filter_for_cover.py:33-52 | annotating an annotated row again, against the same service answers, changes nothing |
| `FilterForCover.AnnotateAll` | filter_for_cover.py:33-52 | one output row per input row, in the same order, each the annotated input row |
| `FilterForCover.AnnotateAllProperties` | filter_for_cover.py:33-63 | row count and order kept, every row has `cover_url`, other columns untouched, and a second run against the same service answers changes nothing |
| `FilterForCover.ResolveCovers` | filter_for_cover.py:33-52 | the loop over the array of rows leaves each element equal to its annotated original |
| `FilterForCover.WithCoverColumn` | filter_for_cover.py:55-57 | the header contains `cover_url`, starts with the input header, grows by at most one, and is unchanged when `cover_url` is already there |
| `FilterForCover.WithCoverColumnOnce` | filter_for_cover.py:55-57 | `cover_url` occurs once when it was absent and as often as before otherwise; applying the update twice equals applying it once |
| `Text.Replace` | filter_for_cover.py:10 | Python's `str.replace`: occurrences are found left to right without overlap and each is replaced; a replacement no longer than the pattern never lengthens the string |
| `Text.ReplaceCharwise` | books_to_json.py:7 | replacing one character by another keeps the length and rewrites exactly the matching positions |
| `Text.ReplaceUnmatched` | filter_for_cover.py:10 | a string without the pattern is returned unchanged |
| `BooksToJson.WorldcatUrl` | books_to_json.py:6-8 | the URL is the search prefix, then the title, "+" and the author, each with every space written as "+" |
| `BooksToJson.WorldcatQueryHasNoSpaces` | books_to_json.py:7 | the query has no spaces, and title and author are joined by "+" |
| `BooksToJson.WorldcatExample` | books_to_json.py:6-8 | Maus by Art Spiegelman gives the search prefix followed by `Maus+Art+Spiegelman` |
| `BooksToJson.SourceLabel` | books_to_json.py:19-22 | "A" and "B" become the two dataset names; any other value is kept |
| `BooksToJson.AvailabilityLabel` | books_to_json.py:25-30 | the four codes map to their display texts ("Unknown" to "Check WorldCat"); any other code becomes "Unknown"; the result is always one of five texts |
| `BooksToJson.DistrictLabel` | books_to_json.py:32-33 | never empty; an empty district becomes "Unknown"; a non-empty district is kept |
| `BooksToJson.DistrictExample` | books_to_json.py:32-33 | an empty district becomes "Unknown" |
| `BooksToJson.Publish` | books_to_json.py:16-33 | adds only `worldcat`, computed from the original title and author; relabels source, availability and district; every other column unchanged |
| `BooksToJson.PublishKeeps` | books_to_json.py:16-33 | title, author and the non-empty cover are kept, and the district is non-empty |
| `BooksToJson.ExportStep` | books_to_json.py:15-35 | a row contributes exactly when its `cover_url` is non-empty, and then it contributes its published form |
| `BooksToJson.ExportBooks` | books_to_json.py:11-35 | the loop's output is the order-preserving filter-map of the rows through the export step, never longer than the input |
| `BooksToJson.ExportSelectsCovered` | books_to_json.py:14-35 | the output holds exactly the rows with a non-empty `cover_url`, at increasing positions, each published from its row |
| `BooksToJson.ExportedBooksHaveCovers` | books_to_json.py:14-35 | every exported book has a non-empty `cover_url`, a `worldcat` URL and a non-empty district |

## Left out

- The cached HTTP session, its 30-day expiry and the throttle hook's `time.sleep` (combine_sources.py:27-37, filter_for_cover.py:15-25). These are foreign-library I/O and timing. Each fetch is an input to the model instead.
- Request timeouts. A timeout surfaces as an exception, which the model covers as `Raised`.
- Replies that vary from one call to the next. Only 200 replies are cached, so a repeated search (the same book listed by several districts) or a repeated cover URL (two rows with one ISBN) can get a different answer in the same run. A rerun can also turn a cleared `cover_url` into a URL. The model gives each URL one fixed reply. Its idempotence results hold only against unchanged service answers.
- `requote_uri`. The search service is keyed by the URL before escaping.
- Reading and writing the CSV and JSON files, the JSON key order and indentation, the progress bar and all printed messages. Each stage works on the rows in memory, and stage outputs are returned sequences. The conversion of `None` to an empty cell when stage one writes its CSV is not modelled, and the stages are not chained end to end.
- JSON values of unexpected types: a non-integer `numFound`, a non-list `docs`, a non-string `key` or `status`, a `null` status, or a response that is not an object. The model types these fields as the API documents them.
- `CombineSources.LookupBook`: an empty `isbn` list makes the source raise an uncaught `IndexError` at combine_sources.py:75, which ends the run. The model does not represent that crash. It requires the first hit's ISBN list, when present, to be non-empty (`LookupDefined`).
- A missing CSV column raises an uncaught `KeyError`. `LoadSourceA`, `LoadSourceB` and `ExportBooks` therefore require the columns the source indexes directly. Columns read with `.get` are not required.
- `reader.fieldnames` of `None` (an empty file) is taken as the empty list, which is what the source turns it into.
- `DictWriter` rejecting rows with keys outside the header is not modelled.
- The `ABBREVIATIONS` dictionary is written as a `match` over the fifty names. It is the same lookup table.
