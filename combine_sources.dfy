/**
 * Stage one of the pipeline: read the two banned-book sources, reshape their
 * rows into one record schema, look each record up in the Open Library search
 * API and write the records that the search resolves.
 *
 * The search service is an abstract `Server`: a function from the request URL
 * (before URI escaping, which is itself a fixed function of it) to what the
 * cached HTTP session gives back for it.
 */
module CombineSources {
  import opened Wrappers
  import opened Csv
  import opened Selection

  // ---------------------------------------------------------------------------
  // State names

  /** Two upper-case letters. */
  predicate IsUspsCode(s: string) {
    |s| == 2 && 'A' <= s[0] <= 'Z' && 'A' <= s[1] <= 'Z'
  }

  /**
   * The `ABBREVIATIONS` table, as `ABBREVIATIONS.get(name)`: each of the fifty
   * state names maps to its USPS code; every other string is absent.
   */
  function StateCode(name: string): (code: Option<string>)
    ensures code.Some? ==> IsUspsCode(code.value)
    ensures code.Some? ==> |name| >= 4
  {
    match name
    case "Alabama" => Some("AL")
    case "Alaska" => Some("AK")
    case "Arizona" => Some("AZ")
    case "Arkansas" => Some("AR")
    case "California" => Some("CA")
    case "Colorado" => Some("CO")
    case "Connecticut" => Some("CT")
    case "Delaware" => Some("DE")
    case "Florida" => Some("FL")
    case "Georgia" => Some("GA")
    case "Hawaii" => Some("HI")
    case "Idaho" => Some("ID")
    case "Illinois" => Some("IL")
    case "Indiana" => Some("IN")
    case "Iowa" => Some("IA")
    case "Kansas" => Some("KS")
    case "Kentucky" => Some("KY")
    case "Louisiana" => Some("LA")
    case "Maine" => Some("ME")
    case "Maryland" => Some("MD")
    case "Massachusetts" => Some("MA")
    case "Michigan" => Some("MI")
    case "Minnesota" => Some("MN")
    case "Mississippi" => Some("MS")
    case "Missouri" => Some("MO")
    case "Montana" => Some("MT")
    case "Nebraska" => Some("NE")
    case "Nevada" => Some("NV")
    case "New Hampshire" => Some("NH")
    case "New Jersey" => Some("NJ")
    case "New Mexico" => Some("NM")
    case "New York" => Some("NY")
    case "North Carolina" => Some("NC")
    case "North Dakota" => Some("ND")
    case "Ohio" => Some("OH")
    case "Oklahoma" => Some("OK")
    case "Oregon" => Some("OR")
    case "Pennsylvania" => Some("PA")
    case "Rhode Island" => Some("RI")
    case "South Carolina" => Some("SC")
    case "South Dakota" => Some("SD")
    case "Tennessee" => Some("TN")
    case "Texas" => Some("TX")
    case "Utah" => Some("UT")
    case "Vermont" => Some("VT")
    case "Virginia" => Some("VA")
    case "Washington" => Some("WA")
    case "West Virginia" => Some("WV")
    case "Wisconsin" => Some("WI")
    case "Wyoming" => Some("WY")
    case _ => None
  }

  /** `ABBREVIATIONS.get(name, name)`: a known state name becomes its code, anything else passes through. */
  function Abbreviate(name: string): (state: string)
    ensures StateCode(name).Some? ==> state == StateCode(name).value && IsUspsCode(state)
    ensures StateCode(name).None? ==> state == name
  {
    StateCode(name).GetOr(name)
  }

  /** Abbreviating twice is abbreviating once: a code is never itself taken for a state name. */
  lemma AbbreviateIdempotent(name: string)
    ensures Abbreviate(Abbreviate(name)) == Abbreviate(name)
  {
    if StateCode(name).Some? {
      assert |Abbreviate(name)| == 2;
    }
  }

  // ---------------------------------------------------------------------------
  // Loading the two sources

  /** A normalised record: the common schema both sources are reshaped into. */
  datatype Book = Book(title: string, author: string, state: string, source: string, district: string)

  /** The columns `load_sourceA` indexes directly (a missing one raises `KeyError`). */
  predicate HasSourceAColumns(row: Row) {
    "Title" in row && "Author" in row && "State" in row
  }

  /** One source-A row in the common schema. */
  function NormalizeA(row: Row): (b: Book)
    requires HasSourceAColumns(row)
    ensures b.title == row["Title"] && b.author == row["Author"]
    ensures b.state == Abbreviate(row["State"]) && b.source == "A"
    ensures b.district == Get(row, "Overseeing_Agency", "")
  {
    Book(row["Title"], row["Author"], Abbreviate(row["State"]), "A", Get(row, "Overseeing_Agency", ""))
  }

  /** `load_sourceA`: every row, reshaped, in file order. */
  function LoadSourceA(rows: seq<Row>): (books: seq<Book>)
    requires forall i :: 0 <= i < |rows| ==> HasSourceAColumns(rows[i])
    ensures |books| == |rows|
    ensures forall i :: 0 <= i < |rows| ==>
      && HasSourceAColumns(rows[i])
      && books[i].title == rows[i]["Title"] && books[i].author == rows[i]["Author"]
      && books[i].state == Abbreviate(rows[i]["State"]) && books[i].source == "A"
      && books[i].district == Get(rows[i], "Overseeing_Agency", "")
  {
    seq(|rows|, i requires 0 <= i < |rows| => NormalizeA(rows[i]))
  }

  /** Every source-A record is labelled "A" and carries a USPS code or an unrecognised name unchanged. */
  lemma SourceAStates(rows: seq<Row>)
    requires forall i :: 0 <= i < |rows| ==> HasSourceAColumns(rows[i])
    ensures forall i :: 0 <= i < |rows| ==> LoadSourceA(rows)[i].source == "A"
    ensures forall i :: 0 <= i < |rows| ==>
      var state := LoadSourceA(rows)[i].state;
      IsUspsCode(state) || (state == rows[i]["State"] && StateCode(state).None?)
  {
  }

  const BannedRemoved := "Banned/Removed"

  /**
   * The columns `load_sourceB` indexes directly: `Decision` on every row, the
   * title, author and state columns on the rows it keeps.
   */
  predicate HasSourceBColumns(row: Row) {
    "Decision" in row &&
    (row["Decision"] == BannedRemoved ==>
      "New_Book_Title" in row && "New_Book_Author" in row && "State" in row)
  }

  /** One source-B row in the common schema, or nothing when its decision is not a removal. */
  function NormalizeB(row: Row): (b: Option<Book>)
    requires HasSourceBColumns(row)
    ensures b.Some? <==> row["Decision"] == BannedRemoved
    ensures b.Some? ==> b.value.title == row["New_Book_Title"] && b.value.author == row["New_Book_Author"]
    ensures b.Some? ==> b.value.state == row["State"] && b.value.source == "B"
    ensures b.Some? ==> b.value.district == Get(row, "County", "")
  {
    if row["Decision"] == BannedRemoved then
      Some(Book(row["New_Book_Title"], row["New_Book_Author"], row["State"], "B", Get(row, "County", "")))
    else None
  }

  /** `load_sourceB`: the rows whose decision is "Banned/Removed", reshaped, in file order. */
  function LoadSourceB(rows: seq<Row>): (books: seq<Book>)
    requires forall i :: 0 <= i < |rows| ==> HasSourceBColumns(rows[i])
    ensures |books| <= |rows|
  {
    FilterMap(rows, NormalizeB)
  }

  /**
   * Source B keeps exactly its "Banned/Removed" rows, in order; each kept record
   * is labelled "B" and copies the state column verbatim, with no abbreviation.
   */
  lemma {:induction false} SourceBSelectsRemovals(rows: seq<Row>)
    requires forall i :: 0 <= i < |rows| ==> HasSourceBColumns(rows[i])
    ensures var idx, books := Kept(rows, NormalizeB), LoadSourceB(rows);
      && |idx| == |books|
      && (forall k, l :: 0 <= k < l < |idx| ==> idx[k] < idx[l])
      && (forall i :: 0 <= i < |rows| ==> (i in idx <==> rows[i]["Decision"] == BannedRemoved))
      && (forall k :: 0 <= k < |idx| ==>
            idx[k] < |rows| && NormalizeB(rows[idx[k]]) == Some(books[k])
            && books[k].source == "B" && books[k].state == rows[idx[k]]["State"])
  {
    FilterMapInOrder(rows, NormalizeB);
  }

  // ---------------------------------------------------------------------------
  // The search response

  /** The `availability` value of a search hit: a JSON object (with or without `status`), or anything else. */
  datatype AvailabilityField = Object(status: Option<string>) | NotObject

  /** One search hit (`docs[i]`), with the fields the lookup reads. */
  datatype Doc = Doc(key: Option<string>, isbn: Option<seq<string>>, availability: AvailabilityField)

  /**
   * A parsed search response: the optional `numFound` and `docs` fields, and
   * whether the JSON object has any other field (an empty object is falsy in Python).
   */
  datatype SearchResponse = SearchResponse(numFound: Option<int>, docs: Option<seq<Doc>>, hasOtherFields: bool) {
    /** The response counts as data in a Python test: a JSON object with at least one field. */
    predicate Truthy() {
      numFound.Some? || docs.Some? || hasOtherFields
    }
  }

  /** What a GET gives: an exception, or a status with a body that may or may not parse as JSON. */
  datatype Reply = Raised | Answered(status: int, json: Option<SearchResponse>)

  type Server = string -> Reply

  /** `fetch_json`: the parsed body of a 200 reply; every other outcome, exceptions included, is `None`. */
  function FetchJson(reply: Reply): (data: Option<SearchResponse>)
    ensures data.Some? <==> reply.Answered? && reply.status == 200 && reply.json.Some?
    ensures data.Some? ==> data == reply.json
  {
    match reply
    case Answered(200, json) => json
    case _ => None
  }

  const SearchEndpoint := "https://openlibrary.org/search.json"

  /** The first, title-and-author query. */
  function TitleAuthorUrl(title: string, author: string): string {
    SearchEndpoint + "?title=" + title + "&author=" + author + "&limit=1&fields=*,availability"
  }

  /** The broader free-text query on the title alone. */
  function FreeTextUrl(title: string): string {
    SearchEndpoint + "?q=" + title + "&limit=1&fields=*,availability"
  }

  /** The broader query is tried only after a first response that arrived, is non-empty and reports `numFound` (default 0) as 0. */
  predicate NeedsRetry(data: Option<SearchResponse>)
    ensures NeedsRetry(data) ==> data.Some? && data.value.Truthy() && data.value.numFound.GetOr(0) == 0
    ensures data.None? ==> !NeedsRetry(data)
    ensures data == Some(SearchResponse(None, None, false)) ==> !NeedsRetry(data)
    ensures data.Some? && data.value.numFound == Some(0) ==> NeedsRetry(data)
    ensures data.Some? && data.value.Truthy() && data.value.numFound.None? ==> NeedsRetry(data)
    ensures data.Some? && data.value.numFound.Some? && data.value.numFound.value != 0 ==> !NeedsRetry(data)
  {
    data.Some? && data.value.Truthy() && data.value.numFound.GetOr(0) == 0
  }

  /** The response the lookup finally inspects. */
  function FinalResponse(title: string, author: string, server: Server): (data: Option<SearchResponse>)
    ensures var first := FetchJson(server(TitleAuthorUrl(title, author)));
      && (data == first || data == FetchJson(server(FreeTextUrl(title))))
      && (data != first ==> NeedsRetry(first))
      && (NeedsRetry(first) ==> data == FetchJson(server(FreeTextUrl(title))))
  {
    var first := FetchJson(server(TitleAuthorUrl(title, author)));
    if NeedsRetry(first) then FetchJson(server(FreeTextUrl(title))) else first
  }

  /** The response is present, is a non-empty object and lists at least one document (a missing `docs` counts as none). */
  predicate HasHit(data: Option<SearchResponse>)
    ensures HasHit(data) ==> data.Some? && data.value.docs.Some? && |data.value.docs.value| > 0
    ensures data.Some? && data.value.docs.Some? && |data.value.docs.value| > 0 ==> HasHit(data)
  {
    data.Some? && data.value.Truthy() && |data.value.docs.GetOr([])| > 0
  }

  /** The first hit of a response that has one. */
  function FirstHit(data: Option<SearchResponse>): Doc
    requires HasHit(data)
  {
    data.value.docs.value[0]
  }

  /** `doc.get("isbn", [None])[0]` does not raise: an `isbn` list, when present, is non-empty. */
  predicate IsbnIndexable(doc: Doc) {
    doc.isbn.Some? ==> |doc.isbn.value| > 0
  }

  /** The lookup of this title and author runs to completion (no `IndexError`). */
  predicate LookupDefined(title: string, author: string, server: Server) {
    var data := FinalResponse(title, author, server);
    HasHit(data) ==> IsbnIndexable(FirstHit(data))
  }

  // ---------------------------------------------------------------------------
  // The lookup

  /** The dictionary `lookup_book` returns. */
  datatype Found = Found(
    title: string, author: string, state: string,
    openLibraryKey: Option<string>, isbn: Option<string>, availability: string)

  /** The availability text: the object's `status`, else "Unknown". */
  function AvailabilityOf(a: AvailabilityField): (s: string)
    ensures a.Object? && a.status.Some? ==> s == a.status.value
    ensures a.NotObject? || a.status.None? ==> s == "Unknown"
  {
    match a
    case Object(status) => status.GetOr("Unknown")
    case NotObject => "Unknown"
  }

  /** `lookup_book`: the record built from the first hit of the final response, or `None` without one. */
  function LookupBook(title: string, author: string, state: string, server: Server): (r: Option<Found>)
    requires LookupDefined(title, author, server)
    ensures r.None? <==> !HasHit(FinalResponse(title, author, server))
    ensures r.Some? ==> r.value.title == title && r.value.author == author && r.value.state == state
    ensures r.Some? ==>
      var doc := FirstHit(FinalResponse(title, author, server));
      && r.value.openLibraryKey == doc.key
      && (doc.isbn.None? ==> r.value.isbn.None?)
      && (doc.isbn.Some? ==> r.value.isbn == Some(doc.isbn.value[0]))
      && r.value.availability == AvailabilityOf(doc.availability)
  {
    var data := FinalResponse(title, author, server);
    if HasHit(data) then
      var doc := FirstHit(data);
      var isbn := if doc.isbn.Some? then Some(doc.isbn.value[0]) else None;
      Some(Found(title, author, state, doc.key, isbn, AvailabilityOf(doc.availability)))
    else None
  }

  /** The lookup consults only the first hit: the rest of `docs` never matters. */
  lemma LookupUsesFirstHitOnly(title: string, author: string, state: string, s1: Server, s2: Server)
    requires LookupDefined(title, author, s1) && LookupDefined(title, author, s2)
    requires HasHit(FinalResponse(title, author, s1)) && HasHit(FinalResponse(title, author, s2))
    requires FirstHit(FinalResponse(title, author, s1)) == FirstHit(FinalResponse(title, author, s2))
    ensures LookupBook(title, author, state, s1) == LookupBook(title, author, state, s2)
  {
  }

  /**
   * Without a zero-hit first response the free-text query is never sent: two
   * servers that agree on the first query give the same lookup, whatever they
   * answer to the second. A failed first fetch in particular causes no retry.
   */
  lemma NoRetryUnlessZeroHits(title: string, author: string, state: string, s1: Server, s2: Server)
    requires s1(TitleAuthorUrl(title, author)) == s2(TitleAuthorUrl(title, author))
    requires !NeedsRetry(FetchJson(s1(TitleAuthorUrl(title, author))))
    requires LookupDefined(title, author, s1)
    ensures LookupDefined(title, author, s2)
    ensures LookupBook(title, author, state, s1) == LookupBook(title, author, state, s2)
  {
  }

  /**
   * Once the broader query is sent, its reply alone decides the lookup: two
   * servers that both trigger the retry and agree on the free-text query give
   * the same result, whatever docs their first replies carried.
   */
  lemma RetryDecides(title: string, author: string, state: string, s1: Server, s2: Server)
    requires NeedsRetry(FetchJson(s1(TitleAuthorUrl(title, author))))
    requires NeedsRetry(FetchJson(s2(TitleAuthorUrl(title, author))))
    requires s1(FreeTextUrl(title)) == s2(FreeTextUrl(title))
    requires LookupDefined(title, author, s1)
    ensures LookupDefined(title, author, s2)
    ensures LookupBook(title, author, state, s1) == LookupBook(title, author, state, s2)
  {
  }

  /** A failed or non-200 first fetch drops the record. */
  lemma FailedFetchDrops(title: string, author: string, state: string, server: Server)
    requires FetchJson(server(TitleAuthorUrl(title, author))).None?
    ensures LookupDefined(title, author, server)
    ensures LookupBook(title, author, state, server).None?
  {
  }

  // ---------------------------------------------------------------------------
  // The main loop

  /** A row of `combined_books.csv` before the cover stage. */
  datatype Combined = Combined(
    title: string, author: string, state: string, source: string, district: string,
    openLibraryKey: Option<string>, isbn: Option<string>, availability: string)

  /** The looked-up record with the input book's source and district copied in. */
  function Merge(res: Found, book: Book): (c: Combined)
    ensures c.source == book.source && c.district == book.district
    ensures c.title == res.title && c.author == res.author && c.state == res.state
    ensures c.openLibraryKey == res.openLibraryKey && c.isbn == res.isbn && c.availability == res.availability
  {
    Combined(res.title, res.author, res.state, book.source, book.district,
             res.openLibraryKey, res.isbn, res.availability)
  }

  /** What one input book contributes to the output: its looked-up record with source and district merged back. */
  function CombineStep(book: Book, server: Server): (c: Option<Combined>)
    requires LookupDefined(book.title, book.author, server)
    ensures c.Some? <==> LookupBook(book.title, book.author, book.state, server).Some?
    ensures c.Some? ==>
      && c.value.title == book.title && c.value.author == book.author && c.value.state == book.state
      && c.value.source == book.source && c.value.district == book.district
    ensures c.Some? ==>
      var res := LookupBook(book.title, book.author, book.state, server).value;
      c.value.openLibraryKey == res.openLibraryKey && c.value.isbn == res.isbn
      && c.value.availability == res.availability
  {
    match LookupBook(book.title, book.author, book.state, server)
    case Some(res) => Some(Merge(res, book))
    case None => None
  }

  /** `CombineStep` against a fixed server, as a step function over the book list. */
  function StepFor(server: Server): Book --> Option<Combined> {
    (book: Book) requires LookupDefined(book.title, book.author, server) => CombineStep(book, server)
  }

  /** Every book's lookup runs to completion. */
  predicate AllLookupsDefined(books: seq<Book>, server: Server) {
    forall i :: 0 <= i < |books| ==> LookupDefined(books[i].title, books[i].author, server)
  }

  /** `load_sourceA(...) + load_sourceB(...)`. */
  function AllBooks(rowsA: seq<Row>, rowsB: seq<Row>): (books: seq<Book>)
    requires forall i :: 0 <= i < |rowsA| ==> HasSourceAColumns(rowsA[i])
    requires forall i :: 0 <= i < |rowsB| ==> HasSourceBColumns(rowsB[i])
    ensures |rowsA| <= |books| <= |rowsA| + |rowsB|
    ensures |books| == |rowsA| + |Kept(rowsB, NormalizeB)|
    ensures forall i :: 0 <= i < |rowsA| ==> books[i] == NormalizeA(rowsA[i]) && books[i].source == "A"
    ensures forall k :: 0 <= k < |Kept(rowsB, NormalizeB)| ==>
      Kept(rowsB, NormalizeB)[k] < |rowsB| && Some(books[|rowsA| + k]) == NormalizeB(rowsB[Kept(rowsB, NormalizeB)[k]])
    ensures forall i :: |rowsA| <= i < |books| ==> books[i].source == "B"
  {
    SourceBLabels(rowsB);
    SourceBSelectsRemovals(rowsB);
    LoadSourceA(rowsA) + LoadSourceB(rowsB)
  }

  /** Every source-B record is labelled "B". */
  lemma SourceBLabels(rowsB: seq<Row>)
    requires forall i :: 0 <= i < |rowsB| ==> HasSourceBColumns(rowsB[i])
    ensures forall k :: 0 <= k < |LoadSourceB(rowsB)| ==> LoadSourceB(rowsB)[k].source == "B"
  {
    SourceBSelectsRemovals(rowsB);
  }

  /**
   * The loop of `main`: look every book up in order and append each resolved
   * record, with its source and district, to the output.
   */
  method CombineAll(books: seq<Book>, server: Server) returns (rows: seq<Combined>)
    requires AllLookupsDefined(books, server)
    ensures rows == FilterMap(books, StepFor(server))
    ensures |rows| <= |books|
  {
    rows := [];
    var i := 0;
    while i < |books|
      invariant 0 <= i <= |books|
      invariant rows == FilterMap(books[..i], StepFor(server))
    {
      var book := books[i];
      var res := LookupBook(book.title, book.author, book.state, server);
      if res.Some? {
        rows := rows + [Merge(res.value, book)];
      }
      FilterMapSnoc(books[..i], book, StepFor(server));
      assert books[..i + 1] == books[..i] + [book];
      i := i + 1;
    }
    assert books[..i] == books;
  }

  /**
   * The output follows the input: at most one row per book, in book order, each
   * carrying its book's title, author, state, source and district and the key,
   * ISBN and availability its lookup found; a book yields a row exactly when
   * its lookup resolves.
   */
  lemma {:induction false} CombinedFollowsInput(books: seq<Book>, server: Server)
    requires AllLookupsDefined(books, server)
    ensures var idx, rows := Kept(books, StepFor(server)), FilterMap(books, StepFor(server));
      && |idx| == |rows|
      && (forall k, l :: 0 <= k < l < |idx| ==> idx[k] < idx[l])
      && (forall i :: 0 <= i < |books| ==>
            (i in idx <==> LookupBook(books[i].title, books[i].author, books[i].state, server).Some?))
      && (forall k :: 0 <= k < |idx| ==>
            idx[k] < |books|
            && rows[k].title == books[idx[k]].title && rows[k].author == books[idx[k]].author
            && rows[k].state == books[idx[k]].state
            && rows[k].source == books[idx[k]].source && rows[k].district == books[idx[k]].district
            && var res := LookupBook(books[idx[k]].title, books[idx[k]].author, books[idx[k]].state, server);
               res.Some? && rows[k].openLibraryKey == res.value.openLibraryKey
               && rows[k].isbn == res.value.isbn && rows[k].availability == res.value.availability)
  {
    FilterMapInOrder(books, StepFor(server));
  }
}
