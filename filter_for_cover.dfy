/**
 * Stage two of the pipeline: derive a cover-image URL for every row of
 * `combined_books.csv`, keep it when the cover service answers 200 and clear
 * it otherwise, and add the `cover_url` column to the header.
 *
 * The cover service is an abstract `CoverService`: a function from URL to what
 * the cached HTTP session gives back for it.
 */
module FilterForCover {
  import opened Wrappers
  import opened Csv
  import opened Text

  const CoverPrefix := "https://covers.openlibrary.org/b/"
  const CoverSuffix := "-M.jpg?default=false"
  const CoverColumn := "cover_url"

  /** The cover URL keyed by ISBN. */
  function IsbnCoverUrl(isbn: string): string {
    CoverPrefix + "isbn/" + isbn + CoverSuffix
  }

  /** The cover URL keyed by an Open Library edition or work id. */
  function OlidCoverUrl(id: string): string {
    CoverPrefix + "olid/" + id + CoverSuffix
  }

  /** The catalog key with every "/works/" removed. */
  function StripWorks(key: string): (id: string)
    ensures |id| <= |key|
  {
    Replace(key, "/works/", "")
  }

  /**
   * `cover_url(row)`: the ISBN URL when the row has an ISBN, else the olid URL
   * when it has a catalog key, else no candidate.
   */
  function CoverUrl(row: Row): (url: Option<string>)
    ensures Filled(row, "isbn") ==> url == Some(IsbnCoverUrl(row["isbn"]))
    ensures !Filled(row, "isbn") && Filled(row, "openLibraryKey") ==>
      url == Some(OlidCoverUrl(StripWorks(row["openLibraryKey"])))
    ensures url.None? <==> !Filled(row, "isbn") && !Filled(row, "openLibraryKey")
  {
    if Filled(row, "isbn") then Some(IsbnCoverUrl(row["isbn"]))
    else if Filled(row, "openLibraryKey") then Some(OlidCoverUrl(StripWorks(row["openLibraryKey"])))
    else None
  }

  /** A candidate URL is never empty, so an empty `cover_url` always means "no cover". */
  lemma CoverUrlNonEmpty(row: Row)
    ensures CoverUrl(row).Some? ==> |CoverUrl(row).value| > |CoverPrefix + CoverSuffix|
  {
  }

  /** The candidate depends on the ISBN and catalog key only, and the ISBN wins whatever the key holds. */
  lemma CoverUrlDependsOnIdentifiers(row1: Row, row2: Row)
    requires Get(row1, "isbn", "") == Get(row2, "isbn", "")
    requires Filled(row1, "isbn") || Get(row1, "openLibraryKey", "") == Get(row2, "openLibraryKey", "")
    ensures CoverUrl(row1) == CoverUrl(row2)
  {
  }

  /** A row with an ISBN gets the ISBN-keyed URL. */
  lemma IsbnCoverExample()
    ensures CoverUrl(map["title" := "Book A", "author" := "Author A", "isbn" := "1234567890"])
      == Some("https://covers.openlibrary.org/b/isbn/1234567890-M.jpg?default=false")
  {
    var row := map["title" := "Book A", "author" := "Author A", "isbn" := "1234567890"];
    assert "isbn" in row && row["isbn"] == "1234567890";
    assert IsbnCoverUrl("1234567890") == "https://covers.openlibrary.org/b/isbn/1234567890-M.jpg?default=false";
  }

  /** An Open Library work key loses its "/works/" prefix. */
  lemma WorkKeyId(id: string)
    requires forall i :: !OccursAt(id, "/works/", i)
    ensures StripWorks("/works/" + id) == id
  {
    ReplaceLeading(id, "/works/", "");
    ReplaceUnmatched(id, "/works/", "");
  }

  /** What a GET of a cover URL gives: an exception, or a status code. */
  datatype Fetch = Raised | Status(code: int)

  type CoverService = string -> Fetch

  /** The value the loop stores in `cover_url`: the candidate if the service answers 200, "" otherwise. */
  function CoverValue(row: Row, service: CoverService): (v: string)
    ensures v != "" <==> CoverUrl(row).Some? && service(CoverUrl(row).value) == Status(200)
    ensures v != "" ==> Some(v) == CoverUrl(row)
  {
    match CoverUrl(row)
    case None => ""
    case Some(url) => if service(url) == Status(200) then url else ""
  }

  /** One iteration of the loop: set `cover_url`, leave every other column alone. */
  function Annotate(row: Row, service: CoverService): (r: Row)
    ensures CoverColumn in r && r[CoverColumn] == CoverValue(row, service)
    ensures forall k :: k != CoverColumn ==> (k in r <==> k in row)
    ensures forall k :: k != CoverColumn && k in row ==> r[k] == row[k]
  {
    row[CoverColumn := CoverValue(row, service)]
  }

  /** Re-annotating recomputes the same value: the candidate does not read `cover_url`. */
  lemma AnnotateIdempotent(row: Row, service: CoverService)
    ensures Annotate(Annotate(row, service), service) == Annotate(row, service)
  {
    var once := Annotate(row, service);
    CoverUrlDependsOnIdentifiers(once, row);
    assert once[CoverColumn := CoverValue(once, service)] == once;
  }

  /** The rows after the loop. */
  function AnnotateAll(rows: seq<Row>, service: CoverService): (out: seq<Row>)
    ensures |out| == |rows|
    ensures forall i :: 0 <= i < |rows| ==> out[i] == Annotate(rows[i], service)
  {
    seq(|rows|, i requires 0 <= i < |rows| => Annotate(rows[i], service))
  }

  /**
   * The stage keeps the row count and order, gives every row a `cover_url`,
   * changes no other column, and running it again changes nothing.
   */
  lemma AnnotateAllProperties(rows: seq<Row>, service: CoverService)
    ensures var out := AnnotateAll(rows, service);
      && |out| == |rows|
      && (forall i :: 0 <= i < |out| ==> CoverColumn in out[i])
      && (forall i, k :: 0 <= i < |out| && k != CoverColumn ==>
            (k in out[i] <==> k in rows[i]) && (k in rows[i] ==> out[i][k] == rows[i][k]))
      && AnnotateAll(out, service) == out
  {
    var out := AnnotateAll(rows, service);
    forall i | 0 <= i < |out|
      ensures AnnotateAll(out, service)[i] == out[i]
    {
      AnnotateIdempotent(rows[i], service);
    }
  }

  /** The loop over `rows`, rewriting each row's `cover_url` in place. */
  method ResolveCovers(rows: array<Row>, service: CoverService)
    modifies rows
    ensures rows[..] == AnnotateAll(old(rows[..]), service)
  {
    var i := 0;
    while i < rows.Length
      invariant 0 <= i <= rows.Length
      invariant forall j :: 0 <= j < i ==> rows[j] == Annotate(old(rows[j]), service)
      invariant forall j :: i <= j < rows.Length ==> rows[j] == old(rows[j])
    {
      var url := CoverUrl(rows[i]);
      if url.None? {
        rows[i] := rows[i][CoverColumn := ""];
      } else {
        var reply := service(url.value);
        if reply == Status(200) {
          rows[i] := rows[i][CoverColumn := url.value];
        } else {
          rows[i] := rows[i][CoverColumn := ""];
        }
      }
      i := i + 1;
    }
  }

  /** The header to write: the input header, with `cover_url` appended unless already there. */
  function WithCoverColumn(fieldnames: seq<string>): (header: seq<string>)
    ensures CoverColumn in header
    ensures |fieldnames| <= |header| <= |fieldnames| + 1
    ensures header[..|fieldnames|] == fieldnames
    ensures CoverColumn in fieldnames ==> header == fieldnames
  {
    if CoverColumn in fieldnames then fieldnames else fieldnames + [CoverColumn]
  }

  /**
   * The column is added at most once: its count becomes 1 when absent and is
   * otherwise unchanged, so a header without duplicates stays without, and a
   * second run leaves the header as it is.
   */
  lemma WithCoverColumnOnce(fieldnames: seq<string>)
    ensures multiset(WithCoverColumn(fieldnames))[CoverColumn] ==
      if CoverColumn in fieldnames then multiset(fieldnames)[CoverColumn] else 1
    ensures WithCoverColumn(WithCoverColumn(fieldnames)) == WithCoverColumn(fieldnames)
  {
  }
}
