/**
 * Stage three of the pipeline: keep the rows of `combined_books.csv` that have
 * a cover, relabel their coded columns for display, add a WorldCat search URL
 * and collect them, in order, for `books.json`.
 */
module BooksToJson {
  import opened Wrappers
  import opened Csv
  import opened Text
  import opened Selection

  const WorldcatSearch := "https://www.worldcat.org/search?q="

  /** A space written as "+". */
  function SpaceToPlus(c: char): char {
    if c == ' ' then '+' else c
  }

  /** `worldcat_url`: the title and author joined by a space, every space then written as "+". */
  function WorldcatUrl(title: string, author: string): (url: string)
    ensures |url| == |WorldcatSearch| + |title| + 1 + |author|
    ensures url[..|WorldcatSearch|] == WorldcatSearch
    ensures var query := title + " " + author;
      forall i :: |WorldcatSearch| <= i < |url| ==> url[i] == SpaceToPlus(query[i - |WorldcatSearch|])
  {
    var query := title + " " + author;
    ReplaceCharwise(query, ' ', '+');
    WorldcatSearch + Replace(query, " ", "+")
  }

  /** The query part of a WorldCat URL has no spaces left, and title and author are separated by "+". */
  lemma WorldcatQueryHasNoSpaces(title: string, author: string)
    ensures forall i :: |WorldcatSearch| <= i < |WorldcatUrl(title, author)| ==> WorldcatUrl(title, author)[i] != ' '
    ensures WorldcatUrl(title, author)[|WorldcatSearch| + |title|] == '+'
  {
    var query := title + " " + author;
    assert query[|title|] == ' ';
  }

  /** Maus by Art Spiegelman gets `...?q=Maus+Art+Spiegelman`. */
  lemma WorldcatExample(title: string, author: string)
    requires title == "Maus" && author == "Art Spiegelman"
    ensures WorldcatUrl(title, author) == WorldcatSearch + "Maus+Art+Spiegelman"
  {
    var query := title + " " + author;
    assert query == "Maus Art Spiegelman";
    ReplaceCharwise(query, ' ', '+');
    assert Replace(query, " ", "+") == "Maus+Art+Spiegelman";
    assert WorldcatUrl(title, author) == WorldcatSearch + Replace(query, " ", "+");
  }

  /** Source codes to the names of the two datasets. */
  const SourceNames: map<string, string> := map[
    "A" := "PEN America index of school book bans",
    "B" := "Book Censorship Database by Dr. Tasslyn Magnusson"
  ]

  /** Availability codes to display text. */
  const AvailabilityNames: map<string, string> := map[
    "private" := "Private",
    "borrow_available" := "Can be borrowed online",
    "Unknown" := "Check WorldCat",
    "open" := "Available to read online"
  ]

  /** A source code becomes its dataset name; any other value is kept. */
  function SourceLabel(source: string): (shown: string)
    ensures source == "A" ==> shown == "PEN America index of school book bans"
    ensures source == "B" ==> shown == "Book Censorship Database by Dr. Tasslyn Magnusson"
    ensures source != "A" && source != "B" ==> shown == source
  {
    if source in SourceNames then SourceNames[source] else source
  }

  /** An availability code becomes its display text; any code outside the table becomes "Unknown". */
  function AvailabilityLabel(code: string): (shown: string)
    ensures shown in {"Private", "Can be borrowed online", "Check WorldCat", "Available to read online", "Unknown"}
    ensures code == "Unknown" ==> shown == "Check WorldCat"
    ensures code == "private" ==> shown == "Private"
    ensures code == "borrow_available" ==> shown == "Can be borrowed online"
    ensures code == "open" ==> shown == "Available to read online"
    ensures code !in {"private", "borrow_available", "Unknown", "open"} ==> shown == "Unknown"
  {
    if code in AvailabilityNames then AvailabilityNames[code] else "Unknown"
  }

  /** An empty district becomes "Unknown". */
  function DistrictLabel(district: string): (shown: string)
    ensures shown != ""
    ensures district == "" ==> shown == "Unknown"
    ensures district != "" ==> shown == district
  {
    if district == "" then "Unknown" else district
  }

  /** The columns the loop body indexes directly (a missing one raises `KeyError`). */
  predicate HasPublishColumns(row: Row) {
    "title" in row && "author" in row && "source" in row && "availability" in row && "district" in row
  }

  /** The loop body on a kept row: add `worldcat`, relabel `source`, `availability` and `district`. */
  function Publish(row: Row): (r: Row)
    requires HasPublishColumns(row)
    ensures r.Keys == row.Keys + {"worldcat"}
    ensures r["worldcat"] == WorldcatUrl(row["title"], row["author"])
    ensures r["source"] == SourceLabel(row["source"])
    ensures r["availability"] == AvailabilityLabel(row["availability"])
    ensures r["district"] == DistrictLabel(row["district"])
    ensures forall k :: k in row && k !in {"worldcat", "source", "availability", "district"} ==> r[k] == row[k]
  {
    row["worldcat" := WorldcatUrl(row["title"], row["author"])]
       ["source" := SourceLabel(row["source"])]
       ["availability" := AvailabilityLabel(row["availability"])]
       ["district" := DistrictLabel(row["district"])]
  }

  /** The loop over the rows indexes `cover_url` on every row, and the other columns on kept rows. */
  predicate Exportable(row: Row) {
    "cover_url" in row && (row["cover_url"] != "" ==> HasPublishColumns(row))
  }

  /** What one row contributes to `books`: the published row if it has a cover, nothing otherwise. */
  function ExportStep(row: Row): (b: Option<Row>)
    requires Exportable(row)
    ensures b.Some? <==> row["cover_url"] != ""
    ensures b.Some? ==> b.value == Publish(row)
  {
    if row["cover_url"] != "" then Some(Publish(row)) else None
  }

  /** A published row keeps its title, author and non-empty cover, and its `worldcat` comes from the original title and author. */
  lemma PublishKeeps(row: Row)
    requires HasPublishColumns(row) && Filled(row, "cover_url")
    ensures Publish(row)["title"] == row["title"] && Publish(row)["author"] == row["author"]
    ensures Filled(Publish(row), "cover_url") && Publish(row)["cover_url"] == row["cover_url"]
    ensures Publish(row)["district"] != ""
  {
  }

  /** The loop: collect the published rows that have a cover, in input order. */
  method ExportBooks(rows: seq<Row>) returns (books: seq<Row>)
    requires forall i :: 0 <= i < |rows| ==> Exportable(rows[i])
    ensures books == FilterMap(rows, ExportStep)
    ensures |books| <= |rows|
  {
    books := [];
    var i := 0;
    while i < |rows|
      invariant 0 <= i <= |rows|
      invariant books == FilterMap(rows[..i], ExportStep)
    {
      var row := rows[i];
      if row["cover_url"] != "" {
        books := books + [Publish(row)];
      }
      FilterMapSnoc(rows[..i], row, ExportStep);
      assert rows[..i + 1] == rows[..i] + [row];
      i := i + 1;
    }
    assert rows[..i] == rows;
  }

  /**
   * `books` holds exactly the rows with a non-empty `cover_url`, in input
   * order, each published from the row it came from.
   */
  lemma {:induction false} ExportSelectsCovered(rows: seq<Row>)
    requires forall i :: 0 <= i < |rows| ==> Exportable(rows[i])
    ensures var idx, books := Kept(rows, ExportStep), FilterMap(rows, ExportStep);
      && |idx| == |books| <= |rows|
      && (forall k, l :: 0 <= k < l < |idx| ==> idx[k] < idx[l])
      && (forall i :: 0 <= i < |rows| ==> (i in idx <==> Filled(rows[i], "cover_url")))
      && (forall k :: 0 <= k < |idx| ==> idx[k] < |rows| && ExportStep(rows[idx[k]]) == Some(books[k]))
  {
    FilterMapInOrder(rows, ExportStep);
  }

  /** Every exported book has a non-empty cover, a WorldCat URL and a non-empty district. */
  lemma ExportedBooksHaveCovers(rows: seq<Row>)
    requires forall i :: 0 <= i < |rows| ==> Exportable(rows[i])
    ensures forall k :: 0 <= k < |FilterMap(rows, ExportStep)| ==>
      var book := FilterMap(rows, ExportStep)[k];
      Filled(book, "cover_url") && "worldcat" in book && Filled(book, "district")
  {
    ExportSelectsCovered(rows);
    var idx := Kept(rows, ExportStep);
    forall k | 0 <= k < |idx|
      ensures var book := FilterMap(rows, ExportStep)[k];
        Filled(book, "cover_url") && "worldcat" in book && Filled(book, "district")
    {
      PublishKeeps(rows[idx[k]]);
    }
  }

  /** A row with an empty district is published with district "Unknown". */
  lemma DistrictExample()
    ensures DistrictLabel("") == "Unknown"
  {
  }
}
