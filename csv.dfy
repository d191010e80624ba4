/** A row as `csv.DictReader` yields it: column name to cell text. */
module Csv {

  type Row = map<string, string>

  /** `row.get(key, default)`. */
  function Get(row: Row, key: string, default: string): (v: string)
    ensures key in row ==> v == row[key]
    ensures key !in row ==> v == default
  {
    if key in row then row[key] else default
  }

  /** `row.get(key)` is truthy: the column is present and its cell is not empty. */
  predicate Filled(row: Row, key: string) {
    key in row && row[key] != ""
  }
}
