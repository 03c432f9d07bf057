/** The dataset the routes serve: the table read once at startup, as an
    ordered list of column names and an ordered list of rows. */
module Table {

  type Column = string

  /** One row, mapping each column name to the string form `str(value)` of its cell. */
  type Record = map<Column, string>

  /** The loaded table: `df.columns` in file order and `df.to_dict(orient='records')`. */
  datatype Dataset = Dataset(columns: seq<Column>, records: seq<Record>)

  /** The errors a route can end in. */
  datatype Error =
    | NotFound                          // HTTP 404 from the single-record lookup
    | InvalidColumn(column: Column)     // HTTP 400 from the per-column search
    | MalformedFilter                   // a filter segment that does not unpack into `column, value`

  /** `str(record.get(column, ''))`: the cell's string form, or the empty string
      when the row lacks the column. */
  function Field(r: Record, column: Column): string
  {
    if column in r then r[column] else ""
  }
}
