/**
 * The session table the dashboard works on: a data frame whose cells hold
 * already-parsed JSON-like values, one map from column name to cell per row.
 */
module Table {

  /** A cell: missing (NaN, JSON null), a number, a string, or a parsed JSON object. */
  datatype Value =
    | Missing
    | Number(n: int)
    | Str(s: string)
    | Object(fields: map<string, Value>)

  type Row = map<string, Value>

  /** A data frame: its set of column labels and its rows, in row-index order. */
  datatype Grid = Grid(columns: set<string>, rows: seq<Row>)

  /** A frame is rectangular: every row has exactly the frame's columns. */
  predicate Rectangular(g: Grid)
  {
    forall i :: 0 <= i < |g.rows| ==> g.rows[i].Keys == g.columns
  }

  type Frame = g: Grid | Rectangular(g) witness Grid({}, [])

  /** The cell of `row` under `column`, missing where the row has no such column. */
  function Cell(row: Row, column: string): Value
  {
    if column in row then row[column] else Missing
  }

  /** Why a run of the pipeline aborts. */
  datatype Error =
    | ParseError(column: string)        // a JSON column cell that is not an object (pandas < 1.3)
    | MissingColumn(column: string)     // `data[col]` or `groupby(col)` on an absent label
    | ConversionError(column: string)   // `pd.to_numeric` met a non-numeric value
    | DateFormatError                   // `pd.to_datetime(..., format='%Y%m%d')` rejected a value
    | UnhashableKey(column: string)     // a group-by key that is an object
    | ComparisonError(column: string)   // `> 0` on a string or object cell
}
