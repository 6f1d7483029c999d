/**
 * `preprocess_json`: flatten the four JSON columns into `<column>.<key>`
 * columns, coerce the five totals to numbers with missing values filled
 * with 0, and rewrite the session date from `YYYYMMDD` to `YYYY-MM-DD`.
 */
module Normalizer {
  import opened Wrappers
  import opened Digits
  import opened Table
  import opened Dates

  const JSON_COLUMNS: seq<string> := ["trafficSource", "geoNetwork", "device", "totals"]
  const NUMERIC_COLUMNS: seq<string> :=
    ["totals.hits", "totals.pageviews", "totals.bounces", "totals.newVisits", "totals.transactionRevenue"]
  const DATE_COLUMN := "date"

  // ---------------------------------------------------------------------------
  // Flattening one JSON column: json_normalize, prefix the labels, drop the
  // column and join the flattened frame back on the row index.
  // ---------------------------------------------------------------------------

  /** The label `f'{col}.{subcolumn}'` given to a flattened key. */
  function ColumnName(column: string, key: string): string
  {
    column + "." + key
  }

  function Prefixed(column: string, keys: set<string>): set<string>
  {
    set k | k in keys :: ColumnName(column, k)
  }

  function FieldKeys(v: Value): set<string>
  {
    if v.Object? then v.fields.Keys else {}
  }

  /** The value an object holds under `key`; missing when the object lacks the key. */
  function Field(v: Value, key: string): Value
  {
    if v.Object? && key in v.fields then v.fields[key] else Missing
  }

  /** The keys `json_normalize` turns into columns: every key of every row's object. */
  function ObjectKeys(rows: seq<Row>, column: string): (keys: set<string>)
    ensures forall k :: k in keys <==> exists i :: 0 <= i < |rows| && k in FieldKeys(Cell(rows[i], column))
  {
    if rows == [] then {}
    else
      var init := rows[..|rows| - 1];
      assert forall i :: 0 <= i < |init| ==> init[i] == rows[i];
      ObjectKeys(init, column) + FieldKeys(Cell(rows[|rows| - 1], column))
  }

  lemma ColumnNameIsPrefixed(column: string, key: string)
    ensures |ColumnName(column, key)| > |column|
    ensures ColumnName(column, key)[|column| + 1..] == key
    ensures ColumnName(column, key)[|column|] == '.'
  {
  }

  /** A JSON column's own label is never one of its flattened labels. */
  lemma NotPrefixedSelf(column: string, keys: set<string>)
    ensures column !in Prefixed(column, keys)
  {
  }

  /** A label without a dot is never a flattened label. */
  lemma UndottedNotPrefixed(x: string, column: string, keys: set<string>)
    requires '.' !in x
    ensures x !in Prefixed(column, keys)
  {
  }

  /** One row after the merge: `column` dropped, one cell per flattened key added. */
  function FlattenRow(row: Row, column: string, keys: set<string>): (r: Row)
    ensures r.Keys == (row.Keys - {column}) + Prefixed(column, keys)
    ensures forall k :: k in keys ==> r[ColumnName(column, k)] == Field(Cell(row, column), k)
    ensures forall x :: x in row && x != column && x !in Prefixed(column, keys) ==> r[x] == row[x]
  {
    var names := Prefixed(column, keys);
    assert forall k :: k in keys ==> ColumnName(column, k) in names;
    assert forall k :: k in keys ==>
      |ColumnName(column, k)| > |column| && ColumnName(column, k)[|column| + 1..] == k;
    map x | x in (row.Keys - {column}) + names ::
      if x in names && |x| > |column| then Field(Cell(row, column), x[|column| + 1..]) else Cell(row, x)
  }

  /**
   * Flattening one JSON column. It fails when the column is absent (`data[col]`)
   * or a cell is not a JSON object, as `json_normalize` of pandas before 1.3
   * does (later versions read such a cell as an empty object); otherwise the row count is kept, the column
   * is replaced by one column `<column>.<key>` per key seen anywhere in it
   * (missing in rows whose object lacks the key) and every other cell is kept.
   */
  function FlattenColumn(t: Frame, column: string): (r: Result<Frame, Error>)
    ensures r.Ok? <==> column in t.columns && forall i :: 0 <= i < |t.rows| ==> Cell(t.rows[i], column).Object?
    ensures r.Err? && column !in t.columns ==> r.error == MissingColumn(column)
    ensures r.Err? && column in t.columns ==> r.error == ParseError(column)
    ensures r.Ok? ==>
      var keys := ObjectKeys(t.rows, column);
      && |r.value.rows| == |t.rows|
      && r.value.columns == (t.columns - {column}) + Prefixed(column, keys)
      && column !in r.value.columns
      && (forall i, k :: 0 <= i < |t.rows| && k in keys ==>
            r.value.rows[i][ColumnName(column, k)] == Field(Cell(t.rows[i], column), k))
      && (forall i, x :: 0 <= i < |t.rows| && x in t.columns && x != column && x !in Prefixed(column, keys) ==>
            r.value.rows[i][x] == t.rows[i][x])
  {
    if column !in t.columns then Err(MissingColumn(column))
    else if exists i :: 0 <= i < |t.rows| && !Cell(t.rows[i], column).Object? then Err(ParseError(column))
    else
      var keys := ObjectKeys(t.rows, column);
      var names := Prefixed(column, keys);
      var rows := seq(|t.rows|, i requires 0 <= i < |t.rows| => FlattenRow(t.rows[i], column, keys));
      NotPrefixedSelf(column, keys);
      FlattenedRows(t, column, keys, rows);
      Ok(Grid((t.columns - {column}) + names, rows))
  }

  /** Rows flattened one by one share their columns and carry the fields and the kept cells. */
  lemma FlattenedRows(t: Frame, column: string, keys: set<string>, rows: seq<Row>)
    requires |rows| == |t.rows|
    requires forall i :: 0 <= i < |rows| ==> rows[i] == FlattenRow(t.rows[i], column, keys)
    ensures Rectangular(Grid((t.columns - {column}) + Prefixed(column, keys), rows))
    ensures forall i, k :: 0 <= i < |t.rows| && k in keys ==>
      rows[i][ColumnName(column, k)] == Field(Cell(t.rows[i], column), k)
    ensures forall i, x :: 0 <= i < |t.rows| && x in t.columns && x != column && x !in Prefixed(column, keys) ==>
      rows[i][x] == t.rows[i][x]
  {
    forall i | 0 <= i < |rows|
      ensures rows[i].Keys == (t.columns - {column}) + Prefixed(column, keys)
    {
      assert t.rows[i].Keys == t.columns;
    }
  }

  // ---------------------------------------------------------------------------
  // Numeric coercion: pd.to_numeric(data[col]) then fillna(0).
  // ---------------------------------------------------------------------------

  /**
   * One cell through `pd.to_numeric` and `fillna(0)`: missing (and the empty
   * string, which `to_numeric` reads as NaN) becomes 0, a number keeps its
   * value, a text is read when it is the decimal text of an integer; anything
   * else makes pandas raise (None).
   */
  function ToNumeric(v: Value): (r: Option<int>)
    ensures v.Str? && v.s != "" ==> forall n {:trigger DecimalText(v.s, n)} :: r == Some(n) <==> DecimalText(v.s, n)
  {
    match v
    case Missing => Some(0)
    case Number(n) => Some(n)
    case Str(s) => ParseIntIsDecimal(s); if s == "" then Some(0) else ParseInt(s)
    case Object(_) => None
  }

  /**
   * Coercion reads back the text of every integer, and coercing a value that
   * is already a number changes nothing.
   */
  lemma ToNumericSpec(v: Value, n: int)
    ensures ToNumeric(Str(IntToString(n))) == Some(n)
    ensures ToNumeric(v).Some? ==> ToNumeric(Number(ToNumeric(v).value)) == ToNumeric(v)
  {
    ParseIntToString(n);
  }

  /**
   * Coercing one totals column. It fails when the column is absent or some cell
   * is not numeric; otherwise every cell of the column becomes the number
   * `ToNumeric` gives and every other cell is kept.
   */
  function CoerceColumn(t: Frame, column: string): (r: Result<Frame, Error>)
    ensures r.Ok? <==> column in t.columns && forall i :: 0 <= i < |t.rows| ==> ToNumeric(Cell(t.rows[i], column)).Some?
    ensures r.Err? && column !in t.columns ==> r.error == MissingColumn(column)
    ensures r.Err? && column in t.columns ==> r.error == ConversionError(column)
    ensures r.Ok? ==>
      && r.value.columns == t.columns
      && |r.value.rows| == |t.rows|
      && (forall i :: 0 <= i < |t.rows| ==>
            ToNumeric(Cell(t.rows[i], column)).Some? &&
            r.value.rows[i][column] == Number(ToNumeric(Cell(t.rows[i], column)).value))
      && (forall i, x :: 0 <= i < |t.rows| && x in t.columns && x != column ==> r.value.rows[i][x] == t.rows[i][x])
  {
    if column !in t.columns then Err(MissingColumn(column))
    else if exists i :: 0 <= i < |t.rows| && ToNumeric(Cell(t.rows[i], column)).None? then Err(ConversionError(column))
    else
      var rows := seq(|t.rows|, i requires 0 <= i < |t.rows| =>
        t.rows[i][column := Number(ToNumeric(Cell(t.rows[i], column)).value)]);
      Ok(Grid(t.columns, rows))
  }

  // ---------------------------------------------------------------------------
  // The date: pd.to_datetime(format='%Y%m%d') then dt.strftime('%Y-%m-%d').
  // ---------------------------------------------------------------------------

  /**
   * One date cell: missing stays missing (NaT); a text read by `ParseYmd`, or
   * an integer whose decimal text is (read_csv reads the column as integers),
   * becomes the ISO form of that day; anything else makes pandas raise (None).
   */
  function ConvertDate(v: Value): (r: Option<Value>)
    ensures r.Some? ==> (r.value.Missing? <==> v.Missing?)
    ensures r.Some? && !v.Missing? ==> r.value.Str? && IsIsoShape(r.value.s)
  {
    match v
    case Missing => Some(Missing)
    case Str(s) => IsoCell(s)
    case Number(n) => IsoCell(IntToString(n))
    case Object(_) => None
  }

  function IsoCell(s: string): (r: Option<Value>)
    ensures r.Some? ==> r.value.Str?
  {
    match ParseYmd(s)
    case Some(d) => Some(Str(FormatIso(d)))
    case None => None
  }

  /**
   * A converted date names the same day as the text it came from: with its
   * dashes removed it reads back as that day, and an eight-digit text is
   * given back exactly.
   */
  lemma ConvertDateSpec(v: Value)
    requires ConvertDate(v).Some? && !v.Missing?
    ensures v.Str? ==> ParseYmd(RemoveDashes(ConvertDate(v).value.s)) == ParseYmd(v.s)
    ensures v.Number? ==> ParseYmd(RemoveDashes(ConvertDate(v).value.s)) == ParseYmd(IntToString(v.n))
    ensures v.Str? && |v.s| == 8 && AllDigits(v.s) ==> RemoveDashes(ConvertDate(v).value.s) == v.s
    ensures v.Number? && |IntToString(v.n)| == 8 ==> RemoveDashes(ConvertDate(v).value.s) == IntToString(v.n)
  {
    var text := if v.Str? then v.s else IntToString(v.n);
    var d :| ParseYmd(text) == Some(d);
    YmdOfCompact(d);
    if v.Number? {
      assert IsDigit(text[..4][0]);
      assert text == NatToString(v.n);
    }
    if |text| == 8 && AllDigits(text) {
      ParseYmdEightDigits(text);
    }
  }

  /**
   * Rewriting the date column. It fails when the column is absent or some cell
   * is not a valid day; otherwise each date cell is converted and every other
   * cell is kept.
   */
  function ConvertDates(t: Frame): (r: Result<Frame, Error>)
    ensures r.Ok? <==> DATE_COLUMN in t.columns && forall i :: 0 <= i < |t.rows| ==> ConvertDate(Cell(t.rows[i], DATE_COLUMN)).Some?
    ensures r.Err? && DATE_COLUMN !in t.columns ==> r.error == MissingColumn(DATE_COLUMN)
    ensures r.Err? && DATE_COLUMN in t.columns ==> r.error == DateFormatError
    ensures r.Ok? ==>
      && r.value.columns == t.columns
      && |r.value.rows| == |t.rows|
      && (forall i :: 0 <= i < |t.rows| ==> Some(r.value.rows[i][DATE_COLUMN]) == ConvertDate(Cell(t.rows[i], DATE_COLUMN)))
      && (forall i, x :: 0 <= i < |t.rows| && x in t.columns && x != DATE_COLUMN ==> r.value.rows[i][x] == t.rows[i][x])
  {
    if DATE_COLUMN !in t.columns then Err(MissingColumn(DATE_COLUMN))
    else if exists i :: 0 <= i < |t.rows| && ConvertDate(Cell(t.rows[i], DATE_COLUMN)).None? then Err(DateFormatError)
    else
      var rows := seq(|t.rows|, i requires 0 <= i < |t.rows| =>
        t.rows[i][DATE_COLUMN := ConvertDate(Cell(t.rows[i], DATE_COLUMN)).value]);
      Ok(Grid(t.columns, rows))
  }

  // ---------------------------------------------------------------------------
  // The whole of preprocess_json.
  // ---------------------------------------------------------------------------

  /** A loop `for col in columns` whose body may raise: the first failure aborts. */
  function Fold(t: Frame, columns: seq<string>, step: (Frame, string) -> Result<Frame, Error>): Result<Frame, Error>
    decreases |columns|
  {
    if columns == [] then Ok(t)
    else
      match step(t, columns[0])
      case Err(e) => Err(e)
      case Ok(u) => Fold(u, columns[1..], step)
  }

  /** Flatten the given JSON columns, coerce the given numeric columns, convert the date. */
  function Pipeline(raw: Frame, jsonColumns: seq<string>, numericColumns: seq<string>): Result<Frame, Error>
  {
    match Fold(raw, jsonColumns, FlattenColumn)
    case Err(e) => Err(e)
    case Ok(flat) =>
      match Fold(flat, numericColumns, CoerceColumn)
      case Err(e) => Err(e)
      case Ok(numeric) => ConvertDates(numeric)
  }

  /** The reference result of `preprocess_json` on an already-loaded frame. */
  function Normalize(raw: Frame): Result<Frame, Error>
  {
    Pipeline(raw, JSON_COLUMNS, NUMERIC_COLUMNS)
  }

  /**
   * One of the two loops of `preprocess_json`: `for col in columns`, replacing
   * the frame by the step's result and stopping at the first error.
   */
  method ApplyEach(t: Frame, columns: seq<string>, step: (Frame, string) -> Result<Frame, Error>)
    returns (r: Result<Frame, Error>)
    ensures r == Fold(t, columns, step)
  {
    var data := t;
    for i := 0 to |columns|
      invariant Fold(data, columns[i..], step) == Fold(t, columns, step)
    {
      assert columns[i..][0] == columns[i] && columns[i..][1..] == columns[i + 1..];
      var next := step(data, columns[i]);
      if next.Err? {
        return Err(next.error);
      }
      data := next.value;
    }
    assert columns[|columns|..] == [];
    r := Ok(data);
  }

  /**
   * `preprocess_json` on the loaded frame: reassign the frame once per JSON
   * column, overwrite each totals column, then overwrite the date column.
   */
  method PreprocessJson(raw: Frame) returns (r: Result<Frame, Error>)
    ensures r == Normalize(raw)
  {
    var flat := ApplyEach(raw, JSON_COLUMNS, FlattenColumn);
    if flat.Err? {
      return Err(flat.error);
    }
    var numeric := ApplyEach(flat.value, NUMERIC_COLUMNS, CoerceColumn);
    if numeric.Err? {
      return Err(numeric.error);
    }
    r := ConvertDates(numeric.value);
  }

  // ---------------------------------------------------------------------------
  // What the loops over columns guarantee.
  // ---------------------------------------------------------------------------

  /** Running the loop over `a + b` is running it over `a`, then over `b`. */
  lemma {:induction false} FoldAppend(t: Frame, a: seq<string>, b: seq<string>, step: (Frame, string) -> Result<Frame, Error>)
    ensures Fold(t, a + b, step) == match Fold(t, a, step) case Err(e) => Err(e) case Ok(u) => Fold(u, b, step)
    decreases |a|
  {
    if a == [] {
      assert a + b == b;
    } else {
      assert (a + b)[0] == a[0] && (a + b)[1..] == a[1..] + b;
      match step(t, a[0])
      case Err(_) =>
      case Ok(u) => FoldAppend(u, a[1..], b, step);
    }
  }

  /**
   * Flattening any list of columns keeps one row per input row, and leaves a
   * label without a dot that it does not flatten exactly as it was: present
   * with the same cells, or still absent. A dotted label is left out because
   * a flattened `<column>.<key>` may take its name (the model lets the
   * flattened cell win where pandas would add a suffix).
   */
  lemma {:induction false} FlattenAllPassThrough(t: Frame, columns: seq<string>, x: string)
    requires '.' !in x && x !in columns
    ensures Fold(t, columns, FlattenColumn).Ok? ==>
      var u := Fold(t, columns, FlattenColumn).value;
      && |u.rows| == |t.rows|
      && (x in u.columns <==> x in t.columns)
      && forall i :: 0 <= i < |t.rows| ==> Cell(u.rows[i], x) == Cell(t.rows[i], x)
    decreases |columns|
  {
    if columns != [] {
      var c := columns[0];
      var step := FlattenColumn(t, c);
      if step.Ok? {
        UndottedNotPrefixed(x, c, ObjectKeys(t.rows, c));
        FlattenAllPassThrough(step.value, columns[1..], x);
      }
    }
  }

  /** After flattening, none of the flattened (undotted) labels is left. */
  lemma {:induction false} FlattenAllDrops(t: Frame, columns: seq<string>, c: string)
    requires c in columns && forall j :: 0 <= j < |columns| ==> '.' !in columns[j]
    ensures Fold(t, columns, FlattenColumn).Ok? ==> c !in Fold(t, columns, FlattenColumn).value.columns
    decreases |columns|
  {
    var step := FlattenColumn(t, columns[0]);
    if step.Ok? {
      if c in columns[1..] {
        FlattenAllDrops(step.value, columns[1..], c);
      } else {
        FlattenAllPassThrough(step.value, columns[1..], c);
      }
    }
  }

  /**
   * The column flattened last: each key that some row's object has becomes a
   * column `<column>.<key>` holding that row's value for the key.
   */
  lemma FlattenLastCell(raw: Frame, columns: seq<string>, i: int, key: string)
    requires 0 <= i < |raw.rows| && columns != []
    requires '.' !in columns[|columns| - 1] && columns[|columns| - 1] !in columns[..|columns| - 1]
    requires exists j :: 0 <= j < |raw.rows| && key in FieldKeys(Cell(raw.rows[j], columns[|columns| - 1]))
    ensures Fold(raw, columns, FlattenColumn).Ok? ==>
      var u := Fold(raw, columns, FlattenColumn).value;
      var c := columns[|columns| - 1];
      && |u.rows| == |raw.rows|
      && ColumnName(c, key) in u.columns
      && u.rows[i][ColumnName(c, key)] == Field(Cell(raw.rows[i], c), key)
  {
    var c := columns[|columns| - 1];
    var init := columns[..|columns| - 1];
    assert columns == init + [c];
    FoldAppend(raw, init, [c], FlattenColumn);
    var before := Fold(raw, init, FlattenColumn);
    if before.Ok? {
      var u := before.value;
      assert Fold(raw, columns, FlattenColumn) == Fold(u, [c], FlattenColumn);
      assert Fold(u, [c], FlattenColumn) == FlattenColumn(u, c);
      FlattenAllPassThrough(raw, init, c);
      FlattenUnchangedColumn(raw, u, c, i, key);
    }
  }

  /** Flattening a column whose cells are still those of `raw`: the key's cell is the field of `raw`'s object. */
  lemma FlattenUnchangedColumn(raw: Frame, u: Frame, c: string, i: int, key: string)
    requires 0 <= i < |raw.rows| && |u.rows| == |raw.rows|
    requires forall j :: 0 <= j < |raw.rows| ==> Cell(u.rows[j], c) == Cell(raw.rows[j], c)
    requires exists j :: 0 <= j < |raw.rows| && key in FieldKeys(Cell(raw.rows[j], c))
    ensures FlattenColumn(u, c).Ok? ==>
      var v := FlattenColumn(u, c).value;
      && |v.rows| == |raw.rows|
      && ColumnName(c, key) in v.columns
      && v.rows[i][ColumnName(c, key)] == Field(Cell(raw.rows[i], c), key)
  {
    var j :| 0 <= j < |raw.rows| && key in FieldKeys(Cell(raw.rows[j], c));
    assert Cell(u.rows[j], c) == Cell(raw.rows[j], c);
    assert key in ObjectKeys(u.rows, c);
  }

  /** Flattened labels of two different undotted columns never meet. */
  lemma ForeignNameNotPrefixed(c: string, key: string, other: string, keys: set<string>)
    requires '.' !in c && '.' !in other && c != other
    ensures ColumnName(c, key) !in Prefixed(other, keys) && ColumnName(c, key) != other
  {
    var name := ColumnName(c, key);
    assert name[|c|] == '.' && name[..|c|] == c;
    forall k | k in keys
      ensures name != ColumnName(other, k)
    {
      var theirs := ColumnName(other, k);
      assert theirs[..|other|] == other;
      if |c| < |other| {
        assert theirs[|c|] == other[|c|] != name[|c|];
      } else if |other| < |c| {
        assert theirs[|other|] == '.' != c[|other|] == name[|other|];
      } else {
        assert theirs[..|c|] != name[..|c|];
      }
    }
  }

  /** Flattening another column keeps a flattened label and its cells. */
  lemma FlattenKeepsFlattened(t: Frame, other: string, c: string, key: string, i: int)
    requires '.' !in c && '.' !in other && c != other
    requires 0 <= i < |t.rows| && ColumnName(c, key) in t.columns
    ensures FlattenColumn(t, other).Ok? ==>
      var v := FlattenColumn(t, other).value;
      && |v.rows| == |t.rows|
      && ColumnName(c, key) in v.columns
      && v.rows[i][ColumnName(c, key)] == t.rows[i][ColumnName(c, key)]
  {
    ForeignNameNotPrefixed(c, key, other, ObjectKeys(t.rows, other));
  }

  /** Flattening a list of other columns keeps a flattened label and its cells. */
  lemma {:induction false} FlattenAllKeeps(t: Frame, columns: seq<string>, c: string, key: string, i: int)
    requires '.' !in c && c !in columns && forall m :: 0 <= m < |columns| ==> '.' !in columns[m]
    requires 0 <= i < |t.rows| && ColumnName(c, key) in t.columns
    ensures Fold(t, columns, FlattenColumn).Ok? ==>
      var u := Fold(t, columns, FlattenColumn).value;
      && |u.rows| == |t.rows|
      && ColumnName(c, key) in u.columns
      && u.rows[i][ColumnName(c, key)] == t.rows[i][ColumnName(c, key)]
    decreases |columns|
  {
    if columns != [] {
      var step := FlattenColumn(t, columns[0]);
      FlattenKeepsFlattened(t, columns[0], c, key, i);
      if step.Ok? {
        assert forall m :: 0 <= m < |columns[1..]| ==> columns[1..][m] == columns[m + 1];
        FlattenAllKeeps(step.value, columns[1..], c, key, i);
      }
    }
  }

  /**
   * Any column of the loop, flattened once: each key that some row's object
   * has becomes a column `<column>.<key>` holding that row's value for the
   * key, whatever the loop flattens after it.
   */
  lemma {:induction false} FlattenAllCell(raw: Frame, columns: seq<string>, j: int, i: int, key: string)
    requires 0 <= j < |columns| && 0 <= i < |raw.rows|
    requires forall m :: 0 <= m < |columns| ==> '.' !in columns[m]
    requires columns[j] !in columns[..j] && columns[j] !in columns[j + 1..]
    requires exists r :: 0 <= r < |raw.rows| && key in FieldKeys(Cell(raw.rows[r], columns[j]))
    ensures Fold(raw, columns, FlattenColumn).Ok? ==>
      var u := Fold(raw, columns, FlattenColumn).value;
      var c := columns[j];
      && |u.rows| == |raw.rows|
      && ColumnName(c, key) in u.columns
      && u.rows[i][ColumnName(c, key)] == Field(Cell(raw.rows[i], c), key)
  {
    var c := columns[j];
    var pre, post := columns[..j + 1], columns[j + 1..];
    assert columns == pre + post;
    assert pre[|pre| - 1] == c && pre[..|pre| - 1] == columns[..j];
    FoldAppend(raw, pre, post, FlattenColumn);
    FlattenLastCell(raw, pre, i, key);
    var mid := Fold(raw, pre, FlattenColumn);
    if mid.Ok? {
      assert forall m :: 0 <= m < |post| ==> post[m] == columns[j + 1 + m];
      FlattenAllKeeps(mid.value, post, c, key, i);
    }
  }

  /** Coercing a list of columns changes neither the labels nor any column outside the list. */
  lemma {:induction false} CoerceAllPassThrough(t: Frame, columns: seq<string>, x: string)
    requires x !in columns
    ensures Fold(t, columns, CoerceColumn).Ok? ==>
      var u := Fold(t, columns, CoerceColumn).value;
      && u.columns == t.columns
      && |u.rows| == |t.rows|
      && forall i :: 0 <= i < |t.rows| && x in t.columns ==> u.rows[i][x] == t.rows[i][x]
    decreases |columns|
  {
    if columns != [] {
      if CoerceColumn(t, columns[0]).Ok? {
        CoerceAllPassThrough(CoerceColumn(t, columns[0]).value, columns[1..], x);
      }
    }
  }

  /** After coercing a list of columns, each of them holds the number its old cell denotes. */
  lemma {:induction false} CoerceAllValue(t: Frame, columns: seq<string>, c: string)
    requires c in columns
    ensures Fold(t, columns, CoerceColumn).Ok? ==>
      var u := Fold(t, columns, CoerceColumn).value;
      && c in u.columns
      && |u.rows| == |t.rows|
      && forall i :: 0 <= i < |t.rows| ==>
           ToNumeric(Cell(t.rows[i], c)).Some? && u.rows[i][c] == Number(ToNumeric(Cell(t.rows[i], c)).value)
    decreases |columns|
  {
    var step := CoerceColumn(t, columns[0]);
    if step.Ok? {
      var u1 := step.value;
      if c in columns[1..] {
        CoerceAllValue(u1, columns[1..], c);
        if c != columns[0] {
          assert forall i :: 0 <= i < |t.rows| ==> Cell(u1.rows[i], c) == Cell(t.rows[i], c);
        }
      } else {
        assert c == columns[0];
        CoerceAllPassThrough(u1, columns[1..], c);
      }
    }
  }

  /** A cell `pd.to_numeric` cannot read in any coerced column fails the whole loop. */
  lemma {:induction false} CoerceAllRejects(t: Frame, columns: seq<string>, c: string, i: int)
    requires c in columns && 0 <= i < |t.rows| && ToNumeric(Cell(t.rows[i], c)).None?
    ensures Fold(t, columns, CoerceColumn).Err?
    decreases |columns|
  {
    var step := CoerceColumn(t, columns[0]);
    if step.Ok? {
      assert c != columns[0];
      assert c in columns[1..];
      assert Cell(step.value.rows[i], c) == Cell(t.rows[i], c);
      CoerceAllRejects(step.value, columns[1..], c, i);
    }
  }

  // ---------------------------------------------------------------------------
  // What a run of preprocess_json guarantees.
  // ---------------------------------------------------------------------------

  /**
   * A successful run keeps one row per session, leaves none of the JSON
   * columns, makes every numeric column numeric in every row, and leaves every
   * date missing or in `YYYY-MM-DD` form.
   */
  lemma PipelineShape(raw: Frame, jsonColumns: seq<string>, numericColumns: seq<string>)
    requires forall j :: 0 <= j < |jsonColumns| ==> '.' !in jsonColumns[j]
    requires DATE_COLUMN !in jsonColumns && DATE_COLUMN !in numericColumns
    ensures Pipeline(raw, jsonColumns, numericColumns).Ok? ==>
      var u := Pipeline(raw, jsonColumns, numericColumns).value;
      && |u.rows| == |raw.rows|
      && (forall c :: c in jsonColumns ==> c !in u.columns)
      && (forall c :: c in numericColumns ==> c in u.columns && forall i :: 0 <= i < |u.rows| ==> u.rows[i][c].Number?)
      && DATE_COLUMN in u.columns
      && (forall i :: 0 <= i < |u.rows| ==>
            u.rows[i][DATE_COLUMN].Missing? || (u.rows[i][DATE_COLUMN].Str? && IsIsoShape(u.rows[i][DATE_COLUMN].s)))
  {
    if Pipeline(raw, jsonColumns, numericColumns).Ok? {
      var flat := Fold(raw, jsonColumns, FlattenColumn).value;
      var numeric := Fold(flat, numericColumns, CoerceColumn).value;
      var u := Pipeline(raw, jsonColumns, numericColumns).value;
      FlattenAllPassThrough(raw, jsonColumns, DATE_COLUMN);
      CoerceAllPassThrough(flat, numericColumns, DATE_COLUMN);
      forall c | c in jsonColumns
        ensures c !in u.columns
      {
        FlattenAllDrops(raw, jsonColumns, c);
      }
      forall c | c in numericColumns
        ensures c in u.columns && forall i :: 0 <= i < |u.rows| ==> u.rows[i][c].Number?
      {
        CoerceAllValue(flat, numericColumns, c);
      }
      forall i | 0 <= i < |u.rows|
        ensures u.rows[i][DATE_COLUMN].Missing? || (u.rows[i][DATE_COLUMN].Str? && IsIsoShape(u.rows[i][DATE_COLUMN].s))
      {
        assert ConvertDate(Cell(numeric.rows[i], DATE_COLUMN)).Some?;
      }
    }
  }

  /** Any other column without a dot in its label comes out exactly as it went in. */
  lemma PipelinePassThrough(raw: Frame, jsonColumns: seq<string>, numericColumns: seq<string>, x: string)
    requires '.' !in x && x !in jsonColumns && x !in numericColumns && x != DATE_COLUMN
    ensures Pipeline(raw, jsonColumns, numericColumns).Ok? ==>
      var u := Pipeline(raw, jsonColumns, numericColumns).value;
      && |u.rows| == |raw.rows|
      && (x in u.columns <==> x in raw.columns)
      && forall i :: 0 <= i < |raw.rows| ==> Cell(u.rows[i], x) == Cell(raw.rows[i], x)
  {
    if Pipeline(raw, jsonColumns, numericColumns).Ok? {
      var flat := Fold(raw, jsonColumns, FlattenColumn).value;
      FlattenAllPassThrough(raw, jsonColumns, x);
      CoerceAllPassThrough(flat, numericColumns, x);
    }
  }

  /** Each value of the last JSON column's keys that are coerced is the number it denotes. */
  lemma PipelineLastCell(raw: Frame, jsonColumns: seq<string>, numericColumns: seq<string>, i: int, key: string)
    requires 0 <= i < |raw.rows| && jsonColumns != []
    requires '.' !in jsonColumns[|jsonColumns| - 1] && jsonColumns[|jsonColumns| - 1] !in jsonColumns[..|jsonColumns| - 1]
    requires DATE_COLUMN !in jsonColumns && DATE_COLUMN !in numericColumns
    requires ColumnName(jsonColumns[|jsonColumns| - 1], key) in numericColumns
    requires exists j :: 0 <= j < |raw.rows| && key in FieldKeys(Cell(raw.rows[j], jsonColumns[|jsonColumns| - 1]))
    ensures Pipeline(raw, jsonColumns, numericColumns).Ok? ==>
      var u := Pipeline(raw, jsonColumns, numericColumns).value;
      var c := jsonColumns[|jsonColumns| - 1];
      var v := Field(Cell(raw.rows[i], c), key);
      && |u.rows| == |raw.rows|
      && ColumnName(c, key) in u.columns
      && ToNumeric(v).Some?
      && u.rows[i][ColumnName(c, key)] == Number(ToNumeric(v).value)
  {
    if Pipeline(raw, jsonColumns, numericColumns).Ok? {
      var c := jsonColumns[|jsonColumns| - 1];
      var name := ColumnName(c, key);
      var flat := Fold(raw, jsonColumns, FlattenColumn).value;
      var numeric := Fold(flat, numericColumns, CoerceColumn).value;
      FlattenLastCell(raw, jsonColumns, i, key);
      assert Cell(flat.rows[i], name) == Field(Cell(raw.rows[i], c), key);
      CoerceAllValue(flat, numericColumns, name);
      assert numeric.rows[i][name] == Number(ToNumeric(Field(Cell(raw.rows[i], c), key)).value);
      ColumnNameIsPrefixed(c, key);
      assert name != DATE_COLUMN by {
        assert name[|c|] == '.';
      }
    }
  }

  /** A flattened value that is not coerced comes out of the run as the JSON value itself. */
  lemma {:induction false} PipelineFlattenedCell(raw: Frame, jsonColumns: seq<string>, numericColumns: seq<string>, j: int, i: int, key: string)
    requires 0 <= j < |jsonColumns| && 0 <= i < |raw.rows|
    requires forall m :: 0 <= m < |jsonColumns| ==> '.' !in jsonColumns[m]
    requires jsonColumns[j] !in jsonColumns[..j] && jsonColumns[j] !in jsonColumns[j + 1..]
    requires ColumnName(jsonColumns[j], key) !in numericColumns
    requires exists r :: 0 <= r < |raw.rows| && key in FieldKeys(Cell(raw.rows[r], jsonColumns[j]))
    ensures Pipeline(raw, jsonColumns, numericColumns).Ok? ==>
      var u := Pipeline(raw, jsonColumns, numericColumns).value;
      var c := jsonColumns[j];
      && |u.rows| == |raw.rows|
      && ColumnName(c, key) in u.columns
      && u.rows[i][ColumnName(c, key)] == Field(Cell(raw.rows[i], c), key)
  {
    if Pipeline(raw, jsonColumns, numericColumns).Ok? {
      var c := jsonColumns[j];
      var name := ColumnName(c, key);
      var flat := Fold(raw, jsonColumns, FlattenColumn).value;
      var numeric := Fold(flat, numericColumns, CoerceColumn).value;
      FlattenAllCell(raw, jsonColumns, j, i, key);
      assert flat.rows[i][name] == Field(Cell(raw.rows[i], c), key);
      CoerceAllPassThrough(flat, numericColumns, name);
      assert numeric.rows[i][name] == Field(Cell(raw.rows[i], c), key);
      FlattenedNameNotDate(c, key);
    }
  }

  /** A flattened label has a dot, so it is never the date column. */
  lemma FlattenedNameNotDate(c: string, key: string)
    ensures ColumnName(c, key) != DATE_COLUMN
  {
    ColumnNameIsPrefixed(c, key);
    assert ColumnName(c, key)[|c|] == '.';
  }

  /** A coerced value of the last JSON column that is present but not numeric fails the run. */
  lemma PipelineRejectsNonNumeric(raw: Frame, jsonColumns: seq<string>, numericColumns: seq<string>, i: int, key: string)
    requires 0 <= i < |raw.rows| && jsonColumns != []
    requires '.' !in jsonColumns[|jsonColumns| - 1] && jsonColumns[|jsonColumns| - 1] !in jsonColumns[..|jsonColumns| - 1]
    requires ColumnName(jsonColumns[|jsonColumns| - 1], key) in numericColumns
    requires ToNumeric(Field(Cell(raw.rows[i], jsonColumns[|jsonColumns| - 1]), key)).None?
    ensures Pipeline(raw, jsonColumns, numericColumns).Err?
  {
    var c := jsonColumns[|jsonColumns| - 1];
    assert key in FieldKeys(Cell(raw.rows[i], c));
    var flatResult := Fold(raw, jsonColumns, FlattenColumn);
    if flatResult.Ok? {
      FlattenLastCell(raw, jsonColumns, i, key);
      CoerceAllRejects(flatResult.value, numericColumns, ColumnName(c, key), i);
    }
  }

  lemma {:induction false} PipelineDateCell(raw: Frame, jsonColumns: seq<string>, numericColumns: seq<string>, i: int)
    requires 0 <= i < |raw.rows| && DATE_COLUMN !in jsonColumns && DATE_COLUMN !in numericColumns
    ensures Pipeline(raw, jsonColumns, numericColumns).Ok? ==>
      var u := Pipeline(raw, jsonColumns, numericColumns).value;
      |u.rows| == |raw.rows| && Some(u.rows[i][DATE_COLUMN]) == ConvertDate(Cell(raw.rows[i], DATE_COLUMN))
  {
    if Pipeline(raw, jsonColumns, numericColumns).Ok? {
      var flat := Fold(raw, jsonColumns, FlattenColumn).value;
      FlattenAllPassThrough(raw, jsonColumns, DATE_COLUMN);
      CoerceAllPassThrough(flat, numericColumns, DATE_COLUMN);
    }
  }

  // ---------------------------------------------------------------------------
  // The same, for the column lists preprocess_json uses.
  // ---------------------------------------------------------------------------

  /**
   * A successful run keeps one row per session, leaves none of the four JSON
   * columns, makes all five totals columns numeric in every row, and leaves
   * every date missing or in `YYYY-MM-DD` form.
   */
  lemma NormalizeShape(raw: Frame)
    ensures Normalize(raw).Ok? ==>
      var u := Normalize(raw).value;
      && |u.rows| == |raw.rows|
      && (forall c :: c in JSON_COLUMNS ==> c !in u.columns)
      && (forall c :: c in NUMERIC_COLUMNS ==> c in u.columns && forall i :: 0 <= i < |u.rows| ==> u.rows[i][c].Number?)
      && DATE_COLUMN in u.columns
      && (forall i :: 0 <= i < |u.rows| ==>
            u.rows[i][DATE_COLUMN].Missing? || (u.rows[i][DATE_COLUMN].Str? && IsIsoShape(u.rows[i][DATE_COLUMN].s)))
  {
    PipelineShape(raw, JSON_COLUMNS, NUMERIC_COLUMNS);
  }

  /**
   * Any other column without a dot in its label (`fullVisitorId`, ...) comes
   * out of a successful run exactly as it went in.
   */
  lemma NormalizePassThrough(raw: Frame, x: string)
    requires '.' !in x && x !in JSON_COLUMNS && x != DATE_COLUMN
    ensures Normalize(raw).Ok? ==>
      var u := Normalize(raw).value;
      && |u.rows| == |raw.rows|
      && (x in u.columns <==> x in raw.columns)
      && forall i :: 0 <= i < |raw.rows| ==> Cell(u.rows[i], x) == Cell(raw.rows[i], x)
  {
    PipelinePassThrough(raw, JSON_COLUMNS, NUMERIC_COLUMNS, x);
  }

  /**
   * Each totals value of a successful run is the number its JSON value denotes:
   * a missing value is 0 and a present number keeps its value.
   */
  lemma NormalizeTotalsCell(raw: Frame, i: int, key: string)
    requires 0 <= i < |raw.rows| && ColumnName("totals", key) in NUMERIC_COLUMNS
    requires exists j :: 0 <= j < |raw.rows| && key in FieldKeys(Cell(raw.rows[j], "totals"))
    ensures Normalize(raw).Ok? ==>
      var u := Normalize(raw).value;
      var v := Field(Cell(raw.rows[i], "totals"), key);
      && |u.rows| == |raw.rows|
      && ColumnName("totals", key) in u.columns
      && ToNumeric(v).Some?
      && u.rows[i][ColumnName("totals", key)] == Number(ToNumeric(v).value)
  {
    assert JSON_COLUMNS[|JSON_COLUMNS| - 1] == "totals";
    PipelineLastCell(raw, JSON_COLUMNS, NUMERIC_COLUMNS, i, key);
  }

  /**
   * Each `trafficSource`, `geoNetwork` and `device` value of a successful run
   * is the JSON value itself, under its column `<column>.<key>`: those
   * columns are flattened but not coerced.
   */
  lemma NormalizeFlattenedCell(raw: Frame, c: string, i: int, key: string)
    requires 0 <= i < |raw.rows| && c in JSON_COLUMNS && c != "totals"
    requires exists r :: 0 <= r < |raw.rows| && key in FieldKeys(Cell(raw.rows[r], c))
    ensures Normalize(raw).Ok? ==>
      var u := Normalize(raw).value;
      && |u.rows| == |raw.rows|
      && ColumnName(c, key) in u.columns
      && u.rows[i][ColumnName(c, key)] == Field(Cell(raw.rows[i], c), key)
  {
    var j := JsonColumnIndex(c);
    JsonColumnsUndotted();
    NotNumericName(c, key);
    PipelineFlattenedCell(raw, JSON_COLUMNS, NUMERIC_COLUMNS, j, i, key);
  }

  /** Each JSON column is listed once. */
  lemma JsonColumnIndex(c: string) returns (j: int)
    requires c in JSON_COLUMNS
    ensures 0 <= j < |JSON_COLUMNS| && JSON_COLUMNS[j] == c
    ensures c !in JSON_COLUMNS[..j] && c !in JSON_COLUMNS[j + 1..]
  {
    j := if c == "trafficSource" then 0 else if c == "geoNetwork" then 1 else if c == "device" then 2 else 3;
  }

  lemma JsonColumnsUndotted()
    ensures forall m :: 0 <= m < |JSON_COLUMNS| ==> '.' !in JSON_COLUMNS[m]
  {
  }

  /** The coerced columns are all `totals.<key>`, so no other column's key is coerced. */
  lemma NotNumericName(c: string, key: string)
    requires '.' !in c && c != "totals"
    ensures ColumnName(c, key) !in NUMERIC_COLUMNS
  {
    var keys := {"hits", "pageviews", "bounces", "newVisits", "transactionRevenue"};
    TotalsNames();
    ExampleTotalsNames();
    assert forall m :: 0 <= m < |NUMERIC_COLUMNS| ==> NUMERIC_COLUMNS[m] in Prefixed("totals", keys);
    ForeignNameNotPrefixed(c, key, "totals", keys);
  }

  /** The five coerced labels are `totals.<key>` for the five totals keys. */
  lemma TotalsNames()
    ensures ColumnName("totals", "pageviews") == "totals.pageviews"
    ensures ColumnName("totals", "bounces") == "totals.bounces"
    ensures ColumnName("totals", "newVisits") == "totals.newVisits"
  {
  }

  /** A totals value that is present but not numeric makes the whole run fail. */
  lemma NormalizeRejectsNonNumeric(raw: Frame, i: int, key: string)
    requires 0 <= i < |raw.rows| && ColumnName("totals", key) in NUMERIC_COLUMNS
    requires ToNumeric(Field(Cell(raw.rows[i], "totals"), key)).None?
    ensures Normalize(raw).Err?
  {
    assert JSON_COLUMNS[|JSON_COLUMNS| - 1] == "totals";
    PipelineRejectsNonNumeric(raw, JSON_COLUMNS, NUMERIC_COLUMNS, i, key);
  }

  /** The date of each row of a successful run is the conversion of its input date. */
  lemma NormalizeDateCell(raw: Frame, i: int)
    requires 0 <= i < |raw.rows|
    ensures Normalize(raw).Ok? ==>
      var u := Normalize(raw).value;
      |u.rows| == |raw.rows| && Some(u.rows[i][DATE_COLUMN]) == ConvertDate(Cell(raw.rows[i], DATE_COLUMN))
  {
    PipelineDateCell(raw, JSON_COLUMNS, NUMERIC_COLUMNS, i);
  }

  /** A date that is not a valid `YYYYMMDD` day makes the whole run fail. */
  lemma NormalizeRejectsBadDate(raw: Frame, i: int)
    requires 0 <= i < |raw.rows| && ConvertDate(Cell(raw.rows[i], DATE_COLUMN)).None?
    ensures Normalize(raw).Err?
  {
    NormalizeDateCell(raw, i);
  }

  /**
   * The transformation after `read_csv`, applied to its own output, raises:
   * the JSON columns are gone, so `data['trafficSource']` is a `KeyError`.
   */
  lemma NormalizeNotIdempotent(raw: Frame)
    ensures Normalize(raw).Ok? ==> Normalize(Normalize(raw).value) == Err(MissingColumn("trafficSource"))
  {
    NormalizeShape(raw);
  }

  /** The decimal text of the integer 20170615, digit by digit. */
  lemma DateNumberText()
    ensures IntToString(20170615) == "20170615"
  {
    assert NatToString(2) == "2";
    assert NatToString(20) == NatToString(2) + "0" == "20";
    assert NatToString(201) == NatToString(20) + "1" == "201";
    assert NatToString(2017) == NatToString(201) + "7" == "2017";
    assert NatToString(20170) == NatToString(2017) + "0" == "20170";
    assert NatToString(201706) == NatToString(20170) + "6" == "201706";
    assert NatToString(2017061) == NatToString(201706) + "1" == "2017061";
    assert NatToString(20170615) == NatToString(2017061) + "5" == "20170615";
  }

  /** `hits` and `transactionRevenue` are among the coerced totals. */
  lemma ExampleTotalsColumns()
    ensures ColumnName("totals", "hits") == "totals.hits" && "totals.hits" in NUMERIC_COLUMNS
    ensures ColumnName("totals", "transactionRevenue") == "totals.transactionRevenue"
    ensures "totals.transactionRevenue" in NUMERIC_COLUMNS
  {
    ExampleTotalsNames();
    assert NUMERIC_COLUMNS[0] == "totals.hits";
    assert NUMERIC_COLUMNS[4] == "totals.transactionRevenue";
  }

  lemma ExampleTotalsNames()
    ensures ColumnName("totals", "hits") == "totals.hits"
    ensures ColumnName("totals", "transactionRevenue") == "totals.transactionRevenue"
  {
  }

  /** The date 20170615, read as an integer, becomes the text 2017-06-15. */
  lemma ExampleDateCell()
    ensures ConvertDate(Number(20170615)) == Some(Str("2017-06-15"))
  {
    DateNumberText();
    ExampleSessionYmd();
    ExampleSessionIso();
  }

  /**
   * A session whose totals hold `hits` as the text "3" and a null revenue,
   * dated 20170615 (read by `read_csv` as an integer): preprocessing it gives
   * 3 hits, a revenue of 0 and the date 2017-06-15.
   */
  lemma ExampleSessionRow(raw: Frame, u: Frame)
    requires |raw.rows| == 1
    requires "hits" in FieldKeys(Cell(raw.rows[0], "totals")) && Field(Cell(raw.rows[0], "totals"), "hits") == Str("3")
    requires "transactionRevenue" in FieldKeys(Cell(raw.rows[0], "totals"))
    requires Field(Cell(raw.rows[0], "totals"), "transactionRevenue") == Missing
    requires Cell(raw.rows[0], DATE_COLUMN) == Number(20170615)
    requires Normalize(raw) == Ok(u)
    ensures |u.rows| == 1
    ensures "totals.hits" in u.columns && u.rows[0]["totals.hits"] == Number(3)
    ensures "totals.transactionRevenue" in u.columns && u.rows[0]["totals.transactionRevenue"] == Number(0)
    ensures u.rows[0][DATE_COLUMN] == Str("2017-06-15")
  {
    ExampleSessionHits(raw, u);
    ExampleSessionRevenue(raw, u);
    ExampleSessionDay(raw, u);
  }

  lemma ExampleSessionHits(raw: Frame, u: Frame)
    requires |raw.rows| == 1
    requires "hits" in FieldKeys(Cell(raw.rows[0], "totals")) && Field(Cell(raw.rows[0], "totals"), "hits") == Str("3")
    requires Normalize(raw) == Ok(u)
    ensures |u.rows| == 1 && "totals.hits" in u.columns && u.rows[0]["totals.hits"] == Number(3)
  {
    ExampleHitsText();
    ExampleTotalsColumns();
    NormalizeTotalsCell(raw, 0, "hits");
  }

  /** The text "3" converts to the number 3. */
  lemma ExampleHitsText()
    ensures ToNumeric(Str("3")) == Some(3)
  {
    assert AllDigits("3") && "3"[..0] == [] && ValueOf("3") == 3;
  }

  lemma ExampleSessionRevenue(raw: Frame, u: Frame)
    requires |raw.rows| == 1
    requires "transactionRevenue" in FieldKeys(Cell(raw.rows[0], "totals"))
    requires Field(Cell(raw.rows[0], "totals"), "transactionRevenue") == Missing
    requires Normalize(raw) == Ok(u)
    ensures |u.rows| == 1 && "totals.transactionRevenue" in u.columns
    ensures u.rows[0]["totals.transactionRevenue"] == Number(0)
  {
    ExampleTotalsColumns();
    NormalizeTotalsCell(raw, 0, "transactionRevenue");
  }

  lemma ExampleSessionDay(raw: Frame, u: Frame)
    requires |raw.rows| == 1
    requires Cell(raw.rows[0], DATE_COLUMN) == Number(20170615)
    requires Normalize(raw) == Ok(u)
    ensures |u.rows| == 1 && u.rows[0][DATE_COLUMN] == Str("2017-06-15")
  {
    NormalizeDateCell(raw, 0);
    ExampleDateCell();
  }
}
