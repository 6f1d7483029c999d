# Google Analytics dashboard: the session normaliser and the group counts

`ga_dashboard.py` is a Streamlit dashboard over a sample of Google Store
sessions from Google Analytics. Under the UI there is a small data
pipeline, and that pipeline is what this project models and proves things
about.

- **`preprocess_json`**.
  - It flattens the four JSON columns (`trafficSource`, `geoNetwork`,
    `device`, `totals`) into one `<column>.<key>` column per object key.
  - It coerces the five `totals.*` counters to numbers, filling missing
    values with 0.
  - It rewrites the session `date` from `YYYYMMDD` to `YYYY-MM-DD`. The
    date is read as `pd.to_datetime(..., format='%Y%m%d')` reads it: with
    `strptime`'s regular expression (so `2017615` is 15 June 2017), then
    the calendar and the range of a pandas `Timestamp`.
- **The panel counts**. For one grouping column (browser, device category,
  continent, sub-continent or date) there are two counts:
  - the visits per label: `groupby(col)['totals.transactionRevenue'].count()`,
    sorted by count, descending;
  - the purchases per label: the same count over the rows whose revenue is
    `> 0`.

Files:

- `wrappers.dfy`: `Option` and `Result`.
- `digits.dfy` (module `Digits`): decimal text.
  - Zero-padded numbers and the integer literals `pd.to_numeric` accepts.
  - Python's code-point order on strings.
- `table.dfy` (module `Table`): the frame.
  - A cell is missing, a number, a string or an already-parsed JSON object.
  - A row maps column labels to cells.
  - A `Frame` is a set of column labels and rows that all carry exactly
    those labels.
  - `Error` names the exceptions that abort a run.
- `dates.dfy` (module `Dates`): the date reader and the `YYYY-MM-DD`
  writer.
  - `ParseYmd` reads a date with `strptime`'s rules for `%Y%m%d`. `%m` and
    `%d` also match a single digit, and the first alternative that matches
    wins.
  - `ParseCompact` is the eight-digit reading. `ParseYmdEightDigits` proves
    that the two agree on eight-digit text.
  - Both use Gregorian leap years and the range of days a pandas
    `Timestamp` can hold.
- `normalizer.dfy` (module `Normalizer`): `preprocess_json`.
  - Each of its steps is a function on a frame: `FlattenColumn`,
    `CoerceColumn` and `ConvertDates`.
  - `Fold` runs a step over a list of columns and stops at the first error.
  - `Pipeline` is the whole run for any lists of JSON and numeric columns.
    `Normalize` is `Pipeline` with the lists `preprocess_json` uses.
  - The method `PreprocessJson` runs it with the source's two loops (through
    the loop method `ApplyEach`). It is proved equal to `Normalize`.
- `aggregates.dfy` (module `Aggregates`): the counts.
  - `GroupBy`: `groupby(...).count()` as a fold over the rows. It gives a map
    from label to count and the labels in ascending order.
  - `Purchases`: the `> 0` row filter.
  - `Rank`: `sort_values(ascending=False)`.
  - `VisitCounts` and `PurchaseCounts`: the two charts of each panel.

Modelling choices:

- A missing group label (NaN) is dropped by `groupby`, as pandas does with
  its default `dropna=True`.
- An object used as a label is unhashable, so the run fails.
- `count` counts the rows whose revenue is not missing.
- The model fails in these cases; pandas accepts more in the second and
  third (see "## Left out"):
  - a missing column (`KeyError`);
  - a JSON cell that is not an object (pandas before 1.3 raises; later
    versions read it as an empty object);
  - a total that is not integer text (`pd.to_numeric` also reads decimal
    and exponent text);
  - a date text that `strptime` with `%Y%m%d` does not match in full, or
    that names no valid day in the `Timestamp` range;
  - `> 0` on a string.
- Pandas first tries a whole-column shortcut for the `%Y%m%d` format. Where
  the shortcut reads a value, it reads it as `ParseYmd` does; the cases
  where the shortcut accepts more are under "## Left out".

Source differences:

- The source runs `count.sort_index()` and `non_zero.sort_index()`
  (ga_dashboard.py:156, 163) for their effect but discards the result. The
  date charts therefore rely on `groupby`'s own ascending label order. The
  model follows that, and `DatePanelChronological` proves that this order is
  already chronological for the normalised ISO dates.
- `preprocess_json` takes no frame as input. It reads the CSV file
  itself, and `@st.cache` memoises its result, so "running it on its own
  output" cannot be posed of the function as written, and no idempotence
  property is stated. What can be posed is the transformation after
  `read_csv`. `NormalizeNotIdempotent` proves that this transformation,
  applied to its own output (a frame without `trafficSource`), raises
  `KeyError` at `data[col]` (ga_dashboard.py:50).

## Model

| member | source | states |
|---|---|---|
| Normalizer.PreprocessJson | ga_dashboard.py:41-60 | The imperative run computes exactly `Normalize` on every input: each error that aborts it and, on success, the same frame. |
| Normalizer.ApplyEach | ga_dashboard.py:49-56 | The loop over a column list applies the step to each column in order and stops at the first failing step. Its result equals `Fold` of the list. |
| Normalizer.Fold | ga_dashboard.py:49-56 | The reference definition of the two `for col in ...` loops: apply the step to each column in turn and stop at the first error, as the raise does. It has no contract of its own; `ApplyEach` and `FoldAppend` state its properties. |
| Normalizer.ObjectKeys | ga_dashboard.py:50 | A key becomes a column exactly when some row's object has it (`json_normalize` takes the union of the keys). |
| Normalizer.FlattenRow | ga_dashboard.py:51-52 | One merged row drops the JSON column and gains one `<column>.<key>` cell per key, holding the object's value or missing. Every other cell is unchanged. |
| Normalizer.FlattenColumn | ga_dashboard.py:49-52 | Succeeds exactly when the column exists and every cell is an object; otherwise it gives `MissingColumn` or `ParseError`. On success the row count is kept, the labels are the old ones minus the column plus `<column>.<key>`, and the bare column is gone. Each new cell is its row's field; every other cell is unchanged. |
| Normalizer.FoldAppend | ga_dashboard.py:49-52 | Running the steps over `a + b` is running them over `a`, then over `b` from that result, unless `a` already failed. |
| Normalizer.FlattenAllPassThrough | ga_dashboard.py:49-52 | An undotted label that is not one of the flattened columns keeps its presence and every one of its cells through the whole flattening loop. The row count is kept. |
| Normalizer.FlattenAllDrops | ga_dashboard.py:49-52 | After the flattening loop succeeds, none of the flattened JSON columns is still a label. |
| Normalizer.FlattenLastCell | ga_dashboard.py:49-52 | After the loop, each key seen in the last JSON column's objects is a `<column>.<key>` column. Each row holds its own object's field there. |
| Normalizer.ForeignNameNotPrefixed | ga_dashboard.py:51 | Two different undotted columns never produce the same flattened label, and a flattened label is never an undotted column. |
| Normalizer.FlattenKeepsFlattened | ga_dashboard.py:49-52 | Flattening another column keeps an already flattened label, in every row with the same cell. |
| Normalizer.FlattenAllKeeps | ga_dashboard.py:49-52 | Flattening a list of other columns keeps an already flattened label and all its cells. |
| Normalizer.FlattenAllCell | ga_dashboard.py:49-52 | For any column of the loop, listed once: after the whole loop, each key seen in that column's objects is a `<column>.<key>` column, with each row's own field, whatever is flattened after it. |
| Normalizer.ToNumeric | ga_dashboard.py:55-56 | A non-empty text converts exactly when it is the decimal text of an integer, and then to that integer. |
| Normalizer.ToNumericSpec | ga_dashboard.py:55-56 | The decimal text of any integer reads as that integer. Converting an already converted value changes nothing. |
| Normalizer.CoerceColumn | ga_dashboard.py:55-56 | Succeeds exactly when the column exists and every cell converts; otherwise it gives `MissingColumn` or `ConversionError`. On success every cell of the column is the converted number (missing becomes 0); the labels, the row count and all other cells are unchanged. |
| Normalizer.CoerceAllPassThrough | ga_dashboard.py:54-56 | The coercion loop keeps the labels and the row count. It leaves every column outside the list unchanged. |
| Normalizer.CoerceAllValue | ga_dashboard.py:54-56 | After the coercion loop, each listed column holds in every row the number its original cell converts to. |
| Normalizer.CoerceAllRejects | ga_dashboard.py:55 | One non-convertible cell in a listed column makes the whole loop fail. |
| Normalizer.ConvertDate | ga_dashboard.py:57-58 | A converted date is missing exactly when the input was missing. Otherwise it is a text of `YYYY-MM-DD` shape. |
| Normalizer.ConvertDateSpec | ga_dashboard.py:57-58 | A converted date, with its dashes removed, reads as the same day as its input (a text, or the decimal text of an integer). An eight-digit input is given back exactly. |
| Normalizer.ConvertDates | ga_dashboard.py:57-58 | Succeeds exactly when `date` exists and every cell converts; otherwise it gives `MissingColumn` or `DateFormatError`. On success only the date cells change, each to its conversion. |
| Normalizer.Pipeline | ga_dashboard.py:41-60 | The reference definition: flatten each JSON column, then coerce each numeric column, then convert the date, stopping at the first error. It has no contract of its own; the `Pipeline...` lemmas state its properties. |
| Normalizer.Normalize | ga_dashboard.py:41-60 | The reference definition: `Pipeline` with the four JSON columns and the five totals of the source. It has no contract of its own; `PreprocessJson` and the `Normalize...` lemmas state its properties. |
| Normalizer.PipelineShape | ga_dashboard.py:41-60 | For any lists of JSON and numeric columns, a successful run keeps the row count. No JSON column is left, every numeric column holds a number in every row, and every date is missing or ISO-shaped. |
| Normalizer.PipelinePassThrough | ga_dashboard.py:49-58 | An undotted label outside all three steps, such as `fullVisitorId`, keeps its presence and every one of its cells. |
| Normalizer.PipelineLastCell | ga_dashboard.py:49-56 | A numeric column flattened from the last JSON column holds, in each row, the number that row's field converts to. |
| Normalizer.PipelineFlattenedCell | ga_dashboard.py:49-58 | A flattened label that is not coerced holds, in each row, that row's own field of the JSON object. |
| Normalizer.PipelineRejectsNonNumeric | ga_dashboard.py:53-56 | A field of a numeric column that does not convert makes the whole run fail. |
| Normalizer.PipelineDateCell | ga_dashboard.py:57-58 | Each row's output date is the conversion of that row's input date. |
| Normalizer.NormalizeShape | ga_dashboard.py:41-60 | After `preprocess_json` the row count is kept. The four JSON columns are gone. The five totals are numbers in every row. The date is missing or `YYYY-MM-DD`. |
| Normalizer.NormalizePassThrough | ga_dashboard.py:49-58 | Any other undotted column, such as `fullVisitorId`, passes through unchanged. |
| Normalizer.NormalizeTotalsCell | ga_dashboard.py:49-56 | Each total seen in some session's `totals` object holds, in each row, the number that row's field converts to. A missing field becomes 0. |
| Normalizer.NormalizeFlattenedCell | ga_dashboard.py:49-52 | Each key seen in the `trafficSource`, `geoNetwork` or `device` objects is a `<column>.<key>` column. Each row holds its own object's value there, unconverted. |
| Normalizer.NormalizeRejectsNonNumeric | ga_dashboard.py:55 | A present total that is not integer text, anywhere, makes `preprocess_json` fail. |
| Normalizer.NormalizeDateCell | ga_dashboard.py:57-58 | Each row's date is rewritten by the date conversion. |
| Normalizer.NormalizeRejectsBadDate | ga_dashboard.py:57 | A date that the `%Y%m%d` reading rejects makes `preprocess_json` fail. |
| Normalizer.NormalizeNotIdempotent | ga_dashboard.py:49-52 | The transformation after `read_csv`, applied to its own output, fails with a missing `trafficSource` column. |
| Normalizer.ExampleDateCell | ga_dashboard.py:57-58 | The integer date 20170615 becomes `2017-06-15`. |
| Normalizer.ExampleSessionRow | ga_dashboard.py:41-60 | A session with `hits` "3", a null revenue and date 20170615 comes out with 3 hits, revenue 0 and date `2017-06-15`. |
| Digits.ParseIntToString | ga_dashboard.py:55 | The integer reader reads back any integer's decimal text as that integer. |
| Digits.ParseInt | ga_dashboard.py:55 | The integer reading of `pd.to_numeric`: an optional sign, then at least one ASCII digit. It has no contract of its own; `ParseIntDecimal` states it exactly against `DecimalText`. |
| Digits.ParseIntDecimal | ga_dashboard.py:55 | The integer reader returns `n` exactly when the text is decimal text for `n`: its canonical digits after any leading zeros, with `-` if `n` is not positive, or optionally `+` if it is not negative. |
| Digits.CanonicalDigits | ga_dashboard.py:55 | Every non-empty digit string is some leading zeros followed by the canonical text of its value. |
| Digits.PaddedValueOf | ga_dashboard.py:57 | Padding a digit string's value to its own width gives the string back. |
| Digits.ValueOfPadded | ga_dashboard.py:58 | Reading a zero-padded number gives it back when it fits the width. |
| Digits.PaddedOrder | ga_dashboard.py:58 | At one width, string order of padded numbers is numeric order. |
| Dates.ParseCompact | ga_dashboard.py:57 | The eight-digit reading gives only valid days, and the day's compact form is the input. |
| Dates.FormatIso | ga_dashboard.py:58 | The ISO text has ten characters, with dashes after the year and the month. Removing the dashes gives the compact form. |
| Dates.TwoDigitMonth | ga_dashboard.py:57 | The two-digit alternatives of `%m` match only a month from 1 to 12. |
| Dates.DayAt | ga_dashboard.py:57 | `%d` takes one or two characters and gives a day from 1 to 31. |
| Dates.MatchMonthDay | ga_dashboard.py:57 | The month and day the regular expression captures: a month from 1 to 12, ending between positions 6 and 8. |
| Dates.ParseYmd | ga_dashboard.py:57 | An accepted text names a valid day in the `Timestamp` range. It has six to eight characters, the first four of them digits. |
| Dates.ParseYmdEightDigits | ga_dashboard.py:57 | On eight-digit text, the `strptime` reading and the eight-digit reading agree, acceptance included. |
| Dates.YmdOfCompact | ga_dashboard.py:57-58 | Every valid day, written compactly, is read back as itself. |
| Dates.ParseThenFormat | ga_dashboard.py:57-58 | An accepted `YYYYMMDD` text names a valid day, and its compact form is the input. The ISO output is the input's three parts joined by dashes, so removing the dashes gives the input back. |
| Dates.ParseCompactOfCompact | ga_dashboard.py:57 | An eight-digit date text is accepted exactly when it names a valid calendar day in the `Timestamp` range, and is then read back unchanged. |
| Dates.FormatThenParse | ga_dashboard.py:57-58 | Every valid day round-trips through its compact text. |
| Dates.IsoOrderIsChronological | ga_dashboard.py:154-163 | For valid days, Python's string `<` on the ISO texts holds exactly when the first day is earlier. |
| Dates.ExampleSessionDate | ga_dashboard.py:57 | `20170615` reads as 15 June 2017. |
| Dates.ExampleSessionYmd | ga_dashboard.py:57 | `20170615` reads as 15 June 2017 under `strptime` rules too. |
| Dates.ExampleShortMonth | ga_dashboard.py:57 | `2017615` reads as 15 June 2017. |
| Dates.ExampleShortDay | ga_dashboard.py:57 | `2017061` reads as 1 June 2017. |
| Dates.ExampleAmbiguous | ga_dashboard.py:57 | `2017111` reads as 1 November 2017, not 11 January. |
| Dates.ExampleRefused | ga_dashboard.py:57 | Text left after the match (`201706150`) and a dashed date are rejected. |
| Dates.ExampleSessionIso | ga_dashboard.py:58 | 15 June 2017 is written `2017-06-15`. |
| Dates.ExampleLeapDay | ga_dashboard.py:57 | `20160229` is accepted (2016 is a leap year). |
| Dates.ExampleNoLeapDay | ga_dashboard.py:57 | `20170229` is rejected. |
| Dates.IsLeapYear | ga_dashboard.py:57 | The Gregorian leap-year rule. It has no contract of its own; `ExampleCalendar`, `ExampleLeapDay` and `ExampleNoLeapDay` state it on the century and four-year cases. |
| Dates.DaysInMonth | ga_dashboard.py:57 | Every month has between 28 and 31 days. |
| Dates.IsValid | ga_dashboard.py:57 | The calendar check that `format=` enforces: a month 1 to 12, a day within its month, and a day within the `Timestamp` range. It has no contract of its own; `ExampleCalendar` and `ParseCompactOfCompact` state it. |
| Dates.ExampleCalendar | ga_dashboard.py:57 | 1900-02-29 and 2017-04-31 are rejected, 2000-02-29 and 2017-03-31 accepted; 1677-09-22 and 2262-04-11 are the first and last accepted days. |
| Dates.Compact | ga_dashboard.py:57 | The `%Y%m%d` text of a day. It has no contract of its own; `ParseCompactOfCompact`, `YmdOfCompact` and `FormatIso` state it. |
| Aggregates.KeyOf | ga_dashboard.py:94 | A cell has no group exactly when it is missing (`dropna`) or an object. A number gets a numeric label and a text a text label. |
| Aggregates.KeyOfInjective | ga_dashboard.py:94 | Two cells share a group only when they hold the same value. |
| Aggregates.KeyLessTotal | ga_dashboard.py:94 | The group-label order is total: two different labels are comparable. |
| Aggregates.KeyLess | ga_dashboard.py:94 | The group-index order: numbers before texts, numbers by value, texts in code-point order. It has no contract of its own; `KeyLessTotal`, `KeyLessTransitive` and `AscendingChronological` state it. |
| Aggregates.KeyLessTransitive | ga_dashboard.py:94 | The group-label order is transitive. |
| Aggregates.Insert | ga_dashboard.py:94 | Adding a label to an ascending label list keeps it ascending, and the result holds exactly the old labels and the new one. |
| Aggregates.AllCounted | ga_dashboard.py:94 | When no revenue is missing, each label's count is the number of rows carrying that label. The counted rows are all the labelled rows. |
| Aggregates.CountKey | ga_dashboard.py:94 | The independent count of a label's rows with revenue present. It has no contract of its own; `Tally`, `GroupBy` and `AllCounted` tie the group-by's counts to it. |
| Aggregates.Tally | ga_dashboard.py:94 | The labels come out ascending. They are exactly the labels some row carries (missing labels dropped). Each label's count is the number of its rows with a revenue present. |
| Aggregates.TallyTotal | ga_dashboard.py:94 | The counts add up to the number of labelled rows with a revenue present. Each row is counted once, under its own label. |
| Aggregates.InsertByCount | ga_dashboard.py:96 | Inserting a label into a list ranked by count keeps it ranked, and the result is a permutation of the list plus the label. |
| Aggregates.Rank | ga_dashboard.py:96 | The descending sort ranks the labels by non-increasing count and is a permutation of its input. |
| Aggregates.RankTotal | ga_dashboard.py:96 | Sorting keeps the sum of the counts. |
| Aggregates.GroupBy | ga_dashboard.py:94 | Succeeds exactly when the grouping column and the revenue column exist and no label is an object; errors are reported in the order pandas meets them. On success every label appears once, in ascending order, with its count of rows. The counts sum to the counted rows. |
| Aggregates.GroupError | ga_dashboard.py:94 | The error pandas meets first: the grouping column, then the revenue column, then an object label. It has no contract of its own; `GroupBy` states when it is reported. |
| Aggregates.RankGroups | ga_dashboard.py:95-96 | Sorting keeps the counts and the set of listed labels, and ranks them by non-increasing count. |
| Aggregates.VisitCounts | ga_dashboard.py:94-96 | The visit chart: the same success condition and errors as `GroupBy`. On success the per-label counts are listed once each, by non-increasing count. |
| Aggregates.PurchaseRows | ga_dashboard.py:103 | A row is kept exactly when it is given and its revenue is a positive number. |
| Aggregates.PurchaseRowsMultiset | ga_dashboard.py:103 | The filter keeps each purchasing row as many times as it occurs, and no other row. |
| Aggregates.PurchaseRowsConcat | ga_dashboard.py:103 | Filtering a concatenation is filtering each part, in order, so the filter keeps the rows' order. |
| Aggregates.Purchases | ga_dashboard.py:103 | `df[df[rev] > 0]` succeeds exactly when the revenue column exists and no revenue cell is a string or object; otherwise it gives `MissingColumn` or `ComparisonError`. On success it keeps the labels, and its rows are the filtered rows in order. |
| Aggregates.PurchaseRowsCount | ga_dashboard.py:103 | Counting a label over the filtered rows gives its purchasing rows, which are never more than its visits. |
| Aggregates.HitPositive | ga_dashboard.py:94 | A label that a counted row carries has a count of at least 1. |
| Aggregates.PurchaseGroupBy | ga_dashboard.py:103 | The purchase group-by succeeds exactly when its filter and group-by do, with the first error otherwise. On success the labels are exactly those of purchasing rows, ascending and listed once each, with count equal to the number of purchasing rows. |
| Aggregates.PurchaseError | ga_dashboard.py:103 | The error pandas meets first: the revenue column, then a revenue `> 0` cannot compare, then the grouping column, then an object label. It has no contract of its own; `PurchaseGroupBy` states when it is reported. |
| Aggregates.Purchasers | ga_dashboard.py:103 | The independent count of a label's purchasing rows. It has no contract of its own; `PurchaseRowsCount` and `PurchaseGroupBy` tie the purchase counts to it. |
| Aggregates.PurchaseCounts | ga_dashboard.py:103-104 | The purchase chart: the same success condition and errors as `PurchaseGroupBy`. On success a label is present exactly when some row with that label has a positive revenue. Its count is the number of such rows, and the labels are ranked by non-increasing count. |
| Aggregates.TalliesBound | ga_dashboard.py:103 | Every purchase label is a visit label, and its purchase count is between 1 and its visit count. |
| Aggregates.PurchasesWithinVisits | ga_dashboard.py:103-104 | When both charts are computed, every label with a purchase is in the visit chart. Its purchase count is at least 1 and at most its visit count. |
| Aggregates.NormalizedRevenue | ga_dashboard.py:53-56 | After `preprocess_json` the revenue column holds a number in every row. |
| Aggregates.NormalizedVisitCounts | ga_dashboard.py:94-96 | On the normalised frame, the visit chart succeeds exactly when the label column exists and holds no object. Each label's count is the number of rows carrying it. The counts sum to the labelled rows. |
| Aggregates.NormalizedPurchaseCounts | ga_dashboard.py:103-104 | On the normalised frame, the purchase chart succeeds exactly when the label column exists and no purchasing row has an object label. |
| Aggregates.ConvertDateIsIso | ga_dashboard.py:57-58 | Every converted date is missing or the ISO text of a valid day. |
| Aggregates.NormalizedDates | ga_dashboard.py:57-58 | After `preprocess_json` every date is missing or the ISO text of a valid day. |
| Aggregates.DateLabels | ga_dashboard.py:154-156 | Ascending date labels drawn from ISO dates are in chronological order. |
| Aggregates.AscendingChronological | ga_dashboard.py:154-156 | In an ascending label list, an ISO date listed earlier is an earlier day. |
| Aggregates.DateVisitCurve | ga_dashboard.py:154-156 | On a frame of ISO dates and numeric revenue, the date visit counts succeed and their labels are chronological. |
| Aggregates.DatePurchaseCurve | ga_dashboard.py:162-163 | The same holds for the date purchase counts. |
| Aggregates.DatePanelChronological | ga_dashboard.py:154-163 | After `preprocess_json`, both date group-bys succeed and list their dates chronologically, although the `sort_index()` results are discarded. |
| Aggregates.ExampleBrowserCounts | ga_dashboard.py:94-96 | Two Chrome sessions and one Firefox session give the counts Chrome 2, Firefox 1, listed Chrome first. |
| Aggregates.TwoGroups | ga_dashboard.py:94-96 | Two rows of one label and one of another give counts 2 and 1, with the larger listed first. |

## Left out

- The Streamlit page (markdown, image, checkboxes, `st.write`), the Bokeh
  figures, panels and tabs, and `_markdown`. They only render.
- `pd.read_csv`, its `nrows=10000` cap and `index_col=0`, and the write-back
  `raw_df.to_csv`. These are file I/O; the model starts from an in-memory
  frame.
- `json.loads` in `converters`. The JSON columns are modelled as holding
  already-parsed objects.
- Normalizer.FlattenColumn: a cell that is not an object (JSON `null`, a
  number, a string) fails the run with `ParseError`, as `json_normalize`
  does in pandas before 1.3. From pandas 1.3 on, `json_normalize` with
  default arguments reads such a cell as an empty object, which gives a
  row of missing cells; the model does not follow those versions.
- Nested objects. `json_normalize` flattens recursively into
  `a.b.c` columns; the model flattens one level, so a nested object stays
  an object cell.
- Row identity. `json_normalize` numbers its rows `0..n-1`, while `data`'s
  index is the CSV's first column (`index_col=0`). The merge on the index
  is modelled as a positional join, which assumes that this column holds
  `0..n-1` in order. A file with any other index would lose or misalign
  rows in the inner merge.
- Label collisions. A flattened label that already exists gets a suffix
  in pandas (`_x`/`_y`); the model lets the flattened cell win.
- `@st.cache` memoisation. It cannot be seen in any result.
- The correlation matrix and the per-label means. These are floating
  point.
- Normalizer.ToNumeric: numbers are integers. `pd.to_numeric` also
  reads decimal and exponent text, and surrounding whitespace; these are
  not modelled. The empty string reads as missing, hence 0.
- Normalizer.ConvertDate: a missing date stays missing (`NaT` passes
  through `strftime` as NaN). Pandas' other spellings of missing
  (`"NaT"`, `"nan"`) are not recognised and fail as bad dates.
- Normalizer.ConvertDateSpec: dates are read one cell at a time with
  `strptime` rules. Pandas first tries a whole-column shortcut that reads
  every value with `int()`. When the shortcut succeeds on every value it
  also accepts texts such as `+20170615`, ` 20170615` or `020170615`,
  which the model rejects.
- Normalizer.NormalizeRejectsBadDate: stated for the `strptime` reading.
  It therefore does not cover the texts the whole-column shortcut accepts
  (see the line above).
- Dates.ParseYmd: digits are ASCII. Python's `\d` and `int()` also accept
  other Unicode decimal digits. A date column that `read_csv` reads as
  floats (because some dates are missing) is modelled as integers and
  missing cells. Pandas reads such a column only through its whole-column
  shortcut; `strptime` rules would see `2017615.0` where the model reads
  `2017615`.
- Aggregates.KeyLessTotal: labels are numbers or strings. A column that
  mixes them is ordered with numbers before strings. Pandas' own handling
  of an unorderable mix is not modelled.
- Aggregates.Rank: `sort_values(ascending=False)` uses quicksort, whose
  order among equal counts is unspecified. The model's sort keeps
  ascending label order among ties, and its contract promises only the
  ranking and the permutation.
- Normalizer.ExampleSessionRow: stated for a run that succeeds. Success
  depends on the other cells of the session, which the example leaves
  open.
