# Daily DSP route report — a Dafny model of the report core

The report builder reads a daily export of delivery-route package statuses and
produces a route-health spreadsheet. This project models the part of
`app.py` that carries logic:

- **Row normaliser** (`ingest.dfy`, module `Ingest`). Route, status and status
  time are read from the 2nd, 10th and 12th columns by position. The optional
  FLEE and DRIVER columns are found by `detect_col`, which picks the first
  header whose upper-cased text contains the upper-cased key. A frame with
  fewer than twelve columns is an error.
- **Per-route aggregator** (`routes.dfy`, module `Routes`). Rows are grouped by
  route. Rows without a route are dropped, and the keys come out in ascending
  order, as `groupby` sorts them. Each group yields one record with:
  - the total, delivered (status exactly `DELIVERED`) and failed (status
    contains `FAIL`) counts;
  - the unclamped remaining count and the guarded completion rate;
  - the first and last delivery times, taken over the delivered rows that have
    a timestamp;
  - minutes since the last and hours since the first delivery, and
    deliveries per hour;
  - the status flag and the alert bucket (NO_DELIVERED / RED / YELLOW / OK).
  
  The group loop is a method that builds the record list.
- **Worksheet styling** (`sheet.dfy`, module `Sheet`). Each data row's fill
  (purple, red, yellow or none) is chosen from its StatusFlag and
  MinutesSinceLast cells and painted over the whole row. Each column's width is
  `min(max(10, longest sampled value) + 2, cap)`. The worksheet is a class whose
  fill grid and width map the two routines update in place.
- `strings.dfy` (module `Strings`) holds ASCII upper-casing, substring search
  and Python's string order. `base.dfy` (module `Base`) holds `Option`,
  `Result`, `Min` and `Max`.

Timestamps are integers (seconds since an epoch). The current time `now` is a
parameter. Ratios are `real`.

The central fact proved is this. A status equal to `DELIVERED` contains no
`FAIL`, so no row is counted as both delivered and failed. Therefore `remaining`
(total − delivered − failed, not clamped) is never negative.

## Model

| member | source | states |
|---|---|---|
| `Ingest.DetectCol` | app.py:14-19 | the result is the first position, in header order, whose upper-cased header contains the upper-cased key; `None` exactly when no header matches |
| `Ingest.DetectFrom` | app.py:16-19 | scanning from a start position returns the first matching position at or after it, or `None` exactly when none matches |
| `Ingest.DetectColUnique` | app.py:14-19 | any matching position with no match before it is the one the lookup returns |
| `Ingest.DetectColCaseInsensitive` | app.py:15-17 | upper-casing the key first does not change the lookup's result |
| `Ingest.Matches` | app.py:15-17 | a header matches when the upper-cased key occurs in the upper-cased header text |
| `Ingest.CellText` | app.py:88 | `astype(str)` keeps a cell's text, and a missing cell becomes text that upper-cases to `NAN` |
| `Ingest.Normalize` | app.py:80-88 | fewer than twelve columns is an error; otherwise there is one row per input row, with route, status and time from positions 1, 9 and 11; FLEE and DRIVER come from the first matching header, or are absent when no header matches |
| `Strings.Upper` | app.py:88 | upper-casing keeps the length, leaves no lower-case letter, keeps non-letters and moves each letter to its capital |
| `Strings.DeliveredLacksFail` | app.py:97-98 | the text `DELIVERED` does not contain `FAIL` |
| `Strings.Contains` | app.py:17 | Python's `key in text`: the key occurs as a contiguous slice of the text |
| `Strings.Lt` | app.py:95 | Python's `<` on strings: code-point lexicographic order, where a proper prefix is smaller |
| `Strings.LtIrreflexive` | app.py:95 | no string is less than itself |
| `Strings.LtTransitive` | app.py:95 | the string order is transitive |
| `Strings.LtTotal` | app.py:95 | of two different strings, one is less than the other, so the sorted key list is fully determined |
| `Routes.DeliveredIsNotFailed` | app.py:97-98 | no row is both delivered and failed |
| `Routes.DeliveredPlusFailedAtMostTotal` | app.py:96-99 | delivered + failed never exceeds the group's row count |
| `Routes.IsDelivered` | app.py:97 | a row is delivered when its upper-cased status equals `DELIVERED` exactly |
| `Routes.IsFailed` | app.py:98 | a row is failed when its upper-cased status contains `FAIL`; a blank status reads as `nan` and never does |
| `Routes.IsTimedDelivery` | app.py:105 | the `delivered_rows` mask: the upper-cased status is exactly `DELIVERED` and the parsed time is present |
| `Routes.Count` | app.py:97-98 | the boolean `.sum()` over a group: at most the group's size, and by `CountIsPositions` the number of rows that pass the test |
| `Routes.CountIsPositions` | app.py:97-98 | the recursive count equals the number of positions whose row passes the test |
| `Routes.GroupKeys` | app.py:95 | the keys are strictly ascending, so each appears once; a string is a key exactly when some row carries it as its route; rows without a route contribute nothing |
| `Routes.Insert` | app.py:95 | adding a key to the key list gives exactly the old keys plus the new one |
| `Routes.InsertKeepsSorted` | app.py:95 | adding a key keeps the key list strictly ascending |
| `Routes.Group` | app.py:95 | a group holds only rows with its route, every row with that route is in it, and it is no longer than the input |
| `Routes.GroupMultiplicity` | app.py:95 | each row carrying the key occurs in the group exactly as often as in the input, and no other row occurs in it |
| `Routes.GroupOfKeyNotEmpty` | app.py:95-96 | the group of any key has at least one row |
| `Routes.Flee` | app.py:102 | the FLEE cell of a row, the column `g[flee_col]` reads |
| `Routes.Driver` | app.py:103 | the DRIVER cell of a row, the column `g[driver_col]` reads |
| `Routes.Column` | app.py:102-103 | `g[flee_col]` / `g[driver_col]`: one entry per row of the group, in group order, each that row's cell |
| `Routes.FirstOfRoute` | app.py:95-103 | scanning the whole input in order, the column value of the earliest row that has the key and a value in that column; absent exactly when no row with the key has one |
| `Routes.GroupFirst` | app.py:95-103 | groups keep input order: the group's first FLEE (or DRIVER) value is the one `FirstOfRoute` finds in the whole input |
| `Routes.DeliveryTimes` | app.py:105 | the times listed are exactly those of the delivered, timestamped rows, and there are no more of them than delivered rows |
| `Routes.Earliest` | app.py:115 | the result is an element of the sequence and no element is smaller |
| `Routes.Latest` | app.py:116 | the result is an element of the sequence and no element is larger |
| `Routes.FirstPresent` | app.py:102-103 | the result is the first non-missing value, and absent exactly when all values are missing |
| `Routes.CompletionRate` | app.py:100 | the rate is 0.0 for a zero total; otherwise rate × total = delivered; it lies in [0, 1] whenever delivered ≤ total |
| `Routes.PerHour` | app.py:119 | the rate is present exactly when hours > 0; then rate × hours = delivered and the rate is non-negative |
| `Routes.Classify` | app.py:120-126 | RED iff minutes > 60, YELLOW iff 30 < minutes ≤ 60, OK iff minutes ≤ 30; never NO_DELIVERED |
| `Routes.Flag.Text` | app.py:112 | the StatusFlag text: `NO_DELIVERED` for a group without timed deliveries, `HAS_DELIVERED` otherwise (app.py:120) |
| `Routes.Metrics` | app.py:96-143 | the record carries the group's route and its row count as total |
| `Routes.MetricsCounts` | app.py:96-100 | delivered and failed count the rows passing each test; remaining = total − delivered − failed and is ≥ 0; the completion rate is `CompletionRate` of the counts and lies in [0, 1] |
| `Routes.MetricsNames` | app.py:102-103 | driver and FLEE name are the first non-missing values in the group, absent exactly when all are missing |
| `Routes.MetricsNoDelivered` | app.py:105-113 | the flag is NO_DELIVERED iff no row is both delivered and timestamped; then first, last, minutes, hours and per-hour are all absent; the bucket is NO_DELIVERED iff the flag is |
| `Routes.MetricsDeliveries` | app.py:114-126 | with the flag HAS_DELIVERED: first and last are the min and max delivered timestamps, first ≤ last, minutes = (now − last)/60, hours = (now − first)/3600, minutes ≤ 60 × hours, delivered ≥ 1, per-hour is `PerHour(delivered, hours)`, and the bucket follows the 30/60-minute thresholds |
| `Routes.AggregateRoutes` | app.py:94-144 | one record per group key, in key order, each the group's metrics; routes in the output are pairwise distinct; a route is in the output iff some row carries it; every record has total ≥ 1 |
| `Routes.RecordsCoverRoutes` | app.py:95-144 | records made one per group key have pairwise distinct routes, name exactly the routes some row carries, and each count at least one row |
| `Sheet.RowFill` | app.py:52-66 | purple iff the flag cell is `NO_DELIVERED`; otherwise red iff minutes > 60, yellow iff 30 < minutes ≤ 60, and no fill iff minutes ≤ 30 or the cell is empty or not a number |
| `Sheet.Worksheet.ChosenFill` | app.py:45-66 | the fill `RowFill` chooses for data row r from its StatusFlag and MinutesSinceLast cells, the columns located with `list.index` |
| `Sheet.FillMatchesUnroundedBucket` | app.py:55-64 | for a record's flag text, purple iff the bucket is NO_DELIVERED; when the minutes cell holds the record's unrounded minutes, red, yellow and no fill coincide with RED, YELLOW and OK |
| `Sheet.IndexOf` | app.py:45-47 | `list.index`: the first position holding the name |
| `Sheet.ApplyRouteColors` | app.py:40-70 | every data row with a chosen fill has that fill in every column; the header row and rows with no chosen fill keep their fills; the fill grid keeps the sheet's shape (`Valid`) |
| `Sheet.SampledLen` | app.py:34-37 | the result is at least 10 and at least the length of every non-empty sampled value; it is 10 or one of those lengths |
| `Sheet.Worksheet.Sample` | app.py:35 | the sample is the first `min(sampleRows, max_row)` cells of the column, header included |
| `Sheet.LongestSampled` | app.py:34-37 | the loop's running maximum equals `SampledLen` of the column's sample and bounds every non-empty sampled value's length |
| `Sheet.ColumnWidth` | app.py:34-38 | min(12, cap) ≤ width ≤ cap; every non-empty sampled value fits with two spare characters unless the cap cuts it; the width is min(12, cap) or min(len + 2, cap) for some sampled value. Together these force `min(max(10, longest) + 2, cap)`, the least width meeting the first two bounds |
| `Sheet.Autosize` | app.py:31-38 | every column number 1..max_column gets `ColumnWidth` of its sample; widths under other keys are kept; the fill grid keeps the sheet's shape (`Valid`) |

## Left out

- The Streamlit page, file upload and download, and `pd.read_*` parsing. Cells reach the model as text or blank; pandas' numeric and date typing of input cells is not modelled. This includes numeric route keys, which pandas would sort numerically.
- `style_header` (app.py:21-29), fonts, alignment, `freeze_panes`, `auto_filter`, number formats and workbook serialisation. These are styling calls into openpyxl. `ApplyRouteColors` still requires the `CompletionRate` column because `list.index` raises without it, but it does not model setting that column's number format.
- Time zones and `datetime.now` (app.py:90-92): `now` is a parameter, in seconds. Timestamps are whole seconds rather than pandas' nanoseconds.
- `pd.to_datetime(..., errors="coerce")` (app.py:87): `Normalize` takes the parse as a function parameter `parseTime`, where an invalid value maps to `None`. If a FLEE or DRIVER header were the time column itself, the group would read the parsed timestamp; the model reads the raw cell.
- `round(..., 1)` and `round(..., 2)` (app.py:138-141): records hold the unrounded minutes, hours and per-hour values. The bucket uses the unrounded minutes, while the fill reads whatever number the sheet holds. For example, 60.04 minutes is RED but its rounded cell 60.0 gets a yellow fill. `FillMatchesUnroundedBucket` therefore claims agreement only for the unrounded value.
- Everything after app.py:148: the sort, the carrier summary, the Exceptions sheet, the 3pm/6pm gates, the Meta sheet and writing the record table into the worksheet. The source is truncated there, so there is no code to model.
- `Strings.Upper`: upper-cases ASCII letters only. Python's full Unicode `str.upper()` (non-ASCII letters, `ß` → `SS`) is not modelled.
- `Sheet.RowFill`: treats a text cell in the minutes column as not a number, although `float()` would parse numeric text. The report writes only numbers or nothing there. A NaN cell behaves like an empty one, and the model does not represent it separately.
- `Ingest.DetectCol`: returns the header's position rather than the label object; duplicate labels are not modelled.
- `Sheet.Autosize`: keys widths by column number rather than column letter. It collects the new widths in a local map and stores them once, after the loop, where the source assigns each column in turn; nothing reads the widths in between, so the final state is the same. `sampleRows` is a natural number, so Python's negative-slice behaviour is not modelled.
- Grouping drops only missing routes (`dropna=True`). A blank cell is a missing route; an empty-string route forms a group of its own.
- `remaining` is not clamped, yet it cannot go negative: a status equal to `DELIVERED` never contains `FAIL`, so no row is counted twice (`MetricsCounts`).
