/** The row normaliser: the fixed-position columns of the export, the optional
    columns found by header name, and the per-row values the aggregator reads. */
module Ingest {
  import opened Base
  import opened Strings

  /** One raw input cell: empty (pandas `NaN`) or its text. */
  datatype Cell = Blank | Str(s: string)

  /** One normalised input row. `status` is the text after `astype(str)`;
      `time` is the result of the lenient timestamp parse (absent when invalid),
      as seconds since an epoch. */
  datatype Row = Row(
    route: Option<string>,
    status: string,
    time: Option<int>,
    flee: Option<string>,
    driver: Option<string>)

  /** Column B, J and L of the export (0-based positions). */
  const RouteColumn: nat := 1
  const StatusColumn: nat := 9
  const TimeColumn: nat := 11

  /** The header test of `detect_col`: the upper-cased header contains the
      upper-cased key. */
  predicate Matches(header: string, key: string) {
    Contains(Upper(header), Upper(key))
  }

  /** Scans the headers from position `start` on and stops at the first match. */
  function DetectFrom(headers: seq<string>, key: string, start: nat): (r: Option<nat>)
    requires start <= |headers|
    decreases |headers| - start
    ensures r.Some? ==> start <= r.value < |headers| && Matches(headers[r.value], key)
    ensures r.Some? ==> forall j :: start <= j < r.value ==> !Matches(headers[j], key)
    ensures r.None? <==> forall j :: start <= j < |headers| ==> !Matches(headers[j], key)
  {
    if start == |headers| then None
    else if Matches(headers[start], key) then Some(start)
    else DetectFrom(headers, key, start + 1)
  }

  /** `detect_col`: the position of the first header, in header order, whose
      upper-cased text contains the upper-cased key; `None` exactly when no
      header does. */
  function DetectCol(headers: seq<string>, key: string): (r: Option<nat>)
    ensures r.Some? ==> r.value < |headers| && Matches(headers[r.value], key)
    ensures r.Some? ==> forall j :: 0 <= j < r.value ==> !Matches(headers[j], key)
    ensures r.None? <==> forall j :: 0 <= j < |headers| ==> !Matches(headers[j], key)
  {
    DetectFrom(headers, key, 0)
  }

  /** The two clauses of `DetectCol` pin its result down: any position that is a
      match with no match before it is the one returned. */
  lemma DetectColUnique(headers: seq<string>, key: string, c: nat)
    requires c < |headers| && Matches(headers[c], key)
    requires forall j :: 0 <= j < c ==> !Matches(headers[j], key)
    ensures DetectCol(headers, key) == Some(c)
  {
  }

  /** Upper-casing the key first changes nothing: the lookup is case-insensitive. */
  lemma DetectColCaseInsensitive(headers: seq<string>, key: string)
    ensures DetectCol(headers, Upper(key)) == DetectCol(headers, key)
  {
    UpperIdempotent(key);
    assert forall h :: Matches(h, Upper(key)) == Matches(h, key);
    var r := DetectCol(headers, key);
    if r.Some? {
      DetectColUnique(headers, Upper(key), r.value);
    }
  }

  /** A cell as an optional value: blank cells are absent. */
  function CellValue(c: Cell): Option<string> {
    match c
    case Blank => None
    case Str(s) => Some(s)
  }

  /** `astype(str)`: a blank cell becomes the text "nan". */
  function CellText(c: Cell): (t: string)
    ensures c.Str? ==> t == c.s
    ensures c.Blank? ==> Upper(t) == "NAN"
  {
    match c
    case Blank => "nan"
    case Str(s) => s
  }

  /** The value of an optional column in one row; absent when the column is. */
  function OptionalCell(row: seq<Cell>, col: Option<nat>): Option<string>
    requires col.Some? ==> col.value < |row|
  {
    match col
    case None => None
    case Some(c) => CellValue(row[c])
  }

  /** Every data row has one cell per header, as in a data frame. */
  predicate Rectangular(headers: seq<string>, body: seq<seq<Cell>>) {
    forall i :: 0 <= i < |body| ==> |body[i]| == |headers|
  }

  /** Lines 80-88 of app.py: route, status and time are read by
      position, the optional FLEE and DRIVER columns by header name, and the
      time column is parsed leniently by `parseTime`. A frame with fewer than
      twelve columns makes the positional lookup raise. */
  function Normalize(headers: seq<string>, body: seq<seq<Cell>>, parseTime: Cell -> Option<int>)
    : (r: Result<seq<Row>>)
    requires Rectangular(headers, body)
    ensures r.Err? <==> |headers| <= TimeColumn
    ensures r.Ok? ==> |r.value| == |body|
    ensures r.Ok? ==> forall i :: 0 <= i < |body| ==>
      && r.value[i].route == CellValue(body[i][RouteColumn])
      && r.value[i].status == CellText(body[i][StatusColumn])
      && r.value[i].time == parseTime(body[i][TimeColumn])
    ensures r.Ok? ==> forall i :: 0 <= i < |body| ==>
      && ((forall j :: 0 <= j < |headers| ==> !Matches(headers[j], "FLEE")) ==> r.value[i].flee == None)
      && ((forall j :: 0 <= j < |headers| ==> !Matches(headers[j], "DRIVER")) ==> r.value[i].driver == None)
    ensures r.Ok? ==> forall i, c ::
      (0 <= i < |body| && 0 <= c < |headers| && Matches(headers[c], "FLEE")
       && forall j :: 0 <= j < c ==> !Matches(headers[j], "FLEE"))
      ==> r.value[i].flee == CellValue(body[i][c])
    ensures r.Ok? ==> forall i, c ::
      (0 <= i < |body| && 0 <= c < |headers| && Matches(headers[c], "DRIVER")
       && forall j :: 0 <= j < c ==> !Matches(headers[j], "DRIVER"))
      ==> r.value[i].driver == CellValue(body[i][c])
  {
    if |headers| <= TimeColumn then Err("fewer than twelve columns")
    else
      var fleeCol := DetectCol(headers, "FLEE");
      var driverCol := DetectCol(headers, "DRIVER");
      forall c | 0 <= c < |headers| && Matches(headers[c], "FLEE")
          && (forall j :: 0 <= j < c ==> !Matches(headers[j], "FLEE"))
        ensures fleeCol == Some(c)
      {
        DetectColUnique(headers, "FLEE", c);
      }
      forall c | 0 <= c < |headers| && Matches(headers[c], "DRIVER")
          && (forall j :: 0 <= j < c ==> !Matches(headers[j], "DRIVER"))
        ensures driverCol == Some(c)
      {
        DetectColUnique(headers, "DRIVER", c);
      }
      Ok(seq(|body|, i requires 0 <= i < |body| =>
        Row(CellValue(body[i][RouteColumn]),
            CellText(body[i][StatusColumn]),
            parseTime(body[i][TimeColumn]),
            OptionalCell(body[i], fleeCol),
            OptionalCell(body[i], driverCol))))
  }
}
