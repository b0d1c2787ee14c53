/** The worksheet steps that carry logic: the row fill chosen from a route's
    status flag and staleness, painted across the whole row, and the column
    width rule. */
module Sheet {
  import opened Base
  import opened Routes

  /** A cell value as the worksheet holds it. `shown` is Python's `str()` of a
      number or a timestamp, which the model carries rather than computes. */
  datatype Value = Empty | Text(s: string) | Number(x: real, shown: string) | Stamp(t: int, shown: string)

  /** `str(value)` of a non-empty cell. */
  function Shown(v: Value): string {
    match v
    case Empty => "None"
    case Text(s) => s
    case Number(_, shown) => shown
    case Stamp(_, shown) => shown
  }

  /** A cell background: none, or a solid fill of the given RGB colour. */
  datatype Fill = NoFill | Solid(rgb: string)

  const YellowFill: Fill := Solid("FFF2CC")
  const RedFill: Fill := Solid("F8CBAD")
  const PurpleFill: Fill := Solid("E4DFEC")

  /** The fill of one data row, from its StatusFlag and MinutesSinceLast cells:
      purple when the flag is NO_DELIVERED; otherwise red above 60 minutes,
      yellow above 30 up to 60, and nothing at 30 or below or when the minutes
      cell is empty or not a number. */
  function RowFill(flag: Value, minutes: Value): (f: Fill)
    ensures f == PurpleFill <==> flag == Text("NO_DELIVERED")
    ensures f == RedFill <==> flag != Text("NO_DELIVERED") && minutes.Number? && minutes.x > 60.0
    ensures f == YellowFill <==>
      flag != Text("NO_DELIVERED") && minutes.Number? && 30.0 < minutes.x <= 60.0
    ensures f == NoFill <==>
      flag != Text("NO_DELIVERED") && (!minutes.Number? || minutes.x <= 30.0)
  {
    if flag == Text("NO_DELIVERED") then PurpleFill
    else if minutes.Number? then
      if minutes.x > 60.0 then RedFill
      else if minutes.x > 30.0 then YellowFill
      else NoFill
    else NoFill
  }

  /** The StatusFlag text alone decides the purple fill. When the minutes cell
      holds the unrounded minutes of the record, red, yellow and no fill are
      exactly the RED, YELLOW and OK buckets. */
  lemma FillMatchesUnroundedBucket(route: string, g: seq<Ingest.Row>, now: int, minutes: Value)
    ensures var m := Metrics(route, g, now);
      var f := RowFill(Text(m.statusFlag.Text()), minutes);
      && (f == PurpleFill <==> m.alertBucket == NoDeliveredAlert)
      && (m.statusFlag == HasDelivered && minutes.Number? && minutes.x == m.minutesSinceLast.value ==>
            && (f == RedFill <==> m.alertBucket == RedAlert)
            && (f == YellowFill <==> m.alertBucket == YellowAlert)
            && (f == NoFill <==> m.alertBucket == OkAlert))
  {
    MetricsNoDelivered(route, g, now);
    MetricsDeliveries(route, g, now);
  }

  /** `names.index(name)`: the first position holding `name`. */
  function IndexOf(names: seq<string>, name: string): (i: nat)
    requires name in names
    ensures i < |names| && names[i] == name
    ensures forall j :: 0 <= j < i ==> names[j] != name
  {
    if names[0] == name then 0 else 1 + IndexOf(names[1..], name)
  }

  /** The longest `str()` among the non-empty cells, and never less than 10. */
  function SampledLen(cells: seq<Value>): (n: nat)
    ensures n >= 10
    ensures forall i :: 0 <= i < |cells| && cells[i] != Empty ==> |Shown(cells[i])| <= n
    ensures n == 10 || exists i :: 0 <= i < |cells| && cells[i] != Empty && |Shown(cells[i])| == n
  {
    if cells == [] then 10
    else
      var init := cells[..|cells| - 1];
      var last := cells[|cells| - 1];
      var rest := SampledLen(init);
      assert forall i :: 0 <= i < |init| ==> init[i] == cells[i];
      if last != Empty && |Shown(last)| > rest then |Shown(last)| else rest
  }

  /** The width `autosize` gives a column whose sampled cells are `cells`:
      at most the cap and at least min(12, cap); every sampled value fits with
      two characters to spare unless the cap cuts it short; and the width is
      min(12, cap) or min(len + 2, cap) for some sampled value, so it is the
      least value meeting the first two bounds. */
  function ColumnWidth(cells: seq<Value>, cap: int): (w: int)
    ensures Min(12, cap) <= w <= cap
    ensures forall i :: 0 <= i < |cells| && cells[i] != Empty ==> Min(|Shown(cells[i])| + 2, cap) <= w
    ensures w == Min(12, cap) ||
      exists i :: 0 <= i < |cells| && cells[i] != Empty && w == Min(|Shown(cells[i])| + 2, cap)
  {
    Min(SampledLen(cells) + 2, cap)
  }

  /** The part of a worksheet the report's styling reads and writes. */
  class Worksheet {
    /** values[r, c] is the value of cell (r + 1, c + 1); row 0 is the header row. */
    const values: array2<Value>
    /** fills[r, c] is the background of the same cell. */
    const fills: array2<Fill>
    /** `column_dimensions`: the width set for each column number (1-based). */
    var widths: map<nat, int>

    /** The fill grid has the shape of the value grid. It reads only the
        constant array fields, so no assignment to `widths` can change it. */
    ghost predicate Valid() {
      fills.Length0 == values.Length0 && fills.Length1 == values.Length1
    }

    constructor (values: array2<Value>)
      ensures Valid() && this.values == values && fresh(fills) && widths == map[]
      ensures forall r, c :: 0 <= r < fills.Length0 && 0 <= c < fills.Length1 ==> fills[r, c] == NoFill
    {
      this.values := values;
      fills := new Fill[values.Length0, values.Length1]((r, c) => NoFill);
      widths := map[];
    }

    /** The fill `apply_route_colors` chooses for data row `r`. */
    function ChosenFill(r: nat, colnames: seq<string>): Fill
      reads values
      requires r < values.Length0
      requires "MinutesSinceLast" in colnames && "StatusFlag" in colnames
      requires |colnames| <= values.Length1
    {
      RowFill(values[r, IndexOf(colnames, "StatusFlag")], values[r, IndexOf(colnames, "MinutesSinceLast")])
    }

    /** The first `sampleRows` cells of column `c`, header included. */
    function Sample(c: nat, sampleRows: nat): (cells: seq<Value>)
      reads values
      requires c < values.Length1
      ensures |cells| == Min(sampleRows, values.Length0)
      ensures forall r :: 0 <= r < |cells| ==> cells[r] == values[r, c]
    {
      seq(Min(sampleRows, values.Length0), r requires 0 <= r < Min(sampleRows, values.Length0) reads values =>
        values[r, c])
    }
  }

  /** `apply_route_colors`: every data row whose chosen fill is not "none" gets
      that fill in every column; the header row and the rows without a chosen
      fill keep the fills they had. The column names must name the sheet's
      columns and include the three the routine looks up (`list.index` raises
      otherwise); CompletionRate is looked up only for its number format. */
  method ApplyRouteColors(ws: Worksheet, colnames: seq<string>)
    requires ws.Valid()
    requires "MinutesSinceLast" in colnames && "StatusFlag" in colnames && "CompletionRate" in colnames
    requires |colnames| <= ws.values.Length1
    modifies ws.fills
    ensures ws.Valid()
    ensures forall r, c :: 0 <= r < ws.fills.Length0 && 0 <= c < ws.fills.Length1 ==>
      ws.fills[r, c] ==
        if 1 <= r && ws.ChosenFill(r, colnames) != NoFill then ws.ChosenFill(r, colnames)
        else old(ws.fills[r, c])
  {
    var minIdx := IndexOf(colnames, "MinutesSinceLast");
    var flagIdx := IndexOf(colnames, "StatusFlag");
    var rows, cols := ws.values.Length0, ws.values.Length1;
    var r := 1;
    while r < rows
      invariant 1 <= r <= Max(1, rows)
      invariant forall i, c :: 0 <= i < rows && 0 <= c < cols ==>
        ws.fills[i, c] ==
          if 1 <= i < r && ws.ChosenFill(i, colnames) != NoFill then ws.ChosenFill(i, colnames)
          else old(ws.fills[i, c])
    {
      var fill := RowFill(ws.values[r, flagIdx], ws.values[r, minIdx]);
      if fill != NoFill {
        for c := 0 to cols
          invariant forall i, k :: 0 <= i < rows && 0 <= k < cols ==>
            ws.fills[i, k] ==
              if (1 <= i < r && ws.ChosenFill(i, colnames) != NoFill) || (i == r && k < c)
              then ws.ChosenFill(i, colnames)
              else old(ws.fills[i, k])
        {
          ws.fills[r, c] := fill;
        }
      }
      r := r + 1;
    }
  }

  /** The inner loop of `autosize`: the running maximum of `len(str(value))`
      over the non-empty sampled cells of column `c`, starting from 10. */
  method LongestSampled(ws: Worksheet, c: nat, sampleRows: nat) returns (maxLen: nat)
    requires c < ws.values.Length1
    ensures maxLen == SampledLen(ws.Sample(c, sampleRows))
    ensures forall r :: 0 <= r < Min(sampleRows, ws.values.Length0) && ws.values[r, c] != Empty ==>
      |Shown(ws.values[r, c])| <= maxLen
  {
    ghost var cells := ws.Sample(c, sampleRows);
    var limit := Min(sampleRows, ws.values.Length0);
    maxLen := 10;
    for r := 0 to limit
      invariant maxLen == SampledLen(cells[..r])
    {
      var v := ws.values[r, c];
      assert cells[..r + 1][..r] == cells[..r] && cells[r] == v;
      if v != Empty {
        maxLen := Max(maxLen, |Shown(v)|);
      }
    }
    assert cells[..limit] == cells;
    forall r | 0 <= r < limit && ws.values[r, c] != Empty
      ensures |Shown(ws.values[r, c])| <= maxLen
    {
      assert cells[r] == ws.values[r, c];
    }
  }

  /** `autosize`: each column's width becomes `ColumnWidth` of its first
      `sampleRows` cells (the report uses cap 45 and 400 sampled rows); widths
      of other keys are kept. */
  method Autosize(ws: Worksheet, cap: int, sampleRows: nat)
    requires ws.Valid()
    modifies ws`widths
    ensures ws.Valid()
    ensures forall k :: k in ws.widths <==> k in old(ws.widths) || 1 <= k <= ws.values.Length1
    ensures forall c: nat :: 1 <= c <= ws.values.Length1 ==>
      ws.widths[c] == ColumnWidth(ws.Sample(c - 1, sampleRows), cap)
    ensures forall k :: k in old(ws.widths) && !(1 <= k <= ws.values.Length1) ==> ws.widths[k] == old(ws.widths)[k]
  {
    var cols := ws.values.Length1;
    var widths := ws.widths;
    for c := 0 to cols
      invariant forall k :: k in widths <==> k in old(ws.widths) || 1 <= k <= c
      invariant forall k: nat :: 1 <= k <= c ==> widths[k] == ColumnWidth(ws.Sample(k - 1, sampleRows), cap)
      invariant forall k :: k in old(ws.widths) && !(1 <= k <= c) ==> widths[k] == old(ws.widths)[k]
    {
      var maxLen := LongestSampled(ws, c, sampleRows);
      widths := widths[c + 1 := Min(maxLen + 2, cap)];
    }
    ws.widths := widths;
  }
}
