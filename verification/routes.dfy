/** The per-route aggregator: rows are grouped by route (rows without a route are
    dropped, keys come out in sorted order) and each group yields one record of
    counts, delivery times, rates and an alert classification. */
module Routes {
  import opened Base
  import opened Strings
  import opened Ingest

  // ---------- grouping ----------

  /** Some row carries route `x`. */
  predicate HasRoute(rows: seq<Row>, x: string) {
    exists k | 0 <= k < |rows| :: rows[k].route == Some(x)
  }

  predicate StrictlySorted(s: seq<string>) {
    forall i, j :: 0 <= i < j < |s| ==> Lt(s[i], s[j])
  }

  /** Adds `x` to a sorted key list unless it is already there. */
  function Insert(s: seq<string>, x: string): (r: seq<string>)
    ensures forall y :: y in r <==> y in s || y == x
    decreases |s|
  {
    if s == [] then [x]
    else if x == s[0] then s
    else if Lt(x, s[0]) then [x] + s
    else [s[0]] + Insert(s[1..], x)
  }

  lemma {:induction false} InsertKeepsSorted(s: seq<string>, x: string)
    requires StrictlySorted(s)
    ensures StrictlySorted(Insert(s, x))
    decreases |s|
  {
    if s == [] {
    } else if x == s[0] {
    } else if Lt(x, s[0]) {
      forall j | 0 <= j < |s| ensures Lt(x, s[j]) {
        if j > 0 { LtTransitive(x, s[0], s[j]); }
      }
    } else {
      LtTotal(x, s[0]);
      InsertKeepsSorted(s[1..], x);
      var r := Insert(s, x);
      assert r == [s[0]] + Insert(s[1..], x);
      forall i, j | 0 <= i < j < |r| ensures Lt(r[i], r[j]) {
        if i == 0 {
          assert r[j] in Insert(s[1..], x);
          if r[j] != x {
            var k :| 0 <= k < |s[1..]| && s[1..][k] == r[j];
            assert Lt(s[0], s[k + 1]);
          }
        }
      }
    }
  }

  /** The group keys of `groupby(route, dropna=True)`: every route that some row
      carries, each once, in ascending order; rows without a route add nothing. */
  function GroupKeys(rows: seq<Row>): (keys: seq<string>)
    ensures StrictlySorted(keys)
    ensures forall x :: x in keys <==> HasRoute(rows, x)
  {
    if rows == [] then []
    else
      var init := rows[..|rows| - 1];
      var rest := GroupKeys(init);
      assert forall x :: HasRoute(rows, x) <==> HasRoute(init, x) || rows[|rows| - 1].route == Some(x) by {
        forall x | HasRoute(rows, x) ensures HasRoute(init, x) || rows[|rows| - 1].route == Some(x) {
          var k :| 0 <= k < |rows| && rows[k].route == Some(x);
          if k < |rows| - 1 { assert init[k] == rows[k]; }
        }
        forall x | HasRoute(init, x) ensures HasRoute(rows, x) {
          var k :| 0 <= k < |init| && init[k].route == Some(x);
          assert rows[k] == init[k];
        }
      }
      match rows[|rows| - 1].route
      case None => rest
      case Some(x) => InsertKeepsSorted(rest, x); Insert(rest, x)
  }

  /** The rows of one group, in their input order. */
  function Group(rows: seq<Row>, key: string): (g: seq<Row>)
    ensures forall i :: 0 <= i < |g| ==> g[i].route == Some(key)
    ensures forall k :: 0 <= k < |rows| && rows[k].route == Some(key) ==> rows[k] in g
    ensures |g| <= |rows|
  {
    if rows == [] then []
    else if rows[0].route == Some(key) then [rows[0]] + Group(rows[1..], key)
    else Group(rows[1..], key)
  }

  /** A group keeps each row carrying its key as often as the input holds it,
      and no other row. */
  lemma {:induction false} GroupMultiplicity(rows: seq<Row>, key: string)
    ensures forall r ::
      multiset(Group(rows, key))[r] == if r.route == Some(key) then multiset(rows)[r] else 0
  {
    if rows != [] {
      assert rows == [rows[0]] + rows[1..];
      GroupMultiplicity(rows[1..], key);
    }
  }

  lemma GroupOfKeyNotEmpty(rows: seq<Row>, key: string)
    requires HasRoute(rows, key)
    ensures |Group(rows, key)| >= 1
  {
    var k :| 0 <= k < |rows| && rows[k].route == Some(key);
    assert rows[k] in Group(rows, key);
  }

  // ---------- per-row tests ----------

  /** `StatusU == "DELIVERED"`. */
  predicate IsDelivered(r: Row) { Upper(r.status) == "DELIVERED" }

  /** `StatusU.str.contains("FAIL")`. */
  predicate IsFailed(r: Row) { Contains(Upper(r.status), "FAIL") }

  /** A delivered row with a valid timestamp. */
  predicate IsTimedDelivery(r: Row) { IsDelivered(r) && r.time.Some? }

  /** No row is both delivered and failed. */
  lemma DeliveredIsNotFailed(r: Row)
    ensures IsDelivered(r) ==> !IsFailed(r)
  {
    DeliveredLacksFail();
  }

  // ---------- counts ----------

  /** The number of rows of `g` satisfying `p`. */
  function Count(g: seq<Row>, p: Row -> bool): (n: nat)
    ensures n <= |g|
  {
    if g == [] then 0 else Count(g[..|g| - 1], p) + (if p(g[|g| - 1]) then 1 else 0)
  }

  /** The positions of the rows of `g` satisfying `p`. */
  function Positions(g: seq<Row>, p: Row -> bool): set<nat> {
    set i: nat | i < |g| && p(g[i])
  }

  lemma {:induction false} CountIsPositions(g: seq<Row>, p: Row -> bool)
    ensures Count(g, p) == |Positions(g, p)|
  {
    if g != [] {
      var init := g[..|g| - 1];
      CountIsPositions(init, p);
      var last: nat := |g| - 1;
      assert Positions(g, p) == Positions(init, p) + (if p(g[last]) then {last} else {});
    }
  }

  /** Delivered and failed rows are disjoint, so together they are at most the total. */
  lemma {:induction false} DeliveredPlusFailedAtMostTotal(g: seq<Row>)
    ensures Count(g, IsDelivered) + Count(g, IsFailed) <= |g|
  {
    if g != [] {
      DeliveredPlusFailedAtMostTotal(g[..|g| - 1]);
      DeliveredIsNotFailed(g[|g| - 1]);
    }
  }

  // ---------- delivery times ----------

  /** The timestamps of the delivered, timestamped rows, in row order. */
  function DeliveryTimes(g: seq<Row>): (ts: seq<int>)
    ensures |ts| <= Count(g, IsDelivered)
    ensures forall t :: t in ts ==> exists i | 0 <= i < |g| :: IsTimedDelivery(g[i]) && g[i].time.value == t
    ensures forall i :: 0 <= i < |g| && IsTimedDelivery(g[i]) ==> g[i].time.value in ts
  {
    if g == [] then []
    else
      var init := g[..|g| - 1];
      var last := g[|g| - 1];
      var rest := DeliveryTimes(init);
      assert forall i :: 0 <= i < |init| ==> init[i] == g[i];
      if IsTimedDelivery(last) then rest + [last.time.value] else rest
  }

  /** The smallest element of a non-empty sequence. */
  function Earliest(s: seq<int>): (m: int)
    requires |s| > 0
    ensures m in s && forall x :: x in s ==> m <= x
  {
    if |s| == 1 then s[0]
    else
      var rest := Earliest(s[1..]);
      assert forall x :: x in s ==> x == s[0] || x in s[1..];
      if s[0] <= rest then s[0] else rest
  }

  /** The largest element of a non-empty sequence. */
  function Latest(s: seq<int>): (m: int)
    requires |s| > 0
    ensures m in s && forall x :: x in s ==> x <= m
  {
    if |s| == 1 then s[0]
    else
      var rest := Latest(s[1..]);
      assert forall x :: x in s ==> x == s[0] || x in s[1..];
      if s[0] >= rest then s[0] else rest
  }

  /** `t` is the time of a delivered row and no delivered row is earlier. */
  predicate IsFirstDelivery(g: seq<Row>, t: int) {
    && (exists i | 0 <= i < |g| :: IsTimedDelivery(g[i]) && g[i].time.value == t)
    && (forall i | 0 <= i < |g| :: IsTimedDelivery(g[i]) ==> t <= g[i].time.value)
  }

  /** `t` is the time of a delivered row and no delivered row is later. */
  predicate IsLastDelivery(g: seq<Row>, t: int) {
    && (exists i | 0 <= i < |g| :: IsTimedDelivery(g[i]) && g[i].time.value == t)
    && (forall i | 0 <= i < |g| :: IsTimedDelivery(g[i]) ==> g[i].time.value <= t)
  }

  /** The first non-missing value, as `dropna().iloc[0]`; absent if there is none. */
  function FirstPresent(s: seq<Option<string>>): (r: Option<string>)
    ensures r.None? <==> forall i :: 0 <= i < |s| ==> s[i].None?
    ensures r.Some? ==> exists i :: 0 <= i < |s| && s[i] == r && forall j :: 0 <= j < i ==> s[j].None?
  {
    if s == [] then None
    else if s[0].Some? then s[0]
    else
      var rest := FirstPresent(s[1..]);
      assert forall i :: 1 <= i < |s| ==> s[i] == s[1..][i - 1];
      rest
  }

  /** The FLEE cell of a row. */
  function Flee(r: Row): Option<string> { r.flee }

  /** The DRIVER cell of a row. */
  function Driver(r: Row): Option<string> { r.driver }

  /** `g[col]`: one column of a group, row by row (`col` is `Flee` or `Driver`). */
  function Column(g: seq<Row>, col: Row -> Option<string>): (s: seq<Option<string>>)
    ensures |s| == |g| && forall i :: 0 <= i < |g| ==> s[i] == col(g[i])
  {
    seq(|g|, i requires 0 <= i < |g| => col(g[i]))
  }

  /** Scanning the whole input in order: the `col` value of the earliest row
      that has the key and a `col` value; none exactly when no such row exists. */
  function FirstOfRoute(rows: seq<Row>, key: string, col: Row -> Option<string>): (r: Option<string>)
    ensures r.None? <==> forall k :: 0 <= k < |rows| && rows[k].route == Some(key) ==> col(rows[k]).None?
    ensures r.Some? ==> exists k :: 0 <= k < |rows| && rows[k].route == Some(key) && col(rows[k]) == r
                          && forall j :: 0 <= j < k && rows[j].route == Some(key) ==> col(rows[j]).None?
  {
    if rows == [] then None
    else if rows[0].route == Some(key) && col(rows[0]).Some? then col(rows[0])
    else
      var rest := FirstOfRoute(rows[1..], key, col);
      assert forall k :: 1 <= k < |rows| ==> rows[k] == rows[1..][k - 1];
      rest
  }

  /** `g[col].dropna().iloc[0]` sees the input order: the group's first `col`
      value is the one a scan of the whole input finds first for the key. */
  lemma {:induction false} GroupFirst(rows: seq<Row>, key: string, col: Row -> Option<string>)
    ensures FirstPresent(Column(Group(rows, key), col)) == FirstOfRoute(rows, key, col)
  {
    if rows != [] {
      var tail := rows[1..];
      var s := Column(Group(rows, key), col);
      GroupFirst(tail, key, col);
      if rows[0].route == Some(key) {
        assert s[0] == col(rows[0]);
        assert s[1..] == Column(Group(tail, key), col);
      }
    }
  }

  // ---------- classification ----------

  datatype Flag = NoDelivered | HasDelivered {
    /** The text written to the StatusFlag column. */
    function Text(): string {
      match this
      case NoDelivered => "NO_DELIVERED"
      case HasDelivered => "HAS_DELIVERED"
    }
  }

  /** The AlertBucket values NO_DELIVERED, RED, YELLOW and OK. */
  datatype Bucket = NoDeliveredAlert | RedAlert | YellowAlert | OkAlert

  /** The alert bucket of a route with deliveries, from the minutes since its
      last delivery: more than 60 is red, more than 30 yellow, otherwise ok. */
  function Classify(minutes: real): (b: Bucket)
    ensures b == RedAlert <==> minutes > 60.0
    ensures b == YellowAlert <==> 30.0 < minutes <= 60.0
    ensures b == OkAlert <==> minutes <= 30.0
    ensures b != NoDeliveredAlert
  {
    if minutes > 60.0 then RedAlert
    else if minutes > 30.0 then YellowAlert
    else OkAlert
  }

  // ---------- the per-route record ----------

  /** `delivered / total if total else 0.0`: the share of delivered rows. */
  function CompletionRate(delivered: nat, total: nat): (r: real)
    ensures total == 0 ==> r == 0.0
    ensures total > 0 ==> r * total as real == delivered as real
    ensures delivered <= total ==> 0.0 <= r <= 1.0
  {
    if total != 0 then delivered as real / total as real else 0.0
  }

  /** `delivered / hours if hours and hours > 0 else None`: deliveries per hour,
      absent unless some positive time has passed since the first delivery. */
  function PerHour(delivered: nat, hours: real): (r: Option<real>)
    ensures r.Some? <==> hours > 0.0
    ensures r.Some? ==> r.value * hours == delivered as real && r.value >= 0.0
  {
    if hours > 0.0 then Some(delivered as real / hours) else None
  }

  /** One row of the RouteMonitor table. Times are seconds since an epoch. */
  datatype RouteRecord = RouteRecord(
    route: string,
    driverName: Option<string>,
    fleeName: Option<string>,
    total: nat,
    delivered: nat,
    failed: nat,
    remaining: int,
    completionRate: real,
    firstDelivery: Option<int>,
    hoursSinceFirst: Option<real>,
    deliveriesPerHour: Option<real>,
    latestDelivered: Option<int>,
    minutesSinceLast: Option<real>,
    statusFlag: Flag,
    alertBucket: Bucket)

  /** The time-derived part of a record with at least one timed delivery. */
  predicate DeliveryFacts(g: seq<Row>, now: int, m: RouteRecord) {
    && m.firstDelivery.Some? && m.latestDelivered.Some?
    && m.minutesSinceLast.Some? && m.hoursSinceFirst.Some?
    && IsFirstDelivery(g, m.firstDelivery.value)
    && IsLastDelivery(g, m.latestDelivered.value)
    && m.firstDelivery.value <= m.latestDelivered.value
    && m.minutesSinceLast.value == (now - m.latestDelivered.value) as real / 60.0
    && m.hoursSinceFirst.value == (now - m.firstDelivery.value) as real / 3600.0
    && m.minutesSinceLast.value <= 60.0 * m.hoursSinceFirst.value
    && m.delivered >= 1
    && m.deliveriesPerHour == PerHour(m.delivered, m.hoursSinceFirst.value)
    && (m.alertBucket == RedAlert <==> m.minutesSinceLast.value > 60.0)
    && (m.alertBucket == YellowAlert <==> 30.0 < m.minutesSinceLast.value <= 60.0)
    && (m.alertBucket == OkAlert <==> m.minutesSinceLast.value <= 30.0)
  }

  /** The body of the group loop (app.py lines 96-143) for route `route` with rows `g`,
      at time `now`. Its properties are the lemmas below. */
  function Metrics(route: string, g: seq<Row>, now: int): (m: RouteRecord)
    ensures m.route == route && m.total == |g|
  {
    var total := |g|;
    var delivered := Count(g, IsDelivered);
    var failed := Count(g, IsFailed);
    var completion := CompletionRate(delivered, total);
    var flee := FirstPresent(Column(g, Flee));
    var driver := FirstPresent(Column(g, Driver));
    var times := DeliveryTimes(g);
    if |times| == 0 then
      RouteRecord(route, driver, flee, total, delivered, failed, total - delivered - failed,
                  completion, None, None, None, None, None, NoDelivered, NoDeliveredAlert)
    else
      var first := Earliest(times);
      var last := Latest(times);
      var minutes := (now - last) as real / 60.0;
      var hours := (now - first) as real / 3600.0;
      var perHour := PerHour(delivered, hours);
      RouteRecord(route, driver, flee, total, delivered, failed, total - delivered - failed,
                  completion, Some(first), Some(hours), perHour, Some(last), Some(minutes),
                  HasDelivered, Classify(minutes))
  }

  /** The counts: delivered rows are those whose status is exactly DELIVERED,
      failed rows those whose status contains FAIL; the two never overlap, so
      the unclamped `remaining` is never negative; the completion rate is
      `CompletionRate` of the counts and lies in [0, 1]. */
  lemma MetricsCounts(route: string, g: seq<Row>, now: int)
    ensures var m := Metrics(route, g, now);
      && m.delivered == |Positions(g, IsDelivered)|
      && m.failed == |Positions(g, IsFailed)|
      && m.remaining == m.total - m.delivered - m.failed
      && m.remaining >= 0
      && m.completionRate == CompletionRate(m.delivered, m.total)
      && 0.0 <= m.completionRate <= 1.0
  {
    var m := Metrics(route, g, now);
    DeliveredPlusFailedAtMostTotal(g);
    CountIsPositions(g, IsDelivered);
    CountIsPositions(g, IsFailed);
  }

  /** Driver and FLEE name are the first non-missing values of the group. */
  lemma MetricsNames(route: string, g: seq<Row>, now: int)
    ensures var m := Metrics(route, g, now);
      && (m.fleeName.None? <==> forall i :: 0 <= i < |g| ==> g[i].flee.None?)
      && (m.fleeName.Some? ==> exists i :: 0 <= i < |g| && g[i].flee == m.fleeName
                                 && forall j :: 0 <= j < i ==> g[j].flee.None?)
      && (m.driverName.None? <==> forall i :: 0 <= i < |g| ==> g[i].driver.None?)
      && (m.driverName.Some? ==> exists i :: 0 <= i < |g| && g[i].driver == m.driverName
                                   && forall j :: 0 <= j < i ==> g[j].driver.None?)
  {
    var m := Metrics(route, g, now);
    var flees, drivers := Column(g, Flee), Column(g, Driver);
    assert m.fleeName == FirstPresent(flees) && m.driverName == FirstPresent(drivers);
    assert forall i :: 0 <= i < |g| ==> flees[i] == g[i].flee && drivers[i] == g[i].driver;
  }

  /** NO_DELIVERED exactly when no row is both delivered and timestamped; then
      every time-derived field is absent and the bucket is NO_DELIVERED. */
  lemma MetricsNoDelivered(route: string, g: seq<Row>, now: int)
    ensures var m := Metrics(route, g, now);
      && (m.statusFlag == NoDelivered <==> forall i :: 0 <= i < |g| ==> !IsTimedDelivery(g[i]))
      && (m.statusFlag == NoDelivered ==>
            && m.firstDelivery.None? && m.latestDelivered.None?
            && m.minutesSinceLast.None? && m.hoursSinceFirst.None? && m.deliveriesPerHour.None?
            && m.alertBucket == NoDeliveredAlert)
      && (m.alertBucket == NoDeliveredAlert <==> m.statusFlag == NoDelivered)
  {
    var ts := DeliveryTimes(g);
    if |ts| > 0 {
      assert ts[0] in ts;
    }
  }

  /** With a timed delivery: the first and last delivery times are the minimum
      and maximum over the delivered, timestamped rows; minutes and hours are
      measured from `now`; the hourly rate exists only for a positive number of
      hours; and the bucket follows the 30/60-minute thresholds. */
  lemma MetricsDeliveries(route: string, g: seq<Row>, now: int)
    ensures var m := Metrics(route, g, now);
      m.statusFlag == HasDelivered ==> DeliveryFacts(g, now, m)
  {
    var m := Metrics(route, g, now);
    var ts := DeliveryTimes(g);
    if |ts| > 0 {
      var first, last := Earliest(ts), Latest(ts);
      assert first <= last by { assert last in ts; }
      assert IsFirstDelivery(g, first);
      assert IsLastDelivery(g, last);
    }
  }

  // ---------- the group loop ----------

  /** One record per group key, in key order, each the metrics of its group. */
  predicate RecordsOfGroups(rows: seq<Row>, now: int, records: seq<RouteRecord>) {
    var keys := GroupKeys(rows);
    && |records| == |keys|
    && forall i :: 0 <= i < |records| ==> records[i] == Metrics(keys[i], Group(rows, keys[i]), now)
  }

  /** The records of the groups name every route of the input once, no other
      route, and each covers at least one row. */
  lemma {:induction false} RecordsCoverRoutes(rows: seq<Row>, now: int, records: seq<RouteRecord>)
    requires RecordsOfGroups(rows, now, records)
    ensures forall i, j :: 0 <= i < j < |records| ==> records[i].route != records[j].route
    ensures forall x :: HasRoute(rows, x) <==> exists i :: 0 <= i < |records| && records[i].route == x
    ensures forall i :: 0 <= i < |records| ==> records[i].total >= 1
  {
    var keys := GroupKeys(rows);
    assert forall i :: 0 <= i < |records| ==> records[i].route == keys[i];
    forall i, j | 0 <= i < j < |records| ensures records[i].route != records[j].route {
      LtIrreflexive(keys[i]);
    }
    forall i | 0 <= i < |records| ensures records[i].total >= 1 {
      assert keys[i] in keys;
      GroupOfKeyNotEmpty(rows, keys[i]);
    }
    forall x | HasRoute(rows, x) ensures exists i :: 0 <= i < |records| && records[i].route == x {
      assert x in keys;
      var i :| 0 <= i < |keys| && keys[i] == x;
      assert records[i].route == x;
    }
    forall x | exists i :: 0 <= i < |records| && records[i].route == x ensures HasRoute(rows, x) {
      var i :| 0 <= i < |records| && records[i].route == x;
      assert keys[i] in keys;
    }
  }

  /** The loop of app.py lines 95-144: one record per group, appended in group order. */
  method AggregateRoutes(rows: seq<Row>, now: int) returns (records: seq<RouteRecord>)
    ensures |records| == |GroupKeys(rows)|
    ensures forall i :: 0 <= i < |records| ==>
      records[i] == Metrics(GroupKeys(rows)[i], Group(rows, GroupKeys(rows)[i]), now)
    ensures forall i, j :: 0 <= i < j < |records| ==> records[i].route != records[j].route
    ensures forall x :: HasRoute(rows, x) <==> exists i :: 0 <= i < |records| && records[i].route == x
    ensures forall i :: 0 <= i < |records| ==> records[i].total >= 1
  {
    var keys := GroupKeys(rows);
    ghost var all := seq(|keys|, i requires 0 <= i < |keys| => Metrics(keys[i], Group(rows, keys[i]), now));
    records := [];
    for n := 0 to |keys|
      invariant records == all[..n]
    {
      records := records + [Metrics(keys[n], Group(rows, keys[n]), now)];
      assert records == all[..n + 1];
    }
    assert records == all;
    assert RecordsOfGroups(rows, now, records);
    RecordsCoverRoutes(rows, now, records);
  }
}
