/**
  The history endpoint: raw rows, the hourly view, and the daily rollup of that view.
  Instants are integers counting microseconds from a UTC midnight.
 */
module History {
  import opened Prelude
  import opened Readings
  import opened Statistics

  const HOUR: int := 3_600_000_000
  const DAY: int := 86_400_000_000
  const RAW_LIMIT: nat := 1000

  function HourOf(t: int): int {
    t / HOUR * HOUR
  }

  function DayOf(t: int): int {
    t / DAY * DAY
  }

  lemma BucketHolds(t: int)
    ensures HourOf(t) % 3_600_000_000 == 0 && HourOf(t) <= t < HourOf(t) + 3_600_000_000
    ensures DayOf(t) % 86_400_000_000 == 0 && DayOf(t) <= t < DayOf(t) + 86_400_000_000
  {
  }

  lemma DayOfHour(t: int)
    ensures DayOf(HourOf(t)) == DayOf(t)
  {
    var h, d := t / HOUR, t / DAY;
    assert t == HOUR * h + t % HOUR && t == DAY * d + t % DAY;
    assert 24 * d <= h < 24 * d + 24;
    assert DAY * d <= HOUR * h < DAY * d + DAY;
  }

  // ---------------------------------------------------------------- grouping

  lemma PrependAscending(x: int, rest: seq<int>)
    requires Ascending(rest) && forall y :: y in rest ==> x < y
    ensures Ascending([x] + rest)
  {
    assert forall i :: 0 <= i < |rest| ==> rest[i] in rest;
  }

  lemma HeadIsLeast(xs: seq<int>)
    requires xs != [] && Ascending(xs)
    ensures Ascending(xs[1..]) && forall y :: y in xs[1..] ==> xs[0] < y
    ensures forall y :: y in xs <==> y == xs[0] || y in xs[1..]
  {
  }

  /** GROUP BY and ORDER BY on one integer key: its distinct values, ascending. */
  function Insert(x: int, xs: seq<int>): (r: seq<int>)
    requires Ascending(xs)
    ensures Ascending(r)
    ensures forall y :: y in r <==> y == x || y in xs
  {
    if xs == [] then [x]
    else
      HeadIsLeast(xs);
      if x < xs[0] then PrependAscending(x, xs); [x] + xs
      else if x == xs[0] then xs
      else
        var rest := Insert(x, xs[1..]);
        PrependAscending(xs[0], rest);
        [xs[0]] + rest
  }

  predicate Ascending(xs: seq<int>) {
    forall i, j :: 0 <= i < j < |xs| ==> xs[i] < xs[j]
  }

  function Hours(rows: seq<Reading>, device: nat): (hours: seq<int>)
    ensures Ascending(hours)
    ensures forall h :: h in hours <==> exists r :: r in rows && r.device == device && HourOf(r.time) == h
  {
    if rows == [] then [] else
      assert forall r :: r in rows <==> r == rows[0] || r in rows[1..];
      var rest := Hours(rows[1..], device);
      if rows[0].device == device then Insert(HourOf(rows[0].time), rest) else rest
  }

  function Between(hours: seq<int>, from: int, to: int): (kept: seq<int>)
    requires Ascending(hours)
    ensures Ascending(kept)
    ensures forall h :: h in kept <==> h in hours && from <= h <= to
  {
    if hours == [] then [] else
      HeadIsLeast(hours);
      var rest := Between(hours[1..], from, to);
      PrependAscending(hours[0], rest);
      if from <= hours[0] <= to then [hours[0]] + rest else rest
  }

  // ---------------------------------------------------------------- points

  datatype Metric = Temperature | Humidity | Co2 | Ph | Fan

  function ValueOf(r: Reading, metric: Metric): Option<real> {
    match metric
    case Temperature => r.temperature
    case Humidity => r.humidity
    case Co2 => r.co2
    case Ph => r.ph
    case Fan => r.fan
  }

  datatype Point = Point(
    bucket: int,
    temperatureAvg: Option<real>,
    temperatureMin: Option<real>,
    temperatureMax: Option<real>,
    humidityAvg: Option<real>,
    co2Avg: Option<real>,
    phAvg: Option<real>,
    fanAvg: Option<real>)

  function AverageOf(p: Point, metric: Metric): Option<real> {
    match metric
    case Temperature => p.temperatureAvg
    case Humidity => p.humidityAvg
    case Co2 => p.co2Avg
    case Ph => p.phAvg
    case Fan => p.fanAvg
  }

  /** The device's rows whose hour is one of `hours`. */
  function InHours(rows: seq<Reading>, device: nat, hours: seq<int>): (kept: seq<Reading>)
    ensures forall r :: r in kept <==> r in rows && r.device == device && HourOf(r.time) in hours
  {
    if rows == [] then [] else
      assert forall r :: r in rows <==> r == rows[0] || r in rows[1..];
      var rest := InHours(rows[1..], device, hours);
      if rows[0].device == device && HourOf(rows[0].time) in hours then [rows[0]] + rest else rest
  }

  /** The values of a metric that are not null. */
  function Values(rows: seq<Reading>, metric: Metric): seq<real> {
    if rows == [] then [] else
      var rest := Values(rows[1..], metric);
      if ValueOf(rows[0], metric).Some? then [ValueOf(rows[0], metric).value] + rest else rest
  }

  lemma {:induction false} RowOfValue(rows: seq<Reading>, metric: Metric, x: real) returns (r: Reading)
    requires x in Values(rows, metric)
    ensures r in rows && ValueOf(r, metric) == Some(x)
  {
    if ValueOf(rows[0], metric) == Some(x) {
      r := rows[0];
    } else {
      r := RowOfValue(rows[1..], metric, x);
    }
  }

  lemma {:induction false} ValueOfRow(rows: seq<Reading>, metric: Metric, r: Reading)
    requires r in rows && ValueOf(r, metric).Some?
    ensures ValueOf(r, metric).value in Values(rows, metric)
  {
    if r != rows[0] {
      ValueOfRow(rows[1..], metric, r);
    }
  }

  /** One row of the hourly view. */
  function HourPoint(rows: seq<Reading>, device: nat, hour: int): Point {
    var group := InHours(rows, device, [hour]);
    Point(hour, Avg(Values(group, Temperature)), Min(Values(group, Temperature)), Max(Values(group, Temperature)),
          Avg(Values(group, Humidity)), Avg(Values(group, Co2)), Avg(Values(group, Ph)), Avg(Values(group, Fan)))
  }

  function HourPoints(rows: seq<Reading>, device: nat, hours: seq<int>): (points: seq<Point>)
    ensures |points| == |hours|
    ensures forall i :: 0 <= i < |hours| ==> points[i] == HourPoint(rows, device, hours[i])
  {
    if hours == [] then [] else [HourPoint(rows, device, hours[0])] + HourPoints(rows, device, hours[1..])
  }

  function HourTier(rows: seq<Reading>, device: nat, from: int, to: int): seq<Point> {
    HourPoints(rows, device, Between(Hours(rows, device), from, to))
  }

  // ---------------------------------------------------------------- the daily rollup

  datatype Column = AvgColumn(metric: Metric) | MinColumn | MaxColumn

  function Cell(p: Point, column: Column): Option<real> {
    match column
    case AvgColumn(metric) => AverageOf(p, metric)
    case MinColumn => p.temperatureMin
    case MaxColumn => p.temperatureMax
  }

  function Cells(points: seq<Point>, column: Column): seq<real> {
    if points == [] then [] else
      var rest := Cells(points[1..], column);
      if Cell(points[0], column).Some? then [Cell(points[0], column).value] + rest else rest
  }

  lemma {:induction false} PointOfCell(points: seq<Point>, column: Column, x: real) returns (p: Point)
    requires x in Cells(points, column)
    ensures p in points && Cell(p, column) == Some(x)
  {
    if Cell(points[0], column) == Some(x) {
      p := points[0];
    } else {
      p := PointOfCell(points[1..], column, x);
    }
  }

  lemma {:induction false} CellOfPoint(points: seq<Point>, column: Column, p: Point)
    requires p in points && Cell(p, column).Some?
    ensures Cell(p, column).value in Cells(points, column)
  {
    if p != points[0] {
      CellOfPoint(points[1..], column, p);
    }
  }

  function Days(points: seq<Point>): (days: seq<int>)
    ensures Ascending(days)
    ensures forall d :: d in days <==> exists p :: p in points && DayOf(p.bucket) == d
  {
    if points == [] then [] else
      assert forall p :: p in points <==> p == points[0] || p in points[1..];
      Insert(DayOf(points[0].bucket), Days(points[1..]))
  }

  function PointsOfDay(points: seq<Point>, day: int): (kept: seq<Point>)
    ensures forall p :: p in kept <==> p in points && DayOf(p.bucket) == day
  {
    if points == [] then [] else
      assert forall p :: p in points <==> p == points[0] || p in points[1..];
      var rest := PointsOfDay(points[1..], day);
      if DayOf(points[0].bucket) == day then [points[0]] + rest else rest
  }

  function DayPoint(points: seq<Point>, day: int): Point {
    var group := PointsOfDay(points, day);
    Point(day, Avg(Cells(group, AvgColumn(Temperature))), Min(Cells(group, MinColumn)), Max(Cells(group, MaxColumn)),
          Avg(Cells(group, AvgColumn(Humidity))), Avg(Cells(group, AvgColumn(Co2))),
          Avg(Cells(group, AvgColumn(Ph))), Avg(Cells(group, AvgColumn(Fan))))
  }

  function DayTier(rows: seq<Reading>, device: nat, from: int, to: int): seq<Point> {
    var hourly := HourTier(rows, device, from, to);
    var days := Days(hourly);
    seq(|days|, i requires 0 <= i < |days| => DayPoint(hourly, days[i]))
  }

  // ---------------------------------------------------------------- what a day covers

  /** The device's rows of that day whose hour bucket lies in the window. */
  predicate Covers(r: Reading, device: nat, day: int, from: int, to: int) {
    r.device == device && DayOf(r.time) == day && from <= HourOf(r.time) <= to
  }

  function Covered(rows: seq<Reading>, device: nat, day: int, from: int, to: int): (kept: seq<Reading>)
    ensures forall r :: r in kept <==> r in rows && Covers(r, device, day, from, to)
  {
    if rows == [] then [] else
      assert forall r :: r in rows <==> r == rows[0] || r in rows[1..];
      var rest := Covered(rows[1..], device, day, from, to);
      if Covers(rows[0], device, day, from, to) then [rows[0]] + rest else rest
  }

  function OfDay(hours: seq<int>, day: int): (kept: seq<int>)
    requires Ascending(hours)
    ensures Ascending(kept)
    ensures forall h :: h in kept <==> h in hours && DayOf(h) == day
  {
    if hours == [] then [] else
      HeadIsLeast(hours);
      var rest := OfDay(hours[1..], day);
      PrependAscending(hours[0], rest);
      if DayOf(hours[0]) == day then [hours[0]] + rest else rest
  }

  lemma {:induction false} DayOfHourPoints(rows: seq<Reading>, device: nat, hours: seq<int>, day: int)
    requires Ascending(hours)
    ensures PointsOfDay(HourPoints(rows, device, hours), day) == HourPoints(rows, device, OfDay(hours, day))
  {
    if hours != [] {
      DayOfHourPoints(rows, device, hours[1..], day);
      PointsSplit(HourPoint(rows, device, hours[0]), HourPoints(rows, device, hours[1..]), day);
      var kept := OfDay(hours[1..], day);
      assert ([hours[0]] + kept)[1..] == kept;
    }
  }

  lemma PointsSplit(p: Point, rest: seq<Point>, day: int)
    ensures PointsOfDay([p] + rest, day) == (if DayOf(p.bucket) == day then [p] else []) + PointsOfDay(rest, day)
  {
    assert ([p] + rest)[1..] == rest;
  }

  /** The hours a day's rollup aggregates. */
  function DayHours(rows: seq<Reading>, device: nat, day: int, from: int, to: int): (hours: seq<int>)
    ensures Ascending(hours)
  {
    OfDay(Between(Hours(rows, device), from, to), day)
  }

  lemma {:induction false} CoveredIsInHours(rows: seq<Reading>, all: seq<Reading>, device: nat, day: int,
                                            from: int, to: int)
    requires forall r :: r in rows ==> r in all
    ensures Covered(rows, device, day, from, to) == InHours(rows, device, DayHours(all, device, day, from, to))
  {
    if rows != [] {
      CoveredIsInHours(rows[1..], all, device, day, from, to);
      assert rows[0] in all;
      DayOfHour(rows[0].time);
    }
  }

  ghost predicate Listed(points: seq<Point>, day: int) {
    exists p :: p in points && p.bucket == day
  }

  ghost predicate HasCovered(rows: seq<Reading>, device: nat, day: int, from: int, to: int) {
    exists r :: r in rows && Covers(r, device, day, from, to)
  }

  lemma ListedIsDay(rows: seq<Reading>, device: nat, from: int, to: int, day: int)
    ensures Listed(DayTier(rows, device, from, to), day) <==> day in Days(HourTier(rows, device, from, to))
  {
    var points, days := DayTier(rows, device, from, to), Days(HourTier(rows, device, from, to));
    if day in days {
      var k :| 0 <= k < |days| && days[k] == day;
      assert points[k] in points;
    }
  }

  /** The hour tier lists exactly the hours with a row, when the bucket lies in the window. */
  lemma HourListed(rows: seq<Reading>, device: nat, from: int, to: int, hour: int)
    ensures Listed(HourTier(rows, device, from, to), hour)
       <==> from <= hour <= to && exists r :: r in rows && r.device == device && HourOf(r.time) == hour
  {
    var hours, points := Between(Hours(rows, device), from, to), HourTier(rows, device, from, to);
    if hour in hours {
      var i :| 0 <= i < |hours| && hours[i] == hour;
      assert points[i] in points;
    }
  }

  /** The daily tier lists exactly the days with a covered row. */
  lemma DaysListed(rows: seq<Reading>, device: nat, from: int, to: int, day: int)
    ensures Listed(DayTier(rows, device, from, to), day) <==> HasCovered(rows, device, day, from, to)
  {
    ListedIsDay(rows, device, from, to, day);
    var hourly := HourTier(rows, device, from, to);
    if day in Days(hourly) {
      var p :| p in hourly && DayOf(p.bucket) == day;
      HourListed(rows, device, from, to, p.bucket);
      var r :| r in rows && r.device == device && HourOf(r.time) == p.bucket;
      DayOfHour(r.time);
      assert Covers(r, device, day, from, to);
    }
    if HasCovered(rows, device, day, from, to) {
      var r :| r in rows && Covers(r, device, day, from, to);
      DayOfHour(r.time);
      HourListed(rows, device, from, to, HourOf(r.time));
    }
  }

  /** Hours come in ascending order, each once. */
  lemma HoursAscend(rows: seq<Reading>, device: nat, from: int, to: int)
    ensures forall i, j :: 0 <= i < j < |HourTier(rows, device, from, to)| ==>
              HourTier(rows, device, from, to)[i].bucket < HourTier(rows, device, from, to)[j].bucket
  {
  }

  /** Days come in ascending order, each once. */
  lemma DaysAscend(rows: seq<Reading>, device: nat, from: int, to: int)
    ensures forall i, j :: 0 <= i < j < |DayTier(rows, device, from, to)| ==>
              DayTier(rows, device, from, to)[i].bucket < DayTier(rows, device, from, to)[j].bucket
  {
  }

  // ---------------------------------------------------------------- extremes compose

  lemma SameMin(xs: seq<real>, ys: seq<real>)
    requires forall x :: x in xs ==> x in ys
    requires ys != [] ==> exists x :: x in xs && x <= Min(ys).value
    ensures Min(xs) == Min(ys)
  {
    if xs == [] {
      assert ys == [];
    } else {
      assert Min(xs).value in ys;
    }
  }

  lemma SameMax(xs: seq<real>, ys: seq<real>)
    requires forall x :: x in xs ==> x in ys
    requires ys != [] ==> exists x :: x in xs && Max(ys).value <= x
    ensures Max(xs) == Max(ys)
  {
    if xs == [] {
      assert ys == [];
    } else {
      assert Max(xs).value in ys;
    }
  }

  /** More hours only add values. */
  lemma ValueStays(rows: seq<Reading>, device: nat, some: seq<int>, hours: seq<int>, metric: Metric, x: real)
    requires (forall h :: h in some ==> h in hours) && x in Values(InHours(rows, device, some), metric)
    ensures x in Values(InHours(rows, device, hours), metric)
  {
    var r := RowOfValue(InHours(rows, device, some), metric, x);
    ValueOfRow(InHours(rows, device, hours), metric, r);
  }

  /** Conversely a value belongs to the point of its hour. */
  lemma ValueHasHour(rows: seq<Reading>, device: nat, hours: seq<int>, metric: Metric, x: real) returns (p: Point)
    requires x in Values(InHours(rows, device, hours), metric)
    ensures p in HourPoints(rows, device, hours)
    ensures p == HourPoint(rows, device, p.bucket) && p.bucket in hours
    ensures x in Values(InHours(rows, device, [p.bucket]), metric)
  {
    var r := RowOfValue(InHours(rows, device, hours), metric, x);
    var h := HourOf(r.time);
    var i :| 0 <= i < |hours| && hours[i] == h;
    p := HourPoints(rows, device, hours)[i];
    ValueOfRow(InHours(rows, device, [h]), metric, r);
  }

  lemma ExtremesCompose(rows: seq<Reading>, device: nat, hours: seq<int>)
    ensures Min(Cells(HourPoints(rows, device, hours), MinColumn))
         == Min(Values(InHours(rows, device, hours), Temperature))
    ensures Max(Cells(HourPoints(rows, device, hours), MaxColumn))
         == Max(Values(InHours(rows, device, hours), Temperature))
  {
    ExtremeCounts(rows, device, hours, MinColumn);
    ExtremeCounts(rows, device, hours, MaxColumn);
    if Values(InHours(rows, device, hours), Temperature) != [] {
      ExtremesReached(rows, device, hours);
    }
    SameMin(Cells(HourPoints(rows, device, hours), MinColumn), Values(InHours(rows, device, hours), Temperature));
    SameMax(Cells(HourPoints(rows, device, hours), MaxColumn), Values(InHours(rows, device, hours), Temperature));
  }

  lemma ExtremesReached(rows: seq<Reading>, device: nat, hours: seq<int>)
    requires Values(InHours(rows, device, hours), Temperature) != []
    ensures exists x :: x in Cells(HourPoints(rows, device, hours), MinColumn)
              && x <= Min(Values(InHours(rows, device, hours), Temperature)).value
    ensures exists x :: x in Cells(HourPoints(rows, device, hours), MaxColumn)
              && Max(Values(InHours(rows, device, hours), Temperature)).value <= x
  {
    var all := Values(InHours(rows, device, hours), Temperature);
    var p := ValueHasHour(rows, device, hours, Temperature, Min(all).value);
    CellOfPoint(HourPoints(rows, device, hours), MinColumn, p);
    var q := ValueHasHour(rows, device, hours, Temperature, Max(all).value);
    CellOfPoint(HourPoints(rows, device, hours), MaxColumn, q);
  }

  lemma ExtremeCounts(rows: seq<Reading>, device: nat, hours: seq<int>, column: Column)
    requires column.MinColumn? || column.MaxColumn?
    ensures forall x :: x in Cells(HourPoints(rows, device, hours), column)
              ==> x in Values(InHours(rows, device, hours), Temperature)
  {
    var points := HourPoints(rows, device, hours);
    forall x | x in Cells(points, column)
      ensures x in Values(InHours(rows, device, hours), Temperature)
    {
      var p := PointOfCell(points, column, x);
      assert p.bucket in hours && p == HourPoint(rows, device, p.bucket);
      ValueStays(rows, device, [p.bucket], hours, Temperature, x);
    }
  }

  /** What the rollup aggregates for a day are the points of that day's hours. */
  lemma DayGroup(rows: seq<Reading>, device: nat, from: int, to: int, i: nat)
    requires i < |DayTier(rows, device, from, to)|
    ensures var day := DayTier(rows, device, from, to)[i].bucket;
            var hours := DayHours(rows, device, day, from, to);
            && PointsOfDay(HourTier(rows, device, from, to), day) == HourPoints(rows, device, hours)
            && Covered(rows, device, day, from, to) == InHours(rows, device, hours)
  {
    var day := DayTier(rows, device, from, to)[i].bucket;
    DayOfHourPoints(rows, device, Between(Hours(rows, device), from, to), day);
    CoveredIsInHours(rows, rows, device, day, from, to);
  }

  /**
    A day's minimum and maximum are those of the raw temperatures it covers, and null
    exactly when there are none.
   */
  lemma DayExtremesAreExact(rows: seq<Reading>, device: nat, from: int, to: int, i: nat)
    requires i < |DayTier(rows, device, from, to)|
    ensures var p := DayTier(rows, device, from, to)[i];
            var raw := Values(Covered(rows, device, p.bucket, from, to), Temperature);
            p.temperatureMin == Min(raw) && p.temperatureMax == Max(raw)
  {
    var day := DayTier(rows, device, from, to)[i].bucket;
    DayGroup(rows, device, from, to, i);
    ExtremesCompose(rows, device, DayHours(rows, device, day, from, to));
  }

  // ---------------------------------------------------------------- averages of averages

  /** The non-null values hour by hour, leaving out hours that have none. */
  function Groups(rows: seq<Reading>, device: nat, hours: seq<int>, metric: Metric): (groups: seq<seq<real>>)
    ensures NonEmptyGroups(groups)
  {
    if hours == [] then [] else
      var group, rest := Values(InHours(rows, device, [hours[0]]), metric), Groups(rows, device, hours[1..], metric);
      if group == [] then rest else [group] + rest
  }

  lemma {:induction false} CellsAreMeans(rows: seq<Reading>, device: nat, hours: seq<int>, metric: Metric)
    ensures Cells(HourPoints(rows, device, hours), AvgColumn(metric)) == Means(Groups(rows, device, hours, metric))
  {
    if hours != [] {
      CellsAreMeans(rows, device, hours[1..], metric);
      var points := HourPoints(rows, device, hours);
      assert points[1..] == HourPoints(rows, device, hours[1..]);
      assert AverageOf(points[0], metric) == Avg(Values(InHours(rows, device, [hours[0]]), metric));
      var groups := Groups(rows, device, hours, metric);
      if Values(InHours(rows, device, [hours[0]]), metric) != [] {
        assert groups[1..] == Groups(rows, device, hours[1..], metric);
      }
    }
  }

  /** Splitting off one hour splits the sum and the count. */
  lemma {:induction false} SplitHour(rows: seq<Reading>, device: nat, h: int, hours: seq<int>, metric: Metric)
    requires h !in hours
    ensures var all, one, others := Values(InHours(rows, device, [h] + hours), metric),
                                    Values(InHours(rows, device, [h]), metric),
                                    Values(InHours(rows, device, hours), metric);
            Sum(all) == Sum(one) + Sum(others) && |all| == |one| + |others|
  {
    if rows != [] {
      SplitHour(rows[1..], device, h, hours, metric);
      var r := rows[0];
      assert HourOf(r.time) in [h] + hours <==> HourOf(r.time) == h || HourOf(r.time) in hours;
      FirstRow(rows, device, [h] + hours, metric);
      FirstRow(rows, device, [h], metric);
      FirstRow(rows, device, hours, metric);
    }
  }

  lemma FirstRow(rows: seq<Reading>, device: nat, hours: seq<int>, metric: Metric)
    requires rows != []
    ensures var r, xs, rest := rows[0], Values(InHours(rows, device, hours), metric),
                               Values(InHours(rows[1..], device, hours), metric);
            if r.device == device && HourOf(r.time) in hours && ValueOf(r, metric).Some?
            then Sum(xs) == ValueOf(r, metric).value + Sum(rest) && |xs| == |rest| + 1
            else xs == rest
  {
    var kept := InHours(rows, device, hours);
    if rows[0].device == device && HourOf(rows[0].time) in hours {
      assert kept[1..] == InHours(rows[1..], device, hours);
      var xs := Values(kept, metric);
      if ValueOf(rows[0], metric).Some? {
        assert xs[1..] == Values(kept[1..], metric);
      }
    }
  }

  lemma {:induction false} GroupsPartition(rows: seq<Reading>, device: nat, hours: seq<int>, metric: Metric)
    requires Ascending(hours)
    ensures var all, flat := Values(InHours(rows, device, hours), metric), Flat(Groups(rows, device, hours, metric));
            && Sum(all) == Sum(flat) && |all| == |flat|
            && forall x :: x in flat ==> x in all
  {
    if hours == [] {
      NoHoursNoValues(rows, device, metric);
    } else {
      var h, rest := hours[0], hours[1..];
      GroupsPartition(rows, device, rest, metric);
      assert [h] + rest == hours;
      SplitHour(rows, device, h, rest, metric);
      var group := Values(InHours(rows, device, [h]), metric);
      SumConcat(group, Flat(Groups(rows, device, rest, metric)));
      forall x | x in Flat(Groups(rows, device, hours, metric))
        ensures x in Values(InHours(rows, device, hours), metric)
      {
        assert x in group || x in Values(InHours(rows, device, rest), metric);
        ValueStays(rows, device, if x in group then [h] else rest, hours, metric, x);
      }
    }
  }

  lemma NoHoursNoValues(rows: seq<Reading>, device: nat, metric: Metric)
    ensures Values(InHours(rows, device, []), metric) == []
  {
    if rows != [] {
      NoHoursNoValues(rows[1..], device, metric);
    }
  }

  /** All hours of the day with data for the metric have `n` values. */
  predicate EvenHours(rows: seq<Reading>, device: nat, day: int, from: int, to: int, metric: Metric, n: nat) {
    SameCounts(Groups(rows, device, DayHours(rows, device, day, from, to), metric), n)
  }

  lemma DayPointAverage(points: seq<Point>, day: int, metric: Metric)
    ensures AverageOf(DayPoint(points, day), metric) == Avg(Cells(PointsOfDay(points, day), AvgColumn(metric)))
  {
  }

  lemma DayTierEntry(rows: seq<Reading>, device: nat, from: int, to: int, i: nat)
    requires i < |DayTier(rows, device, from, to)|
    ensures var p := DayTier(rows, device, from, to)[i]; p == DayPoint(HourTier(rows, device, from, to), p.bucket)
  {
  }

  lemma DayAverageOfGroups(rows: seq<Reading>, device: nat, from: int, to: int, i: nat, metric: Metric)
    requires i < |DayTier(rows, device, from, to)|
    ensures var p := DayTier(rows, device, from, to)[i];
            AverageOf(p, metric) == Avg(Means(Groups(rows, device, DayHours(rows, device, p.bucket, from, to), metric)))
  {
    var day := DayTier(rows, device, from, to)[i].bucket;
    DayTierEntry(rows, device, from, to, i);
    DayPointAverage(HourTier(rows, device, from, to), day, metric);
    DayGroup(rows, device, from, to, i);
    CellsAreMeans(rows, device, DayHours(rows, device, day, from, to), metric);
  }

  lemma DayPartition(rows: seq<Reading>, device: nat, from: int, to: int, day: int, metric: Metric)
    ensures Partition(Groups(rows, device, DayHours(rows, device, day, from, to), metric),
                      Values(Covered(rows, device, day, from, to), metric))
  {
    CoveredIsInHours(rows, rows, device, day, from, to);
    GroupsPartition(rows, device, DayHours(rows, device, day, from, to), metric);
  }

  /** The average of a day is that of its hourly groups, and they partition what it covers. */
  lemma DayIsGroups(rows: seq<Reading>, device: nat, from: int, to: int, i: nat, metric: Metric)
    requires i < |DayTier(rows, device, from, to)|
    ensures var p := DayTier(rows, device, from, to)[i];
            var raw := Values(Covered(rows, device, p.bucket, from, to), metric);
            var groups := Groups(rows, device, DayHours(rows, device, p.bucket, from, to), metric);
            AverageOf(p, metric) == Avg(Means(groups)) && Partition(groups, raw)
  {
    DayAverageOfGroups(rows, device, from, to, i, metric);
    DayPartition(rows, device, from, to, DayTier(rows, device, from, to)[i].bucket, metric);
  }

  /** The groups have the sum and the size of `raw`, and only values of it. */
  ghost predicate Partition(groups: seq<seq<real>>, raw: seq<real>) {
    && Sum(raw) == Sum(Flat(groups))
    && |raw| == |Flat(groups)|
    && forall x :: x in Flat(groups) ==> x in raw
  }

  lemma PartitionAverage(groups: seq<seq<real>>, raw: seq<real>)
    requires Partition(groups, raw)
    ensures Avg(raw) == Avg(Flat(groups))
  {
  }

  lemma PartitionBounds(groups: seq<seq<real>>, raw: seq<real>)
    requires Partition(groups, raw) && NonEmptyGroups(groups)
    ensures groups == [] <==> raw == []
    ensures raw != [] ==>
              var lo, hi := Min(raw).value, Max(raw).value;
              && Means(groups) != []
              && lo <= Mean(Means(groups)) <= hi
              && lo - hi <= Mean(Means(groups)) - Mean(raw) <= hi - lo
  {
    if groups != [] {
      CountsMatch(groups);
      PartitionAverage(groups, raw);
      MeanOfMeansBounded(groups, Min(raw).value, Max(raw).value);
    }
  }

  lemma PartitionExact(groups: seq<seq<real>>, raw: seq<real>, n: nat)
    requires Partition(groups, raw) && NonEmptyGroups(groups) && SameCounts(groups, n)
    ensures Avg(Means(groups)) == Avg(raw)
  {
    PartitionAverage(groups, raw);
    if groups != [] {
      EqualCountsAreExact(groups, n);
    }
  }

  /**
    A day's average is null exactly when no value is covered; else it lies between the
    raw extremes, differs from the true mean by at most their spread, and equals it
    when the hours with data count the same.
   */
  lemma DayAverages(rows: seq<Reading>, device: nat, from: int, to: int, i: nat, metric: Metric)
    requires i < |DayTier(rows, device, from, to)|
    ensures var p := DayTier(rows, device, from, to)[i];
            var raw := Values(Covered(rows, device, p.bucket, from, to), metric);
            && (AverageOf(p, metric).None? <==> raw == [])
            && (raw != [] ==>
                  var average, lo, hi := AverageOf(p, metric).value, Min(raw).value, Max(raw).value;
                  && lo <= average <= hi
                  && lo - hi <= average - Mean(raw) <= hi - lo
                  && ((exists n :: EvenHours(rows, device, p.bucket, from, to, metric, n)) ==> average == Mean(raw)))
  {
    var day := DayTier(rows, device, from, to)[i].bucket;
    var raw := Values(Covered(rows, device, day, from, to), metric);
    var groups := Groups(rows, device, DayHours(rows, device, day, from, to), metric);
    DayIsGroups(rows, device, from, to, i, metric);
    PartitionBounds(groups, raw);
    if n :| EvenHours(rows, device, day, from, to, metric, n) {
      PartitionExact(groups, raw, n);
    }
  }

  // ---------------------------------------------------------------- the columns by name

  /** The values of one column that are not null. */
  function ColumnOf(rows: seq<Reading>, read: Reading -> Option<real>): seq<real> {
    if rows == [] then [] else
      var rest := ColumnOf(rows[1..], read);
      if read(rows[0]).Some? then [read(rows[0]).value] + rest else rest
  }

  lemma {:induction false} ValuesAreColumn(rows: seq<Reading>, metric: Metric, read: Reading -> Option<real>)
    requires forall r :: read(r) == ValueOf(r, metric)
    ensures Values(rows, metric) == ColumnOf(rows, read)
  {
    if rows != [] {
      ValuesAreColumn(rows[1..], metric, read);
    }
  }

  lemma ColumnsAreValues(rows: seq<Reading>)
    ensures Values(rows, Temperature) == ColumnOf(rows, (r: Reading) => r.temperature)
    ensures Values(rows, Humidity) == ColumnOf(rows, (r: Reading) => r.humidity)
    ensures Values(rows, Co2) == ColumnOf(rows, (r: Reading) => r.co2)
    ensures Values(rows, Ph) == ColumnOf(rows, (r: Reading) => r.ph)
    ensures Values(rows, Fan) == ColumnOf(rows, (r: Reading) => r.fan)
  {
    ValuesAreColumn(rows, Temperature, (r: Reading) => r.temperature);
    ValuesAreColumn(rows, Humidity, (r: Reading) => r.humidity);
    ValuesAreColumn(rows, Co2, (r: Reading) => r.co2);
    ValuesAreColumn(rows, Ph, (r: Reading) => r.ph);
    ValuesAreColumn(rows, Fan, (r: Reading) => r.fan);
  }

  /** A point of the hour tier aggregates each column of the rows of its hour under its own name. */
  lemma HourColumns(rows: seq<Reading>, device: nat, from: int, to: int, i: nat)
    requires i < |HourTier(rows, device, from, to)|
    ensures var p := HourTier(rows, device, from, to)[i];
            var hour := InHours(rows, device, [p.bucket]);
            && p.temperatureAvg == Avg(ColumnOf(hour, (r: Reading) => r.temperature))
            && p.temperatureMin == Min(ColumnOf(hour, (r: Reading) => r.temperature))
            && p.temperatureMax == Max(ColumnOf(hour, (r: Reading) => r.temperature))
            && p.humidityAvg == Avg(ColumnOf(hour, (r: Reading) => r.humidity))
            && p.co2Avg == Avg(ColumnOf(hour, (r: Reading) => r.co2))
            && p.phAvg == Avg(ColumnOf(hour, (r: Reading) => r.ph))
            && p.fanAvg == Avg(ColumnOf(hour, (r: Reading) => r.fan))
  {
    ColumnsAreValues(InHours(rows, device, [HourTier(rows, device, from, to)[i].bucket]));
  }

  /** Null exactly when there are no values; else between their extremes, so within their spread of the mean. */
  predicate Averages(average: Option<real>, raw: seq<real>) {
    && (average.None? <==> raw == [])
    && (raw != [] ==> Min(raw).value <= average.value <= Max(raw).value)
    && (raw != [] ==> Min(raw).value - Max(raw).value <= average.value - Mean(raw) <= Max(raw).value - Min(raw).value)
  }

  /** And a point of the day tier, of the rows the day covers. */
  lemma DayColumns(rows: seq<Reading>, device: nat, from: int, to: int, i: nat)
    requires i < |DayTier(rows, device, from, to)|
    ensures var p := DayTier(rows, device, from, to)[i];
            var day := Covered(rows, device, p.bucket, from, to);
            && p.temperatureMin == Min(ColumnOf(day, (r: Reading) => r.temperature))
            && p.temperatureMax == Max(ColumnOf(day, (r: Reading) => r.temperature))
            && Averages(p.temperatureAvg, ColumnOf(day, (r: Reading) => r.temperature))
            && Averages(p.humidityAvg, ColumnOf(day, (r: Reading) => r.humidity))
            && Averages(p.co2Avg, ColumnOf(day, (r: Reading) => r.co2))
            && Averages(p.phAvg, ColumnOf(day, (r: Reading) => r.ph))
            && Averages(p.fanAvg, ColumnOf(day, (r: Reading) => r.fan))
  {
    ColumnsAreValues(Covered(rows, device, DayTier(rows, device, from, to)[i].bucket, from, to));
    DayExtremesAreExact(rows, device, from, to, i);
    DayAverages(rows, device, from, to, i, Temperature);
    DayAverages(rows, device, from, to, i, Humidity);
    DayAverages(rows, device, from, to, i, Co2);
    DayAverages(rows, device, from, to, i, Ph);
    DayAverages(rows, device, from, to, i, Fan);
  }

  lemma CountsMatch(groups: seq<seq<real>>)
    requires groups != [] && NonEmptyGroups(groups)
    ensures Flat(groups) != []
  {
    assert groups[0] != [];
  }
}
