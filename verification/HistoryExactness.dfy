/**
  When the day tier's average of hourly averages is the mean of the day: exactly when the
  hours that have data have equally many values.  Shown on tables that realise any values
  for any profile of hourly counts.
 */
module HistoryExactness {
  import opened Prelude
  import opened Readings
  import opened Statistics
  import opened History
  import RawHistory

  // ---------------------------------------------------------------- profiles

  /** The hours of a day, counted from its start. */
  const HOURS: nat := 24

  function HourAt(day: int, k: nat): int {
    day + k * HOUR
  }

  /** `counts[k]` values of the metric are not null in hour k of the day. */
  predicate HasProfile(rows: seq<Reading>, device: nat, day: int, metric: Metric, counts: seq<nat>) {
    && |counts| == HOURS
    && forall k :: 0 <= k < HOURS ==> |Values(InHours(rows, device, [HourAt(day, k)]), metric)| == counts[k]
  }

  function NonZero(counts: seq<nat>): (kept: seq<nat>)
    ensures Positive(kept)
    ensures forall k :: 0 <= k < |counts| && counts[k] > 0 ==> counts[k] in kept
  {
    if counts == [] then [] else (if counts[0] == 0 then [] else [counts[0]]) + NonZero(counts[1..])
  }

  /** The tier reports the mean of the values that the day covers. */
  predicate ReportsMean(rows: seq<Reading>, device: nat, from: int, to: int, i: nat, metric: Metric)
    requires i < |DayTier(rows, device, from, to)|
  {
    var p := DayTier(rows, device, from, to)[i];
    AverageOf(p, metric) == Avg(Values(Covered(rows, device, p.bucket, from, to), metric))
  }

  /** Entry `i` is a day with that profile, all of whose hours lie in the window. */
  predicate IsDay(rows: seq<Reading>, device: nat, from: int, to: int, i: nat, metric: Metric, counts: seq<nat>) {
    && RawHistory.Keyed(rows)
    && i < |DayTier(rows, device, from, to)|
    && var day := DayTier(rows, device, from, to)[i].bucket;
       from <= day && HourAt(day, HOURS - 1) <= to && HasProfile(rows, device, day, metric, counts)
  }

  /** Every table whose day has that profile gets the mean of the day. */
  ghost predicate AlwaysReportsMean(counts: seq<nat>, metric: Metric) {
    forall rows, device, from, to, i :: IsDay(rows, device, from, to, i, metric, counts) ==>
      ReportsMean(rows, device, from, to, i, metric)
  }

  // ---------------------------------------------------------------- equal counts suffice

  lemma {:induction false} GroupIsHour(rows: seq<Reading>, device: nat, hours: seq<int>, metric: Metric, g: nat)
    returns (h: int)
    requires g < |Groups(rows, device, hours, metric)|
    ensures h in hours && Groups(rows, device, hours, metric)[g] == Values(InHours(rows, device, [h]), metric)
  {
    var first, rest := Values(InHours(rows, device, [hours[0]]), metric), Groups(rows, device, hours[1..], metric);
    assert Groups(rows, device, hours, metric) == if first == [] then rest else [first] + rest;
    if first != [] && g == 0 {
      h := hours[0];
    } else {
      h := GroupIsHour(rows, device, hours[1..], metric, if first == [] then g else g - 1);
    }
  }

  lemma HourOfDay(h: int, day: int)
    requires h % HOUR == 0 && DayOf(h) == day
    ensures 0 <= (h - day) / HOUR < HOURS && h == HourAt(day, (h - day) / HOUR)
  {
    var q := h / HOUR;
    assert h == HOUR * q && DAY == 24 * HOUR;
    assert day == HOUR * (24 * (h / DAY));
    assert h - day == HOUR * (q - 24 * (h / DAY));
  }

  lemma BucketIsHour(t: int)
    ensures HourOf(t) % HOUR == 0
  {
  }

  lemma EqualProfileIsEven(rows: seq<Reading>, device: nat, from: int, to: int, i: nat,
                           metric: Metric, counts: seq<nat>)
    requires IsDay(rows, device, from, to, i, metric, counts) && AllEqual(NonZero(counts))
    ensures exists n :: EvenHours(rows, device, DayTier(rows, device, from, to)[i].bucket, from, to, metric, n)
  {
    var day := DayTier(rows, device, from, to)[i].bucket;
    var hours := DayHours(rows, device, day, from, to);
    var groups, kept := Groups(rows, device, hours, metric), NonZero(counts);
    var n := if kept == [] then 0 else kept[0];
    forall g | 0 <= g < |groups|
      ensures |groups[g]| == n
    {
      var h := GroupIsHour(rows, device, hours, metric, g);
      var r :| r in rows && HourOf(r.time) == h;
      BucketIsHour(r.time);
      HourOfDay(h, day);
      assert groups[g] != [] && |groups[g]| == counts[(h - day) / HOUR];
      assert |groups[g]| in kept;
    }
    assert EvenHours(rows, device, day, from, to, metric, n);
  }

  // ---------------------------------------------------------------- a table for any values

  function RowAt(time: int, metric: Metric, x: real): (r: Reading)
    ensures r.device == 0 && r.time == time && ValueOf(r, metric) == Some(x)
  {
    match metric
    case Temperature => Reading(0, time, Some(x), None, None, None, None, None)
    case Humidity => Reading(0, time, None, Some(x), None, None, None, None)
    case Co2 => Reading(0, time, None, None, Some(x), None, None, None)
    case Ph => Reading(0, time, None, None, None, Some(x), None, None)
    case Fan => Reading(0, time, None, None, None, None, Some(x), None)
  }

  /** One row for each value, a microsecond apart. */
  function RowsFrom(start: int, metric: Metric, xs: seq<real>): (rows: seq<Reading>)
    ensures |rows| == |xs|
    ensures forall j :: 0 <= j < |xs| ==> rows[j] == RowAt(start + j, metric, xs[j])
    decreases |xs|
  {
    if xs == [] then [] else [RowAt(start, metric, xs[0])] + RowsFrom(start + 1, metric, xs[1..])
  }

  lemma {:induction false} ValuesOfRows(start: int, metric: Metric, xs: seq<real>)
    ensures Values(RowsFrom(start, metric, xs), metric) == xs
    decreases |xs|
  {
    if xs != [] {
      ValuesOfRows(start + 1, metric, xs[1..]);
      assert [xs[0]] + xs[1..] == xs;
    }
  }

  /** The values of hour k, k + 1, ... as rows of device 0. */
  function Table(k: nat, metric: Metric, groups: seq<seq<real>>): seq<Reading>
    decreases |groups|
  {
    if groups == [] then [] else RowsFrom(k * HOUR, metric, groups[0]) + Table(k + 1, metric, groups[1..])
  }

  predicate FitHours(groups: seq<seq<real>>) {
    forall k :: 0 <= k < |groups| ==> |groups[k]| <= HOUR
  }

  lemma InHour(k: nat, j: nat)
    requires j < HOUR
    ensures HourOf(k * HOUR + j) == k * HOUR
  {
    assert (k * HOUR + j) / HOUR == k;
  }

  /** Rows of the table lie in the hours from k on. */
  lemma {:induction false} TableStarts(k: nat, metric: Metric, groups: seq<seq<real>>)
    ensures forall r :: r in Table(k, metric, groups) ==> r.device == 0 && k * HOUR <= r.time
    decreases |groups|
  {
    if groups != [] {
      TableStarts(k + 1, metric, groups[1..]);
      assert (k + 1) * HOUR == k * HOUR + HOUR;
    }
  }

  lemma AscendingConcat(head: seq<Reading>, rest: seq<Reading>, at: int)
    requires RawHistory.StrictlyAscending(head) && RawHistory.StrictlyAscending(rest)
    requires (forall r :: r in head ==> r.time < at) && (forall r :: r in rest ==> at <= r.time)
    ensures RawHistory.StrictlyAscending(head + rest)
  {
    assert forall j :: 0 <= j < |head| ==> head[j] in head;
    assert forall j :: 0 <= j < |rest| ==> rest[j] in rest;
  }

  /** They come in time order. */
  lemma {:induction false} TableOrder(k: nat, metric: Metric, groups: seq<seq<real>>)
    requires FitHours(groups)
    ensures RawHistory.StrictlyAscending(Table(k, metric, groups))
    decreases |groups|
  {
    if groups != [] {
      TableOrder(k + 1, metric, groups[1..]);
      TableStarts(k + 1, metric, groups[1..]);
      assert (k + 1) * HOUR == k * HOUR + HOUR;
      AscendingConcat(RowsFrom(k * HOUR, metric, groups[0]), Table(k + 1, metric, groups[1..]), (k + 1) * HOUR);
    }
  }

  lemma {:induction false} InHoursSplits(rows: seq<Reading>, more: seq<Reading>, device: nat, hours: seq<int>)
    ensures InHours(rows + more, device, hours) == InHours(rows, device, hours) + InHours(more, device, hours)
  {
    if rows == [] {
      assert [] + more == more;
    } else {
      assert (rows + more)[1..] == rows[1..] + more;
      InHoursSplits(rows[1..], more, device, hours);
    }
  }

  lemma {:induction false} AllOrNone(rows: seq<Reading>, h: int, all: bool)
    requires forall r :: r in rows ==> r.device == 0 && (HourOf(r.time) == h <==> all)
    ensures InHours(rows, 0, [h]) == if all then rows else []
  {
    if rows != [] {
      AllOrNone(rows[1..], h, all);
    }
  }

  lemma RowsInHour(k: nat, metric: Metric, xs: seq<real>, h: int)
    requires |xs| <= HOUR
    ensures InHours(RowsFrom(k * HOUR, metric, xs), 0, [h])
         == if h == k * HOUR then RowsFrom(k * HOUR, metric, xs) else []
  {
    var rows := RowsFrom(k * HOUR, metric, xs);
    forall r | r in rows
      ensures r.device == 0 && HourOf(r.time) == k * HOUR
    {
      var j :| 0 <= j < |rows| && rows[j] == r;
      InHour(k, j);
    }
    AllOrNone(rows, h, h == k * HOUR);
  }

  lemma NoEarlierRows(k: nat, metric: Metric, groups: seq<seq<real>>, n: nat)
    requires FitHours(groups) && n < k
    ensures InHours(Table(k, metric, groups), 0, [n * HOUR]) == []
  {
    var rows := Table(k, metric, groups);
    TableStarts(k, metric, groups);
    forall r | r in rows
      ensures HourOf(r.time) != n * HOUR
    {
      assert (n + 1) * HOUR <= k * HOUR;
      assert r.time >= n * HOUR + HOUR;
    }
    AllOrNone(rows, n * HOUR, false);
  }

  lemma FirstHour(k: nat, metric: Metric, groups: seq<seq<real>>, n: nat)
    requires FitHours(groups) && groups != [] && k <= n
    ensures InHours(Table(k, metric, groups), 0, [n * HOUR])
         == if n == k then RowsFrom(k * HOUR, metric, groups[0])
            else InHours(Table(k + 1, metric, groups[1..]), 0, [n * HOUR])
  {
    InHoursSplits(RowsFrom(k * HOUR, metric, groups[0]), Table(k + 1, metric, groups[1..]), 0, [n * HOUR]);
    RowsInHour(k, metric, groups[0], n * HOUR);
    if n == k {
      NoEarlierRows(k + 1, metric, groups[1..], n);
    } else {
      assert n * HOUR != k * HOUR;
    }
  }

  /** The values of hour n in a table of device 0 that starts with the day at 0. */
  function ValuesAt(rows: seq<Reading>, metric: Metric, n: nat): seq<real> {
    Values(InHours(rows, 0, [n * HOUR]), metric)
  }

  lemma FirstValues(k: nat, metric: Metric, groups: seq<seq<real>>, n: nat)
    requires FitHours(groups) && groups != [] && k <= n
    ensures ValuesAt(Table(k, metric, groups), metric, n)
         == if n == k then groups[0] else ValuesAt(Table(k + 1, metric, groups[1..]), metric, n)
  {
    FirstHour(k, metric, groups, n);
    ValuesOfRows(k * HOUR, metric, groups[0]);
  }

  /** Hours before the n-th can be left out. */
  lemma {:induction false} LaterHours(metric: Metric, groups: seq<seq<real>>, n: nat, i: nat)
    requires FitHours(groups) && i <= n && i <= |groups|
    ensures ValuesAt(Table(0, metric, groups), metric, n) == ValuesAt(Table(i, metric, groups[i..]), metric, n)
  {
    if i == 0 {
      assert groups[0..] == groups;
    } else {
      LaterHours(metric, groups, n, i - 1);
      var rest := groups[i - 1..];
      assert rest[1..] == groups[i..];
      FirstValues(i - 1, metric, rest, n);
    }
  }

  lemma TableHour(metric: Metric, groups: seq<seq<real>>, n: nat)
    requires FitHours(groups)
    ensures ValuesAt(Table(0, metric, groups), metric, n) == if n < |groups| then groups[n] else []
  {
    var i := if n < |groups| then n else |groups|;
    LaterHours(metric, groups, n, i);
    if n < |groups| {
      FirstValues(n, metric, groups[n..], n);
    }
  }

  function NonEmpty(groups: seq<seq<real>>): (kept: seq<seq<real>>)
    ensures NonEmptyGroups(kept)
    ensures forall k :: 0 <= k < |groups| && groups[k] != [] ==> kept != []
  {
    if groups == [] then [] else (if groups[0] == [] then [] else [groups[0]]) + NonEmpty(groups[1..])
  }

  predicate HasValues(k: nat, groups: seq<seq<real>>, n: int) {
    k <= n < k + |groups| && groups[n - k] != []
  }

  /** The hours of the table that have values, by number. */
  function Used(k: nat, groups: seq<seq<real>>): (used: seq<int>)
    ensures Ascending(used)
    ensures forall n :: n in used <==> HasValues(k, groups, n)
    decreases |groups|
  {
    if groups == [] then [] else
      var rest := Used(k + 1, groups[1..]);
      PrependAscending(k, rest);
      if groups[0] == [] then rest else [k] + rest
  }

  function HourStarts(used: seq<int>): (hours: seq<int>)
    requires Ascending(used)
    ensures |hours| == |used|
    ensures forall i :: 0 <= i < |used| ==> hours[i] == used[i] * HOUR
    ensures Ascending(hours)
  {
    seq(|used|, i requires 0 <= i < |used| => used[i] * HOUR)
  }

  lemma {:induction false} AscendingUnique(xs: seq<int>, ys: seq<int>)
    requires Ascending(xs) && Ascending(ys) && forall x :: x in xs <==> x in ys
    ensures xs == ys
  {
    if ys != [] {
      assert ys[0] in ys;
    }
    if xs != [] {
      assert xs[0] in xs;
      HeadIsLeast(xs);
      HeadIsLeast(ys);
      AscendingUnique(xs[1..], ys[1..]);
    }
  }

  lemma {:induction false} TableMeasured(k: nat, metric: Metric, groups: seq<seq<real>>)
    ensures forall r :: r in Table(k, metric, groups) ==> r.device == 0 && ValueOf(r, metric).Some?
    decreases |groups|
  {
    if groups != [] {
      TableMeasured(k + 1, metric, groups[1..]);
    }
  }

  /** The table has rows in hour n just when it has values for it. */
  lemma TableHourUsed(metric: Metric, groups: seq<seq<real>>, n: nat)
    requires FitHours(groups)
    ensures n * HOUR in Hours(Table(0, metric, groups), 0) <==> HasValues(0, groups, n)
  {
    var rows := Table(0, metric, groups);
    var hour := InHours(rows, 0, [n * HOUR]);
    TableHour(metric, groups, n);
    TableMeasured(0, metric, groups);
    if n * HOUR in Hours(rows, 0) {
      var r :| r in rows && r.device == 0 && HourOf(r.time) == n * HOUR;
      ValueOfRow(hour, metric, r);
    }
    if HasValues(0, groups, n) {
      var r := RowOfValue(hour, metric, groups[n][0]);
    }
  }

  /** The start of the last hour of the day at 0. */
  const LAST: int := 23 * HOUR

  lemma HourInDay(n: nat)
    requires n < HOURS
    ensures DayOf(n * HOUR) == 0 && 0 <= n * HOUR <= LAST
  {
  }

  lemma TableDayHours(metric: Metric, groups: seq<seq<real>>)
    requires FitHours(groups) && |groups| <= HOURS
    ensures DayHours(Table(0, metric, groups), 0, 0, 0, LAST) == HourStarts(Used(0, groups))
  {
    var hours, starts := DayHours(Table(0, metric, groups), 0, 0, 0, LAST), HourStarts(Used(0, groups));
    forall h | h in hours
      ensures h in starts
    {
      var n := TableDayHour(metric, groups, h);
      StartsOfUsed(Used(0, groups), n);
    }
    forall h | h in starts
      ensures h in hours
    {
      var n := UsedOfStart(Used(0, groups), h);
      UsedIsDayHour(metric, groups, n);
    }
    AscendingUnique(hours, starts);
  }

  lemma StartsOfUsed(used: seq<int>, n: int)
    requires Ascending(used) && n in used
    ensures n * HOUR in HourStarts(used)
  {
    var i :| 0 <= i < |used| && used[i] == n;
    assert HourStarts(used)[i] == n * HOUR;
  }

  lemma UsedOfStart(used: seq<int>, h: int) returns (n: int)
    requires Ascending(used) && h in HourStarts(used)
    ensures n in used && h == n * HOUR
  {
    var i :| 0 <= i < |used| && HourStarts(used)[i] == h;
    n := used[i];
  }

  lemma UsedIsDayHour(metric: Metric, groups: seq<seq<real>>, n: nat)
    requires FitHours(groups) && |groups| <= HOURS && HasValues(0, groups, n)
    ensures n * HOUR in DayHours(Table(0, metric, groups), 0, 0, 0, LAST)
  {
    HourInDay(n);
    TableHourUsed(metric, groups, n);
  }

  lemma TableDayHour(metric: Metric, groups: seq<seq<real>>, h: int) returns (n: nat)
    requires FitHours(groups) && h in DayHours(Table(0, metric, groups), 0, 0, 0, LAST)
    ensures h == n * HOUR && HasValues(0, groups, n)
  {
    var r :| r in Table(0, metric, groups) && HourOf(r.time) == h;
    BucketIsHour(r.time);
    HourOfDay(h, 0);
    n := h / HOUR;
    TableHourUsed(metric, groups, n);
  }

  /** The hours from k on have the values of the groups. */
  predicate Realises(rows: seq<Reading>, k: nat, metric: Metric, groups: seq<seq<real>>) {
    forall n :: k <= n < k + |groups| ==> ValuesAt(rows, metric, n) == groups[n - k]
  }

  lemma TableRealises(metric: Metric, groups: seq<seq<real>>)
    requires FitHours(groups)
    ensures Realises(Table(0, metric, groups), 0, metric, groups)
  {
    forall n: nat | n < |groups|
      ensures ValuesAt(Table(0, metric, groups), metric, n) == groups[n]
    {
      TableHour(metric, groups, n);
    }
  }

  lemma {:induction false} GroupsOfTable(rows: seq<Reading>, k: nat, metric: Metric, groups: seq<seq<real>>)
    requires Realises(rows, k, metric, groups)
    ensures Groups(rows, 0, HourStarts(Used(k, groups)), metric) == NonEmpty(groups)
    decreases |groups|
  {
    if groups != [] {
      GroupsOfTable(rows, k + 1, metric, groups[1..]);
      var starts := HourStarts(Used(k + 1, groups[1..]));
      assert ValuesAt(rows, metric, k) == groups[0];
      if groups[0] != [] {
        assert HourStarts(Used(k, groups)) == [k * HOUR] + starts;
        assert ([k * HOUR] + starts)[1..] == starts;
      }
    }
  }

  lemma TableGroups(metric: Metric, groups: seq<seq<real>>)
    requires FitHours(groups) && |groups| <= HOURS
    ensures Groups(Table(0, metric, groups), 0, DayHours(Table(0, metric, groups), 0, 0, 0, LAST), metric)
         == NonEmpty(groups)
  {
    TableDayHours(metric, groups);
    TableRealises(metric, groups);
    GroupsOfTable(Table(0, metric, groups), 0, metric, groups);
  }

  lemma TableCoversDay(metric: Metric, groups: seq<seq<real>>)
    requires FitHours(groups) && |groups| <= HOURS && NonEmpty(groups) != []
    ensures HasCovered(Table(0, metric, groups), 0, 0, 0, LAST)
  {
    var rows := Table(0, metric, groups);
    TableGroups(metric, groups);
    var h := GroupIsHour(rows, 0, DayHours(rows, 0, 0, 0, LAST), metric, 0);
    var r :| r in rows && r.device == 0 && HourOf(r.time) == h;
    DayOfHour(r.time);
    assert Covers(r, 0, 0, 0, LAST);
  }

  lemma TableListsDay(metric: Metric, groups: seq<seq<real>>) returns (i: nat)
    requires FitHours(groups) && |groups| <= HOURS && NonEmpty(groups) != []
    ensures i < |DayTier(Table(0, metric, groups), 0, 0, LAST)|
    ensures DayTier(Table(0, metric, groups), 0, 0, LAST)[i].bucket == 0
  {
    var rows := Table(0, metric, groups);
    TableCoversDay(metric, groups);
    DaysListed(rows, 0, 0, LAST, 0);
    i := Position(DayTier(rows, 0, 0, LAST), 0);
  }

  lemma Position(points: seq<Point>, day: int) returns (i: nat)
    requires Listed(points, day)
    ensures i < |points| && points[i].bucket == day
  {
    var p :| p in points && p.bucket == day;
    i :| 0 <= i < |points| && points[i] == p;
  }

  /** On the table, the tier averages the given groups' averages, and the true mean is theirs. */
  lemma TableAverages(metric: Metric, groups: seq<seq<real>>) returns (i: nat)
    requires FitHours(groups) && |groups| <= HOURS && NonEmpty(groups) != []
    ensures i < |DayTier(Table(0, metric, groups), 0, 0, LAST)|
    ensures var p := DayTier(Table(0, metric, groups), 0, 0, LAST)[i];
            && p.bucket == 0
            && AverageOf(p, metric) == Avg(Means(NonEmpty(groups)))
            && Avg(Values(Covered(Table(0, metric, groups), 0, 0, 0, LAST), metric)) == Avg(Flat(NonEmpty(groups)))
  {
    var rows := Table(0, metric, groups);
    i := TableListsDay(metric, groups);
    TableGroups(metric, groups);
    DayIsGroups(rows, 0, 0, LAST, i, metric);
    PartitionAverage(NonEmpty(groups), Values(Covered(rows, 0, 0, 0, LAST), metric));
  }

  // ---------------------------------------------------------------- a wrong average

  /** Values 0 in one hour, and 1 and 1 in the next. */
  const UNEVEN: seq<seq<real>> := [[0.0], [1.0, 1.0]]

  lemma UnevenMeans()
    ensures NonEmptyGroups(UNEVEN) && Avg(Means(UNEVEN)) == Some(1.0 / 2.0)
  {
    SumOfTwo(1.0, 1.0);
    SumOfTwo(0.0, 1.0);
    assert UNEVEN[1..] == [[1.0, 1.0]];
    assert Mean([1.0, 1.0]) == 1.0 && Mean([0.0]) == 0.0;
    assert Means([[1.0, 1.0]]) == [1.0];
    assert Means(UNEVEN) == [0.0, 1.0];
  }

  lemma UnevenMean()
    ensures Avg(Flat(UNEVEN)) == Some(2.0 / 3.0)
  {
    SumOfTwo(1.0, 1.0);
    assert UNEVEN[1..] == [[1.0, 1.0]];
    assert Flat([[1.0, 1.0]]) == [1.0, 1.0];
    var all := Flat(UNEVEN);
    assert all == [0.0, 1.0, 1.0] && all[1..] == [1.0, 1.0];
  }

  lemma SumOfTwo(x: real, y: real)
    ensures Sum([x, y]) == x + y
  {
    assert [x, y][1..] == [y] && [y][1..] == [];
    assert Sum([y]) == y + Sum([]);
  }

  lemma UnevenIsFull()
    ensures NonEmpty(UNEVEN) == UNEVEN
  {
    var ones: seq<seq<real>> := [[1.0, 1.0]];
    assert |ones[0]| == 2 && |UNEVEN[0]| == 1;
    assert ones[1..] == [] && NonEmpty(ones) == ones;
    assert UNEVEN[1..] == ones && UNEVEN == [[0.0]] + ones;
  }

  lemma UnevenFits()
    ensures FitHours(UNEVEN)
  {
    assert |UNEVEN| == 2 && |UNEVEN[0]| == 1 && |UNEVEN[1]| == 2;
  }

  /** The tier reports 1/2 where the mean of the day is 2/3. */
  lemma AverageCanBeWrong(metric: Metric) returns (rows: seq<Reading>, i: nat)
    ensures RawHistory.Keyed(rows)
    ensures i < |DayTier(rows, 0, 0, LAST)| && DayTier(rows, 0, 0, LAST)[i].bucket == 0
    ensures AverageOf(DayTier(rows, 0, 0, LAST)[i], metric) == Some(1.0 / 2.0)
    ensures Avg(Values(Covered(rows, 0, 0, 0, LAST), metric)) == Some(2.0 / 3.0)
  {
    UnevenMeans();
    UnevenMean();
    UnevenIsFull();
    UnevenFits();
    rows := Table(0, metric, UNEVEN);
    i := TableAverages(metric, UNEVEN);
    TableOrder(0, metric, UNEVEN);
  }

  // ---------------------------------------------------------------- equal counts are needed

  /** The groups placed in the hours that the counts leave non-empty. */
  function Spread(counts: seq<nat>, groups: seq<seq<real>>): (spread: seq<seq<real>>)
    requires |groups| == |NonZero(counts)|
    ensures |spread| == |counts|
  {
    if counts == [] then []
    else if counts[0] == 0 then [[]] + Spread(counts[1..], groups)
    else [groups[0]] + Spread(counts[1..], groups[1..])
  }

  lemma {:induction false} SpreadFits(counts: seq<nat>, groups: seq<seq<real>>)
    requires Shaped(groups, NonZero(counts))
    ensures forall k :: 0 <= k < |counts| ==> |Spread(counts, groups)[k]| == counts[k]
    ensures NonEmpty(Spread(counts, groups)) == groups
  {
    if counts != [] {
      var spread := Spread(counts, groups);
      if counts[0] == 0 {
        SpreadFits(counts[1..], groups);
        assert spread[1..] == Spread(counts[1..], groups);
      } else {
        assert NonZero(counts)[1..] == NonZero(counts[1..]);
        SpreadFits(counts[1..], groups[1..]);
        assert spread[1..] == Spread(counts[1..], groups[1..]);
        assert |groups[0]| == counts[0];
        assert [groups[0]] + groups[1..] == groups;
      }
    }
  }

  /** Any values for the profile occur in a table that the tier must get right. */
  lemma AlwaysMeanIsExact(counts: seq<nat>, metric: Metric, groups: seq<seq<real>>)
    requires |counts| == HOURS && (forall k :: 0 <= k < HOURS ==> counts[k] <= HOUR)
    requires AlwaysReportsMean(counts, metric)
    requires Shaped(groups, NonZero(counts)) && NonEmptyGroups(groups) && groups != []
    ensures Avg(Means(groups)) == Avg(Flat(groups))
  {
    var spread := Spread(counts, groups);
    SpreadFits(counts, groups);
    var rows := Table(0, metric, spread);
    var i := TableAverages(metric, spread);
    SpreadIsDay(counts, metric, groups, i);
    assert ReportsMean(rows, 0, 0, LAST, i, metric);
  }

  lemma SpreadIsDay(counts: seq<nat>, metric: Metric, groups: seq<seq<real>>, i: nat)
    requires |counts| == HOURS && (forall k :: 0 <= k < HOURS ==> counts[k] <= HOUR)
    requires Shaped(groups, NonZero(counts))
    requires var tier := DayTier(Table(0, metric, Spread(counts, groups)), 0, 0, LAST);
             i < |tier| && tier[i].bucket == 0
    ensures IsDay(Table(0, metric, Spread(counts, groups)), 0, 0, LAST, i, metric, counts)
  {
    var spread := Spread(counts, groups);
    SpreadFits(counts, groups);
    var rows := Table(0, metric, spread);
    TableOrder(0, metric, spread);
    forall k: nat | k < HOURS
      ensures |Values(InHours(rows, 0, [HourAt(0, k)]), metric)| == counts[k]
    {
      TableHour(metric, spread, k);
      assert ValuesAt(rows, metric, k) == Values(InHours(rows, 0, [HourAt(0, k)]), metric);
    }
  }

  /**
    For given hourly counts of a day, none above what the microseconds of an hour allow:
    the day tier reports the mean of the day for every table that has them exactly when
    the counts that are not zero agree.
   */
  lemma ReportsMeanIffEvenHours(counts: seq<nat>, metric: Metric)
    requires |counts| == HOURS && forall k :: 0 <= k < HOURS ==> counts[k] <= HOUR
    ensures AlwaysReportsMean(counts, metric) <==> AllEqual(NonZero(counts))
  {
    if AllEqual(NonZero(counts)) {
      forall rows, device, from, to, i | IsDay(rows, device, from, to, i, metric, counts)
        ensures ReportsMean(rows, device, from, to, i, metric)
      {
        EqualProfileIsEven(rows, device, from, to, i, metric, counts);
        DayAverages(rows, device, from, to, i, metric);
      }
    }
    if AlwaysReportsMean(counts, metric) && NonZero(counts) != [] {
      forall groups | Shaped(groups, NonZero(counts)) && NonEmptyGroups(groups)
                      && Means(groups) != [] && Flat(groups) != []
        ensures Mean(Means(groups)) == Mean(Flat(groups))
      {
        AlwaysMeanIsExact(counts, metric, groups);
      }
      ExactIffEqualCounts(NonZero(counts));
    }
  }
}
