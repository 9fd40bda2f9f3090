/** The raw tier of the history endpoint: window rules, time order and the row cap. */
module RawHistory {
  import opened Prelude
  import opened Readings
  import opened History

  datatype Interval = Raw | Hour | Day

  datatype HistoryError = EmptyWindow | RawWindowTooLong

  /** How far back a window reaches when the caller gives no start. */
  function DefaultSpan(interval: Interval): int {
    match interval
    case Raw => DAY
    case Hour => 7 * DAY
    case Day => 90 * DAY
  }

  function ResolveWindow(interval: Interval, from: Option<int>, to: Option<int>, now: int)
    : (window: Result<(int, int), HistoryError>)
    ensures from.Some? && to.Some? ==>
              (window == Err(EmptyWindow) <==> to.value <= from.value)
              && (window == Ok((from.value, to.value)) <==>
                    from.value < to.value && (interval.Raw? ==> to.value - from.value <= 86_400_000_000))
    ensures window.Err? && interval != Raw ==> window.error.EmptyWindow?
    ensures to.None? && window.Ok? ==> window.value.1 == now
    ensures to.Some? && window.Ok? ==> window.value.1 == to.value
    ensures from.Some? && window.Ok? ==> window.value.0 == from.value
    ensures from.None? && window.Ok? ==>
              now - window.value.0 == 86_400_000_000 * if interval.Raw? then 1 else if interval.Hour? then 7 else 90
  {
    var start := if from.Some? then from.value else now - DefaultSpan(interval);
    var end := if to.Some? then to.value else now;
    if end <= start then Err(EmptyWindow)
    else if interval.Raw? && end - start > DAY then Err(RawWindowTooLong)
    else Ok((start, end))
  }

  function InWindow(rows: seq<Reading>, device: nat, from: int, to: int): (kept: seq<Reading>)
    ensures forall r :: r in kept <==> r in rows && r.device == device && from <= r.time <= to
    ensures |kept| <= |rows|
  {
    if rows == [] then [] else
      assert forall r :: r in rows <==> r == rows[0] || r in rows[1..];
      var rest := InWindow(rows[1..], device, from, to);
      if rows[0].device == device && from <= rows[0].time <= to then [rows[0]] + rest else rest
  }

  predicate StrictlyAscending(rows: seq<Reading>) {
    forall i, j :: 0 <= i < j < |rows| ==> rows[i].time < rows[j].time
  }

  function InsertByTime(r: Reading, rows: seq<Reading>): (sorted: seq<Reading>)
    ensures |sorted| == |rows| + 1
    ensures forall x :: x in sorted <==> x == r || x in rows
  {
    if rows == [] || r.time <= rows[0].time then [r] + rows
    else
      assert rows == [rows[0]] + rows[1..];
      [rows[0]] + InsertByTime(r, rows[1..])
  }

  /** ORDER BY time. */
  function SortByTime(rows: seq<Reading>): (sorted: seq<Reading>)
    ensures |sorted| == |rows|
    ensures forall x :: x in sorted <==> x in rows
  {
    if rows == [] then [] else
      assert rows == [rows[0]] + rows[1..];
      InsertByTime(rows[0], SortByTime(rows[1..]))
  }

  function RawTier(rows: seq<Reading>, device: nat, from: int, to: int): seq<Reading> {
    var sorted := SortByTime(InWindow(rows, device, from, to));
    if |sorted| > RAW_LIMIT then sorted[..RAW_LIMIT] else sorted
  }

  /** The table's primary key: no two rows share device and time. */
  predicate Keyed(rows: seq<Reading>) {
    forall i, j :: 0 <= i < j < |rows| ==> KeyOf(rows[i]) != KeyOf(rows[j])
  }

  /** Successive rows of the device are at least `gap` apart. */
  predicate Spaced(rows: seq<Reading>, device: nat, gap: int) {
    forall r, q :: r in rows && q in rows && r.device == device && q.device == device && r.time < q.time ==>
      q.time - r.time >= gap
  }

  lemma {:induction false} InsertAscends(r: Reading, rows: seq<Reading>)
    requires StrictlyAscending(rows) && forall x :: x in rows ==> x.time != r.time
    ensures StrictlyAscending(InsertByTime(r, rows))
  {
    if rows != [] && r.time > rows[0].time {
      var rest := InsertByTime(r, rows[1..]);
      InsertAscends(r, rows[1..]);
      assert forall j :: 0 <= j < |rest| ==> rest[j] in rest;
    } else {
      assert forall j :: 0 <= j < |rows| ==> rows[j] in rows;
    }
  }

  predicate DistinctTimes(rows: seq<Reading>) {
    forall i, j :: 0 <= i < j < |rows| ==> rows[i].time != rows[j].time
  }

  lemma {:induction false} SortAscends(rows: seq<Reading>)
    requires DistinctTimes(rows)
    ensures StrictlyAscending(SortByTime(rows))
  {
    if rows != [] {
      SortAscends(rows[1..]);
      InsertAscends(rows[0], SortByTime(rows[1..]));
    }
  }

  lemma {:induction false} WindowTimesDistinct(rows: seq<Reading>, device: nat, from: int, to: int)
    requires Keyed(rows)
    ensures DistinctTimes(InWindow(rows, device, from, to))
  {
    if rows != [] {
      var rest := InWindow(rows[1..], device, from, to);
      WindowTimesDistinct(rows[1..], device, from, to);
      if rows[0].device == device {
        forall j | 0 <= j < |rest|
          ensures rest[j].time != rows[0].time
        {
          assert rest[j] in rest;
          var k :| 0 <= k < |rows[1..]| && rows[1..][k] == rest[j];
          assert KeyOf(rows[0]) != KeyOf(rows[k + 1]);
        }
      }
    }
  }

  /**
    The raw tier returns the earliest rows of the closed window, at most 1000, in
    strictly ascending time; a row left out is later than all of them.
   */
  lemma RawTierIsEarliest(rows: seq<Reading>, device: nat, from: int, to: int)
    requires Keyed(rows)
    ensures StrictlyAscending(RawTier(rows, device, from, to))
    ensures forall r :: r in RawTier(rows, device, from, to) ==> r in InWindow(rows, device, from, to)
    ensures |RawTier(rows, device, from, to)|
         == if Complete(rows, device, from, to) then |InWindow(rows, device, from, to)| else 1000
    ensures forall r, x :: r in InWindow(rows, device, from, to) && x in RawTier(rows, device, from, to) ==>
              r in RawTier(rows, device, from, to) || x.time < r.time
  {
    var kept := InWindow(rows, device, from, to);
    var sorted, raw := SortByTime(kept), RawTier(rows, device, from, to);
    WindowTimesDistinct(rows, device, from, to);
    SortAscends(kept);
    forall r, x | r in kept && x in raw
      ensures r in raw || x.time < r.time
    {
      CutIsLater(sorted, raw, r, x);
    }
  }

  lemma CutIsLater(sorted: seq<Reading>, front: seq<Reading>, r: Reading, x: Reading)
    requires StrictlyAscending(sorted) && front <= sorted && r in sorted && x in front
    ensures r in front || x.time < r.time
  {
    var i :| 0 <= i < |sorted| && sorted[i] == r;
    var k :| 0 <= k < |front| && front[k] == x;
    if i < |front| {
      assert front[i] == r;
    } else {
      assert sorted[k] == x;
    }
  }

  /** Nothing is cut off: the result has every row of the window. */
  predicate Complete(rows: seq<Reading>, device: nat, from: int, to: int) {
    |InWindow(rows, device, from, to)| <= |RawTier(rows, device, from, to)|
  }

  lemma {:induction false} SpreadOut(rows: seq<Reading>, device: nat, gap: nat, k: nat)
    requires StrictlyAscending(rows) && Spaced(rows, device, gap) && k < |rows|
    requires forall r :: r in rows ==> r.device == device
    ensures rows[k].time - rows[0].time >= k * gap
  {
    if k > 0 {
      SpreadOut(rows, device, gap, k - 1);
      assert rows[k - 1] in rows && rows[k] in rows;
      assert k * gap == (k - 1) * gap + gap;
    }
  }

  /** No truncation when the window the endpoint accepts is too short for 1001 rows. */
  lemma SpacedRowsAreComplete(rows: seq<Reading>, device: nat, from: int, to: int, gap: nat)
    requires Keyed(rows) && Spaced(rows, device, gap) && to - from <= DAY && gap * RAW_LIMIT > DAY
    ensures Complete(rows, device, from, to)
  {
    var kept := InWindow(rows, device, from, to);
    var sorted := SortByTime(kept);
    if |sorted| > RAW_LIMIT {
      assert sorted[0] in sorted && sorted[RAW_LIMIT] in sorted;
      WindowTimesDistinct(rows, device, from, to);
      SortAscends(kept);
      SpreadOut(sorted, device, gap, RAW_LIMIT);
      assert false;
    }
  }

  /** A device that reports every `gap`, once more often than the cap allows. */
  function Beats(gap: nat, n: nat): (rows: seq<Reading>)
    ensures |rows| == n
    ensures forall i :: 0 <= i < n ==> rows[i].device == 0 && rows[i].time == i * gap
  {
    if n == 0 then [] else Beats(gap, n - 1) + [Reading(0, (n - 1) * gap, None, None, None, None, None, None)]
  }

  lemma {:induction false} KeepsAll(rows: seq<Reading>, device: nat, from: int, to: int)
    requires forall i :: 0 <= i < |rows| ==> rows[i].device == device && from <= rows[i].time <= to
    ensures InWindow(rows, device, from, to) == rows
  {
    if rows != [] {
      KeepsAll(rows[1..], device, from, to);
    }
  }

  lemma Steps(gap: nat, i: nat, j: nat)
    requires i < j
    ensures j * gap - i * gap >= gap
  {
    assert j * gap - i * gap == (j - i) * gap;
    assert (j - i - 1) * gap >= 0;
  }

  lemma BeatsAreSpaced(gap: nat, n: nat)
    requires gap > 0
    ensures Keyed(Beats(gap, n)) && Spaced(Beats(gap, n), 0, gap)
  {
    var rows := Beats(gap, n);
    forall i, j | 0 <= i < j < |rows|
      ensures KeyOf(rows[i]) != KeyOf(rows[j])
    {
      Steps(gap, i, j);
    }
    forall r, q | r in rows && q in rows && r.time < q.time
      ensures q.time - r.time >= gap
    {
      var i :| 0 <= i < |rows| && rows[i] == r;
      var j :| 0 <= j < |rows| && rows[j] == q;
      if j < i {
        Steps(gap, j, i);
      } else if i < j {
        Steps(gap, i, j);
      }
    }
  }

  lemma BeatsAreTruncated(gap: nat, n: nat)
    requires n >= RAW_LIMIT
    ensures !Complete(Beats(gap, n + 1), 0, 0, n * gap)
  {
    var rows := Beats(gap, n + 1);
    forall i | 0 <= i < |rows|
      ensures 0 <= rows[i].time <= n * gap
    {
      assert (n - i) * gap >= 0;
      assert n * gap == (n - i) * gap + i * gap;
    }
    KeepsAll(rows, 0, 0, n * gap);
  }

  /** Every table whose rows are `gap` apart comes back whole, in every window the endpoint accepts. */
  ghost predicate NeverTruncates(gap: nat) {
    forall rows, device, from: Option<int>, to: Option<int>, now: int ::
      Keyed(rows) && Spaced(rows, device, gap) && ResolveWindow(Raw, from, to, now).Ok? ==>
        Complete(rows, device, ResolveWindow(Raw, from, to, now).value.0, ResolveWindow(Raw, from, to, now).value.1)
  }

  /** Truncation is impossible exactly when the spacing exceeds a thousandth of a day, 86.4 seconds. */
  lemma NeverTruncatesIff(gap: nat)
    requires gap > 0
    ensures NeverTruncates(gap) <==> gap > 86_400_000
  {
    if gap * RAW_LIMIT > DAY {
      forall rows, device, from: Option<int>, to: Option<int>, now: int |
        Keyed(rows) && Spaced(rows, device, gap) && ResolveWindow(Raw, from, to, now).Ok?
        ensures var window := ResolveWindow(Raw, from, to, now).value; Complete(rows, device, window.0, window.1)
      {
        var window := ResolveWindow(Raw, from, to, now).value;
        SpacedRowsAreComplete(rows, device, window.0, window.1, gap);
      }
    } else {
      BeatsAreSpaced(gap, RAW_LIMIT + 1);
      BeatsAreTruncated(gap, RAW_LIMIT);
      var end := RAW_LIMIT * gap;
      assert ResolveWindow(Raw, Some(0), Some(end), 0) == Ok((0, end));
    }
  }
}
