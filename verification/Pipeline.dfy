/** End to end: from MQTT deliveries, through the requested checks, to the stored alert events. */
module Pipeline {
  import opened Prelude
  import opened Readings
  import opened Ingestion
  import Listening = ConcurrentIngestion
  import opened Thresholds
  import Cache = ThresholdCache
  import opened AlertTask

  /** What an alert check receives of a stored row. */
  function SampleOf(row: Reading): Sample {
    Sample(row.temperature, row.co2, row.humidity, row.ph)
  }

  /** The executions one check leads to, and for each the load that served it. */
  datatype Plan = Plan(attempts: seq<Attempt>, served: seq<nat>)

  /** A run of the cache protocol of one device. */
  datatype CacheRun = CacheRun(row: Row, start: int, steps: seq<Cache.Step>, end: Cache.State)

  predicate Planned(checks: seq<Reading>, plans: seq<Plan>) {
    |plans| == |checks| && forall c :: 0 <= c < |plans| ==> AllComplete(plans[c].attempts)
  }

  /** The executions of each check ran on tables that the cache of its device served. */
  ghost predicate Served(d: nat, runs: map<nat, CacheRun>, checks: seq<Reading>, plans: seq<Plan>)
    requires |plans| == |checks|
  {
    forall c :: 0 <= c < |checks| ==>
      && checks[c].device in runs
      && var run := runs[checks[c].device];
         && Cache.Runs(d, Cache.Initial(run.row, run.start), run.steps, run.end)
         && ServedBy(run.end, plans[c].attempts, plans[c].served)
  }

  function BatchesOf(check: Reading, plan: Plan): seq<seq<Alert>>
    requires AllComplete(plan.attempts)
  {
    Outcome(SampleOf(check), plan.attempts).batches
  }

  /** The events all checks leave behind, check by check. */
  function Events(checks: seq<Reading>, plans: seq<Plan>): seq<AlertEvent>
    requires Planned(checks, plans)
  {
    if checks == [] then [] else
      var n := |checks| - 1;
      Events(checks[..n], plans[..n]) + Concat(checks[n].device, checks[n].time, BatchesOf(checks[n], plans[n]))
  }

  // ---------------------------------------------------------------- soundness

  /** The alert is about a column of the row, under that column's own name. */
  predicate Carries(row: Reading, alert: Alert) {
    match alert.metric
    case TemperatureC => row.temperature == Some(alert.value)
    case Co2Ppm => row.co2 == Some(alert.value)
    case HumidityPct => row.humidity == Some(alert.value)
    case PhLevel => row.ph == Some(alert.value)
  }

  /** The column lies outside the limits of the table. */
  predicate Faulty(row: Reading, table: Table, metric: Metric)
    requires Complete(table)
  {
    match metric
    case TemperatureC =>
      && row.temperature.Some?
      && (row.temperature.value > table[TemperatureMax] || row.temperature.value < table[TemperatureMin])
    case Co2Ppm => row.co2.Some? && row.co2.value > table[Co2Max]
    case HumidityPct =>
      && row.humidity.Some?
      && (row.humidity.value < table[HumidityMin] || row.humidity.value > table[HumidityMax])
    case PhLevel =>
      && row.ph.Some?
      && (row.ph.value < table[PhMin] || row.ph.value > table[PhMax])
  }

  /**
    Check c is that of the stored row the event names; the event carries a value of the
    row, and was justified when the execution that wrote it loaded its table.
   */
  ghost predicate FoundedIn(d: nat, runs: map<nat, CacheRun>, db: Db, plans: seq<Plan>, event: AlertEvent, c: nat)
    requires Planned(db.checks, plans) && Served(d, runs, db.checks, plans)
  {
    && c < |db.checks|
    && var row, plan := db.checks[c], plans[c];
       && KeyOf(row) == (event.device, event.readingTime)
       && KeyOf(row) in db.readings && db.readings[KeyOf(row)] == row
       && Carries(row, event.alert)
       && SoundEvent(d, runs[row.device].end, plan.attempts, plan.served, SampleOf(row), event.alert)
  }

  ghost predicate Founded(d: nat, runs: map<nat, CacheRun>, db: Db, plans: seq<Plan>, event: AlertEvent)
    requires Planned(db.checks, plans) && Served(d, runs, db.checks, plans)
  {
    exists c :: FoundedIn(d, runs, db, plans, event, c)
  }

  lemma {:induction false} EventOfCheck(checks: seq<Reading>, plans: seq<Plan>, event: AlertEvent) returns (c: nat)
    requires Planned(checks, plans) && event in Events(checks, plans)
    ensures c < |checks| && event in Concat(checks[c].device, checks[c].time, BatchesOf(checks[c], plans[c]))
  {
    c := |checks| - 1;
    if event !in Concat(checks[c].device, checks[c].time, BatchesOf(checks[c], plans[c])) {
      c := EventOfCheck(checks[..c], plans[..c], event);
    }
  }

  lemma SoundCarries(d: nat, t: Cache.State, attempts: seq<Attempt>, served: seq<nat>, row: Reading, alert: Alert)
    requires AllComplete(attempts) && ServedBy(t, attempts, served)
    requires SoundEvent(d, t, attempts, served, SampleOf(row), alert)
    ensures Carries(row, alert)
  {
    var k: nat :| SoundFrom(d, t, attempts, served, SampleOf(row), alert, k);
    EvaluationExact(attempts[k].table, SampleOf(row));
    assert Justified(attempts[k].table, SampleOf(row), alert);
  }

  /** An event of the check of a row names the row, and is sound for it. */
  lemma EventOfRow(d: nat, run: CacheRun, row: Reading, plan: Plan, event: AlertEvent)
    requires Cache.Runs(d, Cache.Initial(run.row, run.start), run.steps, run.end)
    requires AllComplete(plan.attempts) && ServedBy(run.end, plan.attempts, plan.served)
    requires event in Concat(row.device, row.time, BatchesOf(row, plan))
    ensures KeyOf(row) == (event.device, event.readingTime)
    ensures SoundEvent(d, run.end, plan.attempts, plan.served, SampleOf(row), event.alert)
  {
    DeliveredEventsAreSound(d, run.row, run.start, run.steps, run.end, plan.served,
                            plan.attempts, row.device, row.time, SampleOf(row));
  }

  lemma EventIsFounded(d: nat, runs: map<nat, CacheRun>, db: Db, plans: seq<Plan>, event: AlertEvent)
    requires ChecksFollowRows(db) && Planned(db.checks, plans) && Served(d, runs, db.checks, plans)
    requires event in Events(db.checks, plans)
    ensures Founded(d, runs, db, plans, event)
  {
    var c := EventOfCheck(db.checks, plans, event);
    var row, plan := db.checks[c], plans[c];
    EventOfRow(d, runs[row.device], row, plan, event);
    SoundCarries(d, runs[row.device].end, plan.attempts, plan.served, row, event.alert);
    assert FoundedIn(d, runs, db, plans, event, c);
  }

  /**
    However messages overlap, and however the checks are run and run again: every stored
    event names the device and time of a stored row, carries a value of that row, and
    strictly breaches a limit in effect within the staleness window of the load of the
    very execution that wrote it.
   */
  lemma StoredEventsAreFounded(d: nat, runs: map<nat, CacheRun>, db: Db, steps: seq<Listening.Step>,
                               out: Listening.State, plans: seq<Plan>)
    requires db.checks == [] && Listening.Runs(Listening.State(db, map[]), steps, out)
    requires Planned(out.db.checks, plans) && Served(d, runs, out.db.checks, plans)
    ensures forall event :: event in Events(out.db.checks, plans) ==> Founded(d, runs, out.db, plans, event)
  {
    Listening.AccountedRun(Listening.State(db, map[]), steps, out);
    forall event | event in Events(out.db.checks, plans)
      ensures Founded(d, runs, out.db, plans, event)
    {
      EventIsFounded(d, runs, out.db, plans, event);
    }
  }

  // ---------------------------------------------------------------- completeness

  /** An event of the store about that metric of the row of check c. */
  ghost predicate HasEvent(db: Db, plans: seq<Plan>, c: nat, metric: Metric)
    requires Planned(db.checks, plans) && c < |db.checks|
  {
    exists event :: event in Events(db.checks, plans) && event.alert.metric == metric
                 && event.device == db.checks[c].device && event.readingTime == db.checks[c].time
  }

  /** Some execution of check c ran to its end on a table with that metric at fault. */
  ghost predicate FoundFault(db: Db, plans: seq<Plan>, c: nat, metric: Metric)
    requires Planned(db.checks, plans) && c < |db.checks|
  {
    exists k: nat :: k < |plans[c].attempts| && Ran(SampleOf(db.checks[c]), plans[c].attempts, k)
                  && Faulty(db.checks[c], plans[c].attempts[k].table, metric)
  }

  lemma {:induction false} CheckIsIn(checks: seq<Reading>, plans: seq<Plan>, c: nat, event: AlertEvent)
    requires Planned(checks, plans) && c < |checks|
    requires event in Concat(checks[c].device, checks[c].time, BatchesOf(checks[c], plans[c]))
    ensures event in Events(checks, plans)
  {
    var n := |checks| - 1;
    var front, last := Events(checks[..n], plans[..n]), BatchesOf(checks[n], plans[n]);
    assert Events(checks, plans) == front + Concat(checks[n].device, checks[n].time, last);
    if c < n {
      assert checks[..n][c] == checks[c] && plans[..n][c] == plans[c];
      CheckIsIn(checks[..n], plans[..n], c, event);
    }
  }

  lemma FaultHasAlert(row: Reading, table: Table, metric: Metric) returns (alert: Alert)
    requires Complete(table) && Faulty(row, table, metric)
    ensures alert.metric == metric && Justified(table, SampleOf(row), alert)
  {
    EvaluationExact(table, SampleOf(row));
    assert OutOfLimits(table, SampleOf(row), metric);
    alert :| alert in Evaluation(table, SampleOf(row)) && alert.metric == metric;
  }

  lemma AlertHasFault(row: Reading, table: Table, alert: Alert)
    requires Complete(table) && Justified(table, SampleOf(row), alert)
    ensures Faulty(row, table, alert.metric)
  {
  }

  /**
    From any tables whose checks follow rows: the store has an event about a metric of a
    checked row if and only if an execution of its check ran to its end on a table whose
    limits that column of the row lies outside.
   */
  lemma EventIffFault(db: Db, plans: seq<Plan>, c: nat, metric: Metric)
    requires ChecksFollowRows(db) && Planned(db.checks, plans) && c < |db.checks|
    ensures HasEvent(db, plans, c, metric) <==> FoundFault(db, plans, c, metric)
  {
    var row, attempts := db.checks[c], plans[c].attempts;
    if HasEvent(db, plans, c, metric) {
      var event :| event in Events(db.checks, plans) && event.alert.metric == metric
                && event.device == row.device && event.readingTime == row.time;
      var e := EventOfCheck(db.checks, plans, event);
      ConcatNames(db.checks[e].device, db.checks[e].time, BatchesOf(db.checks[e], plans[e]));
      assert KeyOf(db.checks[e]) == KeyOf(row);
      assert e == c;
      EventsIff(SampleOf(row), attempts, row.device, row.time, event.alert);
      var k: nat :| k < |attempts| && Ran(SampleOf(row), attempts, k)
                 && Justified(attempts[k].table, SampleOf(row), event.alert);
      AlertHasFault(row, attempts[k].table, event.alert);
    }
    if FoundFault(db, plans, c, metric) {
      var k: nat :| k < |attempts| && Ran(SampleOf(row), attempts, k) && Faulty(row, attempts[k].table, metric);
      var alert := FaultHasAlert(row, attempts[k].table, metric);
      EventsIff(SampleOf(row), attempts, row.device, row.time, alert);
      assert AlertEvent(row.device, alert, row.time) in Concat(row.device, row.time, BatchesOf(row, plans[c]));
      CheckIsIn(db.checks, plans, c, AlertEvent(row.device, alert, row.time));
    }
  }

  /** The same for whatever overlapping messages leave behind. */
  lemma StoredEventsIff(db: Db, steps: seq<Listening.Step>, out: Listening.State, plans: seq<Plan>,
                        c: nat, metric: Metric)
    requires db.checks == [] && Listening.Runs(Listening.State(db, map[]), steps, out)
    requires Planned(out.db.checks, plans) && c < |out.db.checks|
    ensures HasEvent(out.db, plans, c, metric) <==> FoundFault(out.db, plans, c, metric)
  {
    Listening.AccountedRun(Listening.State(db, map[]), steps, out);
    EventIffFault(out.db, plans, c, metric);
  }

  // ---------------------------------------------------------------- one batch for a row

  /** The batches written for a row, over all checks. */
  function RowBatches(checks: seq<Reading>, plans: seq<Plan>, key: Readings.Key): seq<seq<Alert>>
    requires Planned(checks, plans)
  {
    if checks == [] then [] else
      var n := |checks| - 1;
      RowBatches(checks[..n], plans[..n], key) + if KeyOf(checks[n]) == key then BatchesOf(checks[n], plans[n]) else []
  }

  /** Redeliveries of messages that check the row. */
  function RowRedeliveries(checks: seq<Reading>, plans: seq<Plan>, key: Readings.Key): nat
    requires |checks| == |plans|
  {
    if checks == [] then 0 else
      var n := |checks| - 1;
      RowRedeliveries(checks[..n], plans[..n], key)
      + if KeyOf(checks[n]) == key then Redeliveries(plans[n].attempts) else 0
  }

  function Naming(events: seq<AlertEvent>, key: Readings.Key): seq<AlertEvent> {
    if events == [] then [] else
      (if (events[0].device, events[0].readingTime) == key then [events[0]] else []) + Naming(events[1..], key)
  }

  lemma {:induction false} NamingSplits(events: seq<AlertEvent>, more: seq<AlertEvent>, key: Readings.Key)
    ensures Naming(events + more, key) == Naming(events, key) + Naming(more, key)
  {
    if events == [] {
      assert [] + more == more;
    } else {
      assert (events + more)[1..] == events[1..] + more;
      NamingSplits(events[1..], more, key);
    }
  }

  lemma {:induction false} NamingAllOrNone(events: seq<AlertEvent>, device: nat, time: int, key: Readings.Key)
    requires forall event :: event in events ==> event.device == device && event.readingTime == time
    ensures Naming(events, key) == if (device, time) == key then events else []
  {
    if events != [] {
      assert events[0] in events;
      NamingAllOrNone(events[1..], device, time, key);
    }
  }

  lemma {:induction false} ConcatNames(device: nat, time: int, batches: seq<seq<Alert>>)
    ensures forall event :: event in Concat(device, time, batches) ==>
              event.device == device && event.readingTime == time
  {
    if batches != [] {
      ConcatNames(device, time, batches[1..]);
    }
  }

  /** The stored events that name a row are its batches. */
  lemma {:induction false} EventsOfRow(checks: seq<Reading>, plans: seq<Plan>, key: Readings.Key)
    requires Planned(checks, plans)
    ensures Naming(Events(checks, plans), key) == Concat(key.0, key.1, RowBatches(checks, plans, key))
  {
    if checks != [] {
      var n := |checks| - 1;
      var row, batches := checks[n], BatchesOf(checks[n], plans[n]);
      EventsOfRow(checks[..n], plans[..n], key);
      NamingSplits(Events(checks[..n], plans[..n]), Concat(row.device, row.time, batches), key);
      ConcatNames(row.device, row.time, batches);
      NamingAllOrNone(Concat(row.device, row.time, batches), row.device, row.time, key);
      ConcatSplits(key.0, key.1, RowBatches(checks[..n], plans[..n], key), if KeyOf(row) == key then batches else []);
    }
  }

  predicate DistinctKeys(rows: seq<Reading>) {
    forall i, j :: 0 <= i < j < |rows| ==> KeyOf(rows[i]) != KeyOf(rows[j])
  }

  lemma {:induction false} NoCheckNoBatch(checks: seq<Reading>, plans: seq<Plan>, key: Readings.Key)
    requires Planned(checks, plans) && forall i :: 0 <= i < |checks| ==> KeyOf(checks[i]) != key
    ensures RowBatches(checks, plans, key) == []
  {
    if checks != [] {
      NoCheckNoBatch(checks[..|checks| - 1], plans[..|checks| - 1], key);
    }
  }

  lemma {:induction false} RowBatchesBounded(checks: seq<Reading>, plans: seq<Plan>, key: Readings.Key)
    requires Planned(checks, plans) && DistinctKeys(checks)
    ensures |RowBatches(checks, plans, key)| <= 1 + RowRedeliveries(checks, plans, key)
  {
    if checks != [] {
      var n := |checks| - 1;
      RowBatchesBounded(checks[..n], plans[..n], key);
      if KeyOf(checks[n]) == key {
        NoCheckNoBatch(checks[..n], plans[..n], key);
        BatchesBounded(SampleOf(checks[n]), plans[n].attempts);
      }
    }
  }

  /** From any tables whose checks follow rows: a row gets its batches, and few. */
  lemma BatchesOfRow(db: Db, plans: seq<Plan>, key: Readings.Key)
    requires ChecksFollowRows(db) && Planned(db.checks, plans)
    ensures Naming(Events(db.checks, plans), key) == Concat(key.0, key.1, RowBatches(db.checks, plans, key))
    ensures |RowBatches(db.checks, plans, key)| <= 1 + RowRedeliveries(db.checks, plans, key)
    ensures key !in db.readings ==> RowBatches(db.checks, plans, key) == []
  {
    EventsOfRow(db.checks, plans, key);
    RowBatchesBounded(db.checks, plans, key);
    if key !in db.readings {
      NoCheckNoBatch(db.checks, plans, key);
    }
  }

  /**
    However often and however overlapped its message is delivered, a row gets at most one
    batch of events, and one more for each redelivery of its check; what is not stored
    gets none.
   */
  lemma OneBatchPerRow(db: Db, steps: seq<Listening.Step>, out: Listening.State, plans: seq<Plan>, key: Readings.Key)
    requires db.checks == [] && Listening.Runs(Listening.State(db, map[]), steps, out)
    requires Planned(out.db.checks, plans)
    ensures Naming(Events(out.db.checks, plans), key) == Concat(key.0, key.1, RowBatches(out.db.checks, plans, key))
    ensures |RowBatches(out.db.checks, plans, key)| <= 1 + RowRedeliveries(out.db.checks, plans, key)
    ensures key !in out.db.readings ==> RowBatches(out.db.checks, plans, key) == []
  {
    Listening.AccountedRun(Listening.State(db, map[]), steps, out);
    BatchesOfRow(out.db, plans, key);
  }
}
