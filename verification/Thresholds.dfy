/**
  Alert thresholds: the per-device configuration row, the effective table it
  stands for, and the comparison of one sample against a table.
 */
module Thresholds {
  import opened Prelude

  datatype Key = TemperatureMax | TemperatureMin | Co2Max | HumidityMin | HumidityMax | PhMin | PhMax

  const KEYS: seq<Key> := [TemperatureMax, TemperatureMin, Co2Max, HumidityMin, HumidityMax, PhMin, PhMax]

  /** The columns of a configuration row that are not NULL. */
  type Columns = map<Key, real>

  type Table = map<Key, real>

  /** No row at all reads as None. */
  type Row = Option<Columns>

  predicate Complete(table: Table) {
    forall key: Key :: key in table
  }

  /** The global default of each key. */
  function Default(key: Key): real {
    match key
    case TemperatureMax => 80.0
    case TemperatureMin => 40.0
    case Co2Max => 5000.0
    case HumidityMin => 40.0
    case HumidityMax => 80.0
    case PhMin => 5.0
    case PhMax => 8.5
  }

  /** What the configuration endpoint reports for one key. */
  function Resolve(row: Row, key: Key): real {
    if row.Some? && key in row.value then row.value[key] else Default(key)
  }

  /** The columns that are set, and the default of every other key. */
  function Effective(row: Row): (table: Table)
    ensures forall key: Key :: key in table && table[key] == Resolve(row, key)
    ensures row.Some? ==> forall key :: key in row.value ==> table[key] == row.value[key]
    ensures forall key: Key :: (row.None? || key !in row.value) ==> table[key] == Default(key)
  {
    KeysCoverAll();
    map key | key in KEYS :: Resolve(row, key)
  }

  /** The global table. */
  function Globals(): (table: Table)
    ensures forall key: Key :: key in table && table[key] == Default(key)
  {
    Effective(None)
  }

  lemma KeysCoverAll()
    ensures forall key: Key :: key in KEYS
  {
    forall key: Key
      ensures key in KEYS
    {
      match key { case TemperatureMax => assert KEYS[0] == key; case TemperatureMin => assert KEYS[1] == key;
                  case Co2Max => assert KEYS[2] == key; case HumidityMin => assert KEYS[3] == key;
                  case HumidityMax => assert KEYS[4] == key; case PhMin => assert KEYS[5] == key;
                  case PhMax => assert KEYS[6] == key; }
    }
  }

  lemma TablesAgree(a: Table, b: Table)
    requires forall key: Key :: key in b && key in a && a[key] == b[key]
    ensures a == b
  {
  }

  /** The worker's override loop over the columns of a row. */
  method Override(row: Columns) returns (thresholds: Table)
    ensures thresholds == Effective(Some(row))
  {
    thresholds := Globals();
    for i := 0 to |KEYS|
      invariant Complete(thresholds)
      invariant forall key: Key :: thresholds[key] == Resolve(if key in KEYS[..i] then Some(row) else None, key)
    {
      var key := KEYS[i];
      if key in row {
        thresholds := thresholds[key := row[key]];
      }
    }
    KeysCoverAll();
    TablesAgree(thresholds, Effective(Some(row)));
  }

  // ---------------------------------------------------------------- evaluation

  datatype Metric = TemperatureC | Co2Ppm | HumidityPct | PhLevel

  datatype Severity = Critical | Warning

  datatype Alert = Alert(metric: Metric, severity: Severity, value: real, threshold: real)

  datatype Sample = Sample(temperature: Option<real>, co2: Option<real>, humidity: Option<real>, ph: Option<real>)

  function ValueOf(sample: Sample, metric: Metric): Option<real> {
    match metric
    case TemperatureC => sample.temperature
    case Co2Ppm => sample.co2
    case HumidityPct => sample.humidity
    case PhLevel => sample.ph
  }

  /**
    The alert strictly breaches the limit it names.  Limits can be configured so that a
    value is on both wrong sides: then temperature reports high, the others low.
   */
  predicate Justified(table: Table, sample: Sample, alert: Alert)
    requires Complete(table)
  {
    var value, limit := alert.value, alert.threshold;
    match alert.metric
    case TemperatureC =>
      && sample.temperature == Some(value)
      && if alert.severity.Critical? then limit == table[TemperatureMax] && value > limit
         else limit == table[TemperatureMin] && value < limit && value <= table[TemperatureMax]
    case Co2Ppm =>
      sample.co2 == Some(value) && alert.severity.Warning? && limit == table[Co2Max] && value > limit
    case HumidityPct =>
      && sample.humidity == Some(value) && alert.severity.Warning?
      && if value < table[HumidityMin] then limit == table[HumidityMin]
         else limit == table[HumidityMax] && value > limit
    case PhLevel =>
      && sample.ph == Some(value) && alert.severity.Warning?
      && if value < table[PhMin] then limit == table[PhMin]
         else limit == table[PhMax] && value > limit
  }

  predicate OutOfLimits(table: Table, sample: Sample, metric: Metric)
    requires Complete(table)
  {
    match metric
    case TemperatureC =>
      sample.temperature.Some? && !(table[TemperatureMin] <= sample.temperature.value <= table[TemperatureMax])
    case Co2Ppm => sample.co2.Some? && !(sample.co2.value <= table[Co2Max])
    case HumidityPct =>
      sample.humidity.Some? && !(table[HumidityMin] <= sample.humidity.value <= table[HumidityMax])
    case PhLevel => sample.ph.Some? && !(table[PhMin] <= sample.ph.value <= table[PhMax])
  }

  /** What one metric adds to the alerts: nothing, or one. */
  function Contribution(table: Table, sample: Sample, metric: Metric): seq<Alert>
    requires Complete(table)
  {
    match metric
    case TemperatureC =>
      if sample.temperature.None? then []
      else if sample.temperature.value > table[TemperatureMax] then
        [Alert(metric, Critical, sample.temperature.value, table[TemperatureMax])]
      else Outside(metric, sample.temperature.value, table[TemperatureMin], table[TemperatureMax])
    case Co2Ppm =>
      if sample.co2.None? || sample.co2.value <= table[Co2Max] then []
      else [Alert(metric, Warning, sample.co2.value, table[Co2Max])]
    case HumidityPct =>
      if sample.humidity.None? then []
      else Outside(metric, sample.humidity.value, table[HumidityMin], table[HumidityMax])
    case PhLevel =>
      if sample.ph.None? then [] else Outside(metric, sample.ph.value, table[PhMin], table[PhMax])
  }

  function Outside(metric: Metric, value: real, low: real, high: real): seq<Alert> {
    if value < low then [Alert(metric, Warning, value, low)]
    else if value > high then [Alert(metric, Warning, value, high)]
    else []
  }

  /** A metric contributes its justified alert when it is out of its limits, and nothing otherwise. */
  lemma ContributionExact(table: Table, sample: Sample, metric: Metric)
    requires Complete(table)
    ensures |Contribution(table, sample, metric)| == if OutOfLimits(table, sample, metric) then 1 else 0
    ensures forall alert :: alert in Contribution(table, sample, metric)
              <==> alert.metric == metric && Justified(table, sample, alert)
  {
    match metric { case TemperatureC => case Co2Ppm => case HumidityPct => case PhLevel => }
  }

  function Evaluation(table: Table, sample: Sample): seq<Alert>
    requires Complete(table)
  {
    Contribution(table, sample, TemperatureC) + Contribution(table, sample, Co2Ppm)
    + Contribution(table, sample, HumidityPct) + Contribution(table, sample, PhLevel)
  }

  method Evaluate(thresholds: Table, sample: Sample) returns (alerts: seq<Alert>)
    requires Complete(thresholds)
    ensures alerts == Evaluation(thresholds, sample)
  {
    alerts := [];
    if sample.temperature.Some? {
      var value := sample.temperature.value;
      if value > thresholds[TemperatureMax] {
        alerts := Add(alerts, TemperatureC, Critical, value, thresholds[TemperatureMax]);
      } else if value < thresholds[TemperatureMin] {
        alerts := Add(alerts, TemperatureC, Warning, value, thresholds[TemperatureMin]);
      }
    }
    assert alerts == Contribution(thresholds, sample, TemperatureC);
    ghost var done := alerts;
    if sample.co2.Some? && sample.co2.value > thresholds[Co2Max] {
      alerts := Add(alerts, Co2Ppm, Warning, sample.co2.value, thresholds[Co2Max]);
    }
    assert alerts == done + Contribution(thresholds, sample, Co2Ppm);
    done := alerts;
    if sample.humidity.Some? {
      var value := sample.humidity.value;
      if value < thresholds[HumidityMin] {
        alerts := Add(alerts, HumidityPct, Warning, value, thresholds[HumidityMin]);
      } else if value > thresholds[HumidityMax] {
        alerts := Add(alerts, HumidityPct, Warning, value, thresholds[HumidityMax]);
      }
    }
    assert alerts == done + Contribution(thresholds, sample, HumidityPct);
    done := alerts;
    if sample.ph.Some? {
      var value := sample.ph.value;
      if value < thresholds[PhMin] {
        alerts := Add(alerts, PhLevel, Warning, value, thresholds[PhMin]);
      } else if value > thresholds[PhMax] {
        alerts := Add(alerts, PhLevel, Warning, value, thresholds[PhMax]);
      }
    }
    assert alerts == done + Contribution(thresholds, sample, PhLevel);
  }

  function Add(alerts: seq<Alert>, metric: Metric, severity: Severity, value: real, threshold: real): seq<Alert> {
    alerts + [Alert(metric, severity, value, threshold)]
  }

  /** The order in which metrics are compared. */
  function Rank(metric: Metric): nat {
    match metric
    case TemperatureC => 0
    case Co2Ppm => 1
    case HumidityPct => 2
    case PhLevel => 3
  }

  /**
    The alerts are exactly the justified ones, in the order of the metrics and one for a
    metric at most; a metric has one if and only if it is out of its limits.
   */
  lemma EvaluationExact(table: Table, sample: Sample)
    requires Complete(table)
    ensures forall alert :: alert in Evaluation(table, sample) <==> Justified(table, sample, alert)
    ensures forall metric: Metric :: OutOfLimits(table, sample, metric)
              <==> exists alert :: alert in Evaluation(table, sample) && alert.metric == metric
    ensures forall i, j :: 0 <= i < j < |Evaluation(table, sample)| ==>
              Rank(Evaluation(table, sample)[i].metric) < Rank(Evaluation(table, sample)[j].metric)
  {
    var all := Evaluation(table, sample);
    forall alert
      ensures alert in all <==> Justified(table, sample, alert)
    {
      ContributionIn(table, sample, alert);
      ContributionExact(table, sample, alert.metric);
    }
    forall metric: Metric
      ensures OutOfLimits(table, sample, metric) <==> exists alert :: alert in all && alert.metric == metric
    {
      OneContribution(table, sample, metric);
    }
    Ordered(table, sample);
  }

  lemma OneContribution(table: Table, sample: Sample, metric: Metric)
    requires Complete(table)
    ensures OutOfLimits(table, sample, metric)
       <==> exists alert :: alert in Evaluation(table, sample) && alert.metric == metric
  {
    ContributionExact(table, sample, metric);
    if OutOfLimits(table, sample, metric) {
      var alert := Contribution(table, sample, metric)[0];
      assert alert in Contribution(table, sample, metric);
      ContributionIn(table, sample, alert);
    }
    if alert :| alert in Evaluation(table, sample) && alert.metric == metric {
      ContributionIn(table, sample, alert);
    }
  }

  lemma ContributionIn(table: Table, sample: Sample, alert: Alert)
    requires Complete(table)
    ensures alert in Evaluation(table, sample) <==> alert in Contribution(table, sample, alert.metric)
  {
    ContributionExact(table, sample, TemperatureC);
    ContributionExact(table, sample, Co2Ppm);
    ContributionExact(table, sample, HumidityPct);
    ContributionExact(table, sample, PhLevel);
  }

  lemma Ordered(table: Table, sample: Sample)
    requires Complete(table)
    ensures forall i, j :: 0 <= i < j < |Evaluation(table, sample)| ==>
              Rank(Evaluation(table, sample)[i].metric) < Rank(Evaluation(table, sample)[j].metric)
  {
    var t, c := Contribution(table, sample, TemperatureC), Contribution(table, sample, Co2Ppm);
    var h, p := Contribution(table, sample, HumidityPct), Contribution(table, sample, PhLevel);
    ContributionExact(table, sample, TemperatureC);
    ContributionExact(table, sample, Co2Ppm);
    ContributionExact(table, sample, HumidityPct);
    ContributionExact(table, sample, PhLevel);
    RankedConcat(t, c, 0, 1);
    RankedConcat(t + c, h, 1, 2);
    RankedConcat(t + c + h, p, 2, 3);
  }

  lemma RankedConcat(front: seq<Alert>, last: seq<Alert>, most: nat, next: nat)
    requires most < next && |last| <= 1 && forall alert :: alert in last ==> Rank(alert.metric) == next
    requires forall alert :: alert in front ==> Rank(alert.metric) <= most
    requires forall i, j :: 0 <= i < j < |front| ==> Rank(front[i].metric) < Rank(front[j].metric)
    ensures forall alert :: alert in front + last ==> Rank(alert.metric) <= next
    ensures forall i, j :: 0 <= i < j < |front + last| ==>
              Rank((front + last)[i].metric) < Rank((front + last)[j].metric)
  {
    assert forall i :: 0 <= i < |front| ==> front[i] in front;
    assert forall i :: 0 <= i < |last| ==> last[i] in last;
  }

  /** When nothing is configured the fault lies outside these limits. */
  lemma DefaultFaults(sample: Sample)
    ensures Evaluation(Globals(), sample) != []
       <==> || (sample.temperature.Some? && (sample.temperature.value > 80.0 || sample.temperature.value < 40.0))
            || (sample.co2.Some? && sample.co2.value > 5000.0)
            || (sample.humidity.Some? && (sample.humidity.value < 40.0 || sample.humidity.value > 80.0))
            || (sample.ph.Some? && (sample.ph.value < 5.0 || sample.ph.value > 8.5))
  {
    EvaluationExact(Globals(), sample);
    assert Evaluation(Globals(), sample) != [] <==>
             || OutOfLimits(Globals(), sample, TemperatureC) || OutOfLimits(Globals(), sample, Co2Ppm)
             || OutOfLimits(Globals(), sample, HumidityPct) || OutOfLimits(Globals(), sample, PhLevel);
  }

  // ---------------------------------------------------------------- configurable limits

  /** The limits a configuration request may set. */
  predicate InRange(key: Key, limit: real) {
    match key
    case TemperatureMax => 0.0 < limit <= 120.0
    case TemperatureMin => 0.0 <= limit < 120.0
    case Co2Max => 0.0 < limit <= 50000.0
    case HumidityMin => 0.0 <= limit <= 100.0
    case HumidityMax => 0.0 <= limit <= 100.0
    case PhMin => 0.0 <= limit <= 14.0
    case PhMax => 0.0 <= limit <= 14.0
  }

  predicate Admissible(row: Row) {
    row.Some? ==> forall key: Key :: key in row.value ==> InRange(key, row.value[key])
  }

  predicate Possible(table: Table) {
    Complete(table) && forall key: Key :: InRange(key, table[key])
  }

  /** The tables a load can serve are the effective tables of rows that requests can set. */
  lemma PossibleIffEffective(table: Table)
    ensures Possible(table) <==> exists row: Row :: Admissible(row) && table == Effective(row)
  {
    if Possible(table) {
      TablesAgree(table, Effective(Some(table)));
      assert Admissible(Some(table));
    }
  }

  /** Some limits can find the sample at fault: anything measured but a zero of carbon dioxide. */
  predicate CanBreach(sample: Sample) {
    || sample.temperature.Some? || sample.humidity.Some? || sample.ph.Some?
    || (sample.co2.Some? && sample.co2.value > 0.0)
  }

  /** A configuration that finds fault with the value, whatever it measures. */
  function Strict(value: real): Columns {
    if value > 0.0 then
      var limit := if value <= 200.0 then value / 2.0 else 100.0;
      map[TemperatureMax := limit, Co2Max := limit, HumidityMax := 0.0, PhMax := 0.0]
    else
      map[TemperatureMin := 1.0, HumidityMin := 1.0, PhMin := 1.0]
  }

  lemma StrictFindsFault(sample: Sample, metric: Metric)
    requires ValueOf(sample, metric).Some?
    requires metric.Co2Ppm? ==> ValueOf(sample, metric).value > 0.0
    ensures Admissible(Some(Strict(ValueOf(sample, metric).value)))
    ensures OutOfLimits(Effective(Some(Strict(ValueOf(sample, metric).value))), sample, metric)
  {
    var value := ValueOf(sample, metric).value;
    var table := Effective(Some(Strict(value)));
    match metric { case TemperatureC => case Co2Ppm => case HumidityPct => case PhLevel => }
  }

  lemma CanBreachIff(sample: Sample)
    ensures CanBreach(sample)
       <==> exists row: Row, metric :: Admissible(row) && OutOfLimits(Effective(row), sample, metric)
  {
    if CanBreach(sample) {
      var metric := if sample.temperature.Some? then TemperatureC
                    else if sample.humidity.Some? then HumidityPct
                    else if sample.ph.Some? then PhLevel else Co2Ppm;
      StrictFindsFault(sample, metric);
    }
    if row: Row, metric :| Admissible(row) && OutOfLimits(Effective(row), sample, metric) {
      PossibleIffEffective(Effective(row));
      assert InRange(Co2Max, Effective(row)[Co2Max]);
    }
  }
}
