/**
  MQTT ingestion: each delivery is one transaction that stores the row and the firmware
  version together or rolls both back, and then asks for one alert check.
 */
module Ingestion {
  import opened Prelude
  import opened Readings

  datatype Db = Db(
    firmware: map<nat, Option<string>>,
    readings: map<Key, Reading>,
    checks: seq<Reading>)

  /** A message as it reaches the listener, with the fate of its commit and of its enqueue. */
  datatype Delivery = Delivery(reading: Reading, commitRaises: bool, enqueueRaises: bool)

  predicate Stored(db: Db, delivery: Delivery) {
    && delivery.reading.device in db.firmware
    && KeyOf(delivery.reading) !in db.readings
    && !delivery.commitRaises
  }

  predicate Reports(reading: Reading) {
    reading.firmware.Some? && reading.firmware.value != ""
  }

  function Process(db: Db, delivery: Delivery): Db {
    var reading := delivery.reading;
    if !Stored(db, delivery) then db else
      Db(if Reports(reading) then db.firmware[reading.device := reading.firmware] else db.firmware,
         db.readings[KeyOf(reading) := reading],
         db.checks + if delivery.enqueueRaises then [] else [reading])
  }

  function ProcessAll(db: Db, deliveries: seq<Delivery>): Db
    decreases |deliveries|
  {
    if deliveries == [] then db else ProcessAll(Process(db, deliveries[0]), deliveries[1..])
  }

  class Listener {
    var firmware: map<nat, Option<string>>
    var readings: map<Key, Reading>
    var checks: seq<Reading>

    function Contents(): Db
      reads this
    {
      Db(firmware, readings, checks)
    }

    constructor (devices: map<nat, Option<string>>)
      ensures Contents() == Db(devices, map[], [])
    {
      firmware, readings, checks := devices, map[], [];
    }

    method ProcessTelemetry(delivery: Delivery)
      modifies this
      ensures Contents() == Process(old(Contents()), delivery)
      ensures var row, key := delivery.reading, (delivery.reading.device, delivery.reading.time);
              var stored := row.device in old(firmware) && key !in old(readings) && !delivery.commitRaises;
              && readings == (if stored then old(readings)[key := row] else old(readings))
              && checks == (if stored && !delivery.enqueueRaises then old(checks) + [row] else old(checks))
              && firmware == (if stored && row.firmware.Some? && row.firmware.value != ""
                              then old(firmware)[row.device := row.firmware] else old(firmware))
    {
      var reading := delivery.reading;
      if reading.device !in firmware {
        return;
      }
      var committed := firmware;
      if reading.firmware.Some? && |reading.firmware.value| > 0 {
        firmware := firmware[reading.device := reading.firmware];
      }
      // The commit flushes the row; the primary key rejects a second one.
      if KeyOf(reading) in readings || delivery.commitRaises {
        firmware := committed;
        return;
      }
      readings := readings[KeyOf(reading) := reading];
      if !delivery.enqueueRaises {
        checks := checks + [reading];
      }
    }
  }

  // ---------------------------------------------------------------- idempotence

  /** The first delivery of each key whose commit does not fail, leaving out the keys in `seen`. */
  function Firsts(deliveries: seq<Delivery>, seen: set<Key>): seq<Delivery> {
    if deliveries == [] then [] else
      var first, rest := deliveries[0], deliveries[1..];
      if first.commitRaises || KeyOf(first.reading) in seen then Firsts(rest, seen)
      else [first] + Firsts(rest, seen + {KeyOf(first.reading)})
  }

  /** Seen keys are those stored already, or of devices that do not exist. */
  ghost predicate Covers(db: Db, seen: set<Key>) {
    && (forall key :: key in db.readings ==> key in seen)
    && (forall key :: key in seen ==> key in db.readings || key.0 !in db.firmware)
  }

  /** Processing every delivery leaves what processing only the first of each key leaves. */
  lemma {:induction false} DuplicatesChangeNothing(db: Db, deliveries: seq<Delivery>, seen: set<Key>)
    requires Covers(db, seen)
    ensures ProcessAll(db, deliveries) == ProcessAll(db, Firsts(deliveries, seen))
    decreases |deliveries|
  {
    if deliveries != [] {
      var first, rest := deliveries[0], deliveries[1..];
      var key := KeyOf(first.reading);
      if first.commitRaises || key in seen {
        assert Process(db, first) == db;
        DuplicatesChangeNothing(db, rest, seen);
      } else {
        var kept := Firsts(rest, seen + {key});
        assert ([first] + kept)[1..] == kept;
        DuplicatesChangeNothing(Process(db, first), rest, seen + {key});
      }
    }
  }

  /** From any tables: stored keys are seen from the start, so redeliveries of them are dropped too. */
  lemma IngestionIsIdempotent(db: Db, deliveries: seq<Delivery>)
    ensures ProcessAll(db, deliveries) == ProcessAll(db, Firsts(deliveries, db.readings.Keys))
  {
    DuplicatesChangeNothing(db, deliveries, db.readings.Keys);
  }

  /** Firsts keeps one delivery of a key at most, so it is the at-most-once view of the run. */
  lemma {:induction false} FirstsAreDistinct(deliveries: seq<Delivery>, seen: set<Key>)
    ensures forall i :: 0 <= i < |Firsts(deliveries, seen)| ==> KeyOf(Firsts(deliveries, seen)[i].reading) !in seen
    ensures forall i, j :: 0 <= i < j < |Firsts(deliveries, seen)| ==>
              KeyOf(Firsts(deliveries, seen)[i].reading) != KeyOf(Firsts(deliveries, seen)[j].reading)
  {
    if deliveries != [] {
      var first, rest := deliveries[0], deliveries[1..];
      if first.commitRaises || KeyOf(first.reading) in seen {
        FirstsAreDistinct(rest, seen);
      } else {
        FirstsAreDistinct(rest, seen + {KeyOf(first.reading)});
      }
    }
  }

  // ---------------------------------------------------------------- what is stored and checked

  /** The rows a run stores, in order. */
  function Accepted(db: Db, deliveries: seq<Delivery>): seq<Reading>
    decreases |deliveries|
  {
    if deliveries == [] then [] else
      (if Stored(db, deliveries[0]) then [deliveries[0].reading] else [])
      + Accepted(Process(db, deliveries[0]), deliveries[1..])
  }

  /** The last version that `rows` report for the device, else what was there before. */
  function LastReported(rows: seq<Reading>, device: nat, before: Option<string>): Option<string> {
    if rows == [] then before else
      var last := rows[|rows| - 1];
      if last.device == device && Reports(last) then last.firmware
      else LastReported(rows[..|rows| - 1], device, before)
  }

  lemma {:induction false} LastReportedFront(rows: seq<Reading>, row: Reading, device: nat, before: Option<string>)
    ensures LastReported([row] + rows, device, before)
         == LastReported(rows, device, LastReported([row], device, before))
  {
    var all := [row] + rows;
    if rows == [] {
      assert all == [row];
    } else {
      assert all[..|all| - 1] == [row] + rows[..|rows| - 1];
      LastReportedFront(rows[..|rows| - 1], row, device, before);
    }
  }

  /** A device shows the version of its last stored row that has one; rolled-back rows leave no trace. */
  lemma {:induction false} FirmwareIsLastStored(db: Db, deliveries: seq<Delivery>, device: nat)
    requires device in db.firmware
    ensures device in ProcessAll(db, deliveries).firmware
    ensures ProcessAll(db, deliveries).firmware[device]
         == LastReported(Accepted(db, deliveries), device, db.firmware[device])
    decreases |deliveries|
  {
    if deliveries != [] {
      var after := Process(db, deliveries[0]);
      var rest := Accepted(after, deliveries[1..]);
      FirmwareIsLastStored(after, deliveries[1..], device);
      if Stored(db, deliveries[0]) {
        LastReportedFront(rest, deliveries[0].reading, device, db.firmware[device]);
        assert [deliveries[0].reading][..0] == [];
      } else {
        assert [] + rest == rest;
      }
    }
  }

  /** Every requested check is for a stored row, and no row is checked twice. */
  ghost predicate ChecksFollowRows(db: Db) {
    && (forall i :: 0 <= i < |db.checks| ==>
          KeyOf(db.checks[i]) in db.readings && db.readings[KeyOf(db.checks[i])] == db.checks[i])
    && (forall i, j :: 0 <= i < j < |db.checks| ==> KeyOf(db.checks[i]) != KeyOf(db.checks[j]))
  }

  lemma {:induction false} OneCheckPerStoredRow(db: Db, deliveries: seq<Delivery>)
    requires ChecksFollowRows(db)
    ensures ChecksFollowRows(ProcessAll(db, deliveries))
    ensures |ProcessAll(db, deliveries).readings| == |db.readings| + |Accepted(db, deliveries)|
    ensures |ProcessAll(db, deliveries).checks| <= |db.checks| + |Accepted(db, deliveries)|
    ensures (forall i :: 0 <= i < |deliveries| ==> !deliveries[i].enqueueRaises)
        ==> ProcessAll(db, deliveries).checks == db.checks + Accepted(db, deliveries)
    decreases |deliveries|
  {
    if deliveries != [] {
      var after := Process(db, deliveries[0]);
      assert ChecksFollowRows(after);
      OneCheckPerStoredRow(after, deliveries[1..]);
    }
  }
}
