/** The sensor reading row, shared by ingestion and the history endpoint. */
module Readings {
  import opened Prelude

  /** One snapshot of one device; its primary key is (device, time). */
  datatype Reading = Reading(
    device: nat,
    time: int,
    temperature: Option<real>,
    humidity: Option<real>,
    co2: Option<real>,
    ph: Option<real>,
    fan: Option<real>,
    firmware: Option<string>)

  type Key = (nat, int)

  function KeyOf(reading: Reading): Key {
    (reading.device, reading.time)
  }
}
