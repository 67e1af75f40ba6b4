/**
 * What one emission of the replay carries, before it is wrapped for the
 * transport: the identity of the sensor and one value of its series.
 */
module Readings {
  import opened MeasurementStore

  /** A position in the store: a sensor index and an index into that sensor's series. */
  datatype Slot = Slot(sensor: nat, position: nat)

  /** The sensor fields and the value of one emitted record. */
  datatype Reading<V> = Reading(location: string, metric: string, value: V)

  /** The slot names an existing value of the store. */
  predicate ValidSlot<V>(store: seq<Sensor<V>>, s: Slot)
  {
    s.sensor < |store| && s.position < |store[s.sensor].values|
  }

  /** The record a slot produces: the identity of its sensor and the value found there. */
  function ReadingAt<V>(store: seq<Sensor<V>>, s: Slot): (r: Reading<V>)
    requires ValidSlot(store, s)
  {
    var sensor := store[s.sensor];
    Reading(sensor.location, sensor.metric, sensor.values[s.position])
  }
}
