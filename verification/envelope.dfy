/**
 * The messages handed to the transport.
 *
 * In round-robin mode each record becomes a payload with the keys "time",
 * "location", "metric" and "value", wrapped together with a fixed schema
 * descriptor (a struct called "smart_home_measurement" whose four fields are
 * typed string, string, string and double, none of them optional). In
 * sequential mode the record is sent bare, with its time under the key
 * "timestamp". Timestamps come from the wall clock and are parameters here.
 */
module Envelope {
  import opened Wrappers
  import opened MeasurementStore
  import opened Readings
  import RoundRobin
  import Sequential

  /** The types a schema field can declare. */
  datatype FieldType = StringType | DoubleType

  /** One field of a schema: its type, whether it may be missing, and its key. */
  datatype Field = Field(kind: FieldType, optional: bool, field: string)

  /** A struct schema: its fields in order, whether it may be missing, and its name. */
  datatype Schema = Struct(fields: seq<Field>, optional: bool, name: string)

  /** The schema every round-robin message carries. */
  const MeasurementSchema: Schema :=
    Struct(
      [ Field(StringType, false, "time"),
        Field(StringType, false, "location"),
        Field(StringType, false, "metric"),
        Field(DoubleType, false, "value") ],
      false,
      "smart_home_measurement")

  /** A payload value as the JSON encoder sees it: text, or a measured number. */
  datatype Value<V> = Text(text: string) | Number(number: V)

  /** A payload: its keys and values in insertion order, as the encoder writes them. */
  type Payload<V> = seq<(string, Value<V>)>

  /** The round-robin message: the fixed schema alongside the payload. */
  datatype Message<V> = Message(schema: Schema, payload: Payload<V>)

  /** The type a schema would declare for a value. */
  function TypeOf<V>(v: Value<V>): FieldType
  {
    match v
    case Text(_) => StringType
    case Number(_) => DoubleType
  }

  /** The payload lists exactly the schema's fields, in its order, each with its declared type. */
  predicate Conforms<V>(schema: Schema, p: Payload<V>)
  {
    && |p| == |schema.fields|
    && forall m :: 0 <= m < |p| ==>
         p[m].0 == schema.fields[m].field && TypeOf(p[m].1) == schema.fields[m].kind
  }

  /** The record with its time under `timeKey`, then location, metric and value. */
  function Encode<V>(timeKey: string, time: string, r: Reading<V>): (p: Payload<V>)
    ensures |p| == 4
    ensures Lookup(p, timeKey) == Some(Text(time))
    ensures Conforms(MeasurementSchema, p) <==> timeKey == "time"
  {
    [ (timeKey, Text(time)),
      ("location", Text(r.location)),
      ("metric", Text(r.metric)),
      ("value", Number(r.value)) ]
  }

  /** The value of the first entry with the given key, if there is one. */
  function Lookup<V>(p: Payload<V>, key: string): (v: Option<Value<V>>)
    ensures v.None? <==> forall m :: 0 <= m < |p| ==> p[m].0 != key
    ensures v.Some? ==>
              exists m :: 0 <= m < |p| && p[m] == (key, v.value) && forall m' :: 0 <= m' < m ==> p[m'].0 != key
  {
    if |p| == 0 then None
    else if p[0].0 == key then Some(p[0].1)
    else
      var rest := Lookup(p[1..], key);
      assert forall m :: 1 <= m < |p| ==> p[m] == p[1..][m - 1];
      rest
  }

  /** Reads a time and a record back out of a payload; `None` when a key is missing or mistyped. */
  function Decode<V>(timeKey: string, p: Payload<V>): (d: Option<(string, Reading<V>)>)
  {
    match (Lookup(p, timeKey), Lookup(p, "location"), Lookup(p, "metric"), Lookup(p, "value"))
    case (Some(Text(t)), Some(Text(l)), Some(Text(m)), Some(Number(v))) => Some((t, Reading(l, m, v)))
    case _ => None
  }

  /** Decoding an encoded record gives back its time and the record itself. */
  lemma DecodeEncode<V>(timeKey: string, time: string, r: Reading<V>)
    requires timeKey !in ["location", "metric", "value"]
    ensures Decode(timeKey, Encode(timeKey, time, r)) == Some((time, r))
  {
    var p := Encode(timeKey, time, r);
    assert timeKey != "location" && timeKey != "metric" && timeKey != "value";
    assert "location" != "metric" && "location" != "value" && "metric" != "value";
    assert Lookup(p, timeKey) == Some(Text(time));
    assert Lookup(p[1..], "location") == Some(Text(r.location));
    assert Lookup(p[1..][1..], "metric") == Some(Text(r.metric));
    assert Lookup(p[1..][1..][1..], "value") == Some(Number(r.value));
  }

  /** The round-robin message for one record: the fixed schema and the payload keyed by "time". */
  function Wrap<V>(time: string, r: Reading<V>): (msg: Message<V>)
    ensures Conforms(msg.schema, msg.payload)
    ensures Lookup(msg.payload, "time") == Some(Text(time))
  {
    Message(MeasurementSchema, Encode("time", time, r))
  }

  /** Every wrapped payload matches the schema it travels with, and carries its record. */
  lemma WrapConforms<V>(time: string, r: Reading<V>)
    ensures Conforms(Wrap(time, r).schema, Wrap(time, r).payload)
    ensures Decode("time", Wrap(time, r).payload) == Some((time, r))
  {
    DecodeEncode("time", time, r);
  }

  /** The schema is a non-optional struct named "smart_home_measurement" with these four fields. */
  lemma SchemaShape()
    ensures MeasurementSchema.name == "smart_home_measurement" && !MeasurementSchema.optional
    ensures |MeasurementSchema.fields| == 4
    ensures forall m :: 0 <= m < 4 ==> !MeasurementSchema.fields[m].optional
    ensures MeasurementSchema.fields[0] == Field(StringType, false, "time")
    ensures MeasurementSchema.fields[3] == Field(DoubleType, false, "value")
  {
  }

  // ---------------------------------------------------------------------------
  // Message streams
  // ---------------------------------------------------------------------------

  /**
   * The messages of the first `rounds` rounds, the `k`-th stamped with
   * `stamps[k]`: each carries the fixed schema and the `k`-th scheduled record.
   */
  function RoundRobinMessages<V>(store: seq<Sensor<V>>, rounds: nat, stamps: seq<string>): (msgs: seq<Message<V>>)
    requires WellFormed(store)
    requires |stamps| == rounds * |store|
    ensures |msgs| == |stamps|
    ensures forall k :: 0 <= k < |msgs| ==>
              msgs[k].schema == MeasurementSchema &&
              Decode("time", msgs[k].payload) == Some((stamps[k], ReadingAt(store, RoundRobin.TickSlot(store, k))))
    ensures forall k :: 0 <= k < |msgs| ==>
              Conforms(msgs[k].schema, msgs[k].payload) &&
              msgs[k] == Wrap(stamps[k], ReadingAt(store, RoundRobin.TickSlot(store, k)))
  {
    var rs := RoundRobin.Rounds(store, rounds);
    var msgs := seq(|stamps|, k requires 0 <= k < |stamps| => Wrap(stamps[k], rs[k]));
    forall k | 0 <= k < |msgs|
      ensures Decode("time", msgs[k].payload) == Some((stamps[k], ReadingAt(store, RoundRobin.TickSlot(store, k))))
      ensures msgs[k] == Wrap(stamps[k], ReadingAt(store, RoundRobin.TickSlot(store, k)))
    {
      RoundRobin.RoundsMatchTicks(store, rounds, k);
      WrapConforms(stamps[k], rs[k]);
    }
    msgs
  }

  /**
   * The bare messages of the first `cycles` sequential cycles, the `k`-th
   * stamped with `stamps[k]` under "timestamp" and carrying the `k`-th
   * scheduled record.
   */
  function SequentialMessages<V>(store: seq<Sensor<V>>, cycles: nat, stamps: seq<string>): (msgs: seq<Payload<V>>)
    requires |stamps| == cycles * Sequential.CycleLength(store)
    ensures |msgs| == |stamps|
    ensures forall k :: 0 <= k < |msgs| ==>
              Sequential.CycleLength(store) > 0 &&
              Decode("timestamp", msgs[k]) == Some((stamps[k], Sequential.TickEmission(store, k).reading))
    ensures forall k :: 0 <= k < |msgs| ==>
              Sequential.CycleLength(store) > 0 &&
              msgs[k] == Encode("timestamp", stamps[k], Sequential.TickEmission(store, k).reading)
  {
    var es := Sequential.Cycles(store, cycles);
    Sequential.CyclesSize(store, cycles);
    var msgs := seq(|stamps|, k requires 0 <= k < |stamps| => Encode("timestamp", stamps[k], es[k].reading));
    forall k | 0 <= k < |msgs|
      ensures Sequential.CycleLength(store) > 0
      ensures Decode("timestamp", msgs[k]) == Some((stamps[k], Sequential.TickEmission(store, k).reading))
      ensures msgs[k] == Encode("timestamp", stamps[k], Sequential.TickEmission(store, k).reading)
    {
      Sequential.CyclesMatchTicks(store, cycles, k);
      DecodeEncode("timestamp", stamps[k], es[k].reading);
    }
    msgs
  }
}
