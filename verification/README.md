# Smart-home measurement replay, modelled in Dafny

The producer of the smart-home streaming pipeline loads one measurement series
per CSV file at start-up and then replays the series into a Kafka topic forever,
pretending to be a live fleet of sensors. This project models the deterministic
part of that script (`kafka/producer.py`):

- **Sensor identity** (`identity.dfy`, module `SensorIdentity`): a file's stem,
  taken by the rule of Python's `pathlib`, is split once on the first `_`. The
  location is the text before it. The metric is the text after it, later
  underscores included. A stem with no `_` is both location and metric.
- **Measurement store** (`store.dfy`, module `MeasurementStore`): the directory
  listing is sorted by file name, code point by code point. Every file that
  was read and gave at least one value becomes a sensor, in that order. A file
  whose reading raised, or that gave no values, is skipped. The store is an
  immutable value, so neither replay mode can change it.
- **Records** (`readings.dfy`, module `Readings`): a slot (sensor index, value
  index) of the store and the record it produces.
- **Round-robin replay** (`round_robin.dfy`, module `RoundRobin`): one cursor
  per sensor cycles through its series. Each round visits every sensor once, in
  store order. The stream is given three ways, and they are proved to agree:
  - the closed form of tick `k`: sensor `k mod N`, value `(k div N) mod len(values)`;
  - its whole-round prefixes;
  - a method that runs the cursor loop.
- **Sequential replay** (`sequential.dfy`, module `Sequential`): each cycle
  emits every series whole, in store order. The cycle number starts at 1 and
  goes up by one after each pass. It too is given as a closed form per tick, as
  whole-cycle prefixes, and as a method running the nested loops.
- **Messages** (`envelope.dfy`, module `Envelope`): a round-robin payload has
  the keys `time`, `location`, `metric` and `value`. It travels with a fixed
  schema descriptor, a non-optional struct called `smart_home_measurement`. A
  sequential message is the bare payload with its time under `timestamp`.
- `wrappers.dfy` (an `Option` type) and `arith.dfy` (Euclidean division facts)
  are helpers.

The two replay loops never end. They are described by a total function from
tick index to emission, and by finite prefixes of whole rounds or cycles.
Series values have an opaque type parameter `V`, so no floating point is
involved. Timestamps are parameters.

Three details of the code:

- The sequential loop sleeps a hard-coded 0.15 s per record. The configured
  `REPLAY_INTERVAL_SECONDS` (0.4) is never read.
- Round-robin mode always prints a trace line. Sequential mode prints only when
  Kafka is switched off.
- The store is ordered by file name (`a-b.csv` before `a.csv`), not by stem.

## Model

| member | source | states |
|---|---|---|
| SensorIdentity.SplitStem | kafka/producer.py:35-36 | without `_` location and metric are the whole stem; otherwise stem = location + `_` + metric with no `_` in the location |
| SensorIdentity.SplitStemUnique | kafka/producer.py:35-36 | any way of writing the stem as an underscore-free location, `_`, and a metric (later `_` kept) is the split the loader makes |
| SensorIdentity.Stem | kafka/producer.py:35 | the stem is a prefix of the name, either the name itself or the name cut at its last dot, which is neither first nor last; it is the whole name exactly when the name has no such dot |
| SensorIdentity.CsvStem | kafka/producer.py:34-35 | a file `base.csv` with non-empty `base` has stem `base` |
| SensorIdentity.HiddenCsvStem | kafka/producer.py:35 | a file called exactly `.csv` has no suffix and is its own stem |
| SensorIdentity.ExampleIdentity | kafka/producer.py:35-36 | `living_room_temperature.csv` is location `living`, metric `room_temperature` |
| SensorIdentity.IdentityNotInjective | kafka/producer.py:35-36 | `x.csv` and `x_x.csv` both become location `x`, metric `x`: the identity does not determine the file |
| SensorIdentity.IdentityOf | kafka/producer.py:35-36 | a file's identity splits its stem: without `_` location and metric are the whole stem; otherwise stem = location + `_` + metric with no `_` in the location |
| SensorIdentity.FirstIndex | kafka/producer.py:36 | finds the first `_` exactly when the stem contains one, with none before it |
| MeasurementStore.SortByName | kafka/producer.py:34 | the listing is rearranged, same files, into name order |
| MeasurementStore.SortedArrangementUnique | kafka/producer.py:34 | a listing with unique names has exactly one sorted arrangement, so the visiting order is fixed |
| MeasurementStore.Keep | kafka/producer.py:40-41 | the filter keeps no more files than the listing has, and every file it keeps was read and gave at least one value |
| MeasurementStore.KeepMembers | kafka/producer.py:40-41 | a file survives the filter exactly when it is in the listing and was read with at least one value |
| MeasurementStore.ToSensors | kafka/producer.py:35-41 | one sensor per kept file, in the same order: sensor i is the identity and series of kept file i, and every series is non-empty |
| MeasurementStore.LoadSound | kafka/producer.py:32-45 | every sensor of the store is the identity and series of a file of the listing that was read and gave values |
| MeasurementStore.LoadComplete | kafka/producer.py:32-45 | every file of the listing that was read and gave values yields a sensor of the store |
| MeasurementStore.LoadAllSensors | kafka/producer.py:32-45 | every sensor of the store has a non-empty series |
| MeasurementStore.KeepAppend | kafka/producer.py:34-41 | the filter keeps relative order: filtering a concatenation concatenates the filtered parts |
| MeasurementStore.KeepSize | kafka/producer.py:40-41 | the store has one sensor per loadable file, no more, no fewer |
| MeasurementStore.UnloadableSkipped | kafka/producer.py:37-44 | an unreadable or empty file contributes nothing; the files around it load as if it were absent |
| MeasurementStore.LoadIsSortedFilter | kafka/producer.py:34-41 | the store is the sorted listing restricted to its loadable files |
| MeasurementStore.LoadIgnoresListingOrder | kafka/producer.py:34 | two listings of the same files give the same store |
| RoundRobin.TickSlot | kafka/producer.py:54-57 | tick k is a valid slot of the store: sensor `k mod N`, value `(k div N) mod len(values)` of that sensor |
| RoundRobin.Rounds | kafka/producer.py:54-57 | n rounds emit n times as many records as there are sensors |
| RoundRobin.TickOfRound | kafka/producer.py:55-57 | tick `r*N + i` is sensor `i` at value `r mod len(values_i)` |
| RoundRobin.RoundsMatchTicks | kafka/producer.py:54-57 | the k-th record of the first n rounds is the record of the closed form at tick k |
| RoundRobin.RoundVisitsStoreInOrder | kafka/producer.py:55-57 | position i of round r carries sensor i's location and metric and value `r mod len(values_i)` |
| RoundRobin.Wraparound | kafka/producer.py:54-57 | a sensor's cursor repeats after as many rounds as its series is long |
| RoundRobin.ThreeValueCycle | kafka/producer.py:54-57 | a three-value series a, b, c reads a, b, c, a, b, c, ... |
| RoundRobin.TurnsClosedForm | kafka/producer.py:54-57 | after n ticks sensor i has had `n div N` turns, plus one if the unfinished round has reached it |
| RoundRobin.Fairness | kafka/producer.py:54-57 | after K whole rounds every sensor has emitted exactly K records, whatever its series length |
| RoundRobin.NoStarvation | kafka/producer.py:54-57 | at any tick no sensor is more than one record ahead of another |
| RoundRobin.ReplayRoundRobin | kafka/producer.py:54-57 | running the cursor loop for r rounds emits exactly the first r rounds and leaves each cursor at `r mod len(values)` |
| Sequential.CyclePrefixLayout | kafka/producer.py:91-92 | in a cycle sensor i's value j sits at position Offset(i) + j: store order first, series order within |
| Sequential.CycleSize | kafka/producer.py:91-92 | one cycle emits exactly the sum of all series lengths |
| Sequential.Locate | kafka/producer.py:91-92 | every position of a cycle is some valid slot at offset plus position |
| Sequential.LocateUnique | kafka/producer.py:91-92 | no two slots share a position in a cycle |
| Sequential.CycleAt | kafka/producer.py:91-92 | position p of a cycle holds the record of the slot at p |
| Sequential.CycleComplete | kafka/producer.py:91-92 | every value of the store is emitted at exactly one position of each cycle |
| Sequential.TickEmission | kafka/producer.py:88-104 | tick k is numbered at least 1 and carries the record at position `k mod T` of a cycle |
| Sequential.Cycles | kafka/producer.py:88-104 | every emission of the first n cycles is numbered between 1 and n |
| Sequential.CyclesSize | kafka/producer.py:88-104 | n cycles emit n times the cycle length |
| Sequential.CyclesMatchTicks | kafka/producer.py:88-104 | the k-th emission of the first n cycles is the closed form at tick k: cycle `k div T + 1`, position `k mod T` |
| Sequential.FirstCycleIsOne | kafka/producer.py:88 | the first cycle is numbered 1 |
| Sequential.CycleNumberStep | kafka/producer.py:89-104 | the cycle number stays put within a cycle and goes up by exactly 1 when one completes |
| Sequential.CycleRepeats | kafka/producer.py:89-104 | one cycle length later the same record comes again, under the next cycle number |
| Sequential.ReplaySequential | kafka/producer.py:88-104 | running the nested loops for c cycles emits exactly the first c cycles, tagged 1..c, and leaves the counter at c + 1 |
| Envelope.Encode | kafka/producer.py:93-98 | a payload has four entries, its time under the time key; it matches the round-robin schema exactly when the time key is `time` |
| Envelope.Wrap | kafka/producer.py:58-78 | a round-robin message's payload matches the schema it travels with and has its time under `time` |
| Envelope.DecodeEncode | kafka/producer.py:93-98 | reading a payload back gives its time and the record it was built from |
| Envelope.WrapConforms | kafka/producer.py:58-78 | a round-robin payload lists exactly the schema's fields, in order, with the declared types, and carries its record |
| Envelope.SchemaShape | kafka/producer.py:66-76 | the schema is a non-optional struct `smart_home_measurement` with four non-optional fields, time a string first and value a double last |
| Envelope.RoundRobinMessages | kafka/producer.py:54-83 | the k-th round-robin message is the k-th scheduled record wrapped with the k-th timestamp: it carries the fixed schema, matches it, and reads back as that record and time |
| Envelope.SequentialMessages | kafka/producer.py:88-100 | the k-th sequential message is the k-th scheduled record encoded with the k-th timestamp under `timestamp`, and reads back as that record and time |

## Left out

- The Kafka producer, `send`, `flush(10)` and `close` are left out: a network client with its own buffering and retries. A message's publication is its appearance in the model's output sequence.
- The configuration constants and the JSON `value_serializer` are left out: the serializer is a thin wrapper over `json.dumps`. A payload is modelled as its key and value list in insertion order.
- Reading a CSV with pandas and converting values to floats are left out. Their result for a file is an abstract `Option<seq<V>>`, where `None` stands for "reading raised, logged and skipped".
- The directory glob is left out: its result is the listing given to `LoadAllSensors`, in any order.
- `round(value, 4)` is left out: values are opaque, so a record carries the series element itself.
- Wall-clock timestamps from `datetime.now` are left out: they are a parameter, one string per emitted message.
- `time.sleep(0.15)`, `print` and `logging` are left out. So are the cycle announcement log line (its number is the cycle tag of each emission) and the `KeyboardInterrupt` shutdown path. These are timing, output and signal handling.
- Both replay loops are infinite. They are modelled by the emission at every tick and by prefixes of whole rounds or cycles. With an empty store, both loops spin and emit nothing, and the model emits nothing for any number of rounds or cycles.
- Envelope.RoundRobinMessages: the payload value is the series element itself, not `round(value, 4)` of it, because values are opaque here.
- Envelope.SequentialMessages: the payload value is the series element itself, not `round(value, 4)` of it, for the same reason.
