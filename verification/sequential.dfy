/**
 * Sequential replay (the full historical replay of `stream_forever`).
 *
 * Each cycle walks the store in order and, for each sensor, emits every value
 * of its series in order; then the cycle number, which starts at 1, goes up by
 * one and the next cycle begins. The infinite stream is described by its value
 * at each tick (`TickEmission`) and by its prefixes of whole cycles (`Cycles`);
 * the method `ReplaySequential` runs the nested loops themselves.
 */
module Sequential {
  import opened MeasurementStore
  import opened Readings
  import opened Arithmetic

  /** A record together with the number of the cycle that emitted it. */
  datatype Emission<V> = Emission(cycle: nat, reading: Reading<V>)

  /** The number of values held by the first `i` sensors. */
  function Offset<V>(store: seq<Sensor<V>>, i: nat): nat
    requires i <= |store|
  {
    if i == 0 then 0 else Offset(store, i - 1) + |store[i - 1].values|
  }

  /** The number of records one cycle emits: the sum of all series lengths. */
  function CycleLength<V>(store: seq<Sensor<V>>): nat
  {
    Offset(store, |store|)
  }

  /** Offsets grow with the sensor index. */
  lemma {:induction false} OffsetMonotone<V>(store: seq<Sensor<V>>, i: nat, j: nat)
    requires i <= j <= |store|
    ensures Offset(store, i) <= Offset(store, j)
    decreases j - i
  {
    if i < j {
      OffsetMonotone(store, i, j - 1);
    }
  }

  /** Every value of sensor `i`, in series order. */
  function Series<V>(store: seq<Sensor<V>>, i: nat): (rs: seq<Reading<V>>)
    requires i < |store|
    ensures |rs| == |store[i].values|
  {
    seq(|store[i].values|, j requires 0 <= j < |store[i].values| => ReadingAt(store, Slot(i, j)))
  }

  /** The records of the first `n` sensors, each series whole and in order. */
  function CyclePrefix<V>(store: seq<Sensor<V>>, n: nat): (rs: seq<Reading<V>>)
    requires n <= |store|
  {
    if n == 0 then [] else CyclePrefix(store, n - 1) + Series(store, n - 1)
  }

  /** One full cycle. */
  function Cycle<V>(store: seq<Sensor<V>>): (rs: seq<Reading<V>>)
  {
    CyclePrefix(store, |store|)
  }

  /**
   * The cycle lists sensor `i`'s values at positions `Offset(i)` onwards, in
   * series order: store order first, series order within a sensor.
   */
  lemma {:induction false} CyclePrefixLayout<V>(store: seq<Sensor<V>>, n: nat, i: nat, j: nat)
    requires n <= |store| && i < n && j < |store[i].values|
    ensures |CyclePrefix(store, n)| == Offset(store, n)
    ensures Offset(store, i) + j < Offset(store, n)
    ensures CyclePrefix(store, n)[Offset(store, i) + j] == ReadingAt(store, Slot(i, j))
  {
    CyclePrefixLength(store, n - 1);
    if i < n - 1 {
      CyclePrefixLayout(store, n - 1, i, j);
    }
    CyclePrefixLength(store, n);
  }

  /** The first `n` sensors contribute exactly their total length. */
  lemma {:induction false} CyclePrefixLength<V>(store: seq<Sensor<V>>, n: nat)
    requires n <= |store|
    ensures |CyclePrefix(store, n)| == Offset(store, n)
  {
    if n > 0 {
      CyclePrefixLength(store, n - 1);
    }
  }

  /** One cycle emits exactly the sum of all series lengths. */
  lemma CycleSize<V>(store: seq<Sensor<V>>)
    ensures |Cycle(store)| == CycleLength(store)
  {
    CyclePrefixLength(store, |store|);
  }

  /** The slot at position `p` of a cycle, found by walking the offsets. */
  function Locate<V>(store: seq<Sensor<V>>, p: nat): (s: Slot)
    requires p < CycleLength(store)
    ensures ValidSlot(store, s)
    ensures Offset(store, s.sensor) + s.position == p
  {
    LocateUpTo(store, |store|, p)
  }

  function LocateUpTo<V>(store: seq<Sensor<V>>, n: nat, p: nat): (s: Slot)
    requires n <= |store| && p < Offset(store, n)
    ensures ValidSlot(store, s) && s.sensor < n
    ensures Offset(store, s.sensor) + s.position == p
  {
    if p >= Offset(store, n - 1) then Slot(n - 1, p - Offset(store, n - 1))
    else LocateUpTo(store, n - 1, p)
  }

  /** Each position of a cycle belongs to exactly one slot. */
  lemma LocateUnique<V>(store: seq<Sensor<V>>, s: Slot, t: Slot)
    requires ValidSlot(store, s) && ValidSlot(store, t)
    requires Offset(store, s.sensor) + s.position == Offset(store, t.sensor) + t.position
    ensures s == t
  {
    if s.sensor < t.sensor {
      OffsetMonotone(store, s.sensor + 1, t.sensor);
    } else if t.sensor < s.sensor {
      OffsetMonotone(store, t.sensor + 1, s.sensor);
    }
  }

  /** Position `p` of a cycle holds the record of the slot `Locate` finds for it. */
  lemma CycleAt<V>(store: seq<Sensor<V>>, p: nat)
    requires p < CycleLength(store)
    ensures p < |Cycle(store)|
    ensures Cycle(store)[p] == ReadingAt(store, Locate(store, p))
  {
    var s := Locate(store, p);
    CyclePrefixLayout(store, |store|, s.sensor, s.position);
  }

  /**
   * Every value of the store is emitted exactly once per cycle: at the one
   * position whose slot is that value's.
   */
  lemma CycleComplete<V>(store: seq<Sensor<V>>, s: Slot)
    requires ValidSlot(store, s)
    ensures Offset(store, s.sensor) + s.position < CycleLength(store)
    ensures Locate(store, Offset(store, s.sensor) + s.position) == s
  {
    CyclePrefixLayout(store, |store|, s.sensor, s.position);
    var p := Offset(store, s.sensor) + s.position;
    LocateUnique(store, Locate(store, p), s);
  }

  // ---------------------------------------------------------------------------
  // The stream
  // ---------------------------------------------------------------------------

  /**
   * The emission of tick `k` (0-based): cycle `k div T + 1`, at position
   * `k mod T` of the cycle, where `T` is the cycle length. A store with no
   * values emits nothing, so this needs `T > 0`.
   */
  function TickEmission<V>(store: seq<Sensor<V>>, k: nat): (e: Emission<V>)
    requires CycleLength(store) > 0
    ensures e.cycle >= 1
    ensures k % CycleLength(store) < |Cycle(store)| && e.reading == Cycle(store)[k % CycleLength(store)]
  {
    var T := CycleLength(store);
    CycleAt(store, k % T);
    Emission(k / T + 1, ReadingAt(store, Locate(store, k % T)))
  }

  /** Tags every record with the cycle number `c`. */
  function Tag<V>(c: nat, rs: seq<Reading<V>>): (es: seq<Emission<V>>)
    ensures |es| == |rs|
  {
    seq(|rs|, p requires 0 <= p < |rs| => Emission(c, rs[p]))
  }

  /** The first `n` cycles, numbered 1 to `n`. */
  function Cycles<V>(store: seq<Sensor<V>>, n: nat): (es: seq<Emission<V>>)
    ensures forall p :: 0 <= p < |es| ==> 1 <= es[p].cycle <= n
  {
    if n == 0 then [] else Cycles(store, n - 1) + Tag(n, Cycle(store))
  }

  lemma {:induction false} CyclesSize<V>(store: seq<Sensor<V>>, n: nat)
    ensures |Cycles(store, n)| == n * CycleLength(store)
  {
    if n > 0 {
      CyclesSize(store, n - 1);
      CycleSize(store);
    }
  }

  /**
   * The whole-cycle prefixes agree with the closed form: the `k`-th emission of
   * the first `n` cycles is the emission of tick `k`.
   */
  lemma {:induction false} CyclesMatchTicks<V>(store: seq<Sensor<V>>, n: nat, k: nat)
    requires k < n * CycleLength(store)
    ensures CycleLength(store) > 0
    ensures k < |Cycles(store, n)|
    ensures Cycles(store, n)[k] == TickEmission(store, k)
  {
    var T := CycleLength(store);
    assert n > 0 && T > 0;
    CyclesSize(store, n - 1);
    CyclesSize(store, n);
    var prev := Cycles(store, n - 1);
    if k < |prev| {
      CyclesMatchTicks(store, n - 1, k);
    } else {
      var p := k - (n - 1) * T;
      assert n * T == (n - 1) * T + T;
      DivMod(k, T, n - 1, p);
      CycleSize(store);
      CycleAt(store, p);
    }
  }

  /** The first cycle is numbered 1. */
  lemma FirstCycleIsOne<V>(store: seq<Sensor<V>>, k: nat)
    requires k < CycleLength(store)
    ensures TickEmission(store, k).cycle == 1
  {
  }

  /**
   * The cycle number stays put within a cycle and goes up by exactly one when
   * a cycle completes.
   */
  lemma CycleNumberStep<V>(store: seq<Sensor<V>>, k: nat)
    requires CycleLength(store) > 0
    ensures TickEmission(store, k + 1).cycle
         == TickEmission(store, k).cycle + (if (k + 1) % CycleLength(store) == 0 then 1 else 0)
  {
    var T := CycleLength(store);
    var q, m := k / T, k % T;
    if m + 1 < T {
      DivMod(k + 1, T, q, m + 1);
    } else {
      DivMod(k + 1, T, q + 1, 0);
    }
  }

  /** A full cycle later the same record comes again, under the next cycle number. */
  lemma CycleRepeats<V>(store: seq<Sensor<V>>, k: nat)
    requires CycleLength(store) > 0
    ensures TickEmission(store, k + CycleLength(store)).reading == TickEmission(store, k).reading
    ensures TickEmission(store, k + CycleLength(store)).cycle == TickEmission(store, k).cycle + 1
  {
    var T := CycleLength(store);
    DivMod(k + T, T, k / T + 1, k % T);
  }

  // ---------------------------------------------------------------------------
  // The nested loops
  // ---------------------------------------------------------------------------

  /**
   * Runs `cycles` passes of the replay loop: for each sensor in store order,
   * each value in series order, one record tagged with the current cycle
   * number, which starts at 1 and goes up by one after each pass. Returns the
   * records and the cycle number the loop would announce next.
   */
  method ReplaySequential<V>(store: seq<Sensor<V>>, cycles: nat)
      returns (out: seq<Emission<V>>, cycleNr: nat)
    ensures out == Cycles(store, cycles)
    ensures cycleNr == cycles + 1
  {
    out := [];
    cycleNr := 1;
    while cycleNr <= cycles
      invariant 1 <= cycleNr <= cycles + 1
      invariant out == Cycles(store, cycleNr - 1)
    {
      var i := 0;
      while i < |store|
        invariant i <= |store|
        invariant out == Cycles(store, cycleNr - 1) + Tag(cycleNr, CyclePrefix(store, i))
      {
        var sensor := store[i];
        var j := 0;
        while j < |sensor.values|
          invariant j <= |sensor.values|
          invariant out == Cycles(store, cycleNr - 1) + Tag(cycleNr, CyclePrefix(store, i) + Series(store, i)[..j])
        {
          out := out + [Emission(cycleNr, Reading(sensor.location, sensor.metric, sensor.values[j]))];
          assert Series(store, i)[..j + 1] == Series(store, i)[..j] + [Series(store, i)[j]];
          j := j + 1;
        }
        assert Series(store, i)[..j] == Series(store, i);
        i := i + 1;
      }
      cycleNr := cycleNr + 1;
    }
  }
}
