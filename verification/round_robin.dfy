/**
 * Round-robin replay (the fast mode of `stream_forever`).
 *
 * Every sensor gets an endlessly repeating cursor over its series. The loop
 * runs forever; each pass of the inner loop is a round, which visits every
 * sensor once, in store order, and emits the next value of its cursor. The
 * infinite stream is described here by its value at each tick (`TickSlot`) and
 * by its finite prefixes of whole rounds (`Rounds`); the method
 * `ReplayRoundRobin` runs the cursor loop itself for a given number of rounds.
 */
module RoundRobin {
  import opened MeasurementStore
  import opened Readings
  import opened Arithmetic

  /** The slot of sensor `i` in round `r`: its cursor has wrapped `r` times modulo its length. */
  function RoundSlot<V>(store: seq<Sensor<V>>, i: nat, r: nat): (s: Slot)
    requires WellFormed(store) && i < |store|
    ensures ValidSlot(store, s)
  {
    Slot(i, r % |store[i].values|)
  }

  /** The records of round `r`, one per sensor in store order. */
  function Round<V>(store: seq<Sensor<V>>, r: nat): (rs: seq<Reading<V>>)
    requires WellFormed(store)
    ensures |rs| == |store|
  {
    seq(|store|, i requires 0 <= i < |store| => ReadingAt(store, RoundSlot(store, i, r)))
  }

  /** The first `n` rounds of the stream, one after another. */
  function Rounds<V>(store: seq<Sensor<V>>, n: nat): (rs: seq<Reading<V>>)
    requires WellFormed(store)
    ensures |rs| == n * |store|
  {
    if n == 0 then [] else Rounds(store, n - 1) + Round(store, n - 1)
  }

  /**
   * The slot emitted at tick `k` (0-based), in closed form: sensor `k mod N`,
   * in round `k div N`. An empty store emits nothing, so this needs `N > 0`.
   */
  function TickSlot<V>(store: seq<Sensor<V>>, k: nat): (s: Slot)
    requires WellFormed(store) && |store| > 0
    ensures ValidSlot(store, s)
    ensures s.sensor == k % |store| && s.position == (k / |store|) % |store[s.sensor].values|
  {
    RoundSlot(store, k % |store|, k / |store|)
  }

  /** Tick `r * N + i` is sensor `i`'s turn in round `r`. */
  lemma TickOfRound<V>(store: seq<Sensor<V>>, r: nat, i: nat)
    requires WellFormed(store) && i < |store|
    ensures TickSlot(store, r * |store| + i) == RoundSlot(store, i, r)
  {
    DivMod(r * |store| + i, |store|, r, i);
  }

  /**
   * The whole-round prefixes agree with the closed form: the `k`-th record of
   * the first `n` rounds is the record of tick `k`.
   */
  lemma {:induction false} RoundsMatchTicks<V>(store: seq<Sensor<V>>, n: nat, k: nat)
    requires WellFormed(store) && k < n * |store|
    ensures ReadingAt(store, TickSlot(store, k)) == Rounds(store, n)[k]
  {
    var N := |store|;
    assert n > 0;
    var prev := Rounds(store, n - 1);
    assert |prev| == (n - 1) * N;
    if k < |prev| {
      RoundsMatchTicks(store, n - 1, k);
    } else {
      var i := k - (n - 1) * N;
      assert n * N == (n - 1) * N + N;
      TickOfRound(store, n - 1, i);
    }
  }

  /**
   * Within each round the emitted identities are the store's sensors, each
   * once, in store order; sensor `i` emits value `r mod |values|` of its series.
   */
  lemma RoundVisitsStoreInOrder<V>(store: seq<Sensor<V>>, r: nat, i: nat)
    requires WellFormed(store) && i < |store|
    ensures Round(store, r)[i].location == store[i].location
    ensures Round(store, r)[i].metric == store[i].metric
    ensures Round(store, r)[i].value == store[i].values[r % |store[i].values|]
  {
  }

  /** A cursor wraps around: `|values|` rounds later a sensor emits the same value again. */
  lemma Wraparound<V>(store: seq<Sensor<V>>, i: nat, r: nat)
    requires WellFormed(store) && i < |store|
    ensures RoundSlot(store, i, r + |store[i].values|) == RoundSlot(store, i, r)
  {
    var L := |store[i].values|;
    DivMod(r + L, L, r / L + 1, r % L);
  }

  /** A three-value series reads a, b, c, a, b, c, ... in consecutive rounds. */
  lemma ThreeValueCycle<V>(a: V, b: V, c: V, r: nat)
    ensures var store := [Sensor("kitchen", "temperature", [a, b, c])];
            Round(store, 3 * r)[0].value == a &&
            Round(store, 3 * r + 1)[0].value == b &&
            Round(store, 3 * r + 2)[0].value == c
  {
  }

  // ---------------------------------------------------------------------------
  // Fairness
  // ---------------------------------------------------------------------------

  /** How many of the first `n` ticks belong to sensor `i`. */
  function TurnsOf<V>(store: seq<Sensor<V>>, n: nat, i: nat): nat
    requires WellFormed(store) && |store| > 0
  {
    if n == 0 then 0
    else TurnsOf(store, n - 1, i) + (if TickSlot(store, n - 1).sensor == i then 1 else 0)
  }

  /** One turn per completed round of `N` ticks, plus one if the unfinished round has reached `i`. */
  function ClosedTurns(n: nat, N: nat, i: nat): nat
    requires N > 0
  {
    n / N + (if i < n % N then 1 else 0)
  }

  /** `ClosedTurns` grows by one exactly at sensor `i`'s tick. */
  lemma TurnStep(n: nat, N: nat, i: nat)
    requires n > 0 && i < N
    ensures ClosedTurns(n, N, i) == ClosedTurns(n - 1, N, i) + (if (n - 1) % N == i then 1 else 0)
  {
    var q, m := (n - 1) / N, (n - 1) % N;
    if m + 1 < N {
      DivMod(n, N, q, m + 1);
    } else {
      DivMod(n, N, q + 1, 0);
    }
  }

  /**
   * Sensor `i` (of `N`) has had one turn per completed round in the first `n`
   * ticks, plus one more if the current, unfinished round has reached it.
   */
  lemma {:induction false} TurnsClosedForm<V>(store: seq<Sensor<V>>, n: nat, i: nat)
    requires WellFormed(store) && i < |store|
    ensures TurnsOf(store, n, i) == ClosedTurns(n, |store|, i)
  {
    if n > 0 {
      TurnsClosedForm(store, n - 1, i);
      TurnStep(n, |store|, i);
    }
  }

  /** After `K` complete rounds every sensor has emitted exactly `K` records, whatever its length. */
  lemma Fairness<V>(store: seq<Sensor<V>>, K: nat, i: nat)
    requires WellFormed(store) && i < |store|
    ensures TurnsOf(store, K * |store|, i) == K
  {
    TurnsClosedForm(store, K * |store|, i);
    DivMod(K * |store|, |store|, K, 0);
    assert ClosedTurns(K * |store|, |store|, i) == K;
  }

  /** At every tick, no sensor is more than one record ahead of any other. */
  lemma NoStarvation<V>(store: seq<Sensor<V>>, n: nat, i: nat, j: nat)
    requires WellFormed(store) && i < |store| && j < |store|
    ensures TurnsOf(store, n, j) <= TurnsOf(store, n, i) + 1
  {
    TurnsClosedForm(store, n, i);
    TurnsClosedForm(store, n, j);
  }

  // ---------------------------------------------------------------------------
  // The cursor loop
  // ---------------------------------------------------------------------------

  /** Advancing a wrapped cursor gives the wrapped successor. */
  lemma CursorStep(r: nat, L: nat)
    requires L > 0
    ensures (r % L + 1) % L == (r + 1) % L
  {
    var q, m := r / L, r % L;
    if m + 1 < L {
      DivMod(r + 1, L, q, m + 1);
      DivMod(m + 1, L, 0, m + 1);
    } else {
      DivMod(r + 1, L, q + 1, 0);
      DivMod(m + 1, L, 1, 0);
    }
  }

  /**
   * Runs `rounds` rounds of the replay loop with one cursor per sensor, each
   * cursor read and then advanced with wrap-around, and returns the emitted
   * records and the final cursors.
   */
  method ReplayRoundRobin<V>(store: seq<Sensor<V>>, rounds: nat)
      returns (out: seq<Reading<V>>, cursors: seq<nat>)
    requires WellFormed(store)
    ensures out == Rounds(store, rounds)
    ensures |cursors| == |store|
    ensures forall i :: 0 <= i < |store| ==> cursors[i] == rounds % |store[i].values|
  {
    cursors := seq(|store|, _ => 0);
    out := [];
    var r := 0;
    while r < rounds
      invariant r <= rounds
      invariant out == Rounds(store, r)
      invariant |cursors| == |store|
      invariant forall i :: 0 <= i < |store| ==> cursors[i] == r % |store[i].values|
    {
      var i := 0;
      while i < |store|
        invariant i <= |store|
        invariant |cursors| == |store|
        invariant out == Rounds(store, r) + Round(store, r)[..i]
        invariant forall j :: 0 <= j < i ==> cursors[j] == (r + 1) % |store[j].values|
        invariant forall j :: i <= j < |store| ==> cursors[j] == r % |store[j].values|
      {
        var sensor := store[i];
        var value := sensor.values[cursors[i]];
        out := out + [Reading(sensor.location, sensor.metric, value)];
        CursorStep(r, |sensor.values|);
        cursors := cursors[i := (cursors[i] + 1) % |sensor.values|];
        assert Round(store, r)[..i + 1] == Round(store, r)[..i] + [Round(store, r)[i]];
        i := i + 1;
      }
      assert Round(store, r)[..i] == Round(store, r);
      r := r + 1;
    }
  }
}
