/**
 * The measurement store the producer builds once at start-up.
 *
 * The loader visits the `*.csv` files of the measurement directory in sorted
 * path order, derives each file's sensor identity from its name, and keeps the
 * file as a sensor only when reading it produced at least one value. A file
 * whose reading raised is logged and skipped. The store is never changed after
 * it is built.
 */
module MeasurementStore {
  import opened Wrappers
  import opened SensorIdentity

  /**
   * One file of the directory listing: its name and what reading it produced,
   * `None` when reading or converting the file raised.
   */
  datatype CsvFile<V> = CsvFile(name: string, parsed: Option<seq<V>>)

  /** A sensor of the store: its identity and its recorded series, in file order. */
  datatype Sensor<V> = Sensor(location: string, metric: string, values: seq<V>)

  /** Every sensor of the store has at least one value. */
  predicate WellFormed<V>(store: seq<Sensor<V>>)
  {
    forall i :: 0 <= i < |store| ==> |store[i].values| > 0
  }

  // ---------------------------------------------------------------------------
  // Path order: Python compares the file names character by character, by code
  // point, and a proper prefix comes first.
  // ---------------------------------------------------------------------------

  /** `a` sorts no later than `b`. */
  predicate LexLe(a: string, b: string)
    decreases |a|
  {
    |a| == 0 || (|b| > 0 && (a[0] < b[0] || (a[0] == b[0] && LexLe(a[1..], b[1..]))))
  }

  lemma {:induction false} LexLeTotal(a: string, b: string)
    ensures LexLe(a, b) || LexLe(b, a)
    decreases |a|
  {
    if |a| > 0 && |b| > 0 && a[0] == b[0] {
      LexLeTotal(a[1..], b[1..]);
    }
  }

  lemma {:induction false} LexLeAntisymmetric(a: string, b: string)
    requires LexLe(a, b) && LexLe(b, a)
    ensures a == b
    decreases |a|
  {
    if |a| > 0 {
      LexLeAntisymmetric(a[1..], b[1..]);
      assert a == [a[0]] + a[1..] && b == [b[0]] + b[1..];
    }
  }

  lemma {:induction false} LexLeTransitive(a: string, b: string, c: string)
    requires LexLe(a, b) && LexLe(b, c)
    ensures LexLe(a, c)
    decreases |a|
  {
    if |a| > 0 && a[0] == b[0] && b[0] == c[0] {
      LexLeTransitive(a[1..], b[1..], c[1..]);
    }
  }

  /** Each file sorts no later than the next one. */
  predicate SortedByName<V>(fs: seq<CsvFile<V>>)
  {
    forall i :: 0 < i < |fs| ==> LexLe(fs[i - 1].name, fs[i].name)
  }

  /** Files that share a name are the same file, as in any directory listing. */
  ghost predicate UniqueNames<V>(fs: seq<CsvFile<V>>)
  {
    forall f, g :: f in fs && g in fs && f.name == g.name ==> f == g
  }

  /** Inserts `f` into the sorted `fs`, just before the first file whose name it does not exceed. */
  function Insert<V>(f: CsvFile<V>, fs: seq<CsvFile<V>>): (r: seq<CsvFile<V>>)
    requires SortedByName(fs)
    ensures SortedByName(r)
    ensures multiset(r) == multiset(fs) + multiset{f}
    ensures r[0] == f || (|fs| > 0 && r[0] == fs[0])
  {
    if |fs| == 0 then [f]
    else if LexLe(f.name, fs[0].name) then [f] + fs
    else
      LexLeTotal(f.name, fs[0].name);
      var rest := Insert(f, fs[1..]);
      assert fs == [fs[0]] + fs[1..];
      [fs[0]] + rest
  }

  /** The listing in sorted path order (a stable sort: equal names keep their order). */
  function SortByName<V>(fs: seq<CsvFile<V>>): (r: seq<CsvFile<V>>)
    ensures SortedByName(r)
    ensures multiset(r) == multiset(fs)
  {
    if |fs| == 0 then []
    else
      assert fs == [fs[0]] + fs[1..];
      Insert(fs[0], SortByName(fs[1..]))
  }

  /** In a sorted listing every file sorts no later than every file after it. */
  lemma {:induction false} SortedPairwise<V>(fs: seq<CsvFile<V>>, i: nat, j: nat)
    requires SortedByName(fs)
    requires i <= j < |fs|
    ensures LexLe(fs[i].name, fs[j].name)
    decreases j - i
  {
    if i == j {
      LexLeReflexive(fs[i].name);
    } else {
      SortedPairwise(fs, i, j - 1);
      LexLeTransitive(fs[i].name, fs[j - 1].name, fs[j].name);
    }
  }

  lemma {:induction false} LexLeReflexive(a: string)
    ensures LexLe(a, a)
    decreases |a|
  {
    if |a| > 0 {
      LexLeReflexive(a[1..]);
    }
  }

  /** Two sorted arrangements of the same uniquely named files start with the same file. */
  lemma SameFirst<V>(a: seq<CsvFile<V>>, b: seq<CsvFile<V>>)
    requires SortedByName(a) && SortedByName(b)
    requires multiset(a) == multiset(b)
    requires UniqueNames(a)
    requires |a| > 0 && |b| > 0
    ensures a[0] == b[0]
  {
    assert a[0] in multiset(b);
    var k :| 0 <= k < |b| && b[k] == a[0];
    assert b[0] in multiset(a);
    var m :| 0 <= m < |a| && a[m] == b[0];
    SortedPairwise(b, 0, k);
    SortedPairwise(a, 0, m);
    LexLeAntisymmetric(a[0].name, b[0].name);
  }

  lemma MultisetTail<V>(a: seq<CsvFile<V>>, b: seq<CsvFile<V>>)
    requires multiset(a) == multiset(b)
    requires |a| > 0 && |b| > 0 && a[0] == b[0]
    ensures multiset(a[1..]) == multiset(b[1..])
  {
    assert a == [a[0]] + a[1..] && b == [b[0]] + b[1..];
    assert multiset(a) == multiset{a[0]} + multiset(a[1..]);
    assert multiset(b) == multiset{b[0]} + multiset(b[1..]);
    calc {
      multiset(a[1..]);
      multiset(a) - multiset{a[0]};
      multiset(b) - multiset{b[0]};
      multiset(b[1..]);
    }
  }

  /** Dropping the first file keeps a listing sorted and its names unique. */
  lemma Tails<V>(a: seq<CsvFile<V>>)
    requires |a| > 0
    ensures SortedByName(a) ==> SortedByName(a[1..])
    ensures UniqueNames(a) ==> UniqueNames(a[1..])
  {
  }

  /**
   * A listing with unique names has exactly one sorted arrangement: any two
   * sorted sequences holding the same files are equal.
   */
  lemma {:induction false} SortedArrangementUnique<V>(a: seq<CsvFile<V>>, b: seq<CsvFile<V>>)
    requires SortedByName(a) && SortedByName(b)
    requires multiset(a) == multiset(b)
    requires UniqueNames(a)
    ensures a == b
    decreases |a|
  {
    assert |a| == |multiset(a)| == |multiset(b)| == |b|;
    if |a| > 0 {
      SameFirst(a, b);
      MultisetTail(a, b);
      Tails(a);
      Tails(b);
      SortedArrangementUnique(a[1..], b[1..]);
      assert a == [a[0]] + a[1..] && b == [b[0]] + b[1..];
    }
  }

  // ---------------------------------------------------------------------------
  // Building the store
  // ---------------------------------------------------------------------------

  /** The file was read and gave at least one value. */
  predicate Loadable<V>(f: CsvFile<V>)
  {
    f.parsed.Some? && |f.parsed.value| > 0
  }

  /** The sensor a readable file becomes: identity from its name, series from its contents. */
  function SensorOf<V>(f: CsvFile<V>): (s: Sensor<V>)
    requires f.parsed.Some?
    ensures s.values == f.parsed.value
  {
    var id := IdentityOf(f.name);
    Sensor(id.location, id.metric, f.parsed.value)
  }

  /** The loadable files of `fs`, in the order of `fs`. */
  function Keep<V>(fs: seq<CsvFile<V>>): (kept: seq<CsvFile<V>>)
    ensures |kept| <= |fs|
    ensures forall i :: 0 <= i < |kept| ==> Loadable(kept[i])
  {
    if |fs| == 0 then []
    else if Loadable(fs[0]) then [fs[0]] + Keep(fs[1..])
    else Keep(fs[1..])
  }

  /** A file is kept exactly when it is a loadable file of the listing. */
  lemma {:induction false} KeepMembers<V>(fs: seq<CsvFile<V>>, f: CsvFile<V>)
    ensures f in Keep(fs) <==> f in fs && Loadable(f)
    decreases |fs|
  {
    if |fs| > 0 {
      KeepMembers(fs[1..], f);
      assert fs == [fs[0]] + fs[1..];
    }
  }

  /** The sensors of a sequence of loadable files, one per file, in the same order. */
  function ToSensors<V>(kept: seq<CsvFile<V>>): (store: seq<Sensor<V>>)
    requires forall i :: 0 <= i < |kept| ==> Loadable(kept[i])
    ensures |store| == |kept|
    ensures forall i :: 0 <= i < |kept| ==> Loadable(kept[i]) && store[i] == SensorOf(kept[i])
    ensures WellFormed(store)
  {
    var store := seq(|kept|, i requires 0 <= i < |kept| && Loadable(kept[i]) => SensorOf(kept[i]));
    assert forall i :: 0 <= i < |store| ==> |store[i].values| == |kept[i].parsed.value| > 0;
    store
  }

  /** `load_all_sensors`: the sensors of the loadable files of the listing, in sorted path order. */
  function LoadAllSensors<V>(listing: seq<CsvFile<V>>): (store: seq<Sensor<V>>)
    ensures WellFormed(store)
  {
    ToSensors(Keep(SortByName(listing)))
  }

  /** Membership in the sorted listing is membership in the listing. */
  lemma SortedMembers<V>(listing: seq<CsvFile<V>>, f: CsvFile<V>)
    ensures f in SortByName(listing) <==> f in listing
  {
    assert f in multiset(SortByName(listing)) <==> f in multiset(listing);
  }

  /** Every sensor of the store is the sensor of a loadable file of the listing. */
  lemma LoadSound<V>(listing: seq<CsvFile<V>>, i: nat)
    requires i < |LoadAllSensors(listing)|
    ensures exists f :: f in listing && Loadable(f) && LoadAllSensors(listing)[i] == SensorOf(f)
  {
    var kept := Keep(SortByName(listing));
    var f := kept[i];
    KeepMembers(SortByName(listing), f);
    SortedMembers(listing, f);
    assert LoadAllSensors(listing)[i] == SensorOf(f);
  }

  /** Every loadable file of the listing gives a sensor of the store. */
  lemma LoadComplete<V>(listing: seq<CsvFile<V>>, f: CsvFile<V>)
    requires f in listing && Loadable(f)
    ensures SensorOf(f) in LoadAllSensors(listing)
  {
    var kept := Keep(SortByName(listing));
    SortedMembers(listing, f);
    KeepMembers(SortByName(listing), f);
    var i :| 0 <= i < |kept| && kept[i] == f;
    assert LoadAllSensors(listing)[i] == SensorOf(f);
  }

  /** The filter keeps relative order: filtering a concatenation concatenates the filtered parts. */
  lemma {:induction false} KeepAppend<V>(a: seq<CsvFile<V>>, b: seq<CsvFile<V>>)
    ensures Keep(a + b) == Keep(a) + Keep(b)
    decreases |a|
  {
    if |a| > 0 {
      assert (a + b)[1..] == a[1..] + b;
      KeepAppend(a[1..], b);
    } else {
      assert a + b == b;
    }
  }

  /** The number of loadable files of `fs`. */
  function CountLoadable<V>(fs: seq<CsvFile<V>>): nat
  {
    if |fs| == 0 then 0 else (if Loadable(fs[0]) then 1 else 0) + CountLoadable(fs[1..])
  }

  /** The store holds one sensor per loadable file, no more and no fewer. */
  lemma {:induction false} KeepSize<V>(fs: seq<CsvFile<V>>)
    ensures |Keep(fs)| == CountLoadable(fs)
    decreases |fs|
  {
    if |fs| > 0 {
      KeepSize(fs[1..]);
    }
  }

  /** A file that could not be read, or that held no values, adds nothing to the store. */
  lemma UnloadableSkipped<V>(before: seq<CsvFile<V>>, f: CsvFile<V>, after: seq<CsvFile<V>>)
    requires !Loadable(f)
    ensures Keep(before + [f] + after) == Keep(before) + Keep(after)
  {
    assert [f][1..] == [];
    assert Keep([f]) == Keep([f][1..]) == [];
    KeepAppend(before + [f], after);
    KeepAppend(before, [f]);
    assert Keep(before + [f]) == Keep(before);
  }

  /**
   * The store is the sorted listing, restricted to its loadable files: for the
   * one sorted arrangement of the listing, the store is exactly its filter.
   */
  lemma LoadIsSortedFilter<V>(listing: seq<CsvFile<V>>, sorted: seq<CsvFile<V>>)
    requires UniqueNames(listing)
    requires SortedByName(sorted) && multiset(sorted) == multiset(listing)
    ensures LoadAllSensors(listing) == ToSensors(Keep(sorted))
  {
    var s := SortByName(listing);
    forall f, g | f in s && g in s && f.name == g.name
      ensures f == g
    {
      assert f in multiset(s) && g in multiset(s);
      assert f in listing && g in listing;
    }
    SortedArrangementUnique(s, sorted);
  }

  /**
   * The store does not depend on the order the directory listing came in:
   * any two listings of the same files build the same store.
   */
  lemma LoadIgnoresListingOrder<V>(l1: seq<CsvFile<V>>, l2: seq<CsvFile<V>>)
    requires multiset(l1) == multiset(l2)
    requires UniqueNames(l1)
    ensures LoadAllSensors(l1) == LoadAllSensors(l2)
  {
    LoadIsSortedFilter(l1, SortByName(l2));
  }
}
