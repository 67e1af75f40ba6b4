/**
 * How a measurement file name becomes a sensor identity.
 *
 * The loader takes the file's stem (the name without its last suffix, by the
 * rule of Python's `pathlib`) and splits it once on the first underscore: the
 * part before is the location, the part after is the metric. A stem without an
 * underscore is used whole, for both the location and the metric.
 */
module SensorIdentity {
  import opened Wrappers

  /** The character the stem is split on. */
  const Separator: char := '_'

  /** The character that starts a file suffix. */
  const Dot: char := '.'

  /** Where a sensor's readings come from and what they measure. */
  datatype Identity = Identity(location: string, metric: string)

  /** The index of the first occurrence of `c` in `s`, if there is one. */
  function FirstIndex(s: string, c: char): (r: Option<nat>)
    ensures r.None? <==> c !in s
    ensures r.Some? ==> r.value < |s| && s[r.value] == c && c !in s[..r.value]
  {
    if |s| == 0 then None
    else if s[0] == c then Some(0)
    else
      match FirstIndex(s[1..], c)
      case None => None
      case Some(i) =>
        assert s[..i + 1] == [s[0]] + s[1..][..i];
        Some(i + 1)
  }

  /** The index of the last occurrence of `c` in `s`, if there is one. */
  function LastIndex(s: string, c: char): (r: Option<nat>)
    ensures r.None? <==> c !in s
    ensures r.Some? ==> r.value < |s| && s[r.value] == c && c !in s[r.value + 1..]
  {
    if |s| == 0 then None
    else if s[|s| - 1] == c then Some(|s| - 1)
    else
      assert s == s[..|s| - 1] + [s[|s| - 1]];
      match LastIndex(s[..|s| - 1], c)
      case None => None
      case Some(i) =>
        assert s[i + 1..] == s[..|s| - 1][i + 1..] + [s[|s| - 1]];
        Some(i)
  }

  /**
   * The stem of a file name: the name without its final suffix. A suffix is the
   * text from the last dot on, and only counts when that dot is neither the
   * first nor the last character of the name (so ".csv" and "notes." have no
   * suffix and are their own stems).
   */
  function Stem(name: string): (stem: string)
    ensures stem <= name
    ensures stem == name || (0 < |stem| < |name| - 1 && name[|stem|] == Dot && Dot !in name[|stem| + 1..])
    ensures stem == name <==> !HasSuffix(name)
  {
    match LastIndex(name, Dot)
    case None => name
    case Some(i) =>
      if 0 < i < |name| - 1 then name[..i]
      else name
  }

  /** The name has a last dot that is neither its first nor its last character. */
  ghost predicate HasSuffix(name: string)
  {
    exists i :: 0 < i < |name| - 1 && name[i] == Dot && Dot !in name[i + 1..]
  }

  /** The location and metric a stem denotes: split once on the first separator. */
  function SplitStem(stem: string): (id: Identity)
    ensures Separator !in stem ==> id.location == stem && id.metric == stem
    ensures Separator in stem ==>
              stem == id.location + [Separator] + id.metric && Separator !in id.location
  {
    match FirstIndex(stem, Separator)
    case None => Identity(stem, stem)
    case Some(i) =>
      assert stem == stem[..i] + [Separator] + stem[i + 1..];
      Identity(stem[..i], stem[i + 1..])
  }

  /** The identity of the sensor whose readings are in the file called `name`. */
  function IdentityOf(name: string): (id: Identity)
    ensures Separator !in Stem(name) ==> id.location == Stem(name) && id.metric == Stem(name)
    ensures Separator in Stem(name) ==>
              Stem(name) == id.location + [Separator] + id.metric && Separator !in id.location
  {
    SplitStem(Stem(name))
  }

  /**
   * The split is the only one of its kind: whenever a stem is some
   * underscore-free location, an underscore, and any metric at all (later
   * underscores included), that is the identity the split yields.
   */
  lemma {:induction false} SplitStemUnique(stem: string, location: string, metric: string)
    requires stem == location + [Separator] + metric
    requires Separator !in location
    ensures SplitStem(stem) == Identity(location, metric)
  {
    assert stem[|location|] == Separator;
    var i := FirstIndex(stem, Separator).value;
    assert stem[..|location|] == location;
    assert Separator in stem[..i + 1];
    assert i == |location|;
    assert stem[i + 1..] == metric;
  }

  /** A name that is some non-empty text followed by ".csv" has that text as its stem. */
  lemma {:induction false} CsvStem(base: string)
    requires |base| > 0
    ensures Stem(base + ".csv") == base
  {
    var name := base + ".csv";
    var cs, c, dot := base + ".cs", base + ".c", base + ".";
    assert name[|name| - 1] == 'v' && name[..|name| - 1] == cs;
    assert cs[|cs| - 1] == 's' && cs[..|cs| - 1] == c;
    assert c[|c| - 1] == 'c' && c[..|c| - 1] == dot;
    assert dot[|dot| - 1] == Dot;
    assert LastIndex(dot, Dot) == Some(|base|);
    assert LastIndex(c, Dot) == Some(|base|);
    assert LastIndex(cs, Dot) == Some(|base|);
    assert LastIndex(name, Dot) == Some(|base|);
    assert name[..|base|] == base;
  }

  /** A file called exactly ".csv" has no suffix, so the whole name is its stem. */
  lemma HiddenCsvStem()
    ensures Stem(".csv") == ".csv"
  {
  }

  /** "living_room_temperature.csv" is the room "living" measuring "room_temperature". */
  lemma ExampleIdentity()
    ensures IdentityOf("living_room_temperature.csv") == Identity("living", "room_temperature")
  {
    var location, metric := "living", "room_temperature";
    var stem := location + [Separator] + metric;
    var name := stem + ".csv";
    assert name == "living_room_temperature.csv";
    CsvStem(stem);
    SplitStemUnique(stem, location, metric);
    assert IdentityOf(name) == SplitStem(stem);
  }

  /** Two different file names can denote the same sensor identity: "x.csv" and "x_x.csv". */
  lemma IdentityNotInjective()
    ensures IdentityOf("x.csv") == IdentityOf("x_x.csv") == Identity("x", "x")
  {
    var stem := "x" + [Separator] + "x";
    assert stem + ".csv" == "x_x.csv";
    assert "x" + ".csv" == "x.csv";
    CsvStem("x");
    CsvStem(stem);
    SplitStemUnique(stem, "x", "x");
  }
}
