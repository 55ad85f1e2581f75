/**
 * The plugin's configuration: which vehicles are checked, which worn items
 * block, and whether one or all of them are needed to block. Loading cleans
 * duplicate entries out of both lists (`Enumerable.Distinct`) and falls back
 * to the defaults when the stored document is missing or unusable.
 */
module Config {
  import opened Wrappers

  /** A `List<string>` property may be null; `None` stands for null. */
  datatype Configuration = Configuration(
    version: string,
    vehiclesPrefabs: Option<seq<string>>,
    blockedItems: Option<seq<string>>,
    requireAllItems: bool)

  const DefaultVehiclesPrefabs: seq<string> := [
    "minicopter.entity",
    "scraptransporthelicopter",
    "attackhelicopter.entity",
    "rowboat",
    "submarine.solo.entity",
    "submarine.duo.entity"
  ]

  const DefaultBlockedItems: seq<string> := [
    "heavy.plate.helmet",
    "heavy.plate.jacket",
    "heavy.plate.pants"
  ]

  /** `new Configuration()` */
  const DefaultConfiguration: Configuration :=
    Configuration("1.0.3", Some(DefaultVehiclesPrefabs), Some(DefaultBlockedItems), false)

  ghost predicate NoDuplicates<T>(xs: seq<T>) {
    forall i, j :: 0 <= i < j < |xs| ==> xs[i] != xs[j]
  }

  /** Index of the first occurrence of `x` in `xs`. */
  function FirstIndex<T(==)>(xs: seq<T>, x: T): (k: nat)
    requires x in xs
    ensures k < |xs| && xs[k] == x && x !in xs[..k]
  {
    if xs[0] == x then 0
    else
      var k := FirstIndex(xs[1..], x);
      assert xs[..k + 1] == [xs[0]] + xs[1..][..k];
      k + 1
  }

  /**
   * `xs.Distinct().ToList()`: every element once, at the place of its first
   * occurrence.
   */
  function Distinct<T(==)>(xs: seq<T>): (r: seq<T>)
    decreases |xs|
  {
    if xs == [] then []
    else
      var prefix := Distinct(xs[..|xs| - 1]);
      if xs[|xs| - 1] in prefix then prefix else prefix + [xs[|xs| - 1]]
  }

  /** Distinct drops elements but never introduces one. */
  lemma {:induction false} DistinctSameElements<T>(xs: seq<T>)
    ensures forall x :: x in Distinct(xs) <==> x in xs
    ensures |Distinct(xs)| <= |xs|
    decreases |xs|
  {
    if xs != [] {
      var init := xs[..|xs| - 1];
      DistinctSameElements(init);
      assert xs == init + [xs[|xs| - 1]];
    }
  }

  lemma {:induction false} DistinctNoDuplicates<T>(xs: seq<T>)
    ensures NoDuplicates(Distinct(xs))
    decreases |xs|
  {
    if xs != [] {
      DistinctNoDuplicates(xs[..|xs| - 1]);
    }
  }

  /** A list without duplicates is left as it is. */
  lemma {:induction false} DistinctOfNoDuplicates<T>(xs: seq<T>)
    requires NoDuplicates(xs)
    ensures Distinct(xs) == xs
    decreases |xs|
  {
    if xs != [] {
      var init := xs[..|xs| - 1];
      DistinctOfNoDuplicates(init);
      assert xs[|xs| - 1] !in init by {
        forall i | 0 <= i < |init| ensures init[i] != xs[|xs| - 1] {
          assert init[i] == xs[i];
        }
      }
      assert xs == init + [xs[|xs| - 1]];
    }
  }

  /** Cleaning twice is cleaning once. */
  lemma DistinctIdempotent<T>(xs: seq<T>)
    ensures Distinct(Distinct(xs)) == Distinct(xs)
  {
    DistinctNoDuplicates(xs);
    DistinctOfNoDuplicates(Distinct(xs));
  }

  lemma {:induction false} FirstIndexOfPrefix<T>(xs: seq<T>, n: nat, x: T)
    requires n <= |xs| && x in xs[..n]
    ensures FirstIndex(xs, x) == FirstIndex(xs[..n], x)
  {
  }

  /**
   * The surviving elements keep the order of their first occurrences in the
   * input.
   */
  lemma {:induction false} DistinctKeepsFirstOccurrenceOrder<T>(xs: seq<T>)
    ensures forall x :: x in Distinct(xs) ==> x in xs
    ensures forall i, j :: 0 <= i < j < |Distinct(xs)| ==>
      FirstIndex(xs, Distinct(xs)[i]) < FirstIndex(xs, Distinct(xs)[j])
    decreases |xs|
  {
    DistinctSameElements(xs);
    if xs != [] {
      var n := |xs| - 1;
      var init := xs[..n];
      var p := Distinct(init);
      DistinctKeepsFirstOccurrenceOrder(init);
      DistinctSameElements(init);
      var r := Distinct(xs);
      forall i, j | 0 <= i < j < |r|
        ensures FirstIndex(xs, r[i]) < FirstIndex(xs, r[j])
      {
        FirstIndexOfPrefix(xs, n, r[i]);
        if j < |p| {
          FirstIndexOfPrefix(xs, n, r[j]);
        } else {
          assert r[j] == xs[n] && r[j] !in init;
          var k := FirstIndex(xs, r[j]);
        }
      }
    }
  }

  /** Both lists are present and free of duplicates. */
  ghost predicate Cleaned(c: Configuration) {
    && c.vehiclesPrefabs.Some? && NoDuplicates(c.vehiclesPrefabs.value)
    && c.blockedItems.Some? && NoDuplicates(c.blockedItems.value)
  }

  /**
   * The configuration in effect after loading. `read` is what
   * `Config.ReadObject` produced, `None` when it gave null or threw. A null
   * list makes `Distinct` throw, which lands in the same fallback.
   */
  function LoadedConfig(read: Option<Configuration>): (c: Configuration)
    ensures Cleaned(c)
    ensures read.Some? && read.value.vehiclesPrefabs.Some? && read.value.blockedItems.Some? ==>
      && c.version == read.value.version
      && c.requireAllItems == read.value.requireAllItems
      && (forall v :: v in c.vehiclesPrefabs.value <==> v in read.value.vehiclesPrefabs.value)
      && (forall b :: b in c.blockedItems.value <==> b in read.value.blockedItems.value)
    ensures !(read.Some? && read.value.vehiclesPrefabs.Some? && read.value.blockedItems.Some?) ==>
      c == DefaultConfiguration
  {
    match read
    case Some(cfg) =>
      if cfg.vehiclesPrefabs.Some? && cfg.blockedItems.Some? then
        var vs, bs := cfg.vehiclesPrefabs.value, cfg.blockedItems.value;
        DistinctNoDuplicates(vs);
        DistinctNoDuplicates(bs);
        DistinctSameElements(vs);
        DistinctSameElements(bs);
        cfg.(vehiclesPrefabs := Some(Distinct(vs)), blockedItems := Some(Distinct(bs)))
      else
        DefaultCleaned();
        DefaultConfiguration
    case None =>
      DefaultCleaned();
      DefaultConfiguration
  }

  /** The built-in defaults already satisfy what cleaning establishes. */
  lemma DefaultCleaned()
    ensures Cleaned(DefaultConfiguration)
    ensures !DefaultConfiguration.requireAllItems
  {
  }

  /** Loading a configuration that was loaded and saved before changes nothing. */
  lemma LoadedConfigIdempotent(read: Option<Configuration>)
    ensures LoadedConfig(Some(LoadedConfig(read))) == LoadedConfig(read)
  {
    var c := LoadedConfig(read);
    DistinctOfNoDuplicates(c.vehiclesPrefabs.value);
    DistinctOfNoDuplicates(c.blockedItems.value);
  }
}
