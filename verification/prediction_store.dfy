/** `BallPredictionData`: the persisted store of per-layout search results,
    with `SaveData`, `LoadData` and `ClearData`. A target is persisted by name
    and recovered on load through `GameObject.Find`, here the `resolve`
    parameter; a name that does not resolve is dropped. */
module PredictionStore {
  import opened Wrappers
  import opened ForceRanges
  import opened Records

  datatype TargetData = TargetData(
    targetName: string,
    targetPosition: Vec3,
    successfulPositions: seq<Vec2>,
    successfulForces: seq<Vec2>,
    successCount: nat,
    totalAttempts: nat,
    forceRanges: seq<Range>)

  datatype PinsConfigurationData = PinsConfigurationData(
    configurationName: string,
    targetDatas: seq<TargetData>,
    totalSimulationAttempts: nat,
    isDataValid: bool)

  datatype Store = Store(
    pinsConfigurations: seq<PinsConfigurationData>,
    currentConfigurationName: string)

  /** `GameObject.Find(name)?.transform`. */
  type Resolver = string -> Option<TargetId>

  /** Every entry can be read back: each recorded position has a force at the
      same index (`LoadData` indexes `successfulForces` by the positions' count). */
  predicate WellFormed(st: Store) {
    forall c, k | 0 <= c < |st.pinsConfigurations| && 0 <= k < |st.pinsConfigurations[c].targetDatas| ::
      |st.pinsConfigurations[c].targetDatas[k].successfulForces|
        >= |st.pinsConfigurations[c].targetDatas[k].successfulPositions|
  }

  /** `pinsConfigurations.Find(c => c.configurationName == name)`, as an index. */
  function Find(configs: seq<PinsConfigurationData>, name: string): (r: Option<nat>)
    ensures r.Some? ==> r.value < |configs| && configs[r.value].configurationName == name
    ensures r.Some? ==> forall j | 0 <= j < r.value :: configs[j].configurationName != name
    ensures r.None? <==> forall j | 0 <= j < |configs| :: configs[j].configurationName != name
    decreases |configs|
  {
    if |configs| == 0 then None
    else if configs[0].configurationName == name then Some(0)
    else match Find(configs[1..], name)
      case None => None
      case Some(k) => Some(k + 1)
  }

  /** The entry `Find` returns for `name`, if any. */
  function Entry(st: Store, name: string): (e: Option<PinsConfigurationData>)
    ensures e.Some? <==> exists j | 0 <= j < |st.pinsConfigurations| :: st.pinsConfigurations[j].configurationName == name
    ensures e.Some? ==> e.value.configurationName == name && e.value in st.pinsConfigurations
  {
    match Find(st.pinsConfigurations, name)
    case None => None
    case Some(k) => Some(st.pinsConfigurations[k])
  }

  /** How many entries carry `name`. */
  function CountNamed(configs: seq<PinsConfigurationData>, name: string): nat
    decreases |configs|
  {
    if |configs| == 0 then 0
    else (if configs[0].configurationName == name then 1 else 0) + CountNamed(configs[1..], name)
  }

  /** `ClearData()`. */
  function Clear(st: Store): (r: Store)
    ensures r.pinsConfigurations == [] && r.currentConfigurationName == ""
  {
    Store([], "")
  }

  /** The launches of one target split into the two parallel lists the store keeps. */
  function Positions(ls: seq<Launch>): (r: seq<Vec2>)
    ensures |r| == |ls| && forall i | 0 <= i < |ls| :: r[i] == ls[i].position
  {
    seq(|ls|, i requires 0 <= i < |ls| => ls[i].position)
  }

  function Forces(ls: seq<Launch>): (r: seq<Vec2>)
    ensures |r| == |ls| && forall i | 0 <= i < |ls| :: r[i] == ls[i].force
  {
    seq(|ls|, i requires 0 <= i < |ls| => ls[i].force)
  }

  /** `LoadData`'s loop rebuilding the launch list from the two parallel lists. */
  function Zip(positions: seq<Vec2>, forces: seq<Vec2>): (r: seq<Launch>)
    requires |forces| >= |positions|
    ensures |r| == |positions|
    ensures forall i | 0 <= i < |positions| :: r[i] == Launch(positions[i], forces[i])
  {
    seq(|positions|, i requires 0 <= i < |positions| => Launch(positions[i], forces[i]))
  }

  /** Splitting a launch list and zipping it back gives it back. */
  lemma ZipPositionsForces(ls: seq<Launch>)
    ensures Zip(Positions(ls), Forces(ls)) == ls
  {
  }

  /** The `TargetData` `SaveData` writes for target `t`: its launches as two
      index-aligned lists, its statistics if it has any (else zero), its
      ranges if it has any (else none). */
  function BuildTargetData(t: TargetId, target: Target, cache: Cache): (td: TargetData)
    requires t in cache.launches
    ensures td.targetName == target.name
    ensures |td.successfulPositions| == |td.successfulForces| == |cache.launches[t]|
    ensures forall k | 0 <= k < |cache.launches[t]| ::
      Launch(td.successfulPositions[k], td.successfulForces[k]) == cache.launches[t][k]
    ensures t in cache.rates ==>
      td.successCount == cache.rates[t].successCount && td.totalAttempts == cache.rates[t].totalAttempts
    ensures t !in cache.rates ==> td.successCount == 0 && td.totalAttempts == 0
    ensures t in cache.ranges ==> td.forceRanges == cache.ranges[t]
    ensures t !in cache.ranges ==> td.forceRanges == []
  {
    var ls := cache.launches[t];
    var st := MapGetOr(cache.rates, t, Stats(0, 0));
    TargetData(target.name, target.position, Positions(ls), Forces(ls),
               st.successCount, st.totalAttempts, MapGetOr(cache.ranges, t, []))
  }

  /** `order` is the order in which the dictionary enumerates the keys of `launches`. */
  predicate Enumerates<V>(order: seq<TargetId>, m: map<TargetId, V>) {
    Distinct(order) && (forall i | 0 <= i < |order| :: order[i] in m)
      && (forall t | t in m :: t in order)
  }

  predicate SaveArgs(cache: Cache, order: seq<TargetId>, targets: seq<Target>) {
    Enumerates(order, cache.launches) && forall t | t in cache.launches :: t < |targets|
  }

  /** One `TargetData` per key of `launchParamsCache`, in enumeration order. */
  function BuildTargetDatas(order: seq<TargetId>, targets: seq<Target>, cache: Cache): (tds: seq<TargetData>)
    requires forall i | 0 <= i < |order| :: order[i] in cache.launches && order[i] < |targets|
    ensures |tds| == |order|
    ensures forall i | 0 <= i < |order| :: tds[i] == BuildTargetData(order[i], targets[order[i]], cache)
    ensures Aligned(tds)
  {
    seq(|order|, i requires 0 <= i < |order| && order[i] in cache.launches && order[i] < |targets| =>
      BuildTargetData(order[i], targets[order[i]], cache))
  }

  /** The entry `SaveData` leaves under `name`. */
  function SavedEntry(name: string, cache: Cache, order: seq<TargetId>, targets: seq<Target>, total: nat)
    : PinsConfigurationData
    requires SaveArgs(cache, order, targets)
  {
    PinsConfigurationData(name, BuildTargetDatas(order, targets, cache), total, true)
  }

  /** `SaveData(name, launchParamsCache, successRates, targetForceRanges, totalAttempts)`:
      find or create the entry, then replace its contents wholesale. */
  function Save(st: Store, name: string, cache: Cache, order: seq<TargetId>, targets: seq<Target>, total: nat)
    : (r: Store)
    requires SaveArgs(cache, order, targets)
    // an existing entry is overwritten in place, otherwise one is appended
    ensures Find(st.pinsConfigurations, name).Some? ==>
      var k := Find(st.pinsConfigurations, name).value;
      && |r.pinsConfigurations| == |st.pinsConfigurations|
      && r.pinsConfigurations[k].configurationName == name
      && (forall j | 0 <= j < |st.pinsConfigurations| && j != k ::
            r.pinsConfigurations[j] == st.pinsConfigurations[j])
    ensures Find(st.pinsConfigurations, name).None? ==>
      && |r.pinsConfigurations| == |st.pinsConfigurations| + 1
      && r.pinsConfigurations[..|st.pinsConfigurations|] == st.pinsConfigurations
      && r.pinsConfigurations[|st.pinsConfigurations|].configurationName == name
    // the entry under `name` is valid, counts `total` and holds exactly the launch targets
    ensures Find(r.pinsConfigurations, name).Some?
    ensures var e := r.pinsConfigurations[Find(r.pinsConfigurations, name).value];
      && e.isDataValid
      && e.totalSimulationAttempts == total
      && |e.targetDatas| == |cache.launches|
    ensures r.currentConfigurationName == name
    ensures WellFormed(st) ==> WellFormed(r)
  {
    var entry := SavedEntry(name, cache, order, targets, total);
    var configs := st.pinsConfigurations;
    EnumeratesCount(order, cache.launches);
    match Find(configs, name)
    case Some(k) =>
      var r := Store(configs[k := entry], name);
      FindUnique(r.pinsConfigurations, name, k);
      r
    case None =>
      var r := Store(configs + [entry], name);
      FindUnique(r.pinsConfigurations, name, |configs|);
      r
  }

  /** `Find` returns the first index carrying the name. */
  lemma FindUnique(configs: seq<PinsConfigurationData>, name: string, k: nat)
    requires k < |configs| && configs[k].configurationName == name
    requires forall j | 0 <= j < k :: configs[j].configurationName != name
    ensures Find(configs, name) == Some(k)
  {
  }

  lemma EnumeratesCount<V>(order: seq<TargetId>, m: map<TargetId, V>)
    requires Enumerates(order, m)
    ensures |order| == |m|
  {
    DistinctCard(order);
    assert m.Keys == set i | 0 <= i < |order| :: order[i];
  }

  lemma {:induction false} DistinctCard(s: seq<TargetId>)
    requires Distinct(s)
    ensures |set i | 0 <= i < |s| :: s[i]| == |s|
    decreases |s|
  {
    if |s| > 0 {
      var init := s[..|s| - 1];
      DistinctCard(init);
      var a := set i | 0 <= i < |init| :: init[i];
      var b := set i | 0 <= i < |s| :: s[i];
      assert b == a + {s[|s| - 1]};
      assert s[|s| - 1] !in a;
    }
  }

  /** Save creates a new entry only when none has the name, and never a second one. */
  lemma SaveKeepsNameUnique(st: Store, name: string, cache: Cache, order: seq<TargetId>, targets: seq<Target>, total: nat)
    requires SaveArgs(cache, order, targets)
    requires CountNamed(st.pinsConfigurations, name) <= 1
    ensures CountNamed(Save(st, name, cache, order, targets, total).pinsConfigurations, name) == 1
    ensures Find(st.pinsConfigurations, name).Some? ==>
      |Save(st, name, cache, order, targets, total).pinsConfigurations| == |st.pinsConfigurations|
  {
    var configs := st.pinsConfigurations;
    var r := Save(st, name, cache, order, targets, total).pinsConfigurations;
    match Find(configs, name)
    case Some(k) =>
      CountAfterReplace(configs, name, k, r[k]);
      CountPositive(configs, name, k);
    case None =>
      CountNone(configs, name);
      CountAppend(configs, name, r[|configs|]);
      assert r == configs + [r[|configs|]];
  }

  lemma {:induction false} CountNone(configs: seq<PinsConfigurationData>, name: string)
    requires forall j | 0 <= j < |configs| :: configs[j].configurationName != name
    ensures CountNamed(configs, name) == 0
    decreases |configs|
  {
    if |configs| > 0 {
      CountNone(configs[1..], name);
    }
  }

  lemma {:induction false} CountPositive(configs: seq<PinsConfigurationData>, name: string, k: nat)
    requires k < |configs| && configs[k].configurationName == name
    ensures CountNamed(configs, name) >= 1
    decreases |configs|
  {
    if k > 0 {
      CountPositive(configs[1..], name, k - 1);
    }
  }

  lemma {:induction false} CountAfterReplace(configs: seq<PinsConfigurationData>, name: string, k: nat, e: PinsConfigurationData)
    requires k < |configs| && configs[k].configurationName == name && e.configurationName == name
    ensures CountNamed(configs[k := e], name) == CountNamed(configs, name)
    decreases |configs|
  {
    if k > 0 {
      CountAfterReplace(configs[1..], name, k - 1, e);
      assert configs[k := e][1..] == configs[1..][k - 1 := e];
    } else {
      assert configs[k := e][1..] == configs[1..];
    }
  }

  lemma {:induction false} CountAppend(configs: seq<PinsConfigurationData>, name: string, e: PinsConfigurationData)
    ensures CountNamed(configs + [e], name) ==
      CountNamed(configs, name) + (if e.configurationName == name then 1 else 0)
    decreases |configs|
  {
    if |configs| > 0 {
      CountAppend(configs[1..], name, e);
      assert (configs + [e])[1..] == configs[1..] + [e];
    }
  }

  /** The targets named by some entry, as resolved now. */
  function Resolved(tds: seq<TargetData>, resolve: Resolver): (r: set<TargetId>)
    ensures forall i | 0 <= i < |tds| && resolve(tds[i].targetName).Some? ::
      resolve(tds[i].targetName).value in r
    ensures forall t | t in r :: exists i | 0 <= i < |tds| :: resolve(tds[i].targetName) == Some(t)
    decreases |tds|
  {
    if |tds| == 0 then {}
    else
      var init := Resolved(tds[..|tds| - 1], resolve);
      assert forall i | 0 <= i < |tds| - 1 :: tds[..|tds| - 1][i] == tds[i];
      match resolve(tds[|tds| - 1].targetName)
      case None => init
      case Some(t) => init + {t}
  }

  /** `tds[i]` is the last entry resolving to its target. */
  predicate LastFor(tds: seq<TargetData>, resolve: Resolver, i: nat)
    requires i < |tds|
  {
    forall j | i < j < |tds| :: resolve(tds[j].targetName) != resolve(tds[i].targetName)
  }

  predicate Aligned(tds: seq<TargetData>) {
    forall k | 0 <= k < |tds| :: |tds[k].successfulForces| >= |tds[k].successfulPositions|
  }

  /** `LoadData`'s loop over the entry's `targetDatas`: each entry whose name
      resolves overwrites that target in all three maps. */
  function LoadTargets(tds: seq<TargetData>, resolve: Resolver): (c: Cache)
    requires Aligned(tds)
    // exactly the targets whose names resolve are loaded, into all three maps
    ensures c.launches.Keys == Resolved(tds, resolve)
    ensures c.rates.Keys == Resolved(tds, resolve)
    ensures c.ranges.Keys == Resolved(tds, resolve)
    decreases |tds|
  {
    if |tds| == 0 then EmptyCache
    else
      var c := LoadTargets(tds[..|tds| - 1], resolve);
      var td := tds[|tds| - 1];
      match resolve(td.targetName)
      case None => c
      case Some(t) =>
        Cache(c.launches[t := Zip(td.successfulPositions, td.successfulForces)],
              c.rates[t := Stats(td.successCount, td.totalAttempts)],
              c.ranges[t := td.forceRanges])
  }

  /** A target's loaded data comes from the last entry resolving to it, so a
      later entry overwrites an earlier one. */
  lemma {:induction false} LoadTargetsLast(tds: seq<TargetData>, resolve: Resolver, i: nat)
    requires Aligned(tds) && i < |tds|
    requires resolve(tds[i].targetName).Some? && LastFor(tds, resolve, i)
    ensures var c := LoadTargets(tds, resolve);
      var t := resolve(tds[i].targetName).value;
      && t in c.launches && t in c.rates && t in c.ranges
      && c.launches[t] == Zip(tds[i].successfulPositions, tds[i].successfulForces)
      && c.rates[t] == Stats(tds[i].successCount, tds[i].totalAttempts)
      && c.ranges[t] == tds[i].forceRanges
    decreases |tds|
  {
    var init := tds[..|tds| - 1];
    if i < |tds| - 1 {
      assert init[i] == tds[i];
      assert LastFor(init, resolve, i) by {
        forall j | i < j < |init| ensures resolve(init[j].targetName) != resolve(init[i].targetName) {
          assert init[j] == tds[j];
        }
      }
      LoadTargetsLast(init, resolve, i);
      assert resolve(tds[|tds| - 1].targetName) != resolve(tds[i].targetName);
    }
  }

  /** What a `LoadData` call returns and leaves behind. */
  datatype Loaded = Loaded(ok: bool, cache: Cache, store: Store)

  /** The entry under `name` exists and is marked valid. */
  predicate Loadable(st: Store, name: string) {
    var f := Find(st.pinsConfigurations, name);
    f.Some? && st.pinsConfigurations[f.value].isDataValid
  }

  /** `LoadData(name, out launchParamsCache, out successRates, out targetForceRanges)`. */
  function Load(st: Store, name: string, resolve: Resolver): (r: Loaded)
    requires WellFormed(st)
    // a missing or invalid entry: false, three empty maps, store untouched
    ensures !r.ok <==> !Loadable(st, name)
    ensures !r.ok ==> r.cache == EmptyCache && r.store == st
    // otherwise: true, and the entry becomes the current configuration
    ensures r.ok ==>
      && r.store == st.(currentConfigurationName := name)
      && r.cache == LoadTargets(st.pinsConfigurations[Find(st.pinsConfigurations, name).value].targetDatas, resolve)
    ensures WellFormed(r.store)
  {
    match Find(st.pinsConfigurations, name)
    case None => Loaded(false, EmptyCache, st)
    case Some(k) =>
      var config := st.pinsConfigurations[k];
      if !config.isDataValid then Loaded(false, EmptyCache, st)
      else Loaded(true, LoadTargets(config.targetDatas, resolve), st.(currentConfigurationName := name))
  }

  /** What a save persists: only targets with launches, with zero statistics
      and no ranges where the other dictionaries had no entry. */
  function Persisted(cache: Cache): Cache {
    Cache(cache.launches,
          map t | t in cache.launches :: MapGetOr(cache.rates, t, Stats(0, 0)),
          map t | t in cache.launches :: MapGetOr(cache.ranges, t, []))
  }

  /** The entry a save leaves under its name holds the built target list. */
  lemma SavedTargets(st: Store, name: string, cache: Cache, order: seq<TargetId>, targets: seq<Target>, total: nat)
    requires SaveArgs(cache, order, targets)
    ensures var s := Save(st, name, cache, order, targets, total);
      s.pinsConfigurations[Find(s.pinsConfigurations, name).value] == SavedEntry(name, cache, order, targets, total)
  {
    var s := Save(st, name, cache, order, targets, total);
    if Find(st.pinsConfigurations, name).Some? {
      FindUnique(s.pinsConfigurations, name, Find(st.pinsConfigurations, name).value);
    } else {
      FindUnique(s.pinsConfigurations, name, |st.pinsConfigurations|);
    }
  }

  /** The names a save wrote resolve to exactly the saved targets. */
  lemma ResolvedBuilt(cache: Cache, order: seq<TargetId>, targets: seq<Target>, resolve: Resolver)
    requires SaveArgs(cache, order, targets)
    requires forall t | t in cache.launches :: resolve(targets[t].name) == Some(t)
    ensures forall i | 0 <= i < |order| ::
      resolve(BuildTargetDatas(order, targets, cache)[i].targetName) == Some(order[i])
    ensures Resolved(BuildTargetDatas(order, targets, cache), resolve) == cache.launches.Keys
  {
    BuiltNamesResolve(cache, order, targets, resolve);
    ResolvedWithinBuilt(cache, order, targets, resolve);
    BuiltWithinResolved(cache, order, targets, resolve);
  }

  /** Saved target `i` is named so that it resolves to `order[i]`. */
  lemma BuiltNamesResolve(cache: Cache, order: seq<TargetId>, targets: seq<Target>, resolve: Resolver)
    requires SaveArgs(cache, order, targets)
    requires forall t | t in cache.launches :: resolve(targets[t].name) == Some(t)
    ensures forall i | 0 <= i < |order| ::
      resolve(BuildTargetDatas(order, targets, cache)[i].targetName) == Some(order[i])
  {
    var tds := BuildTargetDatas(order, targets, cache);
    forall i | 0 <= i < |order| ensures resolve(tds[i].targetName) == Some(order[i]) {
      assert tds[i].targetName == targets[order[i]].name;
    }
  }

  /** Every target the saved names resolve to was a key of the cache. */
  lemma ResolvedWithinBuilt(cache: Cache, order: seq<TargetId>, targets: seq<Target>, resolve: Resolver)
    requires SaveArgs(cache, order, targets)
    requires forall i | 0 <= i < |order| ::
      resolve(BuildTargetDatas(order, targets, cache)[i].targetName) == Some(order[i])
    ensures Resolved(BuildTargetDatas(order, targets, cache), resolve) <= cache.launches.Keys
  {
    var tds := BuildTargetDatas(order, targets, cache);
    forall t | t in Resolved(tds, resolve) ensures t in cache.launches {
      var i :| 0 <= i < |tds| && resolve(tds[i].targetName) == Some(t);
      assert order[i] == t;
    }
  }

  /** Every key of the cache is resolved to by some saved name. */
  lemma BuiltWithinResolved(cache: Cache, order: seq<TargetId>, targets: seq<Target>, resolve: Resolver)
    requires SaveArgs(cache, order, targets)
    requires forall i | 0 <= i < |order| ::
      resolve(BuildTargetDatas(order, targets, cache)[i].targetName) == Some(order[i])
    ensures cache.launches.Keys <= Resolved(BuildTargetDatas(order, targets, cache), resolve)
  {
    var tds := BuildTargetDatas(order, targets, cache);
    forall t | t in cache.launches ensures t in Resolved(tds, resolve) {
      var i :| 0 <= i < |order| && order[i] == t;
      assert resolve(tds[i].targetName) == Some(t);
    }
  }

  lemma LoadBuiltKey(cache: Cache, order: seq<TargetId>, targets: seq<Target>, resolve: Resolver, i: nat)
    requires SaveArgs(cache, order, targets) && i < |order|
    requires forall t | t in cache.launches :: resolve(targets[t].name) == Some(t)
    ensures Aligned(BuildTargetDatas(order, targets, cache))
    ensures var c := LoadTargets(BuildTargetDatas(order, targets, cache), resolve);
      var t := order[i];
      && t in c.launches && t in c.rates && t in c.ranges
      && c.launches[t] == cache.launches[t]
      && c.rates[t] == MapGetOr(cache.rates, t, Stats(0, 0))
      && c.ranges[t] == MapGetOr(cache.ranges, t, [])
  {
    var tds := BuildTargetDatas(order, targets, cache);
    ResolvedBuilt(cache, order, targets, resolve);
    assert LastFor(tds, resolve, i);
    LoadTargetsLast(tds, resolve, i);
    ZipPositionsForces(cache.launches[order[i]]);
  }

  /** Loading the target list a save built, with every name resolving back to
      its target, gives back what was persisted. */
  lemma LoadBuiltTargets(cache: Cache, order: seq<TargetId>, targets: seq<Target>, resolve: Resolver)
    requires SaveArgs(cache, order, targets)
    requires forall t | t in cache.launches :: resolve(targets[t].name) == Some(t)
    ensures Aligned(BuildTargetDatas(order, targets, cache))
    ensures LoadTargets(BuildTargetDatas(order, targets, cache), resolve) == Persisted(cache)
  {
    var tds := BuildTargetDatas(order, targets, cache);
    var c := LoadTargets(tds, resolve);
    var p := Persisted(cache);
    ResolvedBuilt(cache, order, targets, resolve);
    assert c.launches.Keys == p.launches.Keys;
    assert c.rates.Keys == p.rates.Keys;
    assert c.ranges.Keys == p.ranges.Keys;
    forall t | t in cache.launches
      ensures c.launches[t] == p.launches[t]
      ensures c.rates[t] == p.rates[t]
      ensures c.ranges[t] == p.ranges[t]
    {
      var i :| 0 <= i < |order| && order[i] == t;
      LoadBuiltKey(cache, order, targets, resolve, i);
    }
    MapExtensional(c.launches, p.launches);
    MapExtensional(c.rates, p.rates);
    MapExtensional(c.ranges, p.ranges);
  }

  lemma MapExtensional<K, V>(a: map<K, V>, b: map<K, V>)
    requires a.Keys == b.Keys && forall k | k in a :: a[k] == b[k]
    ensures a == b
  {
  }

  /** Saving under a name and loading that name, with every saved target's
      name resolving back to that target, gives back what was persisted. */
  lemma SaveThenLoad(st: Store, name: string, cache: Cache, order: seq<TargetId>,
                     targets: seq<Target>, total: nat, resolve: Resolver)
    requires SaveArgs(cache, order, targets) && WellFormed(st)
    requires forall t | t in cache.launches :: resolve(targets[t].name) == Some(t)
    ensures var s := Save(st, name, cache, order, targets, total);
      var l := Load(s, name, resolve);
      l.ok && l.cache == Persisted(cache) && l.store.currentConfigurationName == name
  {
    SavedTargets(st, name, cache, order, targets, total);
    LoadBuiltTargets(cache, order, targets, resolve);
  }

  /** Which configuration is current does not change what a load returns. */
  lemma LoadIgnoresCurrentName(st: Store, current: string, name: string, resolve: Resolver)
    requires WellFormed(st)
    ensures Load(st.(currentConfigurationName := current), name, resolve).ok == Load(st, name, resolve).ok
    ensures Load(st.(currentConfigurationName := current), name, resolve).cache == Load(st, name, resolve).cache
  {
  }

  /** After a clear nothing loads. */
  lemma ClearThenLoad(st: Store, name: string, resolve: Resolver)
    ensures !Load(Clear(st), name, resolve).ok
    ensures Load(Clear(st), name, resolve).cache == EmptyCache
  {
  }

  /** Saving one name changes neither another name's entry nor whether it loads. */
  lemma SaveKeepsOtherEntries(st: Store, name: string, other: string, cache: Cache, order: seq<TargetId>,
                              targets: seq<Target>, total: nat)
    requires SaveArgs(cache, order, targets) && name != other
    ensures Entry(Save(st, name, cache, order, targets, total), other) == Entry(st, other)
    ensures Loadable(Save(st, name, cache, order, targets, total), other) == Loadable(st, other)
  {
    var s := Save(st, name, cache, order, targets, total);
    var a := st.pinsConfigurations;
    var b := s.pinsConfigurations;
    match Find(a, other)
    case None =>
      assert forall j | 0 <= j < |b| :: b[j].configurationName != other;
    case Some(k) =>
      FindUnique(b, other, k);
  }

  /** After a save, the entry under the name is exactly the one the save built. */
  lemma SaveEntry(st: Store, name: string, cache: Cache, order: seq<TargetId>, targets: seq<Target>, total: nat)
    requires SaveArgs(cache, order, targets)
    ensures Entry(Save(st, name, cache, order, targets, total), name) == Some(SavedEntry(name, cache, order, targets, total))
  {
    SavedTargets(st, name, cache, order, targets, total);
  }

  /** What a load returns depends only on the entry under the name. */
  lemma LoadByEntry(a: Store, b: Store, name: string, resolve: Resolver)
    requires WellFormed(a) && WellFormed(b) && Entry(a, name) == Entry(b, name)
    ensures Load(a, name, resolve).ok == Load(b, name, resolve).ok
    ensures Load(a, name, resolve).cache == Load(b, name, resolve).cache
  {
  }

  /** An entry a save built loads back as what was persisted, when every
      saved target's name resolves back to it. */
  lemma SavedEntryLoads(st: Store, name: string, cache: Cache, order: seq<TargetId>, targets: seq<Target>,
                        total: nat, resolve: Resolver)
    requires SaveArgs(cache, order, targets) && WellFormed(st)
    requires Entry(st, name) == Some(SavedEntry(name, cache, order, targets, total))
    requires forall t | t in cache.launches :: resolve(targets[t].name) == Some(t)
    ensures Load(st, name, resolve).ok && Load(st, name, resolve).cache == Persisted(cache)
  {
    LoadBuiltTargets(cache, order, targets, resolve);
  }
}
