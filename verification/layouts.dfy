/** The pin-layout side of `BallPredictionController`: `OnValidate`'s index
    clamp, `UpdatePinsConfiguration`, and the sweep `PrecomputeAllConfigurations`
    that activates each layout in turn, loads its stored data or recomputes it
    with the coverage loop, and finally restores the layout that was current.

    A layout's `GameObject` is reduced to its active flag. Coroutine yields
    change no state and are left out. */
module Layouts {
  import opened Wrappers
  import opened Decimal
  import opened Records
  import opened Coverage
  import opened PredictionStore

  const KeyPrefix: string := "PinsConfig_"

  /** The store key of layout `i`: `$"PinsConfig_{i}"`. The number after the
      prefix reads back as `i`. */
  function ConfigKey(i: int): (k: string)
    ensures |k| > |KeyPrefix| && k[..|KeyPrefix|] == KeyPrefix
    ensures IsInt32(i) ==> ParseInt32(k[|KeyPrefix|..]) == Success(i)
  {
    var k := KeyPrefix + IntToString(i);
    assert k[|KeyPrefix|..] == IntToString(i);
    ParseIntToString(i);
    k
  }

  /** Different layouts are stored under different keys. */
  lemma ConfigKeyInjective(i: int, j: int)
    requires ConfigKey(i) == ConfigKey(j)
    ensures i == j
  {
    var p := KeyPrefix;
    assert ConfigKey(i)[|p|..] == IntToString(i);
    assert ConfigKey(j)[|p|..] == IntToString(j);
    IntToStringInjective(i, j);
  }

  /** `pinsList[j].SetActive(j == i)` for every `j`. */
  function Exclusive(count: nat, i: int): (a: seq<bool>)
    ensures |a| == count
    ensures forall j | 0 <= j < count :: a[j] <==> j == i
  {
    seq(count, j => j == i)
  }

  /** The controller state the layout code touches: the layouts' active flags,
      `currentPinsIndex`, the three dictionaries, and the store. */
  datatype Controller = Controller(
    pinsActive: seq<bool>,
    currentPinsIndex: int,
    cache: Cache,
    store: Store)

  /** `Mathf.Clamp(currentPinsIndex, 0, pinsList.Length - 1)`, skipped for an empty list. */
  function ClampIndex(index: int, count: nat): (r: int)
    ensures count == 0 ==> r == index
    ensures count > 0 ==> 0 <= r < count
    ensures count > 0 && 0 <= index < count ==> r == index
    ensures count > 0 && index < 0 ==> r == 0
    ensures count > 0 && index >= count ==> r == count - 1
  {
    if count == 0 then index
    else if index < 0 then 0
    else if index > count - 1 then count - 1
    else index
  }

  /** `UpdatePinsConfiguration()`: show only the current layout and load its data. */
  function UpdatePinsConfiguration(c: Controller, resolve: Resolver): (r: Controller)
    requires WellFormed(c.store)
    ensures |c.pinsActive| == 0 ==> r == c
    ensures |c.pinsActive| > 0 ==>
      && r.pinsActive == Exclusive(|c.pinsActive|, c.currentPinsIndex)
      && r.currentPinsIndex == c.currentPinsIndex
      && r.cache == Load(c.store, ConfigKey(c.currentPinsIndex), resolve).cache
      && r.store == Load(c.store, ConfigKey(c.currentPinsIndex), resolve).store
    ensures WellFormed(r.store)
  {
    if |c.pinsActive| == 0 then c
    else
      var l := Load(c.store, ConfigKey(c.currentPinsIndex), resolve);
      c.(pinsActive := Exclusive(|c.pinsActive|, c.currentPinsIndex), cache := l.cache, store := l.store)
  }

  /** `OnValidate()`: clamp the index, and while playing refresh the layouts
      (one frame later, which changes nothing here). */
  function OnValidate(c: Controller, playing: bool, resolve: Resolver): (r: Controller)
    requires WellFormed(c.store)
    ensures |c.pinsActive| == 0 ==> r == c
    ensures |r.pinsActive| == |c.pinsActive|
    ensures |c.pinsActive| > 0 ==> r.currentPinsIndex == ClampIndex(c.currentPinsIndex, |c.pinsActive|)
    ensures |c.pinsActive| > 0 ==> 0 <= r.currentPinsIndex < |c.pinsActive|
    // while playing, exactly the clamped layout ends up active
    ensures |c.pinsActive| > 0 && playing ==>
      && r.pinsActive[r.currentPinsIndex]
      && forall j | 0 <= j < |r.pinsActive| && j != r.currentPinsIndex :: !r.pinsActive[j]
    // ... and its stored data is loaded
    ensures |c.pinsActive| > 0 && playing ==>
      var l := Load(c.store, ConfigKey(ClampIndex(c.currentPinsIndex, |c.pinsActive|)), resolve);
      r.cache == l.cache && r.store == l.store
    ensures !playing ==> r.pinsActive == c.pinsActive && r.cache == c.cache && r.store == c.store
  {
    if |c.pinsActive| == 0 then c
    else
      var clamped := c.(currentPinsIndex := ClampIndex(c.currentPinsIndex, |c.pinsActive|));
      if playing then UpdatePinsConfiguration(clamped, resolve) else clamped
  }

  /** `PrecomputeAllTargets()` for the current layout: with no targets it stops
      at once; otherwise it runs the coverage loop from a cleared state and, if
      the loop finishes, saves the result under the current layout's key.
      `None` means the draws ran out first (the source would keep looping). */
  function PrecomputeAllTargets(c: Controller, cfg: Config, draws: seq<Draw>): (r: Option<Controller>)
    requires ValidSim(cfg) && WellFormed(c.store)
    requires forall k | 0 <= k < |draws| :: draws[k].Valid()
    ensures |cfg.targets| == 0 ==> r == Some(c)
    // it gives up only when the draws run out before every quota is met
    ensures r.None? <==> |cfg.targets| > 0 && !Run(cfg, Init(cfg), draws).1
    // the loop's dictionaries become the cache, and are saved under the layout's key
    ensures r.Some? && |cfg.targets| > 0 ==>
      var run := Run(cfg, Init(cfg), draws).0;
      && r.value.cache == SweepCache(run)
      && SaveArgs(SweepCache(run), run.hitOrder, cfg.targets)
      && r.value.store == Save(c.store, ConfigKey(c.currentPinsIndex), SweepCache(run), run.hitOrder,
                               cfg.targets, run.totalSimulationAttempts)
    ensures r.Some? ==>
      && r.value.pinsActive == c.pinsActive
      && r.value.currentPinsIndex == c.currentPinsIndex
      && WellFormed(r.value.store)
    // with targets, the layout's entry is valid afterwards and no other entry changed validity
    ensures r.Some? && |cfg.targets| > 0 ==> Loadable(r.value.store, ConfigKey(c.currentPinsIndex))
    ensures r.Some? ==> forall name | name != ConfigKey(c.currentPinsIndex) ::
      Loadable(r.value.store, name) == Loadable(c.store, name)
    ensures r.Some? ==> forall name | Loadable(c.store, name) :: Loadable(r.value.store, name)
  {
    if |cfg.targets| == 0 then Some(c)
    else
      var run := Run(cfg, Init(cfg), draws);
      var s := run.0;
      if !run.1 then None
      else
        var cache := SweepCache(s);
        var key := ConfigKey(c.currentPinsIndex);
        assert SaveArgs(cache, s.hitOrder, cfg.targets);
        var store := Save(c.store, key, cache, s.hitOrder, cfg.targets, s.totalSimulationAttempts);
        forall name | name != key
          ensures Loadable(store, name) == Loadable(c.store, name)
        {
          SaveKeepsOtherEntries(c.store, key, name, cache, s.hitOrder, cfg.targets, s.totalSimulationAttempts);
        }
        Some(c.(cache := cache, store := store))
  }

  /** `GameObject.Find` on each target's name finds that target. */
  predicate NamesResolve(targets: seq<Target>, resolve: Resolver) {
    forall t | 0 <= t < |targets| :: resolve(targets[t].name) == Some(t)
  }

  /** When every target's name resolves back to it, loading the layout right
      after a finished search gives back what was saved. */
  lemma PrecomputeThenLoad(c: Controller, cfg: Config, draws: seq<Draw>, resolve: Resolver)
    requires ValidSim(cfg) && WellFormed(c.store)
    requires forall k | 0 <= k < |draws| :: draws[k].Valid()
    requires |cfg.targets| > 0 && PrecomputeAllTargets(c, cfg, draws).Some?
    requires NamesResolve(cfg.targets, resolve)
    ensures var r := PrecomputeAllTargets(c, cfg, draws).value;
      var l := Load(r.store, ConfigKey(c.currentPinsIndex), resolve);
      l.ok && l.cache == Persisted(r.cache)
  {
    var run := Run(cfg, Init(cfg), draws).0;
    SavedRunLoads(c.store, ConfigKey(c.currentPinsIndex), cfg, run, resolve);
  }

  lemma SavedRunLoads(st: Store, key: string, cfg: Config, run: Sweep, resolve: Resolver)
    requires Inv(cfg, run) && WellFormed(st)
    requires NamesResolve(cfg.targets, resolve)
    ensures SaveArgs(SweepCache(run), run.hitOrder, cfg.targets)
    ensures var l := Load(Save(st, key, SweepCache(run), run.hitOrder, cfg.targets, run.totalSimulationAttempts),
                          key, resolve);
      l.ok && l.cache == Persisted(SweepCache(run))
  {
    SaveThenLoad(st, key, SweepCache(run), run.hitOrder, cfg.targets, run.totalSimulationAttempts, resolve);
  }

  /** What the sweep reads besides the controller: the shared settings, each
      layout's physics, the draws each layout's coverage loop consumes, the
      `forceRecalculate` flag and the scene's name lookup. */
  datatype SweepInputs = SweepInputs(
    cfg: Config,
    sims: seq<Sim>,
    draws: seq<seq<Draw>>,
    forceRecalculate: bool,
    resolve: Resolver)

  ghost predicate ValidInputs(inp: SweepInputs, layouts: nat) {
    && |inp.sims| == layouts && |inp.draws| == layouts
    && (forall i | 0 <= i < layouts :: ValidSim(inp.cfg.(sim := inp.sims[i])))
    && (forall i, k | 0 <= i < layouts && 0 <= k < |inp.draws[i]| :: inp.draws[i][k].Valid())
  }

  /** The coverage loop layout `i` runs when it is recomputed. */
  function LayoutRun(inp: SweepInputs, layouts: nat, i: nat): (s: Sweep)
    requires ValidInputs(inp, layouts) && i < layouts
    ensures Inv(inp.cfg.(sim := inp.sims[i]), s)
    ensures SaveArgs(SweepCache(s), s.hitOrder, inp.cfg.targets)
  {
    var cfg := inp.cfg.(sim := inp.sims[i]);
    Run(cfg, Init(cfg), inp.draws[i]).0
  }

  /** The entry a recomputed layout `i` leaves under its key. */
  function RecomputedEntry(inp: SweepInputs, layouts: nat, i: nat): PinsConfigurationData
    requires ValidInputs(inp, layouts) && i < layouts
  {
    var s := LayoutRun(inp, layouts, i);
    SavedEntry(ConfigKey(i), SweepCache(s), s.hitOrder, inp.cfg.targets, s.totalSimulationAttempts)
  }

  /** What happened to one layout during the sweep: which layouts were active
      while it was processed, the key it used, the store it started from, and
      whether its data was recomputed rather than loaded. */
  datatype Visit = Visit(index: nat, active: seq<bool>, key: string, storeBefore: Store, recomputed: bool)

  datatype Processed = Processed(ctrl: Controller, visit: Visit)

  /** One iteration of the `for` loop over `pinsList`. */
  function ProcessLayout(inp: SweepInputs, c: Controller, i: nat): (r: Option<Processed>)
    requires i < |c.pinsActive| && ValidInputs(inp, |c.pinsActive|) && WellFormed(c.store)
    ensures r.Some? ==>
      && r.value.ctrl.pinsActive == Exclusive(|c.pinsActive|, i)
      && r.value.ctrl.currentPinsIndex == i
      && r.value.visit == Visit(i, Exclusive(|c.pinsActive|, i), ConfigKey(i), c.store, r.value.visit.recomputed)
      && WellFormed(r.value.ctrl.store)
    // recompute happens iff forced or the stored entry is missing or invalid
    ensures r.Some? ==>
      r.value.visit.recomputed == (inp.forceRecalculate || !Loadable(c.store, ConfigKey(i)))
    ensures !inp.forceRecalculate && Loadable(c.store, ConfigKey(i)) ==> r.Some?
    // a loaded layout shows what its entry holds
    ensures r.Some? && !r.value.visit.recomputed ==>
      var l := Load(c.store, ConfigKey(i), inp.resolve);
      r.value.ctrl.cache == l.cache && r.value.ctrl.store == l.store
    // a recomputed layout shows what its coverage loop found, and the sweep
    // stops only when that loop runs out of draws
    ensures r.Some? && r.value.visit.recomputed && |inp.cfg.targets| > 0 ==>
      var s := LayoutRun(inp, |c.pinsActive|, i);
      && r.value.ctrl.cache == SweepCache(s)
      && r.value.ctrl.store == Save(c.store, ConfigKey(i), SweepCache(s), s.hitOrder, inp.cfg.targets,
                                    s.totalSimulationAttempts)
    // without targets no entry changes
    ensures r.Some? && |inp.cfg.targets| == 0 ==> r.value.ctrl.store.pinsConfigurations == c.store.pinsConfigurations
    ensures r.None? <==>
      var cfg := inp.cfg.(sim := inp.sims[i]);
      && (inp.forceRecalculate || !Loadable(c.store, ConfigKey(i)))
      && |inp.cfg.targets| > 0 && !Run(cfg, Init(cfg), inp.draws[i]).1
    // afterwards this layout's entry is valid, and no other entry changed validity
    ensures r.Some? && |inp.cfg.targets| > 0 ==> Loadable(r.value.ctrl.store, ConfigKey(i))
    ensures r.Some? ==> forall name | name != ConfigKey(i) ::
      Loadable(r.value.ctrl.store, name) == Loadable(c.store, name)
    ensures r.Some? ==> forall name | Loadable(c.store, name) :: Loadable(r.value.ctrl.store, name)
  {
    var active := Exclusive(|c.pinsActive|, i);
    var c1 := c.(currentPinsIndex := i, pinsActive := active);
    var key := ConfigKey(i);
    var cfg := inp.cfg.(sim := inp.sims[i]);
    if inp.forceRecalculate then
      match PrecomputeAllTargets(c1, cfg, inp.draws[i])
      case None => None
      case Some(c2) => Some(Processed(c2, Visit(i, active, key, c.store, true)))
    else
      var l := Load(c1.store, key, inp.resolve);
      var c2 := c1.(cache := l.cache, store := l.store);
      assert forall name :: Loadable(l.store, name) == Loadable(c.store, name);
      if l.ok then Some(Processed(c2, Visit(i, active, key, c.store, false)))
      else
        match PrecomputeAllTargets(c2, cfg, inp.draws[i])
        case None => None
        case Some(c3) => Some(Processed(c3, Visit(i, active, key, c.store, true)))
  }

  /** The entries after one iteration: layout `i`'s entry is the one its search
      saved when recomputed and is unchanged when loaded; every other key's
      entry is unchanged. */
  lemma ProcessLayoutEntries(inp: SweepInputs, c: Controller, i: nat)
    requires i < |c.pinsActive| && ValidInputs(inp, |c.pinsActive|) && WellFormed(c.store)
    requires ProcessLayout(inp, c, i).Some?
    ensures var r := ProcessLayout(inp, c, i).value;
      && (forall name | name != ConfigKey(i) :: Entry(r.ctrl.store, name) == Entry(c.store, name))
      && (!r.visit.recomputed || |inp.cfg.targets| == 0 ==>
            Entry(r.ctrl.store, ConfigKey(i)) == Entry(c.store, ConfigKey(i)))
      && (r.visit.recomputed && |inp.cfg.targets| > 0 ==>
            Entry(r.ctrl.store, ConfigKey(i)) == Some(RecomputedEntry(inp, |c.pinsActive|, i)))
  {
    var r := ProcessLayout(inp, c, i).value;
    if r.visit.recomputed && |inp.cfg.targets| > 0 {
      var s := LayoutRun(inp, |c.pinsActive|, i);
      var cache, total := SweepCache(s), s.totalSimulationAttempts;
      SaveEntry(c.store, ConfigKey(i), cache, s.hitOrder, inp.cfg.targets, total);
      forall name | name != ConfigKey(i) ensures Entry(r.ctrl.store, name) == Entry(c.store, name) {
        SaveKeepsOtherEntries(c.store, ConfigKey(i), name, cache, s.hitOrder, inp.cfg.targets, total);
      }
    } else {
      assert r.ctrl.store.pinsConfigurations == c.store.pinsConfigurations;
    }
  }

  /** Layout `i` has a key no other layout uses. */
  lemma KeysOfOtherLayoutsDiffer(i: int)
    ensures forall k | k != i :: ConfigKey(k) != ConfigKey(i)
  {
    forall k | k != i ensures ConfigKey(k) != ConfigKey(i) {
      if ConfigKey(k) == ConfigKey(i) {
        ConfigKeyInjective(k, i);
      }
    }
  }

  /** The loop of `PrecomputeAllConfigurations()`: layouts `0..n-1` in order,
      each shown alone and loaded or recomputed, stopping at the first whose
      search runs out of draws. */
  method VisitLayouts(inp: SweepInputs, c: Controller)
    returns (ok: bool, ctrl: Controller, log: seq<Visit>)
    requires ValidInputs(inp, |c.pinsActive|) && WellFormed(c.store)
    ensures |ctrl.pinsActive| == |c.pinsActive| && WellFormed(ctrl.store)
    ensures ok ==> |log| == |c.pinsActive|
    ensures ok ==> forall k | 0 <= k < |c.pinsActive| ::
      && log[k].index == k
      && log[k].active == Exclusive(|c.pinsActive|, k)
      && log[k].key == ConfigKey(k)
      && log[k].recomputed == (inp.forceRecalculate || !Loadable(c.store, ConfigKey(k)))
    ensures ok && |inp.cfg.targets| > 0 ==>
      forall k | 0 <= k < |c.pinsActive| :: Loadable(ctrl.store, ConfigKey(k))
    ensures ok ==> SweptEntries(inp, |c.pinsActive|, c.store, ctrl.store, log)
    ensures !inp.forceRecalculate && (forall k | 0 <= k < |c.pinsActive| :: Loadable(c.store, ConfigKey(k)))
      ==> ok
  {
    var count := |c.pinsActive|;
    ctrl := c;
    log := [];
    for i := 0 to count
      invariant |ctrl.pinsActive| == count && WellFormed(ctrl.store)
      invariant |log| == i
      invariant VisitedInOrder(inp, count, c.store, log)
      invariant SweptLoadable(inp, count, c.store, ctrl.store, i)
      invariant SweptEntries(inp, count, c.store, ctrl.store, log)
    {
      var p := ProcessLayout(inp, ctrl, i);
      if p.None? {
        return false, ctrl, log;
      }
      ProcessLayoutEntries(inp, ctrl, i);
      SweepStepVisit(inp, count, c.store, ctrl.store, i, log, p.value.visit);
      SweepStepLoadable(inp, count, c.store, ctrl.store, p.value.ctrl.store, i);
      SweepStepEntries(inp, count, c.store, ctrl.store, p.value.ctrl.store, i, log, p.value.visit);
      ctrl := p.value.ctrl;
      log := log + [p.value.visit];
    }
    return true, ctrl, log;
  }

  /** `PrecomputeAllConfigurations()`: for each layout in order, show it
      alone, load its entry or recompute it, then restore the original index
      and activation and load that layout's data. `ok` is false when some
      layout's coverage loop ran out of draws; the sweep stops there. */
  method PrecomputeAllConfigurations(inp: SweepInputs, c: Controller)
    returns (ok: bool, r: Controller, log: seq<Visit>)
    requires ValidInputs(inp, |c.pinsActive|) && WellFormed(c.store)
    ensures |r.pinsActive| == |c.pinsActive| && WellFormed(r.store)
    // layout k was processed k-th, alone active, under its own key
    ensures ok ==> |log| == |c.pinsActive|
    ensures ok ==> forall k | 0 <= k < |c.pinsActive| ::
      && log[k].index == k
      && log[k].active == Exclusive(|c.pinsActive|, k)
      && log[k].key == ConfigKey(k)
    // a layout is recomputed exactly when forced or when its own entry in the
    // starting store is missing or invalid
    ensures ok ==> forall k | 0 <= k < |c.pinsActive| ::
      log[k].recomputed == (inp.forceRecalculate || !Loadable(c.store, ConfigKey(k)))
    // the original layout is current and alone active again
    ensures ok ==>
      && r.currentPinsIndex == c.currentPinsIndex
      && r.pinsActive == Exclusive(|c.pinsActive|, c.currentPinsIndex)
    // with targets, every layout has a valid entry and the original one was loaded last
    ensures ok && |inp.cfg.targets| > 0 ==>
      forall k | 0 <= k < |c.pinsActive| :: Loadable(r.store, ConfigKey(k))
    ensures ok && |inp.cfg.targets| > 0 && 0 <= c.currentPinsIndex < |c.pinsActive| ==>
      r.store.currentConfigurationName == ConfigKey(c.currentPinsIndex)
    // the cache shown at the end is what the final store holds for the original layout
    ensures ok ==> r.cache == Load(r.store, ConfigKey(c.currentPinsIndex), inp.resolve).cache
    // each recomputed layout's entry is what its own search saved; every
    // other layout's entry is the one it started with
    ensures ok ==> forall k | 0 <= k < |c.pinsActive| ::
      Entry(r.store, ConfigKey(k)) ==
        if log[k].recomputed && |inp.cfg.targets| > 0 then Some(RecomputedEntry(inp, |c.pinsActive|, k))
        else Entry(c.store, ConfigKey(k))
    // so, when target names resolve, a recomputed layout loads what its search
    // found, and a loaded layout loads what it loaded at the start
    ensures ok && NamesResolve(inp.cfg.targets, inp.resolve) ==> forall k | 0 <= k < |c.pinsActive| ::
      var l := Load(r.store, ConfigKey(k), inp.resolve);
      if log[k].recomputed && |inp.cfg.targets| > 0 then
        l.ok && l.cache == Persisted(SweepCache(LayoutRun(inp, |c.pinsActive|, k)))
      else
        l.ok == Load(c.store, ConfigKey(k), inp.resolve).ok
        && l.cache == Load(c.store, ConfigKey(k), inp.resolve).cache
    // nothing can fail when every entry is already valid and recomputing is not forced
    ensures !inp.forceRecalculate && (forall k | 0 <= k < |c.pinsActive| :: Loadable(c.store, ConfigKey(k)))
      ==> ok
  {
    var count := |c.pinsActive|;
    var ctrl;
    ok, ctrl, log := VisitLayouts(inp, c);
    if !ok {
      return false, ctrl, log;
    }
    var orig := c.currentPinsIndex;
    var restored := ctrl.(currentPinsIndex := orig, pinsActive := Exclusive(count, orig));
    var l := Load(restored.store, ConfigKey(orig), inp.resolve);
    LoadIgnoresCurrentName(restored.store, ConfigKey(orig), ConfigKey(orig), inp.resolve);
    r := restored.(cache := l.cache, store := l.store);
    assert r.store.pinsConfigurations == ctrl.store.pinsConfigurations;
    assert SweptEntries(inp, count, c.store, r.store, log);
    if NamesResolve(inp.cfg.targets, inp.resolve) {
      EntriesLoad(inp, c, r.store, log);
    }
    return true, r, log;
  }

  /** After visiting the layouts in `log`, the store `st` holds, for each
      visited layout, what its search saved if it was recomputed and its
      starting entry otherwise; layouts not yet visited keep their starting
      entries. */
  ghost predicate SweptEntries(inp: SweepInputs, layouts: nat, start: Store, st: Store, log: seq<Visit>)
    requires ValidInputs(inp, layouts) && |log| <= layouts
  {
    && (forall k | |log| <= k < layouts :: Entry(st, ConfigKey(k)) == Entry(start, ConfigKey(k)))
    && (forall k | 0 <= k < |log| ::
          Entry(st, ConfigKey(k)) ==
            if log[k].recomputed && |inp.cfg.targets| > 0 then Some(RecomputedEntry(inp, layouts, k))
            else Entry(start, ConfigKey(k)))
  }

  /** Layout `k` was visited `k`-th, alone active, under its own key, and
      recomputed exactly when forced or when its starting entry was not valid. */
  ghost predicate VisitedInOrder(inp: SweepInputs, layouts: nat, start: Store, log: seq<Visit>) {
    forall k | 0 <= k < |log| ::
      && log[k].index == k
      && log[k].active == Exclusive(layouts, k)
      && log[k].key == ConfigKey(k)
      && log[k].recomputed == (inp.forceRecalculate || !Loadable(start, ConfigKey(k)))
  }

  /** Visiting layout `i` extends `VisitedInOrder` by that layout. */
  lemma SweepStepVisit(inp: SweepInputs, layouts: nat, start: Store, st: Store, i: nat, log: seq<Visit>, v: Visit)
    requires |log| == i && VisitedInOrder(inp, layouts, start, log)
    requires v.index == i && v.active == Exclusive(layouts, i) && v.key == ConfigKey(i)
    requires v.recomputed == (inp.forceRecalculate || !Loadable(st, ConfigKey(i)))
    requires Loadable(st, ConfigKey(i)) == Loadable(start, ConfigKey(i))
    ensures VisitedInOrder(inp, layouts, start, log + [v])
  {
  }

  /** After visiting layouts `0..i-1`, the others are loadable exactly when
      they were at the start and, with targets, the visited ones all are. */
  ghost predicate SweptLoadable(inp: SweepInputs, layouts: nat, start: Store, st: Store, i: nat) {
    && (forall k | i <= k < layouts :: Loadable(st, ConfigKey(k)) == Loadable(start, ConfigKey(k)))
    && (|inp.cfg.targets| > 0 ==> forall k | 0 <= k < i :: Loadable(st, ConfigKey(k)))
  }

  /** Visiting layout `i` extends `SweptLoadable` by that layout. */
  lemma SweepStepLoadable(inp: SweepInputs, layouts: nat, start: Store, st: Store, next: Store, i: nat)
    requires SweptLoadable(inp, layouts, start, st, i)
    requires forall name | name != ConfigKey(i) :: Loadable(next, name) == Loadable(st, name)
    requires |inp.cfg.targets| > 0 ==> Loadable(next, ConfigKey(i))
    ensures SweptLoadable(inp, layouts, start, next, i + 1)
  {
    KeysOfOtherLayoutsDiffer(i);
  }

  /** Visiting layout `i` extends `SweptEntries` by that layout. */
  lemma SweepStepEntries(inp: SweepInputs, layouts: nat, start: Store, st: Store, next: Store,
                         i: nat, log: seq<Visit>, v: Visit)
    requires ValidInputs(inp, layouts) && i < layouts
    requires |log| == i && SweptEntries(inp, layouts, start, st, log)
    requires forall name | name != ConfigKey(i) :: Entry(next, name) == Entry(st, name)
    requires !v.recomputed || |inp.cfg.targets| == 0 ==> Entry(next, ConfigKey(i)) == Entry(st, ConfigKey(i))
    requires v.recomputed && |inp.cfg.targets| > 0 ==> Entry(next, ConfigKey(i)) == Some(RecomputedEntry(inp, layouts, i))
    ensures SweptEntries(inp, layouts, start, next, log + [v])
  {
    KeysOfOtherLayoutsDiffer(i);
  }

  /** Loading from a store whose entries are as the sweep leaves them. */
  lemma EntriesLoad(inp: SweepInputs, c: Controller, st: Store, log: seq<Visit>)
    requires ValidInputs(inp, |c.pinsActive|) && WellFormed(c.store) && WellFormed(st)
    requires NamesResolve(inp.cfg.targets, inp.resolve) && |log| == |c.pinsActive|
    requires forall k | 0 <= k < |c.pinsActive| ::
      Entry(st, ConfigKey(k)) ==
        if log[k].recomputed && |inp.cfg.targets| > 0 then Some(RecomputedEntry(inp, |c.pinsActive|, k))
        else Entry(c.store, ConfigKey(k))
    ensures forall k | 0 <= k < |c.pinsActive| ::
      var l := Load(st, ConfigKey(k), inp.resolve);
      if log[k].recomputed && |inp.cfg.targets| > 0 then
        l.ok && l.cache == Persisted(SweepCache(LayoutRun(inp, |c.pinsActive|, k)))
      else
        l.ok == Load(c.store, ConfigKey(k), inp.resolve).ok
        && l.cache == Load(c.store, ConfigKey(k), inp.resolve).cache
  {
    forall k | 0 <= k < |c.pinsActive|
      ensures var l := Load(st, ConfigKey(k), inp.resolve);
        if log[k].recomputed && |inp.cfg.targets| > 0 then
          l.ok && l.cache == Persisted(SweepCache(LayoutRun(inp, |c.pinsActive|, k)))
        else
          l.ok == Load(c.store, ConfigKey(k), inp.resolve).ok
          && l.cache == Load(c.store, ConfigKey(k), inp.resolve).cache
    {
      if log[k].recomputed && |inp.cfg.targets| > 0 {
        var s := LayoutRun(inp, |c.pinsActive|, k);
        SavedEntryLoads(st, ConfigKey(k), SweepCache(s), s.hitOrder, inp.cfg.targets,
                        s.totalSimulationAttempts, inp.resolve);
      } else {
        LoadByEntry(st, c.store, ConfigKey(k), inp.resolve);
      }
    }
  }

  /** Running the sweep a second time without forcing recomputes nothing:
      every layout is loaded from the entries the first run left. */
  method SweepTwice(inp: SweepInputs, c: Controller, again: SweepInputs)
    returns (first: bool, second: bool, log: seq<Visit>)
    requires ValidInputs(inp, |c.pinsActive|) && WellFormed(c.store)
    requires ValidInputs(again, |c.pinsActive|)
    requires |inp.cfg.targets| > 0 && !again.forceRecalculate
    ensures first ==> second && |log| == |c.pinsActive|
    ensures first ==> forall k | 0 <= k < |log| :: !log[k].recomputed
  {
    var r;
    first, r, log := PrecomputeAllConfigurations(inp, c);
    if !first {
      return false, false, [];
    }
    var r2;
    second, r2, log := PrecomputeAllConfigurations(again, r);
  }
}
