/** The coverage loop of `BallPredictionController.PrecomputeAllTargets` and
    its sampling policy `GenerateForceValue`, as a state record advanced one
    loop iteration at a time.

    Physics (`SimulateAndRecord`) is the oracle `Config.sim`, reduced to the
    target it reports as hit. Randomness is the `Draw` each iteration consumes.
    The source loop has no attempt budget and need not terminate; `Run` takes
    a finite sequence of draws as its fuel and says whether the quota was met
    before they ran out. */
module Coverage {
  import opened Wrappers
  import opened ForceRanges
  import opened Records

  /** `SimulateAndRecord(basePosition, baseForce)`: the target the ball hit, if any. */
  type Sim = (Vec2, Vec2) -> Option<TargetId>

  /** The inspector settings the loop reads. */
  datatype Config = Config(
    targets: seq<Target>,
    requiredSuccessCount: int,
    minThrustForce: real,
    maxThrustForce: real,
    spawn: Vec2,
    spawnRadius: real,
    sim: Sim)

  /** Physics only ever reports one of `targetPoints` (any other hit would make
      the `successRates[hitTarget]` lookup throw). */
  ghost predicate ValidSim(cfg: Config) {
    forall p: Vec2, f: Vec2 :: cfg.sim(p, f).Some? ==> cfg.sim(p, f).value < |cfg.targets|
  }

  /** The random choices of one iteration. `Random.Range(0, count)` is
      `rangePick % count`; each float `Random.Range(a, b)`, inclusive at both
      ends, is `a + fraction * (b - a)` with the fraction in [0, 1]. */
  datatype Draw = Draw(rangePick: nat, forceFraction: real, xFraction: real) {
    predicate Valid() {
      0.0 <= forceFraction <= 1.0 && 0.0 <= xFraction <= 1.0
    }
  }

  function Uniform(a: real, b: real, u: real): real {
    a + u * (b - a)
  }

  predicate Between(a: real, b: real, v: real) {
    Min(a, b) <= v <= Max(a, b)
  }

  lemma UniformBetween(a: real, b: real, u: real)
    requires 0.0 <= u <= 1.0
    ensures Between(a, b, Uniform(a, b, u))
  {
    var m := u * (b - a);
    if a <= b {
      ScaleBetween(u, b - a);
      assert a <= a + m <= b;
    } else {
      ScaleBetween(u, a - b);
      NegateProduct(u, a - b);
      assert b <= a + m <= a;
    }
  }

  lemma NegateProduct(u: real, w: real)
    ensures u * (-w) == -(u * w)
  {
  }

  lemma ScaleBetween(u: real, w: real)
    requires 0.0 <= u <= 1.0 && 0.0 <= w
    ensures 0.0 <= u * w <= w
  {
    assert w - u * w == (1.0 - u) * w;
    assert (1.0 - u) * w >= 0.0;
  }

  /** The loop's state: `successRates`, `launchParamsCache` (with the order in
      which its keys were first added, which is the order a `Dictionary`
      enumerates them in), `targetForceRanges`, `usedParams` and
      `totalSimulationAttempts`. Statistics and ranges are indexed by target. */
  datatype Sweep = Sweep(
    stats: seq<Stats>,
    launches: map<TargetId, seq<Launch>>,
    hitOrder: seq<TargetId>,
    ranges: seq<seq<Range>>,
    usedParams: set<(real, real)>,
    totalSimulationAttempts: nat)

  function LaunchesOf(s: Sweep, t: TargetId): seq<Launch> {
    MapGetOr(s.launches, t, [])
  }

  predicate AllSatisfied(stats: seq<Stats>, required: int) {
    forall t | 0 <= t < |stats| :: stats[t].successCount >= required
  }

  /** The target the loop works on next: the first, in `targetPoints` order,
      still below its quota. */
  function FirstUnsatisfied(stats: seq<Stats>, required: int): (r: Option<TargetId>)
    ensures r.Some? ==> r.value < |stats| && stats[r.value].successCount < required
    ensures r.Some? ==> forall j | 0 <= j < r.value :: stats[j].successCount >= required
    ensures r.None? <==> AllSatisfied(stats, required)
    decreases |stats|
  {
    if |stats| == 0 then None
    else if stats[0].successCount < required then Some(0)
    else match FirstUnsatisfied(stats[1..], required)
      case None => None
      case Some(k) => Some(k + 1)
  }

  /** The targets that have reached their quota. */
  ghost function Completed(stats: seq<Stats>, required: int): set<int> {
    set t | 0 <= t < |stats| && stats[t].successCount >= required
  }

  /** How many targets have reached their quota (`completedTargets`). */
  function CompletedCount(stats: seq<Stats>, required: int): (c: nat)
    ensures c == |Completed(stats, required)|
    ensures c <= |stats|
    ensures c == |stats| <==> AllSatisfied(stats, required)
    decreases |stats|
  {
    if |stats| == 0 then 0
    else
      var last := |stats| - 1;
      var init := stats[..last];
      var done := stats[last].successCount >= required;
      CompletedOfPrefix(stats, required);
      CompletedCount(init, required) + (if done then 1 else 0)
  }

  /** `Completed` and `AllSatisfied` of a sequence, from those of all but its last element. */
  lemma CompletedOfPrefix(stats: seq<Stats>, required: int)
    requires |stats| > 0
    ensures var last := |stats| - 1;
      && last !in Completed(stats[..last], required)
      && Completed(stats, required) ==
         Completed(stats[..last], required) + (if stats[last].successCount >= required then {last} else {})
      && (AllSatisfied(stats, required) <==>
          AllSatisfied(stats[..last], required) && stats[last].successCount >= required)
  {
    var last := |stats| - 1;
    assert forall t | 0 <= t < last :: stats[..last][t] == stats[t];
  }

  /** `completionRate >= 0.6f` with `completionRate = completed / count`
      (false when there are no targets, since 0/0 is NaN), and the target
      already has a learned range. The comparison is done on integers. */
  predicate UseLearnedRanges(stats: seq<Stats>, required: int, ranges: seq<Range>): (b: bool)
    ensures b <==>
      && |stats| > 0
      && (|Completed(stats, required)| as real) / (|stats| as real) >= 0.6
      && |ranges| > 0
  {
    var use := |stats| > 0 && 5 * CompletedCount(stats, required) >= 3 * |stats| && |ranges| > 0;
    assert |stats| > 0 ==> (use <==> |ranges| > 0 && RateAtLeast(CompletedCount(stats, required), |stats|)) by {
      if |stats| > 0 {
        RateThreshold(CompletedCount(stats, required), |stats|);
      }
    }
    use
  }

  predicate RateAtLeast(done: nat, count: nat)
    requires count > 0
  {
    (done as real) / (count as real) >= 0.6
  }

  lemma RateThreshold(done: nat, count: nat)
    requires count > 0
    ensures RateAtLeast(done, count) <==> 5 * done >= 3 * count
  {
    var d, n := done as real, count as real;
    var q := d / n;
    DivTimes(d, n);
    if q >= 0.6 {
      ScaleAtLeast(q, n);
      RatioBound(d, n, q);
    } else {
      ScaleBelow(q, n);
      RatioBound(d, n, q);
    }
  }

  lemma RatioBound(d: real, n: real, q: real)
    requires q * n == d
    ensures q * n >= 0.6 * n ==> 5.0 * d >= 3.0 * n
    ensures q * n < 0.6 * n ==> 5.0 * d < 3.0 * n
  {
  }

  lemma DivTimes(d: real, n: real)
    requires n > 0.0
    ensures (d / n) * n == d
  {
  }

  lemma ScaleAtLeast(q: real, n: real)
    requires q >= 0.6 && n > 0.0
    ensures q * n >= 0.6 * n
  {
  }

  lemma ScaleBelow(q: real, n: real)
    requires q < 0.6 && n > 0.0
    ensures q * n < 0.6 * n
  {
  }

  /** `GenerateForceValue(target)`, where `ranges` is that target's list. */
  function GenerateForce(cfg: Config, stats: seq<Stats>, ranges: seq<Range>, d: Draw): (f: real)
    requires d.Valid()
    ensures !UseLearnedRanges(stats, cfg.requiredSuccessCount, ranges) ==>
      Between(cfg.minThrustForce, cfg.maxThrustForce, f)
    ensures UseLearnedRanges(stats, cfg.requiredSuccessCount, ranges) ==>
      var r := ranges[d.rangePick % |ranges|]; Between(r.lo, r.hi, f)
    ensures UseLearnedRanges(stats, cfg.requiredSuccessCount, ranges) && WellFormed(ranges) ==>
      Covers(ranges, f)
  {
    if UseLearnedRanges(stats, cfg.requiredSuccessCount, ranges) then
      var r := ranges[d.rangePick % |ranges|];
      UniformBetween(r.lo, r.hi, d.forceFraction);
      Uniform(r.lo, r.hi, d.forceFraction)
    else
      UniformBetween(cfg.minThrustForce, cfg.maxThrustForce, d.forceFraction);
      Uniform(cfg.minThrustForce, cfg.maxThrustForce, d.forceFraction)
  }

  /** The spawn x drawn from `[spawn.x - spawnRadius, spawn.x + spawnRadius]`. */
  function SpawnX(cfg: Config, d: Draw): (x: real)
    requires d.Valid()
    ensures Between(cfg.spawn.x - cfg.spawnRadius, cfg.spawn.x + cfg.spawnRadius, x)
  {
    UniformBetween(cfg.spawn.x - cfg.spawnRadius, cfg.spawn.x + cfg.spawnRadius, d.xFraction);
    Uniform(cfg.spawn.x - cfg.spawnRadius, cfg.spawn.x + cfg.spawnRadius, d.xFraction)
  }

  function SumAttempts(stats: seq<Stats>): nat
    decreases |stats|
  {
    if |stats| == 0 then 0 else stats[0].totalAttempts + SumAttempts(stats[1..])
  }

  lemma {:induction false} SumAttemptsUpdate(stats: seq<Stats>, i: nat, st: Stats)
    requires i < |stats|
    ensures SumAttempts(stats[i := st]) + stats[i].totalAttempts == SumAttempts(stats) + st.totalAttempts
    decreases |stats|
  {
    if i > 0 {
      SumAttemptsUpdate(stats[1..], i - 1, st);
      assert stats[i := st][1..] == stats[1..][i - 1 := st];
    } else {
      assert stats[i := st][1..] == stats[1..];
    }
  }

  /** State right after `PrecomputeAllTargets` has cleared its dictionaries:
      every target at (0, 0) with an empty range list. */
  function Init(cfg: Config): (s: Sweep)
    ensures Inv(cfg, s) && s.totalSimulationAttempts == 0
    ensures forall t | 0 <= t < |cfg.targets| :: s.stats[t] == Stats(0, 0) && s.ranges[t] == []
  {
    var s := Sweep(seq(|cfg.targets|, _ => Stats(0, 0)), map[], [],
                   seq(|cfg.targets|, _ => []), {}, 0);
    assert SumAttempts(s.stats) == 0 by { AllZeroSum(s.stats); }
    s
  }

  lemma {:induction false} AllZeroSum(stats: seq<Stats>)
    requires forall i | 0 <= i < |stats| :: stats[i].totalAttempts == 0
    ensures SumAttempts(stats) == 0
    decreases |stats|
  {
    if |stats| > 0 {
      AllZeroSum(stats[1..]);
    }
  }

  /** What the loop keeps true between iterations. */
  ghost predicate Inv(cfg: Config, s: Sweep) {
    var n := |cfg.targets|;
    && |s.stats| == n && |s.ranges| == n
    && (forall t | t in s.launches :: t < n && |s.launches[t]| > 0)
    && Distinct(s.hitOrder)
    && (forall t :: t in s.launches <==> t in s.hitOrder)
    // each target's launch list is as long as its success count
    && (forall t | 0 <= t < n :: s.stats[t].successCount == |LaunchesOf(s, t)|)
    // attempts are conserved
    && SumAttempts(s.stats) == s.totalSimulationAttempts
    && |s.usedParams| == s.totalSimulationAttempts
    && (forall t | 0 <= t < n :: WellFormed(s.ranges[t]))
    // every record is a verified hit, covered by a learned range, and was drawn
    && (forall t, k | t in s.launches && 0 <= k < |s.launches[t]| ::
          RecordOk(cfg, s, t, s.launches[t][k]))
  }

  ghost predicate RecordOk(cfg: Config, s: Sweep, t: TargetId, l: Launch)
    requires t < |s.ranges|
  {
    && cfg.sim(l.position, l.force) == Some(t)
    && Covers(s.ranges[t], l.force.y)
    && (l.position.x, l.force.y) in s.usedParams
  }

  datatype StepResult =
    | Finished
    | Duplicate(tried: TargetId)
    | Trial(tried: TargetId, hit: Option<TargetId>, next: Sweep)

  predicate Shaped(cfg: Config, s: Sweep) {
    |s.stats| == |cfg.targets| && |s.ranges| == |cfg.targets|
  }

  /** Credit a hit: one more success, one more launch record, the force merged
      into the hit target's ranges. A miss changes nothing. */
  function Credit(s: Sweep, hit: Option<TargetId>, l: Launch): (r: Sweep)
    requires hit.Some? ==> hit.value < |s.stats| && hit.value < |s.ranges|
    ensures hit.None? ==> r == s
    ensures |r.stats| == |s.stats| && |r.ranges| == |s.ranges|
    ensures r.usedParams == s.usedParams && r.totalSimulationAttempts == s.totalSimulationAttempts
    // only the hit target's success count moves; attempts are untouched
    ensures forall u | 0 <= u < |s.stats| ::
      && r.stats[u].successCount == s.stats[u].successCount + (if hit == Some(u) then 1 else 0)
      && r.stats[u].totalAttempts == s.stats[u].totalAttempts
    ensures SumAttempts(r.stats) == SumAttempts(s.stats)
    // the hit target gains the launch and the force; a first hit is
    // enumerated after every earlier one
    ensures hit.Some? ==>
      && LaunchesOf(r, hit.value) == LaunchesOf(s, hit.value) + [l]
      && r.ranges[hit.value] == Merge(s.ranges[hit.value], l.force.y)
      && r.hitOrder == s.hitOrder + (if hit.value in s.launches then [] else [hit.value])
    ensures forall u: TargetId | hit != Some(u) :: LaunchesOf(r, u) == LaunchesOf(s, u)
    ensures forall u | 0 <= u < |s.ranges| && hit != Some(u) :: r.ranges[u] == s.ranges[u]
  {
    match hit
    case None => s
    case Some(h) =>
      var st := Stats(s.stats[h].successCount + 1, s.stats[h].totalAttempts);
      SumAttemptsUpdate(s.stats, h, st);
      s.(stats := s.stats[h := st],
         launches := s.launches[h := LaunchesOf(s, h) + [l]],
         hitOrder := if h in s.launches then s.hitOrder else s.hitOrder + [h],
         ranges := s.ranges[h := Merge(s.ranges[h], l.force.y)])
  }

  /** One iteration of the `while (true)` loop. */
  function Step(cfg: Config, s: Sweep, d: Draw): (r: StepResult)
    requires ValidSim(cfg) && Shaped(cfg, s) && d.Valid()
    // the loop stops exactly when every target has met its quota
    ensures r.Finished? <==> AllSatisfied(s.stats, cfg.requiredSuccessCount)
    ensures !r.Finished? ==> FirstUnsatisfied(s.stats, cfg.requiredSuccessCount) == Some(r.tried)
    // a repeated (x, force) pair is skipped; a fresh one is simulated once
    ensures !r.Finished? ==>
      var f := GenerateForce(cfg, s.stats, s.ranges[r.tried], d);
      (r.Duplicate? <==> (SpawnX(cfg, d), f) in s.usedParams)
    ensures r.Trial? ==>
      var f := GenerateForce(cfg, s.stats, s.ranges[r.tried], d);
      var l := Launch(Vec2(SpawnX(cfg, d), cfg.spawn.y), Vec2(0.0, f));
      && r.hit == cfg.sim(l.position, l.force)
      && Shaped(cfg, r.next)
      && r.next.usedParams == s.usedParams + {(SpawnX(cfg, d), f)}
      && r.next.totalSimulationAttempts == s.totalSimulationAttempts + 1
      // the tried target gets the attempt, the hit target gets the success
      && r.next.stats[r.tried].totalAttempts == s.stats[r.tried].totalAttempts + 1
      && (forall t | 0 <= t < |s.stats| && t != r.tried ::
            r.next.stats[t].totalAttempts == s.stats[t].totalAttempts)
      && (forall t | 0 <= t < |s.stats| ::
            r.next.stats[t].successCount ==
              s.stats[t].successCount + (if r.hit == Some(t) then 1 else 0))
      && (r.hit.Some? ==>
            && LaunchesOf(r.next, r.hit.value) == LaunchesOf(s, r.hit.value) + [l]
            && r.next.ranges[r.hit.value] == Merge(s.ranges[r.hit.value], f))
      && (forall t | 0 <= t < |s.stats| && r.hit != Some(t) ::
            LaunchesOf(r.next, t) == LaunchesOf(s, t) && r.next.ranges[t] == s.ranges[t])
  {
    match FirstUnsatisfied(s.stats, cfg.requiredSuccessCount)
    case None => Finished
    case Some(t) =>
      var f := GenerateForce(cfg, s.stats, s.ranges[t], d);
      var x := SpawnX(cfg, d);
      if (x, f) in s.usedParams then Duplicate(t)
      else
        var l := Launch(Vec2(x, cfg.spawn.y), Vec2(0.0, f));
        var hit := cfg.sim(l.position, l.force);
        CreditAttempt(s, t, (x, f), hit, l);
        Trial(t, hit, Credit(Attempt(s, t, (x, f)), hit, l))
  }

  /** What one trial changes: the attempt on `t`, then the credit for `hit`. */
  lemma CreditAttempt(s: Sweep, t: TargetId, pair: (real, real), hit: Option<TargetId>, l: Launch)
    requires t < |s.stats| && |s.ranges| == |s.stats|
    requires hit.Some? ==> hit.value < |s.stats|
    ensures var n := Credit(Attempt(s, t, pair), hit, l);
      && |n.stats| == |s.stats| && |n.ranges| == |s.ranges|
      && n.usedParams == s.usedParams + {pair}
      && n.totalSimulationAttempts == s.totalSimulationAttempts + 1
      && n.stats[t].totalAttempts == s.stats[t].totalAttempts + 1
      && (forall u | 0 <= u < |s.stats| && u != t :: n.stats[u].totalAttempts == s.stats[u].totalAttempts)
      && (forall u | 0 <= u < |s.stats| ::
            n.stats[u].successCount == s.stats[u].successCount + (if hit == Some(u) then 1 else 0))
      && (hit.Some? ==>
            && LaunchesOf(n, hit.value) == LaunchesOf(s, hit.value) + [l]
            && n.ranges[hit.value] == Merge(s.ranges[hit.value], l.force.y))
      && (forall u | 0 <= u < |s.stats| && hit != Some(u) ::
            LaunchesOf(n, u) == LaunchesOf(s, u) && n.ranges[u] == s.ranges[u])
  {
  }

  /** Count one simulation of target `t` with the drawn pair `(x, force)`. */
  function Attempt(s: Sweep, t: TargetId, pair: (real, real)): (r: Sweep)
    requires t < |s.stats|
    // the tried target gets one more attempt and nothing else moves
    ensures |r.stats| == |s.stats|
    ensures r.stats[t].totalAttempts == s.stats[t].totalAttempts + 1
    ensures forall u | 0 <= u < |s.stats| :: r.stats[u].successCount == s.stats[u].successCount
    ensures forall u | 0 <= u < |s.stats| && u != t :: r.stats[u] == s.stats[u]
    ensures r.launches == s.launches && r.hitOrder == s.hitOrder && r.ranges == s.ranges
    // the pair is remembered and the attempt counted, in total and per target
    ensures r.usedParams == s.usedParams + {pair}
    ensures r.totalSimulationAttempts == s.totalSimulationAttempts + 1
    ensures SumAttempts(r.stats) == SumAttempts(s.stats) + 1
  {
    var st := Stats(s.stats[t].successCount, s.stats[t].totalAttempts + 1);
    SumAttemptsUpdate(s.stats, t, st);
    s.(stats := s.stats[t := st],
       usedParams := s.usedParams + {pair},
       totalSimulationAttempts := s.totalSimulationAttempts + 1)
  }

  /** A simulated trial keeps the loop invariant. */
  lemma StepPreservesInv(cfg: Config, s: Sweep, d: Draw)
    requires ValidSim(cfg) && Inv(cfg, s) && d.Valid()
    requires Step(cfg, s, d).Trial?
    ensures Inv(cfg, Step(cfg, s, d).next)
  {
    var r := Step(cfg, s, d);
    var t := r.tried;
    var f := GenerateForce(cfg, s.stats, s.ranges[t], d);
    var x := SpawnX(cfg, d);
    var l := Launch(Vec2(x, cfg.spawn.y), Vec2(0.0, f));
    var tried := Attempt(s, t, (x, f));
    assert r.next == Credit(tried, r.hit, l);
    AttemptPreservesInv(cfg, s, t, (x, f));
    CreditPreservesInv(cfg, tried, r.hit, l);
  }

  lemma AttemptPreservesInv(cfg: Config, s: Sweep, t: TargetId, pair: (real, real))
    requires Inv(cfg, s) && t < |cfg.targets| && pair !in s.usedParams
    ensures Inv(cfg, Attempt(s, t, pair))
  {
    var tried := Attempt(s, t, pair);
    SumAttemptsUpdate(s.stats, t, tried.stats[t]);
    forall u, k | u in tried.launches && 0 <= k < |tried.launches[u]|
      ensures RecordOk(cfg, tried, u, tried.launches[u][k])
    {
      assert RecordOk(cfg, s, u, s.launches[u][k]);
    }
  }

  lemma CreditPreservesInv(cfg: Config, s: Sweep, hit: Option<TargetId>, l: Launch)
    requires ValidSim(cfg) && Inv(cfg, s)
    requires hit == cfg.sim(l.position, l.force)
    requires (l.position.x, l.force.y) in s.usedParams
    ensures Inv(cfg, Credit(s, hit, l))
  {
    if hit.Some? {
      var h := hit.value;
      var c := Credit(s, hit, l);
      SumAttemptsUpdate(s.stats, h, c.stats[h]);
      assert c.launches[h] == LaunchesOf(s, h) + [l];
      forall u | 0 <= u < |cfg.targets|
        ensures c.stats[u].successCount == |LaunchesOf(c, u)|
      {
        if u != h {
          assert LaunchesOf(c, u) == LaunchesOf(s, u);
        }
      }
      forall u, k | u in c.launches && 0 <= k < |c.launches[u]|
        ensures RecordOk(cfg, c, u, c.launches[u][k])
      {
        if u == h {
          if k < |LaunchesOf(s, h)| {
            assert RecordOk(cfg, s, u, s.launches[u][k]);
            MergeKeepsCoverage(s.ranges[h], l.force.y, s.launches[u][k].force.y);
          } else {
            assert c.launches[u][k] == l;
          }
        } else {
          assert RecordOk(cfg, s, u, s.launches[u][k]);
        }
      }
      MergeWellFormed(s.ranges[h], l.force.y);
      assert Distinct(c.hitOrder);
    }
  }

  /** Runs the loop on the given draws until every target meets its quota or
      the draws run out; the flag says whether the quota was met. */
  function Run(cfg: Config, s: Sweep, draws: seq<Draw>): (r: (Sweep, bool))
    requires ValidSim(cfg) && Inv(cfg, s)
    requires forall i | 0 <= i < |draws| :: draws[i].Valid()
    ensures Inv(cfg, r.0)
    ensures r.1 <==> AllSatisfied(r.0.stats, cfg.requiredSuccessCount)
    ensures s.totalSimulationAttempts <= r.0.totalSimulationAttempts
    ensures r.0.totalSimulationAttempts <= s.totalSimulationAttempts + |draws|
    decreases |draws|
  {
    if |draws| == 0 then (s, AllSatisfied(s.stats, cfg.requiredSuccessCount))
    else
      match Step(cfg, s, draws[0])
      case Finished => (s, true)
      case Duplicate(_) => Run(cfg, s, draws[1..])
      case Trial(_, _, next) =>
        StepPreservesInv(cfg, s, draws[0]);
        Run(cfg, next, draws[1..])
  }

  /** The cache the loop leaves behind: `launchParamsCache` holds only targets
      that were hit, the other two dictionaries hold every target. */
  function SweepCache(s: Sweep): (c: Cache)
    ensures c.launches == s.launches
    ensures forall t: TargetId :: t in c.rates <==> t < |s.stats|
    ensures forall t: TargetId :: t in c.ranges <==> t < |s.ranges|
  {
    Cache(s.launches,
          map t: TargetId | t < |s.stats| :: s.stats[t],
          map t: TargetId | t < |s.ranges| :: s.ranges[t])
  }

  /** With a single target, a success is only ever credited while it is below
      quota, so it never overshoots. */
  lemma {:induction false} SingleTargetNeverOvershoots(cfg: Config, s: Sweep, draws: seq<Draw>)
    requires ValidSim(cfg) && Inv(cfg, s)
    requires forall i | 0 <= i < |draws| :: draws[i].Valid()
    requires |cfg.targets| == 1 && s.stats[0].successCount <= Max0(cfg.requiredSuccessCount)
    ensures Run(cfg, s, draws).0.stats[0].successCount <= Max0(cfg.requiredSuccessCount)
    decreases |draws|
  {
    if |draws| > 0 {
      match Step(cfg, s, draws[0])
      case Finished =>
      case Duplicate(_) =>
        SingleTargetNeverOvershoots(cfg, s, draws[1..]);
      case Trial(_, _, next) =>
        StepPreservesInv(cfg, s, draws[0]);
        SingleTargetNeverOvershoots(cfg, next, draws[1..]);
    }
  }

  function Max0(i: int): nat {
    if i < 0 then 0 else i
  }

  /** One target, a quota of 5 and physics that hits exactly when the force is
      in [12, 15]: once the loop finishes the target has exactly 5 records, all
      with a force in [12, 15], after no more trials than draws. */
  lemma QuotaScenario(cfg: Config, draws: seq<Draw>)
    requires |cfg.targets| == 1 && cfg.requiredSuccessCount == 5
    requires forall p: Vec2, f: Vec2 ::
      cfg.sim(p, f) == (if 12.0 <= f.y <= 15.0 then Some(0) else None)
    requires forall i | 0 <= i < |draws| :: draws[i].Valid()
    ensures ValidSim(cfg)
    ensures var r := Run(cfg, Init(cfg), draws);
      && r.0.totalSimulationAttempts <= |draws|
      && (r.1 ==>
            && r.0.stats[0].successCount == 5
            && |r.0.launches[0]| == 5
            && forall k | 0 <= k < 5 :: 12.0 <= r.0.launches[0][k].force.y <= 15.0)
  {
    var s0 := Init(cfg);
    SingleTargetNeverOvershoots(cfg, s0, draws);
    var r := Run(cfg, s0, draws);
    if r.1 {
      assert r.0.stats[0].successCount == |LaunchesOf(r.0, 0)|;
      forall k | 0 <= k < 5
        ensures 12.0 <= r.0.launches[0][k].force.y <= 15.0
      {
        var l := r.0.launches[0][k];
        assert RecordOk(cfg, r.0, 0, l);
        assert cfg.sim(l.position, l.force) == Some(0);
      }
    }
  }
}
