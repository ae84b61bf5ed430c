/** `OnSpringReleased`: at run time, pick one stored successful launch for the
    ball that the spring fires. The target's launches are ordered by upward
    force, then by distance from the ball; the spring's pull (a fraction of its
    travel) chooses a band of forces (top 30%, middle 40% or bottom 30% of the
    span between the weakest and the strongest stored force) and a random pick
    chooses one launch within the band. */
module Selector {
  import opened Wrappers
  import opened Records
  import opened PredictionStore
  import Layouts

  /** The band boundaries `0.7f` and `0.3f`, used both for the spring's pull
      and for the fraction of the force span. */
  const High: real := 0.7
  const Low: real := 0.3

  function Abs(x: real): real {
    if x < 0.0 then -x else x
  }

  /** `Mathf.Abs(p.position.x - currentX)`. */
  function Distance(l: Launch, ballX: real): real {
    Abs(l.position.x - ballX)
  }

  /** `a` may precede `b` under `OrderBy(force.y).ThenBy(distance)`. */
  predicate Before(a: Launch, b: Launch, ballX: real) {
    a.force.y < b.force.y || (a.force.y == b.force.y && Distance(a, ballX) <= Distance(b, ballX))
  }

  predicate Ordered(s: seq<Launch>, ballX: real) {
    forall i, j | 0 <= i < j < |s| :: Before(s[i], s[j], ballX)
  }

  predicate ForceSorted(s: seq<Launch>) {
    forall i, j | 0 <= i < j < |s| :: s[i].force.y <= s[j].force.y
  }

  /** Put `x` in front of the first element it may precede. */
  function Insert(x: Launch, s: seq<Launch>, ballX: real): (r: seq<Launch>)
    requires Ordered(s, ballX)
    ensures Ordered(r, ballX)
    ensures multiset(r) == multiset(s) + multiset{x}
    decreases |s|
  {
    if |s| == 0 then [x]
    else if Before(x, s[0], ballX) then [x] + s
    else
      var t := Insert(x, s[1..], ballX);
      assert s == [s[0]] + s[1..];
      forall j | 0 <= j < |t| ensures Before(s[0], t[j], ballX) {
        assert t[j] in multiset(t);
      }
      [s[0]] + t
  }

  /** The ordered candidate list `suitableParams`. */
  function Sort(s: seq<Launch>, ballX: real): (r: seq<Launch>)
    ensures Ordered(r, ballX) && ForceSorted(r)
    ensures multiset(r) == multiset(s)
    ensures |r| == |s|
    decreases |s|
  {
    if |s| == 0 then []
    else
      assert s == [s[0]] + s[1..];
      Insert(s[0], Sort(s[1..], ballX), ballX)
  }

  /** The weakest upward force among `s`. */
  function MinForce(s: seq<Launch>): (m: real)
    requires |s| > 0
    ensures forall i | 0 <= i < |s| :: m <= s[i].force.y
    ensures exists i | 0 <= i < |s| :: m == s[i].force.y
    decreases |s|
  {
    if |s| == 1 then s[0].force.y
    else
      var rest := MinForce(s[1..]);
      assert forall i | 1 <= i < |s| :: s[i] == s[1..][i - 1];
      if s[0].force.y <= rest then s[0].force.y else rest
  }

  /** The strongest upward force among `s`. */
  function MaxForce(s: seq<Launch>): (m: real)
    requires |s| > 0
    ensures forall i | 0 <= i < |s| :: s[i].force.y <= m
    ensures exists i | 0 <= i < |s| :: m == s[i].force.y
    decreases |s|
  {
    if |s| == 1 then s[0].force.y
    else
      var rest := MaxForce(s[1..]);
      assert forall i | 1 <= i < |s| :: s[i] == s[1..][i - 1];
      if s[0].force.y >= rest then s[0].force.y else rest
  }

  /** The ordered list starts with the weakest force and ends with the strongest. */
  lemma SortEnds(s: seq<Launch>, ballX: real)
    requires |s| > 0
    ensures |Sort(s, ballX)| == |s|
    ensures Sort(s, ballX)[0].force.y == MinForce(s)
    ensures Sort(s, ballX)[|s| - 1].force.y == MaxForce(s)
  {
    var t := Sort(s, ballX);
    SortedFirst(s, t);
    SortedLast(s, t);
  }

  lemma SortedFirst(s: seq<Launch>, t: seq<Launch>)
    requires |s| > 0 && |t| == |s| && multiset(t) == multiset(s) && ForceSorted(t)
    ensures t[0].force.y == MinForce(s)
  {
    var i :| 0 <= i < |s| && MinForce(s) == s[i].force.y;
    assert s[i] in multiset(t);
    var i' :| 0 <= i' < |t| && t[i'] == s[i];
    assert t[0] in multiset(s);
    var k :| 0 <= k < |s| && s[k] == t[0];
  }

  lemma SortedLast(s: seq<Launch>, t: seq<Launch>)
    requires |s| > 0 && |t| == |s| && multiset(t) == multiset(s) && ForceSorted(t)
    ensures t[|t| - 1].force.y == MaxForce(s)
  {
    var j :| 0 <= j < |s| && MaxForce(s) == s[j].force.y;
    assert s[j] in multiset(t);
    var j' :| 0 <= j' < |t| && t[j'] == s[j];
    assert t[|t| - 1] in multiset(s);
    var m :| 0 <= m < |s| && s[m] == t[|t| - 1];
  }

  /** `minForce + forceRange * fraction` for the ordered list `s`. */
  function Threshold(s: seq<Launch>, fraction: real): real
    requires |s| > 0
  {
    s[0].force.y + (s[|s| - 1].force.y - s[0].force.y) * fraction
  }

  /** `List.FindIndex(p => p.force.y >= threshold)`. */
  function FindIndex(s: seq<Launch>, threshold: real): (r: int)
    ensures -1 <= r < |s|
    ensures r >= 0 ==> s[r].force.y >= threshold
    ensures r >= 0 ==> forall j | 0 <= j < r :: s[j].force.y < threshold
    ensures r == -1 <==> forall j | 0 <= j < |s| :: s[j].force.y < threshold
    decreases |s|
  {
    if |s| == 0 then -1
    else if s[0].force.y >= threshold then 0
    else
      var k := FindIndex(s[1..], threshold);
      assert forall j | 1 <= j < |s| :: s[j] == s[1..][j - 1];
      if k < 0 then -1 else k + 1
  }

  /** `List.FindLastIndex(p => p.force.y <= threshold)`. */
  function FindLastIndex(s: seq<Launch>, threshold: real): (r: int)
    ensures -1 <= r < |s|
    ensures r >= 0 ==> s[r].force.y <= threshold
    ensures r >= 0 ==> forall j | r < j < |s| :: s[j].force.y > threshold
    ensures r == -1 <==> forall j | 0 <= j < |s| :: s[j].force.y > threshold
    decreases |s|
  {
    if |s| == 0 then -1
    else if s[|s| - 1].force.y <= threshold then |s| - 1
    else FindLastIndex(s[..|s| - 1], threshold)
  }

  /** An index range `startIndex..endIndex`, both inclusive. */
  datatype Window = Window(start: int, end: int)

  /** `i` is what `FindIndex(p => p.force.y >= threshold)` may return: the
      first index at or above the threshold, or -1 when there is none. */
  predicate FirstAtLeast(s: seq<Launch>, threshold: real, i: int) {
    && -1 <= i < |s|
    && (i >= 0 ==> s[i].force.y >= threshold)
    && forall j | 0 <= j < |s| && (i < 0 || j < i) :: s[j].force.y < threshold
  }

  /** `i` is what `FindLastIndex(p => p.force.y <= threshold)` may return: the
      last index at or below the threshold, or -1 when there is none. */
  predicate LastAtMost(s: seq<Launch>, threshold: real, i: int) {
    && -1 <= i < |s|
    && (i >= 0 ==> s[i].force.y <= threshold)
    && forall j | 0 <= j < |s| && j > i :: s[j].force.y > threshold
  }

  /** The band the spring's pull selects, before the index fixes: a pull of
      at least 70% runs from the first force at 70% of the span to the end, a
      pull of at least 30% from the first force at 30% to the last force at
      70%, and a weaker pull from the start to the last force at 30%. */
  function RawWindow(s: seq<Launch>, spring: real): (w: Window)
    requires |s| > 0
    ensures spring >= High ==>
      FirstAtLeast(s, Threshold(s, High), w.start) && w.end == |s| - 1
    ensures Low <= spring < High ==>
      FirstAtLeast(s, Threshold(s, Low), w.start) && LastAtMost(s, Threshold(s, High), w.end)
    ensures spring < Low ==>
      w.start == 0 && LastAtMost(s, Threshold(s, Low), w.end)
  {
    if spring >= High then Window(FindIndex(s, Threshold(s, High)), |s| - 1)
    else if spring >= Low then Window(FindIndex(s, Threshold(s, Low)), FindLastIndex(s, Threshold(s, High)))
    else Window(0, FindLastIndex(s, Threshold(s, Low)))
  }

  /** The three "ensure the indices are valid" fixes, applied in order: the
      start is raised to 0, the end cut to the last index, and the start then
      lowered to the end. A window that is already valid is kept. */
  function FixWindow(w: Window, count: nat): (r: Window)
    ensures w.end < count ==> r.end == w.end
    ensures w.end >= count ==> r.end == count - 1
    ensures r.start <= r.end
    ensures 0 <= w.start <= r.end ==> r.start == w.start
    ensures w.start < 0 && 0 <= r.end ==> r.start == 0
    ensures count > 0 && w.end >= 0 ==> 0 <= r.start <= r.end < count
    ensures 0 <= w.start <= w.end < count ==> r == w
  {
    var start := if w.start < 0 then 0 else w.start;
    var end := if w.end >= count then count - 1 else w.end;
    Window(if start > end then end else start, end)
  }

  /** The band always ends on a real index: with exact arithmetic the fixes
      never produce the `-1` that would make the source index out of range. */
  function SelectWindow(s: seq<Launch>, spring: real): (w: Window)
    requires |s| > 0 && ForceSorted(s)
    ensures 0 <= w.start <= w.end < |s|
  {
    var raw := RawWindow(s, spring);
    assert s[0].force.y <= s[|s| - 1].force.y;
    assert s[0].force.y <= Threshold(s, Low) <= Threshold(s, High) <= s[|s| - 1].force.y;
    FixWindow(raw, |s|)
  }

  /** Some stored force lies in the middle band. */
  ghost predicate MiddleBandNonEmpty(s: seq<Launch>)
    requires |s| > 0
  {
    exists k | 0 <= k < |s| :: Threshold(s, Low) <= s[k].force.y <= Threshold(s, High)
  }

  /** Index `j` of the ordered list is one the pull `spring` may select:
      a force in the top 30% of the span, in the middle 40% (or, when no force
      lies there, the strongest force not above the middle band), or in the
      bottom 30%. */
  ghost predicate InBand(s: seq<Launch>, spring: real, j: int)
    requires |s| > 0 && 0 <= j < |s|
  {
    var f := s[j].force.y;
    if spring >= High then f >= Threshold(s, High)
    else if spring >= Low then
      if MiddleBandNonEmpty(s) then Threshold(s, Low) <= f <= Threshold(s, High)
      else f <= Threshold(s, High) && forall k | j < k < |s| :: s[k].force.y > Threshold(s, High)
    else f <= Threshold(s, Low)
  }

  /** The selected band is exactly the indices `InBand` describes. */
  lemma WindowIsBand(s: seq<Launch>, spring: real, j: int)
    requires |s| > 0 && ForceSorted(s) && 0 <= j < |s|
    ensures SelectWindow(s, spring).start <= j <= SelectWindow(s, spring).end <==> InBand(s, spring, j)
  {
    if spring >= High {
      HighWindow(s, spring, j);
    } else if spring >= Low {
      MiddleWindow(s, spring, j);
    } else {
      LowWindow(s, spring, j);
    }
  }

  lemma HighWindow(s: seq<Launch>, spring: real, j: int)
    requires |s| > 0 && ForceSorted(s) && 0 <= j < |s| && spring >= High
    ensures SelectWindow(s, spring).start <= j <= SelectWindow(s, spring).end <==> InBand(s, spring, j)
  {
    var a := FindIndex(s, Threshold(s, High));
    assert 0 <= a;
    assert SelectWindow(s, spring) == Window(a, |s| - 1);
  }

  lemma LowWindow(s: seq<Launch>, spring: real, j: int)
    requires |s| > 0 && ForceSorted(s) && 0 <= j < |s| && spring < Low
    ensures SelectWindow(s, spring).start <= j <= SelectWindow(s, spring).end <==> InBand(s, spring, j)
  {
    var b := FindLastIndex(s, Threshold(s, Low));
    assert 0 <= b;
    assert SelectWindow(s, spring) == Window(0, b);
  }

  lemma MiddleWindow(s: seq<Launch>, spring: real, j: int)
    requires |s| > 0 && ForceSorted(s) && 0 <= j < |s| && Low <= spring < High
    ensures SelectWindow(s, spring).start <= j <= SelectWindow(s, spring).end <==> InBand(s, spring, j)
  {
    var lo, hi := Threshold(s, Low), Threshold(s, High);
    var a, b := FindIndex(s, lo), FindLastIndex(s, hi);
    assert 0 <= a && 0 <= b;
    if MiddleBandNonEmpty(s) {
      var k :| 0 <= k < |s| && lo <= s[k].force.y <= hi;
      assert a <= k <= b;
      assert SelectWindow(s, spring) == Window(a, b);
    } else {
      assert SelectWindow(s, spring) == Window(b, b);
    }
  }

  /** `Random.Range(startIndex, endIndex + 1)` with the draw `pick`. */
  function SelectIndex(s: seq<Launch>, spring: real, pick: nat): (r: nat)
    requires |s| > 0 && ForceSorted(s)
    ensures r < |s|
    ensures InBand(s, spring, r)
  {
    var w := SelectWindow(s, spring);
    var r := w.start + pick % (w.end - w.start + 1);
    WindowIsBand(s, spring, r);
    r
  }

  /** Every index in the band is selected by some draw. */
  lemma EveryBandIndexReachable(s: seq<Launch>, spring: real, j: int)
    requires |s| > 0 && ForceSorted(s) && 0 <= j < |s| && InBand(s, spring, j)
    ensures exists pick: nat :: SelectIndex(s, spring, pick) == j
  {
    WindowIsBand(s, spring, j);
    var w := SelectWindow(s, spring);
    var width := w.end - w.start + 1;
    var pick: nat := j - w.start;
    ModSmall(pick, width);
    assert SelectIndex(s, spring, pick) == j;
  }

  /** What the force of the chosen launch satisfies, in terms of the weakest
      (`lo`) and strongest (`hi`) stored force. */
  predicate ForceInBand(lo: real, hi: real, spring: real, f: real) {
    if spring >= High then f >= lo + (hi - lo) * High
    else if spring >= Low then f <= lo + (hi - lo) * High
    else f <= lo + (hi - lo) * Low
  }

  lemma ModSmall(a: nat, m: int)
    requires a < m
    ensures a % m == a
  {
  }

  /** The selected force, against the weakest and strongest force of the list. */
  lemma BandForce(s: seq<Launch>, spring: real, j: int)
    requires |s| > 0 && ForceSorted(s) && 0 <= j < |s| && InBand(s, spring, j)
    ensures ForceInBand(s[0].force.y, s[|s| - 1].force.y, spring, s[j].force.y)
  {
  }

  /** The launch chosen from the ordered list is a stored one, in the band. */
  lemma ChosenInBand(recs: seq<Launch>, ballX: real, spring: real, pick: nat)
    requires |recs| > 0
    ensures var ordered := Sort(recs, ballX);
      var chosen := ordered[SelectIndex(ordered, spring, pick)];
      chosen in recs && ForceInBand(MinForce(recs), MaxForce(recs), spring, chosen.force.y)
  {
    var ordered := Sort(recs, ballX);
    SortEnds(recs, ballX);
    var i := SelectIndex(ordered, spring, pick);
    assert ordered[i] in recs by {
      assert ordered[i] in multiset(recs);
    }
    assert ForceInBand(MinForce(recs), MaxForce(recs), spring, ordered[i].force.y) by {
      BandForce(ordered, spring, i);
    }
  }

  /** `useRandomTarget ? targetPoints[Random.Range(0, n)] : selectedTargetPoint`. */
  function ChooseTarget(useRandomTarget: bool, targetCount: nat, pick: nat, selected: Option<TargetId>): (r: Option<TargetId>)
    requires useRandomTarget ==> targetCount > 0
    ensures useRandomTarget ==> r.Some? && r.value < targetCount
    ensures !useRandomTarget ==> r == selected
  {
    if useRandomTarget then Some(pick % targetCount) else selected
  }

  /** The store after the call, and the launch handed to the ball's controller, if any. */
  datatype Release = Release(store: Store, chosen: Option<Launch>)

  /** The stored launches of `target` for layout `pinsIndex`, if there are any. */
  function StoredLaunches(store: Store, pinsIndex: int, target: TargetId, resolve: Resolver): (r: seq<Launch>)
    requires WellFormed(store)
    ensures |r| > 0 ==> Loadable(store, Layouts.ConfigKey(pinsIndex))
  {
    var l := Load(store, Layouts.ConfigKey(pinsIndex), resolve);
    if l.ok && target in l.cache.launches then l.cache.launches[target] else []
  }

  /** `OnSpringReleased(ball, springPercentage)` with the target already chosen:
      `ballX` is the ball's x, `pick` the draw for `Random.Range`, and
      `hasController` whether the ball carries a `BallController`. */
  function OnSpringReleased(store: Store, pinsIndex: int, target: Option<TargetId>, resolve: Resolver,
                            ballX: real, spring: real, pick: nat, hasController: bool): (r: Release)
    requires WellFormed(store)
    ensures target.None? ==> r == Release(store, None)
    ensures target.Some? ==> r.store == Load(store, Layouts.ConfigKey(pinsIndex), resolve).store
    // a launch is handed over exactly when the target has stored launches and the ball a controller
    ensures r.chosen.Some? <==>
      target.Some? && hasController && |StoredLaunches(store, pinsIndex, target.value, resolve)| > 0
    // it is one of the stored launches, in the band the pull selects
    ensures r.chosen.Some? ==>
      var recs := StoredLaunches(store, pinsIndex, target.value, resolve);
      && r.chosen.value in recs
      && ForceInBand(MinForce(recs), MaxForce(recs), spring, r.chosen.value.force.y)
  {
    if target.None? then Release(store, None)
    else
      var l := Load(store, Layouts.ConfigKey(pinsIndex), resolve);
      var recs := StoredLaunches(store, pinsIndex, target.value, resolve);
      if |recs| == 0 || !hasController then Release(l.store, None)
      else
        var ordered := Sort(recs, ballX);
        var i := SelectIndex(ordered, spring, pick);
        ChosenInBand(recs, ballX, spring, pick);
        Release(l.store, Some(ordered[i]))
  }
}
