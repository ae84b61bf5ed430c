/** The force-range tracker of `BallPredictionController`: per target, an
    unordered list of force intervals that produced a hit. A successful force
    is absorbed by the first interval it lies within `Tolerance` of, otherwise
    it opens a new interval of width `2 * Tolerance` around itself. Extending an
    interval can make it overlap a later one; the list is never compacted. */
module ForceRanges {
  import opened Wrappers

  const Tolerance: real := 0.5

  datatype Range = Range(lo: real, hi: real) {

    predicate Contains(v: real) {
      lo <= v <= hi
    }

    /** `v` may be merged into this range. */
    predicate Near(v: real) {
      lo - Tolerance <= v <= hi + Tolerance
    }

    /** This range includes all of `other`. */
    predicate Includes(other: Range) {
      lo <= other.lo && other.hi <= hi
    }
  }

  predicate Covers(ranges: seq<Range>, v: real) {
    exists i | 0 <= i < |ranges| :: ranges[i].Contains(v)
  }

  predicate WellFormed(ranges: seq<Range>) {
    forall i | 0 <= i < |ranges| :: ranges[i].lo <= ranges[i].hi
  }

  predicate Overlap(a: Range, b: Range) {
    a.lo <= b.hi && b.lo <= a.hi
  }

  function Min(a: real, b: real): real {
    if a <= b then a else b
  }

  function Max(a: real, b: real): real {
    if a <= b then b else a
  }

  /** Index of the first range that `v` may be merged into. */
  function FirstNear(ranges: seq<Range>, v: real): (r: Option<nat>)
    ensures r.Some? ==> r.value < |ranges| && ranges[r.value].Near(v)
    ensures r.Some? ==> forall j | 0 <= j < r.value :: !ranges[j].Near(v)
    ensures r.None? ==> forall j | 0 <= j < |ranges| :: !ranges[j].Near(v)
    decreases |ranges|
  {
    if |ranges| == 0 then None
    else if ranges[0].Near(v) then Some(0)
    else match FirstNear(ranges[1..], v)
      case None => None
      case Some(k) => Some(k + 1)
  }

  /** `UpdateSuccessfulForceRanges(target, v)` on the target's range list. */
  function Merge(ranges: seq<Range>, v: real): (r: seq<Range>)
    // the successful force ends up inside some range
    ensures Covers(r, v)
    // at most one new range, and only when no range was within tolerance
    ensures |ranges| <= |r| <= |ranges| + 1
    ensures |r| == |ranges| + 1 <==> forall j | 0 <= j < |ranges| :: !ranges[j].Near(v)
    ensures |r| == |ranges| + 1 ==> r == ranges + [Range(v - Tolerance, v + Tolerance)]
    // otherwise the first range within tolerance absorbs v and nothing else moves
    ensures |r| == |ranges| ==>
      exists i | 0 <= i < |ranges| ::
        && ranges[i].Near(v)
        && (forall j | 0 <= j < i :: !ranges[j].Near(v))
        && r == ranges[i := Range(Min(ranges[i].lo, v), Max(ranges[i].hi, v))]
    // ranges only ever grow
    ensures forall j | 0 <= j < |ranges| :: r[j].Includes(ranges[j])
  {
    match FirstNear(ranges, v)
    case Some(i) =>
      var r := ranges[i := Range(Min(ranges[i].lo, v), Max(ranges[i].hi, v))];
      assert r[i].Contains(v);
      r
    case None =>
      var r := ranges + [Range(v - Tolerance, v + Tolerance)];
      assert r[|ranges|].Contains(v);
      r
  }

  /** Every force a list covered is still covered after a merge. */
  lemma MergeKeepsCoverage(ranges: seq<Range>, v: real, w: real)
    requires Covers(ranges, w)
    ensures Covers(Merge(ranges, v), w)
  {
    var i :| 0 <= i < |ranges| && ranges[i].Contains(w);
    assert Merge(ranges, v)[i].Contains(w);
  }

  /** Merging keeps every range non-empty. */
  lemma MergeWellFormed(ranges: seq<Range>, v: real)
    requires WellFormed(ranges)
    ensures WellFormed(Merge(ranges, v))
  {
  }

  /** Recording the same force twice changes nothing the second time. */
  lemma MergeIdempotent(ranges: seq<Range>, v: real)
    ensures Merge(Merge(ranges, v), v) == Merge(ranges, v)
  {
    var r := Merge(ranges, v);
    if |r| == |ranges| + 1 {
      assert FirstNear(r, v) == Some(|ranges|);
    } else {
      var i :| 0 <= i < |ranges| && ranges[i].Near(v)
        && (forall j | 0 <= j < i :: !ranges[j].Near(v))
        && r == ranges[i := Range(Min(ranges[i].lo, v), Max(ranges[i].hi, v))];
      assert FirstNear(r, v) == Some(i);
    }
  }

  /** Merge-on-insert does not keep ranges disjoint: forces 0, 1.1 and 0.9
      leave two overlapping ranges. */
  lemma MergeMayOverlap()
    ensures var r := Merge(Merge(Merge([], 0.0), 1.1), 0.9);
      |r| == 2 && Overlap(r[0], r[1])
  {
    var r1 := Merge([], 0.0);
    assert r1 == [Range(-0.5, 0.5)];
    var r2 := Merge(r1, 1.1);
    assert !r1[0].Near(1.1);
    assert r2 == [Range(-0.5, 0.5), Range(0.6, 1.6)];
    var r3 := Merge(r2, 0.9);
    assert r2[0].Near(0.9);
    assert FirstNear(r2, 0.9) == Some(0);
    assert r3 == [Range(-0.5, 0.9), Range(0.6, 1.6)];
  }
}
