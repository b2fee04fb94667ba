/**
 * Point extraction from decoded polyline records: the records whose tag
 * matches and whose big-endian binary64 view holds at least two values give
 * one point each, in record order; an optional sentinel point at the origin
 * ends the walk, and an optional limit caps the number of points.
 */
module PointExtraction {
  import opened Wrappers
  import opened Ieee754
  import opened GeometryPolyline
  import opened PyBuiltins

  /** `(x, y, z)` as the extractor builds it. */
  datatype Point3 = Point3(x: F64, y: F64, z: F64)

  /** The record is used: its tag is `only_type` (when one is given) and its f64_be view has two or more values. */
  predicate Selected(rec: PolylineRecord, onlyType: Option<int>) {
    (onlyType.None? || rec.recType == onlyType.value) && |rec.f64Be| >= 2
  }

  /** The first three f64_be values, with `0.0` for a missing third one. */
  function PointOf(rec: PolylineRecord): Point3
    requires |rec.f64Be| >= 2
  {
    Point3(rec.f64Be[0], rec.f64Be[1], if |rec.f64Be| >= 3 then rec.f64Be[2] else PosZero)
  }

  /** `x == 0.0 and y == 0.0 and z == 0.0` with Python's float comparison. */
  predicate AtOrigin(p: Point3) {
    Equal(p.x, PosZero) && Equal(p.y, PosZero) && Equal(p.z, PosZero)
  }

  /** The points of the selected records, in record order. */
  function SelectedPoints(recs: seq<PolylineRecord>, onlyType: Option<int>): (pts: seq<Point3>)
    ensures |pts| <= |recs|
  {
    if recs == [] then []
    else
      var last := recs[|recs| - 1];
      SelectedPoints(recs[..|recs| - 1], onlyType) + (if Selected(last, onlyType) then [PointOf(last)] else [])
  }

  /** The points before the first one at the origin. */
  function UntilOrigin(pts: seq<Point3>): seq<Point3> {
    if pts == [] || AtOrigin(pts[0]) then [] else [pts[0]] + UntilOrigin(pts[1..])
  }

  /** The effective limit: the check follows the append, so a limit below 1 still lets one point through. */
  function Cap(maxPoints: int): nat {
    if maxPoints >= 1 then maxPoints else 1
  }

  /** What the extractor returns, stated without its loop: select, cut at the sentinel, cap. */
  function Extracted(recs: seq<PolylineRecord>, onlyType: Option<int>, stopAtZero: bool, maxPoints: Option<int>): seq<Point3> {
    var pts := SelectedPoints(recs, onlyType);
    var kept := if stopAtZero then UntilOrigin(pts) else pts;
    if maxPoints.Some? then Prefix(kept, Cap(maxPoints.value)) else kept
  }

  /**
   * `_extract_points_f64_be` / `_extract_points_f64_be_xyz`: one pass over
   * the records, skipping unselected ones, breaking at the sentinel before
   * appending it, and breaking after the append that reaches the limit.
   */
  method ExtractPoints(recs: seq<PolylineRecord>, onlyType: Option<int>, stopAtZero: bool, maxPoints: Option<int>)
    returns (pts: seq<Point3>)
    ensures pts == Extracted(recs, onlyType, stopAtZero, maxPoints)
  {
    pts := [];
    var i := 0;
    while i < |recs|
      invariant 0 <= i <= |recs|
      invariant Walked(recs, onlyType, stopAtZero, maxPoints, i, pts)
    {
      var done;
      pts, done := Visit(recs, onlyType, stopAtZero, maxPoints, i, pts);
      if done {
        return;
      }
      i := i + 1;
    }
    EndOfRecords(recs, onlyType, stopAtZero, maxPoints, pts);
  }

  /**
   * One pass of the extractor's loop, on record `i`: a skipped record leaves
   * the points alone, the sentinel ends the walk before it is appended, and
   * the append that reaches the limit ends it after.
   */
  method Visit(recs: seq<PolylineRecord>, onlyType: Option<int>, stopAtZero: bool, maxPoints: Option<int>, i: nat, pts: seq<Point3>)
    returns (next: seq<Point3>, done: bool)
    requires i < |recs| && Walked(recs, onlyType, stopAtZero, maxPoints, i, pts)
    ensures done ==> next == Extracted(recs, onlyType, stopAtZero, maxPoints)
    ensures !done ==> Walked(recs, onlyType, stopAtZero, maxPoints, i + 1, next)
  {
    var rec := recs[i];
    if !Selected(rec, onlyType) {
      SkipKeeps(recs, onlyType, stopAtZero, maxPoints, i, pts);
      return pts, false;
    }
    var p := PointOf(rec);
    if stopAtZero && AtOrigin(p) {
      BreakAtSentinel(recs, onlyType, maxPoints, i, pts);
      return pts, true;
    }
    next := pts + [p];
    AppendKeeps(recs, onlyType, stopAtZero, maxPoints, i, next);
    done := maxPoints.Some? && |next| >= Cap(maxPoints.value);
    if done {
      BreakAtLimit(recs, onlyType, stopAtZero, maxPoints.value, i, next);
    }
  }

  // ------------------------------------------------------------ helpers

  /** The loop's state after the records before `i`: every selected point so far was appended, none was a sentinel, the limit is not reached. */
  ghost predicate Walked(recs: seq<PolylineRecord>, onlyType: Option<int>, stopAtZero: bool, maxPoints: Option<int>, i: nat, pts: seq<Point3>)
    requires i <= |recs|
  {
    && pts == SelectedPoints(recs[..i], onlyType)
    && (stopAtZero ==> UntilOrigin(pts) == pts)
    && (maxPoints.Some? ==> |pts| < Cap(maxPoints.value))
  }

  lemma SkipKeeps(recs: seq<PolylineRecord>, onlyType: Option<int>, stopAtZero: bool, maxPoints: Option<int>, i: nat, pts: seq<Point3>)
    requires i < |recs| && Walked(recs, onlyType, stopAtZero, maxPoints, i, pts)
    requires !Selected(recs[i], onlyType)
    ensures Walked(recs, onlyType, stopAtZero, maxPoints, i + 1, pts)
  {
    SelectedPointsSplit(recs, onlyType, i);
    assert pts + [] == pts;
  }

  lemma BreakAtSentinel(recs: seq<PolylineRecord>, onlyType: Option<int>, maxPoints: Option<int>, i: nat, pts: seq<Point3>)
    requires i < |recs| && Walked(recs, onlyType, true, maxPoints, i, pts)
    requires Selected(recs[i], onlyType) && AtOrigin(PointOf(recs[i]))
    ensures pts == Extracted(recs, onlyType, true, maxPoints)
  {
    SelectedPointsSplit(recs, onlyType, i);
    UntilOriginStops(pts, PointOf(recs[i]), SelectedPoints(recs[i + 1..], onlyType));
  }

  lemma AppendKeeps(recs: seq<PolylineRecord>, onlyType: Option<int>, stopAtZero: bool, maxPoints: Option<int>, i: nat, pts: seq<Point3>)
    requires i < |recs| && pts != [] && Walked(recs, onlyType, stopAtZero, maxPoints, i, pts[..|pts| - 1])
    requires Selected(recs[i], onlyType) && pts[|pts| - 1] == PointOf(recs[i])
    requires stopAtZero ==> !AtOrigin(PointOf(recs[i]))
    ensures pts == SelectedPoints(recs[..i + 1], onlyType)
    ensures stopAtZero ==> UntilOrigin(pts) == pts
    ensures maxPoints.Some? && |pts| < Cap(maxPoints.value) ==> Walked(recs, onlyType, stopAtZero, maxPoints, i + 1, pts)
    ensures maxPoints.None? ==> Walked(recs, onlyType, stopAtZero, maxPoints, i + 1, pts)
  {
    SelectedPointsSplit(recs, onlyType, i);
    var init := pts[..|pts| - 1];
    assert init + [pts[|pts| - 1]] == pts;
    if stopAtZero {
      UntilOriginKeeps(init, [PointOf(recs[i])]);
    }
  }

  lemma BreakAtLimit(recs: seq<PolylineRecord>, onlyType: Option<int>, stopAtZero: bool, m: int, i: nat, pts: seq<Point3>)
    requires i < |recs| && pts == SelectedPoints(recs[..i + 1], onlyType)
    requires stopAtZero ==> UntilOrigin(pts) == pts
    requires |pts| == Cap(m)
    ensures pts == Extracted(recs, onlyType, stopAtZero, Some(m))
  {
    SelectedPointsSplit(recs, onlyType, i);
    var rest := SelectedPoints(recs[i + 1..], onlyType);
    if stopAtZero {
      UntilOriginKeeps(pts, rest);
    }
  }

  lemma EndOfRecords(recs: seq<PolylineRecord>, onlyType: Option<int>, stopAtZero: bool, maxPoints: Option<int>, pts: seq<Point3>)
    requires Walked(recs, onlyType, stopAtZero, maxPoints, |recs|, pts)
    ensures pts == Extracted(recs, onlyType, stopAtZero, maxPoints)
  {
    assert recs[..|recs|] == recs;
  }

  /** Selecting from a concatenation selects from each part. */
  lemma {:induction false} SelectedPointsConcat(a: seq<PolylineRecord>, b: seq<PolylineRecord>, onlyType: Option<int>)
    ensures SelectedPoints(a + b, onlyType) == SelectedPoints(a, onlyType) + SelectedPoints(b, onlyType)
    decreases |b|
  {
    if b != [] {
      var last := b[|b| - 1];
      assert (a + b)[..|a + b| - 1] == a + b[..|b| - 1];
      SelectedPointsConcat(a, b[..|b| - 1], onlyType);
    } else {
      assert a + b == a;
    }
  }

  /** The points of the records before `i`, of record `i`, and of the rest. */
  lemma SelectedPointsSplit(recs: seq<PolylineRecord>, onlyType: Option<int>, i: nat)
    requires i < |recs|
    ensures SelectedPoints(recs[..i + 1], onlyType)
         == SelectedPoints(recs[..i], onlyType) + (if Selected(recs[i], onlyType) then [PointOf(recs[i])] else [])
    ensures SelectedPoints(recs, onlyType) == SelectedPoints(recs[..i + 1], onlyType) + SelectedPoints(recs[i + 1..], onlyType)
  {
    assert recs[..i + 1][..i] == recs[..i];
    assert recs == recs[..i + 1] + recs[i + 1..];
    SelectedPointsConcat(recs[..i + 1], recs[i + 1..], onlyType);
  }

  /** Points before the sentinel are kept, and the cut continues into what follows. */
  lemma {:induction false} UntilOriginKeeps(s: seq<Point3>, t: seq<Point3>)
    requires UntilOrigin(s) == s
    ensures UntilOrigin(s + t) == s + UntilOrigin(t)
  {
    if s != [] {
      assert !AtOrigin(s[0]) && UntilOrigin(s[1..]) == s[1..];
      UntilOriginKeeps(s[1..], t);
      assert (s + t)[1..] == s[1..] + t;
    } else {
      assert s + t == t;
    }
  }

  /** A sentinel right after points that are all kept ends the cut there. */
  lemma UntilOriginStops(s: seq<Point3>, p: Point3, t: seq<Point3>)
    requires UntilOrigin(s) == s && AtOrigin(p)
    ensures UntilOrigin(s + [p] + t) == s
  {
    UntilOriginKeeps(s, [p] + t);
    assert s + [p] + t == s + ([p] + t);
  }

  // ------------------------------------------------------------ properties

  /** The cut is the longest prefix with no point at the origin. */
  lemma {:induction false} UntilOriginSpec(pts: seq<Point3>)
    ensures var r := UntilOrigin(pts);
      && r <= pts
      && (forall k :: 0 <= k < |r| ==> !AtOrigin(r[k]))
      && (|r| < |pts| ==> AtOrigin(pts[|r|]))
  {
    if pts != [] && !AtOrigin(pts[0]) {
      UntilOriginSpec(pts[1..]);
    }
  }

  /** The output keeps record order: it is a prefix of the selected points, and its length is the cap or what the sentinel leaves. */
  lemma ExtractedPrefix(recs: seq<PolylineRecord>, onlyType: Option<int>, stopAtZero: bool, maxPoints: Option<int>)
    ensures var out := Extracted(recs, onlyType, stopAtZero, maxPoints);
      var all := SelectedPoints(recs, onlyType);
      var kept := if stopAtZero then UntilOrigin(all) else all;
      && out <= kept && kept <= all
      && (maxPoints.Some? ==> |out| == if |kept| < Cap(maxPoints.value) then |kept| else Cap(maxPoints.value))
      && (maxPoints.None? ==> out == kept)
  {
    UntilOriginSpec(SelectedPoints(recs, onlyType));
  }

  /** With the sentinel on, no output point is at the origin (neither +0.0 nor -0.0 in any coordinate). */
  lemma ExtractedAvoidsOrigin(recs: seq<PolylineRecord>, onlyType: Option<int>, maxPoints: Option<int>)
    ensures var out := Extracted(recs, onlyType, true, maxPoints);
      forall k :: 0 <= k < |out| ==> !(IsZero(out[k].x) && IsZero(out[k].y) && IsZero(out[k].z))
  {
    var all := SelectedPoints(recs, onlyType);
    UntilOriginSpec(all);
    var out := Extracted(recs, onlyType, true, maxPoints);
    forall k | 0 <= k < |out|
      ensures !(IsZero(out[k].x) && IsZero(out[k].y) && IsZero(out[k].z))
    {
      assert out[k] == UntilOrigin(all)[k];
      EqualPosZeroIffZero(out[k].x);
      EqualPosZeroIffZero(out[k].y);
      EqualPosZeroIffZero(out[k].z);
    }
  }

  /** A limit `m >= 1` bounds the output by `m`; a limit below 1 still allows one point. */
  lemma ExtractedLimit(recs: seq<PolylineRecord>, onlyType: Option<int>, stopAtZero: bool, m: int)
    ensures |Extracted(recs, onlyType, stopAtZero, Some(m))| <= if m >= 1 then m else 1
  {
  }

  /** Every selected record gives a point, every other record gives none: skipped records do not count toward the limit. */
  lemma SelectedPointsCount(recs: seq<PolylineRecord>, onlyType: Option<int>)
    ensures |SelectedPoints(recs, onlyType)| == |set k | 0 <= k < |recs| && Selected(recs[k], onlyType)|
  {
    SelectedPointsCountUpTo(recs, onlyType, |recs|);
    assert recs[..|recs|] == recs;
  }

  /** The count for the first `n` records. */
  lemma {:induction false} SelectedPointsCountUpTo(recs: seq<PolylineRecord>, onlyType: Option<int>, n: nat)
    requires n <= |recs|
    ensures |SelectedPoints(recs[..n], onlyType)| == |set k | 0 <= k < n && Selected(recs[k], onlyType)|
  {
    if n > 0 {
      SelectedPointsCountUpTo(recs, onlyType, n - 1);
      assert recs[..n][..n - 1] == recs[..n - 1];
      var last := recs[n - 1];
      assert SelectedPoints(recs[..n], onlyType)
        == SelectedPoints(recs[..n - 1], onlyType) + (if Selected(last, onlyType) then [PointOf(last)] else []);
      SelectedIndicesStep(recs, onlyType, n);
    }
  }

  /** Record `n - 1` adds itself to the selected indices below `n` exactly when it is selected. */
  lemma SelectedIndicesStep(recs: seq<PolylineRecord>, onlyType: Option<int>, n: nat)
    requires 0 < n <= |recs|
    ensures |set k | 0 <= k < n && Selected(recs[k], onlyType)|
      == |set k | 0 <= k < n - 1 && Selected(recs[k], onlyType)| + (if Selected(recs[n - 1], onlyType) then 1 else 0)
  {
    var before := set k | 0 <= k < n - 1 && Selected(recs[k], onlyType);
    var now := set k | 0 <= k < n && Selected(recs[k], onlyType);
    if Selected(recs[n - 1], onlyType) {
      assert n - 1 !in before;
      assert now == before + {n - 1};
    } else {
      assert now == before;
    }
  }
}
