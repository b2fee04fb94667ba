/**
 * The stand-alone mirror-and-fill plotter's decoder: a lenient record walker
 * that steps through the blob with Python slice semantics, the projection of
 * the records of one type onto big-endian (x, y) pairs tagged with their
 * record index, and the closed mirrored polygon built from them.
 */
module MirrorFill {
  import opened Wrappers
  import opened Bytes
  import opened Ieee754
  import opened PyBuiltins
  import opened Arith

  /** `struct.error`: a slice shorter than the format code needs. */
  datatype UnpackError = StructError

  /** `PolyRec(idx, rec_type, payload)` */
  datatype PolyRec = PolyRec(idx: nat, recType: nat, payload: seq<Byte>)

  /** An `(x, y)` pair of the polygon. */
  datatype XY = XY(x: F64, y: F64)

  /** `(x, y, idx)` */
  datatype IndexedPoint = IndexedPoint(x: F64, y: F64, idx: nat)

  /** `PolyRec.f64_be_xy`: `payload[0:8]` and `payload[8:16]` read with `>d`. */
  function F64BeXY(rec: PolyRec): (r: Result<XY, UnpackError>)
    ensures r.Success? <==> |rec.payload| >= 16
    ensures r.Success? ==> r.value.x.bits == rec.payload[..8] && r.value.y.bits == rec.payload[8..16]
  {
    var a := Slice(rec.payload, 0, 8);
    var b := Slice(rec.payload, 8, 16);
    if |a| != 8 || |b| != 8 then Failure(StructError)
    else Success(XY(FromBigEndian(a), FromBigEndian(b)))
  }

  // ------------------------------------------------------------ record walk

  /** The record a chunk of at least two bytes gives: `<H` of `rec[0:2]`, then `rec[2:]`. */
  function RecordOf(chunk: seq<Byte>, idx: nat): PolyRec
    requires |chunk| >= 2
  {
    PolyRec(idx, UIntLe(chunk[..2]), chunk[2..])
  }

  /** The records from offset `off` on, for a positive record length. */
  function Walk(blob: seq<Byte>, off: int, recordLen: int, idx: nat): Result<seq<PolyRec>, UnpackError>
    requires recordLen > 0
    decreases |blob| - off
  {
    if off + recordLen > |blob| then Success([])
    else
      var chunk := Slice(blob, off, off + recordLen);
      if |chunk| < 2 then Failure(StructError)
      else
        match Walk(blob, off + recordLen, recordLen, idx + 1)
        case Failure(e) => Failure(e)
        case Success(rest) => Success([RecordOf(chunk, idx)] + rest)
  }

  /**
   * What consuming `iter_records` gives: the records, or the `struct.error`
   * raised on the way. With a non-positive record length the offset never
   * grows, so the loop runs until a slice is too short: the slice of a step
   * is empty unless its start is non-negative and its end negative, which
   * can happen once, and the step after it starts at a negative offset with
   * an empty slice. The walk yields nothing when its first step is already
   * out of range and raises otherwise.
   */
  function Iterated(blob: seq<Byte>, headerLen: int, recordLen: int): Result<seq<PolyRec>, UnpackError> {
    if recordLen > 0 then Walk(blob, headerLen, recordLen, 0)
    else if headerLen + recordLen > |blob| then Success([])
    else Failure(StructError)
  }

  /** `res` with `recs` in front of its records. */
  function Prepend(recs: seq<PolyRec>, res: Result<seq<PolyRec>, UnpackError>): Result<seq<PolyRec>, UnpackError> {
    match res
    case Failure(e) => Failure(e)
    case Success(rest) => Success(recs + rest)
  }

  /** With a non-positive length the slice of a step is empty unless the step starts at or after 0 and ends before it. */
  lemma NonPositiveStep(blob: seq<Byte>, off: int, recordLen: int)
    requires recordLen <= 0 && (off < 0 || off + recordLen >= 0)
    ensures Slice(blob, off, off + recordLen) == []
  {
    SliceEmpty(blob, off, off + recordLen);
  }

  /** One step of the walk while a record fits: the error of a chunk too short for the type tag, or its record before the rest. */
  lemma WalkNext(blob: seq<Byte>, off: int, recordLen: int, idx: nat)
    requires recordLen > 0 && off + recordLen <= |blob|
    ensures var chunk := Slice(blob, off, off + recordLen);
      Walk(blob, off, recordLen, idx)
      == if |chunk| < 2 then Failure(StructError)
         else Prepend([RecordOf(chunk, idx)], Walk(blob, off + recordLen, recordLen, idx + 1))
  {
  }

  /** The loop state of `iter_records` after the records `recs`, the next one at offset `off`. */
  ghost predicate Walking(blob: seq<Byte>, headerLen: int, recordLen: int, off: int, recs: seq<PolyRec>) {
    if recordLen > 0 then Iterated(blob, headerLen, recordLen) == Prepend(recs, Walk(blob, off, recordLen, |recs|))
    else (recs == [] && off == headerLen) || (|recs| == 1 && off == headerLen + recordLen && off < 0)
  }

  lemma WalkingStart(blob: seq<Byte>, headerLen: int, recordLen: int)
    ensures Walking(blob, headerLen, recordLen, headerLen, [])
  {
    if recordLen > 0 {
      var w := Walk(blob, headerLen, recordLen, 0);
      assert w.Success? ==> [] + w.value == w.value;
    }
  }

  /**
   * A chunk with a type tag: its record joins the others and the walk moves on by `record_len`.
   * With a non-positive length this is the one step whose slice crosses from a non-negative
   * start to a negative end.
   */
  lemma WalkingStep(blob: seq<Byte>, headerLen: int, recordLen: int, off: int, recs: seq<PolyRec>)
    requires Walking(blob, headerLen, recordLen, off, recs) && off + recordLen <= |blob|
    requires |Slice(blob, off, off + recordLen)| >= 2
    ensures recordLen <= 0 ==> recs == [] && 0 <= off && off + recordLen < 0
    ensures Walking(blob, headerLen, recordLen, off + recordLen, recs + [RecordOf(Slice(blob, off, off + recordLen), |recs|)])
  {
    var chunk := Slice(blob, off, off + recordLen);
    if recordLen <= 0 {
      if off < 0 || off + recordLen >= 0 {
        NonPositiveStep(blob, off, recordLen);
        assert false;
      }
    } else {
      WalkNext(blob, off, recordLen, |recs|);
      PrependStep(recs, RecordOf(chunk, |recs|), Walk(blob, off + recordLen, recordLen, |recs| + 1));
    }
  }

  /** A chunk too short for its type tag: `struct.error`. */
  lemma WalkingFails(blob: seq<Byte>, headerLen: int, recordLen: int, off: int, recs: seq<PolyRec>)
    requires Walking(blob, headerLen, recordLen, off, recs) && off + recordLen <= |blob|
    requires |Slice(blob, off, off + recordLen)| < 2
    ensures Iterated(blob, headerLen, recordLen) == Failure(StructError)
  {
    if recordLen > 0 {
      WalkNext(blob, off, recordLen, |recs|);
    }
  }

  /** No whole record left: the records so far are all of them. */
  lemma WalkingDone(blob: seq<Byte>, headerLen: int, recordLen: int, off: int, recs: seq<PolyRec>)
    requires Walking(blob, headerLen, recordLen, off, recs) && off + recordLen > |blob|
    ensures Iterated(blob, headerLen, recordLen) == Success(recs)
  {
    if recordLen > 0 {
      assert recs + [] == recs;
    }
  }

  /**
   * `iter_records(blob, header_len, record_len)`, consumed to the end: steps
   * `record_len` at a time while `off + record_len <= len(blob)`, reading
   * each record from the slice `blob[off:off + record_len]`.
   */
  method IterRecords(blob: seq<Byte>, headerLen: int, recordLen: int) returns (r: Result<seq<PolyRec>, UnpackError>)
    ensures r == Iterated(blob, headerLen, recordLen)
  {
    var off := headerLen;
    var idx := 0;
    var recs: seq<PolyRec> := [];
    WalkingStart(blob, headerLen, recordLen);
    while off + recordLen <= |blob|
      invariant idx == |recs|
      invariant Walking(blob, headerLen, recordLen, off, recs)
      decreases (if recordLen > 0 then |blob| - off else if off >= 0 then 1 else 0)
    {
      var rec := Slice(blob, off, off + recordLen);
      if |Slice(rec, 0, 2)| != 2 {
        WalkingFails(blob, headerLen, recordLen, off, recs);
        return Failure(StructError);
      }
      var recType := UIntLe(rec[..2]);
      var payload := Slice(rec, 2, |rec|);
      WalkingStep(blob, headerLen, recordLen, off, recs);
      assert RecordOf(rec, idx) == PolyRec(idx, recType, payload);
      recs := recs + [PolyRec(idx, recType, payload)];
      idx := idx + 1;
      off := off + recordLen;
    }
    WalkingDone(blob, headerLen, recordLen, off, recs);
    return Success(recs);
  }

  lemma PrependStep(recs: seq<PolyRec>, rec: PolyRec, res: Result<seq<PolyRec>, UnpackError>)
    ensures Prepend(recs, match res case Failure(e) => Failure(e) case Success(rest) => Success([rec] + rest))
         == Prepend(recs + [rec], res)
  {
    if res.Success? {
      assert recs + ([rec] + res.value) == (recs + [rec]) + res.value;
    }
  }

  // ------------------------------------------------------------ the walk's result

  /**
   * The records from a non-negative offset when records have at least two
   * bytes: every chunk then holds a type tag, so the walk cannot fail.
   */
  function Whole(blob: seq<Byte>, off: nat, recordLen: nat, idx: nat): seq<PolyRec>
    requires recordLen >= 2
    decreases |blob| - off
  {
    if off + recordLen > |blob| then []
    else [RecordOf(blob[off..off + recordLen], idx)] + Whole(blob, off + recordLen, recordLen, idx + 1)
  }

  /** From a non-negative offset, with records of two bytes or more, the walk succeeds with the whole records. */
  lemma {:induction false} WalkIsWhole(blob: seq<Byte>, off: nat, recordLen: nat, idx: nat)
    requires recordLen >= 2
    ensures Walk(blob, off, recordLen, idx) == Success(Whole(blob, off, recordLen, idx))
    decreases |blob| - off
  {
    if off + recordLen <= |blob| {
      assert Slice(blob, off, off + recordLen) == blob[off..off + recordLen];
      WalkIsWhole(blob, off + recordLen, recordLen, idx + 1);
    }
  }

  /** A trailing partial record is ignored: there are `floor((len(blob) - off) / record_len)` records. */
  lemma {:induction false} WholeCount(blob: seq<Byte>, off: nat, recordLen: nat, idx: nat)
    requires recordLen >= 2 && off <= |blob|
    ensures |Whole(blob, off, recordLen, idx)| == (|blob| - off) / recordLen
    decreases |blob| - off
  {
    if off + recordLen <= |blob| {
      WholeCount(blob, off + recordLen, recordLen, idx + 1);
      DivSucc(|blob| - off, recordLen);
    } else {
      DivSmall(|blob| - off, recordLen);
    }
  }

  /**
   * Record `k`, when it fits in the blob, has index `idx + k` and is read
   * from `blob[o:o + record_len]` with `o == off + k * record_len`: its type
   * is the little-endian u16 of the first two bytes, its payload the rest.
   */
  lemma {:induction false} WholeAt(blob: seq<Byte>, off: nat, recordLen: nat, idx: nat, k: nat, o: nat)
    requires recordLen >= 2 && o == off + k * recordLen && o + recordLen <= |blob|
    ensures k < |Whole(blob, off, recordLen, idx)|
    ensures var rec := Whole(blob, off, recordLen, idx)[k];
      && rec.idx == idx + k
      && rec.recType == blob[o] as int + 256 * blob[o + 1] as int
      && rec.payload == blob[o + 2..o + recordLen]
    decreases k
  {
    if k == 0 {
      var chunk := blob[off..off + recordLen];
      assert chunk[..2] == [blob[off], blob[off + 1]];
      UIntLe2(blob[off], blob[off + 1]);
    } else {
      MulSucc(k - 1, recordLen);
      WholeAt(blob, off + recordLen, recordLen, idx + 1, k - 1, o);
    }
  }

  /** A record length of 1 raises as soon as there is one step to take. */
  lemma WalkOfOne(blob: seq<Byte>, headerLen: nat)
    requires headerLen + 1 <= |blob|
    ensures Iterated(blob, headerLen, 1) == Failure(StructError)
  {
  }

  /**
   * The lenient walk on a non-negative header inside the blob, with records
   * of two bytes or more, never raises, whether or not the body divides
   * evenly: it yields the `floor((len(blob) - header_len) / record_len)`
   * whole records after the header (each one read as `WholeAt` says).
   */
  lemma IteratedRecords(blob: seq<Byte>, headerLen: nat, recordLen: nat)
    requires recordLen >= 2 && headerLen <= |blob|
    ensures Iterated(blob, headerLen, recordLen) == Success(Whole(blob, headerLen, recordLen, 0))
    ensures |Whole(blob, headerLen, recordLen, 0)| == (|blob| - headerLen) / recordLen
  {
    WalkIsWhole(blob, headerLen, recordLen, 0);
    WholeCount(blob, headerLen, recordLen, 0);
  }

  // ------------------------------------------------------------ points

  /** The points of the records of type `target`, in order, or the error of the first one whose payload is short. */
  function TypedPoints(recs: seq<PolyRec>, target: int): (r: Result<seq<IndexedPoint>, UnpackError>)
    ensures r.Success? ==> |r.value| <= |recs|
  {
    if recs == [] then Success([])
    else
      var last := recs[|recs| - 1];
      match TypedPoints(recs[..|recs| - 1], target)
      case Failure(e) => Failure(e)
      case Success(pts) =>
        if last.recType != target then Success(pts)
        else
          match F64BeXY(last)
          case Failure(e) => Failure(e)
          case Success(xy) => Success(pts + [IndexedPoint(xy.x, xy.y, last.idx)])
  }

  /**
   * `extract_points_f64_be(blob, header_len, record_len, target_type)`: the
   * records of the target type, each read as `f64_be_xy` and tagged with its
   * index. Both the walk and the read raise `struct.error`, so raising
   * early or late in the walk gives the same outcome.
   */
  method ExtractPointsXY(blob: seq<Byte>, headerLen: int, recordLen: int, target: int)
    returns (r: Result<seq<IndexedPoint>, UnpackError>)
    ensures Iterated(blob, headerLen, recordLen).Failure? ==> r == Failure(Iterated(blob, headerLen, recordLen).error)
    ensures Iterated(blob, headerLen, recordLen).Success? ==> r == TypedPoints(Iterated(blob, headerLen, recordLen).value, target)
  {
    var it := IterRecords(blob, headerLen, recordLen);
    if it.Failure? {
      return Failure(it.error);
    }
    var recs := it.value;
    var pts: seq<IndexedPoint> := [];
    for i := 0 to |recs|
      invariant TypedPoints(recs[..i], target) == Success(pts)
    {
      assert recs[..i + 1][..i] == recs[..i];
      if recs[i].recType == target {
        var xy := F64BeXY(recs[i]);
        if xy.Failure? {
          TypedPointsFailurePersists(recs, target, i + 1);
          return Failure(xy.error);
        }
        pts := pts + [IndexedPoint(xy.value.x, xy.value.y, recs[i].idx)];
      }
    }
    assert recs[..|recs|] == recs;
    return Success(pts);
  }

  /** Once a prefix fails, the whole list fails the same way. */
  lemma {:induction false} TypedPointsFailurePersists(recs: seq<PolyRec>, target: int, i: nat)
    requires i <= |recs| && TypedPoints(recs[..i], target).Failure?
    ensures TypedPoints(recs, target) == TypedPoints(recs[..i], target)
    decreases |recs| - i
  {
    if i < |recs| {
      assert recs[..i + 1][..i] == recs[..i];
      TypedPointsFailurePersists(recs, target, i + 1);
    } else {
      assert recs[..i] == recs;
    }
  }

  /** Point `p` is read from record `rec` of the target type. */
  predicate FromRecord(p: IndexedPoint, rec: PolyRec, target: int) {
    && rec.recType == target && p.idx == rec.idx && |rec.payload| >= 16
    && p.x.bits == rec.payload[..8] && p.y.bits == rec.payload[8..16]
  }

  /** Reading succeeds exactly when every record of the target type has at least 16 payload bytes. */
  lemma {:induction false} TypedPointsSucceeds(recs: seq<PolyRec>, target: int)
    ensures TypedPoints(recs, target).Success? <==>
      forall k :: 0 <= k < |recs| && recs[k].recType == target ==> |recs[k].payload| >= 16
  {
    if recs != [] {
      var init := recs[..|recs| - 1];
      TypedPointsSucceeds(init, target);
      assert forall k :: 0 <= k < |init| ==> init[k] == recs[k];
    }
  }

  /** Every point is read from a record of the target type. */
  lemma {:induction false} TypedPointsSound(recs: seq<PolyRec>, target: int)
    requires TypedPoints(recs, target).Success?
    ensures var pts := TypedPoints(recs, target).value;
      forall j :: 0 <= j < |pts| ==> exists k :: 0 <= k < |recs| && FromRecord(pts[j], recs[k], target)
  {
    if recs != [] {
      var init := recs[..|recs| - 1];
      TypedPointsSound(init, target);
      var pts := TypedPoints(recs, target).value;
      var ipts := TypedPoints(init, target).value;
      forall j | 0 <= j < |pts|
        ensures exists k :: 0 <= k < |recs| && FromRecord(pts[j], recs[k], target)
      {
        if j < |ipts| {
          var k :| 0 <= k < |init| && FromRecord(ipts[j], init[k], target);
          assert pts[j] == ipts[j] && init[k] == recs[k];
        } else {
          assert FromRecord(pts[j], recs[|recs| - 1], target);
        }
      }
    }
  }

  /** Every record of the target type gives a point. */
  lemma {:induction false} TypedPointsComplete(recs: seq<PolyRec>, target: int)
    requires TypedPoints(recs, target).Success?
    ensures var pts := TypedPoints(recs, target).value;
      forall k :: 0 <= k < |recs| && recs[k].recType == target ==>
        exists j :: 0 <= j < |pts| && FromRecord(pts[j], recs[k], target)
  {
    if recs != [] {
      var init := recs[..|recs| - 1];
      TypedPointsComplete(init, target);
      var pts := TypedPoints(recs, target).value;
      var ipts := TypedPoints(init, target).value;
      forall k | 0 <= k < |recs| && recs[k].recType == target
        ensures exists j :: 0 <= j < |pts| && FromRecord(pts[j], recs[k], target)
      {
        if k < |init| {
          assert init[k] == recs[k];
          var j :| 0 <= j < |ipts| && FromRecord(ipts[j], init[k], target);
          assert pts[j] == ipts[j];
        } else {
          assert FromRecord(pts[|pts| - 1], recs[k], target);
        }
      }
    }
  }

  /** The points of an in-order walk have strictly increasing indices. */
  lemma {:induction false} TypedPointsIncreasing(recs: seq<PolyRec>, target: int)
    requires forall k :: 0 <= k < |recs| ==> recs[k].idx == k
    requires TypedPoints(recs, target).Success?
    ensures var pts := TypedPoints(recs, target).value;
      forall a, b :: 0 <= a < b < |pts| ==> pts[a].idx < pts[b].idx
    ensures forall p :: p in TypedPoints(recs, target).value ==> p.idx < |recs|
  {
    if recs != [] {
      var init := recs[..|recs| - 1];
      TypedPointsIncreasing(init, target);
    }
  }

  /** The records are numbered `idx`, `idx + 1`, ... */
  ghost predicate Numbered(recs: seq<PolyRec>, idx: nat) {
    forall k :: 0 <= k < |recs| ==> recs[k].idx == idx + k
  }

  lemma NumberedCons(rec: PolyRec, rest: seq<PolyRec>, idx: nat)
    requires rec.idx == idx && Numbered(rest, idx + 1)
    ensures Numbered([rec] + rest, idx)
  {
  }

  /** The walk numbers its records `idx`, `idx + 1`, ..., whatever the offset. */
  lemma {:induction false} WalkNumbered(blob: seq<Byte>, off: int, recordLen: int, idx: nat)
    requires recordLen > 0 && Walk(blob, off, recordLen, idx).Success?
    ensures Numbered(Walk(blob, off, recordLen, idx).value, idx)
    decreases |blob| - off
  {
    if off + recordLen <= |blob| {
      WalkNext(blob, off, recordLen, idx);
      var chunk := Slice(blob, off, off + recordLen);
      WalkNumbered(blob, off + recordLen, recordLen, idx + 1);
      NumberedCons(RecordOf(chunk, idx), Walk(blob, off + recordLen, recordLen, idx + 1).value, idx);
    }
  }

  /** Whatever the header and record lengths, the records `iter_records` yields are numbered 0, 1, 2, ... */
  lemma IteratedNumbered(blob: seq<Byte>, headerLen: int, recordLen: int)
    requires Iterated(blob, headerLen, recordLen).Success?
    ensures var recs := Iterated(blob, headerLen, recordLen).value;
      forall k :: 0 <= k < |recs| ==> recs[k].idx == k
  {
    if recordLen > 0 {
      WalkNumbered(blob, headerLen, recordLen, 0);
    }
  }

  // ------------------------------------------------------------ polygon

  /** `[(x, y) for x, y, _i in points]` */
  function Right(points: seq<IndexedPoint>): (r: seq<XY>)
    ensures |r| == |points| && forall k :: 0 <= k < |points| ==> r[k] == XY(points[k].x, points[k].y)
  {
    if points == [] then [] else [XY(points[0].x, points[0].y)] + Right(points[1..])
  }

  /** `[(-x, y) for x, y in reversed(right)]` */
  function Left(right: seq<XY>): (l: seq<XY>)
    ensures |l| == |right| && forall k :: 0 <= k < |right| ==> l[k] == XY(Neg(right[|right| - 1 - k].x), right[|right| - 1 - k].y)
  {
    if right == [] then [] else Left(right[1..]) + [XY(Neg(right[0].x), right[0].y)]
  }

  /** `right + left`: the points, then their mirror images across x = 0 in reverse order. */
  function Mirrored(points: seq<IndexedPoint>): (poly: seq<XY>)
    ensures |poly| == 2 * |points|
  {
    var right := Right(points);
    right + Left(right)
  }

  /**
   * `mirror_and_close_polygon(points)`: nothing for fewer than two points;
   * otherwise the right side, then the left side mirrored across x = 0 and
   * walked backwards, then the first point again when the polygon is not
   * already closed. Its last point is the mirror `(-x0, y0)` of the first,
   * sharing the `y0` object, so the tuple comparison compares `x0 == -x0`
   * only (the identity shortcut makes `y0 == y0` hold even for a NaN).
   */
  function MirrorAndClose(points: seq<IndexedPoint>): seq<XY> {
    if |points| < 2 then []
    else
      var poly := Mirrored(points);
      if !Equal(poly[0].x, poly[|poly| - 1].x) then poly + [poly[0]] else poly
  }

  /** The first half is the points as they are, the second their mirror images in reverse order. */
  lemma MirroredHalves(points: seq<IndexedPoint>)
    ensures var n := |points|;
      var poly := Mirrored(points);
      && (forall k :: 0 <= k < n ==> poly[k] == XY(points[k].x, points[k].y))
      && (forall k :: n <= k < 2 * n ==> poly[k] == XY(Neg(points[2 * n - 1 - k].x), points[2 * n - 1 - k].y))
  {
    var n := |points|;
    var right := Right(points);
    var poly := Mirrored(points);
    forall k | n <= k < 2 * n
      ensures poly[k] == XY(Neg(points[2 * n - 1 - k].x), points[2 * n - 1 - k].y)
    {
      assert poly[k] == Left(right)[k - n];
    }
  }

  /**
   * The polygon: empty below two points; otherwise the `2n` mirrored points
   * with one closing copy of the first point appended exactly when `x0` is
   * not a zero; a polygon so closed ends where it starts.
   */
  lemma MirrorAndCloseShape(points: seq<IndexedPoint>)
    ensures |points| < 2 ==> MirrorAndClose(points) == []
    ensures |points| >= 2 ==>
      var poly := MirrorAndClose(points);
      && poly[..2 * |points|] == Mirrored(points)
      && |poly| == 2 * |points| + (if IsZero(points[0].x) then 0 else 1)
      && (!IsZero(points[0].x) ==> poly[2 * |points|] == poly[0])
  {
    if |points| >= 2 {
      var poly := Mirrored(points);
      MirroredHalves(points);
      assert poly[|poly| - 1] == XY(Neg(points[0].x), points[0].y);
      EqualNegIffZero(points[0].x);
    }
  }
}
