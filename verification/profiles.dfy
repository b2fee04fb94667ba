/**
 * The section geometry around the decoded points: mirroring a one-sided
 * (R, Z) profile across the axis into a closed outline, the swap/flip
 * transform applied to every (R, Z) pair, the rectangular outline of a
 * cylindrical tool, and the positive-maximum rule for a tool's diameter.
 *
 * Decoded coordinates are binary64 encodings (module Ieee754), negated
 * exactly by `Neg`; tool dimensions come out of arithmetic and are reals.
 * The list helpers are generic in the coordinate type and take its negation.
 */
module Profiles {
  import opened Bytes
  import opened Ieee754
  import opened PointExtraction

  // ------------------------------------------------------------ mirroring

  /** `[-v for v in xs]` */
  function NegateAll<T>(xs: seq<T>, neg: T -> T): (ys: seq<T>)
    ensures |ys| == |xs| && forall k :: 0 <= k < |xs| ==> ys[k] == neg(xs[k])
  {
    if xs == [] then [] else [neg(xs[0])] + NegateAll(xs[1..], neg)
  }

  /** `xs + [-v for v in xs[::-1]]`: the list, then the list backwards and negated. */
  function MirrorNegated<T>(xs: seq<T>, neg: T -> T): (m: seq<T>)
    ensures |m| == 2 * |xs|
    ensures m[..|xs|] == xs
    ensures forall k :: |xs| <= k < |m| ==> m[k] == neg(xs[2 * |xs| - 1 - k])
  {
    xs + NegateAll(Reverse(xs), neg)
  }

  /** `xs + xs[::-1]`: the list, then the list backwards. */
  function MirrorSame<T>(xs: seq<T>): (m: seq<T>)
    ensures |m| == 2 * |xs|
    ensures m[..|xs|] == xs
    ensures forall k :: |xs| <= k < |m| ==> m[k] == xs[2 * |xs| - 1 - k]
  {
    xs + Reverse(xs)
  }

  /** Position `k` of the second half of `xs + xs[::-1]`. */
  lemma MirrorSameAt<T>(xs: seq<T>, k: nat)
    requires |xs| <= k < 2 * |xs|
    ensures MirrorSame(xs)[k] == xs[2 * |xs| - 1 - k]
  {
  }

  /** Position `k` of the second half of `xs + [-v for v in xs[::-1]]`. */
  lemma MirrorNegatedAt<T>(xs: seq<T>, neg: T -> T, k: nat)
    requires |xs| <= k < 2 * |xs|
    ensures MirrorNegated(xs, neg)[k] == neg(xs[2 * |xs| - 1 - k])
  {
  }

  /** Real negation, for tool outlines. */
  function NegReal(x: real): real { -x }

  /** A one-sided profile point `(z, r)` of a tool. */
  datatype ZR = ZR(z: real, r: real)

  /** The two coordinate lists of a mirrored outline. */
  datatype Outline = Outline(zs: seq<real>, rs: seq<real>)

  /** `[p[0] for p in profile_zr]` */
  function Zs(profile: seq<ZR>): (zs: seq<real>)
    ensures |zs| == |profile| && forall k :: 0 <= k < |profile| ==> zs[k] == profile[k].z
  {
    seq(|profile|, k requires 0 <= k < |profile| => profile[k].z)
  }

  /** `[p[1] for p in profile_zr]` */
  function Rs(profile: seq<ZR>): (rs: seq<real>)
    ensures |rs| == |profile| && forall k :: 0 <= k < |profile| ==> rs[k] == profile[k].r
  {
    seq(|profile|, k requires 0 <= k < |profile| => profile[k].r)
  }

  /**
   * `mirror_profile(profile_zr)`: the z list followed by itself backwards,
   * and the r list followed by itself backwards and negated. Position `k` of
   * the first half is point `k`; position `k` of the second half is point
   * `2n - 1 - k` with its r negated.
   */
  function MirrorProfile(profile: seq<ZR>): (zr: Outline)
    ensures |zr.zs| == 2 * |profile| && |zr.rs| == 2 * |profile|
    ensures forall k :: 0 <= k < |profile| ==> zr.zs[k] == profile[k].z && zr.rs[k] == profile[k].r
    ensures forall k :: |profile| <= k < 2 * |profile| ==>
      zr.zs[k] == profile[2 * |profile| - 1 - k].z && zr.rs[k] == -profile[2 * |profile| - 1 - k].r
  {
    MirroredProfileLists(profile);
    Outline(MirrorSame(Zs(profile)), MirrorNegated(Rs(profile), NegReal))
  }

  /**
   * `build_mirror_polygon(rs, zs)` (nested in `cmd_plot`): the right-hand
   * section followed by its mirror image across the axis, walked backwards.
   */
  function BuildMirrorPolygon(rs: seq<F64>, zs: seq<F64>): (poly: (seq<F64>, seq<F64>))
    ensures |poly.0| == 2 * |rs| && |poly.1| == 2 * |zs|
  {
    (MirrorNegated(rs, Neg), MirrorSame(zs))
  }

  /**
   * The mirrored lists are symmetric: position `2n - 1 - k` holds the
   * negation of position `k` (or the same value, for the unnegated list), so
   * walking the outline meets every point of the right half and its mirror image.
   */
  lemma MirrorNegatedSymmetric<T>(xs: seq<T>, neg: T -> T, k: nat)
    requires k < 2 * |xs|
    requires forall x :: neg(neg(x)) == x
    ensures MirrorNegated(xs, neg)[2 * |xs| - 1 - k] == neg(MirrorNegated(xs, neg)[k])
  {
    var n := |xs|;
    var m := MirrorNegated(xs, neg);
    if k < n {
      assert m[2 * n - 1 - k] == neg(xs[k]);
    } else {
      assert m[2 * n - 1 - k] == m[..n][2 * n - 1 - k];
    }
  }

  lemma MirrorSameSymmetric<T>(xs: seq<T>, k: nat)
    requires k < 2 * |xs|
    ensures MirrorSame(xs)[2 * |xs| - 1 - k] == MirrorSame(xs)[k]
  {
    var n := |xs|;
    var m := MirrorSame(xs);
    if k < n {
      assert m[2 * n - 1 - k] == xs[k];
    } else {
      assert m[2 * n - 1 - k] == m[..n][2 * n - 1 - k];
    }
  }

  /** Negating a binary64 twice gives it back, so the geometry outline is symmetric. */
  lemma NegIsInvolution()
    ensures forall x :: Neg(Neg(x)) == x
  {
    forall x: F64 ensures Neg(Neg(x)) == x {
      NegInvolutive(x);
    }
  }

  /** The tool outline's mirror: the r list ends as it began, negated, and the z list is a palindrome. */
  lemma MirrorProfileSymmetric(profile: seq<ZR>, k: nat)
    requires k < 2 * |profile|
    ensures var zr := MirrorProfile(profile);
      zr.rs[2 * |profile| - 1 - k] == -zr.rs[k] && zr.zs[2 * |profile| - 1 - k] == zr.zs[k]
  {
  }

  /** Position `k` of the second half of a real list mirrored with negation. */
  lemma MirroredRsAt(rs: seq<real>, k: nat)
    requires |rs| <= k < 2 * |rs|
    ensures MirrorNegated(rs, NegReal)[k] == -rs[2 * |rs| - 1 - k]
  {
    MirrorNegatedAt(rs, NegReal, k);
  }

  /** The r half on its own: a real list mirrored with negation is antisymmetric. */
  lemma MirroredRs(rs: seq<real>, k: nat)
    requires k < 2 * |rs|
    ensures MirrorNegated(rs, NegReal)[2 * |rs| - 1 - k] == -MirrorNegated(rs, NegReal)[k]
  {
    assert forall x :: NegReal(NegReal(x)) == x;
    MirrorNegatedSymmetric(rs, NegReal, k);
  }

  /** The polygon's first half is the section itself, its second half the section's mirror image. */
  lemma BuildMirrorPolygonHalves(rs: seq<F64>, zs: seq<F64>, k: nat)
    requires |rs| == |zs| && k < |rs|
    ensures var poly := BuildMirrorPolygon(rs, zs);
      && poly.0[k] == rs[k] && poly.1[k] == zs[k]
      && poly.0[2 * |rs| - 1 - k] == Neg(rs[k]) && poly.1[2 * |rs| - 1 - k] == zs[k]
  {
    var n := |rs|;
    var poly := BuildMirrorPolygon(rs, zs);
    assert poly.0[..n][k] == rs[k];
    assert poly.1[..n][k] == zs[k];
    assert poly.0[2 * n - 1 - k] == Neg(rs[k]);
    assert poly.1[2 * n - 1 - k] == zs[k];
  }

  // ------------------------------------------------------------ swap and flips

  /**
   * `apply_rz_transforms(R, Z)` (nested in `cmd_plot`, with `swap_xy`,
   * `flip_x` and `flip_y` as parameters): swap R and Z, then negate R, then Z.
   */
  function ApplyRZ<T>(rz: (T, T), swap: bool, flipR: bool, flipZ: bool, neg: T -> T): (T, T) {
    var (r, z) := if swap then (rz.1, rz.0) else rz;
    (if flipR then neg(r) else r, if flipZ then neg(z) else z)
  }

  /**
   * The transform is undone by the same swap with the two flips exchanged
   * when swapping, and by itself when not: without a swap it is an involution.
   */
  lemma ApplyRZInverse<T>(rz: (T, T), swap: bool, flipR: bool, flipZ: bool, neg: T -> T)
    requires forall x :: neg(neg(x)) == x
    ensures ApplyRZ(ApplyRZ(rz, swap, flipR, flipZ, neg), swap, if swap then flipZ else flipR, if swap then flipR else flipZ, neg) == rz
  {
  }

  /**
   * The transform only moves and reflects: the magnitudes of the new R and Z
   * are those of x and y, in either order, and each stays in place without a swap.
   */
  lemma ApplyRZMagnitudes(rz: (F64, F64), swap: bool, flipR: bool, flipZ: bool)
    ensures var out := ApplyRZ(rz, swap, flipR, flipZ, Neg);
      && multiset{Abs(out.0), Abs(out.1)} == multiset{Abs(rz.0), Abs(rz.1)}
      && (!swap ==> Abs(out.0) == Abs(rz.0) && Abs(out.1) == Abs(rz.1))
  {
    AbsNeg(rz.0);
    AbsNeg(rz.1);
  }

  /**
   * `_polyline_to_section_RZ`: one (Z, R) pair per point, in order, with
   * R = x and Z = y before the swap and flips; z and the filtering options
   * play no part.
   */
  method PolylineToSectionRZ(pts: seq<Point3>, swap: bool, flipR: bool, flipZ: bool) returns (zs: seq<F64>, rs: seq<F64>)
    ensures |zs| == |pts| && |rs| == |pts|
    ensures forall i :: 0 <= i < |pts| ==> (rs[i], zs[i]) == ApplyRZ((pts[i].x, pts[i].y), swap, flipR, flipZ, Neg)
  {
    zs, rs := [], [];
    for i := 0 to |pts|
      invariant |zs| == i && |rs| == i
      invariant forall j :: 0 <= j < i ==> (rs[j], zs[j]) == ApplyRZ((pts[j].x, pts[j].y), swap, flipR, flipZ, Neg)
    {
      var z := pts[i].y;
      var r := pts[i].x;
      if swap {
        z, r := r, z;
      }
      if flipR {
        r := Neg(r);
      }
      if flipZ {
        z := Neg(z);
      }
      zs := zs + [z];
      rs := rs + [r];
    }
  }

  // ------------------------------------------------------------ tool outline

  function Max(a: real, b: real): (m: real)
    ensures m >= a && m >= b && (m == a || m == b)
  {
    if b > a then b else a
  }

  /**
   * `tool_cylinder_profile(tool, tip_z)`: the one-sided (z, r) outline of a
   * cylinder of radius `max(dia / 2, 0)` ending at `tip_z` and reaching back
   * `max(length, 0)`. The outline is a rectangle: it starts and ends on the
   * axis, its two long sides sit at the same non-negative radius, and it spans
   * from `tip_z` back by the clamped length, never beyond the tip.
   */
  function ToolCylinderProfile(dia: real, length: real, tipZ: real): (p: seq<ZR>)
    ensures |p| == 4
    ensures p[0].r == 0.0 && p[3].r == 0.0 && p[1].r == p[2].r >= 0.0
    ensures dia >= 0.0 ==> p[1].r == dia / 2.0
    ensures dia < 0.0 ==> p[1].r == 0.0
    ensures p[0].z == p[1].z <= p[2].z == p[3].z == tipZ
    ensures length >= 0.0 ==> tipZ - p[0].z == length
    ensures length < 0.0 ==> p[0].z == tipZ
  {
    var r := Max(dia * 0.5, 0.0);
    var z0 := tipZ - Max(length, 0.0);
    [ZR(z0, 0.0), ZR(z0, r), ZR(tipZ, r), ZR(tipZ, 0.0)]
  }

  /** Mirrored, the tool outline is eight points: the rectangle and its reflection across the axis. */
  lemma ToolOutlineMirrored(dia: real, length: real, tipZ: real)
    ensures var p := ToolCylinderProfile(dia, length, tipZ);
      var zr := MirrorProfile(p);
      && |zr.zs| == 8 && |zr.rs| == 8
      && zr.zs[..4] == Zs(p) && zr.rs[..4] == Rs(p)
      && forall k :: 4 <= k < 8 ==> zr.zs[k] == p[7 - k].z && zr.rs[k] == -p[7 - k].r
  {
  }

  /** The two mirrored lists of a profile, position by position. */
  lemma MirroredProfileLists(profile: seq<ZR>)
    ensures forall k :: 0 <= k < |profile| ==>
      MirrorSame(Zs(profile))[k] == profile[k].z && MirrorNegated(Rs(profile), NegReal)[k] == profile[k].r
    ensures forall k :: |profile| <= k < 2 * |profile| ==>
      && MirrorSame(Zs(profile))[k] == profile[2 * |profile| - 1 - k].z
      && MirrorNegated(Rs(profile), NegReal)[k] == -profile[2 * |profile| - 1 - k].r
  {
    forall k | 0 <= k < |profile|
      ensures MirrorSame(Zs(profile))[k] == profile[k].z
      ensures MirrorNegated(Rs(profile), NegReal)[k] == profile[k].r
    {
      MirroredProfileFirst(profile, k);
    }
    forall k | |profile| <= k < 2 * |profile|
      ensures MirrorSame(Zs(profile))[k] == profile[2 * |profile| - 1 - k].z
      ensures MirrorNegated(Rs(profile), NegReal)[k] == -profile[2 * |profile| - 1 - k].r
    {
      MirroredProfileSecond(profile, k);
    }
  }

  lemma MirroredProfileFirst(profile: seq<ZR>, k: nat)
    requires k < |profile|
    ensures MirrorSame(Zs(profile))[k] == profile[k].z
    ensures MirrorNegated(Rs(profile), NegReal)[k] == profile[k].r
  {
    assert MirrorSame(Zs(profile))[..|profile|][k] == Zs(profile)[k];
    assert MirrorNegated(Rs(profile), NegReal)[..|profile|][k] == Rs(profile)[k];
  }

  lemma MirroredProfileSecond(profile: seq<ZR>, k: nat)
    requires |profile| <= k < 2 * |profile|
    ensures MirrorSame(Zs(profile))[k] == profile[2 * |profile| - 1 - k].z
    ensures MirrorNegated(Rs(profile), NegReal)[k] == -profile[2 * |profile| - 1 - k].r
  {
    MirroredZsSecond(profile, k);
    MirroredRsSecond(profile, k);
  }

  lemma MirroredZsSecond(profile: seq<ZR>, k: nat)
    requires |profile| <= k < 2 * |profile|
    ensures MirrorSame(Zs(profile))[k] == profile[2 * |profile| - 1 - k].z
  {
    MirrorSameAt(Zs(profile), k);
  }

  lemma MirroredRsSecond(profile: seq<ZR>, k: nat)
    requires |profile| <= k < 2 * |profile|
    ensures MirrorNegated(Rs(profile), NegReal)[k] == -profile[2 * |profile| - 1 - k].r
  {
    MirroredRsAt(Rs(profile), k);
  }

  // ------------------------------------------------------------ diameter

  /** A value handed to `_safe_max_pos`: `None`, something `float()` rejects, or a number. */
  datatype Cell = Null | NotNumeric | Num(v: real)

  predicate Positive(c: Cell) { c.Num? && c.v > 0.0 }

  /**
   * `_safe_max_pos(*vals)`: the largest of the values that are numbers and
   * positive, skipping `None` and values `float()` rejects; `0.0` when there
   * is none.
   */
  method SafeMaxPos(vals: seq<Cell>) returns (m: real)
    ensures m >= 0.0
    ensures m == 0.0 <==> forall i :: 0 <= i < |vals| ==> !Positive(vals[i])
    ensures m > 0.0 ==> exists i :: 0 <= i < |vals| && vals[i] == Num(m)
    ensures forall i :: 0 <= i < |vals| && Positive(vals[i]) ==> vals[i].v <= m
  {
    var cands: seq<real> := [];
    for i := 0 to |vals|
      invariant forall c :: c in cands ==> c > 0.0 && Num(c) in vals[..i]
      invariant forall j :: 0 <= j < i && Positive(vals[j]) ==> vals[j].v in cands
    {
      match vals[i]
      case Null =>
      case NotNumeric =>
      case Num(fv) =>
        if fv > 0.0 {
          cands := cands + [fv];
        }
    }
    if cands == [] {
      assert vals[..|vals|] == vals;
      return 0.0;
    }
    m := MaxOf(cands);
    assert vals[..|vals|] == vals;
  }

  /** Python's `max` over a non-empty list of reals. */
  function MaxOf(xs: seq<real>): (m: real)
    requires xs != []
    ensures m in xs && forall x :: x in xs ==> x <= m
  {
    if |xs| == 1 then xs[0]
    else
      var rest := MaxOf(xs[1..]);
      assert forall x :: x in xs ==> x == xs[0] || x in xs[1..];
      if xs[0] >= rest then xs[0] else rest
  }
}
