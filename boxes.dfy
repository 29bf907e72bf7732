/** Box geometry of the detection post-processing in trfk-sign-label/models.py:
    centre-to-corner conversion, box areas and intersection-over-union (IOU),
    including what numpy's element-wise division yields when the union is zero. */
module Boxes {

  /** One row of an n×4 box array: four exact reals. In centre form the
      columns are (cx, cy, w, h); in corner form (x1, y1, x2, y2). */
  type Box = (real, real, real, real)

  function Max(a: real, b: real): real { if a >= b then a else b }
  function Min(a: real, b: real): real { if a <= b then a else b }

  /** Corner-form box whose corners are ordered. */
  predicate WellFormed(b: Box) { b.0 <= b.2 && b.1 <= b.3 }

  /** xywh2xyxy on one row: the result spans exactly w by h and has the
      given centre as its midpoint; non-negative sizes give ordered corners.
      Boxes are values, so the caller's row is never changed. */
  function XywhToXyxy(b: Box): (r: Box)
    ensures r.2 - r.0 == b.2 && r.3 - r.1 == b.3
    ensures (r.0 + r.2) / 2.0 == b.0 && (r.1 + r.3) / 2.0 == b.1
    ensures b.2 >= 0.0 && b.3 >= 0.0 <==> WellFormed(r)
  {
    (b.0 - b.2 / 2.0, b.1 - b.3 / 2.0, b.0 + b.2 / 2.0, b.1 + b.3 / 2.0)
  }

  /** The area as the suppression code computes it from the corners: not
      negative for ordered corners, and zero exactly for a degenerate box. */
  function Area(b: Box): (a: real)
    ensures WellFormed(b) ==> a >= 0.0
    ensures a == 0.0 <==> b.0 == b.2 || b.1 == b.3
  {
    (b.2 - b.0) * (b.3 - b.1)
  }

  /** Length of the overlap of [lo1, hi1] and [lo2, hi2] on one axis,
      clamped at zero. */
  function Overlap(lo1: real, hi1: real, lo2: real, hi2: real): (r: real)
    ensures r >= 0.0
    ensures r == 0.0 <==> Min(hi1, hi2) <= Max(lo1, lo2)
    ensures lo1 <= hi1 && lo2 <= hi2 ==> r <= hi1 - lo1 && r <= hi2 - lo2
  {
    Max(Min(hi1, hi2) - Max(lo1, lo2), 0.0)
  }

  /** Overlap of the two boxes, each side clamped at zero. */
  function Intersection(a: Box, b: Box): (r: real)
    ensures r >= 0.0
    ensures r == 0.0 <==> Min(a.2, b.2) <= Max(a.0, b.0) || Min(a.3, b.3) <= Max(a.1, b.1)
  {
    Overlap(a.0, a.2, b.0, b.2) * Overlap(a.1, a.3, b.1, b.3)
  }

  /** The union as area + area − intersection. For ordered corners it is
      at least each area, so at least the intersection, and not negative. */
  function Union(a: Box, b: Box): (u: real)
    ensures WellFormed(a) && WellFormed(b) ==> u >= Area(a) >= 0.0 && u >= Area(b) >= 0.0
    ensures WellFormed(a) && WellFormed(b) ==> u >= Intersection(a, b)
  {
    if WellFormed(a) && WellFormed(b) then
      IntersectionBounded(a, b);
      Area(a) + Area(b) - Intersection(a, b)
    else
      Area(a) + Area(b) - Intersection(a, b)
  }

  /** What numpy's float division of an intersection by a union can give. */
  datatype Ratio = Finite(value: real) | PosInfinity | NegInfinity | NaN

  /** x / y with IEEE semantics for a zero divisor: ±inf, or NaN for 0/0. */
  function Divide(x: real, y: real): (r: Ratio)
    ensures r.Finite? <==> y != 0.0
    ensures r.NaN? <==> x == 0.0 && y == 0.0
    ensures r.Finite? ==> r.value * y == x
  {
    if y != 0.0 then Finite(x / y)
    else if x > 0.0 then PosInfinity
    else if x < 0.0 then NegInfinity
    else NaN
  }

  /** The comparison `ious > threshold`: false for NaN, true for +inf. */
  predicate Exceeds(r: Ratio, threshold: real)
  {
    match r
    case Finite(v) => v > threshold
    case PosInfinity => true
    case NegInfinity => false
    case NaN => false
  }

  /** A ratio above a threshold is above every lower threshold too. */
  lemma ExceedsMonotone(r: Ratio, lower: real, higher: real)
    requires lower <= higher && Exceeds(r, higher)
    ensures Exceeds(r, lower)
  {
  }

  /** Only a positive intersection can be above a non-negative threshold:
      a zero one divides to 0, NaN or (over a negative union) 0 again. */
  lemma OnlyOverlapsExceed(a: Box, b: Box, threshold: real)
    requires threshold >= 0.0 && Exceeds(Divide(Intersection(a, b), Union(a, b)), threshold)
    ensures Intersection(a, b) > 0.0
  {
  }

  /** A quotient of a part by a positive whole lies in [0, 1]. */
  lemma QuotientInUnit(i: real, u: real, q: real)
    requires 0.0 <= i <= u && u > 0.0 && q * u == i
    ensures 0.0 <= q <= 1.0
  {
  }

  /** IOU of two boxes, with areas computed from their own corners. For
      ordered corners it is never infinite, and a finite IOU lies in
      [0, 1]; a zero union gives NaN. */
  function Iou(a: Box, b: Box): (r: Ratio)
    ensures WellFormed(a) && WellFormed(b) ==> !r.PosInfinity? && !r.NegInfinity?
    ensures WellFormed(a) && WellFormed(b) && r.Finite? ==> 0.0 <= r.value <= 1.0
  {
    var i, u := Intersection(a, b), Union(a, b);
    if WellFormed(a) && WellFormed(b) then
      assert 0.0 <= i <= u;
      if u != 0.0 then
        QuotientInUnit(i, u, i / u);
        Divide(i, u)
      else
        assert i == 0.0;
        Divide(i, u)
    else
      Divide(i, u)
  }

  /** compute_iou: the IOU of `box` against every row of `boxes`, given the
      areas the caller computed; when those areas are the boxes' own, each
      entry is the pairwise IOU. */
  function ComputeIous(box: Box, boxes: seq<Box>, boxArea: real, boxesArea: seq<real>): (ious: seq<Ratio>)
    requires |boxes| == |boxesArea|
    ensures |ious| == |boxes|
    ensures boxArea == Area(box) && (forall k :: 0 <= k < |boxes| ==> boxesArea[k] == Area(boxes[k])) ==>
              forall k :: 0 <= k < |boxes| ==> ious[k] == Iou(box, boxes[k])
  {
    seq(|boxes|, k requires 0 <= k < |boxes| =>
      Divide(Intersection(box, boxes[k]), boxArea + boxesArea[k] - Intersection(box, boxes[k])))
  }

  lemma MulMonotone(p: real, bigP: real, q: real, bigQ: real)
    requires 0.0 <= p <= bigP && 0.0 <= q <= bigQ
    ensures p * q <= bigP * bigQ
  {
    assert p * q <= bigP * q;
    assert bigP * q <= bigP * bigQ;
  }

  /** For ordered corners the overlap never exceeds either box's area. */
  lemma IntersectionBounded(a: Box, b: Box)
    requires WellFormed(a) && WellFormed(b)
    ensures 0.0 <= Intersection(a, b) <= Area(a) && Intersection(a, b) <= Area(b)
  {
    OverlapWithin(a, b);
    OverlapWithin(b, a);
    assert Intersection(b, a) == Intersection(a, b) by {
      assert Overlap(a.0, a.2, b.0, b.2) == Overlap(b.0, b.2, a.0, a.2);
      assert Overlap(a.1, a.3, b.1, b.3) == Overlap(b.1, b.3, a.1, a.3);
    }
  }

  /** The overlap of `a` with `b` fits inside `a`. */
  lemma OverlapWithin(a: Box, b: Box)
    requires WellFormed(a) && WellFormed(b)
    ensures Intersection(a, b) <= Area(a)
  {
    MulMonotone(Overlap(a.0, a.2, b.0, b.2), a.2 - a.0, Overlap(a.1, a.3, b.1, b.3), a.3 - a.1);
  }

  /** IOU does not depend on the order of its two boxes. */
  lemma IouSymmetric(a: Box, b: Box)
    ensures Iou(a, b) == Iou(b, a)
  {
    assert Intersection(a, b) == Intersection(b, a) by {
      assert Overlap(a.0, a.2, b.0, b.2) == Overlap(b.0, b.2, a.0, a.2);
      assert Overlap(a.1, a.3, b.1, b.3) == Overlap(b.1, b.3, a.1, a.3);
    }
  }

  /** Boxes that do not overlap have IOU 0 (or NaN when both are empty),
      so no non-negative threshold suppresses one by the other. */
  lemma DisjointNotSuppressed(a: Box, b: Box, threshold: real)
    requires Min(a.2, b.2) <= Max(a.0, b.0) || Min(a.3, b.3) <= Max(a.1, b.1)
    requires threshold >= 0.0
    ensures Iou(a, b) == Finite(0.0) || Iou(a, b) == NaN
    ensures !Exceeds(Iou(a, b), threshold)
  {
    assert Intersection(a, b) == 0.0;
  }

  /** A well-formed box with positive area has IOU 1 with itself. */
  lemma IouIdentical(a: Box)
    requires WellFormed(a) && Area(a) > 0.0
    ensures Iou(a, a) == Finite(1.0)
  {
    var ar := Area(a);
    assert Intersection(a, a) == ar;
    assert Union(a, a) == ar;
    assert ar / ar == 1.0;
  }

  /** For well-formed boxes the numpy test `inter / union > threshold`
      (with 0/0 giving NaN, which is never above a threshold) agrees with
      the cross-multiplied `inter > threshold * union`. */
  lemma ExceedsIffCrossMultiplied(a: Box, b: Box, threshold: real)
    requires WellFormed(a) && WellFormed(b)
    ensures Exceeds(Iou(a, b), threshold) <==> Intersection(a, b) > threshold * Union(a, b)
  {
    var i, u := Intersection(a, b), Union(a, b);
    if u == 0.0 {
      assert i == 0.0;
    } else {
      assert u > 0.0;
      var q := i / u;
      assert q * u == i;
      if q > threshold {
        assert q * u > threshold * u;
      } else {
        assert q * u <= threshold * u;
      }
    }
  }
}
