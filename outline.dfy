/**
 * The state of one glyph outline as a value, and the operations that
 * assemble composite glyphs stated as functions of that value. The class
 * `Glyphs.GlyphVector` is proved to perform exactly these functions in place.
 */
module Outlines {
  import opened Primitives

  /** A point in font units. Coordinates are exact reals rather than IEEE floats. */
  datatype Vec2 = Vec2(x: real, y: real)

  /** An axis-aligned box given by its lower-left and upper-right corners. */
  datatype Bounds = Bounds(min: Vec2, max: Vec2)

  /** The 2x2 linear map `(x, y) -> (m00*x + m10*y, m01*x + m11*y)`. */
  datatype Matrix2 = Matrix2(m00: real, m01: real, m10: real, m11: real)

  /** The four co-indexed pieces of one outline: control points, on-curve flags, contour end points, bounds. */
  datatype Outline = Outline(points: seq<Vec2>, onCurves: seq<bool>, endPoints: seq<u16>, bounds: Bounds)

  /**
   * The outline's pieces agree: one flag per point, at most one contour per
   * point, contour ends strictly ascending and the last one closing on the
   * last point.
   */
  predicate WellFormed(o: Outline) {
    && |o.points| == |o.onCurves|
    && |o.endPoints| <= |o.points|
    && StrictlyAscending(o.endPoints)
    && (|o.endPoints| > 0 ==> o.endPoints[|o.endPoints| - 1] == |o.points| - 1)
  }

  predicate StrictlyAscending(s: seq<int>) {
    forall j, k :: 0 <= j < k < |s| ==> s[j] < s[k]
  }

  // ---------------------------------------------------------------------
  // Translation

  /** The point `p` moved by `(dx, dy)`. */
  function Offset(p: Vec2, dx: int, dy: int): Vec2 {
    Vec2(p.x + dx as real, p.y + dy as real)
  }

  /**
   * Moving a point is undone by the opposite move, two moves add up, and
   * two points moved alike keep their difference.
   */
  lemma OffsetIsTranslation(p: Vec2, q: Vec2, dx: int, dy: int, ex: int, ey: int)
    ensures Offset(Offset(p, dx, dy), -dx, -dy) == p
    ensures Offset(Offset(p, dx, dy), ex, ey) == Offset(p, dx + ex, dy + ey)
    ensures Offset(p, dx, dy).x - Offset(q, dx, dy).x == p.x - q.x
    ensures Offset(p, dx, dy).y - Offset(q, dx, dy).y == p.y - q.y
  {
  }

  /** The box `b` moved by `(dx, dy)`. */
  function OffsetBounds(b: Bounds, dx: int, dy: int): Bounds {
    Bounds(Offset(b.min, dx, dy), Offset(b.max, dx, dy))
  }

  /** Every point moved by `(dx, dy)`; the bounds are moved too, not recomputed from the points. */
  function OffsetXy(o: Outline, dx: int, dy: int): Outline {
    o.(points := seq(|o.points|, i requires 0 <= i < |o.points| => Offset(o.points[i], dx, dy)),
       bounds := OffsetBounds(o.bounds, dx, dy))
  }

  /** Translation changes only point positions and bounds, keeps the point count and well-formedness. */
  lemma OffsetXyKeepsShape(o: Outline, dx: int, dy: int)
    ensures var r := OffsetXy(o, dx, dy);
            && |r.points| == |o.points| && r.onCurves == o.onCurves && r.endPoints == o.endPoints
            && (WellFormed(o) <==> WellFormed(r))
  {
  }

  /** Translating by `(dx, dy)` and then by `(-dx, -dy)` restores points and bounds exactly. */
  lemma OffsetXyRoundTrip(o: Outline, dx: int, dy: int)
    ensures OffsetXy(OffsetXy(o, dx, dy), -dx, -dy) == o
  {
    var back := OffsetXy(OffsetXy(o, dx, dy), -dx, -dy);
    assert back.points == o.points;
  }

  /** Two translations add up to one. */
  lemma OffsetXyCompose(o: Outline, dx: int, dy: int, ex: int, ey: int)
    ensures OffsetXy(OffsetXy(o, dx, dy), ex, ey) == OffsetXy(o, dx + ex, dy + ey)
  {
    var lhs := OffsetXy(OffsetXy(o, dx, dy), ex, ey);
    var rhs := OffsetXy(o, dx + ex, dy + ey);
    assert lhs.points == rhs.points;
  }

  // ---------------------------------------------------------------------
  // Appending

  /** Appending as the outline does it: the other outline's points are added, nothing else changes. */
  function AppendAsWritten(o: Outline, src: Outline): Outline {
    o.(points := o.points + src.points)
  }

  /** The first points are the old ones, the rest are `src`'s in order; flags, contours and bounds are left as they were. */
  lemma AppendAsWrittenContents(o: Outline, src: Outline)
    ensures var r := AppendAsWritten(o, src);
            && |r.points| == |o.points| + |src.points|
            && r.points[..|o.points|] == o.points
            && r.points[|o.points|..] == src.points
            && r.onCurves == o.onCurves && r.endPoints == o.endPoints && r.bounds == o.bounds
  {
    var r := AppendAsWritten(o, src);
    assert r.points[..|o.points|] == o.points;
    assert r.points[|o.points|..] == src.points;
  }

  /** Appending a non-empty outline as written leaves a point without an on-curve flag: the result is never well formed. */
  lemma AppendAsWrittenBreaksFlags(o: Outline, src: Outline)
    requires WellFormed(o) && |src.points| > 0
    ensures var r := AppendAsWritten(o, src);
            |r.onCurves| < |r.points| && !WellFormed(r)
  {
  }

  /** One point with one contour, appended to itself: two points but one flag and one contour ending at point 0. */
  lemma AppendAsWrittenCounterexample()
    ensures var o := Outline([Vec2(0.0, 0.0)], [true], [0], Bounds(Vec2(0.0, 0.0), Vec2(0.0, 0.0)));
            var r := AppendAsWritten(o, o);
            WellFormed(o) && |r.points| == 2 && |r.onCurves| == 1 && r.endPoints == [0] && !WellFormed(r)
  {
  }

  /** The contour end points of `ends` moved past `base` earlier points. */
  function ShiftEndPoints(ends: seq<u16>, base: nat): (r: seq<u16>)
    requires forall k :: 0 <= k < |ends| ==> base + ends[k] < 0x1_0000
    ensures |r| == |ends|
    ensures forall k :: 0 <= k < |r| ==> base <= r[k]
    ensures StrictlyAscending(ends) ==> StrictlyAscending(r)
    ensures |ends| > 0 ==> r[|r| - 1] == base + ends[|ends| - 1]
  {
    seq(|ends|, k requires 0 <= k < |ends| => base + ends[k])
  }

  /** `src`'s end points still fit in 16 bits once moved past `o`'s points. */
  predicate EndPointsFit(o: Outline, src: Outline) {
    forall k :: 0 <= k < |src.endPoints| ==> |o.points| + src.endPoints[k] < 0x1_0000
  }

  /** Appending with the flags and the contours extended along with the points. */
  function AppendConsistent(o: Outline, src: Outline): Outline
    requires EndPointsFit(o, src)
  {
    Outline(o.points + src.points, o.onCurves + src.onCurves,
            o.endPoints + ShiftEndPoints(src.endPoints, |o.points|), o.bounds)
  }

  /**
   * The consistent append keeps the old points, flags and contours first and
   * puts `src`'s after them, its contour ends shifted by the old point count.
   */
  lemma AppendConsistentContents(o: Outline, src: Outline)
    requires EndPointsFit(o, src)
    ensures var r := AppendConsistent(o, src);
            && r.points[..|o.points|] == o.points && r.points[|o.points|..] == src.points
            && r.onCurves[..|o.onCurves|] == o.onCurves && r.onCurves[|o.onCurves|..] == src.onCurves
            && r.endPoints[..|o.endPoints|] == o.endPoints
            && |r.endPoints| == |o.endPoints| + |src.endPoints|
            && (forall k :: 0 <= k < |src.endPoints| ==>
                  r.endPoints[|o.endPoints| + k] == |o.points| + src.endPoints[k])
            && r.bounds == o.bounds
  {
    var r := AppendConsistent(o, src);
    assert r.points[..|o.points|] == o.points;
    assert r.points[|o.points|..] == src.points;
    assert r.onCurves[..|o.onCurves|] == o.onCurves;
    assert r.onCurves[|o.onCurves|..] == src.onCurves;
    assert r.endPoints[..|o.endPoints|] == o.endPoints;
  }

  /**
   * Extending all three parallel pieces keeps the outline well formed: the
   * appended contours follow the old ones, each shifted by the old point count.
   */
  lemma AppendConsistentWellFormed(o: Outline, src: Outline)
    requires WellFormed(o) && WellFormed(src) && EndPointsFit(o, src)
    requires src.points == [] || src.endPoints != []
    ensures var r := AppendConsistent(o, src);
            WellFormed(r)
  {
    var r := AppendConsistent(o, src);
    var base := |o.points|;
    var shifted := ShiftEndPoints(src.endPoints, base);
    if |o.endPoints| > 0 {
      assert o.endPoints[|o.endPoints| - 1] == base - 1;
    }
    AppendAscending(o.endPoints, shifted, base);
    if |src.endPoints| > 0 {
      assert r.endPoints[|r.endPoints| - 1] == shifted[|shifted| - 1];
    }
  }

  /** Joining two ascending runs, the second above `base` and the first ending below it, gives an ascending run. */
  lemma AppendAscending(a: seq<u16>, b: seq<u16>, base: int)
    requires StrictlyAscending(a) && StrictlyAscending(b)
    requires |a| > 0 ==> a[|a| - 1] < base
    requires forall k :: 0 <= k < |b| ==> base <= b[k]
    ensures StrictlyAscending(a + b)
  {
    var e := a + b;
    forall j, k | 0 <= j < k < |e| ensures e[j] < e[k] {
      if k < |a| {
        assert e[j] == a[j] && e[k] == a[k];
      } else if j < |a| {
        assert e[j] == a[j] <= a[|a| - 1];
        assert e[k] == b[k - |a|];
      } else {
        assert e[j] == b[j - |a|] && e[k] == b[k - |a|];
      }
    }
  }

  // ---------------------------------------------------------------------
  // Linear transformation

  /**
   * Rounding to the nearest integer, halves to the even neighbour (the
   * default midpoint rule of .NET's `Math.Round`).
   */
  function RoundHalfEven(v: real): (r: int)
    ensures -0.5 <= r as real - v <= 0.5
    ensures (r as real - v == 0.5 || v - r as real == 0.5) ==> r % 2 == 0
  {
    var f := v.Floor;
    var frac := v - f as real;
    if frac < 0.5 then f
    else if frac > 0.5 then f + 1
    else if f % 2 == 0 then f
    else f + 1
  }

  /** An integer is its own rounding. */
  lemma RoundHalfEvenOfInt(n: int)
    ensures RoundHalfEven(n as real) == n
  {
    var r := RoundHalfEven(n as real);
    assert r - n <= 0 by {
      assert (r - n) as real <= 0.5;
    }
    assert n - r <= 0 by {
      assert (n - r) as real <= 0.5;
    }
  }

  /** The image of `p` under `m`. */
  function TransformPoint(p: Vec2, m: Matrix2): Vec2 {
    Vec2(m.m00 * p.x + m.m10 * p.y, m.m01 * p.x + m.m11 * p.y)
  }

  /** The image of every point under `m`, in order. */
  function TransformAll(ps: seq<Vec2>, m: Matrix2): seq<Vec2> {
    seq(|ps|, i requires 0 <= i < |ps| => TransformPoint(ps[i], m))
  }

  /** The matrix of `m` followed by `n`: the product `m * n` for points written as rows. */
  function Then(m: Matrix2, n: Matrix2): Matrix2 {
    Matrix2(m.m00 * n.m00 + m.m01 * n.m10, m.m00 * n.m01 + m.m01 * n.m11,
            m.m10 * n.m00 + m.m11 * n.m10, m.m10 * n.m01 + m.m11 * n.m11)
  }

  /** The identity matrix maps every point list to itself. */
  lemma TransformAllIdentity(ps: seq<Vec2>)
    ensures TransformAll(ps, Matrix2(1.0, 0.0, 0.0, 1.0)) == ps
  {
    assert forall i :: 0 <= i < |ps| ==> TransformAll(ps, Matrix2(1.0, 0.0, 0.0, 1.0))[i] == ps[i];
  }

  /** Transforming by `m` and then by `n` is transforming once by their product. */
  lemma TransformAllCompose(ps: seq<Vec2>, m: Matrix2, n: Matrix2)
    ensures TransformAll(TransformAll(ps, m), n) == TransformAll(ps, Then(m, n))
  {
    forall i | 0 <= i < |ps|
      ensures TransformAll(TransformAll(ps, m), n)[i] == TransformAll(ps, Then(m, n))[i]
    {
      TransformPointCompose(ps[i], m, n);
    }
  }

  lemma TransformPointCompose(p: Vec2, m: Matrix2, n: Matrix2)
    ensures TransformPoint(TransformPoint(p, m), n) == TransformPoint(p, Then(m, n))
  {
    LinearCompose(p.x, p.y, m.m00, m.m10, m.m01, m.m11, n.m00, n.m10);
    LinearCompose(p.x, p.y, m.m00, m.m10, m.m01, m.m11, n.m01, n.m11);
  }

  /** `a * (u * x + v * y) + b * (w * x + z * y)` regrouped by `x` and `y`. */
  lemma LinearCompose(x: real, y: real, u: real, v: real, w: real, z: real, a: real, b: real)
    ensures a * (u * x + v * y) + b * (w * x + z * y) == (u * a + w * b) * x + (v * a + z * b) * y
  {
    calc {
      a * (u * x + v * y) + b * (w * x + z * y);
      a * (u * x) + a * (v * y) + b * (w * x) + b * (z * y);
      (u * a) * x + (v * a) * y + (w * b) * x + (z * b) * y;
      (u * a + w * b) * x + (v * a + z * b) * y;
    }
  }

  /** The rounded x coordinates of the points, in order. */
  function RoundedXs(ps: seq<Vec2>): seq<int> {
    seq(|ps|, i requires 0 <= i < |ps| => RoundHalfEven(ps[i].x))
  }

  /** The rounded y coordinates of the points, in order. */
  function RoundedYs(ps: seq<Vec2>): seq<int> {
    seq(|ps|, i requires 0 <= i < |ps| => RoundHalfEven(ps[i].y))
  }

  function Min(a: int, b: int): int {
    if b < a then b else a
  }

  function Max(a: int, b: int): int {
    if b > a then b else a
  }

  /** The running minimum of `xs`, started at 0 rather than at the first value. */
  function SeededMin(xs: seq<int>): int {
    if xs == [] then 0 else Min(SeededMin(xs[..|xs| - 1]), xs[|xs| - 1])
  }

  /** The running maximum of `xs`, started at 0 rather than at the first value. */
  function SeededMax(xs: seq<int>): int {
    if xs == [] then 0 else Max(SeededMax(xs[..|xs| - 1]), xs[|xs| - 1])
  }

  /**
   * The origin-seeded extremes bracket 0 and every value, and each is either
   * 0 or one of the values.
   */
  lemma {:induction false} SeededExtremes(xs: seq<int>)
    ensures SeededMin(xs) <= 0 <= SeededMax(xs)
    ensures forall i :: 0 <= i < |xs| ==> SeededMin(xs) <= xs[i] <= SeededMax(xs)
    ensures SeededMin(xs) == 0 || exists i :: 0 <= i < |xs| && xs[i] == SeededMin(xs)
    ensures SeededMax(xs) == 0 || exists i :: 0 <= i < |xs| && xs[i] == SeededMax(xs)
  {
    if xs != [] {
      var prefix := xs[..|xs| - 1];
      SeededExtremes(prefix);
      assert forall i :: 0 <= i < |prefix| ==> prefix[i] == xs[i];
    }
  }

  /** Extending the prefix `xs[..i]` by `xs[i]` updates the running extremes by one comparison each. */
  lemma SeededStep(xs: seq<int>, i: nat)
    requires i < |xs|
    ensures SeededMin(xs[..i + 1]) == Min(SeededMin(xs[..i]), xs[i])
    ensures SeededMax(xs[..i + 1]) == Max(SeededMax(xs[..i]), xs[i])
  {
    assert xs[..i + 1][..i] == xs[..i];
  }

  /** The running extremes of values that fit 16 bits fit 16 bits too. */
  lemma SeededFitI16(xs: seq<int>)
    requires forall i :: 0 <= i < |xs| ==> -0x8000 <= xs[i] < 0x8000
    ensures -0x8000 <= SeededMin(xs) && SeededMax(xs) < 0x8000
  {
    SeededExtremes(xs);
    if SeededMin(xs) != 0 {
      var i :| 0 <= i < |xs| && xs[i] == SeededMin(xs);
    }
    if SeededMax(xs) != 0 {
      var i :| 0 <= i < |xs| && xs[i] == SeededMax(xs);
    }
  }

  /** The box the transform stores: the origin-seeded extremes of the rounded coordinates of `ps`. */
  function SeededBounds(ps: seq<Vec2>): Bounds {
    Bounds(Vec2(SeededMin(RoundedXs(ps)) as real, SeededMin(RoundedYs(ps)) as real),
           Vec2(SeededMax(RoundedXs(ps)) as real, SeededMax(RoundedYs(ps)) as real))
  }

  /** Every rounded coordinate of `ps` fits the signed 16-bit range the bounds are stored in. */
  predicate RoundedFitI16(ps: seq<Vec2>) {
    forall i :: 0 <= i < |ps| ==>
      -0x8000 <= RoundHalfEven(ps[i].x) < 0x8000 && -0x8000 <= RoundHalfEven(ps[i].y) < 0x8000
  }

  /** The outline with every point mapped by `m` (unrounded) and the bounds recomputed from the rounded images. */
  function TransformWithMatrix(o: Outline, m: Matrix2): Outline {
    var ps := TransformAll(o.points, m);
    o.(points := ps, bounds := SeededBounds(ps))
  }

  /**
   * After a transform the bounds contain the origin and every rounded image
   * point, and each bound is 0 or one of those rounded coordinates.
   */
  lemma TransformBounds(o: Outline, m: Matrix2)
    ensures var r := TransformWithMatrix(o, m);
            var xs := RoundedXs(r.points);
            var ys := RoundedYs(r.points);
            && |r.points| == |o.points|
            && r.bounds.min.x <= 0.0 <= r.bounds.max.x && r.bounds.min.y <= 0.0 <= r.bounds.max.y
            && (forall i :: 0 <= i < |r.points| ==>
                  r.bounds.min.x <= xs[i] as real <= r.bounds.max.x
                  && r.bounds.min.y <= ys[i] as real <= r.bounds.max.y)
            && (r.bounds.min.x == 0.0 || exists i :: 0 <= i < |xs| && xs[i] as real == r.bounds.min.x)
            && (r.bounds.max.x == 0.0 || exists i :: 0 <= i < |xs| && xs[i] as real == r.bounds.max.x)
            && (r.bounds.min.y == 0.0 || exists i :: 0 <= i < |ys| && ys[i] as real == r.bounds.min.y)
            && (r.bounds.max.y == 0.0 || exists i :: 0 <= i < |ys| && ys[i] as real == r.bounds.max.y)
  {
    var r := TransformWithMatrix(o, m);
    SeededExtremes(RoundedXs(r.points));
    SeededExtremes(RoundedYs(r.points));
  }

  /** When every rounded image fits 16 bits, so do the bounds: the truncating 16-bit store changes nothing. */
  lemma TransformBoundsFitI16(o: Outline, m: Matrix2)
    requires RoundedFitI16(TransformAll(o.points, m))
    ensures var b := TransformWithMatrix(o, m).bounds;
            && -32768.0 <= b.min.x && b.max.x < 32768.0
            && -32768.0 <= b.min.y && b.max.y < 32768.0
  {
    var ps := TransformAll(o.points, m);
    SeededFitI16(RoundedXs(ps));
    SeededFitI16(RoundedYs(ps));
  }

  /** A transform changes point positions and bounds only, so it keeps the outline well formed. */
  lemma TransformKeepsShape(o: Outline, m: Matrix2)
    ensures var r := TransformWithMatrix(o, m);
            && |r.points| == |o.points| && r.onCurves == o.onCurves && r.endPoints == o.endPoints
            && (WellFormed(o) <==> WellFormed(r))
  {
  }

  /**
   * The identity matrix leaves integer-valued points unchanged; the bounds
   * become their extremes, widened to take in the origin.
   */
  lemma TransformIdentity(o: Outline)
    requires forall i :: 0 <= i < |o.points| ==> o.points[i].x == o.points[i].x.Floor as real
    requires forall i :: 0 <= i < |o.points| ==> o.points[i].y == o.points[i].y.Floor as real
    ensures var r := TransformWithMatrix(o, Matrix2(1.0, 0.0, 0.0, 1.0));
            && r.points == o.points
            && forall i :: 0 <= i < |o.points| ==>
                 r.bounds.min.x <= o.points[i].x <= r.bounds.max.x
                 && r.bounds.min.y <= o.points[i].y <= r.bounds.max.y
  {
    var r := TransformWithMatrix(o, Matrix2(1.0, 0.0, 0.0, 1.0));
    assert r.points == o.points;
    forall i | 0 <= i < |o.points|
      ensures r.bounds.min.x <= o.points[i].x <= r.bounds.max.x
      ensures r.bounds.min.y <= o.points[i].y <= r.bounds.max.y
    {
      RoundHalfEvenOfInt(o.points[i].x.Floor);
      RoundHalfEvenOfInt(o.points[i].y.Floor);
      assert RoundedXs(r.points)[i] == o.points[i].x.Floor;
      assert RoundedYs(r.points)[i] == o.points[i].y.Floor;
      SeededExtremes(RoundedXs(r.points));
      SeededExtremes(RoundedYs(r.points));
    }
  }

  /** The origin seeding shows whenever all points lie on one side: points at x = 5 and 7 give the box x-range 0..7. */
  lemma TransformBoundsSeededAtOrigin()
    ensures var o := Outline([Vec2(5.0, 1.0), Vec2(7.0, 2.0)], [true, true], [1],
                             Bounds(Vec2(5.0, 1.0), Vec2(7.0, 2.0)));
            TransformWithMatrix(o, Matrix2(1.0, 0.0, 0.0, 1.0)).bounds == Bounds(Vec2(0.0, 0.0), Vec2(7.0, 2.0))
  {
    var o := Outline([Vec2(5.0, 1.0), Vec2(7.0, 2.0)], [true, true], [1],
                     Bounds(Vec2(5.0, 1.0), Vec2(7.0, 2.0)));
    var ps := TransformWithMatrix(o, Matrix2(1.0, 0.0, 0.0, 1.0)).points;
    assert ps == o.points;
    RoundHalfEvenOfInt(5);
    RoundHalfEvenOfInt(7);
    RoundHalfEvenOfInt(1);
    RoundHalfEvenOfInt(2);
    assert RoundedXs(ps) == [5, 7];
    assert RoundedYs(ps) == [1, 2];
    assert [5, 7][..1] == [5];
    assert [1, 2][..1] == [1];
  }
}
