/**
 * One glyph outline as mutable state: four buffers updated in place while a
 * composite glyph is assembled from translated and transformed components.
 */
module Glyphs {
  import opened Primitives
  import opened Outlines

  /** A fresh array holding the elements of `a`. */
  method CopyOf<T(0)>(a: array<T>) returns (b: array<T>)
    ensures fresh(b) && b[..] == a[..]
  {
    b := new T[a.Length];
    for i := 0 to a.Length
      invariant forall k :: 0 <= k < i ==> b[k] == a[k]
    {
      b[i] := a[i];
    }
  }

  /** A fresh array holding the elements of `a` followed by those of `b`. */
  method Concat<T(0)>(a: array<T>, b: array<T>) returns (c: array<T>)
    ensures fresh(c) && c[..] == a[..] + b[..]
  {
    c := new T[a.Length + b.Length];
    for i := 0 to a.Length
      invariant forall k :: 0 <= k < i ==> c[k] == a[k]
    {
      c[i] := a[i];
    }
    for j := 0 to b.Length
      invariant forall k :: 0 <= k < a.Length ==> c[k] == a[k]
      invariant forall k :: 0 <= k < j ==> c[a.Length + k] == b[k]
    {
      c[a.Length + j] := b[j];
    }
    assert c[..] == a[..] + b[..];
  }

  /**
   * A fresh array holding the contour ends `a` followed by the contour ends
   * `b` moved past `base` points.
   */
  method ConcatShifted(a: array<u16>, b: array<u16>, base: nat) returns (c: array<u16>)
    requires forall k :: 0 <= k < b.Length ==> base + b[k] < 0x1_0000
    ensures fresh(c) && c[..] == a[..] + ShiftEndPoints(b[..], base)
  {
    c := new u16[a.Length + b.Length];
    for i := 0 to a.Length
      invariant forall k :: 0 <= k < i ==> c[k] == a[k]
    {
      c[i] := a[i];
    }
    for j := 0 to b.Length
      invariant forall k :: 0 <= k < a.Length ==> c[k] == a[k]
      invariant forall k :: 0 <= k < j ==> c[a.Length + k] == base + b[k]
    {
      c[a.Length + j] := base + b[j];
    }
    assert c[..] == a[..] + ShiftEndPoints(b[..], base);
  }

  /**
   * Maps every point of `glyphPoints` by `m` in place and tracks the
   * extremes of the rounded images, each running extreme started at 0.
   */
  method TransformAndMeasure(glyphPoints: array<Vec2>, m: Matrix2) returns (newXmin: int, newYmin: int, newXmax: int, newYmax: int)
    modifies glyphPoints
    ensures glyphPoints[..] == TransformAll(old(glyphPoints[..]), m)
    ensures newXmin == SeededMin(RoundedXs(glyphPoints[..])) && newXmax == SeededMax(RoundedXs(glyphPoints[..]))
    ensures newYmin == SeededMin(RoundedYs(glyphPoints[..])) && newYmax == SeededMax(RoundedYs(glyphPoints[..]))
  {
    newXmin, newYmin, newXmax, newYmax := 0, 0, 0, 0;
    ghost var images := TransformAll(glyphPoints[..], m);
    ghost var xs, ys := RoundedXs(images), RoundedYs(images);
    for i := 0 to glyphPoints.Length
      invariant forall k :: 0 <= k < i ==> glyphPoints[k] == images[k]
      invariant forall k :: i <= k < glyphPoints.Length ==> glyphPoints[k] == old(glyphPoints[k])
      invariant newXmin == SeededMin(xs[..i]) && newXmax == SeededMax(xs[..i])
      invariant newYmin == SeededMin(ys[..i]) && newYmax == SeededMax(ys[..i])
    {
      var transformedGlyphPoint := TransformPoint(glyphPoints[i], m);
      var newX := RoundHalfEven(transformedGlyphPoint.x);
      var newY := RoundHalfEven(transformedGlyphPoint.y);
      glyphPoints[i] := transformedGlyphPoint;
      SeededStep(xs, i);
      SeededStep(ys, i);
      if newX < newXmin {
        newXmin := newX;
      }
      if newX > newXmax {
        newXmax := newX;
      }
      if newY < newYmin {
        newYmin := newY;
      }
      if newY > newYmax {
        newYmax := newY;
      }
    }
    assert xs[..glyphPoints.Length] == xs && ys[..glyphPoints.Length] == ys;
    assert glyphPoints[..] == images;
  }

  class GlyphVector {
    var controlPoints: array<Vec2>
    var onCurves: array<bool>
    var endPoints: array<u16>
    var bounds: Bounds

    /** The outline this object currently holds. */
    ghost function Model(): Outline
      reads this, controlPoints, onCurves, endPoints
    {
      Outline(controlPoints[..], onCurves[..], endPoints[..], bounds)
    }

    /** Wraps the given buffers; they are shared with the caller, not copied. */
    constructor (controlPoints: array<Vec2>, onCurves: array<bool>, endPoints: array<u16>, bounds: Bounds)
      ensures this.controlPoints == controlPoints && this.onCurves == onCurves
      ensures this.endPoints == endPoints && this.bounds == bounds
    {
      this.controlPoints := controlPoints;
      this.onCurves := onCurves;
      this.endPoints := endPoints;
      this.bounds := bounds;
    }

    /** A copy of `other` that shares none of its buffers. */
    constructor Copy(other: GlyphVector)
      ensures fresh(controlPoints) && fresh(onCurves) && fresh(endPoints)
      ensures Model() == other.Model()
    {
      var points := CopyOf(other.controlPoints);
      var flags := CopyOf(other.onCurves);
      var ends := CopyOf(other.endPoints);
      var origBounds := other.bounds;
      controlPoints := points;
      onCurves := flags;
      endPoints := ends;
      bounds := Bounds(Vec2(origBounds.min.x, origBounds.min.y), Vec2(origBounds.max.x, origBounds.max.y));
    }

    /** The number of control points: the length of the outline's point list. */
    function PointCount(): (n: nat)
      reads this, controlPoints, onCurves, endPoints
      ensures n == |Model().points|
    {
      controlPoints.Length
    }

    /** An equal outline in fresh buffers: later changes to either one leave the other as it was. */
    method DeepClone() returns (c: GlyphVector)
      ensures fresh(c) && fresh(c.controlPoints) && fresh(c.onCurves) && fresh(c.endPoints)
      ensures c.Model() == Model()
    {
      c := new GlyphVector.Copy(this);
    }

    /**
     * Moves every control point by `(dx, dy)`, last point first, in the same
     * buffer, and moves both corners of the bounds by the same amount.
     */
    method TtfOffsetXy(dx: i16, dy: i16)
      modifies controlPoints, this`bounds
      ensures controlPoints == old(controlPoints) && PointCount() == old(PointCount())
      ensures Model() == OffsetXy(old(Model()), dx, dy)
    {
      var glyphPoints := controlPoints;
      for i := glyphPoints.Length downto 0
        modifies glyphPoints
        invariant forall k :: i <= k < glyphPoints.Length ==> glyphPoints[k] == Offset(old(glyphPoints[k]), dx, dy)
        invariant forall k :: 0 <= k < i ==> glyphPoints[k] == old(glyphPoints[k])
      {
        glyphPoints[i] := Offset(glyphPoints[i], dx, dy);
      }
      var orgBounds := bounds;
      bounds := Bounds(Vec2(orgBounds.min.x + dx as real, orgBounds.min.y + dy as real),
                       Vec2(orgBounds.max.x + dx as real, orgBounds.max.y + dy as real));
      assert controlPoints[..] == OffsetXy(old(Model()), dx, dy).points;
    }

    /**
     * Appends `src`'s control points after this outline's. The point buffer is
     * resized (a new one, unless `src` has no points); the flags, the contour
     * ends and the bounds are not touched.
     */
    method TtfAppendGlyph(src: GlyphVector)
      modifies this`controlPoints
      ensures old(src.controlPoints.Length) == 0 ==> controlPoints == old(controlPoints)
      ensures old(src.controlPoints.Length) > 0 ==> fresh(controlPoints)
      ensures Model() == AppendAsWritten(old(Model()), old(src.Model()))
    {
      var destPoints := controlPoints;
      var destPointsCount := destPoints.Length;
      var srcPoints := src.controlPoints;
      if srcPoints.Length != 0 {
        var resized := new Vec2[destPointsCount + srcPoints.Length];
        for i := 0 to destPointsCount
          invariant forall k :: 0 <= k < i ==> resized[k] == destPoints[k]
        {
          resized[i] := destPoints[i];
        }
        for j := 0 to srcPoints.Length
          invariant forall k :: 0 <= k < destPointsCount ==> resized[k] == destPoints[k]
          invariant forall k :: 0 <= k < j ==> resized[destPointsCount + k] == srcPoints[k]
        {
          resized[destPointsCount + j] := srcPoints[j];
        }
        assert resized[..] == destPoints[..] + srcPoints[..];
        controlPoints := resized;
      } else {
        assert destPoints[..] + srcPoints[..] == destPoints[..];
      }
    }

    /**
     * The append with all three parallel buffers extended: flags follow the
     * points, and `src`'s contour ends are shifted by the old point count.
     */
    method AppendGlyphConsistent(src: GlyphVector)
      requires EndPointsFit(Model(), src.Model())
      modifies this`controlPoints, this`onCurves, this`endPoints
      ensures fresh(controlPoints) && fresh(onCurves) && fresh(endPoints)
      ensures Model() == AppendConsistent(old(Model()), old(src.Model()))
    {
      var base := controlPoints.Length;
      var srcEnds := src.endPoints;
      var points := Concat(controlPoints, src.controlPoints);
      var flags := Concat(onCurves, src.onCurves);
      var ends := ConcatShifted(endPoints, srcEnds, base);
      controlPoints, onCurves, endPoints := points, flags, ends;
    }

    /**
     * Replaces every control point `(x, y)` by `(m00*x + m10*y, m01*x + m11*y)`
     * and recomputes the bounds from the rounded images, with the running
     * extremes started at 0. The bounds are stored as 16-bit values, so every
     * rounded image coordinate must fit 16 bits.
     */
    method TtfTransformWithMatrix(m00: real, m01: real, m10: real, m11: real)
      requires RoundedFitI16(TransformAll(controlPoints[..], Matrix2(m00, m01, m10, m11)))
      modifies controlPoints, this`bounds
      ensures controlPoints == old(controlPoints) && PointCount() == old(PointCount())
      ensures Model() == TransformWithMatrix(old(Model()), Matrix2(m00, m01, m10, m11))
    {
      var m := Matrix2(m00, m01, m10, m11);
      ghost var images := TransformAll(controlPoints[..], m);
      var newXmin, newYmin, newXmax, newYmax := TransformAndMeasure(controlPoints, m);
      SeededFitI16(RoundedXs(images));
      SeededFitI16(RoundedYs(images));
      var minX, minY, maxX, maxY: i16 := newXmin, newYmin, newXmax, newYmax;
      bounds := Bounds(Vec2(minX as real, minY as real), Vec2(maxX as real, maxY as real));
    }
  }

  /**
   * Clone before translating, as composite assembly does with a cached
   * component: the clone is moved, the original keeps its outline.
   */
  method PlaceComponent(component: GlyphVector, dx: i16, dy: i16) returns (placed: GlyphVector)
    ensures fresh(placed) && placed.Model() == OffsetXy(old(component.Model()), dx, dy)
    ensures component.Model() == old(component.Model())
  {
    placed := component.DeepClone();
    placed.TtfOffsetXy(dx, dy);
  }
}
