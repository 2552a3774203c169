/**
 * Axis-aligned rectangles and the asymmetric overlap ratio used to decide
 * whether a detected region survives a crop: the fraction of the FIRST
 * rectangle's area that lies inside the second one.
 */
module BoxGeometry {

  /** An axis-aligned rectangle; (x1, y1) is the top-left corner and (x2, y2)
      the bottom-right one. Nothing forces x1 <= x2 or y1 <= y2. */
  datatype Box = Box(x1: real, y1: real, x2: real, y2: real)

  datatype Point = Point(x: real, y: real)

  /** Math.max of two numbers. */
  function Max(a: real, b: real): (r: real)
    ensures r >= a && r >= b
    ensures r == a || r == b
  {
    if a >= b then a else b
  }

  /** Math.min of two numbers. */
  function Min(a: real, b: real): (r: real)
    ensures r <= a && r <= b
    ensures r == a || r == b
  {
    if a <= b then a else b
  }

  function Width(b: Box): real { b.x2 - b.x1 }

  function Height(b: Box): real { b.y2 - b.y1 }

  /** Signed area: negative when exactly one of the extents is inverted. */
  function Area(b: Box): (r: real)
    ensures PositiveArea(b) ==> r > 0.0
    ensures r == 0.0 <==> Width(b) == 0.0 || Height(b) == 0.0
  {
    Width(b) * Height(b)
  }

  predicate WellFormed(b: Box) { b.x1 <= b.x2 && b.y1 <= b.y2 }

  predicate PositiveArea(b: Box) { b.x1 < b.x2 && b.y1 < b.y2 }

  /** `inner` lies inside `outer` (edges may coincide). */
  predicate Contains(outer: Box, inner: Box)
  {
    outer.x1 <= inner.x1 && inner.x2 <= outer.x2 &&
    outer.y1 <= inner.y1 && inner.y2 <= outer.y2
  }

  predicate Inside(p: Point, b: Box)
  {
    b.x1 <= p.x <= b.x2 && b.y1 <= p.y <= b.y2
  }

  /** The two rectangles share no region of positive area: `b` is empty, or
      they are separated (or only touch) along one of the axes. */
  predicate Disjoint(a: Box, b: Box)
  {
    b.x2 <= b.x1 || b.y2 <= b.y1 ||
    b.x2 <= a.x1 || a.x2 <= b.x1 ||
    b.y2 <= a.y1 || a.y2 <= b.y1
  }

  /** Width of the intersection, clamped at zero. */
  function OverlapWidth(a: Box, b: Box): (r: real)
    ensures 0.0 <= r
    ensures r <= Max(0.0, Width(a)) && r <= Max(0.0, Width(b))
  {
    Max(0.0, Min(a.x2, b.x2) - Max(a.x1, b.x1))
  }

  /** Height of the intersection, clamped at zero. */
  function OverlapHeight(a: Box, b: Box): (r: real)
    ensures 0.0 <= r
    ensures r <= Max(0.0, Height(a)) && r <= Max(0.0, Height(b))
  {
    Max(0.0, Min(a.y2, b.y2) - Max(a.y1, b.y1))
  }

  /** Area of the intersection, never negative. */
  function OverlapArea(a: Box, b: Box): (r: real)
    ensures 0.0 <= r
  {
    OverlapWidth(a, b) * OverlapHeight(a, b)
  }

  /**
   * boundingBoxOverlap: the area of the intersection divided by the area of
   * `a` alone. Defined whenever `a` has a non-zero area (a zero area gives
   * 0/0, see `Editor.Visible`); the result is always a fraction.
   */
  function Overlap(a: Box, b: Box): (r: real)
    requires Area(a) != 0.0
    ensures 0.0 <= r <= 1.0
  {
    OverlapAreaBounds(a, b);
    FractionBounds(OverlapArea(a, b), Area(a));
    OverlapArea(a, b) / Area(a)
  }

  /** x/d is a fraction when 0 <= x <= d, and zero when x is. */
  lemma FractionBounds(x: real, d: real)
    requires d != 0.0 && 0.0 <= x
    requires d > 0.0 ==> x <= d
    requires d < 0.0 ==> x == 0.0
    ensures 0.0 <= x / d <= 1.0
  {
  }

  /** a*b <= c*d for non-negative factors that grow. */
  lemma MulMono(a: real, b: real, c: real, d: real)
    requires 0.0 <= a <= c && 0.0 <= b <= d
    ensures a * b <= c * d
  {
    assert a * b <= c * b by {
      assert (c - a) * b >= 0.0;
    }
    assert c * b <= c * d by {
      assert c * (d - b) >= 0.0;
    }
  }

  /** The intersection never exceeds `a`; an inverted `a` has no intersection. */
  lemma OverlapAreaBounds(a: Box, b: Box)
    requires Area(a) != 0.0
    ensures 0.0 <= OverlapArea(a, b)
    ensures PositiveArea(a) ==> OverlapArea(a, b) <= Area(a)
    ensures !PositiveArea(a) ==> OverlapArea(a, b) == 0.0
  {
    var w, h := OverlapWidth(a, b), OverlapHeight(a, b);
    MulMono(0.0, 0.0, w, h);
    if PositiveArea(a) {
      MulMono(w, h, Width(a), Height(a));
    } else if Width(a) <= 0.0 {
      assert w == 0.0;
    } else {
      assert h == 0.0;
    }
  }

  /** A reference box with an inverted extent is never covered at all. */
  lemma OverlapOfInverted(a: Box, b: Box)
    requires Area(a) != 0.0 && !PositiveArea(a)
    ensures Overlap(a, b) == 0.0
  {
    OverlapAreaBounds(a, b);
  }

  /** a*b < c*d when the first factor strictly grows and the second does not shrink. */
  lemma MulStrict(a: real, b: real, c: real, d: real)
    requires 0.0 <= a < c && 0.0 <= b <= d && 0.0 < d
    ensures a * b < c * d
  {
    MulMono(a, b, a, d);
    assert (c - a) * d > 0.0;
  }

  /** For a proper reference box the ratio is 1 exactly when `b` covers all of `a`. */
  lemma OverlapOneIffContained(a: Box, b: Box)
    requires PositiveArea(a)
    ensures Overlap(a, b) == 1.0 <==> Contains(b, a)
  {
    if Contains(b, a) {
      OverlapAreaOfCovered(a, b);
    } else {
      OverlapAreaOfUncovered(a, b);
    }
    RatioOne(OverlapArea(a, b), Area(a));
  }

  /** When `b` covers `a`, the intersection is all of `a`. */
  lemma OverlapAreaOfCovered(a: Box, b: Box)
    requires Contains(b, a) && WellFormed(a)
    ensures OverlapArea(a, b) == Area(a)
  {
    assert OverlapWidth(a, b) == Width(a) && OverlapHeight(a, b) == Height(a);
    OverlapAreaIsProduct(a, b);
  }

  /** When `b` misses part of a proper `a`, the intersection is strictly smaller. */
  lemma OverlapAreaOfUncovered(a: Box, b: Box)
    requires PositiveArea(a) && !Contains(b, a)
    ensures OverlapArea(a, b) < Area(a)
  {
    var w, h := OverlapWidth(a, b), OverlapHeight(a, b);
    // one extent of the intersection falls short of `a`'s own
    assert w <= Width(a) && h <= Height(a);
    if w < Width(a) {
      MulStrict(w, h, Width(a), Height(a));
    } else {
      assert h < Height(a);
      MulStrict(h, w, Height(a), Width(a));
      assert w * h == h * w && Width(a) * Height(a) == Height(a) * Width(a);
    }
    OverlapAreaIsProduct(a, b);
  }

  /** x/d is 1 exactly when x is d. */
  lemma RatioOne(x: real, d: real)
    requires 0.0 < d
    ensures x / d == 1.0 <==> x == d
  {
  }

  /** For a proper reference box the ratio is 0 exactly when the boxes are
      disjoint; touching along an edge counts as disjoint. */
  lemma {:induction false} OverlapZeroIffDisjoint(a: Box, b: Box)
    requires PositiveArea(a)
    ensures Overlap(a, b) == 0.0 <==> Disjoint(a, b)
  {
    var w, h := OverlapWidth(a, b), OverlapHeight(a, b);
    if Disjoint(a, b) {
      assert w == 0.0 || h == 0.0;
    } else {
      assert w > 0.0 && h > 0.0;
      assert w * h > 0.0;
    }
  }

  /** A box compared with itself is fully covered. */
  lemma OverlapSelf(b: Box)
    requires PositiveArea(b)
    ensures Overlap(b, b) == 1.0
  {
    OverlapOneIffContained(b, b);
  }

  /** When `b` lies inside `a`, the ratio is the share of `a` that `b` takes:
      the denominator is `a`'s area, not `b`'s. */
  lemma OverlapOfContained(a: Box, b: Box)
    requires PositiveArea(a) && WellFormed(b) && Contains(a, b)
    ensures Overlap(a, b) == Area(b) / Area(a)
  {
    assert OverlapWidth(a, b) == Width(b) && OverlapHeight(a, b) == Height(b);
  }

  /** The ratio is not symmetric: it is not intersection-over-union. */
  lemma OverlapNotSymmetric()
    ensures exists a: Box, b: Box :: PositiveArea(a) && PositiveArea(b) && Overlap(a, b) != Overlap(b, a)
  {
    var outer, inner := Box(0.0, 0.0, 100.0, 100.0), Box(25.0, 25.0, 75.0, 75.0);
    OverlapOfContained(outer, inner);
    OverlapOneIffContained(inner, outer);
    assert Overlap(outer, inner) == 0.25;
  }

  /** Growing `b` never lowers the share of `a` it covers. */
  lemma OverlapMonotone(a: Box, b: Box, c: Box)
    requires Area(a) != 0.0 && Contains(c, b)
    ensures Overlap(a, b) <= Overlap(a, c)
  {
    if PositiveArea(a) {
      OverlapAreaMonotone(a, b, c);
      DivMono(OverlapArea(a, b), OverlapArea(a, c), Area(a));
    } else {
      OverlapOfInverted(a, b);
      OverlapOfInverted(a, c);
    }
  }

  /** Growing `b` never shrinks its intersection with `a`. */
  lemma OverlapAreaMonotone(a: Box, b: Box, c: Box)
    requires Contains(c, b)
    ensures OverlapArea(a, b) <= OverlapArea(a, c)
  {
    OverlapWidthMonotone(a, b, c);
    OverlapHeightMonotone(a, b, c);
    OverlapAreaOfExtents(a, b, c);
  }

  /** An intersection that is no wider and no taller has no more area. */
  lemma OverlapAreaOfExtents(a: Box, b: Box, c: Box)
    requires OverlapWidth(a, b) <= OverlapWidth(a, c) && OverlapHeight(a, b) <= OverlapHeight(a, c)
    ensures OverlapArea(a, b) <= OverlapArea(a, c)
  {
    ExtentProductMono(a, b, c);
    OverlapAreaIsProduct(a, b);
    OverlapAreaIsProduct(a, c);
  }

  lemma ExtentProductMono(a: Box, b: Box, c: Box)
    requires OverlapWidth(a, b) <= OverlapWidth(a, c) && OverlapHeight(a, b) <= OverlapHeight(a, c)
    ensures OverlapWidth(a, b) * OverlapHeight(a, b) <= OverlapWidth(a, c) * OverlapHeight(a, c)
  {
    MulMono(OverlapWidth(a, b), OverlapHeight(a, b), OverlapWidth(a, c), OverlapHeight(a, c));
  }

  /** Unfolds `OverlapArea`; stating it as a separate fact keeps the
      monotonicity proof small. */
  lemma OverlapAreaIsProduct(a: Box, b: Box)
    ensures OverlapArea(a, b) == OverlapWidth(a, b) * OverlapHeight(a, b)
  {
  }

  lemma OverlapWidthMonotone(a: Box, b: Box, c: Box)
    requires c.x1 <= b.x1 && b.x2 <= c.x2
    ensures OverlapWidth(a, b) <= OverlapWidth(a, c)
  {
    OverlapExtentMonotone(a.x1, a.x2, b.x1, b.x2, c.x1, c.x2);
  }

  lemma OverlapHeightMonotone(a: Box, b: Box, c: Box)
    requires c.y1 <= b.y1 && b.y2 <= c.y2
    ensures OverlapHeight(a, b) <= OverlapHeight(a, c)
  {
    OverlapExtentMonotone(a.y1, a.y2, b.y1, b.y2, c.y1, c.y2);
  }

  /** Along one axis: the clamped intersection of [lo, hi] with a wider interval is no shorter. */
  lemma OverlapExtentMonotone(lo: real, hi: real, bLo: real, bHi: real, cLo: real, cHi: real)
    requires cLo <= bLo && bHi <= cHi
    ensures Max(0.0, Min(hi, bHi) - Max(lo, bLo)) <= Max(0.0, Min(hi, cHi) - Max(lo, cLo))
  {
  }

  lemma DivMono(x: real, y: real, d: real)
    requires x <= y && 0.0 < d
    ensures x / d <= y / d
  {
  }
}
