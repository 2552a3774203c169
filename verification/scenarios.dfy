/**
 * The concrete cases that the repository's own test file expects, stated
 * over the model. Each case names its boxes and records as parameters fixed
 * by its preconditions; `info` holds the record's id. A record-level case is
 * assembled from small steps: the record's box in pixel space, the crop
 * rectangle, and the verdict on those two boxes.
 */
module Scenarios {
  import opened BoxGeometry
  import opened Buckets
  import opened Editor

  /** Reads a ratio off the two areas it divides. */
  lemma RatioOf(a: Box, b: Box, area: real, inter: real)
    requires Area(a) == area && area != 0.0 && OverlapArea(a, b) == inter
    ensures Overlap(a, b) == inter / area
  {
  }

  /** The crop at the origin of size 500 x 500 covers 0..500. */
  lemma WholeCropRectangle(crop: Crop)
    requires crop == Crop(0.0, 0.0, 500.0, 500.0)
    ensures CropBox(crop) == Box(0.0, 0.0, 500.0, 500.0)
  {
  }

  /** The crop at (150, 100) of size 500 x 500 covers 150..650 x 100..600. */
  lemma HalfCropRectangle(crop: Crop)
    requires crop == Crop(150.0, 100.0, 500.0, 500.0)
    ensures CropBox(crop) == Box(150.0, 100.0, 650.0, 600.0)
  {
  }

  /** The crop at (160, 100) of size 500 x 500 covers 160..660 x 100..600. */
  lemma FortyCropRectangle(crop: Crop)
    requires crop == Crop(160.0, 100.0, 500.0, 500.0)
    ensures CropBox(crop) == Box(160.0, 100.0, 660.0, 600.0)
  {
  }

  /** The crop at the origin of size 200 x 200 covers 0..200. */
  lemma SmallCropRectangle(crop: Crop)
    requires crop == Crop(0.0, 0.0, 200.0, 200.0)
    ensures CropBox(crop) == Box(0.0, 0.0, 200.0, 200.0)
  {
  }

  // ------------------------------------------------------ overlap ratios

  /** Identical boxes: the ratio is 1. */
  lemma OverlapIdenticalScenario(a: Box)
    requires a == Box(0.0, 0.0, 100.0, 100.0)
    ensures Area(a) == 10000.0 && Overlap(a, a) == 1.0
  {
    assert Width(a) == 100.0 && Height(a) == 100.0;
    assert OverlapWidth(a, a) == 100.0 && OverlapHeight(a, a) == 100.0;
    RatioOf(a, a, 10000.0, 10000.0);
  }

  /** Boxes far apart, or touching along an edge: the ratio is 0. */
  lemma OverlapApartScenario(a: Box, far: Box, touching: Box)
    requires a == Box(0.0, 0.0, 100.0, 100.0)
    requires far == Box(200.0, 200.0, 300.0, 300.0) && touching == Box(100.0, 0.0, 200.0, 100.0)
    ensures Area(a) == 10000.0 && Overlap(a, far) == 0.0 && Overlap(a, touching) == 0.0
  {
    OverlapZeroIffDisjoint(a, far);
    OverlapZeroIffDisjoint(a, touching);
  }

  /** Half of the square covered from the side: 0.5. */
  lemma OverlapHalfScenario(a: Box, side: Box)
    requires a == Box(0.0, 0.0, 100.0, 100.0) && side == Box(50.0, 0.0, 150.0, 100.0)
    ensures Area(a) == 10000.0 && Overlap(a, side) == 0.5
  {
    assert OverlapWidth(a, side) == 50.0 && OverlapHeight(a, side) == 100.0;
    RatioOf(a, side, 10000.0, 5000.0);
  }

  /** Half of the square covered from below: 0.5. */
  lemma OverlapVerticalHalfScenario(a: Box, below: Box)
    requires a == Box(0.0, 0.0, 100.0, 100.0) && below == Box(0.0, 50.0, 100.0, 150.0)
    ensures Area(a) == 10000.0 && Overlap(a, below) == 0.5
  {
    assert OverlapWidth(a, below) == 100.0 && OverlapHeight(a, below) == 50.0;
    RatioOf(a, below, 10000.0, 5000.0);
  }

  /** A quarter of the square covered at a corner: 0.25. */
  lemma OverlapQuarterScenario(a: Box, corner: Box)
    requires a == Box(0.0, 0.0, 100.0, 100.0) && corner == Box(50.0, 50.0, 150.0, 150.0)
    ensures Area(a) == 10000.0 && Overlap(a, corner) == 0.25
  {
    assert OverlapWidth(a, corner) == 50.0 && OverlapHeight(a, corner) == 50.0;
    RatioOf(a, corner, 10000.0, 2500.0);
  }

  /** A box inside the square is fully covered by it (1), while the square is
      only a quarter covered by that box (0.25): the ratio is asymmetric. */
  lemma OverlapContainmentScenario(outer: Box, inner: Box)
    requires outer == Box(0.0, 0.0, 100.0, 100.0) && inner == Box(25.0, 25.0, 75.0, 75.0)
    ensures Area(inner) == 2500.0 && Overlap(inner, outer) == 1.0
    ensures Area(outer) == 10000.0 && Overlap(outer, inner) == 0.25
  {
    assert OverlapWidth(inner, outer) == 50.0 && OverlapHeight(inner, outer) == 50.0;
    assert OverlapWidth(outer, inner) == 50.0 && OverlapHeight(outer, inner) == 50.0;
    RatioOf(inner, outer, 2500.0, 2500.0);
    RatioOf(outer, inner, 10000.0, 2500.0);
  }

  // --------------------------------------------- verdicts on pixel boxes

  /** The box 100..200 keeps exactly half of its width under the crop
      starting at x = 150: visible, since the threshold is inclusive. */
  lemma HalfKeptScenario(box: Box, crop: Box)
    requires box == Box(100.0, 100.0, 200.0, 200.0) && crop == Box(150.0, 100.0, 650.0, 600.0)
    ensures Area(box) == 10000.0 && Overlap(box, crop) == 0.5
    ensures Visible(box, crop)
  {
    assert OverlapWidth(box, crop) == 50.0 && OverlapHeight(box, crop) == 100.0;
    RatioOf(box, crop, 10000.0, 5000.0);
  }

  /** Under the crop starting at x = 160 the same box keeps 40%: hidden. */
  lemma FortyKeptScenario(box: Box, crop: Box)
    requires box == Box(100.0, 100.0, 200.0, 200.0) && crop == Box(160.0, 100.0, 660.0, 600.0)
    ensures Area(box) == 10000.0 && Overlap(box, crop) == 0.4
    ensures !Visible(box, crop)
  {
    assert OverlapWidth(box, crop) == 40.0 && OverlapHeight(box, crop) == 100.0;
    RatioOf(box, crop, 10000.0, 4000.0);
  }

  /** The box 400..600 keeps a quarter of its area under the crop 0..500:
      hidden. */
  lemma QuarterKeptScenario(box: Box, crop: Box)
    requires box == Box(400.0, 400.0, 600.0, 600.0) && crop == Box(0.0, 0.0, 500.0, 500.0)
    ensures Area(box) == 40000.0 && Overlap(box, crop) == 0.25
    ensures !Visible(box, crop)
  {
    assert OverlapWidth(box, crop) == 100.0 && OverlapHeight(box, crop) == 100.0;
    RatioOf(box, crop, 40000.0, 10000.0);
  }

  /** The box 100..200 lies wholly inside the crop 0..500: visible. */
  lemma WhollyKeptScenario(box: Box, crop: Box)
    requires box == Box(100.0, 100.0, 200.0, 200.0) && crop == Box(0.0, 0.0, 500.0, 500.0)
    ensures Area(box) == 10000.0 && Overlap(box, crop) == 1.0
    ensures Visible(box, crop)
  {
    assert OverlapWidth(box, crop) == 100.0 && OverlapHeight(box, crop) == 100.0;
    RatioOf(box, crop, 10000.0, 10000.0);
  }

  /** The box 100..200 lies inside the crop 0..200, sharing its far edges: visible. */
  lemma EdgeKeptScenario(box: Box, crop: Box)
    requires box == Box(100.0, 100.0, 200.0, 200.0) && crop == Box(0.0, 0.0, 200.0, 200.0)
    ensures Area(box) == 10000.0 && Overlap(box, crop) == 1.0
    ensures Visible(box, crop)
  {
    assert OverlapWidth(box, crop) == 100.0 && OverlapHeight(box, crop) == 100.0;
    RatioOf(box, crop, 10000.0, 10000.0);
  }

  /** The box 50..100 lies wholly inside the crop 0..200: visible. */
  lemma SmallKeptScenario(box: Box, crop: Box)
    requires box == Box(50.0, 50.0, 100.0, 100.0) && crop == Box(0.0, 0.0, 200.0, 200.0)
    ensures Area(box) == 2500.0 && Overlap(box, crop) == 1.0
    ensures Visible(box, crop)
  {
    assert OverlapWidth(box, crop) == 50.0 && OverlapHeight(box, crop) == 50.0;
    RatioOf(box, crop, 2500.0, 2500.0);
  }

  /** A box that starts at or beyond 500 on one axis lies outside the crop
      0..500: hidden. */
  lemma OutsideScenario(box: Box, crop: Box)
    requires 500.0 <= box.x1 && crop == Box(0.0, 0.0, 500.0, 500.0)
    ensures !Visible(box, crop)
  {
    DisjointIsHidden(box, crop);
  }

  // --------------------------------------------------------------- faces

  /** A face at 100..200 of a 1000 x 1000 frame lies wholly inside the crop
      0..500 of an asset of that size: visible. */
  lemma FaceInsideScenario(face: Face<string>, dims: Dimensions, crop: Crop)
    requires face == Face(100.0, 100.0, 200.0, 200.0, 1000.0, 1000.0, face.info)
    requires dims == Dimensions(1000.0, 1000.0) && CropBox(crop) == Box(0.0, 0.0, 500.0, 500.0)
    ensures FaceVisible(face, dims, crop)
    ensures CheckFaceVisibility([face], dims, Some(crop)) == Split([face], [])
  {
    FaceInsideKept(face, dims, crop);
    CheckFaceVisibilityOne(face, dims, crop);
  }

  /** The verdict alone for that face. */
  lemma FaceInsideKept(face: Face<string>, dims: Dimensions, crop: Crop)
    requires face == Face(100.0, 100.0, 200.0, 200.0, 1000.0, 1000.0, face.info)
    requires dims == Dimensions(1000.0, 1000.0) && CropBox(crop) == Box(0.0, 0.0, 500.0, 500.0)
    ensures HasFrame(face) && FaceVisible(face, dims, crop)
  {
    ScaleFaceSameFrame(face, dims);
    WhollyKeptScenario(ScaleFace(face, dims), CropBox(crop));
  }

  /** A face that starts at or beyond 500 lies outside the crop 0..500:
      hidden (600..700 and 800..900 in the tests). */
  lemma FaceOutsideScenario(face: Face<string>, lo: real, hi: real, dims: Dimensions, crop: Crop)
    requires face == Face(lo, lo, hi, hi, 1000.0, 1000.0, face.info) && 500.0 <= lo
    requires dims == Dimensions(1000.0, 1000.0) && CropBox(crop) == Box(0.0, 0.0, 500.0, 500.0)
    ensures !FaceVisible(face, dims, crop)
    ensures CheckFaceVisibility([face], dims, Some(crop)) == Split([], [face])
  {
    FaceOutsideHidden(face, lo, hi, dims, crop);
    CheckFaceVisibilityOne(face, dims, crop);
  }

  /** The verdict alone for that face. */
  lemma FaceOutsideHidden(face: Face<string>, lo: real, hi: real, dims: Dimensions, crop: Crop)
    requires face == Face(lo, lo, hi, hi, 1000.0, 1000.0, face.info) && 500.0 <= lo
    requires dims == Dimensions(1000.0, 1000.0) && CropBox(crop) == Box(0.0, 0.0, 500.0, 500.0)
    ensures HasFrame(face) && !FaceVisible(face, dims, crop)
  {
    ScaleFaceSameFrame(face, dims);
    OutsideScenario(ScaleFace(face, dims), CropBox(crop));
  }

  /** The face 100..200 under the crop starting at x = 150: visible. */
  lemma FaceHalfScenario(face: Face<string>, dims: Dimensions, crop: Crop)
    requires face == Face(100.0, 100.0, 200.0, 200.0, 1000.0, 1000.0, face.info)
    requires dims == Dimensions(1000.0, 1000.0) && CropBox(crop) == Box(150.0, 100.0, 650.0, 600.0)
    ensures CheckFaceVisibility([face], dims, Some(crop)) == Split([face], [])
  {
    ScaleFaceSameFrame(face, dims);
    HalfKeptScenario(ScaleFace(face, dims), CropBox(crop));
    CheckFaceVisibilityOne(face, dims, crop);
  }

  /** The face 100..200 under the crop starting at x = 160: hidden. */
  lemma FaceFortyScenario(face: Face<string>, dims: Dimensions, crop: Crop)
    requires face == Face(100.0, 100.0, 200.0, 200.0, 1000.0, 1000.0, face.info)
    requires dims == Dimensions(1000.0, 1000.0) && CropBox(crop) == Box(160.0, 100.0, 660.0, 600.0)
    ensures CheckFaceVisibility([face], dims, Some(crop)) == Split([], [face])
  {
    ScaleFaceSameFrame(face, dims);
    FortyKeptScenario(ScaleFace(face, dims), CropBox(crop));
    CheckFaceVisibilityOne(face, dims, crop);
  }

  /** The face 400..600 keeps a quarter of its area under the crop 0..500:
      hidden. */
  lemma FacePartialScenario(face: Face<string>, dims: Dimensions, crop: Crop)
    requires face == Face(400.0, 400.0, 600.0, 600.0, 1000.0, 1000.0, face.info)
    requires dims == Dimensions(1000.0, 1000.0) && CropBox(crop) == Box(0.0, 0.0, 500.0, 500.0)
    ensures !FaceVisible(face, dims, crop)
    ensures CheckFaceVisibility([face], dims, Some(crop)) == Split([], [face])
  {
    FacePartialHidden(face, dims, crop);
    CheckFaceVisibilityOne(face, dims, crop);
  }

  /** The verdict alone for that face. */
  lemma FacePartialHidden(face: Face<string>, dims: Dimensions, crop: Crop)
    requires face == Face(400.0, 400.0, 600.0, 600.0, 1000.0, 1000.0, face.info)
    requires dims == Dimensions(1000.0, 1000.0) && CropBox(crop) == Box(0.0, 0.0, 500.0, 500.0)
    ensures HasFrame(face) && !FaceVisible(face, dims, crop)
  {
    ScaleFaceSameFrame(face, dims);
    QuarterKeptScenario(ScaleFace(face, dims), CropBox(crop));
  }

  /** Three faces against the crop 0..500: only the one wholly inside stays,
      and each bucket keeps the input order. */
  lemma FaceMixedScenario(inside: Face<string>, outside: Face<string>, partial: Face<string>, dims: Dimensions, crop: Crop)
    requires inside == Face(100.0, 100.0, 200.0, 200.0, 1000.0, 1000.0, inside.info)
    requires outside == Face(800.0, 800.0, 900.0, 900.0, 1000.0, 1000.0, outside.info)
    requires partial == Face(400.0, 400.0, 600.0, 600.0, 1000.0, 1000.0, partial.info)
    requires dims == Dimensions(1000.0, 1000.0) && CropBox(crop) == Box(0.0, 0.0, 500.0, 500.0)
    ensures CheckFaceVisibility([inside, outside, partial], dims, Some(crop)) == Split([inside], [outside, partial])
  {
    FaceInsideKept(inside, dims, crop);
    FaceOutsideHidden(outside, 800.0, 900.0, dims, crop);
    FacePartialHidden(partial, dims, crop);
    OneKeptTwoHidden(inside, outside, partial, dims, crop);
  }

  /** Three faces whose verdicts are kept, hidden, hidden: the buckets keep
      the first and hide the other two, in order. */
  lemma OneKeptTwoHidden<P>(f: Face<P>, g: Face<P>, h: Face<P>, dims: Dimensions, c: Crop)
    requires HasFrame(f) && HasFrame(g) && HasFrame(h)
    requires FaceVisible(f, dims, c) && !FaceVisible(g, dims, c) && !FaceVisible(h, dims, c)
    ensures CheckFaceVisibility([f, g, h], dims, Some(c)) == Split([f], [g, h])
  {
    var st := FaceStatus([f, g, h], dims, c);
    assert st == [Status(f, true), Status(g, false), Status(h, false)];
    KeptHiddenHidden(f, g, h);
  }

  /** Partitioning the verdicts kept, hidden, hidden. */
  lemma KeptHiddenHidden<T>(x: T, y: T, z: T)
    ensures Partition([Status(x, true), Status(y, false), Status(z, false)]) == Split([x], [y, z])
  {
    var st := [Status(x, true), Status(y, false), Status(z, false)];
    assert st[1..] == [Status(y, false), Status(z, false)];
    assert st[1..][1..] == [Status(z, false)];
    assert st[1..][1..][1..] == [];
    assert Select(st[1..][1..], true) == [] && Select(st[1..][1..], false) == [z];
    assert Select(st[1..], true) == [] && Select(st[1..], false) == [y, z];
    assert Select(st, true) == [x] && Select(st, false) == [y, z];
  }

  /** A face stored at 50..100 in a 500 x 500 frame occupies 100..200 of a
      1000 x 1000 asset. */
  lemma RescaledBox(face: Face<string>, dims: Dimensions)
    requires face == Face(50.0, 50.0, 100.0, 100.0, 500.0, 500.0, face.info)
    requires dims == Dimensions(1000.0, 1000.0)
    ensures ScaleFace(face, dims) == Box(100.0, 100.0, 200.0, 200.0)
  {
  }

  /** The crop 0..200 keeps that rescaled face. */
  lemma FaceRescaleScenario(face: Face<string>, dims: Dimensions, crop: Crop)
    requires face == Face(50.0, 50.0, 100.0, 100.0, 500.0, 500.0, face.info)
    requires dims == Dimensions(1000.0, 1000.0) && CropBox(crop) == Box(0.0, 0.0, 200.0, 200.0)
    ensures CheckFaceVisibility([face], dims, Some(crop)) == Split([face], [])
  {
    RescaledBox(face, dims);
    EdgeKeptScenario(ScaleFace(face, dims), CropBox(crop));
    CheckFaceVisibilityOne(face, dims, crop);
  }

  /** Without a crop nothing is hidden, and no records give empty buckets. */
  lemma NoCropScenario(one: Face<string>, two: Face<string>, first: Ocr<string>, second: Ocr<string>, dims: Dimensions)
    requires one == Face(100.0, 100.0, 200.0, 200.0, 1000.0, 1000.0, "face-1")
    requires two == Face(100.0, 100.0, 200.0, 200.0, 1000.0, 1000.0, "face-2")
    requires first == Square("ocr-1", 0.1, 0.2) && second == Square("ocr-2", 0.1, 0.2)
    requires dims == Dimensions(1000.0, 1000.0)
    ensures CheckFaceVisibility([one, two], dims, None) == Split([one, two], [])
    ensures CheckFaceVisibility<string>([], dims, None) == Split([], [])
    ensures CheckOcrVisibility([first, second], dims, None) == Split([first, second], [])
    ensures CheckOcrVisibility<string>([], dims, None) == Split([], [])
  {
  }

  // ----------------------------------------------------------------- OCR

  /** An axis-aligned square region from `lo` to `hi` on both axes, its
      corners listed clockwise from the top-left one. */
  function Square(id: string, lo: real, hi: real): (r: Ocr<string>)
    ensures r.x1 == r.x4 == r.y1 == r.y2 == lo
    ensures r.x2 == r.x3 == r.y3 == r.y4 == hi
  {
    Ocr(lo, lo, hi, lo, hi, hi, lo, hi, id)
  }

  /** On a square asset of side `d` such a region becomes the box between
      lo * d and hi * d on both axes. */
  lemma SquareBox(o: Ocr<string>, lo: real, hi: real, dims: Dimensions, d: real, near: real, far: real)
    requires o == Square(o.info, lo, hi) && 0.0 <= lo <= hi
    requires dims == Dimensions(d, d) && 0.0 <= d
    requires near == lo * d && far == hi * d
    ensures OcrBox(o, dims) == Box(near, near, far, far)
  {
    MulMono(lo, d, hi, d);
    SquarePolygon(o, lo, hi, dims, d, near, far);
    SquareCorners(near, far);
  }

  /** The four corners of such a region in pixel space. */
  lemma SquarePolygon(o: Ocr<string>, lo: real, hi: real, dims: Dimensions, d: real, near: real, far: real)
    requires o == Square(o.info, lo, hi) && dims == Dimensions(d, d)
    requires near == lo * d && far == hi * d
    ensures OcrPolygon(o, dims) == [Point(near, near), Point(far, near), Point(far, far), Point(near, far)]
  {
    var p := OcrPolygon(o, dims);
    assert p[0] == Point(near, near) && p[1] == Point(far, near);
    assert p[2] == Point(far, far) && p[3] == Point(near, far);
  }

  /** The corners of a square, clockwise from the top-left, span that square. */
  lemma SquareCorners(near: real, far: real)
    requires near <= far
    ensures BoundingBox([Point(near, near), Point(far, near), Point(far, far), Point(near, far)]) == Box(near, near, far, far)
  {
  }

  /** The region 0.1..0.2 of a 1000 x 1000 asset is the box 100..200. */
  lemma NearSquareBox(o: Ocr<string>, dims: Dimensions)
    requires o == Square(o.info, 0.1, 0.2) && dims == Dimensions(1000.0, 1000.0)
    ensures OcrBox(o, dims) == Box(100.0, 100.0, 200.0, 200.0)
  {
    SquareBox(o, 0.1, 0.2, dims, 1000.0, 100.0, 200.0);
  }

  /** The region 0.8..0.9 of a 1000 x 1000 asset is the box 800..900. */
  lemma FarSquareBox(o: Ocr<string>, dims: Dimensions)
    requires o == Square(o.info, 0.8, 0.9) && dims == Dimensions(1000.0, 1000.0)
    ensures OcrBox(o, dims) == Box(800.0, 800.0, 900.0, 900.0)
  {
    SquareBox(o, 0.8, 0.9, dims, 1000.0, 800.0, 900.0);
  }

  /** The same fractions of a 500 x 500 asset give the box 50..100. */
  lemma SmallAssetBox(o: Ocr<string>, dims: Dimensions)
    requires o == Square(o.info, 0.1, 0.2) && dims == Dimensions(500.0, 500.0)
    ensures OcrBox(o, dims) == Box(50.0, 50.0, 100.0, 100.0)
  {
    SquareBox(o, 0.1, 0.2, dims, 500.0, 50.0, 100.0);
  }

  /** A diamond whose corners sit on the middles of the sides of 0.1..0.2 is
      reduced to that square. */
  lemma RotatedBox(o: Ocr<string>, dims: Dimensions)
    requires o == Ocr(0.15, 0.1, 0.2, 0.15, 0.15, 0.2, 0.1, 0.15, o.info)
    requires dims == Dimensions(1000.0, 1000.0)
    ensures OcrBox(o, dims) == Box(100.0, 100.0, 200.0, 200.0)
  {
    assert OcrPolygon(o, dims) == [Point(150.0, 100.0), Point(200.0, 150.0), Point(150.0, 200.0), Point(100.0, 150.0)];
  }

  /** The region 0.1..0.2 of a 1000 x 1000 asset is the box 100..200, wholly
      inside the crop 0..500: visible. */
  lemma OcrInsideScenario(o: Ocr<string>, dims: Dimensions, crop: Crop)
    requires o == Square(o.info, 0.1, 0.2)
    requires dims == Dimensions(1000.0, 1000.0) && CropBox(crop) == Box(0.0, 0.0, 500.0, 500.0)
    ensures OcrVisible(o, dims, crop)
    ensures CheckOcrVisibility([o], dims, Some(crop)) == Split([o], [])
  {
    NearSquareBox(o, dims);
    WhollyKeptScenario(OcrBox(o, dims), CropBox(crop));
    CheckOcrVisibilityOne(o, dims, crop);
  }

  /** The region 0.8..0.9 lies outside the crop 0..500: hidden. */
  lemma OcrOutsideScenario(o: Ocr<string>, dims: Dimensions, crop: Crop)
    requires o == Square(o.info, 0.8, 0.9)
    requires dims == Dimensions(1000.0, 1000.0) && CropBox(crop) == Box(0.0, 0.0, 500.0, 500.0)
    ensures !OcrVisible(o, dims, crop)
    ensures CheckOcrVisibility([o], dims, Some(crop)) == Split([], [o])
  {
    FarSquareBox(o, dims);
    OutsideScenario(OcrBox(o, dims), CropBox(crop));
    CheckOcrVisibilityOne(o, dims, crop);
  }

  /** The region 0.1..0.2 under the crop starting at x = 150: visible. */
  lemma OcrHalfScenario(o: Ocr<string>, dims: Dimensions, crop: Crop)
    requires o == Square(o.info, 0.1, 0.2)
    requires dims == Dimensions(1000.0, 1000.0) && CropBox(crop) == Box(150.0, 100.0, 650.0, 600.0)
    ensures CheckOcrVisibility([o], dims, Some(crop)) == Split([o], [])
  {
    NearSquareBox(o, dims);
    HalfKeptScenario(OcrBox(o, dims), CropBox(crop));
    CheckOcrVisibilityOne(o, dims, crop);
  }

  /** The region 0.1..0.2 under the crop starting at x = 160: hidden. */
  lemma OcrFortyScenario(o: Ocr<string>, dims: Dimensions, crop: Crop)
    requires o == Square(o.info, 0.1, 0.2)
    requires dims == Dimensions(1000.0, 1000.0) && CropBox(crop) == Box(160.0, 100.0, 660.0, 600.0)
    ensures CheckOcrVisibility([o], dims, Some(crop)) == Split([], [o])
  {
    NearSquareBox(o, dims);
    FortyKeptScenario(OcrBox(o, dims), CropBox(crop));
    CheckOcrVisibilityOne(o, dims, crop);
  }

  /** The inside and the outside region listed together are split in order. */
  lemma OcrMixedScenario(inside: Ocr<string>, outside: Ocr<string>, dims: Dimensions, crop: Crop)
    requires inside == Square(inside.info, 0.1, 0.2) && outside == Square(outside.info, 0.8, 0.9)
    requires dims == Dimensions(1000.0, 1000.0) && CropBox(crop) == Box(0.0, 0.0, 500.0, 500.0)
    ensures CheckOcrVisibility([inside, outside], dims, Some(crop)) == Split([inside], [outside])
  {
    assert OcrVisible(inside, dims, crop) by { OcrInsideScenario(inside, dims, crop); }
    assert !OcrVisible(outside, dims, crop) by { OcrOutsideScenario(outside, dims, crop); }
    OneKeptOneHidden(inside, outside, dims, crop);
  }

  /** Two regions whose verdicts are kept, hidden. */
  lemma OneKeptOneHidden<P>(o: Ocr<P>, q: Ocr<P>, dims: Dimensions, c: Crop)
    requires OcrVisible(o, dims, c) && !OcrVisible(q, dims, c)
    ensures CheckOcrVisibility([o, q], dims, Some(c)) == Split([o], [q])
  {
    OcrPairStatus(o, q, dims, c);
    KeptHidden(o, q);
  }

  /** The verdicts of two regions, in order. */
  lemma OcrPairStatus<P>(o: Ocr<P>, q: Ocr<P>, dims: Dimensions, c: Crop)
    ensures OcrStatus([o, q], dims, c) == [Status(o, OcrVisible(o, dims, c)), Status(q, OcrVisible(q, dims, c))]
  {
  }

  /** Partitioning the verdicts kept, hidden. */
  lemma KeptHidden<T>(x: T, y: T)
    ensures Partition([Status(x, true), Status(y, false)]) == Split([x], [y])
  {
    var st := [Status(x, true), Status(y, false)];
    assert st[1..] == [Status(y, false)];
    assert st[1..][1..] == [];
    assert Select(st[1..], true) == [] && Select(st[1..], false) == [y];
    assert Select(st, true) == [x] && Select(st, false) == [y];
  }

  /** A smaller asset scales the same fractions to fewer pixels: 50..100,
      which the crop 0..200 keeps. */
  lemma OcrSmallAssetScenario(o: Ocr<string>, dims: Dimensions, crop: Crop)
    requires o == Square(o.info, 0.1, 0.2)
    requires dims == Dimensions(500.0, 500.0) && CropBox(crop) == Box(0.0, 0.0, 200.0, 200.0)
    ensures CheckOcrVisibility([o], dims, Some(crop)) == Split([o], [])
  {
    SmallAssetBox(o, dims);
    SmallKeptScenario(OcrBox(o, dims), CropBox(crop));
    CheckOcrVisibilityOne(o, dims, crop);
  }

  /** The crop 0..500 keeps the rotated region's whole bounding box. */
  lemma OcrRotatedScenario(o: Ocr<string>, dims: Dimensions, crop: Crop)
    requires o == Ocr(0.15, 0.1, 0.2, 0.15, 0.15, 0.2, 0.1, 0.15, o.info)
    requires dims == Dimensions(1000.0, 1000.0) && CropBox(crop) == Box(0.0, 0.0, 500.0, 500.0)
    ensures CheckOcrVisibility([o], dims, Some(crop)) == Split([o], [])
  {
    RotatedBox(o, dims);
    WhollyKeptScenario(OcrBox(o, dims), CropBox(crop));
    CheckOcrVisibilityOne(o, dims, crop);
  }
}
