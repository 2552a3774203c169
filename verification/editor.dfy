/**
 * Which faces and OCR text regions of an asset remain visible after a crop
 * edit. A region is visible when at least half of its own area lies inside
 * the crop rectangle; with no crop every region is visible.
 */
module Editor {
  import opened BoxGeometry
  import opened Buckets

  datatype Option<T> = None | Some(value: T)

  /** Pixel size of the asset the crop is expressed in. */
  datatype Dimensions = Dimensions(width: real, height: real)

  /** The parameters of a crop edit, in the asset's pixel space. */
  datatype Crop = Crop(x: real, y: real, width: real, height: real)

  /** A detected face: its box is stored in the pixel space of the
      `imageWidth` x `imageHeight` image it was detected on. `info` carries
      the fields the classification never looks at (ids, person, dates). */
  datatype Face<P> = Face(
    boundingBoxX1: real, boundingBoxY1: real,
    boundingBoxX2: real, boundingBoxY2: real,
    imageWidth: real, imageHeight: real,
    info: P)

  /** A detected text region: four corners given as fractions of the asset's
      width and height. `info` carries the text and the scores. */
  datatype Ocr<P> = Ocr(
    x1: real, y1: real, x2: real, y2: real,
    x3: real, y3: real, x4: real, y4: real,
    info: P)

  /** Inclusive: a region with exactly half of its area kept is visible. */
  const VisibilityThreshold: real := 0.5

  /** The crop rectangle: top-left corner at (x, y), extents width x height. */
  function CropBox(c: Crop): (r: Box)
    ensures r.x1 == c.x && r.y1 == c.y
    ensures Width(r) == c.width && Height(r) == c.height
  {
    Box(c.x, c.y, c.x + c.width, c.y + c.height)
  }

  /**
   * The verdict for one region box against the crop rectangle. A box of zero
   * area makes the ratio 0/0, which is NaN in the source, and `NaN >= 0.5`
   * is false there: such a region is hidden.
   */
  predicate Visible(box: Box, crop: Box)
    ensures Visible(box, crop) <==>
      PositiveArea(box) && OverlapArea(box, crop) >= VisibilityThreshold * Area(box)
  {
    if Area(box) == 0.0 then false
    else
      RatioThreshold(box, crop);
      Overlap(box, crop) >= VisibilityThreshold
  }

  /** For a box of non-zero area, passing the threshold on the ratio is
      keeping at least that share of the area of a proper box. */
  lemma RatioThreshold(box: Box, crop: Box)
    requires Area(box) != 0.0
    ensures Overlap(box, crop) >= VisibilityThreshold <==>
      PositiveArea(box) && OverlapArea(box, crop) >= VisibilityThreshold * Area(box)
  {
    if PositiveArea(box) {
      ShareOf(OverlapArea(box, crop), Area(box), VisibilityThreshold);
    } else {
      OverlapOfInverted(box, crop);
    }
  }

  lemma ShareOf(x: real, d: real, t: real)
    requires d > 0.0
    ensures x / d >= t <==> x >= t * d
  {
    assert x == (x / d) * d;
    if x / d >= t {
      assert (x / d) * d >= t * d;
    } else {
      assert (x / d) * d < t * d;
    }
  }

  /** A region of zero area is never visible. */
  lemma ZeroAreaIsHidden(box: Box, crop: Box)
    requires Area(box) == 0.0
    ensures !Visible(box, crop)
  {
  }

  /** A proper region that the crop keeps entirely is visible. */
  lemma ContainedIsVisible(box: Box, crop: Box)
    requires PositiveArea(box) && Contains(crop, box)
    ensures Visible(box, crop)
  {
    OverlapOneIffContained(box, crop);
  }

  /** A region the crop does not reach, or only touches, is hidden. */
  lemma DisjointIsHidden(box: Box, crop: Box)
    requires Disjoint(box, crop)
    ensures !Visible(box, crop)
  {
    if PositiveArea(box) {
      OverlapZeroIffDisjoint(box, crop);
    } else if Area(box) != 0.0 {
      OverlapOfInverted(box, crop);
    }
  }

  /** An inverted region (x2 < x1 or y2 < y1) is hidden whatever the crop. */
  lemma InvertedIsHidden(box: Box, crop: Box)
    requires !PositiveArea(box)
    ensures !Visible(box, crop)
  {
    if Area(box) != 0.0 {
      OverlapOfInverted(box, crop);
    }
  }

  /** A larger crop never hides a region that a smaller one keeps. */
  lemma VisibleUnderLargerCrop(box: Box, crop: Box, larger: Box)
    requires Visible(box, crop) && Contains(larger, crop)
    ensures Visible(box, larger)
  {
    OverlapMonotone(box, crop, larger);
  }

  // ---------------------------------------------------------------- faces

  /** The face's image frame can be divided by. */
  predicate HasFrame<P>(f: Face<P>)
  {
    f.imageWidth != 0.0 && f.imageHeight != 0.0
  }

  /** The face's box rescaled from its own image frame into the asset's:
      every coordinate keeps its position relative to the frame. */
  function ScaleFace<P>(f: Face<P>, dims: Dimensions): (r: Box)
    requires HasFrame(f)
    ensures r.x1 * f.imageWidth == f.boundingBoxX1 * dims.width
    ensures r.x2 * f.imageWidth == f.boundingBoxX2 * dims.width
    ensures r.y1 * f.imageHeight == f.boundingBoxY1 * dims.height
    ensures r.y2 * f.imageHeight == f.boundingBoxY2 * dims.height
  {
    Box(
      (f.boundingBoxX1 / f.imageWidth) * dims.width,
      (f.boundingBoxY1 / f.imageHeight) * dims.height,
      (f.boundingBoxX2 / f.imageWidth) * dims.width,
      (f.boundingBoxY2 / f.imageHeight) * dims.height)
  }

  /** The box as stored, in the face's own frame. */
  function StoredBox<P>(f: Face<P>): Box
  {
    Box(f.boundingBoxX1, f.boundingBoxY1, f.boundingBoxX2, f.boundingBoxY2)
  }

  /** When the asset has the size of the face's frame, nothing moves. */
  lemma ScaleFaceSameFrame<P>(f: Face<P>, dims: Dimensions)
    requires HasFrame(f) && dims == Dimensions(f.imageWidth, f.imageHeight)
    ensures ScaleFace(f, dims) == StoredBox(f)
  {
  }

  /** Rescaling between positive frames keeps a proper box proper. */
  lemma ScaleFaceKeepsPositiveArea<P>(f: Face<P>, dims: Dimensions)
    requires f.imageWidth > 0.0 && f.imageHeight > 0.0
    requires dims.width > 0.0 && dims.height > 0.0
    requires PositiveArea(StoredBox(f))
    ensures PositiveArea(ScaleFace(f, dims))
  {
    ScaleStrict(f.boundingBoxX1, f.boundingBoxX2, f.imageWidth, dims.width);
    ScaleStrict(f.boundingBoxY1, f.boundingBoxY2, f.imageHeight, dims.height);
  }

  lemma ScaleStrict(lo: real, hi: real, frame: real, target: real)
    requires lo < hi && frame > 0.0 && target > 0.0
    ensures (lo / frame) * target < (hi / frame) * target
  {
    assert lo / frame < hi / frame;
  }

  /** The verdict on a face: its rescaled box is proper and keeps at least
      half of its area inside the crop rectangle. */
  predicate FaceVisible<P>(f: Face<P>, dims: Dimensions, crop: Crop)
    requires HasFrame(f)
    ensures FaceVisible(f, dims, crop) <==>
      var b := ScaleFace(f, dims);
      PositiveArea(b) && OverlapArea(b, CropBox(crop)) >= VisibilityThreshold * Area(b)
  {
    Visible(ScaleFace(f, dims), CropBox(crop))
  }

  /** `faces.map(...)`: each face with its verdict. */
  function FaceStatus<P>(faces: seq<Face<P>>, dims: Dimensions, crop: Crop): (r: seq<Status<Face<P>>>)
    requires forall f <- faces :: HasFrame(f)
    ensures |r| == |faces|
    ensures forall i :: 0 <= i < |r| ==> r[i].item == faces[i] && r[i].isVisible == FaceVisible(faces[i], dims, crop)
  {
    seq(|faces|, i requires 0 <= i < |faces| => Status(faces[i], FaceVisible(faces[i], dims, crop)))
  }

  /**
   * checkFaceVisibility: without a crop every face is visible; with one, the
   * faces are split by their verdict. Either way the two buckets share out
   * the input.
   */
  function CheckFaceVisibility<P>(faces: seq<Face<P>>, dims: Dimensions, crop: Option<Crop>): (r: Split<Face<P>>)
    requires crop.Some? ==> forall f <- faces :: HasFrame(f)
    ensures crop.None? ==> r.visible == faces && r.hidden == []
    ensures |r.visible| + |r.hidden| == |faces|
    ensures multiset(r.visible) + multiset(r.hidden) == multiset(faces)
  {
    match crop
    case None => Split(faces, [])
    case Some(c) =>
      var status := FaceStatus(faces, dims, c);
      assert Items(status) == faces;
      Partition(status)
  }

  /** With a crop, a face is in `visible` exactly when it passes the
      threshold, and in `hidden` exactly when it does not. */
  lemma CheckFaceVisibilityMembership<P>(faces: seq<Face<P>>, dims: Dimensions, c: Crop, f: Face<P>)
    requires forall g <- faces :: HasFrame(g)
    ensures f in CheckFaceVisibility(faces, dims, Some(c)).visible <==> f in faces && FaceVisible(f, dims, c)
    ensures f in CheckFaceVisibility(faces, dims, Some(c)).hidden <==> f in faces && !FaceVisible(f, dims, c)
  {
    var status := FaceStatus(faces, dims, c);
    SelectMembership(status, true, f);
    SelectMembership(status, false, f);
    if f in faces {
      var i :| 0 <= i < |faces| && faces[i] == f;
      assert status[i].item == f;
    }
  }

  /** With a crop, a single face goes to the bucket of its own verdict. */
  lemma CheckFaceVisibilityOne<P>(f: Face<P>, dims: Dimensions, c: Crop)
    requires HasFrame(f)
    ensures CheckFaceVisibility([f], dims, Some(c)) ==
      if FaceVisible(f, dims, c) then Split([f], []) else Split([], [f])
  {
    var status := FaceStatus([f], dims, c);
    assert status == [Status(f, FaceVisible(f, dims, c))];
    assert status[1..] == [];
  }

  /** Each bucket keeps the input order: classifying a concatenation
      concatenates the buckets. */
  lemma CheckFaceVisibilityKeepsOrder<P>(faces: seq<Face<P>>, more: seq<Face<P>>, dims: Dimensions, crop: Option<Crop>)
    requires crop.Some? ==> forall f <- faces + more :: HasFrame(f)
    ensures CheckFaceVisibility(faces + more, dims, crop) ==
      Split(CheckFaceVisibility(faces, dims, crop).visible + CheckFaceVisibility(more, dims, crop).visible,
            CheckFaceVisibility(faces, dims, crop).hidden + CheckFaceVisibility(more, dims, crop).hidden)
  {
    if crop.Some? {
      var c := crop.value;
      var front, back, whole := FaceStatus(faces, dims, c), FaceStatus(more, dims, c), FaceStatus(faces + more, dims, c);
      FaceStatusAppend(faces, more, dims, c);
      SelectAppend(front, back, true);
      SelectAppend(front, back, false);
      assert CheckFaceVisibility(faces + more, dims, crop) == Partition(whole);
    }
  }

  /** The verdicts of a concatenation are the two lists of verdicts, in order. */
  lemma FaceStatusAppend<P>(faces: seq<Face<P>>, more: seq<Face<P>>, dims: Dimensions, c: Crop)
    requires forall f <- faces + more :: HasFrame(f)
    ensures FaceStatus(faces + more, dims, c) == FaceStatus(faces, dims, c) + FaceStatus(more, dims, c)
  {
    var front, back, whole := FaceStatus(faces, dims, c), FaceStatus(more, dims, c), FaceStatus(faces + more, dims, c);
    forall i | 0 <= i < |whole| ensures whole[i] == (front + back)[i] {
      if i >= |front| {
        assert (faces + more)[i] == more[i - |front|];
      }
    }
  }

  // ----------------------------------------------------------- OCR regions

  /** The smaller of four numbers (Math.min with four arguments). */
  function Min4(a: real, b: real, c: real, d: real): (r: real)
    ensures r <= a && r <= b && r <= c && r <= d
    ensures r == a || r == b || r == c || r == d
  {
    Min(Min(Min(a, b), c), d)
  }

  /** The larger of four numbers (Math.max with four arguments). */
  function Max4(a: real, b: real, c: real, d: real): (r: real)
    ensures r >= a && r >= b && r >= c && r >= d
    ensures r == a || r == b || r == c || r == d
  {
    Max(Max(Max(a, b), c), d)
  }

  /** The region's corners in the asset's pixel space. */
  function OcrPolygon<P>(o: Ocr<P>, dims: Dimensions): (r: seq<Point>)
    ensures |r| == 4
  {
    [ Point(o.x1 * dims.width, o.y1 * dims.height),
      Point(o.x2 * dims.width, o.y2 * dims.height),
      Point(o.x3 * dims.width, o.y3 * dims.height),
      Point(o.x4 * dims.width, o.y4 * dims.height) ]
  }

  /** The axis-aligned box of four points: well formed, holds every point,
      and each of its edges passes through one of them. */
  function BoundingBox(p: seq<Point>): (r: Box)
    requires |p| == 4
    ensures WellFormed(r)
    ensures forall i :: 0 <= i < 4 ==> Inside(p[i], r)
    ensures exists i :: 0 <= i < 4 && r.x1 == p[i].x
    ensures exists i :: 0 <= i < 4 && r.y1 == p[i].y
    ensures exists i :: 0 <= i < 4 && r.x2 == p[i].x
    ensures exists i :: 0 <= i < 4 && r.y2 == p[i].y
  {
    Box(
      Min4(p[0].x, p[1].x, p[2].x, p[3].x),
      Min4(p[0].y, p[1].y, p[2].y, p[3].y),
      Max4(p[0].x, p[1].x, p[2].x, p[3].x),
      Max4(p[0].y, p[1].y, p[2].y, p[3].y))
  }

  /** No axis-aligned box that holds all four points is smaller. */
  lemma BoundingBoxIsSmallest(p: seq<Point>, b: Box)
    requires |p| == 4
    requires forall i :: 0 <= i < 4 ==> Inside(p[i], b)
    ensures Contains(b, BoundingBox(p))
  {
    var r := BoundingBox(p);
    var i1 :| 0 <= i1 < 4 && r.x1 == p[i1].x;
    var j1 :| 0 <= j1 < 4 && r.y1 == p[j1].y;
    var i2 :| 0 <= i2 < 4 && r.x2 == p[i2].x;
    var j2 :| 0 <= j2 < 4 && r.y2 == p[j2].y;
    assert Inside(p[i1], b) && Inside(p[j1], b) && Inside(p[i2], b) && Inside(p[j2], b);
  }

  /** The region reduced to its axis-aligned box in pixel space: well
      formed and holding every corner. */
  function OcrBox<P>(o: Ocr<P>, dims: Dimensions): (r: Box)
    ensures WellFormed(r)
    ensures forall i :: 0 <= i < 4 ==> Inside(OcrPolygon(o, dims)[i], r)
  {
    BoundingBox(OcrPolygon(o, dims))
  }

  /** A region whose corners are fractions in [0, 1] stays inside the asset. */
  lemma OcrBoxInsideAsset<P>(o: Ocr<P>, dims: Dimensions)
    requires 0.0 <= o.x1 <= 1.0 && 0.0 <= o.x2 <= 1.0 && 0.0 <= o.x3 <= 1.0 && 0.0 <= o.x4 <= 1.0
    requires 0.0 <= o.y1 <= 1.0 && 0.0 <= o.y2 <= 1.0 && 0.0 <= o.y3 <= 1.0 && 0.0 <= o.y4 <= 1.0
    requires 0.0 <= dims.width && 0.0 <= dims.height
    ensures Contains(Box(0.0, 0.0, dims.width, dims.height), OcrBox(o, dims))
  {
    CornersInsideAsset(o, dims);
    BoundingBoxIsSmallest(OcrPolygon(o, dims), Box(0.0, 0.0, dims.width, dims.height));
  }

  lemma CornersInsideAsset<P>(o: Ocr<P>, dims: Dimensions)
    requires 0.0 <= o.x1 <= 1.0 && 0.0 <= o.x2 <= 1.0 && 0.0 <= o.x3 <= 1.0 && 0.0 <= o.x4 <= 1.0
    requires 0.0 <= o.y1 <= 1.0 && 0.0 <= o.y2 <= 1.0 && 0.0 <= o.y3 <= 1.0 && 0.0 <= o.y4 <= 1.0
    requires 0.0 <= dims.width && 0.0 <= dims.height
    ensures forall i :: 0 <= i < 4 ==> Inside(OcrPolygon(o, dims)[i], Box(0.0, 0.0, dims.width, dims.height))
  {
    var p := OcrPolygon(o, dims);
    CornerInside(o.x1, o.y1, dims, p[0]);
    CornerInside(o.x2, o.y2, dims, p[1]);
    CornerInside(o.x3, o.y3, dims, p[2]);
    CornerInside(o.x4, o.y4, dims, p[3]);
  }

  /** A corner given as fractions in [0, 1] lands inside the asset. */
  lemma CornerInside(x: real, y: real, dims: Dimensions, q: Point)
    requires 0.0 <= x <= 1.0 && 0.0 <= y <= 1.0
    requires 0.0 <= dims.width && 0.0 <= dims.height
    requires q == Point(x * dims.width, y * dims.height)
    ensures Inside(q, Box(0.0, 0.0, dims.width, dims.height))
  {
    MulMono(0.0, 0.0, x, dims.width);
    MulMono(x, dims.width, 1.0, dims.width);
    MulMono(0.0, 0.0, y, dims.height);
    MulMono(y, dims.height, 1.0, dims.height);
  }

  /** The verdict on a region: its box in pixel space is proper and keeps at
      least half of its area inside the crop rectangle. */
  predicate OcrVisible<P>(o: Ocr<P>, dims: Dimensions, crop: Crop)
    ensures OcrVisible(o, dims, crop) <==>
      var b := OcrBox(o, dims);
      PositiveArea(b) && OverlapArea(b, CropBox(crop)) >= VisibilityThreshold * Area(b)
  {
    Visible(OcrBox(o, dims), CropBox(crop))
  }

  /** `ocrs.map(...)`: each region with its verdict. */
  function OcrStatus<P>(ocrs: seq<Ocr<P>>, dims: Dimensions, crop: Crop): (r: seq<Status<Ocr<P>>>)
    ensures |r| == |ocrs|
    ensures forall i :: 0 <= i < |r| ==> r[i].item == ocrs[i] && r[i].isVisible == OcrVisible(ocrs[i], dims, crop)
  {
    seq(|ocrs|, i requires 0 <= i < |ocrs| => Status(ocrs[i], OcrVisible(ocrs[i], dims, crop)))
  }

  /**
   * checkOcrVisibility: without a crop every region is visible; with one, the
   * regions are split by the verdict on their bounding box.
   */
  function CheckOcrVisibility<P>(ocrs: seq<Ocr<P>>, dims: Dimensions, crop: Option<Crop>): (r: Split<Ocr<P>>)
    ensures crop.None? ==> r.visible == ocrs && r.hidden == []
    ensures |r.visible| + |r.hidden| == |ocrs|
    ensures multiset(r.visible) + multiset(r.hidden) == multiset(ocrs)
  {
    match crop
    case None => Split(ocrs, [])
    case Some(c) =>
      var status := OcrStatus(ocrs, dims, c);
      assert Items(status) == ocrs;
      Partition(status)
  }

  /** With a crop, a region is in `visible` exactly when its bounding box
      passes the threshold, and in `hidden` exactly when it does not. */
  lemma CheckOcrVisibilityMembership<P>(ocrs: seq<Ocr<P>>, dims: Dimensions, c: Crop, o: Ocr<P>)
    ensures o in CheckOcrVisibility(ocrs, dims, Some(c)).visible <==> o in ocrs && OcrVisible(o, dims, c)
    ensures o in CheckOcrVisibility(ocrs, dims, Some(c)).hidden <==> o in ocrs && !OcrVisible(o, dims, c)
  {
    var status := OcrStatus(ocrs, dims, c);
    SelectMembership(status, true, o);
    SelectMembership(status, false, o);
    if o in ocrs {
      var i :| 0 <= i < |ocrs| && ocrs[i] == o;
      assert status[i].item == o;
    }
  }

  /** With a crop, a single region goes to the bucket of its own verdict. */
  lemma CheckOcrVisibilityOne<P>(o: Ocr<P>, dims: Dimensions, c: Crop)
    ensures CheckOcrVisibility([o], dims, Some(c)) ==
      if OcrVisible(o, dims, c) then Split([o], []) else Split([], [o])
  {
    var status := OcrStatus([o], dims, c);
    assert status == [Status(o, OcrVisible(o, dims, c))];
    assert status[1..] == [];
  }

  /** Each bucket keeps the input order. */
  lemma CheckOcrVisibilityKeepsOrder<P>(ocrs: seq<Ocr<P>>, more: seq<Ocr<P>>, dims: Dimensions, crop: Option<Crop>)
    ensures CheckOcrVisibility(ocrs + more, dims, crop) ==
      Split(CheckOcrVisibility(ocrs, dims, crop).visible + CheckOcrVisibility(more, dims, crop).visible,
            CheckOcrVisibility(ocrs, dims, crop).hidden + CheckOcrVisibility(more, dims, crop).hidden)
  {
    if crop.Some? {
      var c := crop.value;
      var front, back, whole := OcrStatus(ocrs, dims, c), OcrStatus(more, dims, c), OcrStatus(ocrs + more, dims, c);
      OcrStatusAppend(ocrs, more, dims, c);
      SelectAppend(front, back, true);
      SelectAppend(front, back, false);
      assert CheckOcrVisibility(ocrs + more, dims, crop) == Partition(whole);
    }
  }

  /** The verdicts of a concatenation are the two lists of verdicts, in order. */
  lemma OcrStatusAppend<P>(ocrs: seq<Ocr<P>>, more: seq<Ocr<P>>, dims: Dimensions, c: Crop)
    ensures OcrStatus(ocrs + more, dims, c) == OcrStatus(ocrs, dims, c) + OcrStatus(more, dims, c)
  {
    var front, back, whole := OcrStatus(ocrs, dims, c), OcrStatus(more, dims, c), OcrStatus(ocrs + more, dims, c);
    forall i | 0 <= i < |whole| ensures whole[i] == (front + back)[i] {
      if i >= |front| {
        assert (ocrs + more)[i] == more[i - |front|];
      }
    }
  }
}
