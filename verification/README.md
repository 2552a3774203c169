# Crop visibility of faces and OCR regions

When a user crops a photo, the server decides which detected faces and which
detected text (OCR) regions still belong to the edited image. The decision is
made in `server/src/utils/editor.ts`:

- `boundingBoxOverlap(a, b)` is the share of box `a`'s own area that lies
  inside box `b`. It is not intersection-over-union: it is not symmetric.
- `checkFaceVisibility(faces, dims, crop?)` rescales every face box from the
  frame it was detected in (`imageWidth` x `imageHeight`) into the asset's
  pixel space. A face is visible when at least half of its box lies inside
  the crop rectangle. The faces are then split into `visible` and `hidden`.
- `checkOcrVisibility(ocrs, dims, crop?)` does the same for text regions.
  Their four corners are fractions of the asset's size. The axis-aligned box
  around the four corners is what gets compared with the crop.
- Without a crop every entity is visible.

The model has four modules:

- `BoxGeometry` (`geometry.dfy`): boxes, the clamped intersection and the
  overlap ratio, with its properties.
- `Buckets` (`buckets.dfy`): the filter-then-map step that both checkers
  share.
- `Editor` (`editor.dfy`): the crop rectangle, the verdict for one box, face
  rescaling, the OCR bounding box, and the two checkers.
- `Scenarios` (`scenarios.dfy`): the concrete cases that the repository's test
  file `server/src/utils/editor.spec.ts` expects, proved about the model.

Coordinates are mathematical reals. Each face or OCR record keeps the fields
the decision never reads in an opaque `info` payload of a type parameter.

The source computes `overlapArea / faceArea`. For a box of zero area this is
0/0: when the width or the height is zero, the clamped intersection is zero
too. In JavaScript 0/0 is `NaN`, and `NaN >= 0.5` is false, so such a region
lands in `hidden`. The model states this case explicitly:

- `Overlap` requires a non-zero area.
- `Visible` is `Area != 0 && Overlap >= 0.5`.
- `ZeroAreaIsHidden` proves that a zero-area region is hidden.

A box with inverted corners (`x2 < x1`) and a non-zero area gets a ratio of
0, so it is hidden too (`OverlapOfInverted`, `InvertedIsHidden`).

## Model

| member | source | states |
|---|---|---|
| BoxGeometry.Max | server/src/utils/editor.ts:10-11 | `Math.max` of two numbers: at least both arguments, and equal to one of them |
| BoxGeometry.Min | server/src/utils/editor.ts:12-13 | `Math.min` of two numbers: at most both arguments, and equal to one of them |
| BoxGeometry.OverlapWidth | server/src/utils/editor.ts:10-15 | the clamped intersection width is never negative and never wider than either box |
| BoxGeometry.OverlapHeight | server/src/utils/editor.ts:10-15 | the clamped intersection height is never negative and never taller than either box |
| BoxGeometry.OverlapArea | server/src/utils/editor.ts:15 | the intersection area, a product of two clamped extents, is never negative |
| BoxGeometry.Area | server/src/utils/editor.ts:16 | the signed area of the first box is positive for a proper box, and zero exactly when its width or its height is zero |
| BoxGeometry.Overlap | server/src/utils/editor.ts:6-18 | when the first box has a non-zero area, the ratio lies in [0, 1] |
| BoxGeometry.OverlapAreaBounds | server/src/utils/editor.ts:15-17 | the intersection area is non-negative and at most the first box's area; it is zero when the first box is inverted |
| BoxGeometry.OverlapOfInverted | server/src/utils/editor.ts:15-17 | a first box with an inverted extent and a non-zero area has ratio 0 |
| BoxGeometry.OverlapOneIffContained | server/src/utils/editor.ts:6-18 | for a first box of positive area, the ratio is 1 exactly when the second box contains it |
| BoxGeometry.OverlapZeroIffDisjoint | server/src/utils/editor.ts:6-18 | for a first box of positive area, the ratio is 0 exactly when the boxes share no region of positive area; touching edges count as disjoint |
| BoxGeometry.OverlapSelf | server/src/utils/editor.ts:6-18 | a box compared with itself has ratio 1 |
| BoxGeometry.OverlapOfContained | server/src/utils/editor.ts:15-17 | when the second box lies inside the first, the ratio is area(second) / area(first) |
| BoxGeometry.OverlapNotSymmetric | server/src/utils/editor.ts:16-17 | some pair of proper boxes gives different ratios in the two orders |
| BoxGeometry.OverlapMonotone | server/src/utils/editor.ts:6-18 | growing the second box never lowers the ratio |
| BoxGeometry.OverlapAreaMonotone | server/src/utils/editor.ts:10-15 | growing the second box never lowers the intersection area |
| Buckets.Select | server/src/utils/editor.ts:56-57 | filter-then-map of a status list: never longer than the list, and each item in it comes from an entry carrying the requested flag |
| Buckets.Partition | server/src/utils/editor.ts:55-58 | the two buckets' sizes add up to the list's size, and counting repeats they hold exactly the list's items |
| Buckets.SelectAppend | server/src/utils/editor.ts:56-57 | filtering a concatenation concatenates the filtered parts, so input order is kept |
| Buckets.SelectMember | server/src/utils/editor.ts:56-57 | every entry's item is in the bucket of its own flag |
| Buckets.SelectMembership | server/src/utils/editor.ts:56-57 | an item is in a bucket exactly when some entry with that item carries that flag |
| Buckets.SelectAll | server/src/utils/editor.ts:56-57 | when every entry carries the same flag, that bucket is the whole item list and the other bucket is empty |
| Buckets.SelectPartition | server/src/utils/editor.ts:55-58 | the two filters' sizes add up to the list's size, and their multisets add up to the list's items |
| Editor.CropBox | server/src/utils/editor.ts:32-37 | the crop rectangle starts at the crop's origin and has its width and height |
| Editor.Visible | server/src/utils/editor.ts:47-51 | a box passes `overlapPercentage >= 0.5` exactly when it has positive extents and the intersection keeps at least half of its area; the threshold is inclusive, and a zero-area box is hidden because its ratio 0/0 is `NaN` and `NaN >= 0.5` is false |
| Editor.RatioThreshold | server/src/utils/editor.ts:16-17 | for a box of non-zero area, the ratio reaches 0.5 exactly when the box is proper and the intersection area reaches half of the box's area |
| Editor.ZeroAreaIsHidden | server/src/utils/editor.ts:16-17 | a region of zero area is hidden (0/0 is NaN, and NaN >= 0.5 is false) |
| Editor.ContainedIsVisible | server/src/utils/editor.ts:47-51 | a region of positive area lying inside the crop is visible |
| Editor.DisjointIsHidden | server/src/utils/editor.ts:47-51 | a region that the crop misses or only touches is hidden |
| Editor.InvertedIsHidden | server/src/utils/editor.ts:47-51 | a region with an inverted or empty extent is hidden whatever the crop |
| Editor.VisibleUnderLargerCrop | server/src/utils/editor.ts:47-51 | a crop containing another never hides a region that the smaller crop keeps |
| Editor.ScaleFace | server/src/utils/editor.ts:40-45 | each rescaled coordinate keeps its position relative to the frame: `r.x1 * imageWidth == boundingBoxX1 * dims.width`, and likewise for the other three |
| Editor.ScaleFaceSameFrame | server/src/utils/editor.ts:40-45 | when the asset has the size of the face's frame, the stored box is unchanged |
| Editor.ScaleFaceKeepsPositiveArea | server/src/utils/editor.ts:40-45 | rescaling between positive frames keeps a proper box proper |
| Editor.FaceVisible | server/src/utils/editor.ts:40-51 | a face is visible exactly when its box, rescaled into the asset, is proper and keeps at least half of its area inside the crop rectangle |
| Editor.FaceStatus | server/src/utils/editor.ts:39-53 | one entry per face, in order, each holding that face and its verdict against the crop |
| Editor.CheckFaceVisibility | server/src/utils/editor.ts:20-59 | without a crop all faces are visible and none hidden; in every case the buckets' sizes add up and their multisets make up the input |
| Editor.CheckFaceVisibilityMembership | server/src/utils/editor.ts:39-58 | with a crop, a face is visible exactly when it is in the input and passes the threshold, and hidden exactly when it is in the input and does not |
| Editor.CheckFaceVisibilityOne | server/src/utils/editor.ts:39-58 | with a crop, a single face goes to the bucket of its own verdict |
| Editor.CheckFaceVisibilityKeepsOrder | server/src/utils/editor.ts:55-58 | classifying a concatenation of faces concatenates both buckets, so each bucket keeps the input order |
| Editor.FaceStatusAppend | server/src/utils/editor.ts:39-53 | the verdicts of a concatenation are the two verdict lists, in order |
| Editor.Min4 | server/src/utils/editor.ts:90-91 | `Math.min` of four numbers: at most each argument, and equal to one of them |
| Editor.Max4 | server/src/utils/editor.ts:92-93 | `Math.max` of four numbers: at least each argument, and equal to one of them |
| Editor.OcrPolygon | server/src/utils/editor.ts:82-87 | the region has exactly four corners in pixel space; where they land is stated by `Editor.CornersInsideAsset` |
| Editor.BoundingBox | server/src/utils/editor.ts:89-94 | the box is well formed, holds all four corners, and each of its edges passes through a corner |
| Editor.BoundingBoxIsSmallest | server/src/utils/editor.ts:89-94 | every axis-aligned box holding the four corners contains the bounding box |
| Editor.OcrBox | server/src/utils/editor.ts:82-94 | the region's box in pixel space is well formed and holds each of the four scaled corners |
| Editor.CornersInsideAsset | server/src/utils/editor.ts:82-87 | when the eight stored coordinates are fractions in [0, 1] and the asset's size is non-negative, each scaled corner lies inside the asset |
| Editor.OcrBoxInsideAsset | server/src/utils/editor.ts:82-94 | under the same conditions the region's box lies inside the asset rectangle 0..width x 0..height |
| Editor.OcrVisible | server/src/utils/editor.ts:82-100 | a region is visible exactly when its box in pixel space is proper and keeps at least half of its area inside the crop rectangle |
| Editor.OcrStatus | server/src/utils/editor.ts:80-102 | one entry per region, in order, each holding that region and its verdict against the crop |
| Editor.CheckOcrVisibility | server/src/utils/editor.ts:61-108 | without a crop all regions are visible and none hidden; in every case the buckets' sizes add up and their multisets make up the input |
| Editor.CheckOcrVisibilityMembership | server/src/utils/editor.ts:80-107 | with a crop, a region is visible exactly when it is in the input and its bounding box passes the threshold, and hidden exactly when it is in the input and does not |
| Editor.CheckOcrVisibilityOne | server/src/utils/editor.ts:80-107 | with a crop, a single region goes to the bucket of its own verdict |
| Editor.CheckOcrVisibilityKeepsOrder | server/src/utils/editor.ts:104-107 | classifying a concatenation of regions concatenates both buckets, so each bucket keeps the input order |
| Editor.OcrStatusAppend | server/src/utils/editor.ts:80-102 | the verdicts of a concatenation are the two verdict lists, in order |
| Scenarios.WholeCropRectangle | server/src/utils/editor.spec.ts:97-100 | the test crop at the origin of size 500 x 500 covers 0..500 |
| Scenarios.HalfCropRectangle | server/src/utils/editor.spec.ts:124-127 | the test crop at (150, 100) of size 500 x 500 covers 150..650 x 100..600 |
| Scenarios.FortyCropRectangle | server/src/utils/editor.spec.ts:138-141 | the test crop at (160, 100) of size 500 x 500 covers 160..660 x 100..600 |
| Scenarios.SmallCropRectangle | server/src/utils/editor.spec.ts:195-198 | the test crop at the origin of size 200 x 200 covers 0..200 |
| Scenarios.OverlapIdenticalScenario | server/src/utils/editor.spec.ts:9-12 | a box compared with itself gives 1 |
| Scenarios.OverlapApartScenario | server/src/utils/editor.spec.ts:14-18 | boxes far apart, and boxes touching along an edge (lines 45-49), give 0 |
| Scenarios.OverlapHalfScenario | server/src/utils/editor.spec.ts:20-24 | half of the box covered from the side gives 0.5 |
| Scenarios.OverlapQuarterScenario | server/src/utils/editor.spec.ts:26-30 | a quarter covered at a corner gives 0.25 |
| Scenarios.OverlapContainmentScenario | server/src/utils/editor.spec.ts:32-43 | a box inside another gives 1, while the reverse order gives 0.25 |
| Scenarios.OverlapVerticalHalfScenario | server/src/utils/editor.spec.ts:51-55 | half of the box covered from below gives 0.5 |
| Scenarios.WhollyKeptScenario | server/src/utils/editor.spec.ts:95-106 | the box 100..200 inside the crop 0..500 has ratio 1 and is visible |
| Scenarios.OutsideScenario | server/src/utils/editor.spec.ts:108-119 | a box starting at or beyond 500 is hidden by the crop 0..500 |
| Scenarios.HalfKeptScenario | server/src/utils/editor.spec.ts:121-133 | the box 100..200 under a crop starting at x = 150 has ratio exactly 0.5 and is visible |
| Scenarios.FortyKeptScenario | server/src/utils/editor.spec.ts:135-147 | the same box under a crop starting at x = 160 has ratio 0.4 and is hidden |
| Scenarios.QuarterKeptScenario | server/src/utils/editor.spec.ts:158-166 | the box 400..600 has ratio 0.25 against the crop 0..500 and is hidden |
| Scenarios.EdgeKeptScenario | server/src/utils/editor.spec.ts:183-204 | the box 100..200 inside the crop 0..200 has ratio 1 and is visible |
| Scenarios.SmallKeptScenario | server/src/utils/editor.spec.ts:342-355 | the box 50..100 inside the crop 0..200 has ratio 1 and is visible |
| Scenarios.FaceInsideScenario | server/src/utils/editor.spec.ts:95-106 | a face wholly inside the crop is visible and is the only entry of `visible` |
| Scenarios.FaceOutsideScenario | server/src/utils/editor.spec.ts:108-119 | a face beyond the crop is hidden and is the only entry of `hidden` |
| Scenarios.FaceHalfScenario | server/src/utils/editor.spec.ts:121-133 | a face with exactly half of its area kept is visible |
| Scenarios.FaceFortyScenario | server/src/utils/editor.spec.ts:135-147 | a face with 40% of its area kept is hidden |
| Scenarios.FacePartialScenario | server/src/utils/editor.spec.ts:158-166 | a face with a quarter of its area kept is hidden |
| Scenarios.FaceMixedScenario | server/src/utils/editor.spec.ts:149-181 | of three faces, the inside one is visible and the outside and partial ones are hidden, in input order |
| Scenarios.OneKeptTwoHidden | server/src/utils/editor.ts:39-58 | three faces with verdicts kept, hidden, hidden are split into the first and the other two, in order |
| Scenarios.KeptHiddenHidden | server/src/utils/editor.ts:55-58 | partitioning the verdicts kept, hidden, hidden |
| Scenarios.RescaledBox | server/src/utils/editor.spec.ts:183-194 | a face stored at 50..100 in a 500 x 500 frame is at 100..200 in a 1000 x 1000 asset |
| Scenarios.FaceRescaleScenario | server/src/utils/editor.spec.ts:183-204 | that rescaled face is kept by the crop 0..200 |
| Scenarios.NoCropScenario | server/src/utils/editor.spec.ts:80-93 | without a crop two faces are both visible, no faces give empty buckets, and the same holds for OCR regions (lines 227-240) |
| Scenarios.SquareBox | server/src/utils/editor.ts:82-94 | a square region of fractions lo..hi on a d x d asset has the bounding box lo*d..hi*d |
| Scenarios.SquareCorners | server/src/utils/editor.ts:89-94 | the bounding box of a square's four corners is that square |
| Scenarios.NearSquareBox | server/src/utils/editor.spec.ts:242-244 | the region 0.1..0.2 of a 1000 x 1000 asset is the box 100..200 |
| Scenarios.FarSquareBox | server/src/utils/editor.spec.ts:256-258 | the region 0.8..0.9 of a 1000 x 1000 asset is the box 800..900 |
| Scenarios.SmallAssetBox | server/src/utils/editor.spec.ts:342-345 | the region 0.1..0.2 of a 500 x 500 asset is the box 50..100 |
| Scenarios.RotatedBox | server/src/utils/editor.spec.ts:316-330 | the diamond with corners on the side midpoints of 0.1..0.2 has the bounding box 100..200 |
| Scenarios.OcrInsideScenario | server/src/utils/editor.spec.ts:242-254 | the region 100..200 is visible under the crop 0..500 |
| Scenarios.OcrOutsideScenario | server/src/utils/editor.spec.ts:256-268 | the region 800..900 is hidden under the crop 0..500 |
| Scenarios.OcrHalfScenario | server/src/utils/editor.spec.ts:270-282 | the region with exactly half of its area kept is visible |
| Scenarios.OcrFortyScenario | server/src/utils/editor.spec.ts:284-296 | the region with 40% of its area kept is hidden |
| Scenarios.OcrMixedScenario | server/src/utils/editor.spec.ts:298-314 | of two regions, the inside one is visible and the outside one hidden |
| Scenarios.OneKeptOneHidden | server/src/utils/editor.ts:80-107 | two regions with verdicts kept, hidden are split into one each, in order |
| Scenarios.KeptHidden | server/src/utils/editor.ts:104-107 | partitioning the verdicts kept, hidden |
| Scenarios.OcrSmallAssetScenario | server/src/utils/editor.spec.ts:342-355 | on a 500 x 500 asset the region 0.1..0.2 is the box 50..100, which the crop 0..200 keeps |
| Scenarios.OcrRotatedScenario | server/src/utils/editor.spec.ts:316-340 | the rotated region is judged by its bounding box, which the crop 0..500 keeps |

## Left out

- Floating point: coordinates are exact reals. IEEE rounding, infinities and
  signed zeros are not modelled. The only `NaN` case modelled is the 0/0 of a
  box with zero area.
- Editor.CheckFaceVisibility: when a crop is given, requires a non-zero
  `imageWidth` and `imageHeight` for every face. The source divides by them
  only in that case, and a zero frame would then make it compute with
  `Infinity` or `NaN`, which real numbers cannot express. Without a crop any
  face is accepted.
- Editor.Crop: holds only the crop's parameters. The `action` tag of the
  edit is never read by the decision.
- Editor.Face, Editor.Ocr: the record fields the decision never reads (ids,
  person, dates, text, scores) are an opaque payload `info`.
- Editor.CheckFaceVisibility, Editor.CheckOcrVisibility: without a crop the
  source returns the input array itself as `visible`. The model returns an
  equal sequence; array identity and aliasing are not modelled.
- Editor.CheckFaceVisibility, Editor.CheckOcrVisibility: argument shapes that
  TypeScript does not check at run time (missing fields, non-numeric values)
  are not modelled.
