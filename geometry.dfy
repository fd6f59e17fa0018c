/** Integer geometry of the face boxes: the detector's (x, y, w, h) tuples,
    the JSON bounding-box record, and the padded crop rectangle clamped to
    the image. */
module Geometry {

  /** One face as the cascade classifier reports it: (x, y, w, h) in pixels.
      The classifier never reports negative coordinates or sides. */
  type Detection = (nat, nat, nat, nat)

  /** The `{'x', 'y', 'width', 'height'}` record of the JSON responses. */
  datatype Box = Box(x: nat, y: nat, width: nat, height: nat)

  /** The `crop_coordinates` record: columns [xStart, xEnd), rows [yStart, yEnd). */
  datatype CropRect = CropRect(xStart: int, yStart: int, xEnd: int, yEnd: int)

  function Min(a: int, b: int): int { if a <= b then a else b }
  function Max(a: int, b: int): int { if a <= b then b else a }

  /** The record carrying exactly the values of the detection `d`. */
  function ToBox(d: Detection): Box { Box(d.0, d.1, d.2, d.3) }

  /** The margin added on every side of a face: one fifth of the shorter
      side, rounded down (the source truncates `min(w, h) * 0.2`). */
  function Padding(w: nat, h: nat): (p: nat)
    ensures p <= w && p <= h
    ensures 5 * p <= Min(w, h) < 5 * (p + 1)
  {
    Min(w, h) / 5
  }

  /** The face box grown by the padding on all four sides, then clamped to
      an image of `width` columns and `height` rows. */
  function CropBox(b: Box, width: nat, height: nat): (r: CropRect)
    ensures 0 <= r.xStart && 0 <= r.yStart && r.xEnd <= width && r.yEnd <= height
    ensures 0 <= r.xEnd && 0 <= r.yEnd
    ensures b.x <= width ==> r.xStart <= r.xEnd
    ensures b.y <= height ==> r.yStart <= r.yEnd
    ensures b.x < width && b.width > 0 ==> r.xStart < r.xEnd
    ensures b.y < height && b.height > 0 ==> r.yStart < r.yEnd
    ensures b.x + b.width <= width ==> r.xStart <= b.x && b.x + b.width <= r.xEnd
    ensures b.y + b.height <= height ==> r.yStart <= b.y && b.y + b.height <= r.yEnd
  {
    var padding := Padding(b.width, b.height);
    CropRect(Max(0, b.x - padding), Max(0, b.y - padding),
             Min(width, b.x + b.width + padding), Min(height, b.y + b.height + padding))
  }

  /** A column lies in the crop exactly when it lies in the image and in the
      padded face box: the crop is the intersection of the two. */
  lemma CropColumnsAreIntersection(b: Box, width: nat, height: nat, c: int)
    ensures var r, p := CropBox(b, width, height), Padding(b.width, b.height);
      r.xStart <= c < r.xEnd <==> 0 <= c < width && b.x - p <= c < b.x + b.width + p
  {
  }

  /** The same for rows. */
  lemma CropRowsAreIntersection(b: Box, width: nat, height: nat, y: int)
    ensures var r, p := CropBox(b, width, height), Padding(b.width, b.height);
      r.yStart <= y < r.yEnd <==> 0 <= y < height && b.y - p <= y < b.y + b.height + p
  {
  }
}
