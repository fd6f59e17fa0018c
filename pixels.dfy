/** Images as rectangular grids of pixels, and the numpy-style slicing the
    service uses to cut a face out of a photo. */
module Pixels {
  import opened Geometry

  /** `rows[i][j]` is the pixel in row i, column j; `height` and `width` are
      the array's `shape[0]` and `shape[1]`. */
  datatype Image<P> = Image(height: nat, width: nat, rows: seq<seq<P>>) {
    ghost predicate Valid() {
      |rows| == height && forall i :: 0 <= i < |rows| ==> |rows[i]| == width
    }
  }

  /** How many elements `s[lo:hi]` keeps from a sequence of length n, for
      non-negative bounds: both bounds are cut down to n, and an empty slice
      results when the start is not below the stop. */
  function SliceLength(n: nat, lo: nat, hi: nat): nat {
    if lo < hi && lo < n then Min(hi, n) - lo else 0
  }

  /** `s[lo:hi]` with non-negative bounds. */
  function Slice<T>(s: seq<T>, lo: int, hi: int): (r: seq<T>)
    requires 0 <= lo && 0 <= hi
    ensures |r| == SliceLength(|s|, lo, hi)
    ensures forall k :: 0 <= k < |r| ==> lo + k < |s| && r[k] == s[lo + k]
  {
    var start := Min(lo, |s|);
    s[start..Max(start, Min(hi, |s|))]
  }

  /** `image[yStart:yEnd, xStart:xEnd]`: rows are sliced first, then every
      remaining row is sliced by columns. */
  function Crop<P>(image: Image<P>, r: CropRect): (c: Image<P>)
    requires image.Valid()
    requires 0 <= r.xStart && 0 <= r.yStart && 0 <= r.xEnd && 0 <= r.yEnd
    ensures c.Valid()
    ensures c.height == SliceLength(image.height, r.yStart, r.yEnd)
    ensures c.width == SliceLength(image.width, r.xStart, r.xEnd)
    ensures forall i, j :: 0 <= i < c.height && 0 <= j < c.width ==>
      r.yStart + i < image.height && r.xStart + j < image.width &&
      c.rows[i][j] == image.rows[r.yStart + i][r.xStart + j]
  {
    var kept := Slice(image.rows, r.yStart, r.yEnd);
    Image(|kept|, SliceLength(image.width, r.xStart, r.xEnd),
          seq(|kept|, i requires 0 <= i < |kept| => Slice(kept[i], r.xStart, r.xEnd)))
  }
}
