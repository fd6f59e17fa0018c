/** The `/crop-faces` endpoint: one padded, clamped crop per detected face,
    numbered from 1 in detection order. */
module Cropping {
  import opened Http
  import opened Geometry
  import opened Pixels

  /** One entry of `face_crops`; `pixels` is the cut-out region, which the
      service then encodes as JPEG and base64. */
  datatype FaceCrop<P> = FaceCrop(faceId: nat, boundingBox: Box, cropCoordinates: CropRect, pixels: Image<P>)

  datatype CropResult<P> = CropResult(facesDetected: nat, hasFaces: bool, faceCrops: seq<FaceCrop<P>>)

  /** The enumerate loop over the detections: pad, clamp, cut, number. */
  method ExtractCrops<P>(image: Image<P>, faces: seq<Detection>) returns (crops: seq<FaceCrop<P>>)
    requires image.Valid()
    ensures |crops| == |faces|
    ensures forall i :: 0 <= i < |faces| ==>
      && crops[i].faceId == i + 1
      && crops[i].boundingBox == ToBox(faces[i])
      && crops[i].cropCoordinates == CropBox(ToBox(faces[i]), image.width, image.height)
      && crops[i].pixels == Crop(image, crops[i].cropCoordinates)
  {
    crops := [];
    for i := 0 to |faces|
      invariant |crops| == i
      invariant forall k :: 0 <= k < i ==>
        && crops[k].faceId == k + 1
        && crops[k].boundingBox == ToBox(faces[k])
        && crops[k].cropCoordinates == CropBox(ToBox(faces[k]), image.width, image.height)
        && crops[k].pixels == Crop(image, crops[k].cropCoordinates)
    {
      var (x, y, w, h) := faces[i];
      var padding := Min(w, h) / 5;
      var xStart := Max(0, x - padding);
      var yStart := Max(0, y - padding);
      var xEnd := Min(image.width, x + w + padding);
      var yEnd := Min(image.height, y + h + padding);
      var coordinates := CropRect(xStart, yStart, xEnd, yEnd);
      crops := crops + [FaceCrop(i + 1, Box(x, y, w, h), coordinates, Crop(image, coordinates))];
    }
  }

  /** The whole endpoint once the image is decoded and `faces` is what the
      detector found in it. */
  method CropFaces<P>(data: map<string, string>, image: Image<P>, faces: seq<Detection>)
    returns (r: Response<CropResult<P>>)
    requires image.Valid()
    ensures r.Error? <==> "image" !in data
    ensures r.Error? ==> r.status == 400 && r.message == "No image provided"
    ensures r.Ok? && faces == [] ==> r.body == CropResult(0, false, [])
    ensures r.Ok? ==> r.body.facesDetected == |faces| && (r.body.hasFaces <==> |faces| > 0)
    ensures r.Ok? ==> |r.body.faceCrops| == |faces|
    ensures r.Ok? ==> forall i :: 0 <= i < |faces| ==>
      && r.body.faceCrops[i].faceId == i + 1
      && r.body.faceCrops[i].boundingBox == ToBox(faces[i])
      && r.body.faceCrops[i].cropCoordinates == CropBox(ToBox(faces[i]), image.width, image.height)
      && r.body.faceCrops[i].pixels == Crop(image, r.body.faceCrops[i].cropCoordinates)
  {
    var field := ImageField(data);
    if field.Error? {
      return Error(field.status, field.message);
    }
    if |faces| == 0 {
      return Ok(CropResult(0, false, []));
    }
    var crops := ExtractCrops(image, faces);
    r := Ok(CropResult(|faces|, true, crops));
  }

  /** The ids 1..n. */
  function IdsUpTo(n: nat): (ids: set<nat>)
    ensures forall k :: k in ids <==> 1 <= k <= n
  {
    if n == 0 then {} else IdsUpTo(n - 1) + {n}
  }

  /** The face ids of a result are exactly 1..n, so they are distinct. */
  lemma {:induction false} FaceIdsAreOneToN<P>(crops: seq<FaceCrop<P>>)
    requires forall i :: 0 <= i < |crops| ==> crops[i].faceId == i + 1
    ensures (set c | c in crops :: c.faceId) == IdsUpTo(|crops|)
    ensures forall i, j :: 0 <= i < j < |crops| ==> crops[i].faceId != crops[j].faceId
  {
    var ids := set c | c in crops :: c.faceId;
    forall k: nat | 1 <= k <= |crops| ensures k in ids {
      assert crops[k - 1] in crops;
    }
    forall id | id in ids ensures 1 <= id <= |crops| {
      var c :| c in crops && c.faceId == id;
      var i :| 0 <= i < |crops| && crops[i] == c;
    }
  }

  /** When the detected box lies inside the image, the crop holds every pixel
      of the face: pixel (y + dy, x + dx) of the photo sits at
      (y - yStart + dy, x - xStart + dx) of the crop. */
  lemma FaceInsideCrop<P>(image: Image<P>, b: Box, dy: nat, dx: nat)
    requires image.Valid()
    requires b.x + b.width <= image.width && b.y + b.height <= image.height
    requires dy < b.height && dx < b.width
    ensures var r := CropBox(b, image.width, image.height);
      var c := Crop(image, r);
      && b.y - r.yStart + dy < c.height && b.x - r.xStart + dx < c.width
      && c.rows[b.y - r.yStart + dy][b.x - r.xStart + dx] == image.rows[b.y + dy][b.x + dx]
  {
  }
}
