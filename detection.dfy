/** The `/detect-faces` endpoint: the detector's boxes reshaped into the JSON
    answer `{faces_detected, faces, has_faces}`. */
module FaceDetection {
  import opened Http
  import opened Geometry

  datatype DetectResult = DetectResult(facesDetected: nat, faces: seq<Box>, hasFaces: bool)

  /** The loop that turns each detected (x, y, w, h) into a box record, in
      detection order. */
  method FormatFaces(faces: seq<Detection>) returns (faceData: seq<Box>)
    ensures |faceData| == |faces|
    ensures forall i :: 0 <= i < |faces| ==> faceData[i] == ToBox(faces[i])
  {
    faceData := [];
    for i := 0 to |faces|
      invariant |faceData| == i
      invariant forall k :: 0 <= k < i ==> faceData[k] == ToBox(faces[k])
    {
      var (x, y, w, h) := faces[i];
      faceData := faceData + [Box(x, y, w, h)];
    }
  }

  /** The whole endpoint once the image is decoded and `faces` is what the
      detector found in it. */
  method DetectFaces(data: map<string, string>, faces: seq<Detection>) returns (r: Response<DetectResult>)
    ensures r.Error? <==> "image" !in data
    ensures r.Error? ==> r.status == 400 && r.message == "No image provided"
    ensures r.Ok? ==> r.body.facesDetected == |faces| && |r.body.faces| == |faces|
    ensures r.Ok? ==> (r.body.hasFaces <==> |faces| > 0)
    ensures r.Ok? ==> forall i :: 0 <= i < |faces| ==> r.body.faces[i] == ToBox(faces[i])
  {
    var image := ImageField(data);
    if image.Error? {
      return Error(image.status, image.message);
    }
    var faceData := FormatFaces(faces);
    r := Ok(DetectResult(|faces|, faceData, |faces| > 0));
  }
}
