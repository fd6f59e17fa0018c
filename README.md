# Face detection service: crop geometry, response shaping and embedding layout

This project models the deterministic core of the Flask face-detection
service `face_detection_service.py`. The Haar-cascade detector, the image
codecs and the floating-point numerics are foreign to it; what remains is
integer geometry and sequence shaping, and that is what is modelled and
proved:

- **`/detect-faces`** (`FaceDetection`): every detected box `(x, y, w, h)`
  becomes a `{x, y, width, height}` record, in detection order;
  `faces_detected` is the count and `has_faces` holds exactly when it is
  positive.
- **`/crop-faces`** (`Geometry`, `Pixels`, `Cropping`): each face is padded by
  one fifth of its shorter side (rounded down) on every side, clamped to the
  image, cut out of the photo with numpy slicing, and numbered from 1. With
  no face the answer is `faces_detected = 0`, `has_faces = false` and no crops.
- **`/generate-embedding`** (`Embedding`): the LBP-like texture code of every
  interior pixel of the 64 x 64 grey image (four neighbour comparisons
  weighted 1, 2, 4, 8), and the padding or truncation of the feature vector
  to exactly 128 entries.
- **The request guard** (`Http`): a POST body without an `image` field is
  answered with status 400 and "No image provided".

The endpoints are modelled as methods that take the request's JSON fields,
the already decoded image and the detector's list of boxes as parameters;
the detector is an arbitrary input sequence of non-negative `(x, y, w, h)`
tuples.

## Model

| member | source | states |
|---|---|---|
| `Http.ImageField` | face_detection_service.py:32-34 | the request is refused exactly when it has no `image` field, and then with status 400 and "No image provided"; otherwise the field's value is handed on |
| `Geometry.Padding` | face_detection_service.py:166 | the padding is the largest p with 5p <= min(w, h), i.e. min(w, h) * 0.2 truncated, and never exceeds either side |
| `Geometry.CropBox` | face_detection_service.py:167-170 | the crop rectangle lies inside the image; it contains the face box whenever the box lies inside the image; along an axis, start <= end whenever the box starts no further than the image's far edge, and start < end (a non-empty range) whenever the box starts strictly inside the image and has a positive side along that axis |
| `Geometry.CropColumnsAreIntersection` | face_detection_service.py:166-170 | a column is in the crop iff it is in the image and in the face box grown by the padding |
| `Geometry.CropRowsAreIntersection` | face_detection_service.py:166-170 | a row is in the crop iff it is in the image and in the face box grown by the padding |
| `Pixels.Slice` | face_detection_service.py:173 | numpy `s[lo:hi]` for non-negative bounds: its length (bounds cut to the sequence, empty when start is not below stop) and element k is `s[lo + k]` |
| `Pixels.Crop` | face_detection_service.py:173 | `image[y_start:y_end, x_start:x_end]` is a well-formed image of the sliced height and width whose pixel (i, j) is the photo's pixel (y_start + i, x_start + j) |
| `FaceDetection.FormatFaces` | face_detection_service.py:53-60 | one record per detected box, in detection order, carrying that box's x, y, width and height |
| `FaceDetection.DetectFaces` | face_detection_service.py:30-69 | 400 iff no `image`; otherwise `faces_detected` and the length of `faces` equal the number of detections, each record describes its detection, and `has_faces` iff that number is positive |
| `Cropping.ExtractCrops` | face_detection_service.py:162-194 | one crop per detection in detection order, with `face_id` i + 1, the detection's own bounding box, the clamped padded rectangle and the pixels of that rectangle |
| `Cropping.CropFaces` | face_detection_service.py:133-203 | 400 iff no `image`; with zero detections exactly `{0, false, []}`; otherwise `faces_detected` = n, `has_faces` iff n > 0, n crops numbered 1..n in detection order |
| `Cropping.FaceIdsAreOneToN` | face_detection_service.py:179-180 | the face ids of the crops are exactly the set {1, ..., n} and pairwise distinct |
| `Cropping.FaceInsideCrop` | face_detection_service.py:166-173 | for a box inside the image, every pixel of the face appears in the crop at its offset from the crop's corner |
| `Embedding.Pattern` | face_detection_service.py:253-258 | the texture code of an interior pixel lies in [0, 16) |
| `Embedding.PatternBitsReadBack` | face_detection_service.py:254-258 | bit 0, 1, 2, 3 of the code is the comparison of the up-left, up, up-right, right neighbour with the centre: the code is exactly the four comparisons weighted 1, 2, 4, 8 |
| `Embedding.Texture` | face_detection_service.py:250-259 | the code list has one entry per interior pixel, Interior(H) * Interior(W) in all (i.e. (H - 2) * (W - 2) when both sides are at least 2, otherwise none), each in [0, 16) |
| `Embedding.TextureAt` | face_detection_service.py:251-259 | the code of interior pixel (i, j) sits at row-major position (i - 1) * (W - 2) + (j - 1) |
| `Embedding.ResizedTextureLength` | face_detection_service.py:243-252 | for the 64 x 64 resize the loop emits 62 * 62 = 3844 codes |
| `Embedding.TexturePatterns` | face_detection_service.py:250-259 | the nested loop, accumulating each code bit by bit and appending it modulo 16, produces exactly the row-major code list |
| `Embedding.PadOrTruncate` | face_detection_service.py:267-271 | the result has exactly 128 entries; the first min(n, 128) are the input's, the rest are 0 |
| `Embedding.PadOrTruncateIsPrefixOfPadded` | face_detection_service.py:267-271 | padding or truncating equals appending 128 zeros and keeping the first 128 entries |
| `Embedding.PadOrTruncateIdempotent` | face_detection_service.py:267-271 | a 128-entry vector is left unchanged, so shaping twice is shaping once |
| `Embedding.EmbeddingLayout` | face_detection_service.py:246-271 | with 32 grey-level bins and 16 texture bins the embedding is those 48 values followed by 80 zeros |
| `Embedding.GenerateEmbedding` | face_detection_service.py:214-271 | 400 iff no `image`; with no face the fixed answer "No face detected in crop" with confidence 0.0; otherwise a 128-entry vector built from the grey histogram and the binned texture codes of the resized image |

## Left out

- Flask routing, `request.get_json`, `jsonify`, `app.run`, logging and the `/health` endpoint: web plumbing without logic. A body that is not a JSON object is not modelled; the request is a map from field names to strings.
- The 500 answer for exceptions raised by decoding (base64, PIL, OpenCV colour conversion): the endpoint methods take the decoded image, so that failure does not arise in the model.
- `Cropping.CropFaces`: does not model the 500 answer (lines 205-207) that the service gives when `cv2.imencode` (line 176) fails on an empty crop. A detection starting at or beyond the right or bottom edge gives such a crop, and the model then answers `Ok` with a zero-width or zero-height crop. This cannot happen in practice: `detectMultiScale` reports only boxes inside the image, at least 30 x 30 (line 49), and for those `Geometry.CropBox` proves the crop non-empty on both axes.
- base64 decoding and encoding, `Image.open`, `cv2.cvtColor`, `cv2.imencode`, `cv2.resize`: foreign codecs. A crop carries its pixel grid instead of its JPEG/base64 text; `GenerateEmbedding` takes the 64 x 64 resized image as a parameter.
- `face_cascade.detectMultiScale`: the detector is a black box; its boxes are an input sequence of non-negative tuples.
- `Geometry.Padding`: `int(min(w, h) * 0.2)` is computed in floating point; the model uses exact division by 5, which agrees with it for every side below 2^49.
- Numpy's fixed-width integers: coordinates are unbounded here; image coordinates are far below any wrap-around.
- `/process-faces` (lines 75-126): it only draws rectangles and labels with `cv2.rectangle` and `cv2.putText`; its count and `has_faces` fields are shaped like those of `/detect-faces`.
- `cv2.calcHist`, `np.histogram` binning, `sklearn` normalisation and the confidence formula with its clamp to [0.3, 0.95]: floating-point numerics. `GenerateEmbedding` takes the grey-level histogram and the texture binning as parameters and returns the vector before normalisation, without the confidence and model name.
- `Embedding.GenerateEmbedding`: states the success answer's vector before L2 normalisation, not the normalised vector the service returns.
