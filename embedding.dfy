/** The deterministic integer and sequence steps of `/generate-embedding`:
    the LBP-like texture code over the resized grey image, and the shaping of
    the feature vector to exactly 128 entries. */
module Embedding {
  import opened Http
  import opened Geometry
  import opened Pixels

  /** A grey-level pixel, as in the service's 8-bit grey image. */
  newtype byte = x: int | 0 <= x < 256

  /** Side of the square the grey image is resized to. */
  const ResizedSide: nat := 64
  /** Length of every embedding. */
  const EmbeddingDim: nat := 128

  function Bit(b: bool): nat { if b then 1 else 0 }

  /** The texture code of interior pixel (i, j): one bit per neighbour that is
      brighter than the pixel itself, weighted 1 (up-left), 2 (up), 4 (up-right)
      and 8 (right). */
  function Pattern(g: Image<byte>, i: int, j: int): (p: int)
    requires g.Valid() && 1 <= i < g.height - 1 && 1 <= j < g.width - 1
    ensures 0 <= p < 16
  {
    var center := g.rows[i][j];
    Bit(g.rows[i - 1][j - 1] > center) + 2 * Bit(g.rows[i - 1][j] > center)
      + 4 * Bit(g.rows[i - 1][j + 1] > center) + 8 * Bit(g.rows[i][j + 1] > center)
  }

  /** The code determines the four comparisons: each bit can be read back. */
  lemma PatternBitsReadBack(g: Image<byte>, i: int, j: int)
    requires g.Valid() && 1 <= i < g.height - 1 && 1 <= j < g.width - 1
    ensures var p, center := Pattern(g, i, j), g.rows[i][j];
      && p % 2 == Bit(g.rows[i - 1][j - 1] > center)
      && p / 2 % 2 == Bit(g.rows[i - 1][j] > center)
      && p / 4 % 2 == Bit(g.rows[i - 1][j + 1] > center)
      && p / 8 == Bit(g.rows[i][j + 1] > center)
  {
  }

  /** How many indices `range(1, n - 1)` visits. */
  function Interior(n: nat): nat { if n >= 2 then n - 2 else 0 }

  lemma RowMajorIndex(k: int, rows: nat, cols: nat)
    requires 0 <= k < rows * cols
    ensures 0 <= k / cols < rows && 0 <= k % cols < cols
  {
  }

  lemma RowMajorSplit(r: int, c: int, cols: nat)
    requires 0 <= r && 0 <= c < cols
    ensures (r * cols + c) / cols == r && (r * cols + c) % cols == c
  {
    var k := r * cols + c;
    var q, m := k / cols, k % cols;
    assert (q - r) * cols == c - m;
    OnlyZeroMultipleIsSmall(q - r, cols);
  }

  lemma OnlyZeroMultipleIsSmall(d: int, n: int)
    requires -n < d * n < n
    ensures d == 0
  {
  }

  lemma RowMajorBound(r: int, c: int, rows: nat, cols: nat)
    requires 0 <= r < rows && 0 <= c < cols
    ensures r * cols + c < rows * cols
  {
    assert r * cols + cols == (r + 1) * cols <= rows * cols;
  }

  /** Every texture code of the image, row by row over the interior pixels:
      entry k belongs to pixel (1 + k / cols, 1 + k % cols). */
  function Texture(g: Image<byte>): (t: seq<int>)
    requires g.Valid()
    ensures |t| == Interior(g.height) * Interior(g.width)
    ensures forall k :: 0 <= k < |t| ==> 0 <= t[k] < 16
  {
    var rows, cols := Interior(g.height), Interior(g.width);
    seq(rows * cols, k requires 0 <= k < rows * cols =>
      RowMajorIndex(k, rows, cols); Pattern(g, 1 + k / cols, 1 + k % cols))
  }

  /** The code of interior pixel (i, j) is entry (i - 1) * cols + (j - 1). */
  lemma TextureAt(g: Image<byte>, i: int, j: int)
    requires g.Valid() && 1 <= i < g.height - 1 && 1 <= j < g.width - 1
    ensures var k := (i - 1) * Interior(g.width) + (j - 1);
      0 <= k < |Texture(g)| && Texture(g)[k] == Pattern(g, i, j)
  {
    var rows, cols := Interior(g.height), Interior(g.width);
    var k := (i - 1) * cols + (j - 1);
    RowMajorSplit(i - 1, j - 1, cols);
    RowMajorBound(i - 1, j - 1, rows, cols);
    assert 1 + k / cols == i && 1 + k % cols == j;
  }

  /** The 64 x 64 resize yields 62 * 62 codes. */
  lemma ResizedTextureLength(g: Image<byte>)
    requires g.Valid() && g.height == ResizedSide && g.width == ResizedSide
    ensures |Texture(g)| == 62 * 62 == 3844
  {
  }

  /** The nested loop over the interior pixels, accumulating each code bit by
      bit. */
  method TexturePatterns(g: Image<byte>) returns (texture: seq<int>)
    requires g.Valid()
    ensures texture == Texture(g)
  {
    ghost var rows, cols := Interior(g.height), Interior(g.width);
    texture := [];
    var i := 1;
    while i < g.height - 1
      invariant 1 <= i <= rows + 1
      invariant (i - 1) * cols <= rows * cols
      invariant texture == Texture(g)[..(i - 1) * cols]
    {
      var j := 1;
      while j < g.width - 1
        invariant 1 <= j <= cols + 1
        invariant (i - 1) * cols + (j - 1) <= rows * cols
        invariant texture == Texture(g)[..(i - 1) * cols + (j - 1)]
      {
        var center := g.rows[i][j];
        var pattern := 0;
        pattern := pattern + (if g.rows[i - 1][j - 1] > center then 1 else 0);
        pattern := pattern + (if g.rows[i - 1][j] > center then 2 else 0);
        pattern := pattern + (if g.rows[i - 1][j + 1] > center then 4 else 0);
        pattern := pattern + (if g.rows[i][j + 1] > center then 8 else 0);
        TextureAt(g, i, j);
        ghost var k := (i - 1) * cols + (j - 1);
        assert Texture(g)[..k + 1] == Texture(g)[..k] + [Texture(g)[k]];
        texture := texture + [pattern % 16];
        j := j + 1;
      }
      assert (i - 1) * cols + cols == i * cols;
      i := i + 1;
    }
  }

  /** `features` cut to its first 128 entries, or padded with zeros up to 128. */
  function PadOrTruncate(features: seq<real>): (e: seq<real>)
    ensures |e| == EmbeddingDim
    ensures forall i :: 0 <= i < |features| && i < EmbeddingDim ==> e[i] == features[i]
    ensures forall i :: |features| <= i < EmbeddingDim ==> e[i] == 0.0
  {
    if |features| > EmbeddingDim then features[..EmbeddingDim]
    else features + seq(EmbeddingDim - |features|, _ => 0.0)
  }

  /** An independent description: append 128 zeros and keep the first 128. */
  lemma PadOrTruncateIsPrefixOfPadded(features: seq<real>)
    ensures PadOrTruncate(features) == (features + seq(EmbeddingDim, _ => 0.0))[..EmbeddingDim]
  {
  }

  /** A vector that already has 128 entries is left as it is, so shaping twice
      is shaping once. */
  lemma PadOrTruncateIdempotent(features: seq<real>)
    ensures |features| == EmbeddingDim ==> PadOrTruncate(features) == features
    ensures PadOrTruncate(PadOrTruncate(features)) == PadOrTruncate(features)
  {
  }

  /** With the service's 32 grey-level histogram bins and 16 texture bins the
      embedding is those 48 values followed by 80 zeros. */
  lemma EmbeddingLayout(hist: seq<real>, textureHist: seq<real>)
    requires |hist| == 32 && |textureHist| == 16
    ensures var e := PadOrTruncate(hist + textureHist);
      e[..32] == hist && e[32..48] == textureHist && e[48..] == seq(80, _ => 0.0)
  {
  }

  /** What the endpoint answers once the image holds a face or not.
      `Generated` carries the vector before its L2 normalisation. */
  datatype EmbeddingResult =
    | NoFaceDetected(error: string, confidence: real)
    | Generated(embedding: seq<real>)

  const NoFaceError: string := "No face detected in crop"

  /** The endpoint, once the image is decoded: `faces` is what the detector
      found, `resized` the 64 x 64 grey image, `hist` its 32-bin grey-level
      histogram and `binTexture` the 16-bin histogram of the texture codes. */
  method GenerateEmbedding(data: map<string, string>, faces: seq<Detection>, resized: Image<byte>,
                           hist: seq<real>, binTexture: seq<int> -> seq<real>)
    returns (r: Response<EmbeddingResult>)
    requires resized.Valid() && resized.height == ResizedSide && resized.width == ResizedSide
    ensures r.Error? <==> "image" !in data
    ensures r.Error? ==> r.status == 400 && r.message == "No image provided"
    ensures r.Ok? ==> (r.body.NoFaceDetected? <==> faces == [])
    ensures r.Ok? && faces == [] ==> r.body == NoFaceDetected("No face detected in crop", 0.0)
    ensures r.Ok? && faces != [] ==>
      && |r.body.embedding| == EmbeddingDim
      && r.body.embedding == PadOrTruncate(hist + binTexture(Texture(resized)))
  {
    var field := ImageField(data);
    if field.Error? {
      return Error(field.status, field.message);
    }
    if |faces| == 0 {
      return Ok(NoFaceDetected(NoFaceError, 0.0));
    }
    var texture := TexturePatterns(resized);
    var combined := hist + binTexture(texture);
    r := Ok(Generated(PadOrTruncate(combined)));
  }
}
