/** The binarizer: thresholds a grayscale raster into pure ink and background. */
module Binarizer {
  import opened Images

  /** Threshold used when none is given. */
  const DefaultThreshold: int := 128

  /** One pixel: below the threshold it becomes ink, otherwise background. */
  function BinarizePixel(v: int, threshold: int): (r: int)
    ensures r == Ink || r == Background
    ensures r == Ink <==> v < threshold
  {
    if v < threshold then Ink else Background
  }

  /** The whole raster, pixel by pixel; the shape is kept. */
  function ConvertBinary(img: Raster, threshold: int): (r: Raster)
    ensures |r| == |img|
    ensures forall i :: 0 <= i < |img| ==> |r[i]| == |img[i]|
    ensures IsBinary(r)
    ensures forall i, j :: 0 <= i < |img| && 0 <= j < |img[i]| ==>
              (r[i][j] == Ink <==> img[i][j] < threshold)
  {
    seq(|img|, i requires 0 <= i < |img| =>
      seq(|img[i]|, j requires 0 <= j < |img[i]| => BinarizePixel(img[i][j], threshold)))
  }

  /** The thresholding loop of the program: it walks the rows, and in each row
      the first row's number of columns, overwriting every pixel in place. */
  method ConvertBinaryImg(img: Raster, threshold: int) returns (out: Raster)
    requires IsRect(img)
    ensures out == ConvertBinary(img, threshold)
  {
    out := img;
    var rows := |img|;
    var i := 0;
    while i < rows
      invariant 0 <= i <= rows
      invariant |out| == rows
      invariant forall k :: 0 <= k < i ==> out[k] == ConvertBinary(img, threshold)[k]
      invariant forall k :: i <= k < rows ==> out[k] == img[k]
    {
      var cols := Width(img);
      var j := 0;
      while j < cols
        invariant 0 <= j <= cols
        invariant |out| == rows && |out[i]| == cols
        invariant forall k :: 0 <= k < i ==> out[k] == ConvertBinary(img, threshold)[k]
        invariant forall k :: i < k < rows ==> out[k] == img[k]
        invariant forall c :: 0 <= c < j ==> out[i][c] == BinarizePixel(img[i][c], threshold)
        invariant forall c :: j <= c < cols ==> out[i][c] == img[i][c]
      {
        if out[i][j] < threshold {
          out := out[i := out[i][j := Ink]];
        } else {
          out := out[i := out[i][j := Background]];
        }
        j := j + 1;
      }
      assert out[i] == ConvertBinary(img, threshold)[i];
      i := i + 1;
    }
  }

  /** A raster that is already binary is left as it is by any threshold
      strictly between ink and background. */
  lemma BinaryIsFixed(img: Raster, threshold: int)
    requires IsBinary(img)
    requires Ink < threshold <= Background
    ensures ConvertBinary(img, threshold) == img
  {
    var r := ConvertBinary(img, threshold);
    forall i | 0 <= i < |img|
      ensures r[i] == img[i]
    {
      forall j | 0 <= j < |img[i]|
        ensures r[i][j] == img[i][j]
      {
        assert img[i][j] == Ink || img[i][j] == Background;
      }
    }
  }

  /** Binarizing twice gives the raster binarizing once gives: for every
      threshold in 1..255 whatever the pixels, and for every threshold at all
      when the pixels are 8-bit intensities. */
  lemma ConvertBinaryIdempotent(img: Raster, threshold: int)
    requires (Ink < threshold <= Background) || IsByteRaster(img)
    ensures ConvertBinary(ConvertBinary(img, threshold), threshold) == ConvertBinary(img, threshold)
  {
    var once := ConvertBinary(img, threshold);
    if Ink < threshold <= Background {
      BinaryIsFixed(once, threshold);
    } else {
      var twice := ConvertBinary(once, threshold);
      forall i | 0 <= i < |img|
        ensures twice[i] == once[i]
      {
        forall j | 0 <= j < |img[i]|
          ensures twice[i][j] == once[i][j]
        {
          assert IsByte(img[i][j]);
          if threshold <= Ink {
            assert once[i][j] == Background;
          } else {
            assert once[i][j] == Ink;
          }
        }
      }
    }
  }
}
