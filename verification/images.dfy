/** Rasters: the 2-D single-channel grids the program renders glyphs onto. */
module Images {

  /** A raster as a list of rows; each row is a list of pixel intensities. */
  type Raster = seq<seq<int>>

  /** Intensity of a foreground (ink) pixel. */
  const Ink: int := 0

  /** Intensity of a background pixel; a freshly allocated canvas is filled with it. */
  const Background: int := 255

  /** An 8-bit intensity, as stored by a single-channel ('L') image. */
  predicate IsByte(v: int) {
    0 <= v <= 255
  }

  /** Number of columns, read off the first row (as a 2-D array's shape does). */
  function Width(img: Raster): nat {
    if |img| == 0 then 0 else |img[0]|
  }

  /** Every row has the same length: the shape of a 2-D array. */
  predicate IsRect(img: Raster) {
    forall i :: 0 <= i < |img| ==> |img[i]| == Width(img)
  }

  /** As many columns as rows. */
  predicate IsSquare(img: Raster) {
    forall i :: 0 <= i < |img| ==> |img[i]| == |img|
  }

  /** Every row is at least as long as the raster is tall, so that every
      (row, column) pair below the row count can be indexed. */
  predicate CoversCanvas(img: Raster) {
    forall i :: 0 <= i < |img| ==> |img[i]| >= |img|
  }

  predicate IsByteRaster(img: Raster) {
    forall i, j :: 0 <= i < |img| && 0 <= j < |img[i]| ==> IsByte(img[i][j])
  }

  /** Every pixel is pure ink or pure background. */
  predicate IsBinary(img: Raster) {
    forall i, j :: 0 <= i < |img| && 0 <= j < |img[i]| ==> img[i][j] == Ink || img[i][j] == Background
  }
}
