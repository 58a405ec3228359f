/** The drivers: drawing a glyph, drawing it centred, and growing its point
    size until it spans the canvas. The font rasterizer is abstract. */
module Drivers {
  import opened Wrappers
  import opened Images
  import Binarizer
  import opened Scanner
  import opened Offsets

  /** Padding added to the target canvas for the measuring render. */
  const Padding: nat := 20

  /** One render request for a fixed character and font: the square canvas
      size, the point size and the pixel position of the text. */
  datatype Placement = Placement(canvasSize: nat, charSize: int, x: int, y: int)

  /** The rasterizer: the intensity it leaves at (row, column) after drawing
      the character in ink onto a background-filled canvas. */
  type Renderer = (Placement, int, int) -> int

  /** The grayscale canvas the rasterizer produces for a request. */
  function Canvas(render: Renderer, p: Placement): Raster {
    seq(p.canvasSize, i requires 0 <= i < p.canvasSize =>
      seq(p.canvasSize, j requires 0 <= j < p.canvasSize => render(p, i, j)))
  }

  /** Draw the character and binarize the result with the default threshold. */
  function DrawChar(render: Renderer, p: Placement): (img: Raster)
    ensures |img| == p.canvasSize && IsSquare(img) && IsBinary(img)
    ensures forall i, j :: 0 <= i < p.canvasSize && 0 <= j < p.canvasSize ==>
              (img[i][j] == Ink <==> render(p, i, j) < Binarizer.DefaultThreshold)
  {
    Binarizer.ConvertBinary(Canvas(render, p), Binarizer.DefaultThreshold)
  }

  /** The render used for measuring: the target canvas extended by `Padding`
      below and to the right, with the text at the origin. */
  function MeasuringPlacement(canvasSize: nat, charSize: int): Placement {
    Placement(canvasSize + Padding, charSize, 0, 0)
  }

  /** Where the centred drawing is drawn: the target canvas, the same point
      size, and the offset measured on the padded canvas. Shifted by it, the
      measured ink bounding box has opposite margins in the target canvas that
      differ by at most one pixel, with the sign of the difference kept (the
      halving rounds toward zero). `None` when the measuring drawing holds no ink. */
  function CenterPlacement(render: Renderer, canvasSize: nat, charSize: int): (r: Option<Placement>)
    ensures r.Some? <==> HasInk(DrawChar(render, MeasuringPlacement(canvasSize, charSize)))
    ensures r.Some? ==> r.value.canvasSize == canvasSize && r.value.charSize == charSize
    ensures r.Some? ==>
      var b := InkBox(DrawChar(render, MeasuringPlacement(canvasSize, charSize)));
      var beforeX := (canvasSize - 1 - b.lastCol) - b.firstCol;
      var afterX := (canvasSize - 1 - (b.lastCol + r.value.x)) - (b.firstCol + r.value.x);
      var beforeY := (canvasSize - 1 - b.lastRow) - b.firstRow;
      var afterY := (canvasSize - 1 - (b.lastRow + r.value.y)) - (b.firstRow + r.value.y);
      && (0 <= beforeX ==> 0 <= afterX <= 1) && (beforeX < 0 ==> -1 <= afterX <= 0)
      && (0 <= beforeY ==> 0 <= afterY <= 1) && (beforeY < 0 ==> -1 <= afterY <= 0)
  {
    var measured := DrawChar(render, MeasuringPlacement(canvasSize, charSize));
    match GetOffset(measured, canvasSize)
    case None => None
    case Some(m) =>
      OffsetCentersInkBox(measured, canvasSize, InkBox(measured));
      Some(Placement(canvasSize, charSize, m.xOffset, m.yOffset))
  }

  /** Draw the character centred on a canvas of `canvasSize`: measure it on the
      padded canvas, then draw it again at the measured offset. `None` when the
      measuring drawing holds no ink. */
  function DrawCharCenter(render: Renderer, canvasSize: nat, charSize: int): (r: Option<(Raster, bool)>)
    ensures r.Some? <==> HasInk(DrawChar(render, MeasuringPlacement(canvasSize, charSize)))
    ensures r.Some? ==> |r.value.0| == canvasSize && IsSquare(r.value.0) && IsBinary(r.value.0)
    ensures r.Some? ==> r.value.0 == DrawChar(render, CenterPlacement(render, canvasSize, charSize).value)
    ensures r.Some? ==>
      var b := InkBox(DrawChar(render, MeasuringPlacement(canvasSize, charSize)));
      r.value.1 <==> (b.lastRow - b.firstRow + 1 >= canvasSize || b.lastCol - b.firstCol + 1 >= canvasSize)
  {
    var measured := DrawChar(render, MeasuringPlacement(canvasSize, charSize));
    match GetOffset(measured, canvasSize)
    case None => None
    case Some(m) =>
      IsMaximumIffGlyphSpansCanvas(measured, canvasSize, InkBox(measured));
      Some((DrawChar(render, Placement(canvasSize, charSize, m.xOffset, m.yOffset)), m.isMaximum))
  }

  /** Point size `s` was tried with `center` and did not yet span the canvas. */
  predicate NotYetMaximum(center: int -> Option<(Raster, bool)>, s: int) {
    center(s).Some? && !center(s).value.1
  }

  /** How the growing search ends: the first point size whose glyph spans the
      canvas, with its drawing; a point size whose measuring render is blank,
      where the program fails; or the attempt budget spent. */
  datatype Search = Found(img: Raster, size: int) | Blank(size: int) | Exhausted

  /** The maximizing loop over an abstract centred drawing `center` (point
      size to drawing and flag): from `start` upward one point at a time until
      the flag is set. The program loops without bound; here at most `fuel`
      point sizes are tried. */
  method GrowUntilMaximum(center: int -> Option<(Raster, bool)>, start: int, fuel: nat) returns (r: Search)
    ensures r.Found? ==> start <= r.size < start + fuel && center(r.size) == Some((r.img, true))
    ensures r.Blank? ==> start <= r.size < start + fuel && center(r.size).None?
    ensures (r.Found? || r.Blank?) ==> forall s :: start <= s < r.size ==> NotYetMaximum(center, s)
    ensures r.Exhausted? ==> forall s :: start <= s < start + fuel ==> NotYetMaximum(center, s)
  {
    var charSize := start;
    while charSize < start + fuel
      invariant start <= charSize <= start + fuel
      invariant forall s :: start <= s < charSize ==> NotYetMaximum(center, s)
    {
      var attempt := center(charSize);
      if attempt.None? {
        return Blank(charSize);
      }
      if attempt.value.1 {
        return Found(attempt.value.0, charSize);
      }
      charSize := charSize + 1;
    }
    return Exhausted;
  }

  /** Point size `s` was drawn centred and did not yet span the canvas. */
  predicate SizeNotYetMaximum(render: Renderer, canvasSize: nat, s: int) {
    NotYetMaximum(s => DrawCharCenter(render, canvasSize, s), s)
  }

  /** The program's maximizing driver: centred drawings of the character at
      point sizes from the canvas size upward, until one spans the canvas. */
  method DrawCharMaximum(render: Renderer, canvasSize: nat, fuel: nat) returns (r: Search)
    ensures r.Found? ==> canvasSize <= r.size < canvasSize + fuel
    ensures r.Found? ==> DrawCharCenter(render, canvasSize, r.size) == Some((r.img, true))
    ensures r.Blank? ==> canvasSize <= r.size < canvasSize + fuel
    ensures r.Blank? ==> !HasInk(DrawChar(render, MeasuringPlacement(canvasSize, r.size)))
    ensures (r.Found? || r.Blank?) ==> forall s :: canvasSize <= s < r.size ==>
              SizeNotYetMaximum(render, canvasSize, s)
    ensures r.Exhausted? ==> forall s :: canvasSize <= s < canvasSize + fuel ==>
              SizeNotYetMaximum(render, canvasSize, s)
  {
    r := GrowUntilMaximum(s => DrawCharCenter(render, canvasSize, s), canvasSize, fuel);
  }
}
