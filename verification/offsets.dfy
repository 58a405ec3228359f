/** The measurement step of the margin scanner: margins from the four scans,
    the centering offset and the "is maximum" flag. */
module Offsets {
  import opened Wrappers
  import opened Images
  import opened Scanner

  /** Distances from each edge of the target canvas to the glyph; the bottom
      and right ones are corrected by the padding of the measuring canvas and
      may be negative. */
  datatype Margins = Margins(top: int, bottom: int, left: int, right: int)

  /** What the measurement returns: the pixel offset to draw the glyph at,
      and whether the glyph already spans the target canvas on some axis. */
  datatype Measurement = Measurement(xOffset: int, yOffset: int, isMaximum: bool)

  /** The ink's bounding box in canvas coordinates (all bounds inclusive). */
  datatype Box = Box(firstRow: int, lastRow: int, firstCol: int, lastCol: int)

  /** Half of `x`, rounded toward zero (the conversion of a float quotient
      to an integer), unlike Dafny's `/`, which rounds toward minus infinity
      here: -3 halves to -1, not -2. */
  function TruncHalf(x: int): (r: int)
    ensures 0 <= x ==> 0 <= x - 2 * r <= 1
    ensures x < 0 ==> -1 <= x - 2 * r <= 0
  {
    if 0 <= x then x / 2 else -((-x) / 2)
  }

  /** `b` is the bounding box of the ink: its four bounds are rows and columns
      holding ink, and every row and column holding ink lies between them. */
  predicate IsInkBox(img: Raster, b: Box)
    requires CoversCanvas(img)
  {
    var n := |img|;
    && 0 <= b.firstRow < n && 0 <= b.lastRow < n
    && 0 <= b.firstCol < n && 0 <= b.lastCol < n
    && InkRow(img, b.firstRow) && InkRow(img, b.lastRow)
    && InkCol(img, b.firstCol) && InkCol(img, b.lastCol)
    && (forall i :: 0 <= i < n && InkRow(img, i) ==> b.firstRow <= i <= b.lastRow)
    && (forall j :: 0 <= j < n && InkCol(img, j) ==> b.firstCol <= j <= b.lastCol)
  }

  /** The margins of a raster measured for a target canvas of `normalSize`;
      `None` when the raster holds no ink, where the program fails looking
      up a margin that was never assigned. */
  function MeasureMargins(img: Raster, normalSize: int): (r: Option<Margins>)
    requires CoversCanvas(img)
    ensures r.Some? <==> HasInk(img)
    ensures r.Some? ==> IsFirstInkLine(img, Top, r.value.top)
    ensures r.Some? ==> IsFirstInkLine(img, Bottom, r.value.bottom + (|img| - normalSize))
    ensures r.Some? ==> IsFirstInkLine(img, Left, r.value.left)
    ensures r.Some? ==> IsFirstInkLine(img, Right, r.value.right + (|img| - normalSize))
  {
    InkSeenFromEveryEdge(img, Top);
    InkSeenFromEveryEdge(img, Bottom);
    InkSeenFromEveryEdge(img, Left);
    InkSeenFromEveryEdge(img, Right);
    var canvasOffset := |img| - normalSize;
    match (FirstInk(img, Top, 0), FirstInk(img, Bottom, 0), FirstInk(img, Left, 0), FirstInk(img, Right, 0))
    case (Some(t), Some(b), Some(l), Some(r)) =>
      FirstInkIsFirstInkLine(img, Top, t);
      FirstInkIsFirstInkLine(img, Bottom, b);
      FirstInkIsFirstInkLine(img, Left, l);
      FirstInkIsFirstInkLine(img, Right, r);
      Some(Margins(t, b - canvasOffset, l, r - canvasOffset))
    case _ => None
  }

  /** The offset and flag of a raster measured for a target canvas of
      `normalSize`; `None` exactly when the raster holds no ink. */
  function GetOffset(img: Raster, normalSize: int): (r: Option<Measurement>)
    requires CoversCanvas(img)
    ensures r.Some? <==> HasInk(img)
    ensures r.Some? ==>
      var m := MeasureMargins(img, normalSize).value;
      && (r.value.isMaximum <==> (m.top + m.bottom <= 0 || m.left + m.right <= 0))
      && (m.left <= m.right ==> 0 <= (m.right - m.left) - 2 * r.value.xOffset <= 1)
      && (m.right < m.left ==> -1 <= (m.right - m.left) - 2 * r.value.xOffset <= 0)
      && (m.top <= m.bottom ==> 0 <= (m.bottom - m.top) - 2 * r.value.yOffset <= 1)
      && (m.bottom < m.top ==> -1 <= (m.bottom - m.top) - 2 * r.value.yOffset <= 0)
  {
    match MeasureMargins(img, normalSize)
    case None => None
    case Some(m) =>
      Some(Measurement(
        TruncHalf(m.right - m.left),
        TruncHalf(m.bottom - m.top),
        m.top + m.bottom <= 0 || m.right + m.left <= 0))
  }

  /** Distance, counted in lines from edge `e`, of the side of box `b` facing that edge. */
  function SideOf(n: int, b: Box, e: Edge): int {
    match e
    case Top => b.firstRow
    case Bottom => n - 1 - b.lastRow
    case Left => b.firstCol
    case Right => n - 1 - b.lastCol
  }

  /** Scanning inward from an edge, the first line with ink is the side of
      the bounding box facing that edge. */
  lemma BoxSideIsFirstInkLine(img: Raster, b: Box, e: Edge)
    requires CoversCanvas(img)
    requires IsInkBox(img, b)
    ensures IsFirstInkLine(img, e, SideOf(|img|, b, e))
  {
    var n := |img|;
    var k := SideOf(n, b, e);
    LineHasInkIsRowOrCol(img, e, k);
    forall j | 0 <= j < k
      ensures !LineHasInk(img, e, j)
    {
      LineHasInkIsRowOrCol(img, e, j);
    }
  }

  /** The margins are the distances from the target canvas's edges to the
      ink's bounding box: the top and left ones from the measuring canvas's
      edges, the bottom and right ones moved in by the padding. */
  lemma MarginsMeasureInkBox(img: Raster, normalSize: int, b: Box)
    requires CoversCanvas(img)
    requires IsInkBox(img, b)
    ensures MeasureMargins(img, normalSize)
         == Some(Margins(b.firstRow, normalSize - 1 - b.lastRow, b.firstCol, normalSize - 1 - b.lastCol))
  {
    var n := |img|;
    BoxSideIsFirstInkLine(img, b, Top);
    BoxSideIsFirstInkLine(img, b, Bottom);
    BoxSideIsFirstInkLine(img, b, Left);
    BoxSideIsFirstInkLine(img, b, Right);
    assert InkRow(img, b.firstRow);
    assert HasInk(img);
    var m := MeasureMargins(img, normalSize).value;
    FirstInkIsFirstInkLine(img, Top, m.top);
    FirstInkIsFirstInkLine(img, Top, b.firstRow);
    FirstInkIsFirstInkLine(img, Bottom, m.bottom + (n - normalSize));
    FirstInkIsFirstInkLine(img, Bottom, n - 1 - b.lastRow);
    FirstInkIsFirstInkLine(img, Left, m.left);
    FirstInkIsFirstInkLine(img, Left, b.firstCol);
    FirstInkIsFirstInkLine(img, Right, m.right + (n - normalSize));
    FirstInkIsFirstInkLine(img, Right, n - 1 - b.lastCol);
  }

  /** The bounding box of the ink of a raster that holds some. */
  function InkBox(img: Raster): (b: Box)
    requires CoversCanvas(img)
    requires HasInk(img)
    ensures IsInkBox(img, b)
  {
    var n := |img|;
    var m := MeasureMargins(img, n).value;
    var b := Box(m.top, n - 1 - m.bottom, m.left, n - 1 - m.right);
    LineHasInkIsRowOrCol(img, Top, m.top);
    LineHasInkIsRowOrCol(img, Bottom, m.bottom);
    LineHasInkIsRowOrCol(img, Left, m.left);
    LineHasInkIsRowOrCol(img, Right, m.right);
    assert forall i :: 0 <= i < n && InkRow(img, i) ==> b.firstRow <= i <= b.lastRow by {
      forall i | 0 <= i < n && InkRow(img, i)
        ensures b.firstRow <= i <= b.lastRow
      {
        LineHasInkIsRowOrCol(img, Top, i);
        LineHasInkIsRowOrCol(img, Bottom, n - 1 - i);
      }
    }
    assert forall j :: 0 <= j < n && InkCol(img, j) ==> b.firstCol <= j <= b.lastCol by {
      forall j | 0 <= j < n && InkCol(img, j)
        ensures b.firstCol <= j <= b.lastCol
      {
        LineHasInkIsRowOrCol(img, Left, j);
        LineHasInkIsRowOrCol(img, Right, n - 1 - j);
      }
    }
    b
  }

  /** A raster has at most one ink bounding box. */
  lemma InkBoxUnique(img: Raster, b1: Box, b2: Box)
    requires CoversCanvas(img)
    requires IsInkBox(img, b1) && IsInkBox(img, b2)
    ensures b1 == b2
  {
  }

  /** The flag says the glyph is at least as tall or at least as wide as the
      target canvas, i.e. it touches or overflows the target canvas on some axis. */
  lemma IsMaximumIffGlyphSpansCanvas(img: Raster, normalSize: int, b: Box)
    requires CoversCanvas(img)
    requires IsInkBox(img, b)
    ensures GetOffset(img, normalSize).Some?
    ensures GetOffset(img, normalSize).value.isMaximum
        <==> (b.lastRow - b.firstRow + 1 >= normalSize || b.lastCol - b.firstCol + 1 >= normalSize)
  {
    MarginsMeasureInkBox(img, normalSize, b);
  }

  /** Shifted by the offset, the bounding box sits centred in the target canvas:
      its new left and right (top and bottom) margins differ by at most one
      pixel, and the offset never moves it past the centre, because the
      halving rounds toward zero. */
  lemma OffsetCentersInkBox(img: Raster, normalSize: int, b: Box)
    requires CoversCanvas(img)
    requires IsInkBox(img, b)
    ensures GetOffset(img, normalSize).Some?
    ensures
      var m := GetOffset(img, normalSize).value;
      var before := (normalSize - 1 - b.lastCol) - b.firstCol;
      var after := (normalSize - 1 - (b.lastCol + m.xOffset)) - (b.firstCol + m.xOffset);
      (0 <= before ==> 0 <= after <= 1) && (before < 0 ==> -1 <= after <= 0)
    ensures
      var m := GetOffset(img, normalSize).value;
      var before := (normalSize - 1 - b.lastRow) - b.firstRow;
      var after := (normalSize - 1 - (b.lastRow + m.yOffset)) - (b.firstRow + m.yOffset);
      (0 <= before ==> 0 <= after <= 1) && (before < 0 ==> -1 <= after <= 0)
  {
    MarginsMeasureInkBox(img, normalSize, b);
  }

  /** A single ink pixel at row 10, column 10 of a 30-pixel canvas. */
  function SinglePixelRaster(): (img: Raster)
    ensures |img| == 30 && IsSquare(img)
  {
    seq(30, i requires 0 <= i < 30 => seq(30, j requires 0 <= j < 30 => if i == 10 && j == 10 then Ink else Background))
  }

  /** Measured for a 20-pixel canvas, the single pixel has margins 10, 9, 10, 9
      and needs no offset: half of -1 rounds to 0 (floor division would give -1). */
  lemma SinglePixelNeedsNoOffset()
    ensures MeasureMargins(SinglePixelRaster(), 20) == Some(Margins(10, 9, 10, 9))
    ensures GetOffset(SinglePixelRaster(), 20) == Some(Measurement(0, 0, false))
  {
    var img := SinglePixelRaster();
    var b := Box(10, 10, 10, 10);
    assert img[10][10] != Background;
    assert InkRow(img, 10) && InkCol(img, 10);
    forall i | 0 <= i < 30 && InkRow(img, i)
      ensures i == 10
    {
      var j :| 0 <= j < 30 && img[i][j] != Background;
    }
    forall j | 0 <= j < 30 && InkCol(img, j)
      ensures j == 10
    {
      var i :| 0 <= i < 30 && img[i][j] != Background;
    }
    assert IsInkBox(img, b);
    MarginsMeasureInkBox(img, 20, b);
  }
}
