/** The four directional scans of the margin scanner: from each edge of the
    canvas inward, the first line (row or column) holding a non-background pixel. */
module Scanner {
  import opened Wrappers
  import opened Images

  /** The edge a scan starts from. */
  datatype Edge = Top | Bottom | Left | Right

  /** Pixel `m` of the `k`-th line counted inward from edge `e`: rows for
      the top and bottom scans, columns for the left and right ones. The
      canvas size is the row count; the column index never exceeds it. */
  function At(img: Raster, e: Edge, k: int, m: int): int
    requires CoversCanvas(img)
    requires 0 <= k < |img| && 0 <= m < |img|
  {
    var n := |img|;
    match e
    case Top => img[k][m]
    case Bottom => img[n - 1 - k][m]
    case Left => img[m][k]
    case Right => img[m][n - 1 - k]
  }

  /** Line `k` counted from edge `e` holds a pixel other than background. */
  predicate LineHasInk(img: Raster, e: Edge, k: int)
    requires CoversCanvas(img)
    requires 0 <= k < |img|
  {
    exists m :: 0 <= m < |img| && At(img, e, k, m) != Background
  }

  /** Row `i` of the canvas holds ink. */
  predicate InkRow(img: Raster, i: int)
    requires CoversCanvas(img)
    requires 0 <= i < |img|
  {
    exists j :: 0 <= j < |img| && img[i][j] != Background
  }

  /** Column `j` of the canvas holds ink. */
  predicate InkCol(img: Raster, j: int)
    requires CoversCanvas(img)
    requires 0 <= j < |img|
  {
    exists i :: 0 <= i < |img| && img[i][j] != Background
  }

  /** Some pixel of the canvas is not background. */
  predicate HasInk(img: Raster)
    requires CoversCanvas(img)
  {
    exists i, j :: 0 <= i < |img| && 0 <= j < |img| && img[i][j] != Background
  }

  /** Line `k` is the first line from edge `e` to hold ink. */
  predicate IsFirstInkLine(img: Raster, e: Edge, k: int)
    requires CoversCanvas(img)
  {
    && 0 <= k < |img|
    && LineHasInk(img, e, k)
    && forall j :: 0 <= j < k ==> !LineHasInk(img, e, j)
  }

  /** The first line at index `k` or beyond, counted from edge `e`, that holds
      ink; `None` when every such line is blank. */
  function FirstInk(img: Raster, e: Edge, k: nat): (r: Option<nat>)
    requires CoversCanvas(img)
    ensures r.Some? ==> k <= r.value < |img| && LineHasInk(img, e, r.value)
    ensures r.Some? ==> forall j :: k <= j < r.value ==> !LineHasInk(img, e, j)
    ensures r.None? ==> forall j :: k <= j < |img| ==> !LineHasInk(img, e, j)
    decreases |img| - k
  {
    if k >= |img| then None
    else if LineHasInk(img, e, k) then Some(k)
    else FirstInk(img, e, k + 1)
  }

  /** The scan from an edge finds a line exactly when the scan from the start
      finds the first ink line, and that line is the one it returns. */
  lemma FirstInkIsFirstInkLine(img: Raster, e: Edge, k: int)
    requires CoversCanvas(img)
    ensures FirstInk(img, e, 0) == Some(k) <==> IsFirstInkLine(img, e, k)
  {
  }

  /** The lines counted from each edge are the rows or the columns of the canvas. */
  lemma LineHasInkIsRowOrCol(img: Raster, e: Edge, k: int)
    requires CoversCanvas(img)
    requires 0 <= k < |img|
    ensures e == Top ==> (LineHasInk(img, e, k) <==> InkRow(img, k))
    ensures e == Bottom ==> (LineHasInk(img, e, k) <==> InkRow(img, |img| - 1 - k))
    ensures e == Left ==> (LineHasInk(img, e, k) <==> InkCol(img, k))
    ensures e == Right ==> (LineHasInk(img, e, k) <==> InkCol(img, |img| - 1 - k))
  {
    var n := |img|;
    var i := match e
      case Top => k
      case Bottom => n - 1 - k
      case Left => k
      case Right => n - 1 - k;
    if e == Top || e == Bottom {
      if LineHasInk(img, e, k) {
        var m :| 0 <= m < n && At(img, e, k, m) != Background;
        assert img[i][m] != Background;
      }
      if InkRow(img, i) {
        var m :| 0 <= m < n && img[i][m] != Background;
        assert At(img, e, k, m) != Background;
      }
    } else {
      if LineHasInk(img, e, k) {
        var m :| 0 <= m < n && At(img, e, k, m) != Background;
        assert img[m][i] != Background;
      }
      if InkCol(img, i) {
        var m :| 0 <= m < n && img[m][i] != Background;
        assert At(img, e, k, m) != Background;
      }
    }
  }

  /** A scan from any edge finds a line exactly when the canvas holds ink at all:
      either all four scans succeed or none does. */
  lemma InkSeenFromEveryEdge(img: Raster, e: Edge)
    requires CoversCanvas(img)
    ensures FirstInk(img, e, 0).Some? <==> HasInk(img)
  {
    var n := |img|;
    if HasInk(img) {
      var i, j :| 0 <= i < n && 0 <= j < n && img[i][j] != Background;
      var k := match e
        case Top => i
        case Bottom => n - 1 - i
        case Left => j
        case Right => n - 1 - j;
      var m := if e == Top || e == Bottom then j else i;
      assert At(img, e, k, m) != Background;
      assert LineHasInk(img, e, k);
    }
    if FirstInk(img, e, 0).Some? {
      var k := FirstInk(img, e, 0).value;
      var m :| 0 <= m < n && At(img, e, k, m) != Background;
      match e
      case Top => assert img[k][m] != Background;
      case Bottom => assert img[n - 1 - k][m] != Background;
      case Left => assert img[m][k] != Background;
      case Right => assert img[m][n - 1 - k] != Background;
    }
  }

  /** The nested scanning loop of the program: for each line inward from the
      edge, look along it for a non-background pixel, and stop at the first
      line where one is found. */
  method ScanEdge(img: Raster, e: Edge) returns (r: Option<nat>)
    requires CoversCanvas(img)
    ensures r.Some? <==> HasInk(img)
    ensures r.Some? ==> IsFirstInkLine(img, e, r.value)
  {
    var n := |img|;
    r := None;
    var i := 0;
    while i < n
      invariant 0 <= i <= n
      invariant r.None?
      invariant forall k :: 0 <= k < i ==> !LineHasInk(img, e, k)
    {
      var j := 0;
      while j < n && At(img, e, i, j) == Background
        invariant 0 <= j <= n
        invariant forall m :: 0 <= m < j ==> At(img, e, i, m) == Background
      {
        j := j + 1;
      }
      var found := j < n;
      if found {
        r := Some(i);
        break;
      }
      i := i + 1;
    }
    FirstInkIsFirstInkLine(img, e, i);
    InkSeenFromEveryEdge(img, e);
  }
}
