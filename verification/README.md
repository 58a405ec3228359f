# font2img glyph centering, modelled in Dafny

font2img renders the capital letters of a TrueType font onto square
single-channel canvases. Its logic is a small pixel pipeline:

- the **binarizer** (`convert_binary_img`) maps every intensity below a
  threshold (default 128) to ink (0) and every other one to background (255);
- the **margin scanner** (`get_offset`) measures whatever raster it is given
  against a target canvas size. It scans inward from each edge for the first
  row or column that holds a non-background pixel. It corrects the bottom and
  right margins by the raster's size minus the target size, and halves the
  margin differences, rounding toward zero, to get the drawing offset. It also
  sets a flag when the glyph spans the target canvas on some axis;
- the **centering driver** (`draw_char_center`) draws the glyph at the origin
  of a canvas 20 pixels larger than the target, so the extra pixels lie below
  and to the right. It measures that drawing and draws again on the target
  canvas at the measured offset;
- the **maximizing driver** (`draw_char_maximum`) grows the point size one
  step at a time from the canvas size until the flag is set.

Modules: `Images` (rasters and their shape predicates), `Binarizer`,
`Scanner` (the four directional scans), `Offsets` (margins, offset, flag,
ink bounding box), `Drivers` (drawing over an abstract rasterizer, centering,
the growing search), and `Wrappers` (the `Option` type).

Rasters are `seq<seq<int>>`, indexed row first. The rasterizer is a
parameter: a total function from a render request (canvas size, point size,
text position) and a pixel position to the intensity it leaves there. A
drawing is therefore square by construction, as a freshly allocated image is.

The margins of a raster with no ink at all are never assigned, and the
program fails when it reads them (`font2img.py:68`). The model returns
`None` there. A scan from one edge finds ink exactly when the scans from
the other three edges do (`Scanner.InkSeenFromEveryEdge`), so there is no
case where only some margins are defined.

Python's `int((a - b) / 2)` truncates toward zero. Dafny's `/` on `int`
rounds toward minus infinity for a positive divisor. `Offsets.TruncHalf`
writes the truncation out. On the single-pixel example the margin
differences are -1, and the offset is 0 where floor division would give -1.
`Offsets.OffsetCentersInkBox` shows why truncation matters: it never moves
the glyph past the centre.

## Model

| member | source | states |
|---|---|---|
| Binarizer.BinarizePixel | font2img.py:24-27 | the result is always ink or background, and it is ink exactly when the intensity is below the threshold |
| Binarizer.ConvertBinary | font2img.py:20-29 | the shape is kept row by row; every output pixel is 0 or 255; a pixel is 0 exactly when its input intensity is below the threshold |
| Binarizer.ConvertBinaryImg | font2img.py:20-29 | the in-place loop over rows and the first row's column count computes exactly the thresholded raster |
| Binarizer.BinaryIsFixed | font2img.py:24-27 | a binary raster is unchanged by any threshold in 1..255 |
| Binarizer.ConvertBinaryIdempotent | font2img.py:20-27 | binarizing twice equals binarizing once, for every threshold in 1..255, and for every threshold when the pixels are 8-bit intensities |
| Scanner.FirstInk | font2img.py:37-43 | the scan from an edge returns the least line index at or after its start holding a non-background pixel, with every earlier line blank; otherwise it returns None and every line is blank |
| Scanner.FirstInkIsFirstInkLine | font2img.py:37-43 | the scan returns line k exactly when k holds ink and no earlier line does |
| Scanner.LineHasInkIsRowOrCol | font2img.py:37-67 | the k-th line from the top, bottom, left and right edge is row k, row n-1-k, column k and column n-1-k |
| Scanner.InkSeenFromEveryEdge | font2img.py:35-68 | a scan from any edge finds a line exactly when the canvas holds ink, so either all four margins get assigned or none does |
| Scanner.ScanEdge | font2img.py:37-67 | the nested loop with its two breaks finds a line exactly when the canvas holds ink, and the line it finds is the first from the edge that holds ink |
| Offsets.TruncHalf | font2img.py:68-69 | the result is half the input rounded toward zero: at most one below half for non-negative inputs, at most one above for negative ones |
| Offsets.MeasureMargins | font2img.py:31-68 | None exactly when the raster has no ink; otherwise top and left are the first ink row and column, and bottom and right are the first ink lines from the far edges minus the padding (canvas size minus target size) |
| Offsets.GetOffset | font2img.py:31-75 | None exactly when the raster has no ink; otherwise the flag holds iff top+bottom <= 0 or left+right <= 0, and the offsets are half the right-left and bottom-top differences rounded toward zero |
| Offsets.BoxSideIsFirstInkLine | font2img.py:37-67 | the first ink line from each edge is the side of the ink bounding box facing it |
| Offsets.MarginsMeasureInkBox | font2img.py:44-67 | the margins are the distances from the target canvas's edges to the ink bounding box; bottom and right are target size minus one minus the last ink row and column, and may be negative |
| Offsets.InkBox | font2img.py:36-67 | every raster holding ink has a bounding box satisfying the inclusive first/last row and column characterization |
| Offsets.InkBoxUnique | font2img.py:36-67 | the ink bounding box is unique |
| Offsets.IsMaximumIffGlyphSpansCanvas | font2img.py:72-74 | the flag holds exactly when the ink is at least as tall or at least as wide as the target canvas |
| Offsets.OffsetCentersInkBox | font2img.py:68-70 | shifted by the offset, the box's opposite margins differ by at most one pixel, and the shift never carries it past the centre |
| Offsets.SinglePixelNeedsNoOffset | font2img.py:31-75 | one ink pixel at (10, 10) on a 30-pixel canvas measured for 20 pixels has margins 10, 9, 10, 9, offset (0, 0) and no flag |
| Drivers.DrawChar | font2img.py:77-83 | a drawing is square with the requested size and binary, with ink exactly where the rasterizer left an intensity below 128 |
| Drivers.DrawCharCenter | font2img.py:85-89 | None exactly when the padded measuring drawing has no ink; otherwise the result is a square binary drawing of the target size made at the centred position, and its flag holds exactly when the measured ink box is at least as tall or as wide as the target canvas |
| Drivers.CenterPlacement | font2img.py:86-88 | the second drawing goes onto the target canvas at the same point size; it exists exactly when the padded measuring drawing holds ink; shifted by its position, the measured ink box has opposite margins differing by at most one pixel with the sign of the imbalance kept, which fixes the position to the halves rounded toward zero |
| Drivers.GrowUntilMaximum | font2img.py:91-99 | the search returns the first point size from the start whose drawing has the flag set, with that drawing; every earlier size was drawn without the flag. It stops at a blank drawing, or after trying fuel sizes |
| Drivers.DrawCharMaximum | font2img.py:91-99 | starting at the canvas size, the first point size whose centred drawing spans the canvas, with its drawing; every smaller size tried did not |

## Left out

- `pil2num` / `num2pil` (font2img.py:11-18): array and image conversions. Rasters are sequences directly.
- Font loading and text rasterization (`ImageFont.truetype`, `ImageDraw.text`): foreign code. The rasterizer is an abstract total function, so a font that fails to load is not modelled. No property of real fonts, such as translation invariance, is assumed.
- `get_filepaths`, `font2img` and the command-line block (font2img.py:101-133): globbing, file saving, console output and argument parsing.
- The progress `print` in the maximizing loop (font2img.py:95): output only.
- Drivers.DrawCharMaximum: the program's loop has no bound. The model tries at most `fuel` point sizes and reports `Exhausted` beyond them. A blank measuring drawing, where the program fails, ends the search with `Blank`.
- Offsets.TruncHalf: the program divides as a float before truncating. This is exact only for differences below 2^53 in magnitude, far beyond any canvas size. The model uses exact integers.
- Scanner and Offsets require every row to be at least as long as the raster is tall. The scans index columns up to the row count, and images passed in by the drivers are square.
- Negative canvas sizes: image allocation rejects them, so canvas sizes are `nat`.
