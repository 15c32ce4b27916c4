# Overlay and text layout geometry of chaiNNer extra nodes

This project models, in Dafny, the arithmetic core of two image nodes of a
node-graph image editor:

- **Overlay Images** (`overlay_images_node`): places an overlay image on a
  base image under one of eleven position modes (nine fixed anchors, a
  percent offset, a pixel offset), validates a pixel offset against a
  range, clips the placed overlay against the base, derives the matching
  crop window inside the overlay, and writes the blended region back into
  a copy of the base, widening the copy's channel count first when the
  blended region has more channels.
- **Text as Image** (`text_as_image_node`): splits the text into lines,
  picks the first longest line, fits the font size to the requested
  canvas, and computes the point on which the middle of the text block is
  drawn.

Modules:

- `Numeric` (`numeric.dfy`): the source's integer conversions written out
  over unbounded integers. `TruncDiv` is Python's `int()` and numpy's
  `astype("int")` on an exact quotient (truncation toward zero; Dafny's `/`
  is Euclidean). `RoundHalf(n)` is Python's `round(n / 2)`, rounding half to
  even. In the overlay placement every rational converted has denominator
  2 or 200; the font-size fit divides by w_ref and by h_ref·line_count.
- `OverlayGeometry` (`overlay_geometry.dfy`): the factor table, the three
  ways of computing the top-left corner, the pixel-offset check, the
  intersection, the crop window and the resulting plan, as pure functions,
  with lemmas.
- `OverlayCompose` (`overlay_compose.dfy`): the imperative tail of the node
  on `array2<Pixel>` buffers: the opacity-0 fast path, the copy of the
  base, the widened buffer and the in-place overwrite of the intersection.
- `TextLayout` (`text_layout.dfy`): line split and its inverse join, first
  longest line, font-size fit and the reference-point table.
- `Wrappers` (`wrappers.dfy`): the `Result` type used for raised errors.

Conventions of the model:

- Images are `array2<Pixel>` indexed `[row, column]` (height first, as
  numpy), with `Pixel = seq<real>` holding 1, 3 or 4 normalised channel
  samples. A 1-channel image, which the source holds as a 2‑D array, is
  a grid of 1-sample pixels.
- The blend of the overlay with the base region is library code. Its
  result enters `OverlayImagesNode` as the opaque grid `blended` with its
  channel count `blendedC`. The precondition `BlendedFits` states what that
  library delivers: a grid of the intersection's size, whose channel count
  is at least the base's.
- Font metrics enter the text layout as `measure(s, size)`, the (width,
  height) in pixels of `s` drawn at `size`.

Notes on the source's behaviour, each proved in the model:

- The runtime pixel-offset bound is `int((W + Wo) / 2)`
  (overlay_images/overlay_images.py:175 and 181), which `MaxDim` computes.
  The output type expression at line 118 uses `round` instead and is not
  modelled.
- A pixel offset of 0 does not always give the Centered placement. The
  pixel mode rounds half to even and the table truncates.
  `PixelZeroVersusCentered` proves that the two agree exactly when
  |W − Wo| mod 4 ≠ 3. For example, W = 5 and Wo = 2 give 2 for the pixel
  offset and 1 for Centered.
- The range check is sound: `AcceptedPixelOffsetOverlaps` proves that
  every accepted offset overlaps. `RangeCheckExactForEvenSum` proves that
  it is also complete when W + Wo is even. When W + Wo is odd it can
  reject an offset that still overlaps. `RangeCheckOddSumEdges` proves
  that for an odd sum both edge offsets ±max_dim are rejected, that
  +max_dim still overlaps exactly when W is odd and −max_dim exactly when
  Wo is odd, so exactly one of them is wrongly rejected, and that no
  offset beyond them overlaps. `RangeCheckRejectsOverlappingOffset` is the
  instance W = 3, Wo = 2, offset 2: x0 = round(2.5) = 2, so the overlay
  still covers the base's last column.

## Model

| member | source | states |
|---|---|---|
| `Numeric.TruncDiv` | overlay_images/overlay_images.py:166-167 | int() of n/d (d > 0) truncates toward zero: q·d ≤ n < q·d + d with q ≥ 0 for n ≥ 0, and q·d − d < n ≤ q·d with q ≤ 0 for n < 0 |
| `Numeric.TruncDivScale` | overlay_images/overlay_images.py:166 | scaling numerator and denominator by the same positive factor leaves the truncated quotient unchanged (used to reduce the /200 of the percent mode to /2) |
| `Numeric.RoundHalf` | overlay_images/overlay_images.py:171-172 | round(n/2) is n/2 for even n; for odd n it is one of the two neighbours (n ± 1)/2, and it is the even one |
| `Numeric.RoundHalfUnique` | overlay_images/overlay_images.py:171-172 | nearest-with-ties-to-even determines round(n/2): any integer satisfying it equals RoundHalf(n) |
| `OverlayGeometry.X0Y0Factors` | overlay_images/overlay_images.py:46-58 | the factor table: every factor is 0, 0.5 or 1; x factor 0 exactly for the left column, 0.5 exactly for the centre column; y factor 0 exactly for the top row, 0.5 exactly for the middle row (the two offset rows, which placement never reads, included) |
| `OverlayGeometry.Anchor` | overlay_images/overlay_images.py:164-191 | dispatches on the mode to `FixedAnchor` (table factors), `PercentAnchor` and `PixelAnchor` (the latter guarded by `OffsetInRange` with bound `MaxDim`); only the pixel-offset mode can fail; the X error carries the range 1 − max_dim .. max_dim − 1 of the width, the Y error that of the height |
| `OverlayGeometry.Placement` | overlay_images/overlay_images.py:192 | the footprint starts at the corner and has the overlay's size: x1 − x0 = Wo, y1 − y0 = Ho |
| `OverlayGeometry.Intersection` | overlay_images/overlay_images.py:195-196 | the intersection lies inside both the base and the footprint, and a coordinate is in it exactly when it is in both |
| `OverlayGeometry.CropWindow` | overlay_images/overlay_images.py:200-203 | the crop window has the intersection's width and height, i_x0 = x0 + ov_x0 and i_y0 = y0 + ov_y0, and for a non-empty intersection 0 ≤ ov_x0 < ov_x1 ≤ Wo and 0 ≤ ov_y0 < ov_y1 ≤ Ho |
| `OverlayGeometry.PlanOverlay` | overlay_images/overlay_images.py:164-203 | fails exactly when the corner computation fails; returns the base unchanged exactly when the intersection is empty; otherwise pastes over the intersection from the crop window |
| `OverlayGeometry.PasteInsideBase` | overlay_images/overlay_images.py:195-210 | a pasted region is a non-empty rectangle of the base, its crop window a non-empty rectangle of the overlay, and the two have the same size |
| `OverlayGeometry.FixedModeNoClipping` | overlay_images/overlay_images.py:187-203 | for the nine fixed anchors, an overlay with 1 ≤ Wo ≤ W and 1 ≤ Ho ≤ H lands at (trunc((W−Wo)·fx), trunc((H−Ho)·fy)) inside the base; nothing is clipped and the crop window is the whole overlay |
| `OverlayGeometry.FixedAnchorWithin` | overlay_images/overlay_images.py:187-191 | with a factor in {0, 0.5, 1} and an overlay no larger than the base, 0 ≤ x0 and x0 + Wo ≤ W |
| `OverlayGeometry.FixedAnchorMeaning` | overlay_images/overlay_images.py:46-55 | factor 0 puts the overlay flush with the start edge, factor 1 flush with the end edge, and factor 0.5 puts the overlay's centre within half a pixel of the base's centre, on the side toward zero |
| `OverlayGeometry.PercentZeroIsCentered` | overlay_images/overlay_images.py:164-191 | a percent offset of (0, 0) yields exactly the Centered corner, (trunc((W−Wo)/2), trunc((H−Ho)/2)) |
| `OverlayGeometry.PercentAnchorCentre` | overlay_images/overlay_images.py:164-167 | with percent offset p the overlay's centre x0 + Wo/2 lies strictly within one pixel of (100 + p)·W/200, so p = 0 centres it and p = ∓100 puts its centre on the base's start or end edge |
| `OverlayGeometry.PixelOffsetValidation` | overlay_images/overlay_images.py:169-185 | the pixel mode succeeds exactly when 1 − max_dim ≤ px ≤ max_dim − 1 on both axes, with max_dim = floor((dim + overlay dim)/2); x is reported before y; an accepted offset gives x0 = round(px + (W − Wo)/2), y0 likewise |
| `OverlayGeometry.AcceptedOffsetFootprint` | overlay_images/overlay_images.py:171-185 | an accepted offset puts the corner in 1 − Wo .. W − 1 |
| `OverlayGeometry.AcceptedPixelOffsetOverlaps` | overlay_images/overlay_images.py:171-198 | for non-empty images an accepted pixel offset always yields a paste (non-empty overlap on both axes), never the unchanged base |
| `OverlayGeometry.RangeCheckExactForEvenSum` | overlay_images/overlay_images.py:171-185 | when dim + overlay dim is even, the range check accepts an offset exactly when the overlay overlaps the base on that axis |
| `OverlayGeometry.RangeCheckOddSumEdges` | overlay_images/overlay_images.py:171-185 | when dim + overlay dim is odd, offsets +max_dim and −max_dim are both rejected; the first overlaps exactly when dim is odd, the second exactly when overlay dim is odd; every offset beyond ±max_dim leaves no overlap |
| `OverlayGeometry.RangeCheckRejectsOverlappingOffset` | overlay_images/overlay_images.py:171-179 | W = 3, Wo = 2, offset 2 is rejected although its footprint overlaps the base |
| `OverlayGeometry.PixelZeroVersusCentered` | overlay_images/overlay_images.py:169-191 | pixel offset 0 and Centered give the same coordinate exactly when abs(dim − overlay dim) mod 4 ≠ 3 |
| `OverlayCompose.SubGrid` | overlay_images/overlay_images.py:207-210 | the slice g[r0:r1, c0:c1] has r1 − r0 rows of c1 − c0 pixels, and its pixel (i, j) is g[r0 + i][c0 + j] |
| `OverlayCompose.BlendOperandsAlign` | overlay_images/overlay_images.py:200-226 | the cropped overlay and the base region given to the blend have the same size, and the cropped overlay's pixel (i, j) is the overlay pixel that the placement puts on base pixel (i_y0 + i, i_x0 + j) |
| `OverlayCompose.WidenPixel` | overlay_images/overlay_images.py:229-236 | a widened pixel has max(base, blended) channels; to 4 channels the alpha is opaque and BGR is kept (grey repeated); to 3 channels grey is repeated; otherwise the pixel is unchanged |
| `OverlayCompose.WidenPixelRecoverable` | overlay_images/overlay_images.py:231-236 | dropping the added channels of a widened pixel gives the base pixel back |
| `OverlayCompose.CopyImage` | overlay_images/overlay_images.py:213 | the copy is a fresh buffer of the same size holding the same pixels |
| `OverlayCompose.WidenImage` | overlay_images/overlay_images.py:231-236 | the widened output is a fresh buffer of the same size, every pixel with the new channel count and equal to the widened input pixel |
| `OverlayCompose.WidenedCopy` | overlay_images/overlay_images.py:213-236 | the output before the write-back is a fresh buffer of the base's size with the blended channel count, each pixel the widened base pixel (the base itself when no widening is needed) |
| `OverlayCompose.OverwriteRegion` | overlay_images/overlay_images.py:239 | inside the intersection each pixel becomes the corresponding blended pixel; outside it each pixel keeps its old value |
| `OverlayCompose.OverlayImagesNode` | overlay_images/overlay_images.py:144-241 | opacity 0 returns the base object itself; an invalid pixel offset returns the check's error; an empty intersection returns the base object itself; otherwise the result is a fresh buffer of the base's height and width, with the blended channel count everywhere, equal to the blended grid inside the intersection and to the widened base outside it; the base buffer is not modified |
| `TextLayout.RefFactorsSeparable` | text_as_image/text_as_image.py:130-140 | in the table split into `XRefFactors` and `YRefFactors`, positions of one column share their x factors and positions of one row share their y factors |
| `TextLayout.RefPoint` | text_as_image/text_as_image.py:245-246 | computed from `XRefFactors` and `YRefFactors`; by column, x_ref = round(w_text/2) (left), round(width/2) (centre), round(width − w_text/2) (right); by row, the same with the heights |
| `TextLayout.RefPointInsideCanvas` | text_as_image/text_as_image.py:245-246 | if 0 ≤ w_text ≤ width then 0 ≤ x_ref ≤ width, and if 0 ≤ h_text ≤ height then 0 ≤ y_ref ≤ height, for every position |
| `TextLayout.RefPointAlignsBlock` | text_as_image/text_as_image.py:245-258 | a block drawn with its middle on the reference point ("mm" anchor) has its left/right (top/bottom) edge within half a pixel of the canvas edge its column (row) names; in the centre column or middle row, its middle is within half a pixel of the canvas middle |
| `TextLayout.Split` | text_as_image/text_as_image.py:215 | the split gives at least one line, and no line contains a newline |
| `TextLayout.SplitLineCount` | text_as_image/text_as_image.py:215-216 | line_count is the number of '\n' in the text plus one |
| `TextLayout.JoinSplit` | text_as_image/text_as_image.py:215 | joining the lines with '\n' gives back the text |
| `TextLayout.SplitJoin` | text_as_image/text_as_image.py:215 | splitting newline-free lines joined with '\n' gives back the lines |
| `TextLayout.FirstLongest` | text_as_image/text_as_image.py:216 | max(lines, key=len) is the first line of maximal length: no line is longer, every earlier line is strictly shorter |
| `TextLayout.FontSize` | text_as_image/text_as_image.py:224-226 | the fit fails with a division by zero exactly when w_ref = 0 or h_ref · line_count = 0 |
| `TextLayout.FontSizeIsLargestFit` | text_as_image/text_as_image.py:224-226 | the font size is the largest integer s ≥ 0 with s·w_ref ≤ 100·width and s·h_ref·line_count ≤ 100·height |
| `TextLayout.TextAsImageNode` | text_as_image/text_as_image.py:198-246 | fails exactly when the longest line or the reference glyphs measure 0 at size 100; otherwise gives a width × height canvas with 4 channels, the lines of the split (newlines + 1 of them), a longest line, the first longest line as the measured line, the font size that `FontSize` fits from that line's width and the reference glyphs' height at size 100, a block of the measured line's width at that size whose height is the line height times line_count, and the reference point `RefPoint` of that block, inside the canvas whenever the block fits it |
| `TextLayout.TextAsImageNodeFontFits` | text_as_image/text_as_image.py:224-226 | on a canvas of non-negative size the node's font size is the largest at which the measured line fits the width and line_count lines fit the height |

## Left out

- Alpha blending: `blend_images` (overlay_images/overlay_images.py:222-226) and the scaling of the overlay's alpha by opacity/100 (lines 216-219) are library code with floating-point pixel arithmetic. The blended region is an input grid of the intersection's size. The overlay's channel count therefore plays no part in the model, and neither does "opacity 100 with an opaque overlay yields the overlay's pixels".
- `convert_to_BGRA`, `as_2d_grayscale` and `get_h_w_c` are library code. `WidenPixel` states the channel conversion they perform on a normalised image: an added alpha of 1.0, and grey replicated into B, G and R. The image's height, width and channel count are taken from the buffer and the `baseC` argument, tied together by `IsImage`.
- OverlayImagesNode: `BlendedFits` requires that the blended grid has at least as many channels as the base. The model therefore does not cover the numpy broadcasting errors that a smaller or mismatched blended grid would raise at line 239.
- The `print` calls at overlay_images/overlay_images.py:176 and 182 are output only.
- The host's output type expression and input documentation (overlay_images/overlay_images.py:105-141) are not modelled. They state a different pixel-offset bound from the runtime assertions, which are modelled.
- The crop condition at overlay_images/overlay_images.py:206 always holds once line 197 has passed (`PasteInsideBase`). The crop window is therefore applied unconditionally.
- Floating point: the percent corner, the pixel corner and the font-size ratios are float64 expressions in the source. The model computes them as exact rationals with denominators 2, 200, w_ref and h_ref·line_count. The float result would differ only if rounding error moved a quotient across an integer.
- Text rendering: font loading, the module-relative font path, `getsize`, canvas creation, drawing, the text alignment option and the colour conversion (text_as_image/text_as_image.py:208-212, 220-221, 231-266) are library code or I/O. Metrics enter as `measure`. The canvas is described by its size and channel count only.
- images_to_video/images_to_video.py is not part of this model. It lists directories, writes temporary files and runs FFmpeg.
- morphology/morphology.py is not part of this model. It passes its work through to OpenCV.
