/**
 * The pixel side of the Overlay Images node: the opacity fast path, the
 * copy of the base, the widening of its channel count and the write-back
 * of the blended region.  The blend itself belongs to a library outside
 * this model; its result enters as an opaque grid of the intersection's
 * size.
 */
module OverlayCompose {
  import opened Wrappers
  import opened OverlayGeometry

  /** One pixel: its channel samples (1 grey, 3 BGR or 4 BGRA), normalised
      to [0, 1]. */
  type Pixel = seq<real>

  /** The alpha sample of a fully opaque pixel in a normalised image. */
  const OpaqueAlpha: real := 1.0

  predicate ValidChannelCount(c: nat) {
    c == 1 || c == 3 || c == 4
  }

  /** An image buffer (rows by columns) whose every pixel has `c` channels. */
  ghost predicate IsImage(a: array2<Pixel>, c: nat)
    reads a
  {
    && ValidChannelCount(c)
    && forall i, j :: 0 <= i < a.Length0 && 0 <= j < a.Length1 ==> |a[i, j]| == c
  }

  /** A grid value of `rows` by `cols` pixels with `c` channels each. */
  predicate IsGrid(g: seq<seq<Pixel>>, rows: nat, cols: nat, c: nat) {
    && |g| == rows
    && (forall i :: 0 <= i < rows ==> |g[i]| == cols)
    && forall i, j :: 0 <= i < rows && 0 <= j < cols ==> |g[i][j]| == c
  }

  /** The rows r0..r1 and columns c0..c1 of a grid (the slice g[r0:r1, c0:c1]). */
  function SubGrid(g: seq<seq<Pixel>>, r0: nat, r1: nat, c0: nat, c1: nat): (s: seq<seq<Pixel>>)
    requires r0 <= r1 <= |g| && c0 <= c1
    requires forall i :: r0 <= i < r1 ==> c1 <= |g[i]|
    ensures |s| == r1 - r0
    ensures forall i :: 0 <= i < |s| ==> |s[i]| == c1 - c0
    ensures forall i, j :: 0 <= i < |s| && 0 <= j < c1 - c0 ==> s[i][j] == g[r0 + i][c0 + j]
  {
    seq(r1 - r0, i requires 0 <= i < r1 - r0 => g[r0 + i][c0..c1])
  }

  /** The two operands handed to the blend: the overlay cropped to the
      window overlay[ov_y0:ov_y1, ov_x0:ov_x1] and the region
      base[i_y0:i_y1, i_x0:i_x1] of the base.  They have the same size, and
      the cropped overlay's pixel (i, j) is the overlay pixel that the
      placement puts over base pixel (i_y0 + i, i_x0 + j). */
  lemma BlendOperandsAlign(baseGrid: seq<seq<Pixel>>, baseC: nat, overlayGrid: seq<seq<Pixel>>, overlayC: nat,
                           w: nat, h: nat, wo: nat, ho: nat, mode: OverlayPosition,
                           xPct: int, yPct: int, xPx: int, yPx: int)
    requires IsGrid(baseGrid, h, w, baseC) && IsGrid(overlayGrid, ho, wo, overlayC)
    requires PlanOverlay(w, h, wo, ho, mode, xPct, yPct, xPx, yPx).Success?
    requires PlanOverlay(w, h, wo, ho, mode, xPct, yPct, xPx, yPx).value.Paste?
    ensures
      var p := PlanOverlay(w, h, wo, ho, mode, xPct, yPct, xPx, yPx).value;
      var corner := Anchor(w, h, wo, ho, mode, xPct, yPct, xPx, yPx).value;
      && p.crop.y0 <= p.crop.y1 <= ho && p.crop.x0 <= p.crop.x1 <= wo
      && p.inter.y0 <= p.inter.y1 <= h && p.inter.x0 <= p.inter.x1 <= w
      && var ov := SubGrid(overlayGrid, p.crop.y0, p.crop.y1, p.crop.x0, p.crop.x1);
         var region := SubGrid(baseGrid, p.inter.y0, p.inter.y1, p.inter.x0, p.inter.x1);
         && IsGrid(ov, p.inter.y1 - p.inter.y0, p.inter.x1 - p.inter.x0, overlayC)
         && IsGrid(region, p.inter.y1 - p.inter.y0, p.inter.x1 - p.inter.x0, baseC)
         && forall i, j :: 0 <= i < p.inter.y1 - p.inter.y0 && 0 <= j < p.inter.x1 - p.inter.x0 ==>
              && 0 <= p.inter.y0 + i - corner.y < ho && 0 <= p.inter.x0 + j - corner.x < wo
              && ov[i][j] == overlayGrid[p.inter.y0 + i - corner.y][p.inter.x0 + j - corner.x]
  {
    PasteInsideBase(w, h, wo, ho, mode, xPct, yPct, xPx, yPx);
  }

  /** The channel widening of one base pixel before the blended region is
      written back: to 4 channels an opaque alpha is added (a grey sample
      is first repeated into B, G and R); to 3 channels a grey sample is
      repeated; otherwise the pixel is kept. */
  function WidenPixel(p: Pixel, from: nat, to: nat): (q: Pixel)
    requires |p| == from && ValidChannelCount(from) && ValidChannelCount(to)
    ensures |q| == if from < to then to else from
    ensures from >= to ==> q == p
    ensures from < to && to == 4 ==> q[3] == OpaqueAlpha
    ensures from == 3 && to == 4 ==> q[..3] == p
    ensures from == 1 && to > 1 ==> q[0] == q[1] == q[2] == p[0]
  {
    if from >= to then p
    else if to == 4 then
      (if from == 1 then [p[0], p[0], p[0], OpaqueAlpha] else p + [OpaqueAlpha])
    else [p[0], p[0], p[0]]
  }

  /** Widening loses nothing: the base pixel is recovered from the widened
      one by dropping the added channels. */
  lemma WidenPixelRecoverable(p: Pixel, from: nat, to: nat)
    requires |p| == from && ValidChannelCount(from) && ValidChannelCount(to)
    ensures WidenPixel(p, from, to)[..from] == p
  {
    var q := WidenPixel(p, from, to);
    if from == 1 {
      assert q[..1] == [q[0]];
    } else if from == 3 && to == 4 {
      assert q[..3] == p;
    } else {
      assert q == p;
    }
  }

  predicate InRect(r: Rect, i: int, j: int) {
    r.y0 <= i < r.y1 && r.x0 <= j < r.x1
  }

  /** The blended grid fits the plan: it has the intersection's size, a
      uniform channel count, and at least as many channels as the base
      (the blend returns the larger of its two operands' channel counts). */
  predicate BlendedFits(plan: Result<Plan, OffsetError>, blended: seq<seq<Pixel>>, baseC: nat, blendedC: nat) {
    plan.Success? && plan.value.Paste? ==>
      var inter := plan.value.inter;
      && inter.y0 <= inter.y1 && inter.x0 <= inter.x1
      && IsGrid(blended, inter.y1 - inter.y0, inter.x1 - inter.x0, blendedC)
      && ValidChannelCount(blendedC) && baseC <= blendedC
  }

  /** `out` is the base with the region `inter` overwritten by `blended` and
      every other pixel widened from `baseC` to `blendedC` channels. */
  ghost predicate Composited(out: array2<Pixel>, base: array2<Pixel>, inter: Rect,
                             blended: seq<seq<Pixel>>, baseC: nat, blendedC: nat)
    requires IsImage(base, baseC) && ValidChannelCount(blendedC)
    requires 0 <= inter.y0 <= inter.y1 <= base.Length0 && 0 <= inter.x0 <= inter.x1 <= base.Length1
    requires IsGrid(blended, inter.y1 - inter.y0, inter.x1 - inter.x0, blendedC)
    reads out, base
  {
    && out.Length0 == base.Length0 && out.Length1 == base.Length1
    && forall i, j :: 0 <= i < out.Length0 && 0 <= j < out.Length1 ==>
         out[i, j] == if InRect(inter, i, j) then blended[i - inter.y0][j - inter.x0]
                      else WidenPixel(base[i, j], baseC, blendedC)
  }

  /** base.copy(): a fresh buffer with the same pixels. */
  method CopyImage(base: array2<Pixel>) returns (out: array2<Pixel>)
    ensures fresh(out)
    ensures out.Length0 == base.Length0 && out.Length1 == base.Length1
    ensures forall i, j :: 0 <= i < out.Length0 && 0 <= j < out.Length1 ==> out[i, j] == base[i, j]
  {
    out := new Pixel[base.Length0, base.Length1]((i, j) reads base
             requires 0 <= i < base.Length0 && 0 <= j < base.Length1 => base[i, j]);
  }

  /** The replacement of the output by a buffer of `to` channels when the
      blended region has more channels than the base. */
  method WidenImage(img: array2<Pixel>, from: nat, to: nat) returns (out: array2<Pixel>)
    requires IsImage(img, from) && ValidChannelCount(to) && from < to
    ensures fresh(out)
    ensures out.Length0 == img.Length0 && out.Length1 == img.Length1
    ensures IsImage(out, to)
    ensures forall i, j :: 0 <= i < out.Length0 && 0 <= j < out.Length1 ==>
              out[i, j] == WidenPixel(img[i, j], from, to)
  {
    out := new Pixel[img.Length0, img.Length1]((i, j) reads img
             requires 0 <= i < img.Length0 && 0 <= j < img.Length1 && |img[i, j]| == from
             => WidenPixel(img[i, j], from, to));
  }

  /** The output buffer before the write-back: a copy of the base, replaced
      by its widening when the blended region has more channels. */
  method WidenedCopy(base: array2<Pixel>, baseC: nat, blendedC: nat) returns (output: array2<Pixel>)
    requires IsImage(base, baseC) && ValidChannelCount(blendedC) && baseC <= blendedC
    ensures fresh(output)
    ensures output.Length0 == base.Length0 && output.Length1 == base.Length1
    ensures IsImage(output, blendedC)
    ensures forall i, j :: 0 <= i < output.Length0 && 0 <= j < output.Length1 ==>
              output[i, j] == WidenPixel(base[i, j], baseC, blendedC)
  {
    output := CopyImage(base);
    if baseC < blendedC {
      output := WidenImage(output, baseC, blendedC);
    }
  }

  /** output[i_y0:i_y1, i_x0:i_x1] = blended: the region is overwritten,
      every other pixel is left as it was. */
  method OverwriteRegion(output: array2<Pixel>, inter: Rect, blended: seq<seq<Pixel>>, c: nat)
    requires 0 <= inter.y0 <= inter.y1 <= output.Length0 && 0 <= inter.x0 <= inter.x1 <= output.Length1
    requires IsGrid(blended, inter.y1 - inter.y0, inter.x1 - inter.x0, c)
    modifies output
    ensures forall i, j :: 0 <= i < output.Length0 && 0 <= j < output.Length1 ==>
              output[i, j] == if InRect(inter, i, j) then blended[i - inter.y0][j - inter.x0]
                              else old(output[i, j])
  {
    forall i, j | inter.y0 <= i < inter.y1 && inter.x0 <= j < inter.x1 {
      output[i, j] := blended[i - inter.y0][j - inter.x0];
    }
  }

  /** overlay_images_node.  Opacity 0 returns the base object itself before
      any geometry is computed; an invalid pixel offset is the error; an
      empty intersection returns the base object itself; otherwise a fresh
      buffer holds the base, widened to the blended channel count where
      needed, with the blended region written over the intersection.  The
      base buffer is never written (the method modifies nothing it was
      given). */
  method OverlayImagesNode(base: array2<Pixel>, baseC: nat, overlayW: nat, overlayH: nat,
                           opacity: real, mode: OverlayPosition,
                           xPct: int, yPct: int, xPx: int, yPx: int,
                           blended: seq<seq<Pixel>>, blendedC: nat)
    returns (r: Result<array2<Pixel>, OffsetError>)
    requires IsImage(base, baseC)
    requires opacity != 0.0 ==>
      BlendedFits(PlanOverlay(base.Length1, base.Length0, overlayW, overlayH, mode, xPct, yPct, xPx, yPx),
                  blended, baseC, blendedC)
    ensures opacity == 0.0 ==> r == Success(base)
    ensures opacity != 0.0 ==>
      var plan := PlanOverlay(base.Length1, base.Length0, overlayW, overlayH, mode, xPct, yPct, xPx, yPx);
      && (plan.Failure? ==> r == Failure(plan.error))
      && (plan.Success? && plan.value.Unchanged? ==> r == Success(base))
      && (plan.Success? && plan.value.Paste? ==>
            && r.Success? && fresh(r.value)
            && IsImage(r.value, blendedC)
            && Composited(r.value, base, plan.value.inter, blended, baseC, blendedC))
  {
    if opacity == 0.0 {
      return Success(base);
    }
    var plan := PlanOverlay(base.Length1, base.Length0, overlayW, overlayH, mode, xPct, yPct, xPx, yPx);
    if plan.Failure? {
      return Failure(plan.error);
    }
    if plan.value.Unchanged? {
      return Success(base);
    }
    var inter := plan.value.inter;
    PasteInsideBase(base.Length1, base.Length0, overlayW, overlayH, mode, xPct, yPct, xPx, yPx);
    var output := WidenedCopy(base, baseC, blendedC);
    OverwriteRegion(output, inter, blended, blendedC);
    assert Composited(output, base, inter, blended, baseC, blendedC);
    r := Success(output);
  }
}
