/**
 * Placement of the overlay layer on the base layer (Overlay Images node):
 * the top-left corner from the position mode, the pixel-offset range check,
 * the intersection with the base and the matching crop window inside the
 * overlay.  Coordinates are in pixels, origin at the base's top-left corner,
 * x to the right and y downwards; rectangles are half-open.
 */
module OverlayGeometry {
  import opened Wrappers
  import opened Numeric

  datatype OverlayPosition =
    | TopLeft | TopCentered | TopRight
    | CenteredLeft | Centered | CenteredRight
    | BottomLeft | BottomCentered | BottomRight
    | PercentOffset | PixelOffset

  /** The nine anchors whose corner comes from the factor table. */
  predicate IsFixed(mode: OverlayPosition) {
    !mode.PercentOffset? && !mode.PixelOffset?
  }

  /** A row of the factor table, each factor counted in halves:
      0 is 0 (flush with the start edge), 1 is 0.5 (centred), 2 is 1
      (flush with the end edge). */
  datatype Factors = Factors(fx: nat, fy: nat)

  /** The factor table for the x0 / y0 corner, one row per mode.  The two
      offset modes have rows too, but placement never reads them. */
  function X0Y0Factors(mode: OverlayPosition): (f: Factors)
    ensures f.fx <= 2 && f.fy <= 2
    ensures f.fx == 0 <==> mode in {TopLeft, CenteredLeft, BottomLeft, PixelOffset}
    ensures f.fx == 1 <==> mode in {TopCentered, Centered, BottomCentered}
    ensures f.fy == 0 <==> mode in {TopLeft, TopCentered, TopRight, PixelOffset}
    ensures f.fy == 1 <==> mode in {CenteredLeft, Centered, CenteredRight}
  {
    match mode
    case TopLeft => Factors(0, 0)
    case TopCentered => Factors(1, 0)
    case TopRight => Factors(2, 0)
    case CenteredLeft => Factors(0, 1)
    case Centered => Factors(1, 1)
    case CenteredRight => Factors(2, 1)
    case BottomLeft => Factors(0, 2)
    case BottomCentered => Factors(1, 2)
    case BottomRight => Factors(2, 2)
    case PercentOffset => Factors(2, 2)
    case PixelOffset => Factors(0, 0)
  }

  datatype Point = Point(x: int, y: int)

  /** Half-open rectangle [x0, x1) x [y0, y1). */
  datatype Rect = Rect(x0: int, y0: int, x1: int, y1: int)

  /** The error the pixel-offset check raises, carrying the valid range
      lo..hi that its message prints. */
  datatype OffsetError =
    | XOffsetOutOfRange(lo: int, hi: int)
    | YOffsetOutOfRange(lo: int, hi: int)

  /** Fixed anchor on one axis: int((base - overlay) * factor). */
  function FixedAnchor(factor: nat, baseDim: nat, overlayDim: nat): int {
    TruncDiv((baseDim - overlayDim) * factor, 2)
  }

  /** Percent anchor on one axis: int((50 + pct / 2) * base / 100 - overlay / 2),
      whose exact value is ((100 + pct) * base - 100 * overlay) / 200. */
  function PercentAnchor(pct: int, baseDim: nat, overlayDim: nat): int {
    TruncDiv((100 + pct) * baseDim - 100 * overlayDim, 200)
  }

  /** Pixel anchor on one axis: round(px + (base - overlay) / 2). */
  function PixelAnchor(px: int, baseDim: nat, overlayDim: nat): int {
    RoundHalf(2 * px + baseDim - overlayDim)
  }

  /** The bound of the runtime check: int((base + overlay) / 2). */
  function MaxDim(baseDim: nat, overlayDim: nat): nat {
    (baseDim + overlayDim) / 2
  }

  /** The runtime assertion -max_dim < px < max_dim. */
  predicate OffsetInRange(px: int, baseDim: nat, overlayDim: nat) {
    var m: int := MaxDim(baseDim, overlayDim);
    -m < px < m
  }

  /** The overlay's top-left corner in base coordinates, or the error the
      pixel-offset mode raises (the x axis is checked first). */
  function Anchor(w: nat, h: nat, wo: nat, ho: nat, mode: OverlayPosition,
                  xPct: int, yPct: int, xPx: int, yPx: int): (r: Result<Point, OffsetError>)
    ensures r.Failure? ==> mode.PixelOffset?
    ensures r.Failure? && r.error.XOffsetOutOfRange? ==>
              r.error.lo == 1 - MaxDim(w, wo) && r.error.hi == MaxDim(w, wo) - 1
    ensures r.Failure? && r.error.YOffsetOutOfRange? ==>
              r.error.lo == 1 - MaxDim(h, ho) && r.error.hi == MaxDim(h, ho) - 1
  {
    match mode
    case PercentOffset =>
      Success(Point(PercentAnchor(xPct, w, wo), PercentAnchor(yPct, h, ho)))
    case PixelOffset =>
      if !OffsetInRange(xPx, w, wo) then
        Failure(XOffsetOutOfRange(1 - MaxDim(w, wo), MaxDim(w, wo) - 1))
      else if !OffsetInRange(yPx, h, ho) then
        Failure(YOffsetOutOfRange(1 - MaxDim(h, ho), MaxDim(h, ho) - 1))
      else
        Success(Point(PixelAnchor(xPx, w, wo), PixelAnchor(yPx, h, ho)))
    case _ =>
      var f := X0Y0Factors(mode);
      Success(Point(FixedAnchor(f.fx, w, wo), FixedAnchor(f.fy, h, ho)))
  }

  /** The overlay's footprint before clipping: (x0, y0) to (x0 + Wo, y0 + Ho). */
  function Placement(corner: Point, wo: nat, ho: nat): (r: Rect)
    ensures r.x1 - r.x0 == wo && r.y1 - r.y0 == ho
    ensures r.x0 == corner.x && r.y0 == corner.y
  {
    Rect(corner.x, corner.y, corner.x + wo, corner.y + ho)
  }

  /** Coordinate c lies in the half-open interval [lo, hi). */
  predicate Spans(lo: int, hi: int, c: int) {
    lo <= c < hi
  }

  /** The part of the footprint that lies on the base [0, W) x [0, H). */
  function Intersection(w: nat, h: nat, place: Rect): (r: Rect)
    ensures 0 <= r.x0 && r.x1 <= w && 0 <= r.y0 && r.y1 <= h
    ensures place.x0 <= r.x0 && r.x1 <= place.x1 && place.y0 <= r.y0 && r.y1 <= place.y1
    ensures forall x :: Spans(r.x0, r.x1, x) <==> Spans(0, w, x) && Spans(place.x0, place.x1, x)
    ensures forall y :: Spans(r.y0, r.y1, y) <==> Spans(0, h, y) && Spans(place.y0, place.y1, y)
  {
    Rect(Max(0, place.x0), Max(0, place.y0), Min(place.x1, w), Min(place.y1, h))
  }

  /** The test that decides whether anything is pasted:
      0 <= i_x0 < i_x1 and 0 <= i_y0 < i_y1. */
  predicate NonEmpty(r: Rect) {
    0 <= r.x0 < r.x1 && 0 <= r.y0 < r.y1
  }

  /** The window of the overlay that lands on the base, in overlay
      coordinates: ov_x0 = max(0, -x0), ov_x1 = ov_x0 + (i_x1 - i_x0), and
      likewise for y. */
  function CropWindow(w: nat, h: nat, place: Rect): (r: Rect)
    ensures var inter := Intersection(w, h, place);
      && r.x1 - r.x0 == inter.x1 - inter.x0
      && r.y1 - r.y0 == inter.y1 - inter.y0
      && inter.x0 == place.x0 + r.x0
      && inter.y0 == place.y0 + r.y0
      && (NonEmpty(inter) ==>
            0 <= r.x0 < r.x1 <= place.x1 - place.x0 && 0 <= r.y0 < r.y1 <= place.y1 - place.y0)
  {
    var inter := Intersection(w, h, place);
    var ovX0 := Max(0, -place.x0);
    var ovY0 := Max(0, -place.y0);
    Rect(ovX0, ovY0, ovX0 + inter.x1 - inter.x0, ovY0 + inter.y1 - inter.y0)
  }

  /** What the node does after placement: return the base as it is, or
      paste the blended window `crop` of the overlay over `inter`. */
  datatype Plan = Unchanged | Paste(inter: Rect, crop: Rect)

  /** The geometry of overlay_images_node, from the sizes and options to
      its plan, before any pixel is touched. */
  function PlanOverlay(w: nat, h: nat, wo: nat, ho: nat, mode: OverlayPosition,
                       xPct: int, yPct: int, xPx: int, yPx: int): (r: Result<Plan, OffsetError>)
    ensures r.Failure? <==> Anchor(w, h, wo, ho, mode, xPct, yPct, xPx, yPx).Failure?
    ensures r.Success? ==>
      var place := Placement(Anchor(w, h, wo, ho, mode, xPct, yPct, xPx, yPx).value, wo, ho);
      var inter := Intersection(w, h, place);
      && (r.value.Unchanged? <==> !NonEmpty(inter))
      && (r.value.Paste? ==> r.value.inter == inter && r.value.crop == CropWindow(w, h, place))
  {
    var corner :- Anchor(w, h, wo, ho, mode, xPct, yPct, xPx, yPx);
    var place := Placement(corner, wo, ho);
    var inter := Intersection(w, h, place);
    if !NonEmpty(inter) then Success(Unchanged)
    else Success(Paste(inter, CropWindow(w, h, place)))
  }

  // ---------------------------------------------------------------------
  // Properties of the placement

  /** A pasted region is a non-empty rectangle of the base, and its crop
      window a non-empty rectangle of the overlay of the same size. */
  lemma PasteInsideBase(w: nat, h: nat, wo: nat, ho: nat, mode: OverlayPosition,
                        xPct: int, yPct: int, xPx: int, yPx: int)
    requires PlanOverlay(w, h, wo, ho, mode, xPct, yPct, xPx, yPx).Success?
    requires PlanOverlay(w, h, wo, ho, mode, xPct, yPct, xPx, yPx).value.Paste?
    ensures var p := PlanOverlay(w, h, wo, ho, mode, xPct, yPct, xPx, yPx).value;
      && 0 <= p.inter.x0 < p.inter.x1 <= w && 0 <= p.inter.y0 < p.inter.y1 <= h
      && 0 <= p.crop.x0 < p.crop.x1 <= wo && 0 <= p.crop.y0 < p.crop.y1 <= ho
      && p.crop.x1 - p.crop.x0 == p.inter.x1 - p.inter.x0
      && p.crop.y1 - p.crop.y0 == p.inter.y1 - p.inter.y0
  {
    var corner := Anchor(w, h, wo, ho, mode, xPct, yPct, xPx, yPx).value;
    var place := Placement(corner, wo, ho);
    var inter := Intersection(w, h, place);
    var crop := CropWindow(w, h, place);
    assert NonEmpty(inter);
  }

  /** For the nine fixed anchors the corner is int((W - Wo) * fx),
      int((H - Ho) * fy) with the table's factors, and an overlay no larger
      than the base is pasted whole: nothing is clipped and the crop window
      is the entire overlay. */
  lemma FixedModeNoClipping(w: nat, h: nat, wo: nat, ho: nat, mode: OverlayPosition,
                            xPct: int, yPct: int, xPx: int, yPx: int)
    requires IsFixed(mode)
    requires 1 <= wo <= w && 1 <= ho <= h
    ensures
      var f := X0Y0Factors(mode);
      var x0 := FixedAnchor(f.fx, w, wo);
      var y0 := FixedAnchor(f.fy, h, ho);
      && 0 <= x0 && x0 + wo <= w && 0 <= y0 && y0 + ho <= h
      && PlanOverlay(w, h, wo, ho, mode, xPct, yPct, xPx, yPx)
         == Success(Paste(Rect(x0, y0, x0 + wo, y0 + ho), Rect(0, 0, wo, ho)))
  {
    var f := X0Y0Factors(mode);
    var x0 := FixedAnchor(f.fx, w, wo);
    var y0 := FixedAnchor(f.fy, h, ho);
    FixedAnchorWithin(f.fx, w, wo);
    FixedAnchorWithin(f.fy, h, ho);
    var a := Anchor(w, h, wo, ho, mode, xPct, yPct, xPx, yPx);
    assert a == Success(Point(x0, y0));
    var place := Placement(a.value, wo, ho);
    assert place == Rect(x0, y0, x0 + wo, y0 + ho);
    assert Intersection(w, h, place) == place;
    assert CropWindow(w, h, place) == Rect(0, 0, wo, ho);
  }

  /** A fixed anchor of a smaller overlay keeps it on the base. */
  lemma FixedAnchorWithin(factor: nat, baseDim: nat, overlayDim: nat)
    requires factor <= 2 && overlayDim <= baseDim
    ensures 0 <= FixedAnchor(factor, baseDim, overlayDim)
    ensures FixedAnchor(factor, baseDim, overlayDim) + overlayDim <= baseDim
  {
    var d := baseDim - overlayDim;
    var q := FixedAnchor(factor, baseDim, overlayDim);
    assert d * factor <= 2 * d;
    MulCancelLess(q, d + 1, 2);
  }

  /** What each factor means on one axis, whatever the sizes: factor 0 is
      flush with the start edge, factor 2 flush with the end edge, and
      factor 1 puts the overlay's centre within half a pixel of the base's
      centre (truncated toward zero). */
  lemma FixedAnchorMeaning(factor: nat, baseDim: nat, overlayDim: nat)
    requires factor <= 2
    ensures factor == 0 ==> FixedAnchor(factor, baseDim, overlayDim) == 0
    ensures factor == 2 ==> FixedAnchor(factor, baseDim, overlayDim) + overlayDim == baseDim
    ensures factor == 1 ==>
      var x0 := FixedAnchor(factor, baseDim, overlayDim);
      -1 <= (2 * x0 + overlayDim) - baseDim <= 1
      && (baseDim >= overlayDim ==> 2 * x0 + overlayDim <= baseDim)
      && (baseDim <= overlayDim ==> 2 * x0 + overlayDim >= baseDim)
  {
    var d := baseDim - overlayDim;
    if factor == 2 {
      TruncDivUnique(d * 2, 2, d);
    }
  }

  /** A percent offset of (0, 0) places the overlay exactly as Centered. */
  lemma PercentZeroIsCentered(w: nat, h: nat, wo: nat, ho: nat, xPx: int, yPx: int)
    ensures Anchor(w, h, wo, ho, PercentOffset, 0, 0, xPx, yPx)
         == Anchor(w, h, wo, ho, Centered, 0, 0, xPx, yPx)
    ensures Anchor(w, h, wo, ho, Centered, 0, 0, xPx, yPx)
         == Success(Point(TruncDiv(w - wo, 2), TruncDiv(h - ho, 2)))
  {
    assert (100 + 0) * w - 100 * wo == 100 * (w - wo);
    assert (100 + 0) * h - 100 * ho == 100 * (h - ho);
    TruncDivScale(w - wo, 2, 100);
    TruncDivScale(h - ho, 2, 100);
  }

  /** Percent offset p on one axis puts the overlay's centre x0 + Wo/2
      strictly within one pixel of (100 + p) * W / 200: offset 0 centres
      it, -100 puts its centre on the base's start edge and +100 on the end
      edge. */
  lemma PercentAnchorCentre(pct: int, baseDim: nat, overlayDim: nat)
    ensures var x0 := PercentAnchor(pct, baseDim, overlayDim);
      -200 < 200 * x0 + 100 * overlayDim - (100 + pct) * baseDim < 200
  {
    var n := (100 + pct) * baseDim - 100 * overlayDim;
    var x0 := TruncDiv(n, 200);
    assert 200 * x0 + 100 * overlayDim - (100 + pct) * baseDim == x0 * 200 - n;
  }

  /** The pixel-offset check: the mode fails exactly when an offset is
      outside 1 - max_dim .. max_dim - 1 for its axis, reporting x before y;
      an accepted offset gives x0 = round(px + (W - Wo) / 2). */
  lemma PixelOffsetValidation(w: nat, h: nat, wo: nat, ho: nat, xPct: int, yPct: int, xPx: int, yPx: int)
    ensures
      var r := Anchor(w, h, wo, ho, PixelOffset, xPct, yPct, xPx, yPx);
      var mx: int := MaxDim(w, wo);
      var my: int := MaxDim(h, ho);
      && (r.Success? <==> 1 - mx <= xPx <= mx - 1 && 1 - my <= yPx <= my - 1)
      && (!(1 - mx <= xPx <= mx - 1) ==> r == Failure(XOffsetOutOfRange(1 - mx, mx - 1)))
      && (1 - mx <= xPx <= mx - 1 && !(1 - my <= yPx <= my - 1) ==>
            r == Failure(YOffsetOutOfRange(1 - my, my - 1)))
      && (r.Success? ==> r.value == Point(PixelAnchor(xPx, w, wo), PixelAnchor(yPx, h, ho)))
  {
  }

  /** One axis of the overlay overlaps the base: [x0, x0 + len) meets [0, dim). */
  predicate AxisOverlap(x0: int, len: nat, dim: nat) {
    Max(0, x0) < Min(x0 + len, dim)
  }

  /** On an accepted offset the overlay's footprint starts at least one
      pixel before the base's far edge and ends at least one pixel after
      its near edge. */
  lemma AcceptedOffsetFootprint(px: int, baseDim: nat, overlayDim: nat)
    requires OffsetInRange(px, baseDim, overlayDim)
    ensures 1 - overlayDim <= PixelAnchor(px, baseDim, overlayDim) <= baseDim - 1
  {
    var n := 2 * px + baseDim - overlayDim;
    assert 2 - 2 * overlayDim <= n <= 2 * baseDim - 2;
    RoundHalfNear(n);
  }

  /** The purpose of the range check: an accepted pixel offset always
      leaves a non-empty overlap, so the node pastes something. */
  lemma AcceptedPixelOffsetOverlaps(w: nat, h: nat, wo: nat, ho: nat, xPct: int, yPct: int, xPx: int, yPx: int)
    requires w >= 1 && h >= 1 && wo >= 1 && ho >= 1
    requires Anchor(w, h, wo, ho, PixelOffset, xPct, yPct, xPx, yPx).Success?
    ensures PlanOverlay(w, h, wo, ho, PixelOffset, xPct, yPct, xPx, yPx).Success?
    ensures PlanOverlay(w, h, wo, ho, PixelOffset, xPct, yPct, xPx, yPx).value.Paste?
  {
    AcceptedOffsetFootprint(xPx, w, wo);
    AcceptedOffsetFootprint(yPx, h, ho);
  }

  /** When base and overlay sizes have an even sum, the check accepts
      exactly the offsets that overlap on that axis. */
  lemma RangeCheckExactForEvenSum(px: int, baseDim: nat, overlayDim: nat)
    requires baseDim >= 1 && overlayDim >= 1
    requires (baseDim + overlayDim) % 2 == 0
    ensures OffsetInRange(px, baseDim, overlayDim)
        <==> AxisOverlap(PixelAnchor(px, baseDim, overlayDim), overlayDim, baseDim)
  {
    var n := 2 * px + baseDim - overlayDim;
    RoundHalfNear(n);
    if OffsetInRange(px, baseDim, overlayDim) {
      AcceptedOffsetFootprint(px, baseDim, overlayDim);
    } else {
      assert n >= 2 * baseDim || n <= -2 * overlayDim;
    }
  }

  /** When base and overlay sizes have an odd sum, the check rejects both
      edge offsets +max_dim and -max_dim; the first still overlaps exactly
      when the base size is odd and the second exactly when the overlay size
      is odd (so exactly one of them does), and every offset beyond them
      leaves no overlap. */
  lemma RangeCheckOddSumEdges(baseDim: nat, overlayDim: nat)
    requires baseDim >= 1 && overlayDim >= 1
    requires (baseDim + overlayDim) % 2 == 1
    ensures var m: int := MaxDim(baseDim, overlayDim);
      && !OffsetInRange(m, baseDim, overlayDim)
      && !OffsetInRange(-m, baseDim, overlayDim)
      && (AxisOverlap(PixelAnchor(m, baseDim, overlayDim), overlayDim, baseDim) <==> baseDim % 2 == 1)
      && (AxisOverlap(PixelAnchor(-m, baseDim, overlayDim), overlayDim, baseDim) <==> overlayDim % 2 == 1)
      && forall px :: (px > m || px < -m) ==>
           !AxisOverlap(PixelAnchor(px, baseDim, overlayDim), overlayDim, baseDim)
  {
    OddSumUpperEdge(baseDim, overlayDim);
    OddSumLowerEdge(baseDim, overlayDim);
    var m: int := MaxDim(baseDim, overlayDim);
    forall px | px > m || px < -m
      ensures !AxisOverlap(PixelAnchor(px, baseDim, overlayDim), overlayDim, baseDim)
    {
      RoundHalfNear(2 * px + baseDim - overlayDim);
    }
  }

  /** The upper edge +max_dim of an odd sum: x0 = round(W - 1/2). */
  lemma OddSumUpperEdge(baseDim: nat, overlayDim: nat)
    requires baseDim >= 1 && overlayDim >= 1
    requires (baseDim + overlayDim) % 2 == 1
    ensures var m: int := MaxDim(baseDim, overlayDim);
      && !OffsetInRange(m, baseDim, overlayDim)
      && (AxisOverlap(PixelAnchor(m, baseDim, overlayDim), overlayDim, baseDim) <==> baseDim % 2 == 1)
  {
    var m: int := MaxDim(baseDim, overlayDim);
    assert 2 * m == baseDim + overlayDim - 1;
    var n := 2 * m + baseDim - overlayDim;
    assert n == 2 * baseDim - 1;
    if baseDim % 2 == 1 {
      RoundHalfUnique(n, baseDim - 1);
    } else {
      RoundHalfUnique(n, baseDim);
    }
  }

  /** The lower edge -max_dim of an odd sum: x0 = round(1/2 - Wo). */
  lemma OddSumLowerEdge(baseDim: nat, overlayDim: nat)
    requires baseDim >= 1 && overlayDim >= 1
    requires (baseDim + overlayDim) % 2 == 1
    ensures var m: int := MaxDim(baseDim, overlayDim);
      && !OffsetInRange(-m, baseDim, overlayDim)
      && (AxisOverlap(PixelAnchor(-m, baseDim, overlayDim), overlayDim, baseDim) <==> overlayDim % 2 == 1)
  {
    var m: int := MaxDim(baseDim, overlayDim);
    assert 2 * m == baseDim + overlayDim - 1;
    var n := 2 * (-m) + baseDim - overlayDim;
    assert n == 1 - 2 * overlayDim;
    if overlayDim % 2 == 1 {
      RoundHalfUnique(n, 1 - overlayDim as int);
    } else {
      RoundHalfUnique(n, -(overlayDim as int));
    }
  }

  /** A witness: a 2 pixel wide overlay on a 3 pixel wide base at offset 2
      still covers the base's last column (x0 = round(2.5) = 2), yet is
      rejected. */
  lemma RangeCheckRejectsOverlappingOffset()
    ensures !OffsetInRange(2, 3, 2)
    ensures PixelAnchor(2, 3, 2) == 2
    ensures AxisOverlap(PixelAnchor(2, 3, 2), 2, 3)
  {
    RangeCheckOddSumEdges(3, 2);
  }

  /** A pixel offset of 0 and the Centered mode agree exactly when the
      size difference d = W - Wo has |d| mod 4 != 3: the pixel mode rounds
      half to even while the table truncates toward zero. */
  lemma PixelZeroVersusCentered(baseDim: nat, overlayDim: nat)
    ensures var d := baseDim - overlayDim;
      (PixelAnchor(0, baseDim, overlayDim) == FixedAnchor(1, baseDim, overlayDim))
      <==> (if d >= 0 then d % 4 != 3 else (-d) % 4 != 3)
  {
    var d := baseDim - overlayDim;
    assert PixelAnchor(0, baseDim, overlayDim) == RoundHalf(d);
    assert FixedAnchor(1, baseDim, overlayDim) == TruncDiv(d, 2) by { assert d * 1 == d; }
    if d >= 0 {
      RoundVersusTrunc(d);
    } else {
      RoundVersusTrunc(-d);
      RoundHalfOdd(-d);
      assert RoundHalf(d) == -RoundHalf(-d);
      assert TruncDiv(d, 2) == -TruncDiv(-d, 2);
    }
  }

  /** Rounding half to even is symmetric about 0. */
  lemma RoundHalfOdd(n: int)
    ensures RoundHalf(-n) == -RoundHalf(n)
  {
    RoundHalfUnique(-n, -RoundHalf(n));
  }

  /** For d >= 0: round(d / 2) == int(d / 2) unless d mod 4 == 3. */
  lemma RoundVersusTrunc(d: nat)
    ensures (RoundHalf(d) == TruncDiv(d, 2)) <==> d % 4 != 3
  {
    var k := d / 4;
    var e := d % 4;
    assert d == 4 * k + e;
    TruncDivUnique(d, 2, 2 * k + e / 2);
    if e == 0 || e == 2 {
      RoundHalfUnique(d, 2 * k + e / 2);
    } else if e == 1 {
      RoundHalfUnique(d, 2 * k);
    } else {
      RoundHalfUnique(d, 2 * k + 2);
    }
  }
}
