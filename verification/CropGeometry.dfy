/**
 * The crop window of the camera: the part of the sensor picture that is scaled to the picture the
 * application asked for. The two crop functions of the camera are methods here; the fractions that the
 * program keeps in floats are kept exact, every truncation to an integer stays.
 */
module CropGeometry {
  import opened Arithmetic

  /** A crop window: its corner, and its size. The corner can be negative or far outside on bad sizes. */
  datatype Rect = Rect(x: int, y: int, w: nat, h: nat)

  ghost predicate Inside(r: Rect, srcW: nat, srcH: nat) {
    0 <= r.x && r.x + r.w <= srcW && 0 <= r.y && r.y + r.h <= srcH
  }

  const UNSIGNED: nat := 0x1_0000_0000

  /** Subtraction of unsigned 32-bit numbers. */
  function Minus32(a: nat, b: nat): nat {
    (a - b) % UNSIGNED
  }

  /** The source's size with the longer side cut down to the target's ratio. */
  function Shrink(srcW: nat, srcH: nat, dstW: nat, dstH: nat): (size: (nat, nat))
    requires 0 < dstW && 0 < dstH
  {
    if srcW * dstH == dstW * srcH then (srcW, srcH)
    else if srcW * dstH <= dstW * srcH then (srcW, srcW * dstH / dstW)
    else (srcH * dstW / dstH, srcH)
  }

  /** The nearer multiple of `n` when there is room for it in the target, else the multiple below. */
  function RoundTo(c: nat, n: nat, dst: nat): (r: nat)
    requires n == 2 || n == 16
  {
    var over := c % n;
    if over != 0 && n / 2 <= over && c + (n - over) <= dst then c + (n - over) else c - over
  }

  // -- Rounding ---------------------------------------------------------------------------------

  lemma RoundToIs(c: nat, n: nat, dst: nat)
    requires n == 2 || n == 16
    ensures RoundTo(c, n, dst) % n == 0
    ensures c - n < RoundTo(c, n, dst) <= c + n / 2
    ensures c < RoundTo(c, n, dst) ==> RoundTo(c, n, dst) <= dst
    ensures RoundTo(c, n, dst) == c / n * n || RoundTo(c, n, dst) == c / n * n + n
  {
    hide RoundTo;
    if n == 2 {
      RoundToEven(c, dst);
    } else {
      RoundToSixteen(c, dst);
    }
  }

  lemma RoundToEven(c: nat, dst: nat)
    ensures var r := RoundTo(c, 2, dst);
      r % 2 == 0 && c - 2 < r <= c + 1 && (c < r ==> r <= dst) && (r == c / 2 * 2 || r == c / 2 * 2 + 2)
  {
    assert c == c / 2 * 2 + c % 2;
  }

  lemma RoundToSixteen(c: nat, dst: nat)
    ensures var r := RoundTo(c, 16, dst);
      r % 16 == 0 && c - 16 < r <= c + 8 && (c < r ==> r <= dst) && (r == c / 16 * 16 || r == c / 16 * 16 + 16)
  {
    assert c == c / 16 * 16 + c % 16;
  }

  lemma RoundToMonotone(c: nat, d: nat, n: nat, dst: nat)
    requires n == 2 || n == 16
    requires c <= d
    ensures RoundTo(c, n, dst) <= RoundTo(d, n, dst)
  {
    if n == 2 {
      assert c / 2 == d / 2 || c / 2 + 1 <= d / 2;
    } else {
      assert c / 16 == d / 16 || c / 16 + 1 <= d / 16;
    }
  }

  /** Rounding leaves a side of the source exactly when it rounds up past a side that is no multiple itself. */
  ghost predicate RoundsOut(c: nat, n: nat, dst: nat, src: nat)
    requires n == 2 || n == 16
  {
    && src % n != 0
    && c / n == src / n
    && n / 2 <= c % n
    && src / n * n + n <= dst
  }

  lemma RoundedInside(c: nat, n: nat, dst: nat, src: nat)
    requires n == 2 || n == 16
    requires c <= src
    ensures RoundTo(c, n, dst) <= src <==> !RoundsOut(c, n, dst, src)
    ensures src % n == 0 || dst <= src ==> !RoundsOut(c, n, dst, src)
  {
    if n == 2 {
      assert c / 2 <= src / 2;
    } else {
      assert c / 16 <= src / 16;
    }
  }

  // -- The largest window of the target's ratio -------------------------------------------------

  lemma ShrinkFits(srcW: nat, srcH: nat, dstW: nat, dstH: nat)
    requires 0 < dstW && 0 < dstH
    ensures var (w, h) := Shrink(srcW, srcH, dstW, dstH);
            && w <= srcW && h <= srcH
            && (srcW * dstH < dstW * srcH ==> w == srcW && h < srcH && 0 <= w * dstH - h * dstW < dstW)
            && (srcW * dstH > dstW * srcH ==> w < srcW && h == srcH && 0 <= h * dstW - w * dstH < dstH)
            && (srcW * dstH == dstW * srcH ==> w == srcW && h == srcH && w * dstH == h * dstW)
  {
    if srcW * dstH < dstW * srcH {
      CutSide(srcW * dstH, srcH, dstW);
    } else if srcW * dstH > dstW * srcH {
      CutSide(srcH * dstW, srcW, dstH);
    }
  }

  lemma CutSide(p: nat, side: nat, d: nat)
    requires 0 < d && p < side * d
    ensures p / d < side && p / d * d <= p < p / d * d + d
  {
    QuotientFits(p, d);
    ScaledLess(p / d, side, d);
  }

  /** No window of the target's exact ratio inside the source is wider or higher. */
  lemma ShrinkLargest(srcW: nat, srcH: nat, dstW: nat, dstH: nat, w: nat, h: nat)
    requires 0 < dstW && 0 < dstH
    requires w <= srcW && h <= srcH
    requires w * dstH == h * dstW
    ensures w <= Shrink(srcW, srcH, dstW, dstH).0
    ensures h <= Shrink(srcW, srcH, dstW, dstH).1
  {
    Scaled(w, srcW, dstH);
    Scaled(h, srcH, dstW);
    QuotientLargest(h, srcW * dstH, dstW);
    QuotientLargest(w, srcH * dstW, dstH);
  }

  // -- Zoom -------------------------------------------------------------------------------------

  /** A side after the zoom: as many of the equal steps off three quarters of it as the zoom says. */
  function Zoomed(c: nat, zoom: nat, maxZoom: nat): int
    requires 0 < maxZoom
  {
    c - (c - c / 4) / maxZoom * zoom
  }

  /** The zoom never cuts below a quarter, and cuts more the higher it is. */
  lemma ZoomedBetween(c: nat, zoom: nat, more: nat, maxZoom: nat)
    requires zoom <= more <= maxZoom && 0 < maxZoom
    ensures c / 4 <= Zoomed(c, more, maxZoom) <= Zoomed(c, zoom, maxZoom) <= c
  {
    var step := (c - c / 4) / maxZoom;
    QuotientFits(c - c / 4, maxZoom);
    Scaled(zoom, more, step);
    Scaled(more, maxZoom, step);
  }

  /** The highest zoom leaves a quarter, but for less than a pixel a step: fourfold zoom. */
  lemma HighestZoom(c: nat, maxZoom: nat)
    requires 0 < maxZoom
    ensures c / 4 <= Zoomed(c, maxZoom, maxZoom) < c / 4 + maxZoom
  {
    ZoomedBetween(c, maxZoom, maxZoom, maxZoom);
    QuotientFits(c - c / 4, maxZoom);
  }

  /** The window before its sides are rounded. Equal sizes are not zoomed. */
  function CropSize(srcW: nat, srcH: nat, dstW: nat, dstH: nat, zoom: nat, maxZoom: nat): (size: (nat, nat))
    requires 0 < dstW && 0 < dstH
    requires zoom <= maxZoom && 0 < maxZoom
  {
    var (w, h) := Shrink(srcW, srcH, dstW, dstH);
    ZoomedBetween(w, zoom, zoom, maxZoom);
    ZoomedBetween(h, zoom, zoom, maxZoom);
    if srcW == dstW && srcH == dstH then (w, h) else (Zoomed(w, zoom, maxZoom), Zoomed(h, zoom, maxZoom))
  }

  /** The crop window of the preview and picture scalers. */
  function CropRect(srcW: nat, srcH: nat, dstW: nat, dstH: nat, zoom: nat, maxZoom: nat): (r: Rect)
    requires 0 < dstW && 0 < dstH
    requires zoom <= maxZoom && 0 < maxZoom
  {
    var (c, d) := CropSize(srcW, srcH, dstW, dstH, zoom, maxZoom);
    var w, h := RoundTo(c, 16, dstW), RoundTo(d, 2, dstH);
    Rect(Minus32(srcW, w) / 2, Minus32(srcH, h) / 2, w, h)
  }

  /** The first half of m_getCropRect: the longer side of the source is cut down to the target's ratio. */
  method ShrinkSides(srcW: nat, srcH: nat, dstW: nat, dstH: nat) returns (cropW: nat, cropH: nat)
    requires 0 < srcW && 0 < srcH && 0 < dstW && 0 < dstH
    ensures (cropW, cropH) == Shrink(srcW, srcH, dstW, dstH)
  {
    cropW, cropH := srcW, srcH;
    if srcW * dstH != dstW * srcH {
      if srcW * dstH <= dstW * srcH {
        cropW := srcW;
        cropH := srcW * dstH / dstW;
      } else {
        cropW := srcH * dstW / dstH;
        cropH := srcH;
      }
    }
  }

  /** The zoom of one side, as m_getCropRect spells it out for each side. */
  method ZoomSide(side: nat, zoom: nat, maxZoom: nat) returns (crop: nat)
    requires zoom <= maxZoom && 0 < maxZoom
    ensures crop == Zoomed(side, zoom, maxZoom)
  {
    ZoomedBetween(side, zoom, zoom, maxZoom);
    var zoomStep := (side - side / 4) / maxZoom;
    crop := side - zoomStep * zoom;
  }

  /** m_getCropRect, with the camera's highest zoom as a parameter. */
  method GetCropRect(srcW: nat, srcH: nat, dstW: nat, dstH: nat, zoom: nat, maxZoom: nat)
    returns (cropX: nat, cropY: nat, cropW: nat, cropH: nat)
    requires 0 < srcW && 0 < srcH && 0 < dstW && 0 < dstH
    requires zoom <= maxZoom && 0 < maxZoom
    ensures Rect(cropX, cropY, cropW, cropH) == CropRect(srcW, srcH, dstW, dstH, zoom, maxZoom)
  {
    hide Shrink, Zoomed, RoundTo;
    cropW, cropH := srcW, srcH;
    ShrinkEqual(srcW, srcH);
    if srcW != dstW || srcH != dstH {
      cropW, cropH := ShrinkSides(srcW, srcH, dstW, dstH);
      ZoomedNot(cropW, maxZoom);
      ZoomedNot(cropH, maxZoom);
      if zoom != 0 {
        cropW := ZoomSide(cropW, zoom, maxZoom);
        cropH := ZoomSide(cropH, zoom, maxZoom);
      }
    }
    assert (cropW, cropH) == CropSize(srcW, srcH, dstW, dstH, zoom, maxZoom);
    cropW := Restrain(cropW, 16, dstW);
    cropH := Restrain(cropH, 2, dstH);
    cropX := Minus32(srcW, cropW) / 2;
    cropY := Minus32(srcH, cropH) / 2;
  }

  lemma ShrinkEqual(w: nat, h: nat)
    requires 0 < w && 0 < h
    ensures Shrink(w, h, w, h) == (w, h)
  {
  }

  lemma ZoomedNot(c: nat, maxZoom: nat)
    requires 0 < maxZoom
    ensures Zoomed(c, 0, maxZoom) == c
  {
  }

  /** The alignment of one side, as both crop functions spell it out for each side. */
  method Restrain(side: nat, n: nat, dst: nat) returns (crop: nat)
    requires n == 2 || n == 16
    ensures crop == RoundTo(side, n, dst)
  {
    crop := side;
    var align := crop % n;
    if align != 0 {
      if n / 2 <= align && crop + (n - align) <= dst {
        crop := crop + (n - align);
      } else {
        crop := crop - align;
      }
    }
  }

  // -- What the crop window promises ------------------------------------------------------------

  lemma CropSizeFits(srcW: nat, srcH: nat, dstW: nat, dstH: nat, zoom: nat, maxZoom: nat)
    requires 0 < dstW && 0 < dstH
    requires zoom <= maxZoom && 0 < maxZoom
    ensures var (c, d) := CropSize(srcW, srcH, dstW, dstH, zoom, maxZoom); c <= srcW && d <= srcH
  {
    hide Shrink, Zoomed;
    var (w, h) := Shrink(srcW, srcH, dstW, dstH);
    ShrinkFits(srcW, srcH, dstW, dstH);
    ZoomedBetween(w, zoom, zoom, maxZoom);
    ZoomedBetween(h, zoom, zoom, maxZoom);
  }

  /**
   * The width leaves the source: it is not a multiple of 16, the next one fits in the target, and of the
   * width that the target's ratio and the zoom leave, the part beyond the multiple below is at least half.
   */
  predicate CropTooWide(srcW: nat, srcH: nat, dstW: nat, dstH: nat, zoom: nat, maxZoom: nat)
    requires 0 < dstH && 0 < maxZoom
  {
    var w := if srcW * dstH <= dstW * srcH then srcW else srcH * dstW / dstH;
    && srcW % 16 != 0
    && srcW / 16 * 16 + 16 <= dstW
    && srcW / 16 * 16 + 8 <= w - (w - w / 4) / maxZoom * zoom
  }

  /** The height leaves the source: it is odd, kept whole by the ratio and the zoom, and the target is higher. */
  predicate CropTooHigh(srcW: nat, srcH: nat, dstW: nat, dstH: nat, zoom: nat, maxZoom: nat) {
    && srcH % 2 == 1 && srcH < dstH
    && dstW * srcH <= srcW * dstH
    && (zoom == 0 || srcH - srcH / 4 < maxZoom)
  }

  lemma CropWidthInside(srcW: nat, srcH: nat, dstW: nat, dstH: nat, zoom: nat, maxZoom: nat)
    requires 0 < dstW && 0 < dstH
    requires zoom <= maxZoom && 0 < maxZoom
    ensures RoundTo(CropSize(srcW, srcH, dstW, dstH, zoom, maxZoom).0, 16, dstW) <= srcW
            <==> !CropTooWide(srcW, srcH, dstW, dstH, zoom, maxZoom)
  {
    hide RoundTo;
    var c := CropSize(srcW, srcH, dstW, dstH, zoom, maxZoom).0;
    CropSizeFits(srcW, srcH, dstW, dstH, zoom, maxZoom);
    RoundedInside(c, 16, dstW, srcW);
    WideSide(c, srcW, dstW);
  }

  lemma WideSide(c: nat, src: nat, dst: nat)
    requires c <= src
    ensures RoundsOut(c, 16, dst, src) <==> src % 16 != 0 && src / 16 * 16 + 16 <= dst && src / 16 * 16 + 8 <= c
    ensures RoundsOut(c, 16, dst, src) ==> src < dst
  {
  }

  lemma CropHeightInside(srcW: nat, srcH: nat, dstW: nat, dstH: nat, zoom: nat, maxZoom: nat)
    requires 0 < dstW && 0 < dstH
    requires zoom <= maxZoom && 0 < maxZoom
    ensures RoundTo(CropSize(srcW, srcH, dstW, dstH, zoom, maxZoom).1, 2, dstH) <= srcH
            <==> !CropTooHigh(srcW, srcH, dstW, dstH, zoom, maxZoom)
  {
    hide RoundTo, Shrink, Zoomed;
    var (_, h) := Shrink(srcW, srcH, dstW, dstH);
    var d := CropSize(srcW, srcH, dstW, dstH, zoom, maxZoom).1;
    ShrinkFits(srcW, srcH, dstW, dstH);
    CropSizeFits(srcW, srcH, dstW, dstH, zoom, maxZoom);
    RoundedInside(d, 2, dstH, srcH);
    OddSide(d, srcH, dstH);
    ZoomedBetween(h, zoom, zoom, maxZoom);
    Unzoomed(h, zoom, maxZoom);
  }

  /** A side is kept whole exactly without zoom, or when it is too short for a step. */
  lemma Unzoomed(c: nat, zoom: nat, maxZoom: nat)
    requires zoom <= maxZoom && 0 < maxZoom
    ensures Zoomed(c, zoom, maxZoom) == c <==> zoom == 0 || c - c / 4 < maxZoom
  {
    var step := (c - c / 4) / maxZoom;
    QuotientFits(c - c / 4, maxZoom);
    if 0 < zoom && 0 < step {
      Scaled(1, zoom, step);
      Scaled(1, step, maxZoom);
    }
  }

  /** Without zoom the width leaves the source exactly under a condition on the two sizes alone. */
  lemma CropTooWideUnzoomed(srcW: nat, srcH: nat, dstW: nat, dstH: nat, maxZoom: nat)
    requires 0 < dstH && 0 < maxZoom
    ensures CropTooWide(srcW, srcH, dstW, dstH, 0, maxZoom)
            <==> srcW % 16 >= 8 && srcW / 16 * 16 + 16 <= dstW && (srcW / 16 * 16 + 8) * dstH <= srcH * dstW
  {
    var m := srcW / 16 * 16 + 8;
    if srcW * dstH <= dstW * srcH {
      if m <= srcW {
        Scaled(m, srcW, dstH);
      }
    } else {
      QuotientFits(srcH * dstW, dstH);
      if m * dstH <= srcH * dstW {
        QuotientLargest(m, srcH * dstW, dstH);
        ScaledLess(srcH * dstW / dstH, srcW, dstH);
      } else if m <= srcH * dstW / dstH {
        Scaled(m, srcH * dstW / dstH, dstH);
      }
    }
  }

  /**
   * The window lies inside the source exactly when it is neither too wide nor too high; it always does when
   * each side of the source is aligned or not smaller than the target's.
   */
  lemma CropInside(srcW: nat, srcH: nat, dstW: nat, dstH: nat, zoom: nat, maxZoom: nat)
    requires 0 < dstW && 0 < dstH && srcW < UNSIGNED && srcH < UNSIGNED
    requires zoom <= maxZoom && 0 < maxZoom
    ensures Inside(CropRect(srcW, srcH, dstW, dstH, zoom, maxZoom), srcW, srcH)
            <==> !(CropTooWide(srcW, srcH, dstW, dstH, zoom, maxZoom)
                   || CropTooHigh(srcW, srcH, dstW, dstH, zoom, maxZoom))
    ensures (srcW % 16 == 0 || dstW <= srcW) && (srcH % 2 == 0 || dstH <= srcH)
            ==> Inside(CropRect(srcW, srcH, dstW, dstH, zoom, maxZoom), srcW, srcH)
  {
    hide CropSize, RoundTo, CropTooWide, CropTooHigh;
    CropWidthInside(srcW, srcH, dstW, dstH, zoom, maxZoom);
    CropHeightInside(srcW, srcH, dstW, dstH, zoom, maxZoom);
    AlignedSourceHolds(srcW, srcH, dstW, dstH, zoom, maxZoom);
  }

  lemma AlignedSourceHolds(srcW: nat, srcH: nat, dstW: nat, dstH: nat, zoom: nat, maxZoom: nat)
    requires 0 < dstH && 0 < maxZoom
    ensures srcW % 16 == 0 || dstW <= srcW ==> !CropTooWide(srcW, srcH, dstW, dstH, zoom, maxZoom)
    ensures srcH % 2 == 0 || dstH <= srcH ==> !CropTooHigh(srcW, srcH, dstW, dstH, zoom, maxZoom)
  {
  }

  /** A 24-wide source for a 48-wide target: the width is rounded up to 32, and the corner wraps around. */
  lemma CropCanLeaveTheSource()
    ensures CropRect(24, 24, 48, 48, 0, 1) == Rect(0x7FFF_FFFC, 0, 32, 24)
  {
    assert RoundTo(24, 16, 48) == 32;
  }

  /** Sides are multiples of 16 and of 2, and a side inside the source is centred to within a pixel; the corner of
      one that is too long is half of what the subtraction wraps around to. */
  lemma CropAligned(srcW: nat, srcH: nat, dstW: nat, dstH: nat, zoom: nat, maxZoom: nat)
    requires 0 < dstW && 0 < dstH && srcW < UNSIGNED && srcH < UNSIGNED
    requires zoom <= maxZoom && 0 < maxZoom
    ensures var r := CropRect(srcW, srcH, dstW, dstH, zoom, maxZoom);
            && r.w % 16 == 0 && r.h % 2 == 0
            && (r.w <= srcW ==> srcW - 1 <= 2 * r.x + r.w <= srcW)
            && (r.h <= srcH ==> srcH - 1 <= 2 * r.y + r.h <= srcH)
            && (srcW < r.w ==> r.x == (0x1_0000_0000 + srcW - r.w) / 2)
            && (srcH < r.h ==> r.y == (0x1_0000_0000 + srcH - r.h) / 2)
  {
    hide CropSize, RoundTo;
    CropSizeFits(srcW, srcH, dstW, dstH, zoom, maxZoom);
    var (c, d) := CropSize(srcW, srcH, dstW, dstH, zoom, maxZoom);
    RoundToIs(c, 16, dstW);
    RoundToIs(d, 2, dstH);
  }

  /** More zoom never makes the window wider or higher. */
  lemma CropShrinksWithZoom(srcW: nat, srcH: nat, dstW: nat, dstH: nat, zoom: nat, more: nat, maxZoom: nat)
    requires 0 < dstW && 0 < dstH
    requires zoom <= more <= maxZoom && 0 < maxZoom
    ensures CropRect(srcW, srcH, dstW, dstH, more, maxZoom).w <= CropRect(srcW, srcH, dstW, dstH, zoom, maxZoom).w
    ensures CropRect(srcW, srcH, dstW, dstH, more, maxZoom).h <= CropRect(srcW, srcH, dstW, dstH, zoom, maxZoom).h
  {
    hide Shrink, Zoomed, RoundTo;
    var (w, h) := Shrink(srcW, srcH, dstW, dstH);
    ZoomedBetween(w, zoom, more, maxZoom);
    ZoomedBetween(h, zoom, more, maxZoom);
    var (c, d) := CropSize(srcW, srcH, dstW, dstH, zoom, maxZoom);
    var (c', d') := CropSize(srcW, srcH, dstW, dstH, more, maxZoom);
    RoundToMonotone(c', c, 16, dstW);
    RoundToMonotone(d', d, 2, dstH);
  }

  /**
   * A window of a source of another size than the target, in numbers: of the side that the target's ratio leaves,
   * each step of zoom takes the same part of three quarters, and the rest is rounded.
   */
  lemma CropZooms(srcW: nat, srcH: nat, dstW: nat, dstH: nat, zoom: nat, maxZoom: nat, w: nat, h: nat)
    requires 0 < dstW && 0 < dstH && (srcW != dstW || srcH != dstH)
    requires zoom <= maxZoom && 0 < maxZoom
    requires w == if srcW * dstH <= dstW * srcH then srcW else srcH * dstW / dstH
    requires h == if srcW * dstH < dstW * srcH then srcW * dstH / dstW else srcH
    ensures var r := CropRect(srcW, srcH, dstW, dstH, zoom, maxZoom);
            && -16 < r.w - (w - (w - w / 4) / maxZoom * zoom) <= 8
            && -2 < r.h - (h - (h - h / 4) / maxZoom * zoom) <= 1
  {
    ShrunkTo(srcW, srcH, dstW, dstH);
    ZoomedIs(w, zoom, maxZoom);
    ZoomedIs(h, zoom, maxZoom);
    hide Shrink, Zoomed, RoundTo;
    var (c, d) := CropSize(srcW, srcH, dstW, dstH, zoom, maxZoom);
    RoundToIs(c, 16, dstW);
    RoundToIs(d, 2, dstH);
  }

  /** A source of the target's size is not zoomed, only cut down to whole steps. */
  lemma CropOfTheSameSize(srcW: nat, srcH: nat, zoom: nat, maxZoom: nat)
    requires 0 < srcW && 0 < srcH && zoom <= maxZoom && 0 < maxZoom
    ensures var r := CropRect(srcW, srcH, srcW, srcH, zoom, maxZoom);
            r.w == srcW - srcW % 16 && r.h == srcH - srcH % 2
  {
    hide Shrink, Zoomed;
    ShrinkEqual(srcW, srcH);
  }

  lemma ShrunkTo(srcW: nat, srcH: nat, dstW: nat, dstH: nat)
    requires 0 < dstW && 0 < dstH
    ensures var (w, h) := Shrink(srcW, srcH, dstW, dstH);
            && w == (if srcW * dstH <= dstW * srcH then srcW else srcH * dstW / dstH)
            && h == if srcW * dstH < dstW * srcH then srcW * dstH / dstW else srcH
  {
  }

  lemma ZoomedIs(c: nat, zoom: nat, maxZoom: nat)
    requires 0 < maxZoom
    ensures Zoomed(c, zoom, maxZoom) == c - (c - c / 4) / maxZoom * zoom
  {
  }

  /** The highest zoom leaves a quarter of the sides that the window has without zoom, up to the rounding of both
      windows and of the steps. */
  lemma CropAtTheHighestZoom(srcW: nat, srcH: nat, dstW: nat, dstH: nat, maxZoom: nat)
    requires 0 < srcW && 0 < srcH && 0 < dstW && 0 < dstH && (srcW != dstW || srcH != dstH) && 0 < maxZoom
    ensures var r := CropRect(srcW, srcH, dstW, dstH, maxZoom, maxZoom);
            var u := CropRect(srcW, srcH, dstW, dstH, 0, maxZoom);
            && u.w - 76 < 4 * r.w < u.w + 4 * maxZoom + 48
            && u.h - 13 < 4 * r.h < u.h + 4 * maxZoom + 6
  {
    hide Shrink, Zoomed, RoundTo;
    var (w, h) := Shrink(srcW, srcH, dstW, dstH);
    ZoomedNot(w, maxZoom);
    ZoomedNot(h, maxZoom);
    HighestZoom(w, maxZoom);
    HighestZoom(h, maxZoom);
    RoundToIs(w, 16, dstW);
    RoundToIs(h, 2, dstH);
    RoundToIs(Zoomed(w, maxZoom, maxZoom), 16, dstW);
    RoundToIs(Zoomed(h, maxZoom, maxZoom), 2, dstH);
  }

  lemma ScaledDifference(c: nat, w: nat, k: nat, below: int, above: int)
    requires c - below <= w <= c + above
    ensures -below * k <= w * k - c * k <= above * k
  {
    assert w * k - c * k == (w - c) * k;
  }

  /** Without zoom the window keeps the target's ratio up to the rounding of its sides. */
  lemma CropKeepsTheRatio(srcW: nat, srcH: nat, dstW: nat, dstH: nat, maxZoom: nat)
    requires 0 < srcW && 0 < srcH && 0 < dstW && 0 < dstH && 0 < maxZoom
    ensures var r := CropRect(srcW, srcH, dstW, dstH, 0, maxZoom);
            -16 * dstH - 2 * dstW < r.w * dstH - r.h * dstW < 16 * dstH + 2 * dstW
  {
    hide Shrink, Zoomed, RoundTo;
    var (w, h) := Shrink(srcW, srcH, dstW, dstH);
    ShrinkKeepsTheRatio(srcW, srcH, dstW, dstH);
    ZoomedNot(w, maxZoom);
    ZoomedNot(h, maxZoom);
    assert CropSize(srcW, srcH, dstW, dstH, 0, maxZoom) == (w, h);
    RoundToIs(w, 16, dstW);
    RoundToIs(h, 2, dstH);
    var W, H := RoundTo(w, 16, dstW), RoundTo(h, 2, dstH);
    ScaledDifference(w, W, dstH, 15, 8);
    ScaledDifference(h, H, dstW, 1, 1);
    DifferencesAdd(w * dstH, W * dstH, h * dstW, H * dstW, dstH, dstW);
  }

  lemma ShrinkKeepsTheRatio(srcW: nat, srcH: nat, dstW: nat, dstH: nat)
    requires 0 < dstW && 0 < dstH
    ensures var (w, h) := Shrink(srcW, srcH, dstW, dstH); h * dstW - dstH < w * dstH < h * dstW + dstW
  {
    hide Shrink;
    ShrinkFits(srcW, srcH, dstW, dstH);
  }

  lemma DifferencesAdd(p: int, p': int, q: int, q': int, a: int, b: int)
    requires q - a < p < q + b
    requires -15 * a <= p' - p <= 8 * a && -b <= q' - q <= b && 0 < a && 0 < b
    ensures -16 * a - 2 * b < p' - q' < 16 * a + 2 * b
  {
  }

  // -- The crop window of the picture converter -------------------------------------------------

  /** The zoom level is a whole number: one more for every ten steps of zoom. */
  function ZoomLevel(zoom: nat): (level: nat)
    ensures 0 < level
  {
    (zoom + 10) / 10
  }

  /** Like Shrink, but a smaller target of a narrower ratio is cut out at its own size. */
  function RatioCut(srcW: nat, srcH: nat, dstW: nat, dstH: nat): (size: (nat, nat))
    requires 0 < dstW && 0 < dstH
  {
    if srcW * dstH > dstW * srcH && dstW * dstH < srcW * srcH then (dstW, dstH)
    else Shrink(srcW, srcH, dstW, dstH)
  }

  /** The window before its sides are rounded. Equal ratios are not zoomed. */
  function RatioSize(srcW: nat, srcH: nat, dstW: nat, dstH: nat, zoom: nat): (size: (nat, nat))
    requires 0 < dstW && 0 < dstH
  {
    var (w, h) := RatioCut(srcW, srcH, dstW, dstH);
    if srcW * dstH == dstW * srcH then (w, h) else (w / ZoomLevel(zoom), h / ZoomLevel(zoom))
  }

  /** Half the room that is left, made even. */
  function EvenMargin(src: nat, side: nat): (x: int)
    ensures x % 2 == 0
    ensures 0 <= x <==> side <= src
    ensures src - side - 3 <= 2 * x <= src - side
  {
    var x := (src - side) / 2;
    if x % 2 != 0 then x - 1 else x
  }

  function RatioRect(srcW: nat, srcH: nat, dstW: nat, dstH: nat, zoom: nat): (r: Rect)
    requires 0 < dstW && 0 < dstH
  {
    var (c, d) := RatioSize(srcW, srcH, dstW, dstH, zoom);
    var w, h := RoundTo(c, 2, dstW), RoundTo(d, 2, dstH);
    Rect(EvenMargin(srcW, w), EvenMargin(srcH, h), w, h)
  }

  /** The first half of m_getRatioSize. */
  method CutToRatio(srcW: nat, srcH: nat, dstW: nat, dstH: nat) returns (cropW: nat, cropH: nat)
    requires 0 < srcW && 0 < srcH && 0 < dstW && 0 < dstH
    ensures (cropW, cropH) == RatioCut(srcW, srcH, dstW, dstH)
  {
    hide Shrink;
    if dstW * dstH < srcW * srcH {
      if srcW * dstH <= dstW * srcH {
        cropW, cropH := ShrinkSides(srcW, srcH, dstW, dstH);
      } else {
        Cancels(dstW, dstH);
        cropW := dstH * dstW / dstH;
        cropH := dstH;
      }
    } else {
      cropW, cropH := ShrinkSides(srcW, srcH, dstW, dstH);
    }
  }

  lemma Cancels(a: nat, b: nat)
    requires 0 < b
    ensures b * a / b == a
  {
    MultipleOf(a, b);
  }

  /** m_getRatioSize. */
  method GetRatioSize(srcW: nat, srcH: nat, dstW: nat, dstH: nat, zoom: nat)
    returns (cropX: int, cropY: int, cropW: nat, cropH: nat)
    requires 0 < srcW && 0 < srcH && 0 < dstW && 0 < dstH
    ensures Rect(cropX, cropY, cropW, cropH) == RatioRect(srcW, srcH, dstW, dstH, zoom)
  {
    hide Shrink, RatioCut, RoundTo, EvenMargin, ZoomLevel;
    cropW, cropH := srcW, srcH;
    RatioCutEqual(srcW, srcH, dstW, dstH);
    if srcW != dstW || srcH != dstH {
      if srcW * dstH != dstW * srcH {
        cropW, cropH := CutToRatio(srcW, srcH, dstW, dstH);
        cropW, cropH := ZoomLevels(cropW, cropH, zoom);
      }
    }
    assert (cropW, cropH) == RatioSize(srcW, srcH, dstW, dstH, zoom);
    cropW := Restrain(cropW, 2, dstW);
    cropH := Restrain(cropH, 2, dstH);
    cropX := EvenCorner(srcW, cropW);
    cropY := EvenCorner(srcH, cropH);
  }

  /** The zoom of m_getRatioSize. */
  method ZoomLevels(w: nat, h: nat, zoom: nat) returns (cropW: nat, cropH: nat)
    ensures cropW == w / ZoomLevel(zoom) && cropH == h / ZoomLevel(zoom)
  {
    cropW, cropH := w, h;
    if zoom != 0 {
      var zoomLevel := (zoom + 10) / 10;
      cropW := cropW / zoomLevel;
      cropH := cropH / zoomLevel;
    }
  }

  /** The corner of m_getRatioSize, as it spells it out for each side. */
  method EvenCorner(src: nat, side: nat) returns (x: int)
    ensures x == EvenMargin(src, side)
  {
    x := (src - side) / 2;
    if x % 2 != 0 {
      x := x - 1;
    }
  }

  lemma RatioCutEqual(srcW: nat, srcH: nat, dstW: nat, dstH: nat)
    requires 0 < dstW && 0 < dstH
    ensures srcW == dstW && srcH == dstH ==> srcW * dstH == dstW * srcH
    ensures srcW * dstH == dstW * srcH ==> RatioCut(srcW, srcH, dstW, dstH) == (srcW, srcH)
  {
  }

  // -- What the picture converter's window promises ---------------------------------------------

  /** The rounded width leaves the source: an odd width, kept by the cut and the zoom, has room to round up. */
  ghost predicate TooWide(srcW: nat, srcH: nat, dstW: nat, dstH: nat, zoom: nat) {
    && srcW % 2 == 1 && srcW < dstW
    && (srcW * dstH == dstW * srcH || (srcW * dstH < dstW * srcH && ZoomLevel(zoom) == 1))
  }

  /** The rounded height leaves the source: an odd height rounds up, or the target is higher and not zoomed enough. */
  ghost predicate TooHigh(srcW: nat, srcH: nat, dstW: nat, dstH: nat, zoom: nat) {
    var level := ZoomLevel(zoom);
    if srcW * dstH == dstW * srcH then
      srcH % 2 == 1 && srcH < dstH
    else if srcW * dstH < dstW * srcH then
      false
    else if dstW * dstH < srcW * srcH then
      srcH < (if level == 1 then dstH - dstH % 2 else dstH / level + dstH / level % 2)
    else
      level == 1 && srcH % 2 == 1 && srcH < dstH
  }

  lemma Divided(a: nat, k: nat)
    requires 0 < k
    ensures a / k <= a
    ensures k == 1 ==> a / k == a
    ensures 1 < k && 0 < a ==> a / k < a
  {
    QuotientFits(a, k);
    if 0 < a / k {
      Scaled(a / k, a / k, k);
      Scaled(1, k, a / k);
      if 1 < k {
        Scaled(2, k, a / k);
      }
    }
  }

  /** What becomes of one side: halved or less by any higher level, it has room to round up. */
  lemma LevelRounds(a: nat, level: nat)
    requires 0 < level
    ensures RoundTo(a / level, 2, a) == if level == 1 then a - a % 2 else a / level + a / level % 2
  {
    QuotientFits(a, level);
    if level == 1 {
    } else if 0 < a / level {
      Scaled(2, level, a / level);
    }
  }

  lemma WiderAndSmaller(srcW: nat, srcH: nat, dstW: nat, dstH: nat)
    requires 0 < dstW && 0 < dstH
    requires srcW * dstH > dstW * srcH && dstW * dstH < srcW * srcH
    ensures dstW < srcW
  {
    if srcW <= dstW {
      Scaled(srcW, dstW, srcH);
      Scaled(srcW, dstW, dstH);
    }
  }

  lemma WidthInside(srcW: nat, srcH: nat, dstW: nat, dstH: nat, zoom: nat)
    requires 0 < dstW && 0 < dstH
    ensures RoundTo(RatioSize(srcW, srcH, dstW, dstH, zoom).0, 2, dstW) <= srcW
            <==> !TooWide(srcW, srcH, dstW, dstH, zoom)
  {
    hide Shrink, ZoomLevel, RoundTo;
    var level := ZoomLevel(zoom);
    var (w, _) := RatioCut(srcW, srcH, dstW, dstH);
    ShrinkFits(srcW, srcH, dstW, dstH);
    Divided(w, level);
    var c := RatioSize(srcW, srcH, dstW, dstH, zoom).0;
    if srcW * dstH > dstW * srcH {
      if dstW * dstH < srcW * srcH {
        WiderAndSmaller(srcW, srcH, dstW, dstH);
      }
      assert c < srcW;
      RoundToIs(c, 2, dstW);
    } else {
      assert c <= srcW;
      RoundedInside(c, 2, dstW, srcW);
      OddSide(c, srcW, dstW);
    }
  }

  lemma OddSide(c: nat, src: nat, dst: nat)
    requires c <= src
    ensures RoundsOut(c, 2, dst, src) <==> src % 2 == 1 && src < dst && c == src
  {
  }

  lemma HeightInside(srcW: nat, srcH: nat, dstW: nat, dstH: nat, zoom: nat)
    requires 0 < dstW && 0 < dstH
    ensures RoundTo(RatioSize(srcW, srcH, dstW, dstH, zoom).1, 2, dstH) <= srcH
            <==> !TooHigh(srcW, srcH, dstW, dstH, zoom)
  {
    hide Shrink, ZoomLevel, RoundTo;
    var level := ZoomLevel(zoom);
    var (_, h) := RatioCut(srcW, srcH, dstW, dstH);
    ShrinkFits(srcW, srcH, dstW, dstH);
    Divided(h, level);
    var d := RatioSize(srcW, srcH, dstW, dstH, zoom).1;
    if srcW * dstH > dstW * srcH && dstW * dstH < srcW * srcH {
      LevelRounds(dstH, level);
    } else {
      assert d <= srcH;
      RoundedInside(d, 2, dstH, srcH);
      OddSide(d, srcH, dstH);
    }
  }

  /**
   * All four numbers of the window are even, and it lies inside the source exactly when it is neither too
   * wide nor too high.
   */
  lemma RatioRectInside(srcW: nat, srcH: nat, dstW: nat, dstH: nat, zoom: nat)
    requires 0 < dstW && 0 < dstH
    ensures var r := RatioRect(srcW, srcH, dstW, dstH, zoom);
            && r.w % 2 == 0 && r.h % 2 == 0 && r.x % 2 == 0 && r.y % 2 == 0
            && (Inside(r, srcW, srcH)
                <==> !TooWide(srcW, srcH, dstW, dstH, zoom) && !TooHigh(srcW, srcH, dstW, dstH, zoom))
  {
    hide RatioSize, RoundTo, TooWide, TooHigh;
    WidthInside(srcW, srcH, dstW, dstH, zoom);
    HeightInside(srcW, srcH, dstW, dstH, zoom);
    var (c, d) := RatioSize(srcW, srcH, dstW, dstH, zoom);
    RoundToIs(c, 2, dstW);
    RoundToIs(d, 2, dstH);
  }

  /** A target that fits in the source on both axes gets a window inside it, at every zoom. */
  lemma RatioRectOfAFittingTarget(srcW: nat, srcH: nat, dstW: nat, dstH: nat, zoom: nat)
    requires 0 < dstW <= srcW && 0 < dstH <= srcH
    ensures var r := RatioRect(srcW, srcH, dstW, dstH, zoom);
            Inside(r, srcW, srcH) && srcW - 3 <= 2 * r.x + r.w <= srcW && srcH - 3 <= 2 * r.y + r.h <= srcH
  {
    hide RatioSize, RoundTo;
    RatioRectInside(srcW, srcH, dstW, dstH, zoom);
    var level := ZoomLevel(zoom);
    LevelRounds(dstH, level);
    RoundToIs(dstH / level, 2, dstH);
    Divided(dstH, level);
  }

  /**
   * The window in numbers: the side that the cut leaves is divided by one more than the tens of the zoom, unless the
   * ratios are equal, and rounded to an even one; the window is centred to within three pixels.
   */
  lemma RatioRectZooms(srcW: nat, srcH: nat, dstW: nat, dstH: nat, zoom: nat, w: nat, h: nat)
    requires 0 < dstW && 0 < dstH
    requires w == if srcW * dstH <= dstW * srcH then srcW
                  else if dstW * dstH < srcW * srcH then dstW else srcH * dstW / dstH
    requires h == if srcW * dstH == dstW * srcH then srcH
                  else if srcW * dstH < dstW * srcH then srcW * dstH / dstW
                  else if dstW * dstH < srcW * srcH then dstH else srcH
    ensures var r := RatioRect(srcW, srcH, dstW, dstH, zoom);
            var level := if srcW * dstH == dstW * srcH then 1 else (zoom + 10) / 10;
            && 0 < level
            && -2 < r.w - w / level <= 1 && -2 < r.h - h / level <= 1
            && srcW - 3 <= 2 * r.x + r.w <= srcW && srcH - 3 <= 2 * r.y + r.h <= srcH
  {
    RatioCutTo(srcW, srcH, dstW, dstH);
    LevelIs(zoom);
    hide RatioCut, RoundTo, ZoomLevel;
    Divided(w, 1);
    Divided(h, 1);
    var (c, d) := RatioSize(srcW, srcH, dstW, dstH, zoom);
    RoundToIs(c, 2, dstW);
    RoundToIs(d, 2, dstH);
  }

  lemma LevelIs(zoom: nat)
    ensures ZoomLevel(zoom) == (zoom + 10) / 10
  {
  }

  lemma RatioCutTo(srcW: nat, srcH: nat, dstW: nat, dstH: nat)
    requires 0 < dstW && 0 < dstH
    ensures var (w, h) := RatioCut(srcW, srcH, dstW, dstH);
            && w == (if srcW * dstH <= dstW * srcH then srcW
                     else if dstW * dstH < srcW * srcH then dstW else srcH * dstW / dstH)
            && h == if srcW * dstH == dstW * srcH then srcH
                    else if srcW * dstH < dstW * srcH then srcW * dstH / dstW
                    else if dstW * dstH < srcW * srcH then dstH else srcH
  {
  }

  /** A wide, low source and a narrow, higher target: the window is higher than the source. */
  lemma RatioRectCanLeaveTheSource()
    ensures RatioRect(1000, 100, 100, 200, 0) == Rect(450, -50, 100, 200)
  {
  }
}
