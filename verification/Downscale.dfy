/**
 * Thumbnails and format changes by taking samples: every n-th pixel of every m-th row is kept. The loops
 * over raw buffers are methods here, and all of them take samples off a grid.
 */
module Downscale {
  import opened Arithmetic
  import opened Bytes

  // -- Samples off a grid -----------------------------------------------------------------------

  function At(s: seq<byte>, i: nat): byte {
    if i < |s| then s[i] else 0
  }

  /** One sample: the bytes at the given offsets from a position. */
  function Sample(s: seq<byte>, pos: nat, offsets: seq<nat>): (r: seq<byte>)
    ensures |r| == |offsets|
  {
    seq(|offsets|, k requires 0 <= k < |offsets| => At(s, pos + offsets[k]))
  }

  /** The first `n` samples of a row, `step` bytes apart. */
  function Row(s: seq<byte>, start: nat, step: nat, offsets: seq<nat>, n: nat): seq<byte>
  {
    if n == 0 then [] else Row(s, start, step, offsets, n - 1) + Sample(s, start + step * (n - 1), offsets)
  }

  /** The first `rows` rows of samples, `stride` bytes apart. */
  function Rows(s: seq<byte>, base: nat, stride: nat, step: nat, offsets: seq<nat>, cols: nat, rows: nat)
    : seq<byte>
  {
    if rows == 0 then []
    else
      Rows(s, base, stride, step, offsets, cols, rows - 1)
      + Row(s, base + Area(rows - 1, stride), step, offsets, cols)
  }

  lemma {:induction false} RowLength(s: seq<byte>, start: nat, step: nat, offsets: seq<nat>, n: nat)
    ensures |Row(s, start, step, offsets, n)| == Area(n, |offsets|)
  {
    if 0 < n {
      RowLength(s, start, step, offsets, n - 1);
      OneMore(n - 1, |offsets|);
    }
  }

  lemma {:induction false} RowsLength(s: seq<byte>, base: nat, stride: nat, step: nat, offsets: seq<nat>,
      cols: nat, rows: nat)
    ensures |Rows(s, base, stride, step, offsets, cols, rows)| == Area(rows, Area(cols, |offsets|))
  {
    if 0 < rows {
      hide Row;
      RowsLength(s, base, stride, step, offsets, cols, rows - 1);
      RowLength(s, base + Area(rows - 1, stride), step, offsets, cols);
      OneMore(rows - 1, Area(cols, |offsets|));
    }
  }

  /** The k-th byte of the x-th sample of a row. */
  lemma {:induction false} RowAt(s: seq<byte>, start: nat, step: nat, offsets: seq<nat>, n: nat, x: nat, k: nat)
    requires x < n && k < |offsets|
    ensures var r := Row(s, start, step, offsets, n);
            Area(x, |offsets|) + k < |r| && r[Area(x, |offsets|) + k] == At(s, start + step * x + offsets[k])
  {
    hide Area, Row, Sample, At;
    RowLength(s, start, step, offsets, n - 1);
    AreaAhead(x, n - 1, |offsets|);
    RowLast(s, start, step, offsets, n);
    if x < n - 1 {
      RowAt(s, start, step, offsets, n - 1, x, k);
    } else {
      SampleAt(s, start + step * x, offsets, k);
    }
  }

  lemma RowLast(s: seq<byte>, start: nat, step: nat, offsets: seq<nat>, n: nat)
    requires 0 < n
    ensures Row(s, start, step, offsets, n)
         == Row(s, start, step, offsets, n - 1) + Sample(s, start + step * (n - 1), offsets)
  {
  }

  lemma SampleAt(s: seq<byte>, pos: nat, offsets: seq<nat>, k: nat)
    requires k < |offsets|
    ensures Sample(s, pos, offsets)[k] == At(s, pos + offsets[k])
  {
  }

  /** The k-th byte of the x-th sample of the y-th row comes from the grid point of that row and column. */
  lemma {:induction false} RowsAt(s: seq<byte>, base: nat, stride: nat, step: nat, offsets: seq<nat>,
      cols: nat, rows: nat, y: nat, x: nat, k: nat)
    requires y < rows && x < cols && k < |offsets|
    ensures var r := Rows(s, base, stride, step, offsets, cols, rows);
            var i := Area(y, Area(cols, |offsets|)) + Area(x, |offsets|) + k;
            i < |r| && r[i] == At(s, base + Area(y, stride) + step * x + offsets[k])
  {
    hide Row, Area;
    RowAt(s, base + Area(y, stride), step, offsets, cols, x, k);
    RowLength(s, base + Area(y, stride), step, offsets, cols);
    RowsLength(s, base, stride, step, offsets, cols, rows - 1);
    AreaAhead(y, rows - 1, Area(cols, |offsets|));
    if y < rows - 1 {
      RowsAt(s, base, stride, step, offsets, cols, rows - 1, y, x, k);
    }
  }

  // -- The grid of a downscale ------------------------------------------------------------------

  /** Every so many source rows or columns one is kept. */
  function Step(src: nat, dst: nat): nat
    requires 0 < dst
  {
    src / dst
  }

  lemma StepIs(srcW: nat, srcH: nat, dstW: nat, dstH: nat)
    requires 0 < dstW && 0 < dstH
    ensures Step(srcW, dstW) == srcW / dstW && Step(srcH, dstH) == srcH / dstH
  {
  }

  /** The i-th step ends inside the source, with the last `k` columns of the target left out. */
  lemma StepFits(src: nat, dst: nat, i: nat, k: nat)
    requires 0 < dst && i + k <= dst && k <= src
    ensures i * Step(src, dst) + k <= src
  {
    var step := Step(src, dst);
    assert src == step * dst + src % dst;
    if step == 0 {
    } else {
      Scaled(i + k, dst, step);
      Scaled(1, step, k);
      assert (i + k) * step == i * step + k * step;
    }
  }

  /** Where the x-th sample of the y-th row of a downscale is, for pixels of `depth` bytes. */
  lemma GridInside(srcW: nat, srcH: nat, dstW: nat, dstH: nat, depth: nat, y: nat, x: nat, k: nat)
    requires 0 < dstW && 0 < dstH && y < dstH && x + k <= dstW && k <= srcW && 0 < srcH && 0 < k
    ensures Area(y, srcW * depth * Step(srcH, dstH)) + Step(srcW, dstW) * depth * x + k * depth
         <= Area(srcH, srcW * depth)
  {
    hide Area, Step;
    StepFits(srcH, dstH, y, 1);
    StepFits(srcW, dstW, x, k);
    var row, col := y * Step(srcH, dstH), x * Step(srcW, dstW);
    RowPosition(srcW * depth, Step(srcH, dstH), y);
    Regroup(Step(srcW, dstW), depth, x);
    GroupInside(col, k, srcW, depth);
    AreaAhead(row, srcH, srcW * depth);
  }

  lemma RowPosition(size: nat, step: nat, y: nat)
    ensures Area(y, size * step) == Area(y * step, size)
  {
    Regroup(size, step, y);
  }

  lemma GroupInside(col: nat, k: nat, width: nat, depth: nat)
    requires col + k <= width
    ensures col * depth + k * depth <= width * depth
  {
    Scaled(col + k, width, depth);
    assert (col + k) * depth == col * depth + k * depth;
  }

  lemma RowStep(s: seq<byte>, start: nat, step: nat, offsets: seq<nat>, n: nat)
    ensures Row(s, start, step, offsets, n + 1)
         == Row(s, start, step, offsets, n) + Sample(s, start + step * n, offsets)
  {
  }

  lemma RowsStep(s: seq<byte>, base: nat, stride: nat, step: nat, offsets: seq<nat>, cols: nat, rows: nat)
    ensures Rows(s, base, stride, step, offsets, cols, rows + 1)
         == Rows(s, base, stride, step, offsets, cols, rows) + Row(s, base + Area(rows, stride), step, offsets, cols)
  {
  }

  lemma NoRows(s: seq<byte>, base: nat, stride: nat, step: nat, offsets: seq<nat>, cols: nat)
    ensures Row(s, base, step, offsets, 0) == [] && Rows(s, base, stride, step, offsets, cols, 0) == []
  {
  }

  // -- Packed pictures --------------------------------------------------------------------------

  /** The two pixels of a packed picture that share their chroma: Y, Cb, Y, Cr. */
  const MACROPIXEL: seq<nat> := [0, 1, 2, 3]

  lemma MacropixelAt(s: seq<byte>, pos: nat)
    requires pos + 4 <= |s|
    ensures Sample(s, pos, MACROPIXEL) == [s[pos], s[pos + 1], s[pos + 2], s[pos + 3]]
  {
  }

  function PackedDown(s: seq<byte>, srcW: nat, srcH: nat, dstW: nat, dstH: nat): seq<byte>
    requires 0 < dstW && 0 < dstH
  {
    Rows(s, 0, srcW * 2 * Step(srcH, dstH), Step(srcW, dstW) * 2 * 2, MACROPIXEL, dstW / 2, dstH)
  }

  ghost predicate FitsAt(start: nat, step: nat, x: nat, size: nat, limit: nat) {
    start + step * x + size <= limit
  }

  /** Every group of `n` pixels, `size` bytes long, that a row's samples start at lies inside the buffer. */
  ghost predicate RowFits(start: nat, step: nat, dstW: nat, n: nat, size: nat, limit: nat) {
    forall x: nat | x + n <= dstW :: FitsAt(start, step, x, size, limit)
  }

  /** Copies one macropixel, byte by byte. */
  method CopyMacropixel(src: array<byte>, srcPos: nat, dst: array<byte>, dstPos: nat)
    requires src != dst && srcPos + 4 <= src.Length && dstPos + 4 <= dst.Length
    modifies dst
    ensures dst[..dstPos + 4] == old(dst[..dstPos]) + Sample(src[..], srcPos, MACROPIXEL)
    ensures forall i | dstPos + 4 <= i < dst.Length :: dst[i] == old(dst[i])
  {
    dst[dstPos] := src[srcPos];
    dst[dstPos + 1] := src[srcPos + 1];
    dst[dstPos + 2] := src[srcPos + 2];
    dst[dstPos + 3] := src[srcPos + 3];
    MacropixelAt(src[..], srcPos);
  }

  /** The inner loop of the packed downscales: one row of macropixels, from a given position on. */
  method PackedRow(src: array<byte>, start: nat, stepXStride: nat, dst: array<byte>, dstStart: nat, dstW: nat)
    returns (dstPos: nat)
    requires src != dst && dstW % 2 == 0 && dstStart + dstW * 2 <= dst.Length
    requires RowFits(start, stepXStride, dstW, 2, 4, src.Length)
    modifies dst
    ensures dstPos == dstStart + dstW * 2
    ensures dst[..dstPos] == old(dst[..dstStart]) + Row(src[..], start, stepXStride * 2, MACROPIXEL, dstW / 2)
    ensures forall i | dstPos <= i < dst.Length :: dst[i] == old(dst[i])
  {
    hide Row, Sample, Area;
    ghost var s := src[..];
    NoRows(s, start, 0, stepXStride * 2, MACROPIXEL, 0);
    dstPos := dstStart;
    var x := 0;
    while x < dstW
      invariant 0 <= x <= dstW && x % 2 == 0 && dstPos == dstStart + x * 2
      invariant dst[..dstPos] == old(dst[..dstStart]) + Row(s, start, stepXStride * 2, MACROPIXEL, x / 2)
      invariant forall i | dstPos <= i < dst.Length :: dst[i] == old(dst[i])
    {
      assert FitsAt(start, stepXStride, x, 4, src.Length);
      var srcPos := start + stepXStride * x;
      CopyMacropixel(src, srcPos, dst, dstPos);
      Doubled(stepXStride, x);
      RowStep(s, start, stepXStride * 2, MACROPIXEL, x / 2);
      dstPos := dstPos + 4;
      x := x + 2;
    }
  }

  /** scaleDownYuv422 of the encoder; false is ERROR_INVALID_SCALING_WIDTH_HEIGHT. */
  method ScaleDownYuv422(src: array<byte>, srcW: nat, srcH: nat, dst: array<byte>, dstW: nat, dstH: nat)
    returns (ok: bool)
    requires 2 <= srcW && 0 < srcH && 0 < dstW && 0 < dstH
    requires src != dst && Area(srcH, srcW * 2) <= src.Length && Area(dstH, dstW * 2) <= dst.Length
    modifies dst
    ensures ok <==> dstW % 2 == 0 && dstH % 2 == 0
    ensures !ok ==> dst[..] == old(dst[..])
    ensures ok ==> dst[..] == PackedDown(src[..], srcW, srcH, dstW, dstH) + old(dst[Area(dstH, dstW * 2)..])
  {
    hide Rows, Row, RowFits, Area, Step;
    if dstW % 2 == 1 || dstH % 2 == 1 {
      return false;
    }
    var stepX, stepY := srcW / dstW, srcH / dstH;
    StepIs(srcW, srcH, dstW, dstH);
    var srcWStride, stepXStride := srcW * 2, stepX * 2;
    ghost var s, groups, stride := src[..], dstW / 2, srcWStride * stepY;
    NoRows(s, 0, stride, stepXStride * 2, MACROPIXEL, groups);
    AreaAhead(0, dstH, dstW * 2);
    var dstPos := 0;
    var y := 0;
    while y < dstH
      invariant 0 <= y <= dstH && dstPos == Area(y, dstW * 2) <= dst.Length
      invariant dst[..dstPos] == Rows(s, 0, stride, stepXStride * 2, MACROPIXEL, groups, y)
      invariant forall i | dstPos <= i < dst.Length :: dst[i] == old(dst[i])
    {
      AreaAhead(y, dstH, dstW * 2);
      PackedRowInside(srcW, srcH, dstW, dstH, y, src.Length);
      var srcYStartPos := srcWStride * stepY * y;
      dstPos := PackedRow(src, srcYStartPos, stepXStride, dst, dstPos, dstW);
      RowsStep(s, 0, stride, stepXStride * 2, MACROPIXEL, groups, y);
      y := y + 1;
    }
    ok := true;
  }

  /** m_scaleDownYuv422 of the camera: the same downscale, with the row's position computed in another order. */
  method HwScaleDownYuv422(srcBuf: array<byte>, srcWidth: nat, srcHeight: nat,
      dstBuf: array<byte>, dstWidth: nat, dstHeight: nat)
    returns (ok: bool)
    requires 2 <= srcWidth && 0 < srcHeight && 0 < dstWidth && 0 < dstHeight
    requires srcBuf != dstBuf
    requires Area(srcHeight, srcWidth * 2) <= srcBuf.Length && Area(dstHeight, dstWidth * 2) <= dstBuf.Length
    modifies dstBuf
    ensures ok <==> dstWidth % 2 == 0 && dstHeight % 2 == 0
    ensures !ok ==> dstBuf[..] == old(dstBuf[..])
    ensures ok ==> dstBuf[..] == PackedDown(srcBuf[..], srcWidth, srcHeight, dstWidth, dstHeight)
                               + old(dstBuf[Area(dstHeight, dstWidth * 2)..])
  {
    hide Rows, Row, RowFits, Area, Step;
    if dstWidth % 2 != 0 || dstHeight % 2 != 0 {
      return false;
    }
    var stepX, stepY := srcWidth / dstWidth, srcHeight / dstHeight;
    StepIs(srcWidth, srcHeight, dstWidth, dstHeight);
    ghost var s, groups, stride := srcBuf[..], dstWidth / 2, srcWidth * 2 * stepY;
    NoRows(s, 0, stride, stepX * 2 * 2, MACROPIXEL, groups);
    AreaAhead(0, dstHeight, dstWidth * 2);
    var dstPos := 0;
    var y := 0;
    while y < dstHeight
      invariant 0 <= y <= dstHeight && dstPos == Area(y, dstWidth * 2) <= dstBuf.Length
      invariant dstBuf[..dstPos] == Rows(s, 0, stride, stepX * 2 * 2, MACROPIXEL, groups, y)
      invariant forall i | dstPos <= i < dstBuf.Length :: dstBuf[i] == old(dstBuf[i])
    {
      AreaAhead(y, dstHeight, dstWidth * 2);
      PackedRowInside(srcWidth, srcHeight, dstWidth, dstHeight, y, srcBuf.Length);
      var srcYStartPos := y * stepY * (srcWidth * 2);
      dstPos := PackedRow(srcBuf, srcYStartPos, stepX * 2, dstBuf, dstPos, dstWidth);
      RowsStep(s, 0, stride, stepX * 2 * 2, MACROPIXEL, groups, y);
      y := y + 1;
    }
    ok := true;
  }

  /** Both orders of computing the row's position name the grid's row, and the row lies inside the source. */
  lemma PackedRowInside(srcW: nat, srcH: nat, dstW: nat, dstH: nat, y: nat, limit: nat)
    requires 2 <= srcW && 0 < srcH && 0 < dstW && 0 < dstH && y < dstH && Area(srcH, srcW * 2) <= limit
    ensures RowFits(Area(y, srcW * 2 * Step(srcH, dstH)), Step(srcW, dstW) * 2, dstW, 2, 4, limit)
    ensures srcW * 2 * Step(srcH, dstH) * y == y * Step(srcH, dstH) * (srcW * 2) == Area(y, srcW * 2 * Step(srcH, dstH))
  {
    Regroup(srcW * 2, Step(srcH, dstH), y);
    forall x: nat | x + 2 <= dstW
      ensures FitsAt(Area(y, srcW * 2 * Step(srcH, dstH)), Step(srcW, dstW) * 2, x, 4, limit)
    {
      GridInside(srcW, srcH, dstW, dstH, 2, y, x, 2);
    }
  }

  lemma Doubled(step: nat, x: nat)
    requires x % 2 == 0
    ensures step * x == step * 2 * (x / 2)
  {
    var half := x / 2;
    assert x == 2 * half;
  }

  // -- Pictures in two planes -------------------------------------------------------------------

  const LUMA: seq<nat> := [0]
  const CHROMA: seq<nat> := [0, 1]

  function LumaDown(s: seq<byte>, srcW: nat, srcH: nat, dstW: nat, dstH: nat): seq<byte>
    requires 0 < dstW && 0 < dstH
  {
    Rows(s, 0, srcW * Step(srcH, dstH), Step(srcW, dstW), LUMA, dstW, dstH)
  }

  /** The chroma plane starts at `base`. */
  function ChromaDown(s: seq<byte>, base: nat, srcW: nat, srcH: nat, dstW: nat, dstH: nat): seq<byte>
    requires 0 < dstW && 0 < dstH
  {
    Rows(s, base, srcW * Step(srcH, dstH), Step(srcW, dstW) * 2, CHROMA, dstW / 2, dstH)
  }

  lemma LumaAt(s: seq<byte>, pos: nat)
    requires pos < |s|
    ensures Sample(s, pos, LUMA) == [s[pos]]
  {
  }

  lemma ChromaAt(s: seq<byte>, pos: nat)
    requires pos + 2 <= |s|
    ensures Sample(s, pos, CHROMA) == [s[pos], s[pos + 1]]
  {
  }

  /** The rows of a downscaled plane lie inside it. */
  lemma PlaneRowInside(base: nat, srcW: nat, srcH: nat, dstW: nat, dstH: nat, y: nat, n: nat, limit: nat)
    requires 0 < n <= srcW && 0 < srcH && 0 < dstW && 0 < dstH && y < dstH && base + Area(srcH, srcW) <= limit
    ensures RowFits(base + Area(y, srcW * Step(srcH, dstH)), Step(srcW, dstW), dstW, n, n, limit)
    ensures y * Step(srcH, dstH) * srcW == Area(y, srcW * Step(srcH, dstH))
  {
    Regroup(srcW, Step(srcH, dstH), y);
    var start := base + Area(y, srcW * Step(srcH, dstH));
    forall x: nat | x + n <= dstW
      ensures FitsAt(start, Step(srcW, dstW), x, n, limit)
    {
      GridInside(srcW, srcH, dstW, dstH, 1, y, x, n);
    }
  }

  method LumaRow(src: array<byte>, start: nat, stepX: nat, dst: array<byte>, dstStart: nat, dstW: nat)
    returns (dstPos: nat)
    requires src != dst && dstStart + dstW <= dst.Length
    requires RowFits(start, stepX, dstW, 1, 1, src.Length)
    modifies dst
    ensures dstPos == dstStart + dstW
    ensures dst[..dstPos] == old(dst[..dstStart]) + Row(src[..], start, stepX, LUMA, dstW)
    ensures forall i | dstPos <= i < dst.Length :: dst[i] == old(dst[i])
  {
    hide Row, Sample, Area;
    ghost var s := src[..];
    NoRows(s, start, 0, stepX, LUMA, 0);
    dstPos := dstStart;
    var x := 0;
    while x < dstW
      invariant 0 <= x <= dstW && dstPos == dstStart + x
      invariant dst[..dstPos] == old(dst[..dstStart]) + Row(s, start, stepX, LUMA, x)
      invariant forall i | dstPos <= i < dst.Length :: dst[i] == old(dst[i])
    {
      assert FitsAt(start, stepX, x, 1, src.Length);
      var srcPos := start + x * stepX;
      LumaAt(s, srcPos);
      RowStep(s, start, stepX, LUMA, x);
      CopyByte(src, srcPos, dst, dstPos);
      dstPos := dstPos + 1;
      x := x + 1;
    }
  }

  method CopyByte(src: array<byte>, srcPos: nat, dst: array<byte>, dstPos: nat)
    requires src != dst && srcPos < src.Length && dstPos < dst.Length
    modifies dst
    ensures dst[..dstPos + 1] == old(dst[..dstPos]) + [src[srcPos]]
    ensures forall i | dstPos + 1 <= i < dst.Length :: dst[i] == old(dst[i])
  {
    dst[dstPos] := src[srcPos];
  }

  method ChromaRow(src: array<byte>, start: nat, stepX: nat, dst: array<byte>, dstStart: nat, dstW: nat)
    returns (dstPos: nat)
    requires src != dst && dstW % 2 == 0 && dstStart + dstW <= dst.Length
    requires RowFits(start, stepX, dstW, 2, 2, src.Length)
    modifies dst
    ensures dstPos == dstStart + dstW
    ensures dst[..dstPos] == old(dst[..dstStart]) + Row(src[..], start, stepX * 2, CHROMA, dstW / 2)
    ensures forall i | dstPos <= i < dst.Length :: dst[i] == old(dst[i])
  {
    hide Row, Sample, Area;
    ghost var s := src[..];
    NoRows(s, start, 0, stepX * 2, CHROMA, 0);
    dstPos := dstStart;
    var j := 0;
    while j < dstW
      invariant 0 <= j <= dstW && j % 2 == 0 && dstPos == dstStart + j
      invariant dst[..dstPos] == old(dst[..dstStart]) + Row(s, start, stepX * 2, CHROMA, j / 2)
      invariant forall i | dstPos <= i < dst.Length :: dst[i] == old(dst[i])
    {
      assert FitsAt(start, stepX, j, 2, src.Length);
      var srcPos := start + j * stepX;
      Doubled(stepX, j);
      RowStep(s, start, stepX * 2, CHROMA, j / 2);
      CopyPair(src, srcPos, 0, 1, dst, dstPos);
      ChromaAt(s, srcPos);
      dstPos := dstPos + 2;
      j := j + 2;
    }
  }

  /** Copies the two bytes at the given offsets from a position. */
  method CopyPair(src: array<byte>, srcPos: nat, first: nat, second: nat, dst: array<byte>, dstPos: nat)
    requires src != dst && srcPos + first < src.Length && srcPos + second < src.Length && dstPos + 2 <= dst.Length
    modifies dst
    ensures dst[..dstPos + 2] == old(dst[..dstPos]) + [src[srcPos + first], src[srcPos + second]]
    ensures forall i | dstPos + 2 <= i < dst.Length :: dst[i] == old(dst[i])
  {
    dst[dstPos] := src[srcPos + first];
    dst[dstPos + 1] := src[srcPos + second];
  }

  /** The luma loops of scaleDownYuv422_2p. */
  method LumaPlane(src: array<byte>, srcW: nat, srcH: nat, dst: array<byte>, dstW: nat, dstH: nat)
    returns (dstPos: nat)
    requires 0 < srcW && 0 < srcH && 0 < dstW && 0 < dstH
    requires src != dst && Area(srcH, srcW) <= src.Length && Area(dstH, dstW) <= dst.Length
    modifies dst
    ensures dstPos == Area(dstH, dstW)
    ensures dst[..] == LumaDown(src[..], srcW, srcH, dstW, dstH) + old(dst[dstPos..])
  {
    hide Rows, Row, RowFits, Area, Step;
    var stepX, stepY := srcW / dstW, srcH / dstH;
    StepIs(srcW, srcH, dstW, dstH);
    ghost var s, stride := src[..], srcW * stepY;
    NoRows(s, 0, stride, stepX, LUMA, dstW);
    AreaAhead(0, dstH, dstW);
    dstPos := 0;
    var y := 0;
    while y < dstH
      invariant 0 <= y <= dstH && dstPos == Area(y, dstW) <= dst.Length
      invariant dst[..dstPos] == Rows(s, 0, stride, stepX, LUMA, dstW, y)
      invariant forall i | dstPos <= i < dst.Length :: dst[i] == old(dst[i])
    {
      AreaAhead(y, dstH, dstW);
      PlaneRowInside(0, srcW, srcH, dstW, dstH, y, 1, src.Length);
      var srcYStartPos := y * stepY * srcW;
      dstPos := LumaRow(src, srcYStartPos, stepX, dst, dstPos, dstW);
      RowsStep(s, 0, stride, stepX, LUMA, dstW, y);
      y := y + 1;
    }
  }

  /** The chroma loops of scaleDownYuv422_2p, from a given place in the source to a given place in the target. */
  method ChromaPlane(src: array<byte>, base: nat, srcW: nat, srcH: nat,
      dst: array<byte>, dstStart: nat, dstW: nat, dstH: nat)
    requires 2 <= srcW && 0 < srcH && 0 < dstW && 0 < dstH && dstW % 2 == 0
    requires src != dst && base + Area(srcH, srcW) <= src.Length && dstStart + Area(dstH, dstW) <= dst.Length
    modifies dst
    ensures dst[..] == old(dst[..dstStart]) + ChromaDown(src[..], base, srcW, srcH, dstW, dstH)
                     + old(dst[dstStart + Area(dstH, dstW)..])
  {
    hide Rows, Row, RowFits, Area, Step;
    var stepX, stepY := srcW / dstW, srcH / dstH;
    StepIs(srcW, srcH, dstW, dstH);
    ghost var s, stride := src[..], srcW * stepY;
    NoRows(s, base, stride, stepX * 2, CHROMA, dstW / 2);
    AreaAhead(0, dstH, dstW);
    var dstPos := dstStart;
    var i := 0;
    while i < dstH
      invariant 0 <= i <= dstH && dstPos == dstStart + Area(i, dstW) <= dst.Length
      invariant dst[..dstPos] == old(dst[..dstStart]) + Rows(s, base, stride, stepX * 2, CHROMA, dstW / 2, i)
      invariant forall i | dstPos <= i < dst.Length :: dst[i] == old(dst[i])
    {
      AreaAhead(i, dstH, dstW);
      PlaneRowInside(base, srcW, srcH, dstW, dstH, i, 2, src.Length);
      var srcYStartPos := i * stepY * srcW + base;
      dstPos := ChromaRow(src, srcYStartPos, stepX, dst, dstPos, dstW);
      RowsStep(s, base, stride, stepX * 2, CHROMA, dstW / 2, i);
      i := i + 1;
    }
  }

  /** scaleDownYuv422_2p of libcamera: each plane has a buffer of its own. */
  method ScaleDownYuv422TwoBuffers(srcY: array<byte>, srcUV: array<byte>, srcW: nat, srcH: nat,
      dstY: array<byte>, dstUV: array<byte>, dstW: nat, dstH: nat)
    returns (ok: bool)
    requires 2 <= srcW && 0 < srcH && 0 < dstW && 0 < dstH
    requires dstY != dstUV && dstY != srcY && dstY != srcUV && dstUV != srcY && dstUV != srcUV
    requires Area(srcH, srcW) <= srcY.Length && Area(srcH, srcW) <= srcUV.Length
    requires Area(dstH, dstW) <= dstY.Length && Area(dstH, dstW) <= dstUV.Length
    modifies dstY, dstUV
    ensures ok <==> dstW % 2 == 0 && dstH % 2 == 0
    ensures !ok ==> dstY[..] == old(dstY[..]) && dstUV[..] == old(dstUV[..])
    ensures ok ==> dstY[..] == LumaDown(srcY[..], srcW, srcH, dstW, dstH) + old(dstY[Area(dstH, dstW)..])
    ensures ok ==> dstUV[..] == ChromaDown(srcUV[..], 0, srcW, srcH, dstW, dstH) + old(dstUV[Area(dstH, dstW)..])
  {
    hide LumaDown, ChromaDown, Area;
    if dstW % 2 != 0 || dstH % 2 != 0 {
      return false;
    }
    var _ := LumaPlane(srcY, srcW, srcH, dstY, dstW, dstH);
    ChromaPlane(srcUV, 0, srcW, srcH, dstUV, 0, dstW, dstH);
    ok := true;
  }

  /** scaleDownYuv422_2p of libcamera2: the planes follow each other in one buffer. */
  method ScaleDownYuv422OneBuffer(src: array<byte>, srcW: nat, srcH: nat, dst: array<byte>, dstW: nat, dstH: nat)
    returns (ok: bool)
    requires 2 <= srcW && 0 < srcH && 0 < dstW && 0 < dstH
    requires src != dst
    requires Area(srcH, srcW) + Area(srcH, srcW) <= src.Length
    requires Area(dstH, dstW) + Area(dstH, dstW) <= dst.Length
    modifies dst
    ensures ok <==> dstW % 2 == 0 && dstH % 2 == 0
    ensures !ok ==> dst[..] == old(dst[..])
    ensures ok ==> dst[..] == LumaDown(src[..], srcW, srcH, dstW, dstH)
                            + ChromaDown(src[..], Area(srcH, srcW), srcW, srcH, dstW, dstH)
                            + old(dst[Area(dstH, dstW) + Area(dstH, dstW)..])
  {
    hide LumaDown, ChromaDown;
    if dstW % 2 != 0 || dstH % 2 != 0 {
      return false;
    }
    var dstPos := LumaPlane(src, srcW, srcH, dst, dstW, dstH);
    var offset := srcW * srcH;
    ChromaPlane(src, offset, srcW, srcH, dst, dstPos, dstW, dstH);
    LumaDownLength(src[..], srcW, srcH, dstW, dstH);
    ok := true;
  }

  lemma LumaDownLength(s: seq<byte>, srcW: nat, srcH: nat, dstW: nat, dstH: nat)
    requires 0 < dstW && 0 < dstH
    ensures |LumaDown(s, srcW, srcH, dstW, dstH)| == Area(dstH, dstW)
  {
    RowsLength(s, 0, srcW * Step(srcH, dstH), Step(srcW, dstW), LUMA, dstW, dstH);
  }

  // -- What the samples are ---------------------------------------------------------------------

  /** The row or column of the source that a row or column of the target is taken from. */
  function SourceOf(i: nat, src: nat, dst: nat): nat
    requires 0 < dst
  {
    Area(i, Step(src, dst))
  }

  lemma GridPosition(rowBytes: nat, stepY: nat, stepX: nat, size: nat, y: nat, g: nat)
    ensures Area(y, rowBytes * stepY) + stepX * size * g == Area(Area(y, stepY), rowBytes) + Area(Area(g, stepX), size)
  {
    Regroup(rowBytes, stepY, y);
    Regroup(stepX, size, g);
  }

  lemma SampleSame(r: seq<byte>, from: nat, s: seq<byte>, to: nat, offsets: seq<nat>)
    requires forall i | 0 <= i < |offsets| :: At(r, from + offsets[i]) == At(s, to + offsets[i])
    ensures Sample(r, from, offsets) == Sample(s, to, offsets)
  {
  }

  /** A sample of whole pixels is the sample at the row and column that many steps into the source. */
  lemma GridIs(s: seq<byte>, rowBytes: nat, stepY: nat, stepX: nat, offsets: seq<nat>,
      cols: nat, rows: nat, y: nat, g: nat)
    requires y < rows && g < cols
    requires forall k | 0 <= k < |offsets| :: offsets[k] == k
    ensures Sample(Rows(s, 0, rowBytes * stepY, stepX * |offsets|, offsets, cols, rows),
                   Area(y, Area(cols, |offsets|)) + Area(g, |offsets|), offsets)
         == Sample(s, Area(Area(y, stepY), rowBytes) + Area(Area(g, stepX), |offsets|), offsets)
  {
    hide Rows, Area, At, Sample;
    var r := Rows(s, 0, rowBytes * stepY, stepX * |offsets|, offsets, cols, rows);
    GridPosition(rowBytes, stepY, stepX, |offsets|, y, g);
    var from := Area(y, Area(cols, |offsets|)) + Area(g, |offsets|);
    var to := Area(Area(y, stepY), rowBytes) + Area(Area(g, stepX), |offsets|);
    forall i | 0 <= i < |offsets|
      ensures At(r, from + offsets[i]) == At(s, to + offsets[i])
    {
      RowsAt(s, 0, rowBytes * stepY, stepX * |offsets|, offsets, cols, rows, y, g, i);
      InBounds(r, from + i);
    }
    SampleSame(r, from, s, to, offsets);
  }

  lemma InBounds(s: seq<byte>, i: nat)
    requires i < |s|
    ensures At(s, i) == s[i]
  {
  }

  /** The macropixel of a row and a column of macropixels of a packed picture. */
  function Macropixel(s: seq<byte>, w: nat, row: nat, col: nat): (r: seq<byte>)
    ensures |r| == 4
  {
    Sample(s, Area(row, w * 2) + Area(col, 4), MACROPIXEL)
  }

  function LumaPixel(s: seq<byte>, w: nat, row: nat, col: nat): (r: seq<byte>)
    ensures |r| == 1
  {
    Sample(s, Area(row, w) + Area(col, 1), LUMA)
  }

  lemma SourceInside(i: nat, src: nat, dst: nat)
    requires i < dst && 0 < src
    ensures SourceOf(i, src, dst) < src
    ensures 2 <= src && i < dst / 2 ==> SourceOf(i, src, dst) < src / 2
  {
    StepFits(src, dst, i, 1);
    if 2 <= src && i < dst / 2 {
      StepFits(src, dst, 2 * i, 2);
      assert 2 * i * Step(src, dst) == 2 * (i * Step(src, dst));
    }
  }

  lemma PackedDownGrid(s: seq<byte>, srcW: nat, srcH: nat, dstW: nat, dstH: nat, y: nat, g: nat)
    requires 2 <= srcW && 0 < srcH && 0 < dstW && 0 < dstH && dstW % 2 == 0
    requires y < dstH && g < dstW / 2
    ensures |PackedDown(s, srcW, srcH, dstW, dstH)| == Area(dstH, dstW * 2)
    ensures SourceOf(y, srcH, dstH) < srcH && SourceOf(g, srcW, dstW) < srcW / 2
    ensures Macropixel(PackedDown(s, srcW, srcH, dstW, dstH), dstW, y, g)
         == Macropixel(s, srcW, SourceOf(y, srcH, dstH), SourceOf(g, srcW, dstW))
  {
    SourceInside(y, srcH, dstH);
    SourceInside(g, srcW, dstW);
    HalfRow(dstW, Step(srcW, dstW));
    hide Rows, Area, Step;
    RowsLength(s, 0, srcW * 2 * Step(srcH, dstH), Step(srcW, dstW) * 2 * 2, MACROPIXEL, dstW / 2, dstH);
    GridIs(s, srcW * 2, Step(srcH, dstH), Step(srcW, dstW), MACROPIXEL, dstW / 2, dstH, y, g);
  }

  lemma HalfRow(dstW: nat, step: nat)
    requires dstW % 2 == 0
    ensures Area(dstW / 2, 4) == dstW * 2 && Area(dstW / 2, 2) == dstW && Area(dstW, 1) == dstW
    ensures step * 2 * 2 == step * 4
  {
  }

  lemma LumaDownGrid(s: seq<byte>, srcW: nat, srcH: nat, dstW: nat, dstH: nat, y: nat, x: nat)
    requires 0 < srcW && 0 < srcH && 0 < dstW && 0 < dstH
    requires y < dstH && x < dstW
    ensures SourceOf(y, srcH, dstH) < srcH && SourceOf(x, srcW, dstW) < srcW
    ensures LumaPixel(LumaDown(s, srcW, srcH, dstW, dstH), dstW, y, x)
         == LumaPixel(s, srcW, SourceOf(y, srcH, dstH), SourceOf(x, srcW, dstW))
  {
    SourceInside(y, srcH, dstH);
    SourceInside(x, srcW, dstW);
    assert Area(dstW, 1) == dstW;
    hide Rows, Area, Sample, Step;
    GridIs(s, srcW, Step(srcH, dstH), Step(srcW, dstW), LUMA, dstW, dstH, y, x);
  }

  lemma ChromaDownGrid(s: seq<byte>, base: nat, srcW: nat, srcH: nat, dstW: nat, dstH: nat, y: nat, g: nat, k: nat)
    requires 2 <= srcW && 0 < srcH && 0 < dstW && 0 < dstH && dstW % 2 == 0
    requires y < dstH && g < dstW / 2 && k < 2
    ensures |ChromaDown(s, base, srcW, srcH, dstW, dstH)| == Area(dstH, dstW)
    ensures SourceOf(y, srcH, dstH) < srcH && SourceOf(g, srcW, dstW) < srcW / 2
    ensures Area(y, dstW) + Area(g, 2) + k < Area(dstH, dstW)
    ensures ChromaDown(s, base, srcW, srcH, dstW, dstH)[Area(y, dstW) + Area(g, 2) + k]
         == At(s, base + Area(SourceOf(y, srcH, dstH), srcW) + Area(SourceOf(g, srcW, dstW), 2) + k)
  {
    SourceInside(y, srcH, dstH);
    SourceInside(g, srcW, dstW);
    HalfRow(dstW, 0);
    hide Rows, Area, Sample, Step, At;
    RowsLength(s, base, srcW * Step(srcH, dstH), Step(srcW, dstW) * 2, CHROMA, dstW / 2, dstH);
    RowsAt(s, base, srcW * Step(srcH, dstH), Step(srcW, dstW) * 2, CHROMA, dstW / 2, dstH, y, g, k);
    GridPosition(srcW, Step(srcH, dstH), Step(srcW, dstW), 2, y, g);
  }

  // -- The same, byte by byte -------------------------------------------------------------------

  /** The bytes of the macropixels of a picture. */
  lemma MacropixelByte(t: seq<byte>, w: nat, rows: nat, row: nat, col: nat, k: nat)
    requires row < rows && col < w / 2 && k < 4 && rows * (w * 2) <= |t|
    ensures row * (w * 2) + 4 * col + k < |t|
    ensures Macropixel(t, w, row, col)[k] == t[row * (w * 2) + 4 * col + k]
  {
    AreaAhead(row, rows, w * 2);
    assert Area(col, 4) == 4 * col && Area(row, w * 2) == row * (w * 2) && Area(rows, w * 2) == rows * (w * 2);
    hide Area;
    InBounds(t, row * (w * 2) + 4 * col + k);
  }

  lemma RowByte(w: nat, rows: nat, row: nat, col: nat)
    requires row < rows && col < w
    ensures row * w + col < rows * w
    ensures Area(row, w) == row * w && Area(rows, w) == rows * w
  {
    AreaAhead(row, rows, w);
  }

  /**
   * Every macropixel of the packed downscale is one whole macropixel inside the source, every fixed number
   * of rows and of macropixels, and the output holds nothing else.
   */
  lemma PackedDownIs(s: seq<byte>, srcW: nat, srcH: nat, dstW: nat, dstH: nat, y: nat, g: nat, k: nat,
      at: nat, from: nat)
    requires 2 <= srcW && 0 < srcH && 0 < dstW && 0 < dstH && dstW % 2 == 0 && srcH * (srcW * 2) <= |s|
    requires y < dstH && g < dstW / 2 && k < 4
    requires at == y * (dstW * 2) + 4 * g + k
    requires from == y * (srcH / dstH) * (srcW * 2) + 4 * (g * (srcW / dstW)) + k
    ensures |PackedDown(s, srcW, srcH, dstW, dstH)| == dstH * (dstW * 2)
    ensures y * (srcH / dstH) < srcH && g * (srcW / dstW) < srcW / 2
    ensures at < |PackedDown(s, srcW, srcH, dstW, dstH)| && from < |s|
    ensures PackedDown(s, srcW, srcH, dstW, dstH)[at] == s[from]
  {
    PackedDownGrid(s, srcW, srcH, dstW, dstH, y, g);
    SourceIs(y, srcH, dstH);
    SourceIs(g, srcW, dstW);
    assert Area(dstH, dstW * 2) == dstH * (dstW * 2);
    hide PackedDown, SourceOf, Macropixel, Area;
    MacropixelByte(PackedDown(s, srcW, srcH, dstW, dstH), dstW, dstH, y, g, k);
    MacropixelByte(s, srcW, srcH, SourceOf(y, srcH, dstH), SourceOf(g, srcW, dstW), k);
  }

  lemma SourceIs(i: nat, src: nat, dst: nat)
    requires 0 < dst
    ensures SourceOf(i, src, dst) == i * (src / dst)
  {
  }

  /** Every luma sample of the planar downscale is the source's, every fixed number of rows and columns. */
  lemma LumaDownIs(s: seq<byte>, srcW: nat, srcH: nat, dstW: nat, dstH: nat, y: nat, x: nat, at: nat, from: nat)
    requires 0 < srcW && 0 < srcH && 0 < dstW && 0 < dstH && srcH * srcW <= |s|
    requires y < dstH && x < dstW
    requires at == y * dstW + x && from == y * (srcH / dstH) * srcW + x * (srcW / dstW)
    ensures |LumaDown(s, srcW, srcH, dstW, dstH)| == dstH * dstW
    ensures y * (srcH / dstH) < srcH && x * (srcW / dstW) < srcW
    ensures at < |LumaDown(s, srcW, srcH, dstW, dstH)| && from < |s|
    ensures LumaDown(s, srcW, srcH, dstW, dstH)[at] == s[from]
  {
    LumaDownGrid(s, srcW, srcH, dstW, dstH, y, x);
    LumaDownLength(s, srcW, srcH, dstW, dstH);
    SourceIs(y, srcH, dstH);
    SourceIs(x, srcW, dstW);
    hide LumaDown, SourceOf, LumaPixel, Area;
    RowByte(dstW, dstH, y, x);
    RowByte(srcW, srcH, SourceOf(y, srcH, dstH), SourceOf(x, srcW, dstW));
    LumaByte(LumaDown(s, srcW, srcH, dstW, dstH), dstW, y, x);
    LumaByte(s, srcW, SourceOf(y, srcH, dstH), SourceOf(x, srcW, dstW));
  }

  lemma LumaByte(t: seq<byte>, w: nat, row: nat, col: nat)
    requires row * w + col < |t|
    ensures LumaPixel(t, w, row, col)[0] == t[row * w + col]
  {
    assert Area(row, w) == row * w && Area(col, 1) == col;
    hide Area;
    InBounds(t, row * w + col);
  }

  /** Every chroma pair of the planar downscale is one whole pair of the source's, behind `base`. */
  lemma ChromaDownIs(s: seq<byte>, base: nat, srcW: nat, srcH: nat, dstW: nat, dstH: nat, y: nat, g: nat, k: nat,
      at: nat, from: nat)
    requires 2 <= srcW && 0 < srcH && 0 < dstW && 0 < dstH && dstW % 2 == 0 && base + srcH * srcW <= |s|
    requires y < dstH && g < dstW / 2 && k < 2
    requires at == y * dstW + 2 * g + k
    requires from == base + y * (srcH / dstH) * srcW + 2 * (g * (srcW / dstW)) + k
    ensures |ChromaDown(s, base, srcW, srcH, dstW, dstH)| == dstH * dstW
    ensures y * (srcH / dstH) < srcH && g * (srcW / dstW) < srcW / 2
    ensures at < |ChromaDown(s, base, srcW, srcH, dstW, dstH)| && from < |s|
    ensures ChromaDown(s, base, srcW, srcH, dstW, dstH)[at] == s[from]
  {
    ChromaDownGrid(s, base, srcW, srcH, dstW, dstH, y, g, k);
    SourceIs(y, srcH, dstH);
    SourceIs(g, srcW, dstW);
    var row, col := SourceOf(y, srcH, dstH), SourceOf(g, srcW, dstW);
    assert Area(g, 2) == 2 * g && Area(col, 2) == 2 * col;
    hide ChromaDown, SourceOf, Area;
    RowByte(dstW, dstH, y, 2 * g + k);
    RowByte(srcW, srcH, row, 2 * col + k);
    InBounds(s, base + row * srcW + 2 * col + k);
  }

  /** The samples span the source: what is left of it behind the last one is less than a sample a target row or
      column, and nothing when the target divides it. */
  lemma SamplesSpan(i: nat, src: nat, dst: nat)
    requires 0 < dst && i <= dst
    ensures src - dst < SourceOf(dst, src, dst) <= src
    ensures src % dst == 0 ==> SourceOf(i, src, dst) * dst == i * src
  {
    QuotientFits(src, dst);
    if src % dst == 0 {
      var step := src / dst;
      assert src == step * dst;
      Regroup(i, step, dst);
    }
  }

  // -- One buffer or two ------------------------------------------------------------------------

  lemma {:induction false} RowBefore(a: seq<byte>, b: seq<byte>, start: nat, step: nat, n: nat)
    requires RowFits(start, step, n, 1, 1, |a|)
    ensures Row(a + b, start, step, LUMA, n) == Row(a, start, step, LUMA, n)
  {
    if 0 < n {
      assert FitsAt(start, step, n - 1, 1, |a|);
      RowBefore(a, b, start, step, n - 1);
    }
  }

  lemma {:induction false} RowsBefore(a: seq<byte>, b: seq<byte>, srcW: nat, srcH: nat, dstW: nat, dstH: nat, rows: nat)
    requires 0 < srcW && 0 < srcH && 0 < dstW && rows <= dstH && 0 < dstH && Area(srcH, srcW) <= |a|
    ensures Rows(a + b, 0, srcW * Step(srcH, dstH), Step(srcW, dstW), LUMA, dstW, rows)
         == Rows(a, 0, srcW * Step(srcH, dstH), Step(srcW, dstW), LUMA, dstW, rows)
  {
    hide Row, RowFits, Area, Step;
    if 0 < rows {
      RowsBefore(a, b, srcW, srcH, dstW, dstH, rows - 1);
      PlaneRowInside(0, srcW, srcH, dstW, dstH, rows - 1, 1, |a|);
      RowBefore(a, b, Area(rows - 1, srcW * Step(srcH, dstH)), Step(srcW, dstW), dstW);
    }
  }

  lemma {:induction false} RowAfter(a: seq<byte>, b: seq<byte>, start: nat, step: nat, offsets: seq<nat>, n: nat)
    ensures Row(a + b, |a| + start, step, offsets, n) == Row(b, start, step, offsets, n)
  {
    if 0 < n {
      RowAfter(a, b, start, step, offsets, n - 1);
    }
  }

  lemma {:induction false} RowsAfter(a: seq<byte>, b: seq<byte>, stride: nat, step: nat, offsets: seq<nat>,
      cols: nat, rows: nat)
    ensures Rows(a + b, |a|, stride, step, offsets, cols, rows) == Rows(b, 0, stride, step, offsets, cols, rows)
  {
    hide Row, Area;
    if 0 < rows {
      RowsAfter(a, b, stride, step, offsets, cols, rows - 1);
      RowAfter(a, b, Area(rows - 1, stride), step, offsets, cols);
    }
  }

  /** On planes that follow each other, the one-buffer downscale is the two-buffer one, output after output. */
  lemma OneBufferAgrees(planeY: seq<byte>, planeUV: seq<byte>, srcW: nat, srcH: nat, dstW: nat, dstH: nat)
    requires 0 < srcW && 0 < srcH && 0 < dstW && 0 < dstH
    requires |planeY| == Area(srcH, srcW)
    ensures LumaDown(planeY + planeUV, srcW, srcH, dstW, dstH)
          + ChromaDown(planeY + planeUV, Area(srcH, srcW), srcW, srcH, dstW, dstH)
         == LumaDown(planeY, srcW, srcH, dstW, dstH) + ChromaDown(planeUV, 0, srcW, srcH, dstW, dstH)
  {
    hide Rows, Area, Step;
    RowsBefore(planeY, planeUV, srcW, srcH, dstW, dstH, dstH);
    RowsAfter(planeY, planeUV, srcW * Step(srcH, dstH), Step(srcW, dstW) * 2, CHROMA, dstW / 2, dstH);
  }

  // -- From packed to semi-planar ---------------------------------------------------------------

  /** The chroma of an NV21 picture: Cr before Cb, taken from a macropixel. */
  const CR_CB: seq<nat> := [3, 1]

  /** The chroma samples along a side of an odd length too. */
  function Half(n: nat): nat {
    (n + 1) / 2
  }

  function Nv21Chroma(s: seq<byte>, w: nat, h: nat): seq<byte> {
    Rows(s, 0, w * 4, 4, CR_CB, Half(w), Half(h))
  }

  /** Every luma byte, then the chroma of every second row. */
  function Nv21(s: seq<byte>, w: nat, h: nat): seq<byte> {
    Rows(s, 0, w * 2, 2, LUMA, w, h) + Nv21Chroma(s, w, h)
  }

  /** The bytes of the chroma plane: with an odd width each row has a pair more than its pixels. */
  function ChromaBytes(w: nat, h: nat): nat {
    Area(Half(h), 2 * Half(w))
  }

  /**
   * m_YUY2toNV21: the target needs room for the chroma of every even row, the last one of an odd height too. When
   * both sides are odd the last macropixel is read two bytes past the picture.
   */
  method Yuy2ToNv21(src: array<byte>, dst: array<byte>, w: nat, h: nat)
    requires src != dst
    requires Area(h, w * 2) + (if w % 2 == 1 && h % 2 == 1 then 2 else 0) <= src.Length
    requires Area(h, w) + ChromaBytes(w, h) <= dst.Length
    modifies dst
    ensures dst[..] == Nv21(src[..], w, h) + old(dst[Area(h, w) + ChromaBytes(w, h)..])
  {
    hide Rows, Area, ChromaBytes;
    var dstCbcrPos := Yuy2Luma(src, dst, w, h);
    var _ := Yuy2Chroma(src, dst, dstCbcrPos, w, h);
  }

  /** The luma loops of m_YUY2toNV21. */
  method Yuy2Luma(src: array<byte>, dst: array<byte>, w: nat, h: nat) returns (dstPos: nat)
    requires src != dst && Area(h, w * 2) <= src.Length && Area(h, w) <= dst.Length
    modifies dst
    ensures dstPos == Area(h, w)
    ensures dst[..dstPos] == Rows(src[..], 0, w * 2, 2, LUMA, w, h)
    ensures forall i | dstPos <= i < dst.Length :: dst[i] == old(dst[i])
  {
    hide Rows, Row, RowFits, Area, Step;
    ghost var s := src[..];
    NoRows(s, 0, w * 2, 2, LUMA, w);
    AreaAhead(0, h, w);
    dstPos := 0;
    var y := 0;
    while y < h
      invariant 0 <= y <= h && dstPos == Area(y, w) <= dst.Length
      invariant dst[..dstPos] == Rows(s, 0, w * 2, 2, LUMA, w, y)
      invariant forall i | dstPos <= i < dst.Length :: dst[i] == old(dst[i])
    {
      AreaAhead(y, h, w);
      LumaRowInside(w, h, y, src.Length);
      var srcYStartPos := y * (w * 2);
      dstPos := LumaRow(src, srcYStartPos, 2, dst, dstPos, w);
      RowsStep(s, 0, w * 2, 2, LUMA, w, y);
      y := y + 1;
    }
  }

  /** The chroma loops of m_YUY2toNV21. */
  method Yuy2Chroma(src: array<byte>, dst: array<byte>, dstStart: nat, w: nat, h: nat) returns (dstCbcrPos: nat)
    requires src != dst && dstStart + ChromaBytes(w, h) <= dst.Length
    requires Area(h, w * 2) + (if w % 2 == 1 && h % 2 == 1 then 2 else 0) <= src.Length
    modifies dst
    ensures dstCbcrPos == dstStart + ChromaBytes(w, h)
    ensures dst[..dstCbcrPos] == old(dst[..dstStart]) + Nv21Chroma(src[..], w, h)
    ensures forall i | dstCbcrPos <= i < dst.Length :: dst[i] == old(dst[i])
  {
    hide Rows, Row, RowFits, Area;
    ghost var s, half, pairs := src[..], 0, Half(w);
    NoRows(s, 0, w * 4, 4, CR_CB, pairs);
    AreaAhead(0, Half(h), 2 * pairs);
    dstCbcrPos := dstStart;
    var y := 0;
    while y < h
      invariant 0 <= y <= h + 1 && y == 2 * half && dstCbcrPos == dstStart + Area(half, 2 * pairs) <= dst.Length
      invariant dst[..dstCbcrPos] == old(dst[..dstStart]) + Rows(s, 0, w * 4, 4, CR_CB, pairs, half)
      invariant forall i | dstCbcrPos <= i < dst.Length :: dst[i] == old(dst[i])
    {
      AreaAhead(half, Half(h), 2 * pairs);
      Nv21RowInside(w, h, half, src.Length);
      var srcYStartPos := y * (w * 2);
      dstCbcrPos := CrCbRow(src, srcYStartPos, dst, dstCbcrPos, w);
      RowsStep(s, 0, w * 4, 4, CR_CB, pairs, half);
      y, half := y + 2, half + 1;
    }
  }

  /** The inner chroma loop of m_YUY2toNV21. */
  method CrCbRow(src: array<byte>, start: nat, dst: array<byte>, dstStart: nat, w: nat) returns (dstPos: nat)
    requires src != dst && dstStart + 2 * Half(w) <= dst.Length && start + 4 * Half(w) <= src.Length
    modifies dst
    ensures dstPos == dstStart + 2 * Half(w)
    ensures dst[..dstPos] == old(dst[..dstStart]) + Row(src[..], start, 4, CR_CB, Half(w))
    ensures forall i | dstPos <= i < dst.Length :: dst[i] == old(dst[i])
  {
    hide Row, Sample, Area;
    ghost var s := src[..];
    NoRows(s, start, 0, 4, CR_CB, 0);
    dstPos := dstStart;
    var x := 0;
    ghost var g := 0;
    while x < w * 2
      invariant 0 <= g <= Half(w) && x == 4 * g && dstPos == dstStart + 2 * g
      invariant dst[..dstPos] == old(dst[..dstStart]) + Row(s, start, 4, CR_CB, g)
      invariant forall i | dstPos <= i < dst.Length :: dst[i] == old(dst[i])
    {
      var srcPos := start + x;
      CrCbAt(s, srcPos);
      RowStep(s, start, 4, CR_CB, g);
      CopyPair(src, srcPos, 3, 1, dst, dstPos);
      dstPos := dstPos + 2;
      x, g := x + 4, g + 1;
    }
  }

  lemma CrCbAt(s: seq<byte>, pos: nat)
    requires pos + 4 <= |s|
    ensures Sample(s, pos, CR_CB) == [s[pos + 3], s[pos + 1]]
  {
  }

  lemma LumaRowInside(w: nat, h: nat, y: nat, limit: nat)
    requires y < h && Area(h, w * 2) <= limit
    ensures y * (w * 2) == Area(y, w * 2)
    ensures RowFits(Area(y, w * 2), 2, w, 1, 1, limit)
  {
    AreaAhead(y, h, w * 2);
    var start := Area(y, w * 2);
    forall x: nat | x + 1 <= w
      ensures FitsAt(start, 2, x, 1, limit)
    {
    }
  }

  /** The macropixels of every second row, the last one of an odd width included, lie inside the buffer. */
  lemma Nv21RowInside(w: nat, h: nat, half: nat, limit: nat)
    requires 2 * half < h
    requires Area(h, w * 2) + (if w % 2 == 1 && h % 2 == 1 then 2 else 0) <= limit
    ensures 2 * half * (w * 2) == Area(half, w * 4)
    ensures Area(half, w * 4) + 4 * Half(w) <= limit
  {
    hide Area;
    SecondRow(half, w);
    AreaAhead(2 * half, h, w * 2);
    if h % 2 == 0 {
      AreaAhead(2 * half + 1, h, w * 2);
    }
  }

  lemma SecondRow(half: nat, w: nat)
    ensures 2 * half * (w * 2) == Area(half, w * 4) == Area(2 * half, w * 2)
  {
    Regroup(half, 2, w * 2);
  }

  lemma Nv21Length(s: seq<byte>, w: nat, h: nat)
    ensures |Nv21(s, w, h)| == Area(h, w) + ChromaBytes(w, h)
  {
    RowsLength(s, 0, w * 2, 2, LUMA, w, h);
    RowsLength(s, 0, w * 4, 4, CR_CB, Half(w), Half(h));
    assert Area(w, 1) == w && Area(Half(w), 2) == 2 * Half(w);
  }

  /** The picture fits the one and a half bytes a pixel that an NV21 buffer has exactly when both sides are even. */
  lemma Nv21FitsItsBuffer(s: seq<byte>, w: nat, h: nat)
    requires 0 < w && 0 < h
    ensures 2 * |Nv21(s, w, h)| <= 3 * Area(h, w) <==> w % 2 == 0 && h % 2 == 0
  {
    hide Nv21, Half;
    Nv21Length(s, w, h);
    HalfIs(w);
    HalfIs(h);
    FourTimes(Half(h), Half(w));
    Widened(h, w);
  }

  lemma HalfIs(n: nat)
    ensures 2 * Half(n) == if n % 2 == 0 then n else n + 1
  {
  }

  lemma FourTimes(a: nat, b: nat)
    ensures 2 * Area(a, 2 * b) == Area(2 * a, 2 * b)
  {
    Regroup(2, a, 2 * b);
  }

  /** A picture that is a row or a column larger has more bytes. */
  lemma Widened(h: nat, w: nat)
    requires 0 < w && 0 < h
    ensures Area(h, w) < Area(h + 1, w) && Area(h, w) < Area(h, w + 1) && Area(h, w) < Area(h + 1, w + 1)
  {
    OneMore(h, w);
    OneMore(w, h);
    OneMore(h, w + 1);
  }

  /** Every pixel of the result has the luma of the packed picture's pixel. */
  lemma Nv21Is(s: seq<byte>, w: nat, h: nat, y: nat, x: nat)
    requires y < h && x < w && h * (w * 2) <= |s|
    ensures y * w + x < |Nv21(s, w, h)| && y * (w * 2) + 2 * x < |s|
    ensures Nv21(s, w, h)[y * w + x] == s[y * (w * 2) + 2 * x]
  {
    Nv21LumaAt(s, w, h, y, x);
    RowByte(w, h, y, x);
    RowByte(w * 2, h, y, 2 * x);
    hide Nv21, Area;
    InBounds(s, y * (w * 2) + 2 * x);
  }

  lemma Nv21LumaAt(s: seq<byte>, w: nat, h: nat, y: nat, x: nat)
    requires y < h && x < w
    ensures Area(y, w) + x < |Nv21(s, w, h)|
    ensures Nv21(s, w, h)[Area(y, w) + x] == At(s, Area(y, w * 2) + 2 * x)
  {
    RowsLength(s, 0, w * 2, 2, LUMA, w, h);
    RowsAt(s, 0, w * 2, 2, LUMA, w, h, y, x, 0);
    assert Area(w, 1) == w && Area(x, 1) == x;
  }

  /** Each chroma pair is Cr and Cb of the macropixel at that column in every second row: its last byte and its
      second one. Of the last macropixel of an odd width they can lie behind the row. */
  lemma Nv21ChromaIs(s: seq<byte>, w: nat, h: nat, y: nat, g: nat)
    requires 2 * y < h && 2 * g < w && 2 * y * (w * 2) + 4 * g + 4 <= |s|
    ensures var at, from := h * w + y * ((w + 1) / 2 * 2) + 2 * g, 2 * y * (w * 2) + 4 * g;
            && at + 1 < |Nv21(s, w, h)|
            && Nv21(s, w, h)[at] == s[from + 3] && Nv21(s, w, h)[at + 1] == s[from + 1]
  {
    Nv21ChromaGrid(s, w, h, y, g);
    assert Area(h, w) == h * w && Area(y, 2 * Half(w)) == y * ((w + 1) / 2 * 2);
    assert Area(2 * y, w * 2) == 2 * y * (w * 2);
    assert Area(g, 4) == 4 * g;
    hide Nv21, Area, Half;
    InBounds(s, 2 * y * (w * 2) + 4 * g + 3);
    InBounds(s, 2 * y * (w * 2) + 4 * g + 1);
  }

  lemma Nv21ChromaGrid(s: seq<byte>, w: nat, h: nat, y: nat, g: nat)
    requires y < Half(h) && g < Half(w)
    ensures var at := Area(h, w) + Area(y, 2 * Half(w)) + 2 * g;
            && at + 1 < |Nv21(s, w, h)|
            && Nv21(s, w, h)[at] == Macropixel(s, w, 2 * y, g)[3]
            && Nv21(s, w, h)[at + 1] == Macropixel(s, w, 2 * y, g)[1]
  {
    RowsLength(s, 0, w * 2, 2, LUMA, w, h);
    SecondRow(y, w);
    Units(w, g);
    hide Rows, Area, Nv21Chroma, Half;
    Nv21ChromaAt(s, w, h, y, g, 0);
    Nv21ChromaAt(s, w, h, y, g, 1);
  }

  lemma Units(w: nat, g: nat)
    ensures Area(w, 1) == w && Area(g, 4) == 4 * g
  {
  }

  lemma Nv21ChromaAt(s: seq<byte>, w: nat, h: nat, y: nat, g: nat, k: nat)
    requires y < Half(h) && g < Half(w) && k < 2
    ensures var c := Nv21Chroma(s, w, h);
            && Area(y, 2 * Half(w)) + 2 * g + k < |c|
            && c[Area(y, 2 * Half(w)) + 2 * g + k] == At(s, Area(y, w * 4) + 4 * g + CR_CB[k])
  {
    assert Area(g, 2) == 2 * g && Area(Half(w), 2) == 2 * Half(w);
    hide Rows, Area, Half;
    RowsAt(s, 0, w * 4, 4, CR_CB, Half(w), Half(h), y, g, k);
  }
}
