/**
 * How the graphics allocator lays out a picture: strides, row counts and the sizes of the buffers, for
 * every format, and where the users of the picture look for its samples.
 */
module GrallocLayout {
  import opened Arithmetic
  import opened Bytes

  datatype Format =
    | RGBA_8888 | RGBX_8888 | BGRA_8888 | RGB_888 | RGB_565 | RGBA_5551 | RGBA_4444 | RAW_SENSOR | BLOB
    | IMPLEMENTATION_DEFINED
    | EXYNOS_YV12 | EXYNOS_YCrCb_420_SP | YCbCr_420_SP | YCbCr_420_SP_TILED
    | YV12 | YCrCb_420_SP | YCbCr_422_I
    | Unknown(code: int)

  /** The usage bits that steer the layout; `zsl` is set when all bits of its mask are. */
  datatype Usage = Usage(zsl: bool, hwTexture: bool, hwVideoEncoder: bool)

  const PAGE_SIZE: nat := 4096

  /** The ALIGN macro: for a power of two, clearing the low bits is subtracting the remainder. */
  function Align(x: nat, a: nat): nat
    requires 0 < a
  {
    x + a - 1 - (x + a - 1) % a
  }

  /** The least multiple that is not below the number. */
  lemma AlignLeast(x: nat, a: nat, multiple: nat)
    requires 0 < a
    ensures Align(x, a) % a == 0 && x <= Align(x, a) < x + a
    ensures multiple % a == 0 && x <= multiple ==> Align(x, a) <= multiple
  {
    var q := (x + a - 1) / a;
    assert x + a - 1 == q * a + (x + a - 1) % a;
    MultipleOf(q, a);
    if multiple % a == 0 && x <= multiple {
      var m := multiple / a;
      assert multiple == m * a;
      if q <= m {
        Scaled(q, m, a);
      } else {
        Scaled(m + 1, q, a);
        OneMore(m, a);
      }
    }
  }

  // -- The layouts ------------------------------------------------------------------------------

  /** What the allocator decides: the stride in pixels, the rows, and the size of each buffer. */
  datatype Layout = Layout(stride: nat, vstride: nat, sizes: seq<nat>)

  function BytesPerPixel(format: Format): nat {
    match format
    case RGBA_8888 | RGBX_8888 | BGRA_8888 => 4
    case RGB_888 => 3
    case RGB_565 | RGBA_5551 | RGBA_4444 | RAW_SENSOR => 2
    case _ => 0
  }

  function RgbLayout(w: nat, h: nat, format: Format): Option<Layout> {
    if format == BLOB then
      Some(Layout(w, h, [Area(h, w)]))
    else if BytesPerPixel(format) == 0 then
      None
    else
      var bpr, vstride := Align(w * BytesPerPixel(format), 16), Align(h, 16);
      var size := if vstride < h + 2 then Area(h + 2, bpr) else Area(vstride, bpr);
      Some(Layout(bpr / BytesPerPixel(format), vstride, [Align(size, PAGE_SIZE)]))
  }

  /** The format that a camera, a texture or an encoder gets when it asks for no particular one. */
  function Resolved(format: Format, usage: Usage): Format {
    if format != IMPLEMENTATION_DEFINED then format
    else if usage.zsl then YCbCr_422_I
    else if usage.hwTexture then EXYNOS_YV12
    else if usage.hwVideoEncoder then YCbCr_420_SP
    else format
  }

  function YuvLayout(w: nat, h: nat, format: Format): Option<Layout> {
    match format
    case EXYNOS_YV12 =>
      var stride, vstride := Align(w, 32), Align(h, 16);
      var chroma := Area(vstride / 2, Align(stride / 2, 16));
      Some(Layout(stride, vstride, [Area(vstride, stride), chroma, chroma]))
    case EXYNOS_YCrCb_420_SP | YCbCr_420_SP | YCbCr_420_SP_TILED =>
      var stride, vstride := Align(w, 16), Align(h, 32);
      Some(Layout(stride, vstride, [Area(vstride, stride), Area(Align(h / 2, 32), stride)]))
    case YV12 =>
      var stride := Align(w, 16);
      Some(Layout(stride, h, [Area(h, stride) + Area(h, Align(stride / 2, 16))]))
    case YCrCb_420_SP =>
      Some(Layout(w, h, [Area(h, w) * 3 / 2]))
    case YCbCr_422_I =>
      var stride := Align(w, 16);
      Some(Layout(stride, h, [Area(h, stride) * 2]))
    case _ => None
  }

  function LayoutOf(w: nat, h: nat, format: Format): Option<Layout> {
    if RgbLayout(w, h, format).Some? then RgbLayout(w, h, format) else YuvLayout(w, h, format)
  }

  /** The formats that the allocator knows. */
  predicate Known(format: Format) {
    !format.Unknown? && format != IMPLEMENTATION_DEFINED
  }

  lemma KnownHasLayout(w: nat, h: nat, format: Format)
    ensures LayoutOf(w, h, format).Some? <==> Known(format)
  {
    hide Align, Area;
  }

  // -- Where the samples are --------------------------------------------------------------------

  /** A plane of samples: which buffer, where it starts, how far its rows are apart, and how much there is. */
  datatype Plane = Plane(buffer: nat, offset: nat, pitch: nat, rows: nat, rowBytes: nat)

  function Half(n: nat): nat {
    (n + 1) / 2
  }

  /** The planes of a picture as its users find them from the stride; odd sides have chroma for the last sample too. */
  function Planes(w: nat, h: nat, format: Format, stride: nat): seq<Plane> {
    match format
    case BLOB => [Plane(0, 0, stride, h, w)]
    case EXYNOS_YV12 =>
      var c := Align(stride / 2, 16);
      [Plane(0, 0, stride, h, w), Plane(1, 0, c, Half(h), Half(w)), Plane(2, 0, c, Half(h), Half(w))]
    case EXYNOS_YCrCb_420_SP | YCbCr_420_SP | YCbCr_420_SP_TILED =>
      [Plane(0, 0, stride, h, w), Plane(1, 0, stride, Half(h), 2 * Half(w))]
    case YV12 =>
      var c, start := Align(stride / 2, 16), Area(h, stride);
      [Plane(0, 0, stride, h, w), Plane(0, start, c, Half(h), Half(w)),
       Plane(0, start + Area(Half(h), c), c, Half(h), Half(w))]
    case YCrCb_420_SP =>
      [Plane(0, 0, stride, h, w), Plane(0, Area(h, stride), stride, Half(h), 2 * Half(w))]
    case YCbCr_422_I => [Plane(0, 0, stride * 2, h, 4 * Half(w))]
    case _ => [Plane(0, 0, stride * BytesPerPixel(format), h, w * BytesPerPixel(format))]
  }

  // -- The layouts in numbers -------------------------------------------------------------------

  predicate LeastMultiple(m: nat, x: nat, a: nat)
    requires 0 < a
  {
    m % a == 0 && x <= m < x + a
  }

  lemma AlignIs(m: nat, x: nat, a: nat)
    requires 0 < a && LeastMultiple(m, x, a)
    ensures Align(x, a) == m
  {
    hide Align;
    AlignLeast(x, a, m);
    if Align(x, a) < m {
      var q, r := Align(x, a) / a, m / a;
      assert Align(x, a) == q * a && m == r * a;
      hide LeastMultiple;
      ScaledLess(q, r, a);
      Scaled(q + 1, r, a);
      OneMore(q, a);
    }
  }

  /** Packed pictures: rows of whole 16 bytes, 16 rows or at least two spare ones, and whole pages. */
  lemma RgbIs(w: nat, h: nat, format: Format, bpp: nat, row: nat, vstride: nat, size: nat)
    requires bpp == match format
                    case RGBA_8888 | RGBX_8888 | BGRA_8888 => 4
                    case RGB_888 => 3
                    case RGB_565 | RGBA_5551 | RGBA_4444 | RAW_SENSOR => 2
                    case _ => 0
    requires 0 < bpp && LeastMultiple(row, w * bpp, 16) && LeastMultiple(vstride, h, 16)
    requires LeastMultiple(size, (if vstride < h + 2 then h + 2 else vstride) * row, 4096)
    ensures LayoutOf(w, h, format) == Some(Layout(row / bpp, vstride, [size]))
    ensures Planes(w, h, format, row / bpp) == [Plane(0, 0, row / bpp * bpp, h, w * bpp)]
  {
    hide Align, LeastMultiple, Area, BytesPerPixel, LayoutOf, RgbLayout, Planes;
    BytesPerPixelIs(format, bpp);
    var rows := if vstride < h + 2 then h + 2 else vstride;
    AlignIs(row, w * bpp, 16);
    AlignIs(vstride, h, 16);
    AlignIs(size, rows * row, 4096);
    AreaIs(rows, row);
    RgbLayoutIs(w, h, format, bpp, row, vstride, rows, size);
    RgbPlanesAre(w, h, format, row / bpp);
  }

  lemma HalfIs(n: nat)
    ensures Half(n) == (n + 1) / 2
  {
  }

  lemma AreaIs(rows: nat, size: nat)
    ensures Area(rows, size) == rows * size
  {
  }

  lemma BytesPerPixelIs(format: Format, bpp: nat)
    requires bpp == match format
                    case RGBA_8888 | RGBX_8888 | BGRA_8888 => 4
                    case RGB_888 => 3
                    case RGB_565 | RGBA_5551 | RGBA_4444 | RAW_SENSOR => 2
                    case _ => 0
    ensures BytesPerPixel(format) == bpp
  {
  }

  lemma RgbLayoutIs(w: nat, h: nat, format: Format, bpp: nat, row: nat, vstride: nat, rows: nat, size: nat)
    requires BytesPerPixel(format) == bpp && 0 < bpp && Align(w * bpp, 16) == row && Align(h, 16) == vstride
    requires rows == if vstride < h + 2 then h + 2 else vstride
    requires Align(Area(rows, row), 4096) == size
    ensures LayoutOf(w, h, format) == Some(Layout(row / bpp, vstride, [size]))
  {
    assert format != BLOB;
    hide Align, Area, BytesPerPixel;
  }

  lemma RgbPlanesAre(w: nat, h: nat, format: Format, stride: nat)
    requires 0 < BytesPerPixel(format)
    ensures Planes(w, h, format, stride)
         == [Plane(0, 0, stride * BytesPerPixel(format), h, w * BytesPerPixel(format))]
  {
  }

  lemma BlobIs(w: nat, h: nat, size: nat)
    requires size == h * w
    ensures LayoutOf(w, h, BLOB) == Some(Layout(w, h, [size])) && Planes(w, h, BLOB, w) == [Plane(0, 0, w, h, w)]
  {
  }

  /** The planar YV12 of the codecs: three buffers, with chroma rows of whole 16 bytes. */
  lemma ExynosYv12Is(w: nat, h: nat, stride: nat, vstride: nat, c: nat, luma: nat, chroma: nat)
    requires LeastMultiple(stride, w, 32) && LeastMultiple(vstride, h, 16) && LeastMultiple(c, stride / 2, 16)
    requires luma == vstride * stride && chroma == vstride / 2 * c
    ensures LayoutOf(w, h, EXYNOS_YV12) == Some(Layout(stride, vstride, [luma, chroma, chroma]))
    ensures Planes(w, h, EXYNOS_YV12, stride)
         == [Plane(0, 0, stride, h, w), Plane(1, 0, c, (h + 1) / 2, (w + 1) / 2),
             Plane(2, 0, c, (h + 1) / 2, (w + 1) / 2)]
  {
    hide Align, LeastMultiple, Area, Half;
    AlignIs(stride, w, 32);
    AlignIs(vstride, h, 16);
    AlignIs(c, stride / 2, 16);
    AreaIs(vstride, stride);
    AreaIs(vstride / 2, c);
    HalfIs(w);
    HalfIs(h);
  }

  /** The semi-planar formats of camera and codecs: two buffers, rows in multiples of 32 for each. */
  lemma SemiPlanarIs(w: nat, h: nat, format: Format, stride: nat, vstride: nat, rows: nat, luma: nat, chroma: nat)
    requires format == EXYNOS_YCrCb_420_SP || format == YCbCr_420_SP || format == YCbCr_420_SP_TILED
    requires LeastMultiple(stride, w, 16) && LeastMultiple(vstride, h, 32) && LeastMultiple(rows, h / 2, 32)
    requires luma == vstride * stride && chroma == rows * stride
    ensures LayoutOf(w, h, format) == Some(Layout(stride, vstride, [luma, chroma]))
    ensures Planes(w, h, format, stride)
         == [Plane(0, 0, stride, h, w), Plane(1, 0, stride, (h + 1) / 2, 2 * ((w + 1) / 2))]
  {
    hide Align, LeastMultiple, Area, Half;
    AlignIs(stride, w, 16);
    AlignIs(vstride, h, 32);
    AlignIs(rows, h / 2, 32);
    AreaIs(vstride, stride);
    AreaIs(rows, stride);
    HalfIs(w);
    HalfIs(h);
  }

  /** The application's YV12: one buffer, chroma rows of whole 16 bytes. */
  lemma FrameworkYv12Is(w: nat, h: nat, stride: nat, c: nat, rows: nat, cols: nat, size: nat, cr: nat, cb: nat)
    requires LeastMultiple(stride, w, 16) && LeastMultiple(c, stride / 2, 16)
    requires rows == (h + 1) / 2 && cols == (w + 1) / 2
    requires size == h * stride + h * c && cr == h * stride && cb == cr + rows * c
    ensures LayoutOf(w, h, YV12) == Some(Layout(stride, h, [size]))
    ensures Planes(w, h, YV12, stride)
         == [Plane(0, 0, stride, h, w), Plane(0, cr, c, rows, cols), Plane(0, cb, c, rows, cols)]
  {
    hide Align, LeastMultiple, Area, Half;
    AlignIs(stride, w, 16);
    AlignIs(c, stride / 2, 16);
    AreaIs(h, stride);
    AreaIs(h, c);
    AreaIs(rows, c);
    HalfIs(w);
    HalfIs(h);
  }

  /** The application's NV21: one buffer without any alignment. */
  lemma FrameworkNv21Is(w: nat, h: nat, rows: nat, cols: nat, size: nat, chroma: nat)
    requires size == h * w * 3 / 2 && chroma == h * w
    requires rows == (h + 1) / 2 && cols == (w + 1) / 2
    ensures LayoutOf(w, h, YCrCb_420_SP) == Some(Layout(w, h, [size]))
    ensures Planes(w, h, YCrCb_420_SP, w) == [Plane(0, 0, w, h, w), Plane(0, chroma, w, rows, 2 * cols)]
  {
    hide Area, Half;
    AreaIs(h, w);
    HalfIs(w);
    HalfIs(h);
  }

  /** Packed 4:2:2: one buffer, two bytes a pixel. */
  lemma PackedYuvIs(w: nat, h: nat, stride: nat, cols: nat, size: nat)
    requires size == h * stride * 2
    requires LeastMultiple(stride, w, 16) && cols == (w + 1) / 2
    ensures LayoutOf(w, h, YCbCr_422_I) == Some(Layout(stride, h, [size]))
    ensures Planes(w, h, YCbCr_422_I, stride) == [Plane(0, 0, stride * 2, h, 4 * cols)]
  {
    hide Align, LeastMultiple, Area, Half;
    AlignIs(stride, w, 16);
    AreaIs(h, stride);
    HalfIs(w);
  }

  /** Asked for no particular format, a zero-shutter-lag stream gets packed 4:2:2, else a texture planar YV12, else
      an encoder semi-planar 4:2:0; nobody else gets a picture. All other formats are taken as they are. */
  lemma ResolvedIs(w: nat, h: nat, format: Format, usage: Usage)
    ensures format != IMPLEMENTATION_DEFINED ==> Resolved(format, usage) == format
    ensures var r := Resolved(IMPLEMENTATION_DEFINED, usage);
            && (r == YCbCr_422_I <==> usage.zsl)
            && (r == EXYNOS_YV12 <==> usage.hwTexture && !usage.zsl)
            && (r == YCbCr_420_SP <==> usage.hwVideoEncoder && !usage.hwTexture && !usage.zsl)
            && (LayoutOf(w, h, r).Some? <==> usage.zsl || usage.hwTexture || usage.hwVideoEncoder)
  {
    hide Align, Area;
  }

  // -- Where every byte of them is --------------------------------------------------------------

  /** Every byte of every sample of the plane lies inside its buffer. */
  ghost predicate Holds(sizes: seq<nat>, p: Plane) {
    && p.buffer < |sizes|
    && forall row: nat, col: nat | row < p.rows && col < p.rowBytes ::
         SampleByte(p, row, col) < sizes[p.buffer]
  }

  function SampleByte(p: Plane, row: nat, col: nat): nat {
    p.offset + Area(row, p.pitch) + col
  }

  lemma HoldsExactly(sizes: seq<nat>, p: Plane)
    requires p.buffer < |sizes| && 0 < p.rows && 0 < p.rowBytes
    ensures Holds(sizes, p) <==> p.offset + Area(p.rows - 1, p.pitch) + p.rowBytes <= sizes[p.buffer]
  {
    hide Area;
    if p.offset + Area(p.rows - 1, p.pitch) + p.rowBytes <= sizes[p.buffer] {
      forall row: nat, col: nat | row < p.rows && col < p.rowBytes
        ensures SampleByte(p, row, col) < sizes[p.buffer]
      {
        AreaAhead(row, p.rows - 1, p.pitch);
      }
    } else {
      assert sizes[p.buffer] <= SampleByte(p, p.rows - 1, p.rowBytes - 1);
    }
  }

  /** A plane of whole rows fits whenever the buffer has that many rows. */
  lemma HoldsWholeRows(sizes: seq<nat>, p: Plane, rows: nat)
    requires p.buffer < |sizes| && 0 < p.rows <= rows && 0 < p.rowBytes <= p.pitch
    requires p.offset + Area(rows, p.pitch) <= sizes[p.buffer]
    ensures Holds(sizes, p)
  {
    hide Area;
    AreaAhead(p.rows - 1, rows, p.pitch);
    HoldsExactly(sizes, p);
  }

  /** The sizes for which a format's buffers are large enough. */
  predicate Fits(w: nat, h: nat, format: Format) {
    match format
    case EXYNOS_YCrCb_420_SP | YCbCr_420_SP | YCbCr_420_SP_TILED => h % 64 != 1
    case YV12 => h % 2 == 0
    case YCrCb_420_SP => w % 2 == 0 && h % 2 == 0
    case _ => true
  }

  ghost predicate AllHold(sizes: seq<nat>, planes: seq<Plane>) {
    forall i | 0 <= i < |planes| :: Holds(sizes, planes[i])
  }

  // -- Format by format -------------------------------------------------------------------------

  lemma AlignAtLeast(x: nat, a: nat)
    requires 0 < a
    ensures x <= Align(x, a)
  {
    AlignLeast(x, a, 0);
  }

  /** A row of whole chroma samples fits in an even stride. */
  lemma EvenStride(w: nat)
    ensures w <= Align(w, 16) && 2 * Half(w) <= Align(w, 16) && Align(w, 16) / 2 * 2 == Align(w, 16)
    ensures w <= Align(w, 32) && 2 * Half(w) <= Align(w, 32) && Align(w, 32) / 2 * 2 == Align(w, 32)
  {
    var q, p := (w + 15) / 16, (w + 31) / 32;
    assert Align(w, 16) == 16 * q;
    assert Align(w, 32) == 32 * p;
    hide Align;
    HalfFits(w, 8 * q);
    HalfFits(w, 16 * p);
  }

  lemma HalfFits(w: nat, half: nat)
    requires w <= 2 * half
    ensures 2 * Half(w) <= 2 * half && 2 * half / 2 == half
  {
  }

  lemma RgbStride(w: nat, bpp: nat)
    requires 0 < bpp
    ensures var stride := Align(w * bpp, 16) / bpp; w <= stride && w * bpp <= stride * bpp <= Align(w * bpp, 16)
  {
    hide Align;
    AlignAtLeast(w * bpp, 16);
    var bpr := Align(w * bpp, 16);
    QuotientFits(bpr, bpp);
    QuotientLargest(w, bpr, bpp);
    Scaled(w, bpr / bpp, bpp);
  }

  lemma RgbSize(h: nat, bpr: nat)
    ensures var size := if Align(h, 16) < h + 2 then Area(h + 2, bpr) else Area(Align(h, 16), bpr);
            Area(h + 2, bpr) <= Align(size, PAGE_SIZE)
  {
    hide Align, Area;
    var size := if Align(h, 16) < h + 2 then Area(h + 2, bpr) else Area(Align(h, 16), bpr);
    if h + 2 <= Align(h, 16) {
      AreaAhead(h + 2, Align(h, 16), bpr);
    }
    AlignAtLeast(size, PAGE_SIZE);
  }

  lemma AreaWider(rows: nat, size: nat, wider: nat)
    requires size <= wider
    ensures Area(rows, size) <= Area(rows, wider)
  {
    Scaled(size, wider, rows);
  }

  /** A packed picture has its rows, and two spare ones for the scaler. */
  lemma RgbHolds(w: nat, h: nat, format: Format)
    requires 0 < w && 0 < h && 0 < BytesPerPixel(format)
    ensures var l := RgbLayout(w, h, format).value;
            w <= l.stride && AllHold(l.sizes, Planes(w, h, format, l.stride))
            && Area(h + 2, l.stride * BytesPerPixel(format)) <= l.sizes[0]
  {
    var bpp := BytesPerPixel(format);
    OneMore(w - 1, bpp);
    hide Align, Area, Holds;
    RgbStride(w, bpp);
    var l := RgbLayout(w, h, format).value;
    RgbSize(h, Align(w * bpp, 16));
    AreaWider(h + 2, l.stride * bpp, Align(w * bpp, 16));
    HoldsWholeRows(l.sizes, Plane(0, 0, l.stride * bpp, h, w * bpp), h + 2);
  }

  lemma BlobHolds(w: nat, h: nat)
    requires 0 < w && 0 < h
    ensures AllHold(RgbLayout(w, h, BLOB).value.sizes, Planes(w, h, BLOB, w))
  {
    HoldsWholeRows([Area(h, w)], Plane(0, 0, w, h, w), h);
  }

  lemma ExynosYv12Holds(w: nat, h: nat)
    requires 0 < w && 0 < h
    ensures var l := YuvLayout(w, h, EXYNOS_YV12).value;
            w <= l.stride && AllHold(l.sizes, Planes(w, h, EXYNOS_YV12, l.stride))
  {
    hide Align, Area, Holds, Half;
    EvenStride(w);
    EvenStride(h);
    HalfPositive(w);
    HalfPositive(h);
    var l := YuvLayout(w, h, EXYNOS_YV12).value;
    AlignAtLeast(l.stride / 2, 16);
    var c := Align(l.stride / 2, 16);
    HoldsWholeRows(l.sizes, Plane(0, 0, l.stride, h, w), l.vstride);
    HoldsWholeRows(l.sizes, Plane(1, 0, c, Half(h), Half(w)), l.vstride / 2);
    HoldsWholeRows(l.sizes, Plane(2, 0, c, Half(h), Half(w)), l.vstride / 2);
  }

  predicate SemiPlanar(format: Format) {
    format == EXYNOS_YCrCb_420_SP || format == YCbCr_420_SP || format == YCbCr_420_SP_TILED
  }

  /** A luma and a chroma plane hold their samples exactly when the chroma buffer has enough rows. */
  lemma TwoPlanesHold(w: nat, h: nat, stride: nat, vstride: nat, rows: nat)
    requires 0 < w <= stride && 2 * Half(w) <= stride && 0 < h <= vstride
    ensures AllHold([Area(vstride, stride), Area(rows, stride)],
                    [Plane(0, 0, stride, h, w), Plane(1, 0, stride, Half(h), 2 * Half(w))])
            <==> Half(h) <= rows
  {
    HalfPositive(w);
    HalfPositive(h);
    hide Area, Holds, Half;
    var sizes := [Area(vstride, stride), Area(rows, stride)];
    var c := Plane(1, 0, stride, Half(h), 2 * Half(w));
    HoldsWholeRows(sizes, Plane(0, 0, stride, h, w), vstride);
    if Half(h) <= rows {
      HoldsWholeRows(sizes, c, rows);
    } else {
      AreaAhead(rows, Half(h) - 1, stride);
      HoldsExactly(sizes, c);
      assert [Plane(0, 0, stride, h, w), c][1] == c;
    }
  }

  /** The chroma rows of an odd height are counted from half of it rounded down. */
  lemma SemiPlanarHolds(w: nat, h: nat, format: Format)
    requires 0 < w && 0 < h && SemiPlanar(format)
    ensures var l := YuvLayout(w, h, format).value;
            w <= l.stride && (AllHold(l.sizes, Planes(w, h, format, l.stride)) <==> h % 64 != 1)
  {
    ChromaRows(h);
    EvenStride(w);
    EvenStride(h);
    hide Align, Area, AllHold, Half;
    TwoPlanesHold(w, h, Align(w, 16), Align(h, 32), Align(h / 2, 32));
  }

  lemma HalfPositive(n: nat)
    requires 0 < n
    ensures 0 < Half(n) <= n
    ensures n % 2 == 0 ==> n == 2 * Half(n)
    ensures n % 2 == 1 ==> n + 1 == 2 * Half(n)
  {
  }

  lemma ChromaRows(h: nat)
    ensures Half(h) <= Align(h / 2, 32) <==> h % 64 != 1
  {
    var q, r := h / 64, h % 64;
    assert h / 2 == 32 * q + r / 2;
    AlignedRows(q, r / 2);
  }

  lemma AlignedRows(q: nat, r: nat)
    requires r < 32
    ensures Align(32 * q + r, 32) == if r == 0 then 32 * q else 32 * q + 32
  {
    assert (32 * q + r + 31) % 32 == (r + 31) % 32;
  }

  lemma FrameworkYv12Holds(w: nat, h: nat)
    requires 0 < w && 0 < h
    ensures var l := YuvLayout(w, h, YV12).value;
            w <= l.stride && (AllHold(l.sizes, Planes(w, h, YV12, l.stride)) <==> h % 2 == 0)
  {
    hide Align, Area, Holds, Half;
    EvenStride(w);
    HalfPositive(w);
    HalfPositive(h);
    var l := YuvLayout(w, h, YV12).value;
    AlignAtLeast(l.stride / 2, 16);
    var c, start, rows := Align(l.stride / 2, 16), Area(h, l.stride), Half(h);
    AreaTwice(rows, c);
    var cb := Plane(0, start + Area(rows, c), c, rows, Half(w));
    assert Planes(w, h, YV12, l.stride)[2] == cb;
    if h % 2 == 0 {
      HoldsWholeRows(l.sizes, Plane(0, 0, l.stride, h, w), h);
      HoldsWholeRows(l.sizes, Plane(0, start, c, rows, Half(w)), rows);
      HoldsWholeRows(l.sizes, cb, rows);
    } else {
      AreaAhead(rows - 1, rows, c);
      AreaAhead(h, 2 * rows, c);
      HoldsExactly(l.sizes, cb);
    }
  }

  lemma AreaTwice(rows: nat, size: nat)
    ensures Area(2 * rows, size) == 2 * Area(rows, size)
  {
    Regroup(2, rows, size);
  }

  lemma FrameworkNv21Holds(w: nat, h: nat)
    requires 0 < w && 0 < h
    ensures var l := YuvLayout(w, h, YCrCb_420_SP).value;
            w <= l.stride && (AllHold(l.sizes, Planes(w, h, YCrCb_420_SP, w)) <==> w % 2 == 0 && h % 2 == 0)
  {
    hide Area, Holds, Half;
    HalfPositive(w);
    HalfPositive(h);
    var l, rows := YuvLayout(w, h, YCrCb_420_SP).value, Half(h);
    var c := Plane(0, Area(h, w), w, rows, 2 * Half(w));
    assert Planes(w, h, YCrCb_420_SP, w)[1] == c;
    AreaTwice(rows, w);
    AreaAhead(rows - 1, rows, w);
    AreaAhead(h, 2 * rows, w);
    HoldsExactly(l.sizes, c);
    HoldsWholeRows(l.sizes, Plane(0, 0, w, h, w), h);
  }

  lemma PackedYuvHolds(w: nat, h: nat)
    requires 0 < w && 0 < h
    ensures var l := YuvLayout(w, h, YCbCr_422_I).value;
            w <= l.stride && AllHold(l.sizes, Planes(w, h, YCbCr_422_I, l.stride))
  {
    hide Align, Holds, Half;
    EvenStride(w);
    HalfPositive(w);
    var l := YuvLayout(w, h, YCbCr_422_I).value;
    Regroup(h, l.stride, 2);
    HoldsWholeRows(l.sizes, Plane(0, 0, l.stride * 2, h, 4 * Half(w)), h);
  }

  /**
   * A picture's stride is never below its width, and all its samples lie inside the buffers exactly for
   * the sizes named above: semi-planar pictures lack a chroma row when the height is one more than a
   * multiple of 64, the application's YV12 when it is odd, and its NV21 when either side is odd.
   */
  lemma SamplesInside(w: nat, h: nat, format: Format)
    requires 0 < w && 0 < h && Known(format)
    ensures LayoutOf(w, h, format).Some?
    ensures var l := LayoutOf(w, h, format).value;
            w <= l.stride && (AllHold(l.sizes, Planes(w, h, format, l.stride)) <==> Fits(w, h, format))
  {
    hide Align, Area, AllHold, Planes;
    KnownHasLayout(w, h, format);
    match format
    case BLOB => BlobHolds(w, h);
    case EXYNOS_YV12 => ExynosYv12Holds(w, h);
    case EXYNOS_YCrCb_420_SP | YCbCr_420_SP | YCbCr_420_SP_TILED => SemiPlanarHolds(w, h, format);
    case YV12 => FrameworkYv12Holds(w, h);
    case YCrCb_420_SP => FrameworkNv21Holds(w, h);
    case YCbCr_422_I => PackedYuvHolds(w, h);
    case _ => RgbHolds(w, h, format);
  }

  // -- No two samples share a byte --------------------------------------------------------------

  /** Rows do not overlap, and of two planes in one buffer the first ends before the second starts. */
  ghost predicate Apart(planes: seq<Plane>) {
    && (forall i | 0 <= i < |planes| :: planes[i].rowBytes <= planes[i].pitch)
    && (forall i, j | 0 <= i < j < |planes| && planes[i].buffer == planes[j].buffer ::
          planes[i].offset + Area(planes[i].rows, planes[i].pitch) <= planes[j].offset)
  }

  lemma PlanesApart(w: nat, h: nat, format: Format)
    requires 0 < w && 0 < h && Known(format) && Fits(w, h, format)
    ensures LayoutOf(w, h, format).Some?
    ensures Apart(Planes(w, h, format, LayoutOf(w, h, format).value.stride))
  {
    hide Align, Area, AllHold, Half;
    SamplesInside(w, h, format);
    HalfPositive(w);
    HalfPositive(h);
    EvenStride(w);
    var stride := LayoutOf(w, h, format).value.stride;
    match format
    case BLOB =>
    case EXYNOS_YV12 =>
      AlignAtLeast(stride / 2, 16);
    case YV12 =>
      AlignAtLeast(stride / 2, 16);
    case YCrCb_420_SP | EXYNOS_YCrCb_420_SP | YCbCr_420_SP | YCbCr_420_SP_TILED | YCbCr_422_I =>
    case _ =>
      Scaled(w, stride, BytesPerPixel(format));
  }

  /** On sizes that fit, different samples of a picture are at different places. */
  lemma SamplesDiffer(w: nat, h: nat, format: Format, i: nat, row: nat, col: nat, j: nat, row': nat, col': nat)
    requires 0 < w && 0 < h && LayoutOf(w, h, format).Some? && Fits(w, h, format)
    requires var planes := Planes(w, h, format, LayoutOf(w, h, format).value.stride);
             && i < |planes| && row < planes[i].rows && col < planes[i].rowBytes
             && j < |planes| && row' < planes[j].rows && col' < planes[j].rowBytes
             && planes[i].buffer == planes[j].buffer
    requires (i, row, col) != (j, row', col')
    ensures var planes := Planes(w, h, format, LayoutOf(w, h, format).value.stride);
            SampleByte(planes[i], row, col) != SampleByte(planes[j], row', col')
  {
    hide Planes, LayoutOf, Fits, Area;
    KnownHasLayout(w, h, format);
    PlanesApart(w, h, format);
    var planes := Planes(w, h, format, LayoutOf(w, h, format).value.stride);
    AreaAhead(row, planes[i].rows, planes[i].pitch);
    AreaAhead(row', planes[j].rows, planes[j].pitch);
    if i == j && row < row' {
      AreaAhead(row, row', planes[i].pitch);
    } else if i == j && row' < row {
      AreaAhead(row', row, planes[i].pitch);
    }
  }
}
