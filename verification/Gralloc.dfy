/**
 * The graphics allocator: it opens one to three ION buffers for a picture, and closes them again when it
 * fails half way or when the picture is freed. ION answers as it likes, but opens nothing when it fails.
 */
module Gralloc {
  import opened Arithmetic
  import opened Bytes
  import opened GrallocLayout

  const EINVAL: int := 22

  /** ION and the process's table of descriptors. */
  class Ion {
    var open: map<int, nat>  // each open descriptor, and the size of its buffer
    var closed: seq<int>     // every close so far, whatever was closed
    var failed: nat          // how many allocations ION refused

    constructor ()
      ensures open == map[] && closed == [] && failed == 0
    {
      open, closed, failed := map[], [], 0;
    }

    /** ION answers what it likes; an answer that is no new descriptor counts as a refusal. */
    method AllocFd(size: nat) returns (err: int, fd: int)
      modifies this
      ensures closed == old(closed)
      ensures err == 0 ==> 0 <= fd && fd !in old(open) && open == old(open)[fd := size] && failed == old(failed)
      ensures err != 0 ==> open == old(open) && failed == old(failed) + 1
    {
      err, fd := *, *;
      if err != 0 || fd < 0 || fd in open {
        err := if err == 0 then -EINVAL else err;
        failed := failed + 1;
      } else {
        open := open[fd := size];
      }
    }

    /** A descriptor is closed once: closing one that is not open would hit whoever opens it next. */
    method Close(fd: int)
      requires fd in open
      modifies this
      ensures open == old(open) - {fd} && closed == old(closed) + [fd] && failed == old(failed)
    {
      open := open - {fd};
      closed := closed + [fd];
    }
  }

  // -- Handles ----------------------------------------------------------------------------------

  /** private_handle_t; -1 stands for a buffer that the picture does not have. */
  datatype Handle = Handle(fd: int, fd1: int, fd2: int, size: nat, format: Format, width: nat, height: nat,
                           stride: nat, vstride: nat, numFds: int, numInts: int, magic: int)

  const MAGIC: int := 0x3141592
  const NUM_FDS: int := 3
  const NUM_INTS: int := 15

  function Handle1(fd: int, size: nat, w: nat, h: nat, format: Format, stride: nat, vstride: nat): Handle {
    Handle(fd, -1, -1, size, format, w, h, stride, vstride, NUM_FDS - 2, NUM_INTS + 2, MAGIC)
  }

  function Handle2(fd: int, fd1: int, size: nat, w: nat, h: nat, format: Format, stride: nat, vstride: nat): Handle {
    Handle(fd, fd1, -1, size, format, w, h, stride, vstride, NUM_FDS - 1, NUM_INTS + 1, MAGIC)
  }

  function Handle3(fd: int, fd1: int, fd2: int, size: nat, w: nat, h: nat, format: Format, stride: nat, vstride: nat)
    : Handle
  {
    Handle(fd, fd1, fd2, size, format, w, h, stride, vstride, NUM_FDS, NUM_INTS, MAGIC)
  }

  predicate Validates(h: Handle) {
    h.numInts + h.numFds == NUM_INTS + NUM_FDS && h.magic == MAGIC
  }

  /** The descriptors of a handle, in the order in which they are closed. */
  function Fds(h: Handle): seq<int> {
    [h.fd] + (if 0 <= h.fd1 then [h.fd1] else []) + (if 0 <= h.fd2 then [h.fd2] else [])
  }

  /** The table once a handle's buffers are open, the first of `n` of them. */
  ghost function Opened(open: map<int, nat>, fds: seq<int>, sizes: seq<nat>): map<int, nat>
    requires |fds| == |sizes|
  {
    if fds == [] then open
    else Opened(open, fds[..|fds| - 1], sizes[..|fds| - 1])[fds[|fds| - 1] := sizes[|fds| - 1]]
  }

  ghost function Closed(open: map<int, nat>, fds: seq<int>): map<int, nat> {
    open - set fd | fd in fds
  }

  /** New, different descriptors, one for each buffer of the layout. */
  ghost predicate Granted(was: map<int, nat>, now: map<int, nat>, fds: seq<int>, sizes: seq<nat>) {
    && |fds| == |sizes|
    && (forall i | 0 <= i < |fds| :: 0 <= fds[i] && fds[i] !in was)
    && (forall i, j | 0 <= i < j < |fds| :: fds[i] != fds[j])
    && now == Opened(was, fds, sizes)
  }

  lemma GrantedOne(was: map<int, nat>, fd: int, size: nat)
    requires 0 <= fd && fd !in was
    ensures Granted(was, was[fd := size], [fd], [size])
  {
  }

  lemma GrantedTwo(was: map<int, nat>, fd: int, fd1: int, size: nat, size1: nat)
    requires 0 <= fd && fd !in was && 0 <= fd1 && fd1 !in was && fd != fd1
    ensures Granted(was, was[fd := size][fd1 := size1], [fd, fd1], [size, size1])
  {
    GrantedOne(was, fd, size);
    assert [fd, fd1][..1] == [fd] && [size, size1][..1] == [size];
  }

  lemma GrantedThree(was: map<int, nat>, fd: int, fd1: int, fd2: int, size: nat, size1: nat, size2: nat)
    requires 0 <= fd && fd !in was && 0 <= fd1 && fd1 !in was && fd != fd1
    requires 0 <= fd2 && fd2 !in was && fd2 != fd && fd2 != fd1
    ensures Granted(was, was[fd := size][fd1 := size1][fd2 := size2], [fd, fd1, fd2], [size, size1, size2])
  {
    GrantedTwo(was, fd, fd1, size, size1);
    assert [fd, fd1, fd2][..2] == [fd, fd1] && [size, size1, size2][..2] == [size, size1];
  }

  /** A handle that says what was asked for and how the picture is laid out. */
  ghost predicate Describes(h: Handle, w: nat, height: nat, format: Format, l: Layout) {
    && h.width == w && h.height == height && h.format == format
    && h.stride == l.stride && h.vstride == l.vstride && 0 < |l.sizes| && h.size == l.sizes[0]
    && h.numFds == |l.sizes| && h.numInts == 18 - |l.sizes| && h.magic == 0x3141592
  }

  // -- Allocation -------------------------------------------------------------------------------

  /**
   * What an allocation may leave behind. A format that it does not know is refused and nothing happens;
   * for one that it knows it fails exactly when ION refuses a buffer, and then all its descriptors are
   * closed; else the open ones are those of the handle, each with the size of its plane.
   */
  ghost predicate Outcome(was: map<int, nat>, now: map<int, nat>, refusals: int, w: nat, h: nat, format: Format,
                          layout: Option<Layout>, err: int, hnd: Option<Handle>, stride: nat)
  {
    match layout
    case None =>
      err == -EINVAL && now == was && refusals == 0
    case Some(l) =>
      && 0 <= refusals
      && (err == 0 <==> refusals == 0)
      && (err != 0 ==> now == was)
      && (err == 0 ==>
            && hnd.Some?
            && Describes(hnd.value, w, h, format, l)
            && Granted(was, now, Fds(hnd.value), l.sizes)
            && stride == l.stride)
  }

  /** gralloc_alloc_rgb: even a refused buffer gets a handle, which the caller then drops. */
  method AllocRgb(ion: Ion, w: nat, h: nat, format: Format) returns (err: int, hnd: Option<Handle>, stride: nat)
    modifies ion
    ensures ion.closed == old(ion.closed)
    ensures Outcome(old(ion.open), ion.open, ion.failed - old(ion.failed), w, h, format,
                    RgbLayout(w, h, format), err, hnd, stride)
  {
    hide Align, Granted;
    hnd, stride := None, 0;
    var bpp, size, vstride := 0, 0, 0;
    match format {
      case RGBA_8888 | RGBX_8888 | BGRA_8888 =>
        bpp := 4;
      case RGB_888 =>
        bpp := 3;
      case RGB_565 | RGBA_5551 | RGBA_4444 | RAW_SENSOR =>
        bpp := 2;
      case BLOB =>
        stride := w;
        vstride := h;
        size := h * w;
      case _ =>
        return -EINVAL, None, 0;
    }
    if format != BLOB {
      var bpr := Align(w * bpp, 16);
      vstride := Align(h, 16);
      if vstride < h + 2 {
        size := (h + 2) * bpr;
      } else {
        size := vstride * bpr;
      }
      stride := bpr / bpp;
      size := Align(size, PAGE_SIZE);
    }
    ghost var l := RgbLayout(w, h, format).value;
    assert l == Layout(stride, vstride, [size]);
    var fd;
    err, fd := ion.AllocFd(size);
    hnd := Some(Handle1(fd, size, w, h, format, stride, vstride));
    assert err == 0 ==> Fds(hnd.value) == [fd];
    if err == 0 {
      GrantedOne(old(ion.open), fd, size);
    }
  }

  predicate Framework(format: Format) {
    format == YV12 || format == YCrCb_420_SP
  }

  /** gralloc_alloc_framework_yuv, for the formats that applications use. */
  method AllocFrameworkYuv(ion: Ion, w: nat, h: nat, format: Format)
    returns (err: int, hnd: Option<Handle>, stride: nat)
    modifies ion
    ensures ion.closed == old(ion.closed)
    ensures Outcome(old(ion.open), ion.open, ion.failed - old(ion.failed), w, h, format,
                    if Framework(format) then YuvLayout(w, h, format) else None, err, hnd, stride)
  {
    hide Align, Granted;
    hnd, stride := None, 0;
    var size := 0;
    match format {
      case YV12 =>
        stride := Align(w, 16);
        size := h * stride + h * Align(stride / 2, 16);
      case YCrCb_420_SP =>
        stride := w;
        size := h * stride * 3 / 2;
      case _ =>
        return -EINVAL, None, 0;
    }
    var fd;
    err, fd := ion.AllocFd(size);
    if err != 0 {
      return;
    }
    GrantedOne(old(ion.open), fd, size);
    hnd := Some(Handle1(fd, size, w, h, format, stride, h));
    assert Fds(hnd.value) == [fd];
    assert YuvLayout(w, h, format).value == Layout(stride, h, [size]);
  }

  /** gralloc_alloc_yuv: one buffer a plane, or none at all. */
  method AllocYuv(ion: Ion, w: nat, h: nat, wanted: Format, usage: Usage)
    returns (err: int, hnd: Option<Handle>, stride: nat)
    modifies ion
    ensures Outcome(old(ion.open), ion.open, ion.failed - old(ion.failed), w, h, Resolved(wanted, usage),
                    YuvLayout(w, h, Resolved(wanted, usage)), err, hnd, stride)
    ensures old(ion.closed) <= ion.closed && (err == 0 ==> ion.closed == old(ion.closed))
  {
    hide Align;
    hnd, stride := None, Align(w, 16);
    var format := wanted;
    if format == IMPLEMENTATION_DEFINED {
      if usage.zsl {
        format := YCbCr_422_I;
      } else if usage.hwTexture {
        format := EXYNOS_YV12;
      } else if usage.hwVideoEncoder {
        format := YCbCr_420_SP;
      }
    }
    var planes, lumaVstride, lumaSize, chromaSize := 0, 0, 0, 0;
    match format {
      case EXYNOS_YV12 =>
        stride := Align(w, 32);
        lumaVstride := Align(h, 16);
        lumaSize := lumaVstride * stride;
        chromaSize := lumaVstride / 2 * Align(stride / 2, 16);
        planes := 3;
      case EXYNOS_YCrCb_420_SP | YCbCr_420_SP | YCbCr_420_SP_TILED =>
        var chromaVstride := Align(h / 2, 32);
        lumaVstride := Align(h, 32);
        lumaSize := lumaVstride * stride;
        chromaSize := chromaVstride * stride;
        planes := 2;
      case YV12 | YCrCb_420_SP =>
        err, hnd, stride := AllocFrameworkYuv(ion, w, h, format);
        return;
      case YCbCr_422_I =>
        lumaVstride := h;
        lumaSize := lumaVstride * stride * 2;
        chromaSize := 0;
        planes := 1;
      case _ =>
        return -EINVAL, None, stride;
    }
    ghost var l := YuvLayout(w, h, format).value;
    assert l == Layout(stride, lumaVstride,
                       if planes == 3 then [lumaSize, chromaSize, chromaSize]
                       else if planes == 2 then [lumaSize, chromaSize] else [lumaSize]);
    err, hnd := AllocPlanes(ion, planes, lumaSize, chromaSize, w, h, format, stride, lumaVstride);
  }

  /** The allocations of gralloc_alloc_yuv, with the closes of its error labels. */
  method AllocPlanes(ion: Ion, planes: nat, lumaSize: nat, chromaSize: nat,
      w: nat, h: nat, format: Format, stride: nat, vstride: nat)
    returns (err: int, hnd: Option<Handle>)
    requires 1 <= planes <= 3
    modifies ion
    ensures Outcome(old(ion.open), ion.open, ion.failed - old(ion.failed), w, h, format,
                    Some(Layout(stride, vstride,
                                if planes == 3 then [lumaSize, chromaSize, chromaSize]
                                else if planes == 2 then [lumaSize, chromaSize] else [lumaSize])),
                    err, hnd, stride)
    ensures old(ion.closed) <= ion.closed && (err == 0 ==> ion.closed == old(ion.closed))
  {
    hide Granted;
    hnd := None;
    ghost var was := ion.open;
    var fd, fd1, fd2 := 0, 0, 0;
    err, fd := ion.AllocFd(lumaSize);
    if err != 0 {
      return;
    }
    if planes == 1 {
      GrantedOne(was, fd, lumaSize);
      hnd := Some(Handle1(fd, lumaSize, w, h, format, stride, vstride));
      assert Fds(hnd.value) == [fd];
    } else {
      err, fd1 := ion.AllocFd(chromaSize);
      if err != 0 {
        ion.Close(fd);
        assert ion.open == was;
        return;
      }
      if planes == 3 {
        err, fd2 := ion.AllocFd(chromaSize);
        if err != 0 {
          ion.Close(fd1);
          ion.Close(fd);
          assert ion.open == was;
          return;
        }
        GrantedThree(was, fd, fd1, fd2, lumaSize, chromaSize, chromaSize);
        hnd := Some(Handle3(fd, fd1, fd2, lumaSize, w, h, format, stride, vstride));
        assert Fds(hnd.value) == [fd, fd1, fd2];
      } else {
        GrantedTwo(was, fd, fd1, lumaSize, chromaSize);
        hnd := Some(Handle2(fd, fd1, lumaSize, w, h, format, stride, vstride));
        assert Fds(hnd.value) == [fd, fd1];
      }
    }
  }

  /** gralloc_alloc: what the packed allocator does not make, the planar one tries. */
  method Alloc(ion: Ion, w: nat, h: nat, format: Format, usage: Usage)
    returns (err: int, hnd: Option<Handle>, stride: nat)
    modifies ion
    ensures err == 0 ==> hnd.Some?
    ensures LayoutOf(w, h, Resolved(format, usage)).None? ==> err == -EINVAL && ion.open == old(ion.open)
    ensures LayoutOf(w, h, Resolved(format, usage)).Some? ==>
              Outcome(old(ion.open), ion.open, ion.failed - old(ion.failed), w, h, Resolved(format, usage),
                      LayoutOf(w, h, Resolved(format, usage)), err, hnd, stride)
  {
    hide Align, Granted, Describes;
    err, hnd, stride := AllocRgb(ion, w, h, format);
    if err != 0 {
      err, hnd, stride := AllocYuv(ion, w, h, format, usage);
    }
    if err != 0 {
      return;
    }
  }

  /** gralloc_free, of a handle whose buffers are still open. */
  method Free(ion: Ion, hnd: Handle) returns (err: int)
    requires Validates(hnd) ==> forall fd | fd in Fds(hnd) :: fd in ion.open
    requires Validates(hnd) ==> forall i, j | 0 <= i < j < |Fds(hnd)| :: Fds(hnd)[i] != Fds(hnd)[j]
    modifies ion
    ensures hnd.numInts + hnd.numFds != 18 || hnd.magic != 0x3141592 <==> !Validates(hnd)
    ensures !Validates(hnd) ==> err == -EINVAL && ion.open == old(ion.open) && ion.closed == old(ion.closed)
    ensures Validates(hnd) ==>
              err == 0 && ion.open == Closed(old(ion.open), Fds(hnd)) && ion.closed == old(ion.closed) + Fds(hnd)
    ensures ion.failed == old(ion.failed)
  {
    if !Validates(hnd) {
      return -EINVAL;
    }
    ghost var fds := Fds(hnd);
    assert fds[0] == hnd.fd;
    ion.Close(hnd.fd);
    if 0 <= hnd.fd1 {
      assert fds[1] == hnd.fd1;
      ion.Close(hnd.fd1);
    }
    if 0 <= hnd.fd2 {
      assert fds[|fds| - 1] == hnd.fd2;
      ion.Close(hnd.fd2);
    }
    assert ion.open == Closed(old(ion.open), Fds(hnd));
    err := 0;
  }

  // -- Conservation over every run --------------------------------------------------------------

  /** The process's table of descriptors, and the pictures that were handed out and not freed. */
  datatype State = State(open: map<int, nat>, live: set<Handle>)

  ghost predicate Sized(open: map<int, nat>, h: Handle) {
    && LayoutOf(h.width, h.height, h.format).Some?
    && var sizes := LayoutOf(h.width, h.height, h.format).value.sizes;
    && |Fds(h)| == |sizes|
    && (forall i | 0 <= i < |sizes| :: Fds(h)[i] in open && open[Fds(h)[i]] == sizes[i])
    && (forall i, j | 0 <= i < j < |sizes| :: Fds(h)[i] != Fds(h)[j])
  }

  ghost predicate Owned(live: set<Handle>, fd: int) {
    exists h :: h in live && fd in Fds(h)
  }

  /**
   * Every live picture has its buffers, of the sizes of its layout; no two share one; and the open
   * descriptors are those that were open before and those of live pictures.
   */
  ghost predicate Accounted(base: map<int, nat>, s: State) {
    && (forall h | h in s.live :: Sized(s.open, h) && Validates(h))
    && (forall h, k, fd | h in s.live && k in s.live && fd in Fds(h) && fd in Fds(k) :: h == k)
    && (forall fd :: fd in s.open <==> fd in base || Owned(s.live, fd))
    && (forall fd | fd in base :: !Owned(s.live, fd) && s.open[fd] == base[fd])
  }

  /** One call: a picture is handed out as the allocator promises, or refused, or a live one is freed. */
  ghost predicate Next(s: State, t: State) {
    || t == s
    || (exists h: Handle ::
          && LayoutOf(h.width, h.height, h.format).Some?
          && Describes(h, h.width, h.height, h.format, LayoutOf(h.width, h.height, h.format).value)
          && Granted(s.open, t.open, Fds(h), LayoutOf(h.width, h.height, h.format).value.sizes)
          && t.live == s.live + {h})
    || (exists h :: h in s.live && t == State(Closed(s.open, Fds(h)), s.live - {h}))
  }

  lemma {:induction false} OpenedIs(open: map<int, nat>, fds: seq<int>, sizes: seq<nat>)
    requires |fds| == |sizes|
    requires forall i, j | 0 <= i < j < |fds| :: fds[i] != fds[j]
    ensures forall fd :: fd in Opened(open, fds, sizes) <==> fd in open || fd in fds
    ensures forall i | 0 <= i < |fds| :: Opened(open, fds, sizes)[fds[i]] == sizes[i]
    ensures forall fd | fd in open && fd !in fds :: Opened(open, fds, sizes)[fd] == open[fd]
  {
    if fds != [] {
      OpenedIs(open, fds[..|fds| - 1], sizes[..|fds| - 1]);
      assert fds == fds[..|fds| - 1] + [fds[|fds| - 1]];
    }
  }

  /** Two tables with the same descriptors, of the same sizes. */
  ghost predicate SameTable(a: map<int, nat>, b: map<int, nat>) {
    && (forall fd :: fd in a <==> fd in b)
    && (forall fd | fd in a && fd in b :: a[fd] == b[fd])
  }

  /** Freeing a picture right after it was handed out leaves the table as it was. */
  lemma FreeUndoesAlloc(was: map<int, nat>, now: map<int, nat>, fds: seq<int>, sizes: seq<nat>)
    requires Granted(was, now, fds, sizes)
    ensures SameTable(Closed(now, fds), was)
  {
    OpenedIs(was, fds, sizes);
    forall fd | fd in fds
      ensures fd !in was
    {
      var i :| 0 <= i < |fds| && fds[i] == fd;
    }
  }

  lemma GrantKeeps(base: map<int, nat>, s: State, h: Handle, now: map<int, nat>)
    requires Accounted(base, s) && Validates(h)
    requires LayoutOf(h.width, h.height, h.format).Some?
    requires Granted(s.open, now, Fds(h), LayoutOf(h.width, h.height, h.format).value.sizes)
    ensures Accounted(base, State(now, s.live + {h})) && h !in s.live
  {
    hide LayoutOf, Fds, Opened, Validates;
    var sizes := LayoutOf(h.width, h.height, h.format).value.sizes;
    OpenedIs(s.open, Fds(h), sizes);
    NewDescriptors(base, s, h);
    var t := State(now, s.live + {h});
    forall k | k in s.live
      ensures Sized(now, k)
    {
      assert Sized(s.open, k);
    }
    assert forall fd :: Owned(t.live, fd) <==> Owned(s.live, fd) || fd in Fds(h);
  }

  lemma NewDescriptors(base: map<int, nat>, s: State, h: Handle)
    requires Accounted(base, s)
    requires forall i | 0 <= i < |Fds(h)| :: Fds(h)[i] !in s.open
    ensures forall fd | fd in Fds(h) :: fd !in s.open && fd !in base && !Owned(s.live, fd)
    ensures h !in s.live
  {
    hide LayoutOf;
    assert h.fd == Fds(h)[0];
    assert h in s.live ==> Owned(s.live, h.fd);
  }

  lemma FreeKeeps(base: map<int, nat>, s: State, h: Handle)
    requires Accounted(base, s) && h in s.live
    ensures Accounted(base, State(Closed(s.open, Fds(h)), s.live - {h}))
  {
    hide LayoutOf, Fds, Validates;
    var t := State(Closed(s.open, Fds(h)), s.live - {h});
    forall k | k in t.live
      ensures Sized(t.open, k)
    {
      assert Sized(s.open, k);
    }
    assert forall fd :: Owned(s.live, fd) <==> Owned(t.live, fd) || fd in Fds(h);
  }

  lemma NextKeeps(base: map<int, nat>, s: State, t: State)
    requires Accounted(base, s) && Next(s, t)
    ensures Accounted(base, t)
  {
    hide Accounted, Granted, LayoutOf, Closed, Fds;
    if t != s {
      if h: Handle :|
        && LayoutOf(h.width, h.height, h.format).Some?
        && Describes(h, h.width, h.height, h.format, LayoutOf(h.width, h.height, h.format).value)
        && Granted(s.open, t.open, Fds(h), LayoutOf(h.width, h.height, h.format).value.sizes)
        && t.live == s.live + {h}
      {
        GrantKeeps(base, s, h, t.open);
      } else {
        var h :| h in s.live && t == State(Closed(s.open, Fds(h)), s.live - {h});
        FreeKeeps(base, s, h);
      }
    }
  }

  /** No run of allocations, refused ones included, and frees leaks a descriptor or closes another's. */
  lemma {:induction false} RunConserves(base: map<int, nat>, run: seq<State>)
    requires 0 < |run| && run[0] == State(base, {})
    requires forall i | 0 < i < |run| :: Next(run[i - 1], run[i])
    ensures Accounted(base, run[|run| - 1])
    ensures run[|run| - 1].live == {} ==> SameTable(run[|run| - 1].open, base)
  {
    hide Next;
    if |run| == 1 {
    } else {
      RunConserves(base, run[..|run| - 1]);
      NextKeeps(base, run[|run| - 2], run[|run| - 1]);
    }
  }

  /** What an allocation leaves behind is a step of such a run, whatever ION answered. */
  lemma OutcomeIsNext(was: map<int, nat>, now: map<int, nat>, refusals: int, w: nat, h: nat, format: Format,
      err: int, hnd: Option<Handle>, stride: nat, live: set<Handle>)
    requires Outcome(was, now, refusals, w, h, format, LayoutOf(w, h, format), err, hnd, stride)
    ensures err == 0 ==> hnd.Some?
    ensures Next(State(was, live), State(now, if err == 0 then live + {hnd.value} else live))
  {
    hide LayoutOf, Granted;
  }

  /** In every reachable state each live picture of a size that fits has all its samples in its own buffers. */
  lemma LiveSamplesInside(base: map<int, nat>, s: State, h: Handle, i: nat, row: nat, col: nat)
    requires Accounted(base, s) && h in s.live && 0 < h.width && 0 < h.height && Fits(h.width, h.height, h.format)
    requires var planes := Planes(h.width, h.height, h.format, LayoutOf(h.width, h.height, h.format).value.stride);
             i < |planes| && row < planes[i].rows && col < planes[i].rowBytes
    ensures var p := Planes(h.width, h.height, h.format, LayoutOf(h.width, h.height, h.format).value.stride)[i];
            p.buffer < |Fds(h)| && Fds(h)[p.buffer] in s.open && SampleByte(p, row, col) < s.open[Fds(h)[p.buffer]]
  {
    hide LayoutOf, Fits, Planes, Fds;
    assert Sized(s.open, h);
    KnownHasLayout(h.width, h.height, h.format);
    SamplesInside(h.width, h.height, h.format);
    var l := LayoutOf(h.width, h.height, h.format).value;
    assert Holds(l.sizes, Planes(h.width, h.height, h.format, l.stride)[i]);
  }
}
