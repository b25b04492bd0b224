/** Ownership of the eight preview buffers as they circulate between window, HAL and camera driver: the states
    and steps, and what every run keeps. */
module PreviewState {
  import opened Bytes

  const NUM_OF_PREVIEW_BUF: nat := 8
  const VIDEO_MAX_FRAME: nat := 32
  const INITIAL_SKIP_FRAME: nat := 8

  /** A graphics buffer. It stands for its handle, its descriptor and its mapped address alike. */
  type Buffer = b: nat | b < NUM_OF_PREVIEW_BUF

  const ALL: set<nat> := set b: nat | b < NUM_OF_PREVIEW_BUF

  /** HAL fields (slots 0..7), camera fields (slots 0..31), and the two other parties: the driver's queue by slot
      and the set of buffers the window holds. */
  datatype State = State(
    available: seq<bool>, handle: seq<Option<Buffer>>, locked: seq<bool>, address: seq<Option<Buffer>>,
    previewBuf: seq<Option<Buffer>>, valid: seq<bool>, started: bool,
    running: bool, skip: nat,
    driver: map<nat, Buffer>, window: set<Buffer>)
  {
    predicate Shape() {
      && |available| == |handle| == |locked| == |address| == NUM_OF_PREVIEW_BUF
      && |previewBuf| == |valid| == VIDEO_MAX_FRAME
    }
  }

  /** What the window and the driver choose: the buffers dequeued by start and the slots the driver gives back
      for cancellation; the slot a frame arrives in and the buffer dequeued for the next one. */
  datatype Event =
    | Start(dequeued: seq<Buffer>, cancelled: seq<nat>) | Frame(slot: nat, next: Buffer) | RequestStop | Stop

  predicate Distinct<T(==)>(s: seq<T>) {
    forall i, j :: 0 <= i < j < |s| ==> s[i] != s[j]
  }

  // ---------- steps ----------

  /** getPreviewBuf: the driver hands over a filled slot. */
  function Get(s: State, slot: nat): State {
    s.(driver := s.driver - {slot})
  }

  /** putPreviewBuf: the slot goes back to the driver with the buffer the camera has noted for it. */
  function Put(s: State, slot: nat): State
    requires s.Shape()
  {
    if slot < VIDEO_MAX_FRAME && s.valid[slot] && s.previewBuf[slot].Some?
    then s.(driver := s.driver[slot := s.previewBuf[slot].value]) else s
  }

  /** The first slot whose address is that of `b`. */
  function FindSlot(address: seq<Option<Buffer>>, b: Buffer): (r: Option<nat>)
    ensures r.Some? ==> r.value < |address| && address[r.value] == Some(b)
    ensures r.Some? ==> forall k :: 0 <= k < r.value ==> address[k] != Some(b)
    ensures r.None? ==> forall k :: 0 <= k < |address| ==> address[k] != Some(b)
  {
    if address == [] then None
    else if address[0] == Some(b) then Some(0)
    else
      match FindSlot(address[1..], b)
      case None => None
      case Some(k) => Some(k + 1)
  }

  /** The frame's own buffer goes to the window, if the slot is available. */
  function Enqueue(s: State, slot: nat): State
    requires s.Shape() && slot < NUM_OF_PREVIEW_BUF
  {
    var s1 := s.(locked := s.locked[slot := false]);
    if s.available[slot] && s.handle[slot].Some?
    then s1.(window := s.window + {s.handle[slot].value}, available := s.available[slot := false])
    else s1
  }

  /** The dequeued buffer takes the slot with its address and is queued at the driver; without such a slot the
      frame's slot is put back. */
  function Requeue(s: State, slot: nat, b: Buffer): State
    requires s.Shape()
  {
    var s1 := s.(window := s.window - {b});
    match FindSlot(s.address, b)
    case None => Put(s1, slot)
    case Some(i) =>
      Put(s1.(handle := s.handle[i := Some(b)], previewBuf := s.previewBuf[i := Some(b)],
              available := s.available[i := true]), i)
  }

  /** m_previewThreadFunc for a frame in `slot`: skipped, put back because a stop was requested, or shown. */
  function ShowFrame(s: State, slot: nat, b: Buffer): State
    requires s.Shape() && slot < NUM_OF_PREVIEW_BUF
  {
    if s.skip > 0 then Put(Get(s, slot).(skip := s.skip - 1), slot)
    else if !s.running then Put(Get(s, slot), slot)
    else Requeue(Enqueue(Get(s, slot), slot), slot, b)
  }

  /** m_startPreviewInternal. */
  function StartPreview(s: State, dequeued: seq<Buffer>, cancelled: seq<nat>): State
    requires s.Shape() && |dequeued| == NUM_OF_PREVIEW_BUF
  {
    var some := seq(NUM_OF_PREVIEW_BUF, i requires 0 <= i < NUM_OF_PREVIEW_BUF => Some(dequeued[i]));
    var kept := seq(NUM_OF_PREVIEW_BUF, i => i !in cancelled);
    var bufs := some + s.previewBuf[NUM_OF_PREVIEW_BUF..];
    s.(handle := some, address := some, available := kept, locked := kept,
       previewBuf := bufs,
       valid := seq(VIDEO_MAX_FRAME, i requires 0 <= i < VIDEO_MAX_FRAME => bufs[i].Some?),
       started := true, running := true, skip := INITIAL_SKIP_FRAME,
       driver := map i: nat | i < VIDEO_MAX_FRAME && bufs[i].Some? && i !in cancelled :: bufs[i].value,
       window := (s.window - (set b | b in dequeued))
         + (set i | i in cancelled && i < NUM_OF_PREVIEW_BUF :: dequeued[i]))
  }

  /** stopPreview of the camera, then m_stopPreviewInternal: the driver drops its queue, available slots are
      cancelled to the window. */
  function StopPreview(s: State): State
    requires s.Shape()
  {
    var back := seq(NUM_OF_PREVIEW_BUF, i requires 0 <= i < NUM_OF_PREVIEW_BUF => s.available[i] && s.handle[i].Some?);
    s.(driver := map[], started := false, running := false,
       locked := seq(NUM_OF_PREVIEW_BUF, i requires 0 <= i < NUM_OF_PREVIEW_BUF => s.locked[i] && s.handle[i].None?),
       available :=
         seq(NUM_OF_PREVIEW_BUF, i requires 0 <= i < NUM_OF_PREVIEW_BUF => s.available[i] && s.handle[i].None?),
       handle :=
         seq(NUM_OF_PREVIEW_BUF, i requires 0 <= i < NUM_OF_PREVIEW_BUF => if back[i] then None else s.handle[i]),
       window := s.window + (set i: nat | i < NUM_OF_PREVIEW_BUF && back[i] :: s.handle[i].value))
  }

  /** What the window and the driver may do. */
  predicate Enabled(s: State, e: Event, minUndequeued: nat)
    requires s.Shape()
  {
    match e
    case Start(d, c) =>
      && !s.started && |d| == NUM_OF_PREVIEW_BUF && Distinct(d) && (forall b :: b in d ==> b in s.window)
      && |c| == minUndequeued && Distinct(c) && forall i :: i in c ==> i < NUM_OF_PREVIEW_BUF
    case Frame(slot, b) =>
      && s.started && slot in s.driver && slot < NUM_OF_PREVIEW_BUF
      && b in s.window + (if s.handle[slot].Some? then {s.handle[slot].value} else {})
    case RequestStop => s.started
    case Stop => s.started && !s.running
  }

  function Apply(s: State, e: Event): State
    requires s.Shape()
    requires (e.Start? ==> |e.dequeued| == NUM_OF_PREVIEW_BUF) && (e.Frame? ==> e.slot < NUM_OF_PREVIEW_BUF)
  {
    match e
    case Start(d, c) => StartPreview(s, d, c)
    case Frame(slot, b) => ShowFrame(s, slot, b)
    case RequestStop => s.(running := false)
    case Stop => StopPreview(s)
  }

  // ---------- invariants ----------

  /** Between runs everything is with the window and no lock flag is left over. */
  predicate Idle(s: State) {
    && s.Shape() && !s.started && !s.running
    && s.window == ALL && s.driver == map[]
    && (forall i :: 0 <= i < NUM_OF_PREVIEW_BUF ==> !s.available[i] && !s.locked[i])
    && (forall i :: NUM_OF_PREVIEW_BUF <= i < VIDEO_MAX_FRAME ==> s.previewBuf[i] == None)
  }

  /** While the preview runs: slots and buffers correspond one to one; the available slots are those queued at the
      driver; every other buffer is with the window. */
  predicate Streaming(s: State, minUndequeued: nat) {
    && s.Shape() && s.started
    && (forall i :: 0 <= i < NUM_OF_PREVIEW_BUF ==>
      s.address[i].Some? && s.handle[i] == s.address[i] && s.previewBuf[i] == s.address[i] && s.valid[i])
    && (forall i :: NUM_OF_PREVIEW_BUF <= i < VIDEO_MAX_FRAME ==> s.previewBuf[i] == None && !s.valid[i])
    && Distinct(s.address)
    && (forall i :: i in s.driver ==> i < NUM_OF_PREVIEW_BUF && s.address[i] == Some(s.driver[i]))
    && (forall i :: 0 <= i < NUM_OF_PREVIEW_BUF ==> (s.available[i] <==> i in s.driver))
    && (forall i :: 0 <= i < NUM_OF_PREVIEW_BUF ==> (i in s.driver <==> s.address[i].value !in s.window))
    && |s.driver| + minUndequeued == NUM_OF_PREVIEW_BUF
  }

  predicate Inv(s: State, minUndequeued: nat) {
    Idle(s) || Streaming(s, minUndequeued)
  }

  /** A buffer has exactly one owner: the window, or one slot of the driver's queue. */
  predicate OneOwner(s: State, b: Buffer) {
    if b in s.window then forall i :: i in s.driver ==> s.driver[i] != b
    else exists i :: i in s.driver && s.driver[i] == b && forall j :: j in s.driver && s.driver[j] == b ==> j == i
  }

  // ---------- counting ----------

  function Elements(d: seq<nat>): set<nat> {
    set x | x in d
  }

  lemma {:induction false} DistinctSize(d: seq<nat>)
    requires Distinct(d)
    ensures |Elements(d)| == |d|
  {
    if d != [] {
      var t, x := d[..|d| - 1], d[|d| - 1];
      DistinctSize(t);
      assert x !in t;
      assert forall y :: y in d <==> y in t || y == x;
      assert Elements(d) == Elements(t) + {x};
    }
  }

  lemma AllSize()
    ensures |ALL| == NUM_OF_PREVIEW_BUF
  {
    assert ALL == {0, 1, 2, 3, 4, 5, 6, 7};
  }

  lemma SubsetSize(a: set<nat>, b: set<nat>)
    requires a <= b && |a| >= |b|
    ensures a == b
  {
    if a != b {
      var x :| x in b && x !in a;
      SubsetLeq(a, b - {x});
    }
  }

  lemma {:induction false} SubsetLeq(a: set<nat>, b: set<nat>)
    requires a <= b
    ensures |a| <= |b|
  {
    if a != {} {
      var x :| x in a;
      SubsetLeq(a - {x}, b - {x});
    }
  }

  /** Eight different buffers are all the buffers. */
  lemma Covers(d: seq<Buffer>, b: Buffer)
    requires |d| == NUM_OF_PREVIEW_BUF && Distinct(d)
    ensures b in d
  {
    DistinctSize(d);
    AllSize();
    SubsetSize(Elements(d), ALL);
    assert b in ALL;
  }

  function Values(a: seq<Option<Buffer>>): seq<Buffer>
    requires forall i :: 0 <= i < |a| ==> a[i].Some?
  {
    seq(|a|, i requires 0 <= i < |a| => a[i].value)
  }

  /** Every buffer has a slot. */
  lemma SlotOf(s: State, b: Buffer, minUndequeued: nat) returns (i: nat)
    requires Streaming(s, minUndequeued)
    ensures i < NUM_OF_PREVIEW_BUF && s.address[i] == Some(b) && FindSlot(s.address, b) == Some(i)
  {
    var d := Values(s.address);
    forall i, j | 0 <= i < j < |d|
      ensures d[i] != d[j]
    {
      assert s.address[i] != s.address[j];
    }
    Covers(d, b);
    var k :| 0 <= k < |d| && d[k] == b;
    assert s.address[k] == Some(b);
    i := FindSlot(s.address, b).value;
  }

  // ---------- every step keeps the invariant ----------

  lemma PutBackKeeps(s: State, slot: nat, minUndequeued: nat)
    requires Streaming(s, minUndequeued) && slot in s.driver
    ensures Put(Get(s, slot), slot) == s
  {
    assert (s.driver - {slot})[slot := s.driver[slot]] == s.driver;
  }

  /** What showing a frame changes. */
  lemma ShowResult(s: State, slot: nat, b: Buffer, i: nat, minUndequeued: nat)
    requires Streaming(s, minUndequeued) && slot in s.driver && FindSlot(s.address, b) == Some(i)
    ensures Swapped(s, slot, b, i, Requeue(Enqueue(Get(s, slot), slot), slot, b))
  {
    assert s.handle[i := Some(b)] == s.handle && s.previewBuf[i := Some(b)] == s.previewBuf;
  }

  /** A shown frame: the frame's slot goes to the window, the dequeued buffer's slot to the driver. */
  predicate Swapped(s: State, slot: nat, b: Buffer, i: nat, r: State) {
    && s.Shape() && slot in s.driver && slot < NUM_OF_PREVIEW_BUF && i < NUM_OF_PREVIEW_BUF
    && r == s.(
      locked := s.locked[slot := false], available := s.available[slot := false][i := true],
      driver := (s.driver - {slot})[i := b], window := s.window + {s.driver[slot]} - {b})
  }

  lemma SwapDriver(s: State, slot: nat, b: Buffer, i: nat, r: State, minUndequeued: nat)
    requires Streaming(s, minUndequeued) && Swapped(s, slot, b, i, r) && s.address[i] == Some(b)
    requires b in s.window || s.handle[slot] == Some(b)
    ensures i == slot || (i !in s.driver && b in s.window)
    ensures |r.driver| == |s.driver|
    ensures forall k :: k in r.driver <==> k == i || (k != slot && k in s.driver)
    ensures forall k | k in r.driver :: r.driver[k] == if k == i then b else s.driver[k]
  {
    assert |s.driver - {slot}| == |s.driver| - 1;
    assert i !in s.driver - {slot};
  }

  lemma SwapAvailable(s: State, slot: nat, b: Buffer, i: nat, r: State, minUndequeued: nat)
    requires Streaming(s, minUndequeued) && Swapped(s, slot, b, i, r)
    requires forall k :: k in r.driver <==> k == i || (k != slot && k in s.driver)
    ensures forall k :: 0 <= k < NUM_OF_PREVIEW_BUF ==> (r.available[k] <==> k in r.driver)
  {
  }

  lemma SwapWindow(s: State, slot: nat, b: Buffer, i: nat, r: State, minUndequeued: nat)
    requires Streaming(s, minUndequeued) && Swapped(s, slot, b, i, r) && s.address[i] == Some(b)
    requires forall k :: k in r.driver <==> k == i || (k != slot && k in s.driver)
    ensures forall k :: 0 <= k < NUM_OF_PREVIEW_BUF ==> (k in r.driver <==> r.address[k].value !in r.window)
  {
    forall k | 0 <= k < NUM_OF_PREVIEW_BUF
      ensures k in r.driver <==> r.address[k].value !in r.window
    {
      assert k != i ==> s.address[k] != Some(b);
      assert k != slot ==> s.address[k] != Some(s.driver[slot]);
    }
  }

  lemma SwapKeeps(s: State, slot: nat, b: Buffer, i: nat, r: State, minUndequeued: nat)
    requires Streaming(s, minUndequeued) && Swapped(s, slot, b, i, r) && s.address[i] == Some(b)
    requires b in s.window || s.handle[slot] == Some(b)
    ensures Streaming(r, minUndequeued)
  {
    SwapDriver(s, slot, b, i, r, minUndequeued);
    SwapAvailable(s, slot, b, i, r, minUndequeued);
    SwapWindow(s, slot, b, i, r, minUndequeued);
  }

  lemma ShowKeeps(s: State, slot: nat, b: Buffer, minUndequeued: nat)
    requires Streaming(s, minUndequeued) && slot in s.driver
    requires b in s.window || s.handle[slot] == Some(b)
    ensures Streaming(Requeue(Enqueue(Get(s, slot), slot), slot, b), minUndequeued)
  {
    hide Requeue, FindSlot;
    var i := SlotOf(s, b, minUndequeued);
    ShowResult(s, slot, b, i, minUndequeued);
    SwapKeeps(s, slot, b, i, Requeue(Enqueue(Get(s, slot), slot), slot, b), minUndequeued);
  }

  lemma FrameKeeps(s: State, slot: nat, b: Buffer, minUndequeued: nat)
    requires Streaming(s, minUndequeued) && Enabled(s, Frame(slot, b), minUndequeued)
    ensures Streaming(ShowFrame(s, slot, b), minUndequeued)
  {
    PutBackKeeps(s, slot, minUndequeued);
    if s.skip == 0 && s.running {
      ShowKeeps(s, slot, b, minUndequeued);
    }
  }

  lemma StartKeeps(s: State, d: seq<Buffer>, c: seq<nat>, minUndequeued: nat)
    requires Idle(s) && Enabled(s, Start(d, c), minUndequeued) && minUndequeued <= NUM_OF_PREVIEW_BUF
    ensures Streaming(StartPreview(s, d, c), minUndequeued)
  {
    var r := StartPreview(s, d, c);
    forall b: Buffer
      ensures b in d
    {
      Covers(d, b);
    }
    forall i, j | 0 <= i < j < NUM_OF_PREVIEW_BUF
      ensures r.address[i] != r.address[j]
    {
      assert d[i] != d[j];
    }
    forall i | 0 <= i < NUM_OF_PREVIEW_BUF
      ensures i in r.driver <==> i !in c
      ensures i in r.driver <==> r.address[i].value !in r.window
    {
      assert forall j :: 0 <= j < NUM_OF_PREVIEW_BUF && d[j] == d[i] ==> j == i;
    }
    StartSize(s, d, c, minUndequeued);
  }

  /** What is queued and what was cancelled make eight. */
  lemma StartSize(s: State, d: seq<Buffer>, c: seq<nat>, minUndequeued: nat)
    requires Idle(s) && Enabled(s, Start(d, c), minUndequeued)
    ensures |StartPreview(s, d, c).driver| + minUndequeued == NUM_OF_PREVIEW_BUF
  {
    hide StartPreview;
    var keys := StartPreview(s, d, c).driver.Keys;
    assert keys == ALL - Elements(c) by {
      forall i: nat
        ensures i in keys <==> i in ALL && i !in Elements(c)
      {
        StartDriver(s, d, c, i);
      }
    }
    DistinctSize(c);
    AllSize();
    assert Elements(c) <= ALL;
    assert |ALL - Elements(c)| == |ALL| - |Elements(c)|;
  }

  lemma StartDriver(s: State, d: seq<Buffer>, c: seq<nat>, i: nat)
    requires Idle(s) && |d| == NUM_OF_PREVIEW_BUF
    ensures i in StartPreview(s, d, c).driver.Keys <==> i < NUM_OF_PREVIEW_BUF && i !in c
  {
    var rest := s.previewBuf[NUM_OF_PREVIEW_BUF..];
    assert NUM_OF_PREVIEW_BUF <= i < VIDEO_MAX_FRAME ==> rest[i - NUM_OF_PREVIEW_BUF] == None;
  }

  lemma StopKeeps(s: State, minUndequeued: nat)
    requires Streaming(s, minUndequeued)
    ensures Idle(StopPreview(s))
  {
    var r := StopPreview(s);
    forall b: Buffer
      ensures b in r.window
    {
      var i := SlotOf(s, b, minUndequeued);
      assert i in s.driver ==> s.available[i] && s.handle[i] == Some(b);
    }
    assert r.window == ALL;
  }

  /** Every step of every party keeps the invariant. */
  lemma StepKeeps(s: State, e: Event, minUndequeued: nat)
    requires Inv(s, minUndequeued) && Enabled(s, e, minUndequeued) && minUndequeued < NUM_OF_PREVIEW_BUF
    ensures Inv(Apply(s, e), minUndequeued)
  {
    hide StartPreview, StopPreview, ShowFrame;
    match e
    case Start(d, c) => StartKeeps(s, d, c, minUndequeued);
    case Frame(slot, b) => FrameKeeps(s, slot, b, minUndequeued);
    case RequestStop =>
    case Stop => StopKeeps(s, minUndequeued);
  }

  // ---------- what each step does ----------

  /** A frame: while frames are skipped, and when a stop was requested, it goes back to the driver and nothing else
      changes. Else its buffer goes to the window, and the one that the window hands out is queued at the driver in
      the slot `i` that has its address. */
  lemma FrameShown(s: State, slot: nat, b: Buffer, minUndequeued: nat) returns (i: nat)
    requires Streaming(s, minUndequeued) && Enabled(s, Frame(slot, b), minUndequeued)
    ensures i < NUM_OF_PREVIEW_BUF && s.address[i] == Some(b)
    ensures var r := Apply(s, Frame(slot, b));
      && (s.skip > 0 ==> r == s.(skip := s.skip - 1))
      && (s.skip == 0 && !s.running ==> r == s)
      && (s.skip == 0 && s.running ==>
        && r.window == s.window + {s.driver[slot]} - {b}
        && (forall k :: k in r.driver <==> k == i || (k != slot && k in s.driver))
        && (forall k | k in r.driver :: r.driver[k] == if k == i then b else s.driver[k])
        && r.available == s.available[slot := false][i := true] && r.locked == s.locked[slot := false]
        && r == s.(window := r.window, driver := r.driver, available := r.available, locked := r.locked))
  {
    hide Requeue, FindSlot;
    i := SlotOf(s, b, minUndequeued);
    PutBackKeeps(s, slot, minUndequeued);
    if s.skip > 0 {
      SkipKeeps(s, slot);
    } else if s.running {
      var r := Apply(s, Frame(slot, b));
      ShowResult(s, slot, b, i, minUndequeued);
      SwapDriver(s, slot, b, i, r, minUndequeued);
    }
  }

  lemma SkipKeeps(s: State, slot: nat)
    requires s.Shape() && s.skip > 0
    ensures Put(Get(s, slot).(skip := s.skip - 1), slot) == Put(Get(s, slot), slot).(skip := s.skip - 1)
  {
  }

  /** The start: slot `i` gets the `i`-th dequeued buffer; the slots given back are with the window again, the
      others queued at the driver; eight frames are to be skipped. */
  lemma StartDoes(s: State, d: seq<Buffer>, c: seq<nat>, minUndequeued: nat)
    requires Idle(s) && Enabled(s, Start(d, c), minUndequeued)
    ensures var r := Apply(s, Start(d, c));
      && r.Shape() && r.started && r.running && r.skip == 8
      && (forall i :: 0 <= i < 8 ==>
        && r.handle[i] == r.address[i] == r.previewBuf[i] == Some(d[i])
        && r.valid[i] && r.available[i] == r.locked[i] == (i !in c))
      && (forall i: nat :: i in r.driver <==> i < 8 && i !in c)
      && (forall i | i in r.driver :: r.driver[i] == d[i])
      && (forall i :: 0 <= i < 8 ==> (d[i] in r.window <==> i in c))
  {
    var r := Apply(s, Start(d, c));
    forall i: nat
      ensures i in r.driver <==> i < 8 && i !in c
    {
      StartDriver(s, d, c, i);
    }
    forall i | 0 <= i < 8
      ensures d[i] in r.window <==> i in c
    {
      assert forall j :: 0 <= j < 8 && d[j] == d[i] ==> j == i;
    }
  }

  /** A stop can follow every request. Then the window has all buffers, the driver none, and the slots that were
      available no handle any more. */
  lemma StopDoes(s: State, minUndequeued: nat)
    requires Streaming(s, minUndequeued)
    ensures var t := Apply(s, RequestStop); t == s.(running := false) && Enabled(t, Stop, minUndequeued)
    ensures var r := Apply(s, Stop);
      && r.Shape() && !r.started && !r.running && r.driver == map[] && (forall b: Buffer :: b in r.window)
      && (forall i :: 0 <= i < 8 ==>
        !r.available[i] && !r.locked[i] && r.handle[i] == if i in s.driver then None else s.handle[i])
      && r.address == s.address && r.previewBuf == s.previewBuf && r.valid == s.valid && r.skip == s.skip
  {
    StopKeeps(s, minUndequeued);
    assert forall b: Buffer :: b in ALL;
  }

  /** As long as frames are skipped a run of frames changes nothing but their number. */
  lemma {:induction false} FirstFramesSkipped(s: State, es: seq<Event>, minUndequeued: nat)
    requires Streaming(s, minUndequeued) && |es| <= s.skip && forall e :: e in es ==> e.Frame?
    requires RunEvents(s, es, minUndequeued).Some?
    ensures RunEvents(s, es, minUndequeued) == Some(s.(skip := s.skip - |es|))
    decreases |es|
  {
    hide Enabled, Apply, Streaming, Idle, RunEvents;
    InvShape(s, minUndequeued);
    RunHead(s, es, minUndequeued);
    if es != [] {
      assert es[0] in es;
      SkipOne(s, es[0].slot, es[0].next, minUndequeued);
      FirstFramesSkipped(s.(skip := s.skip - 1), es[1..], minUndequeued);
    }
  }

  lemma RunHead(s: State, es: seq<Event>, minUndequeued: nat)
    requires s.Shape() && RunEvents(s, es, minUndequeued).Some?
    ensures es == [] ==> RunEvents(s, es, minUndequeued) == Some(s)
    ensures es != [] ==> Enabled(s, es[0], minUndequeued) && Apply(s, es[0]).Shape()
    ensures es != [] ==> RunEvents(s, es, minUndequeued) == RunEvents(Apply(s, es[0]), es[1..], minUndequeued)
  {
    hide Apply;
  }

  lemma SkipOne(s: State, slot: nat, b: Buffer, minUndequeued: nat)
    requires Streaming(s, minUndequeued) && s.skip > 0 && Enabled(s, Frame(slot, b), minUndequeued)
    ensures Apply(s, Frame(slot, b)) == s.(skip := s.skip - 1) && Streaming(s.(skip := s.skip - 1), minUndequeued)
  {
    hide Apply;
    var _ := FrameShown(s, slot, b, minUndequeued);
  }

  // ---------- whole runs ----------

  /** The state after a run, or nothing if some step was not possible. */
  function RunEvents(s: State, es: seq<Event>, minUndequeued: nat): Option<State>
    requires s.Shape()
    decreases |es|
  {
    if es == [] then Some(s)
    else if !Enabled(s, es[0], minUndequeued) then None
    else
      var s1 := Apply(s, es[0]);
      if s1.Shape() then RunEvents(s1, es[1..], minUndequeued) else None
  }

  lemma {:induction false} RunKeeps(s: State, es: seq<Event>, minUndequeued: nat)
    requires Inv(s, minUndequeued) && minUndequeued < NUM_OF_PREVIEW_BUF
    ensures var r := RunEvents(s, es, minUndequeued); r.Some? ==> Inv(r.value, minUndequeued)
    decreases |es|
  {
    hide Apply, Idle, Streaming;
    if es != [] {
      InvShape(s, minUndequeued);
      if Enabled(s, es[0], minUndequeued) {
        StepKeeps(s, es[0], minUndequeued);
        InvShape(Apply(s, es[0]), minUndequeued);
        RunKeeps(Apply(s, es[0]), es[1..], minUndequeued);
      }
    } else {
      InvShape(s, minUndequeued);
    }
  }

  lemma InvShape(s: State, minUndequeued: nat)
    requires Inv(s, minUndequeued)
    ensures s.Shape()
  {
  }

  lemma OwnedOnce(s: State, b: Buffer, minUndequeued: nat)
    requires Inv(s, minUndequeued)
    ensures OneOwner(s, b)
  {
    if s.started {
      var i := SlotOf(s, b, minUndequeued);
      if b !in s.window {
        assert i in s.driver && s.driver[i] == b;
        forall j | j in s.driver && s.driver[j] == b
          ensures j == i
        {
          assert s.address[j] == s.address[i];
        }
      } else {
        forall j | j in s.driver
          ensures s.driver[j] != b
        {
          assert s.address[j].value !in s.window;
        }
      }
    }
  }

  /** Main result: in every run from an idle state each buffer has exactly one owner; while the preview runs the
      available slots are exactly those queued at the driver, eight minus the undequeued ones; when it does not run
      all eight buffers are with the window. */
  lemma Ownership(s: State, es: seq<Event>, minUndequeued: nat)
    requires Idle(s) && minUndequeued < NUM_OF_PREVIEW_BUF
    requires RunEvents(s, es, minUndequeued).Some?
    ensures var r := RunEvents(s, es, minUndequeued).value;
      && r.Shape()
      && (forall b: Buffer :: OneOwner(r, b))
      && (if r.started
          then |r.driver| == NUM_OF_PREVIEW_BUF - minUndequeued
            && forall i: nat :: i in r.driver <==> i < NUM_OF_PREVIEW_BUF && r.available[i]
          else r.window == ALL && r.driver == map[])
  {
    hide RunEvents, OneOwner;
    RunKeeps(s, es, minUndequeued);
    var r := RunEvents(s, es, minUndequeued).value;
    forall b: Buffer
      ensures OneOwner(r, b)
    {
      OwnedOnce(r, b, minUndequeued);
    }
  }

  /** No step gets stuck: a frame in any queued slot can be shown, whatever the window hands out next, the frame's
      own buffer or one that it had. */
  lemma FramesPossible(s: State, slot: nat, b: Buffer, minUndequeued: nat)
    requires Streaming(s, minUndequeued) && slot in s.driver
    ensures Enabled(s, Frame(slot, b), minUndequeued) <==> b == s.driver[slot] || b in s.window
    ensures Enabled(s, RequestStop, minUndequeued)
  {
  }

  /** From an idle state every eight different buffers can be dequeued, in any order, and any slots given back. */
  lemma StartPossible(s: State, d: seq<Buffer>, c: seq<nat>, minUndequeued: nat)
    requires Idle(s) && |d| == 8 && Distinct(d)
    requires |c| == minUndequeued && Distinct(c) && forall i :: i in c ==> i < 8
    ensures Enabled(s, Start(d, c), minUndequeued)
  {
    forall b | b in d
      ensures b in ALL
    {
      assert b < NUM_OF_PREVIEW_BUF;
    }
  }

  /** The path of m_previewThreadFunc when the window takes the frame's buffer but hands out none. */
  function FrameWithoutDequeue(s: State, slot: nat): State
    requires s.Shape() && slot < NUM_OF_PREVIEW_BUF
  {
    Put(Enqueue(Get(s, slot), slot), slot)
  }

  /**
   * The runs above leave out a window that fails to hand out a buffer, and for a reason: such a frame
   * always queues at the driver the very buffer that the window has just taken.
   */
  lemma FailedDequeueSharesTheBuffer(s: State, slot: nat, minUndequeued: nat)
    requires Streaming(s, minUndequeued) && slot in s.driver && slot < NUM_OF_PREVIEW_BUF
    ensures var r := FrameWithoutDequeue(s, slot); var b := s.driver[slot];
            b in r.window && slot in r.driver && r.driver[slot] == b && !OneOwner(r, b)
  {
    var r := FrameWithoutDequeue(s, slot);
    assert s.available[slot] && s.handle[slot] == Some(s.driver[slot]);
    assert r.driver == s.driver - {slot} + map[slot := s.driver[slot]];
  }
}
