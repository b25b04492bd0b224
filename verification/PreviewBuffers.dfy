/** The preview code itself: slot arrays of the HAL, buffer arrays of the camera, updated in place. Every method is
    proved to make the corresponding step of PreviewState. */
module PreviewBuffers {
  import opened Bytes
  import opened PreviewState

  class Preview {
    // fields of the HAL
    const available: array<bool>
    const handle: array<Option<Buffer>>
    const locked: array<bool>
    const address: array<Option<Buffer>>
    var previewRunning: bool
    var skipFrame: nat
    // fields of the camera
    const previewBuf: array<Option<Buffer>>
    const validPreviewBuf: array<bool>
    var flagStart: bool
    // the other parties
    var driver: map<nat, Buffer>
    var window: set<Buffer>

    ghost predicate Valid() {
      && available.Length == handle.Length == locked.Length == address.Length == NUM_OF_PREVIEW_BUF
      && previewBuf.Length == validPreviewBuf.Length == VIDEO_MAX_FRAME
      && available != locked && available != validPreviewBuf && locked != validPreviewBuf
      && handle != address && handle != previewBuf && address != previewBuf
    }

    ghost function View(): State
      reads this, available, handle, locked, address, previewBuf, validPreviewBuf
    {
      State(available[..], handle[..], locked[..], address[..], previewBuf[..], validPreviewBuf[..], flagStart,
            previewRunning, skipFrame, driver, window)
    }

    /** Fresh slots; the window holds all buffers. */
    constructor ()
      ensures Valid() && Idle(View())
      ensures fresh(available) && fresh(handle) && fresh(locked) && fresh(address)
      ensures fresh(previewBuf) && fresh(validPreviewBuf)
    {
      available := new bool[NUM_OF_PREVIEW_BUF](_ => false);
      handle := new Option<Buffer>[NUM_OF_PREVIEW_BUF](_ => None);
      locked := new bool[NUM_OF_PREVIEW_BUF](_ => false);
      address := new Option<Buffer>[NUM_OF_PREVIEW_BUF](_ => None);
      previewBuf := new Option<Buffer>[VIDEO_MAX_FRAME](_ => None);
      validPreviewBuf := new bool[VIDEO_MAX_FRAME](_ => false);
      previewRunning, skipFrame, flagStart := false, 0, false;
      driver := map[];
      window := set b: Buffer | b in ALL;
    }

    /** getPreviewBuf: the driver hands over `slot`, and the camera returns the buffer it has noted for it. */
    method GetPreviewBuf(slot: nat) returns (ok: bool, buf: Option<Buffer>)
      requires Valid()
      modifies this`driver
      ensures ok == (flagStart && slot < VIDEO_MAX_FRAME)
      ensures View() == if flagStart then Get(old(View()), slot) else old(View())
      ensures ok ==> buf == previewBuf[slot]
      ensures driver == if flagStart then old(driver) - {slot} else old(driver)
    {
      ok, buf := false, None;
      if flagStart == false {
        return;
      }
      driver := driver - {slot};
      if VIDEO_MAX_FRAME <= slot {
        return;
      }
      ok, buf := true, previewBuf[slot];
    }

    /** putPreviewBuf. */
    method PutPreviewBuf(slot: nat) returns (ok: bool)
      requires Valid() && slot < VIDEO_MAX_FRAME
      modifies this`driver
      ensures View() == Put(old(View()), slot)
      ensures ok == (validPreviewBuf[slot] && previewBuf[slot].Some?)
      ensures driver == if ok then old(driver)[slot := previewBuf[slot].value] else old(driver)
    {
      if validPreviewBuf[slot] == false {
        return false;
      }
      if previewBuf[slot].None? {
        return false;
      }
      driver := driver[slot := previewBuf[slot].value];
      ok := true;
    }

    /** m_setWidthHeight: slots with a buffer are valid and queued. */
    method SetWidthHeight()
      requires Valid()
      modifies this`driver, validPreviewBuf
      ensures driver == map i: nat | i < VIDEO_MAX_FRAME && previewBuf[i].Some? :: previewBuf[i].value
      ensures forall i :: 0 <= i < VIDEO_MAX_FRAME ==> validPreviewBuf[i] == previewBuf[i].Some?
    {
      var i: nat := 0;
      while i < VIDEO_MAX_FRAME
        invariant i <= VIDEO_MAX_FRAME
        invariant forall k :: 0 <= k < i ==> validPreviewBuf[k] == previewBuf[k].Some?
      {
        validPreviewBuf[i] := previewBuf[i].Some?;
        i := i + 1;
      }
      driver := map[];
      i := 0;
      while i < VIDEO_MAX_FRAME
        modifies this`driver
        invariant i <= VIDEO_MAX_FRAME
        invariant driver == map k: nat | k < i && previewBuf[k].Some? :: previewBuf[k].value
      {
        if validPreviewBuf[i] {
          driver := driver[i := previewBuf[i].value];
        }
        i := i + 1;
      }
    }

    /** The part of m_previewThreadFunc that hands the frame's own buffer to the window. */
    method EnqueueShown(slot: nat)
      requires Valid() && slot < NUM_OF_PREVIEW_BUF && handle[slot].Some?
      modifies this`window, available, locked
      ensures View() == Enqueue(old(View()), slot)
    {
      ghost var s0 := View();
      if locked[slot] {
        locked[slot] := false;
      }
      assert locked[..] == s0.locked[slot := false];
      if available[slot] {
        window := window + {handle[slot].value};
        available[slot] := false;
      }
    }

    /** The part of m_previewThreadFunc that shows the frame in `slot`; the window hands out `b` next. */
    method Show(slot: nat, b: Buffer)
      requires Valid() && slot < NUM_OF_PREVIEW_BUF
      requires handle[slot].Some?
      modifies this, available, handle, locked, previewBuf
      ensures View() == Requeue(Enqueue(old(View()), slot), slot, b)
    {
      hide Enqueue, FindSlot;
      EnqueueShown(slot);
      window := window - {b};
      var i := Match(b);
      if i < NUM_OF_PREVIEW_BUF {
        handle[i] := Some(b);
        previewBuf[i] := Some(b);
        available[i] := true;
        var ok := PutPreviewBuf(i);
      } else {
        var ok := PutPreviewBuf(slot);
      }
    }

    /** The search for the slot whose address is that of `b`; NUM_OF_PREVIEW_BUF if there is none. */
    method Match(b: Buffer) returns (i: nat)
      requires Valid()
      ensures match FindSlot(address[..], b)
        case Some(k) => i == k
        case None => i == NUM_OF_PREVIEW_BUF
    {
      i := 0;
      while i < NUM_OF_PREVIEW_BUF
        invariant i <= NUM_OF_PREVIEW_BUF
        invariant forall k :: 0 <= k < i ==> address[k] != Some(b)
      {
        if address[i] == Some(b) {
          break;
        }
        i := i + 1;
      }
    }

    /** m_previewThreadFunc for a frame in `slot`; nothing happens before the driver is started. */
    method PreviewThreadFunc(slot: nat, b: Buffer) returns (ok: bool)
      requires Valid() && slot < NUM_OF_PREVIEW_BUF && handle[slot].Some?
      modifies this, available, handle, locked, previewBuf
      ensures View() == if old(flagStart) then ShowFrame(old(View()), slot, b) else old(View())
      ensures ok == (old(flagStart) && (old(skipFrame) > 0 ==> validPreviewBuf[slot] && previewBuf[slot].Some?))
    {
      var got, _ := GetPreviewBuf(slot);
      if got == false {
        return false;
      }
      if 0 < skipFrame {
        skipFrame := skipFrame - 1;
        ok := PutPreviewBuf(slot);
        return;
      }
      if previewRunning {
        Show(slot, b);
      } else {
        var put := PutPreviewBuf(slot);
      }
      ok := true;
    }

    /** One slot of m_stopPreviewInternal: unlock it, give an available buffer back to the window. */
    method ReturnSlot(i: nat)
      requires Valid() && i < NUM_OF_PREVIEW_BUF
      modifies this`window, available, handle, locked
      ensures locked[..] == old(locked[..])[i := old(locked[i] && handle[i].None?)]
      ensures available[..] == old(available[..])[i := old(available[i] && handle[i].None?)]
      ensures handle[..] == old(handle[..])[i := if old(available[i]) then None else old(handle[i])]
      ensures window == old(window) + if old(available[i] && handle[i].Some?) then {old(handle[i].value)} else {}
    {
      if handle[i].Some? {
        if locked[i] {
          locked[i] := false;
        }
        if available[i] {
          window := window + {handle[i].value};
          handle[i] := None;
          available[i] := false;
        }
      }
    }

    /** The loop of m_stopPreviewInternal. */
    method ReturnSlots()
      requires Valid()
      modifies this`window, available, handle, locked
      ensures forall k :: 0 <= k < NUM_OF_PREVIEW_BUF ==> locked[k] == (old(locked[k]) && old(handle[k]).None?)
      ensures forall k :: 0 <= k < NUM_OF_PREVIEW_BUF ==> available[k] == (old(available[k]) && old(handle[k]).None?)
      ensures forall k :: 0 <= k < NUM_OF_PREVIEW_BUF ==>
        handle[k] == if old(available[k]) then None else old(handle[k])
      ensures window == old(window) + Returned(old(available[..]), old(handle[..]), NUM_OF_PREVIEW_BUF)
    {
      ghost var a0, h0 := available[..], handle[..];
      var i: nat := 0;
      while i < NUM_OF_PREVIEW_BUF
        invariant i <= NUM_OF_PREVIEW_BUF
        invariant forall k :: i <= k < NUM_OF_PREVIEW_BUF ==>
          available[k] == a0[k] && handle[k] == h0[k] && locked[k] == old(locked[k])
        invariant forall k :: 0 <= k < i ==> locked[k] == (old(locked[k]) && h0[k].None?)
        invariant forall k :: 0 <= k < i ==> available[k] == (a0[k] && h0[k].None?)
        invariant forall k :: 0 <= k < i ==> handle[k] == if a0[k] then None else h0[k]
        invariant window == old(window) + Returned(a0, h0, i)
      {
        ReturnSlot(i);
        i := i + 1;
      }
    }

    /** stopPreview of the camera and m_stopPreviewInternal. */
    method StopPreviewInternal()
      requires Valid()
      modifies this, available, handle, locked
      ensures View() == StopPreview(old(View()))
    {
      ghost var s0 := View();
      driver := map[];
      flagStart := false;
      previewRunning := false;
      ReturnSlots();
      StopIs(s0, View());
    }

    /** One slot of m_startPreviewInternal: the window hands out `b`, which is locked and noted in the slot. */
    method FillSlot(i: nat, b: Buffer)
      requires Valid() && i < NUM_OF_PREVIEW_BUF
      requires !locked[i]
      modifies this`window, available, handle, locked, address, previewBuf
      ensures available[..] == old(available[..])[i := true] && locked[..] == old(locked[..])[i := true]
      ensures handle[..] == old(handle[..])[i := Some(b)] && address[..] == old(address[..])[i := Some(b)]
      ensures previewBuf[..] == old(previewBuf[..])[i := Some(b)]
      ensures window == old(window) - {b}
    {
      available[i] := false;
      window := window - {b};
      handle[i] := Some(b);
      if !locked[i] {
        address[i] := Some(b);
        locked[i] := true;
      }
      previewBuf[i] := Some(b);
      available[i] := true;
    }

    /** One slot given back to the window right after the driver was started. */
    method CancelSlot(slot: nat)
      requires Valid() && flagStart && slot < NUM_OF_PREVIEW_BUF && handle[slot].Some?
      modifies this`window, this`driver, available, locked
      ensures available[..] == old(available[..])[slot := false] && locked[..] == old(locked[..])[slot := false]
      ensures window == old(window) + {handle[slot].value} && driver == old(driver) - {slot}
    {
      var got, _ := GetPreviewBuf(slot);
      if locked[slot] {
        locked[slot] := false;
      }
      window := window + {handle[slot].value};
      available[slot] := false;
    }

    /** The dequeue loop of m_startPreviewInternal. */
    method FillSlots(dequeued: seq<Buffer>)
      requires Valid() && |dequeued| == NUM_OF_PREVIEW_BUF
      requires forall i :: 0 <= i < NUM_OF_PREVIEW_BUF ==> !locked[i]
      modifies this`window, available, handle, locked, address, previewBuf
      ensures forall i :: 0 <= i < NUM_OF_PREVIEW_BUF ==>
        available[i] && locked[i] && handle[i] == address[i] == previewBuf[i] == Some(dequeued[i])
      ensures forall i :: NUM_OF_PREVIEW_BUF <= i < VIDEO_MAX_FRAME ==> previewBuf[i] == old(previewBuf[i])
      ensures window == old(window) - set b | b in dequeued
    {
      var i: nat := 0;
      while i < NUM_OF_PREVIEW_BUF
        invariant i <= NUM_OF_PREVIEW_BUF
        invariant forall k :: i <= k < NUM_OF_PREVIEW_BUF ==> !locked[k]
        invariant forall k :: 0 <= k < i ==>
          available[k] && locked[k] && handle[k] == address[k] == previewBuf[k] == Some(dequeued[k])
        invariant forall k :: NUM_OF_PREVIEW_BUF <= k < VIDEO_MAX_FRAME ==> previewBuf[k] == old(previewBuf[k])
        invariant window == old(window) - set b | b in dequeued[..i]
      {
        FillSlot(i, dequeued[i]);
        assert dequeued[..i + 1] == dequeued[..i] + [dequeued[i]];
        i := i + 1;
      }
      assert dequeued[..i] == dequeued;
    }

    /** The cancel loop of m_startPreviewInternal. */
    method CancelSlots(dequeued: seq<Buffer>, cancelled: seq<nat>)
      requires Valid() && flagStart && |dequeued| == NUM_OF_PREVIEW_BUF
      requires forall i :: 0 <= i < NUM_OF_PREVIEW_BUF ==> available[i] && locked[i] && handle[i] == Some(dequeued[i])
      requires forall i :: i in cancelled ==> i < NUM_OF_PREVIEW_BUF
      modifies this`window, this`driver, available, locked
      ensures forall i :: 0 <= i < NUM_OF_PREVIEW_BUF ==> available[i] == locked[i] == (i !in cancelled)
      ensures driver == old(driver) - Elements(cancelled)
      ensures window == old(window) + (set i | i in cancelled && i < NUM_OF_PREVIEW_BUF :: dequeued[i])
    {
      var j: nat := 0;
      while j < |cancelled|
        invariant j <= |cancelled|
        invariant forall i :: 0 <= i < NUM_OF_PREVIEW_BUF ==> available[i] == locked[i] == (i !in cancelled[..j])
        invariant driver == old(driver) - Elements(cancelled[..j])
        invariant window == old(window) + (set i | i in cancelled[..j] && i < NUM_OF_PREVIEW_BUF :: dequeued[i])
      {
        assert cancelled[..j + 1] == cancelled[..j] + [cancelled[j]];
        assert cancelled[j] in cancelled;
        CancelSlot(cancelled[j]);
        j := j + 1;
      }
      assert cancelled[..j] == cancelled;
    }

    /** m_startPreviewInternal. */
    method StartPreviewInternal(dequeued: seq<Buffer>, cancelled: seq<nat>)
      requires Valid() && |dequeued| == NUM_OF_PREVIEW_BUF && !flagStart
      requires forall i :: 0 <= i < NUM_OF_PREVIEW_BUF ==> !locked[i]
      requires forall i :: i in cancelled ==> i < NUM_OF_PREVIEW_BUF
      modifies this, available, handle, locked, address, previewBuf, validPreviewBuf
      ensures View() == StartPreview(old(View()), dequeued, cancelled)
    {
      ghost var s0 := View();
      FillSlots(dequeued);
      SetWidthHeight();
      flagStart := true;
      CancelSlots(dequeued, cancelled);
      skipFrame := INITIAL_SKIP_FRAME;
      previewRunning := true;
      StartIs(s0, View(), dequeued, cancelled);
    }
  }

  lemma StartIs(s: State, r: State, d: seq<Buffer>, c: seq<nat>)
    requires s.Shape() && r.Shape() && |d| == NUM_OF_PREVIEW_BUF
    requires forall i :: 0 <= i < NUM_OF_PREVIEW_BUF ==>
      && r.handle[i] == r.address[i] == r.previewBuf[i] == Some(d[i]) && r.available[i] == r.locked[i] == (i !in c)
    requires forall i :: NUM_OF_PREVIEW_BUF <= i < VIDEO_MAX_FRAME ==> r.previewBuf[i] == s.previewBuf[i]
    requires forall i :: 0 <= i < VIDEO_MAX_FRAME ==> r.valid[i] == r.previewBuf[i].Some?
    requires r.started && r.running && r.skip == INITIAL_SKIP_FRAME
    requires r.driver ==
      (map i: nat | i < VIDEO_MAX_FRAME && r.previewBuf[i].Some? :: r.previewBuf[i].value) - Elements(c)
    requires r.window == (s.window - (set b | b in d)) + (set i | i in c && i < NUM_OF_PREVIEW_BUF :: d[i])
    ensures r == StartPreview(s, d, c)
  {
    var e := StartPreview(s, d, c);
    assert r.previewBuf == e.previewBuf;
    assert r.driver == e.driver;
  }

  /** The buffers of the available ones among the first `n` slots. */
  ghost function Returned(available: seq<bool>, handle: seq<Option<Buffer>>, n: nat): set<Buffer>
    requires n <= |available| && n <= |handle|
  {
    if n == 0 then {}
    else
      var rest := Returned(available, handle, n - 1);
      if available[n - 1] && handle[n - 1].Some? then rest + {handle[n - 1].value} else rest
  }

  lemma {:induction false} ReturnedIs(available: seq<bool>, handle: seq<Option<Buffer>>, n: nat)
    requires n <= |available| && n <= |handle|
    ensures Returned(available, handle, n) == set i: nat | i < n && available[i] && handle[i].Some? :: handle[i].value
  {
    if n > 0 {
      ReturnedIs(available, handle, n - 1);
    }
  }

  lemma StopIs(s: State, r: State)
    requires s.Shape() && r.Shape()
    requires forall k :: 0 <= k < NUM_OF_PREVIEW_BUF ==>
      && r.locked[k] == (s.locked[k] && s.handle[k].None?)
      && r.available[k] == (s.available[k] && s.handle[k].None?)
      && r.handle[k] == if s.available[k] then None else s.handle[k]
    requires r.window == s.window + Returned(s.available, s.handle, NUM_OF_PREVIEW_BUF)
    requires r == s.(driver := map[], started := false, running := false,
      locked := r.locked, available := r.available, handle := r.handle, window := r.window)
    ensures r == StopPreview(s)
  {
    var e := StopPreview(s);
    ReturnedIs(s.available, s.handle, NUM_OF_PREVIEW_BUF);
    assert r.handle == e.handle;
    assert r.window == e.window;
  }
}
