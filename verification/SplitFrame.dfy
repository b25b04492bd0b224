/** m_splitFrame: separating the JPEG chunks of an interleaved frame from its video lines. */
module SplitFrame {
  import opened Bytes

  /** `Fault`: a marker so close to the frame's end that the length of its line is negative. */
  datatype Outcome = Found(jpeg: seq<byte>, video: seq<byte>) | NoEoi(jpeg: seq<byte>, video: seq<byte>) | Fault

  predicate MarkerAt(mem: seq<byte>, at: nat)
    requires at + 4 <= |mem|
  {
    mem[at] == 0xFF && mem[at + 1] == 0xBE && mem[at + 2] == 0xFF && mem[at + 3] == 0xBF
  }

  predicate EoiAt(s: seq<byte>, k: nat) {
    k + 1 < |s| && s[k] == 0xFF && s[k + 1] == 0xD9
  }

  /** The first EOI marker that starts among the first `n` bytes. */
  function FindEoi(s: seq<byte>, n: nat): (r: Option<nat>)
    requires n < |s|
    ensures r.Some? ==> r.value < n && EoiAt(s, r.value) && forall k :: 0 <= k < r.value ==> !EoiAt(s, k)
    ensures r.None? ==> forall k :: 0 <= k < n ==> !EoiAt(s, k)
  {
    if n == 0 then None
    else
      match FindEoi(s, n - 1)
      case Some(k) => Some(k)
      case None => if EoiAt(s, n - 1) then Some(n - 1) else None
  }

  /** The cursor loop on bytes, from position `pos` with what was copied so far. The frame is the first `size`
      bytes of `mem`; the checks look up to four bytes past its end. */
  function Run(mem: seq<byte>, size: nat, jpegLine: nat, videoLine: nat, pos: nat, jpeg: seq<byte>, video: seq<byte>)
    : Outcome
    requires size + 4 <= |mem| && jpegLine > 0 && videoLine > 0
    decreases size - pos
  {
    if pos >= size then NoEoi(jpeg, video)
    else if MarkerAt(mem, pos) then
      if pos + videoLine <= size then
        Run(mem, size, jpegLine, videoLine, pos + videoLine + 4, jpeg, video + mem[pos + 4..pos + 4 + videoLine])
      else if size - pos < 4 then Fault
      else Run(mem, size, jpegLine, videoLine, size, jpeg, video + mem[pos + 4..size])
    else
      var n := if jpegLine <= size - pos then jpegLine else size - pos;
      match FindEoi(mem[pos..], n)
      case Some(k) => Found(jpeg + mem[pos..pos + k + 2], video)
      case None =>
        if n == 1 && jpeg != [] && jpeg[|jpeg| - 1] == 0xFF && mem[pos] == 0xD9
        then Found(jpeg + mem[pos..pos + 1], video)
        else Run(mem, size, jpegLine, videoLine, pos + n, jpeg + mem[pos..pos + n], video)
  }

  // ---------- the printer ----------

  datatype Seg = Jpeg(chunk: seq<byte>) | Video(line: seq<byte>)

  function Print(segs: seq<Seg>): seq<byte> {
    if segs == [] then []
    else (match segs[0] case Jpeg(c) => c case Video(l) => [0xFF, 0xBE, 0xFF, 0xBF] + l) + Print(segs[1..])
  }

  function JpegOf(segs: seq<Seg>): seq<byte> {
    if segs == [] then []
    else (match segs[0] case Jpeg(c) => c case Video(l) => []) + JpegOf(segs[1..])
  }

  /** An interleaved frame with the memory `tail` behind it: full video lines, JPEG chunks of the JPEG line length
      (the last segment may be a shorter chunk), no JPEG chunk that looks like a video line; last, if it is not
      empty, a video line that the end of the frame cuts off. */
  predicate WellFormed(segs: seq<Seg>, cut: seq<byte>, tail: seq<byte>, jpegLine: nat, videoLine: nat)
    requires |tail| >= 4
  {
    if segs == [] then
      cut == [] || (|cut| < videoLine + 4 && (cut + tail)[..4] == [0xFF, 0xBE, 0xFF, 0xBF])
    else
    (match segs[0]
     case Video(l) => |l| == videoLine
     case Jpeg(c) =>
       && 0 < |c| <= jpegLine && (|segs| > 1 || cut != [] ==> |c| == jpegLine)
       && (Print(segs) + cut + tail)[..4] != [0xFF, 0xBE, 0xFF, 0xBF])
    && WellFormed(segs[1..], cut, tail, jpegLine, videoLine)
  }

  lemma MarkerIs(mem: seq<byte>, at: nat)
    requires at + 4 <= |mem|
    ensures MarkerAt(mem, at) <==> mem[at..][..4] == [0xFF, 0xBE, 0xFF, 0xBF]
  {
  }

  /** What one JPEG chunk does: the search reads one byte past it. */
  function ChunkStep(c: seq<byte>, next: byte, jpeg: seq<byte>, video: seq<byte>): Option<Outcome> {
    var s := c + [next];
    match FindEoi(s, |c|)
    case Some(k) => Some(Found(jpeg + s[..k + 2], video))
    case None =>
      if |c| == 1 && jpeg != [] && jpeg[|jpeg| - 1] == 0xFF && c[0] == 0xD9 then Some(Found(jpeg + c, video)) else None
  }

  /** The loop on segments instead of bytes. */
  function Decode(segs: seq<Seg>, tail: seq<byte>, jpeg: seq<byte>, video: seq<byte>): Outcome
    requires |tail| >= 4
    decreases |segs|
  {
    if segs == [] then NoEoi(jpeg, video)
    else
      match segs[0]
      case Video(l) => Decode(segs[1..], tail, jpeg, video + l)
      case Jpeg(c) =>
        match ChunkStep(c, (Print(segs[1..]) + tail)[0], jpeg, video)
        case Some(o) => o
        case None => Decode(segs[1..], tail, jpeg + c, video)
  }

  /** The search reads one byte past the chunk and no further. */
  lemma FindEoiLocal(s: seq<byte>, t: seq<byte>, n: nat)
    requires n < |s| && n < |t| && s[..n + 1] == t[..n + 1]
    ensures FindEoi(s, n) == FindEoi(t, n)
  {
    assert forall k :: 0 <= k <= n ==> s[k] == s[..n + 1][k] == t[..n + 1][k] == t[k];
  }

  lemma VideoStep(mem: seq<byte>, size: nat, jpegLine: nat, videoLine: nat, pos: nat, l: seq<byte>, rest: seq<byte>,
                  jpeg: seq<byte>, video: seq<byte>)
    requires size + 4 <= |mem| && jpegLine > 0 && videoLine > 0
    requires |l| == videoLine && pos + 4 + videoLine <= size && mem[pos..] == [0xFF, 0xBE, 0xFF, 0xBF] + l + rest
    ensures mem[pos + videoLine + 4..] == rest
    ensures Run(mem, size, jpegLine, videoLine, pos, jpeg, video)
      == Run(mem, size, jpegLine, videoLine, pos + videoLine + 4, jpeg, video + l)
  {
    var s := mem[pos..];
    assert s[0] == 0xFF && s[1] == 0xBE && s[2] == 0xFF && s[3] == 0xBF;
    assert MarkerAt(mem, pos);
    assert mem[pos + 4..pos + 4 + videoLine] == s[4..4 + videoLine] == l;
    assert mem[pos + videoLine + 4..] == s[4 + videoLine..] == rest;
  }

  lemma JpegStep(mem: seq<byte>, size: nat, jpegLine: nat, videoLine: nat, pos: nat, c: seq<byte>, rest: seq<byte>,
                 jpeg: seq<byte>, video: seq<byte>)
    requires size + 4 <= |mem| && jpegLine > 0 && videoLine > 0
    requires c != [] && rest != [] && pos + |c| <= size && mem[pos..] == c + rest
    requires |c| == if jpegLine <= size - pos then jpegLine else size - pos
    requires !MarkerAt(mem[pos..], 0)
    ensures mem[pos + |c|..] == rest
    ensures var r := Run(mem, size, jpegLine, videoLine, pos, jpeg, video);
      match ChunkStep(c, rest[0], jpeg, video)
      case Some(o) => r == o
      case None => r == Run(mem, size, jpegLine, videoLine, pos + |c|, jpeg + c, video)
  {
    hide FindEoi, MarkerAt;
    var s := c + [rest[0]];
    var n := |c|;
    View(mem, pos, c, rest, n);
    FindEoiLocal(mem[pos..], s, n);
    match FindEoi(s, n) {
      case Some(k) => View(mem, pos, c, rest, k + 2);
      case None =>
    }
  }

  lemma View(mem: seq<byte>, pos: nat, c: seq<byte>, rest: seq<byte>, m: nat)
    requires pos <= |mem| && mem[pos..] == c + rest && c != [] && rest != []
    requires m <= |c| + 1
    ensures var s := c + [rest[0]];
      && pos + |c| + 1 <= |mem|
      && mem[pos..pos + m] == s[..m] && mem[pos..pos + |c|] == c && mem[pos + |c|..] == rest
      && mem[pos..][..|c| + 1] == s
      && mem[pos] == c[0]
      && (pos + 4 <= |mem| ==> MarkerAt(mem, pos) == MarkerAt(mem[pos..], 0))
  {
    var t := mem[pos..];
    var s := c + [rest[0]];
    assert t[..|c| + 1] == s;
    assert t[..m] == s[..m];
    assert mem[pos..pos + m] == t[..m];
    assert mem[pos..pos + |c|] == t[..|c|];
    assert mem[pos + |c|..] == t[|c|..];
  }

  lemma RunEnd(mem: seq<byte>, size: nat, jpegLine: nat, videoLine: nat, jpeg: seq<byte>, video: seq<byte>)
    requires size + 4 <= |mem| && jpegLine > 0 && videoLine > 0
    ensures Run(mem, size, jpegLine, videoLine, size, jpeg, video) == NoEoi(jpeg, video)
  {
  }

  /** A line that the end of the frame cuts off: of one that ends inside the marker the length is negative. */
  lemma RunCut(mem: seq<byte>, size: nat, jpegLine: nat, videoLine: nat, pos: nat, jpeg: seq<byte>, video: seq<byte>)
    requires size + 4 <= |mem| && jpegLine > 0 && videoLine > 0 && pos < size < pos + videoLine + 4
    requires MarkerAt(mem, pos)
    ensures var r := Run(mem, size, jpegLine, videoLine, pos, jpeg, video);
      if size - pos < 4 && size - pos < videoLine then r == Fault else r.NoEoi? && r.jpeg == jpeg
  {
  }

  lemma ChunkFinds(c: seq<byte>, x: byte, jpeg: seq<byte>, video: seq<byte>)
    ensures ChunkStep(c, x, jpeg, video).Some? ==> ChunkStep(c, x, jpeg, video).value.Found?
  {
    hide FindEoi;
  }

  /** On an interleaved frame the byte loop does what the segment loop does; it faults when no EOI was found and
      the frame ends inside a marker. */
  lemma {:induction false} RunIsDecode(mem: seq<byte>, size: nat, jpegLine: nat, videoLine: nat, pos: nat,
                                       segs: seq<Seg>, cut: seq<byte>, tail: seq<byte>, jpeg: seq<byte>,
                                       video: seq<byte>)
    requires jpegLine > 0 && videoLine > 0 && |tail| >= 4
    requires pos <= size && size + |tail| == |mem| && mem[pos..] == Print(segs) + (cut + tail)
    requires WellFormed(segs, cut, tail, jpegLine, videoLine)
    ensures var r, d := Run(mem, size, jpegLine, videoLine, pos, jpeg, video), Decode(segs, cut + tail, jpeg, video);
      if cut == [] || !d.NoEoi? then r == d
      else if |cut| < 4 && |cut| < videoLine then r == Fault
      else r.NoEoi? && r.jpeg == d.jpeg
    decreases |segs|
  {
    hide ChunkStep, MarkerAt, Run;
    assert |mem[pos..]| == |Print(segs)| + |cut| + |tail|;
    if segs == [] {
      if cut == [] {
        RunEnd(mem, size, jpegLine, videoLine, jpeg, video);
      } else {
        assert mem[pos..] == cut + tail;
        MarkerIs(mem, pos);
        RunCut(mem, size, jpegLine, videoLine, pos, jpeg, video);
      }
    } else {
      var rest := Print(segs[1..]) + (cut + tail);
      match segs[0]
      case Video(l) =>
        Associative([0xFF, 0xBE, 0xFF, 0xBF] + l, Print(segs[1..]), cut + tail);
        VideoStep(mem, size, jpegLine, videoLine, pos, l, rest, jpeg, video);
        RunIsDecode(mem, size, jpegLine, videoLine, pos + videoLine + 4, segs[1..], cut, tail, jpeg, video + l);
      case Jpeg(c) =>
        Associative(c, Print(segs[1..]), cut + tail);
        Associative(Print(segs), cut, tail);
        assert |segs| == 1 ==> Print(segs[1..]) == [];
        MarkerIs(mem[pos..], 0);
        JpegStep(mem, size, jpegLine, videoLine, pos, c, rest, jpeg, video);
        ChunkFinds(c, rest[0], jpeg, video);
        if ChunkStep(c, rest[0], jpeg, video).None? {
          RunIsDecode(mem, size, jpegLine, videoLine, pos + |c|, segs[1..], cut, tail, jpeg + c, video);
        }
    }
  }

  // ---------- what comes out, in terms of the JPEG stream alone ----------

  predicate FirstEoi(s: seq<byte>, e: nat) {
    && e + 1 < |s| && s[e] == 0xFF && s[e + 1] == 0xD9
    && forall k :: 0 <= k < e ==> !(s[k] == 0xFF && s[k + 1] == 0xD9)
  }

  predicate EoiFree(s: seq<byte>) {
    forall k :: 0 <= k < |s| - 1 ==> !(s[k] == 0xFF && s[k + 1] == 0xD9)
  }

  /** The video lines in front of the chunk that holds byte `n` of the JPEG stream. */
  function VideoBefore(segs: seq<Seg>, n: nat): seq<byte> {
    if segs == [] then []
    else
      match segs[0]
      case Video(l) => l + VideoBefore(segs[1..], n)
      case Jpeg(c) => if n < |c| then [] else VideoBefore(segs[1..], n - |c|)
  }

  /** Byte `n` of the JPEG stream opens a chunk of two or more bytes right behind a video line. */
  predicate Hidden(segs: seq<Seg>, n: nat, afterVideo: bool) {
    segs != [] &&
    match segs[0]
    case Video(l) => Hidden(segs[1..], n, true)
    case Jpeg(c) => if n == 0 then afterVideo && |c| >= 2 else n >= |c| && Hidden(segs[1..], n - |c|, false)
  }

  function VideoOf(segs: seq<Seg>): seq<byte> {
    if segs == [] then [] else (match segs[0] case Jpeg(c) => [] case Video(l) => l) + VideoOf(segs[1..])
  }

  /** For the chunk that holds byte `n`: the video in front of it, and what hiding means. */
  lemma {:induction false} HiddenIs(before: seq<Seg>, c: seq<byte>, after: seq<Seg>, n: nat, afterVideo: bool)
    requires ChunksNonEmpty(before) && |JpegOf(before)| <= n < |JpegOf(before)| + |c|
    ensures var segs := before + [Jpeg(c)] + after;
      && VideoBefore(segs, n) == VideoOf(before)
      && (Hidden(segs, n, afterVideo) <==>
        n == |JpegOf(before)| && |c| >= 2 && if before == [] then afterVideo else before[|before| - 1].Video?)
  {
    hide Hidden, VideoBefore;
    var segs := before + [Jpeg(c)] + after;
    if before == [] {
      assert segs[0] == Jpeg(c);
      HiddenHere(segs, n, afterVideo);
    } else {
      var b, rest := before[0], before[1..];
      assert segs[0] == b && segs[1..] == rest + [Jpeg(c)] + after;
      assert ChunksNonEmpty(rest) && (b.Jpeg? ==> b.chunk != []);
      assert rest != [] ==> rest[|rest| - 1] == before[|before| - 1];
      HiddenStep(segs, n, afterVideo);
      hide ChunksNonEmpty;
      match b {
        case Video(_) => HiddenIs(rest, c, after, n, true);
        case Jpeg(d) =>
          HiddenIs(rest, c, after, n - |d|, false);
      }
    }
  }

  /** The first segment lies in front of the chunk that holds byte `n`. */
  lemma HiddenStep(segs: seq<Seg>, n: nat, afterVideo: bool)
    requires segs != [] && (segs[0].Jpeg? ==> 0 < |segs[0].chunk| <= n)
    ensures match segs[0]
      case Video(l) =>
        && VideoBefore(segs, n) == l + VideoBefore(segs[1..], n)
        && Hidden(segs, n, afterVideo) == Hidden(segs[1..], n, true)
      case Jpeg(c) =>
        && VideoBefore(segs, n) == VideoBefore(segs[1..], n - |c|)
        && Hidden(segs, n, afterVideo) == Hidden(segs[1..], n - |c|, false)
  {
  }

  /** The first segment is the chunk that holds byte `n`. */
  lemma HiddenHere(segs: seq<Seg>, n: nat, afterVideo: bool)
    requires segs != [] && segs[0].Jpeg? && n < |segs[0].chunk|
    ensures VideoBefore(segs, n) == []
    ensures Hidden(segs, n, afterVideo) <==> n == 0 && |segs[0].chunk| >= 2 && afterVideo
  {
  }

  predicate ChunksNonEmpty(segs: seq<Seg>) {
    forall i :: 0 <= i < |segs| && segs[i].Jpeg? ==> segs[i].chunk != []
  }

  function Next(segs: seq<Seg>, tail: seq<byte>): byte
    requires tail != []
  {
    (Print(segs) + tail)[0]
  }

  lemma NextByte(segs: seq<Seg>, tail: seq<byte>)
    requires tail != [] && ChunksNonEmpty(segs) && segs != []
    ensures segs[0].Video? ==> Next(segs, tail) == 0xFF
    ensures segs[0].Jpeg? ==> JpegOf(segs) != [] && Next(segs, tail) == JpegOf(segs)[0]
  {
  }

  /** The stream's first EOI lies in this chunk, or ends with the next byte. */
  lemma ChunkHit(c: seq<byte>, jpeg: seq<byte>, video: seq<byte>, after: seq<byte>, x: byte, e: nat)
    requires c != [] && FirstEoi(jpeg + c + after, e) && e >= |jpeg|
    requires e + 1 < |jpeg| + |c| || (e + 1 == |jpeg| + |c| && x == 0xD9)
    ensures ChunkStep(c, x, jpeg, video) == Some(Found((jpeg + c + after)[..e + 2], video))
  {
    hide FindEoi;
    var s := jpeg + c + after;
    var t := c + [x];
    var b := |jpeg|;
    assert forall k :: 0 <= k < |c| ==> t[k] == s[b + k];
    assert EoiAt(t, e - b);
    forall k | 0 <= k < e - b
      ensures !EoiAt(t, k)
    {
      assert !EoiAt(s, b + k);
    }
    assert FindEoi(t, |c|) == Some(e - b);
    assert e + 1 == b + |c| ==> s[e + 1] == x;
    assert jpeg + t[..e - b + 2] == s[..e + 2];
  }

  /** The stream's first EOI lies beyond this chunk: the chunk is copied. */
  lemma ChunkMiss(c: seq<byte>, jpeg: seq<byte>, video: seq<byte>, after: seq<byte>, x: byte, e: nat)
    requires c != [] && FirstEoi(jpeg + c + after, e) && e + 1 >= |jpeg| + |c|
    requires e + 1 == |jpeg| + |c| ==> x != 0xD9
    requires after == [] || x == after[0] || x != 0xD9
    ensures ChunkStep(c, x, jpeg, video) == None
  {
    hide FindEoi;
    var s := jpeg + c + after;
    var t := c + [x];
    var b := |jpeg|;
    assert forall k :: 0 <= k < |c| ==> t[k] == s[b + k];
    assert after != [] ==> s[b + |c|] == after[0];
    forall k | 0 <= k < |c|
      ensures !EoiAt(t, k)
    {
      assert b + k < e ==> !EoiAt(s, b + k);
    }
    assert FindEoi(t, |c|) == None;
    assert |c| == 1 && b > 0 ==> !EoiAt(s, b - 1);
  }

  /** The stream's first EOI began with the byte copied last, and its second byte opens this chunk. */
  lemma ChunkSplit(c: seq<byte>, jpeg: seq<byte>, video: seq<byte>, after: seq<byte>, x: byte, e: nat)
    requires c != [] && FirstEoi(jpeg + c + after, e) && e + 1 == |jpeg|
    ensures |c| == 1 ==> ChunkStep(c, x, jpeg, video) == Some(Found((jpeg + c + after)[..e + 2], video))
    ensures |c| > 1 ==> ChunkStep(c, x, jpeg, video).Some? ==>
      ChunkStep(c, x, jpeg, video).value.Found? && |ChunkStep(c, x, jpeg, video).value.jpeg| > e + 2
  {
    hide FindEoi;
    var s := jpeg + c + after;
    var t := c + [x];
    assert c[0] == s[e + 1] == 0xD9 && jpeg[e] == s[e] == 0xFF;
    assert !EoiAt(t, 0);
    assert |c| == 1 ==> FindEoi(t, |c|) == None;
    assert |c| == 1 ==> s[..e + 2] == jpeg + c;
  }

  /** Whatever is found later is longer than what was copied before. */
  lemma {:induction false} DecodeLonger(segs: seq<Seg>, tail: seq<byte>, jpeg: seq<byte>, video: seq<byte>)
    requires |tail| >= 4
    ensures Decode(segs, tail, jpeg, video).Found? ==> |Decode(segs, tail, jpeg, video).jpeg| >= |jpeg|
    decreases |segs|
  {
    hide FindEoi, Print;
    if segs != [] {
      match segs[0]
      case Video(l) => DecodeLonger(segs[1..], tail, jpeg, video + l);
      case Jpeg(c) => DecodeLonger(segs[1..], tail, jpeg + c, video);
    }
  }

  /** m_splitFrame delivers the JPEG stream through its first EOI, with the video lines in front of it, if and
      only if that EOI is not hidden; otherwise it delivers more than that, or nothing. */
  lemma {:induction false} DecodeStream(segs: seq<Seg>, tail: seq<byte>, jpeg: seq<byte>, video: seq<byte>,
                                        afterVideo: bool, e: nat)
    requires |tail| >= 4 && ChunksNonEmpty(segs)
    requires FirstEoi(jpeg + JpegOf(segs), e) && e + 1 >= |jpeg|
    requires e + 1 == |jpeg| ==> afterVideo || (segs != [] && segs[0].Video?)
    ensures !Hidden(segs, e + 1 - |jpeg|, afterVideo) ==>
      Decode(segs, tail, jpeg, video)
      == Found((jpeg + JpegOf(segs))[..e + 2], video + VideoBefore(segs, e + 1 - |jpeg|))
    ensures Hidden(segs, e + 1 - |jpeg|, afterVideo) && Decode(segs, tail, jpeg, video).Found? ==>
      |Decode(segs, tail, jpeg, video).jpeg| > e + 2
    decreases |segs|
  {
    hide FirstEoi, ChunkStep, Print;
    EoiBytes(jpeg + JpegOf(segs), e);
    var rest := segs[1..];
    assert ChunksNonEmpty(rest);
    match segs[0] {
      case Video(l) =>
        assert JpegOf(segs) == JpegOf(rest);
        DecodeStream(rest, tail, jpeg, video + l, true, e);
        Associative(video, l, VideoBefore(rest, e + 1 - |jpeg|));
      case Jpeg(c) =>
        var after, x := JpegOf(rest), Next(rest, tail);
        Associative(jpeg, c, after);
        if rest != [] {
          NextByte(rest, tail);
        }
        if e + 1 == |jpeg| {
          ChunkSplit(c, jpeg, video, after, x, e);
          DecodeLonger(rest, tail, jpeg + c, video);
        } else if e + 1 < |jpeg| + |c| || (e + 1 == |jpeg| + |c| && rest != [] && rest[0].Jpeg?) {
          ChunkHit(c, jpeg, video, after, x, e);
          assert e + 1 == |jpeg| + |c| ==> !Hidden(rest, 0, false) && VideoBefore(rest, 0) == [];
          assert video + [] == video;
        } else {
          ChunkMiss(c, jpeg, video, after, x, e);
          DecodeStream(rest, tail, jpeg + c, video, false, e);
        }
    }
  }

  lemma EoiBytes(s: seq<byte>, e: nat)
    requires FirstEoi(s, e)
    ensures e + 1 < |s| && s[e] == 0xFF && s[e + 1] == 0xD9
  {
  }

  /** Main result: on every interleaved frame whose JPEG stream has its first EOI at byte `e`, m_splitFrame
      returns exactly the JPEG through that EOI and the video lines in front of it, if and only if the second
      EOI byte does not open a chunk of two or more bytes right behind a video line. In that case it runs past
      the EOI. */
  lemma SplitInverts(segs: seq<Seg>, cut: seq<byte>, tail: seq<byte>, jpegLine: nat, videoLine: nat, e: nat)
    requires jpegLine > 0 && videoLine > 0 && |tail| >= 4
    requires WellFormed(segs, cut, tail, jpegLine, videoLine) && FirstEoi(JpegOf(segs), e)
    ensures var r := Run(Print(segs) + cut + tail, |Print(segs)| + |cut|, jpegLine, videoLine, 0, [], []);
      if Hidden(segs, e + 1, false)
      then r.Found? ==> |r.jpeg| > e + 2
      else r == Found(JpegOf(segs)[..e + 2], VideoBefore(segs, e + 1))
  {
    hide FirstEoi, Print, MarkerAt, Run, Decode;
    WholeFrame(segs, cut, tail, jpegLine, videoLine);
    assert [] + JpegOf(segs) == JpegOf(segs);
    DecodeStream(segs, cut + tail, [], [], false, e);
    assert [] + VideoBefore(segs, e + 1) == VideoBefore(segs, e + 1);
  }

  /** The loop from the start of a frame. */
  lemma WholeFrame(segs: seq<Seg>, cut: seq<byte>, tail: seq<byte>, jpegLine: nat, videoLine: nat)
    requires jpegLine > 0 && videoLine > 0 && |tail| >= 4
    requires WellFormed(segs, cut, tail, jpegLine, videoLine)
    ensures ChunksNonEmpty(segs)
    ensures var r := Run(Print(segs) + cut + tail, |Print(segs)| + |cut|, jpegLine, videoLine, 0, [], []);
      var d := Decode(segs, cut + tail, [], []);
      if cut == [] || !d.NoEoi? then r == d
      else if |cut| < 4 && |cut| < videoLine then r == Fault
      else r.NoEoi? && r.jpeg == d.jpeg
  {
    hide Print, MarkerAt, Run, Decode;
    var mem := Print(segs) + cut + tail;
    Associative(Print(segs), cut, tail);
    assert mem[0..] == mem;
    WellFormedChunks(segs, cut, tail, jpegLine, videoLine);
    RunIsDecode(mem, |Print(segs)| + |cut|, jpegLine, videoLine, 0, segs, cut, tail, [], []);
  }

  /** A hidden EOI: its second byte opens a chunk of two behind a video line. The frame has an EOI, and is rejected. */
  lemma HiddenEoiIsMissed()
    ensures var segs, tail := [Jpeg([0x00, 0xFF]), Video([0x00]), Jpeg([0xD9, 0x00])], [0x00, 0x00, 0x00, 0x00];
      && WellFormed(segs, [], tail, 2, 1) && FirstEoi(JpegOf(segs), 1) && Hidden(segs, 2, false)
      && Run(Print(segs) + [] + tail, |Print(segs)|, 2, 1, 0, [], []) == NoEoi(JpegOf(segs), [0x00])
  {
    var segs, tail: seq<byte> := [Jpeg([0x00, 0xFF]), Video([0x00]), Jpeg([0xD9, 0x00])], [0x00, 0x00, 0x00, 0x00];
    HiddenFrame(tail);
    HiddenDecode(tail);
    hide Run, Print, Decode, MarkerAt, FirstEoi;
    WholeFrame(segs, [], tail, 2, 1);
    assert [] + tail == tail;
  }

  lemma HiddenFrame(tail: seq<byte>)
    requires tail == [0x00, 0x00, 0x00, 0x00]
    ensures var segs := [Jpeg([0x00, 0xFF]), Video([0x00]), Jpeg([0xD9, 0x00])];
      && WellFormed(segs, [], tail, 2, 1) && Hidden(segs, 2, false)
      && JpegOf(segs) == [0x00, 0xFF, 0xD9, 0x00] && FirstEoi(JpegOf(segs), 1)
  {
    var segs := [Jpeg([0x00, 0xFF]), Video([0x00]), Jpeg([0xD9, 0x00])];
    assert segs[1..] == [Video([0x00]), Jpeg([0xD9, 0x00])];
    TwoBehindVideo(tail);
    assert (Print(segs) + [] + tail)[0] == 0x00;
  }

  lemma HiddenDecode(tail: seq<byte>)
    requires tail == [0x00, 0x00, 0x00, 0x00]
    ensures var segs := [Jpeg([0x00, 0xFF]), Video([0x00]), Jpeg([0xD9, 0x00])];
      Decode(segs, tail, [], []) == NoEoi([0x00, 0xFF, 0xD9, 0x00], [0x00])
  {
    var segs := [Jpeg([0x00, 0xFF]), Video([0x00]), Jpeg([0xD9, 0x00])];
    assert segs[1..] == [Video([0x00]), Jpeg([0xD9, 0x00])];
    TwoBehindVideo(tail);
    hide Print, WellFormed;
    assert FindEoi([0x00, 0xFF, 0xFF], 2) == None;
  }

  /** The part of that frame behind its first chunk. */
  lemma TwoBehindVideo(tail: seq<byte>)
    requires tail == [0x00, 0x00, 0x00, 0x00]
    ensures var segs := [Video([0x00]), Jpeg([0xD9, 0x00])];
      && Print(segs) == [0xFF, 0xBE, 0xFF, 0xBF, 0x00, 0xD9, 0x00] && JpegOf(segs) == [0xD9, 0x00]
      && WellFormed(segs, [], tail, 2, 1) && Hidden(segs, 0, false)
      && Decode(segs, tail, [0x00, 0xFF], []) == NoEoi([0x00, 0xFF, 0xD9, 0x00], [0x00])
  {
    var segs := [Video([0x00]), Jpeg([0xD9, 0x00])];
    var last := [Jpeg([0xD9, 0x00])];
    assert segs[1..] == last && last[1..] == [];
    assert Print(last) == [0xD9, 0x00] && JpegOf(last) == [0xD9, 0x00];
    assert (Print(last) + [] + tail)[..4][0] == 0xD9;
    assert WellFormed(last, [], tail, 2, 1);
    assert FindEoi([0xD9, 0x00, 0x00], 2) == None;
    assert Decode(last, tail, [0x00, 0xFF], [0x00]) == NoEoi([0x00, 0xFF, 0xD9, 0x00], [0x00]);
  }

  lemma {:induction false} WellFormedChunks(segs: seq<Seg>, cut: seq<byte>, tail: seq<byte>, jpegLine: nat,
                                            videoLine: nat)
    requires |tail| >= 4 && WellFormed(segs, cut, tail, jpegLine, videoLine)
    ensures ChunksNonEmpty(segs)
  {
    hide MarkerAt, Print;
    if segs != [] {
      WellFormedChunks(segs[1..], cut, tail, jpegLine, videoLine);
      forall i | 0 <= i < |segs| && segs[i].Jpeg?
        ensures segs[i].chunk != []
      {
        if i > 0 {
          assert segs[i] == segs[1..][i - 1];
        }
      }
    }
  }

  /** The frame ends in a JPEG chunk whose last byte is 0xFF, and the byte behind the frame, which is not part
      of it, completes an EOI. */
  predicate RunsOver(segs: seq<Seg>, tail: seq<byte>) {
    && segs != [] && segs[|segs| - 1].Jpeg? && tail != [] && tail[0] == 0xD9
    && segs[|segs| - 1].chunk != [] && segs[|segs| - 1].chunk[|segs[|segs| - 1].chunk| - 1] == 0xFF
  }

  /** Without an EOI in the JPEG stream something is delivered if and only if the search runs over. */
  lemma {:induction false} DecodeWithoutEoi(segs: seq<Seg>, tail: seq<byte>, jpeg: seq<byte>, video: seq<byte>)
    requires |tail| >= 4 && ChunksNonEmpty(segs)
    requires EoiFree(jpeg + JpegOf(segs))
    ensures Decode(segs, tail, jpeg, video).Found? <==> RunsOver(segs, tail)
    decreases |segs|
  {
    hide ChunkStep, Print, EoiFree;
    if segs != [] {
      var rest := segs[1..];
      assert ChunksNonEmpty(rest);
      assert rest != [] ==> rest[|rest| - 1] == segs[|segs| - 1];
      match segs[0]
      case Video(l) =>
        assert JpegOf(segs) == JpegOf(rest);
        DecodeWithoutEoi(rest, tail, jpeg, video + l);
      case Jpeg(c) =>
        var after, x := JpegOf(rest), Next(rest, tail);
        Associative(jpeg, c, after);
        if rest != [] {
          NextByte(rest, tail);
        } else {
          assert x == tail[0] by { EmptyNext(tail); }
        }
        if RunsOver(segs, tail) && rest == [] {
          ChunkRunsOver(c, jpeg, video, x);
        } else {
          ChunkWithoutEoi(c, jpeg, video, after, x);
          DecodeWithoutEoi(rest, tail, jpeg + c, video);
        }
    }
  }

  lemma ChunkRunsOver(c: seq<byte>, jpeg: seq<byte>, video: seq<byte>, x: byte)
    requires c != [] && c[|c| - 1] == 0xFF && x == 0xD9
    ensures ChunkStep(c, x, jpeg, video).Some? && ChunkStep(c, x, jpeg, video).value.Found?
  {
    hide FindEoi;
    var t := c + [x];
    assert EoiAt(t, |c| - 1);
    assert FindEoi(t, |c|).Some?;
  }

  lemma EmptyNext(tail: seq<byte>)
    requires tail != []
    ensures Next([], tail) == tail[0]
  {
  }

  lemma ChunkWithoutEoi(c: seq<byte>, jpeg: seq<byte>, video: seq<byte>, after: seq<byte>, x: byte)
    requires c != [] && EoiFree(jpeg + c + after)
    requires (after != [] && x == after[0]) || x != 0xD9 || c[|c| - 1] != 0xFF
    ensures ChunkStep(c, x, jpeg, video) == None
  {
    hide FindEoi;
    var s := jpeg + c + after;
    var t := c + [x];
    var b := |jpeg|;
    assert forall k :: 0 <= k < |c| ==> t[k] == s[b + k];
    assert after != [] ==> s[b + |c|] == after[0];
    forall k | 0 <= k < |c|
      ensures !EoiAt(t, k)
    {
      assert !EoiAt(s, b + k);
    }
    assert FindEoi(t, |c|) == None;
    assert |c| == 1 && b > 0 ==> !EoiAt(s, b - 1);
  }

  /** Main result for the other frames: an interleaved frame whose JPEG stream has no EOI is accepted if and only
      if the search runs over its end, and faults if and only if it ends inside a marker. */
  lemma SplitRejects(segs: seq<Seg>, cut: seq<byte>, tail: seq<byte>, jpegLine: nat, videoLine: nat)
    requires jpegLine > 0 && videoLine > 0 && |tail| >= 4
    requires WellFormed(segs, cut, tail, jpegLine, videoLine) && EoiFree(JpegOf(segs))
    ensures var r := Run(Print(segs) + cut + tail, |Print(segs)| + |cut|, jpegLine, videoLine, 0, [], []);
      && (r.Found? <==> cut == [] && RunsOver(segs, tail))
      && (r.Fault? <==> 0 < |cut| < 4 && |cut| < videoLine)
  {
    hide Print, MarkerAt, Run, EoiFree, RunsOver;
    WholeFrame(segs, cut, tail, jpegLine, videoLine);
    assert [] + JpegOf(segs) == JpegOf(segs);
    DecodeWithoutEoi(segs, cut + tail, [], []);
    DecodeDefined(segs, cut + tail, [], []);
    if cut == [] {
      assert cut + tail == tail;
    } else {
      CutStart(segs, cut, tail, jpegLine, videoLine);
      RunsOverByte(segs, cut + tail);
    }
  }

  lemma RunsOverByte(segs: seq<Seg>, tail: seq<byte>)
    requires tail != [] && tail[0] != 0xD9
    ensures !RunsOver(segs, tail)
  {
  }

  lemma {:induction false} CutStart(segs: seq<Seg>, cut: seq<byte>, tail: seq<byte>, jpegLine: nat, videoLine: nat)
    requires |tail| >= 4 && WellFormed(segs, cut, tail, jpegLine, videoLine) && cut != []
    ensures (cut + tail)[0] == 0xFF
  {
    hide Print;
    if segs != [] {
      CutStart(segs[1..], cut, tail, jpegLine, videoLine);
    } else {
      assert (cut + tail)[..4][0] == 0xFF;
    }
  }

  // ---------- every frame is an interleaved frame ----------

  /** The segments of the frame, read off the bytes, and the video line that its end cuts off. */
  function Segments(mem: seq<byte>, size: nat, jpegLine: nat, videoLine: nat, pos: nat): (seq<Seg>, seq<byte>)
    requires pos <= size && size + 4 <= |mem| && jpegLine > 0 && videoLine > 0
    decreases size - pos
  {
    if pos == size then ([], [])
    else if mem[pos..][..4] == [0xFF, 0xBE, 0xFF, 0xBF] then
      if size < pos + videoLine + 4 then ([], mem[pos..size])
      else
        var (segs, cut) := Segments(mem, size, jpegLine, videoLine, pos + videoLine + 4);
        ([Video(mem[pos + 4..pos + 4 + videoLine])] + segs, cut)
    else
      var n := if jpegLine <= size - pos then jpegLine else size - pos;
      var (segs, cut) := Segments(mem, size, jpegLine, videoLine, pos + n);
      ([Jpeg(mem[pos..pos + n])] + segs, cut)
  }

  /** Every frame, whatever its bytes, is an interleaved one: the two main results cover all of them. */
  lemma {:induction false} EveryFrameIsWellFormed(mem: seq<byte>, size: nat, jpegLine: nat, videoLine: nat, pos: nat)
    requires pos <= size && size + 4 <= |mem| && jpegLine > 0 && videoLine > 0
    ensures var (segs, cut) := Segments(mem, size, jpegLine, videoLine, pos);
      && Print(segs) + cut == mem[pos..size]
      && WellFormed(segs, cut, mem[size..], jpegLine, videoLine)
    decreases size - pos
  {
    hide Print, WellFormed, Segments;
    if pos == size {
      FrameEnd(mem, size, jpegLine, videoLine, pos);
    } else if mem[pos..][..4] == [0xFF, 0xBE, 0xFF, 0xBF] {
      if size < pos + videoLine + 4 {
        FrameEnd(mem, size, jpegLine, videoLine, pos);
      } else {
        EveryFrameIsWellFormed(mem, size, jpegLine, videoLine, pos + videoLine + 4);
        VideoAhead(mem, size, jpegLine, videoLine, pos);
      }
    } else {
      var n := if jpegLine <= size - pos then jpegLine else size - pos;
      EveryFrameIsWellFormed(mem, size, jpegLine, videoLine, pos + n);
      ChunkAhead(mem, size, jpegLine, videoLine, pos, n);
    }
  }

  lemma FrameEnd(mem: seq<byte>, size: nat, jpegLine: nat, videoLine: nat, pos: nat)
    requires size + 4 <= |mem| && jpegLine > 0 && videoLine > 0 && pos <= size < pos + videoLine + 4
    requires pos == size || mem[pos..][..4] == [0xFF, 0xBE, 0xFF, 0xBF]
    ensures Segments(mem, size, jpegLine, videoLine, pos) == ([], mem[pos..size])
    ensures Print([]) + mem[pos..size] == mem[pos..size]
    ensures WellFormed([], mem[pos..size], mem[size..], jpegLine, videoLine)
  {
    assert mem[pos..size] + mem[size..] == mem[pos..];
  }

  lemma VideoAhead(mem: seq<byte>, size: nat, jpegLine: nat, videoLine: nat, pos: nat)
    requires size + 4 <= |mem| && jpegLine > 0 && videoLine > 0 && pos + videoLine + 4 <= size
    requires mem[pos..][..4] == [0xFF, 0xBE, 0xFF, 0xBF]
    requires var (segs, cut) := Segments(mem, size, jpegLine, videoLine, pos + videoLine + 4);
      && Print(segs) + cut == mem[pos + videoLine + 4..size]
      && WellFormed(segs, cut, mem[size..], jpegLine, videoLine)
    ensures var (segs, cut) := Segments(mem, size, jpegLine, videoLine, pos);
      && Print(segs) + cut == mem[pos..size]
      && WellFormed(segs, cut, mem[size..], jpegLine, videoLine)
  {
    hide Print, WellFormed;
    var (rest, cut) := Segments(mem, size, jpegLine, videoLine, pos + videoLine + 4);
    var l := mem[pos + 4..pos + 4 + videoLine];
    VideoInFront(l, rest, cut, mem[size..], jpegLine, videoLine);
    Associative([0xFF, 0xBE, 0xFF, 0xBF] + l, Print(rest), cut);
    assert mem[pos..pos + 4] == mem[pos..][..4];
    assert mem[pos..size] == mem[pos..pos + 4] + l + mem[pos + videoLine + 4..size];
  }

  lemma VideoInFront(l: seq<byte>, rest: seq<Seg>, cut: seq<byte>, tail: seq<byte>, jpegLine: nat, videoLine: nat)
    requires |tail| >= 4 && WellFormed(rest, cut, tail, jpegLine, videoLine) && |l| == videoLine
    ensures Print([Video(l)] + rest) == [0xFF, 0xBE, 0xFF, 0xBF] + l + Print(rest)
    ensures WellFormed([Video(l)] + rest, cut, tail, jpegLine, videoLine)
  {
    var segs := [Video(l)] + rest;
    assert segs[1..] == rest;
  }

  lemma ChunkInFront(c: seq<byte>, rest: seq<Seg>, cut: seq<byte>, tail: seq<byte>, jpegLine: nat, videoLine: nat)
    requires |tail| >= 4 && WellFormed(rest, cut, tail, jpegLine, videoLine) && 0 < |c| <= jpegLine
    requires rest != [] || cut != [] ==> |c| == jpegLine
    requires (c + Print(rest) + cut + tail)[..4] != [0xFF, 0xBE, 0xFF, 0xBF]
    ensures Print([Jpeg(c)] + rest) == c + Print(rest)
    ensures WellFormed([Jpeg(c)] + rest, cut, tail, jpegLine, videoLine)
  {
    hide Print;
    var segs := [Jpeg(c)] + rest;
    assert segs[1..] == rest && segs[0] == Jpeg(c);
    ChunkPrint(c, rest);
  }

  lemma ChunkPrint(c: seq<byte>, rest: seq<Seg>)
    ensures Print([Jpeg(c)] + rest) == c + Print(rest)
  {
    assert ([Jpeg(c)] + rest)[1..] == rest;
  }

  lemma {:induction false} SomethingLeft(segs: seq<Seg>, cut: seq<byte>)
    requires ChunksNonEmpty(segs) && (segs != [] || cut != [])
    ensures |Print(segs) + cut| > 0
  {
  }

  lemma ChunkAhead(mem: seq<byte>, size: nat, jpegLine: nat, videoLine: nat, pos: nat, n: nat)
    requires size + 4 <= |mem| && jpegLine > 0 && videoLine > 0 && pos < size
    requires n == if jpegLine <= size - pos then jpegLine else size - pos
    requires mem[pos..][..4] != [0xFF, 0xBE, 0xFF, 0xBF]
    requires var (segs, cut) := Segments(mem, size, jpegLine, videoLine, pos + n);
      && Print(segs) + cut == mem[pos + n..size]
      && WellFormed(segs, cut, mem[size..], jpegLine, videoLine)
    ensures var (segs, cut) := Segments(mem, size, jpegLine, videoLine, pos);
      && Print(segs) + cut == mem[pos..size]
      && WellFormed(segs, cut, mem[size..], jpegLine, videoLine)
  {
    SegmentsChunk(mem, size, jpegLine, videoLine, pos, n);
    hide Print, WellFormed, Segments;
    var (rest, cut) := Segments(mem, size, jpegLine, videoLine, pos + n);
    var c, tail := mem[pos..pos + n], mem[size..];
    if rest != [] || cut != [] {
      WellFormedChunks(rest, cut, tail, jpegLine, videoLine);
      SomethingLeft(rest, cut);
    }
    Associative(c, Print(rest), cut);
    FrameSlices(mem, pos, n, size);
    ChunkInFront(c, rest, cut, tail, jpegLine, videoLine);
  }

  lemma FrameSlices(mem: seq<byte>, pos: nat, n: nat, size: nat)
    requires pos + n <= size <= |mem|
    ensures mem[pos..pos + n] + mem[pos + n..size] == mem[pos..size] && mem[pos..size] + mem[size..] == mem[pos..]
  {
  }

  lemma SegmentsChunk(mem: seq<byte>, size: nat, jpegLine: nat, videoLine: nat, pos: nat, n: nat)
    requires size + 4 <= |mem| && jpegLine > 0 && videoLine > 0 && pos < size
    requires n == if jpegLine <= size - pos then jpegLine else size - pos
    requires mem[pos..][..4] != [0xFF, 0xBE, 0xFF, 0xBF]
    ensures var (rest, cut) := Segments(mem, size, jpegLine, videoLine, pos + n);
      Segments(mem, size, jpegLine, videoLine, pos) == ([Jpeg(mem[pos..pos + n])] + rest, cut)
  {
  }

  /** A frame of the two bytes 00 FF has no EOI, and is accepted when D9 happens to lie behind it. */
  lemma AcceptedWithoutEoi()
    ensures var segs, tail := [Jpeg([0x00, 0xFF])], [0xD9, 0x00, 0x00, 0x00];
      && WellFormed(segs, [], tail, 2, 1) && EoiFree(JpegOf(segs))
      && Run(Print(segs) + [] + tail, |Print(segs)|, 2, 1, 0, [], []).Found?
  {
    var segs, tail: seq<byte> := [Jpeg([0x00, 0xFF])], [0xD9, 0x00, 0x00, 0x00];
    assert segs[1..] == [];
    assert Print(segs) == [0x00, 0xFF] && JpegOf(segs) == [0x00, 0xFF];
    assert (Print(segs) + [] + tail)[..4][0] == 0x00;
    SplitRejects(segs, [], tail, 2, 1);
  }

  lemma {:induction false} DecodeDefined(segs: seq<Seg>, tail: seq<byte>, jpeg: seq<byte>, video: seq<byte>)
    requires |tail| >= 4
    ensures !Decode(segs, tail, jpeg, video).Fault?
    decreases |segs|
  {
    hide FindEoi, Print;
    if segs != [] {
      match segs[0]
      case Video(l) => DecodeDefined(segs[1..], tail, jpeg, video + l);
      case Jpeg(c) => DecodeDefined(segs[1..], tail, jpeg + c, video);
    }
  }

  // ---------- the code ----------

  /** m_findEOIMarkerInJPEG: `size` counts the bytes in front of the marker. */
  method FindEoiMarkerInJpeg(mem: array<byte>, at: nat, len: nat) returns (found: bool, size: nat)
    requires at + len < mem.Length
    ensures found == FindEoi(mem[at..], len).Some?
    ensures found ==> size == FindEoi(mem[at..], len).value
    ensures !found ==> size == len
  {
    size := 0;
    while size < len
      invariant 0 <= size <= len && FindEoi(mem[at..], size) == None
    {
      if mem[at + size] == 0xFF && mem[at + size + 1] == 0xD9 {
        FindEoiStable(mem[at..], size + 1, len);
        return true, size;
      }
      size := size + 1;
    }
    found := false;
  }

  lemma FindEoiStable(s: seq<byte>, n: nat, m: nat)
    requires n <= m < |s| && FindEoi(s, n).Some?
    ensures FindEoi(s, m) == FindEoi(s, n)
  {
  }

  /** One JPEG chunk of `n` bytes at `pos`, appended to the `j` bytes in `pJpeg`. `size` bytes are copied. */
  method CopyChunk(frame: array<byte>, pos: nat, n: nat, pJpeg: array<byte>, j: nat) returns (finished: bool, size: nat)
    requires 0 < n && pos + n < frame.Length && j + n + 1 <= pJpeg.Length && frame != pJpeg
    modifies pJpeg
    ensures var s := frame[pos..];
      match FindEoi(s, n)
      case Some(k) => finished && size == k + 2
      case None => size == n && finished == (n == 1 && j > 0 && old(pJpeg[..j])[j - 1] == 0xFF && frame[pos] == 0xD9)
    ensures size <= n + 1
    ensures pJpeg[..j + size] == old(pJpeg[..j]) + frame[pos..pos + size]
  {
    hide FindEoi;
    finished, size := FindEoiMarkerInJpeg(frame, pos, n);
    if finished {
      size := size + 2;
    } else {
      if n == 1 && 0 < j {
        finished := pJpeg[j - 1] == 0xFF && frame[pos] == 0xD9;
      }
      size := n;
    }
    ghost var m := pJpeg[..];
    MemCopy(pJpeg, j, frame[pos..pos + size]);
    OverwriteExtends(m, 0, j, frame[pos..pos + size]);
  }

  method CopyLine(frame: array<byte>, at: nat, n: nat, pVideo: array<byte>, v: nat)
    requires at + n <= frame.Length && v + n <= pVideo.Length && frame != pVideo
    modifies pVideo
    ensures pVideo[..v + n] == old(pVideo[..v]) + frame[at..at + n]
  {
    ghost var m := pVideo[..];
    MemCopy(pVideo, v, frame[at..at + n]);
    OverwriteExtends(m, 0, v, frame[at..at + n]);
  }

  /** One iteration of the loop of m_splitFrame on a JPEG chunk of `n` bytes. */
  method JpegChunk(frame: array<byte>, dwSize: nat, jpegLine: nat, videoLine: nat, pos: nat, n: nat,
                   pJpeg: array<byte>, j: nat, ghost video: seq<byte>) returns (finished: bool, size: nat)
    requires frame != pJpeg && dwSize + 4 <= frame.Length && j + n + 1 <= pJpeg.Length
    requires jpegLine > 0 && videoLine > 0 && pos < dwSize && !MarkerAt(frame[..], pos)
    requires n == if jpegLine <= dwSize - pos then jpegLine else dwSize - pos
    modifies pJpeg
    ensures j + size <= pJpeg.Length && (!finished ==> size == n)
    ensures Run(frame[..], dwSize, jpegLine, videoLine, pos, old(pJpeg[..j]), video)
         == if finished then Found(pJpeg[..j + size], video)
            else Run(frame[..], dwSize, jpegLine, videoLine, pos + n, pJpeg[..j + n], video)
  {
    hide Run, FindEoi, MarkerAt;
    ghost var mem := frame[..];
    RunJpeg(mem, dwSize, jpegLine, videoLine, pos, pJpeg[..j], video);
    assert mem[pos..] == frame[pos..];
    finished, size := CopyChunk(frame, pos, n, pJpeg, j);
    assert mem[pos..pos + size] == frame[pos..pos + size];
  }

  /** The copy of a video line, if the caller wants the video. */
  method CopyVideo(frame: array<byte>, at: nat, n: nat, pVideo: array?<byte>, v: nat) returns (v': nat)
    requires at + n <= frame.Length && (pVideo != null ==> v + n <= pVideo.Length) && frame != pVideo
    modifies pVideo
    ensures pVideo == null ==> v' == v
    ensures pVideo != null ==> v' == v + n && pVideo[..v'] == old(pVideo[..v]) + frame[at..at + n]
  {
    v' := v;
    if pVideo != null {
      CopyLine(frame, at, n, pVideo, v);
      v' := v + n;
    }
  }

  /** m_splitFrame. A copy of negative length, undefined in C, is reported as `fault`; an absent `pVideo` is null,
      and then there is no such copy. */
  method SplitFrame(frame: array<byte>, dwSize: int, jpegLine: nat, videoLine: nat,
                    pJpeg: array<byte>, pVideo: array?<byte>)
    returns (ok: bool, fault: bool, jpegSize: nat, videoSize: nat)
    requires frame.Length >= dwSize + 4 && pJpeg.Length >= dwSize + 1 && (pVideo != null ==> pVideo.Length >= dwSize)
    requires frame != pJpeg && frame != pVideo && pJpeg != pVideo
    modifies pJpeg, pVideo
    ensures dwSize <= 0 || jpegLine == 0 || videoLine == 0 ==> !ok && !fault
    ensures dwSize > 0 && jpegLine > 0 && videoLine > 0 ==>
      match Run(frame[..], dwSize, jpegLine, videoLine, 0, [], [])
      case Found(j, v) =>
        && ok && !fault && jpegSize == |j| <= pJpeg.Length && pJpeg[..jpegSize] == j
        && (pVideo != null ==> videoSize == |v| <= pVideo.Length && pVideo[..videoSize] == v)
        && (pVideo == null ==> videoSize == 0)
      case NoEoi(_, _) => !ok && !fault && jpegSize == 0 && videoSize == 0
      case Fault => !ok && fault == (pVideo != null) && jpegSize == 0 && videoSize == 0
  {
    hide Run, FindEoi;
    ok, fault, jpegSize, videoSize := false, false, 0, 0;
    if dwSize <= 0 || jpegLine == 0 || videoLine == 0 {
      return;
    }
    var pos: nat, j: nat, v: nat := 0, 0, 0;
    ghost var video: seq<byte> := [];
    ghost var mem := frame[..];
    var finished := false;
    while pos < dwSize
      invariant j + |video| <= pos && pos <= dwSize + 4
      invariant j + |video| <= dwSize
      invariant if pVideo != null then v == |video| && pVideo[..v] == video else v == 0
      invariant Run(mem, dwSize, jpegLine, videoLine, pos, pJpeg[..j], video)
        == Run(mem, dwSize, jpegLine, videoLine, 0, [], [])
    {
      if frame[pos] == 0xFF && frame[pos + 1] == 0xBE && frame[pos + 2] == 0xFF && frame[pos + 3] == 0xBF {
        RunVideo(mem, dwSize, jpegLine, videoLine, pos, pJpeg[..j], video);
        var copyLength := if pos + videoLine <= dwSize then videoLine else dwSize - pos - 4;
        if copyLength < 0 {
          // without a video buffer nothing is copied, and the cursor moves to the frame's end
          fault := pVideo != null;
          return;
        }
        assert mem[pos + 4..pos + 4 + copyLength] == frame[pos + 4..pos + 4 + copyLength];
        v := CopyVideo(frame, pos + 4, copyLength, pVideo, v);
        video := video + frame[pos + 4..pos + 4 + copyLength];
        pos := pos + copyLength + 4;
      } else {
        var n := if jpegLine <= dwSize - pos then jpegLine else dwSize - pos;
        var size;
        finished, size := JpegChunk(frame, dwSize, jpegLine, videoLine, pos, n, pJpeg, j, video);
        if finished {
          ok, jpegSize, videoSize := true, j + size, v;
          return;
        }
        j := j + n;
        pos := pos + n;
      }
    }
    RunDone(mem, dwSize, jpegLine, videoLine, pos, pJpeg[..j], video);
  }

  lemma RunDone(mem: seq<byte>, size: nat, jpegLine: nat, videoLine: nat, pos: nat, jpeg: seq<byte>, video: seq<byte>)
    requires size + 4 <= |mem| && jpegLine > 0 && videoLine > 0 && pos >= size
    ensures Run(mem, size, jpegLine, videoLine, pos, jpeg, video) == NoEoi(jpeg, video)
  {
  }

  /** One iteration of the loop on a video line. */
  lemma RunVideo(mem: seq<byte>, size: nat, jpegLine: nat, videoLine: nat, pos: nat, jpeg: seq<byte>, video: seq<byte>)
    requires size + 4 <= |mem| && jpegLine > 0 && videoLine > 0 && pos < size && MarkerAt(mem, pos)
    ensures var r := Run(mem, size, jpegLine, videoLine, pos, jpeg, video);
      var n := if pos + videoLine <= size then videoLine else size - pos - 4;
      if n < 0 then r == Fault
      else r == Run(mem, size, jpegLine, videoLine, pos + n + 4, jpeg, video + mem[pos + 4..pos + 4 + n])
  {
  }

  /** One iteration of the loop on a JPEG chunk. */
  lemma RunJpeg(mem: seq<byte>, size: nat, jpegLine: nat, videoLine: nat, pos: nat, jpeg: seq<byte>, video: seq<byte>)
    requires size + 4 <= |mem| && jpegLine > 0 && videoLine > 0 && pos < size && !MarkerAt(mem, pos)
    ensures var r := Run(mem, size, jpegLine, videoLine, pos, jpeg, video);
      var n := if jpegLine <= size - pos then jpegLine else size - pos;
      match FindEoi(mem[pos..], n)
      case Some(k) => r == Found(jpeg + mem[pos..pos + k + 2], video)
      case None =>
        if n == 1 && jpeg != [] && jpeg[|jpeg| - 1] == 0xFF && mem[pos] == 0xD9
        then r == Found(jpeg + mem[pos..pos + 1], video)
        else r == Run(mem, size, jpegLine, videoLine, pos + n, jpeg + mem[pos..pos + n], video)
  {
  }
}
