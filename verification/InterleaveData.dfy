/** m_decodeInterleaveData: separating JPEG words from bracketed YUV lines and padding words. */
module InterleaveData {
  import opened Bytes

  /** The 32-bit values 0xFFFFFFFF, 0x02FFFFFF and 0xFF02FFFF as they lie in memory. */
  predicate IsPadding(w: seq<byte>) {
    w == [0xFF, 0xFF, 0xFF, 0xFF] || w == [0xFF, 0xFF, 0xFF, 0x02] || w == [0xFF, 0xFF, 0x02, 0xFF]
  }

  /** Start code of a YUV line: the low half of the word is 0x05FF. */
  predicate IsStart(w: seq<byte>)
    requires |w| >= 2
  {
    w[0] == 0xFF && w[1] == 0x05
  }

  /** `Broken`: a YUV line without its end code. `Overrun`: a read behind the memory, undefined in C. */
  datatype Outcome = Done(end: nat, jpeg: seq<byte>, yuv: seq<byte>) | Broken | Overrun

  /** What the end-code check of a line at `i` finds: the code, something else, or no memory to read. */
  datatype LineEnd = Closed | Open | Unreadable

  function EndOfLine(mem: seq<byte>, line: nat, i: nat): (e: LineEnd)
    ensures e.Closed? ==> i + line + 4 <= |mem|
    ensures e.Open? ==> i + line + 3 <= |mem|
  {
    var p := i + 2 + line;
    if |mem| <= p then Unreadable
    else if mem[p] != 0xFF then Open
    else if |mem| <= p + 1 then Unreadable
    else if mem[p + 1] == 0x06 then Closed else Open
  }

  /** The loop from position `i` over `size` bytes of data; `line` is the length of a YUV line in bytes. */
  function Run(mem: seq<byte>, size: nat, line: nat, i: nat, jpeg: seq<byte>, yuv: seq<byte>): Outcome
    decreases size - i
  {
    if i >= size then Done(i, jpeg, yuv)
    else if |mem| < i + 4 then Overrun
    else
      var w := mem[i..i + 4];
      if IsPadding(w) then Run(mem, size, line, i + 4, jpeg, yuv)
      else if IsStart(w) then
        match EndOfLine(mem, line, i)
        case Closed => Run(mem, size, line, i + line + 4, jpeg, yuv + mem[i + 2..i + 2 + line])
        case Open => Broken
        case Unreadable => Overrun
      else Run(mem, size, line, i + 4, jpeg + w, yuv)
  }

  // ---------- the printer and the token parser ----------

  datatype Token = Padding(word: seq<byte>) | JpegWord(word: seq<byte>) | YuvLine(pixels: seq<byte>)

  /** The stream as the sensor sends it: three padding words; JPEG data in words that are none of them and do not
      start with the code of a line. */
  predicate TokenOk(t: Token, line: nat) {
    match t
    case Padding(w) => w == [0xFF, 0xFF, 0xFF, 0xFF] || w == [0xFF, 0xFF, 0xFF, 0x02] || w == [0xFF, 0xFF, 0x02, 0xFF]
    case JpegWord(w) =>
      && |w| == 4 && w != [0xFF, 0xFF, 0xFF, 0xFF] && w != [0xFF, 0xFF, 0xFF, 0x02] && w != [0xFF, 0xFF, 0x02, 0xFF]
      && w[..2] != [0xFF, 0x05]
    case YuvLine(p) => |p| == line
  }

  function PrintToken(t: Token): seq<byte> {
    match t
    case Padding(w) => w
    case JpegWord(w) => w
    case YuvLine(p) => [0xFF, 0x05] + p + [0xFF, 0x06]
  }

  function Print(ts: seq<Token>): seq<byte> {
    if ts == [] then [] else PrintToken(ts[0]) + Print(ts[1..])
  }

  function JpegOf(ts: seq<Token>): seq<byte> {
    if ts == [] then [] else (if ts[0].JpegWord? then ts[0].word else []) + JpegOf(ts[1..])
  }

  function YuvOf(ts: seq<Token>): seq<byte> {
    if ts == [] then [] else (if ts[0].YuvLine? then ts[0].pixels else []) + YuvOf(ts[1..])
  }

  function Lines(ts: seq<Token>): nat {
    if ts == [] then 0 else (if ts[0].YuvLine? then 1 else 0) + Lines(ts[1..])
  }

  predicate TokensOk(ts: seq<Token>, line: nat) {
    forall t :: t in ts ==> TokenOk(t, line)
  }

  lemma WordView(mem: seq<byte>, i: nat, w: seq<byte>, rest: seq<byte>)
    requires i <= |mem| && |w| == 4 && mem[i..] == w + rest
    ensures i + 4 <= |mem| && mem[i..i + 4] == w && mem[i + 4..] == rest
  {
    var s := mem[i..];
    assert mem[i..i + 4] == s[..4];
    assert mem[i + 4..] == s[4..];
  }

  lemma LineView(mem: seq<byte>, i: nat, p: seq<byte>, rest: seq<byte>)
    requires i <= |mem| && mem[i..] == [0xFF, 0x05] + p + [0xFF, 0x06] + rest
    ensures var n := |p|;
      && i + n + 4 <= |mem|
      && mem[i] == 0xFF && mem[i + 1] == 0x05 && mem[i + 2 + n] == 0xFF && mem[i + 3 + n] == 0x06
      && mem[i + 2..i + 2 + n] == p && mem[i + n + 4..] == rest
  {
    var s, n := mem[i..], |p|;
    assert s[0] == 0xFF && s[1] == 0x05 && s[2 + n] == 0xFF && s[3 + n] == 0x06;
    assert mem[i + 2..i + 2 + n] == s[2..2 + n] == p;
    assert mem[i + n + 4..] == s[n + 4..] == rest;
  }

  lemma WordStep(mem: seq<byte>, size: nat, line: nat, i: nat, jpeg: seq<byte>, yuv: seq<byte>)
    requires i + 4 <= |mem| && i < size && (IsPadding(mem[i..i + 4]) || !IsStart(mem[i..i + 4]))
    ensures Run(mem, size, line, i, jpeg, yuv)
      == Run(mem, size, line, i + 4, if IsPadding(mem[i..i + 4]) then jpeg else jpeg + mem[i..i + 4], yuv)
  {
  }

  lemma LineStep(mem: seq<byte>, size: nat, line: nat, i: nat, jpeg: seq<byte>, yuv: seq<byte>)
    requires i + 4 <= |mem| && i < size && mem[i] == 0xFF && mem[i + 1] == 0x05
    ensures Run(mem, size, line, i, jpeg, yuv) ==
      match EndOfLine(mem, line, i)
      case Closed => Run(mem, size, line, i + line + 4, jpeg, yuv + mem[i + 2..i + 2 + line])
      case Open => Broken
      case Unreadable => Overrun
  {
    var w := mem[i..i + 4];
    assert w[0] == 0xFF && w[1] == 0x05;
  }

  lemma WordTokenStep(mem: seq<byte>, size: nat, line: nat, i: nat, w: seq<byte>, rest: seq<byte>,
                      jpeg: seq<byte>, yuv: seq<byte>)
    requires i <= |mem| && i < size && |w| == 4 && mem[i..] == w + rest && (IsPadding(w) || !IsStart(w))
    ensures i + 4 <= |mem| && mem[i + 4..] == rest
    ensures Run(mem, size, line, i, jpeg, yuv)
      == Run(mem, size, line, i + 4, if IsPadding(w) then jpeg else jpeg + w, yuv)
  {
    hide Run, IsPadding, IsStart;
    WordView(mem, i, w, rest);
    WordStep(mem, size, line, i, jpeg, yuv);
  }

  lemma PaddingOrNot(w: seq<byte>)
    ensures TokenOk(Padding(w), 0) ==> |w| == 4 && IsPadding(w)
    ensures TokenOk(JpegWord(w), 0) ==> |w| == 4 && !IsPadding(w) && !IsStart(w)
  {
  }

  /** One step on a printed token. */
  lemma TokenStep(mem: seq<byte>, size: nat, line: nat, i: nat, t: Token, rest: seq<byte>,
                  jpeg: seq<byte>, yuv: seq<byte>)
    requires i <= |mem| && i < size && TokenOk(t, line) && mem[i..] == PrintToken(t) + rest
    ensures i + |PrintToken(t)| <= |mem| && mem[i + |PrintToken(t)|..] == rest
    ensures Run(mem, size, line, i, jpeg, yuv) == Run(mem, size, line, i + |PrintToken(t)|,
      jpeg + (if t.JpegWord? then t.word else []), yuv + (if t.YuvLine? then t.pixels else []))
  {
    hide Run, EndOfLine, IsPadding, IsStart;
    assert jpeg + [] == jpeg && yuv + [] == yuv;
    match t
    case Padding(w) =>
      PaddingOrNot(w);
      WordTokenStep(mem, size, line, i, w, rest, jpeg, yuv);
    case JpegWord(w) =>
      PaddingOrNot(w);
      WordTokenStep(mem, size, line, i, w, rest, jpeg, yuv);
    case YuvLine(p) =>
      LineView(mem, i, p, rest);
      ClosedStep(mem, size, line, i, jpeg, yuv);
      assert |PrintToken(t)| == line + 4;
  }

  lemma ClosedStep(mem: seq<byte>, size: nat, line: nat, i: nat, jpeg: seq<byte>, yuv: seq<byte>)
    requires i + line + 4 <= |mem| && i < size && mem[i] == 0xFF && mem[i + 1] == 0x05
    requires mem[i + 2 + line] == 0xFF && mem[i + 3 + line] == 0x06
    ensures Run(mem, size, line, i, jpeg, yuv)
      == Run(mem, size, line, i + line + 4, jpeg, yuv + mem[i + 2..i + 2 + line])
  {
    hide Run;
    LineStep(mem, size, line, i, jpeg, yuv);
  }

  /** The loop over the tokens of a longer stream. */
  lemma {:induction false} RunThrough(mem: seq<byte>, size: nat, line: nat, i: nat, ts: seq<Token>,
                                      rest: seq<byte>, jpeg: seq<byte>, yuv: seq<byte>)
    requires i <= |mem| && i + |Print(ts)| <= size
    requires TokensOk(ts, line) && mem[i..] == Print(ts) + rest
    ensures i + |Print(ts)| <= |mem| && mem[i + |Print(ts)|..] == rest
    ensures Run(mem, size, line, i, jpeg, yuv)
      == Run(mem, size, line, i + |Print(ts)|, jpeg + JpegOf(ts), yuv + YuvOf(ts))
    decreases |ts|
  {
    hide PrintToken, TokenOk, Run;
    assert |mem[i..]| == |Print(ts)| + |rest|;
    if ts == [] {
      assert jpeg + [] == jpeg && yuv + [] == yuv && [] + rest == rest;
    } else {
      var t := ts[0];
      var j := if t.JpegWord? then t.word else [];
      var y := if t.YuvLine? then t.pixels else [];
      TokenSize(t, line);
      Associative(PrintToken(t), Print(ts[1..]), rest);
      TokenStep(mem, size, line, i, t, Print(ts[1..]) + rest, jpeg, yuv);
      RunThrough(mem, size, line, i + |PrintToken(t)|, ts[1..], rest, jpeg + j, yuv + y);
      Associative(jpeg, j, JpegOf(ts[1..]));
      Associative(yuv, y, YuvOf(ts[1..]));
    }
  }

  /** Decoding undoes printing, for every list of tokens and whatever lies behind the data. */
  lemma RunInvertsPrint(mem: seq<byte>, size: nat, line: nat, i: nat, ts: seq<Token>,
                        tail: seq<byte>, jpeg: seq<byte>, yuv: seq<byte>)
    requires |tail| + size == |mem| && i <= size
    requires TokensOk(ts, line) && mem[i..] == Print(ts) + tail
    ensures Run(mem, size, line, i, jpeg, yuv) == Done(size, jpeg + JpegOf(ts), yuv + YuvOf(ts))
  {
    hide Print, TokensOk, Run;
    assert |mem[i..]| == |Print(ts)| + |tail|;
    RunThrough(mem, size, line, i, ts, tail, jpeg, yuv);
    RunEnd(mem, size, line, jpeg + JpegOf(ts), yuv + YuvOf(ts));
  }

  /** Behind any tokens, a line without FF 06 behind its pixels ends the decoding. */
  lemma BrokenLine(ts: seq<Token>, pixels: seq<byte>, rest: seq<byte>, size: nat, line: nat)
    requires TokensOk(ts, line) && |pixels| == line && |Print(ts)| < size && line + |rest| >= 2
    requires rest != [] && (rest[0] != 0xFF || (|rest| > 1 && rest[1] != 0x06))
    ensures Run(Print(ts) + ([0xFF, 0x05] + pixels + rest), size, line, 0, [], []) == Broken
  {
    hide Run, Print, TokensOk;
    var n, s := |Print(ts)|, [0xFF, 0x05] + pixels + rest;
    var mem := Print(ts) + s;
    assert mem[0..] == mem;
    RunThrough(mem, size, line, 0, ts, s, [], []);
    assert s[0] == 0xFF && s[1] == 0x05 && s[2 + line] == rest[0];
    LineStep(mem, size, line, n, [] + JpegOf(ts), [] + YuvOf(ts));
  }

  /** Behind any tokens, a word or a line for which the memory ends too early is read past the memory. */
  lemma ShortMemory(ts: seq<Token>, rest: seq<byte>, size: nat, line: nat)
    requires TokensOk(ts, line) && |Print(ts)| < size
    requires |rest| < 4
      || (rest[..2] == [0xFF, 0x05] && (|rest| <= line + 2 || (|rest| == line + 3 && rest[line + 2] == 0xFF)))
    ensures Run(Print(ts) + rest, size, line, 0, [], []) == Overrun
  {
    hide Run, Print, TokensOk;
    var n := |Print(ts)|;
    var mem := Print(ts) + rest;
    assert mem[0..] == mem;
    RunThrough(mem, size, line, 0, ts, rest, [], []);
    if |rest| < 4 {
      RunShort(mem, size, line, n, [] + JpegOf(ts), [] + YuvOf(ts));
    } else {
      assert rest[..2][0] == 0xFF && rest[..2][1] == 0x05;
      LineStep(mem, size, line, n, [] + JpegOf(ts), [] + YuvOf(ts));
    }
  }

  lemma TokenSize(t: Token, line: nat)
    requires TokenOk(t, line)
    ensures |PrintToken(t)| == if t.YuvLine? then line + 4 else 4
  {
  }

  lemma RunEnd(mem: seq<byte>, size: nat, line: nat, jpeg: seq<byte>, yuv: seq<byte>)
    ensures Run(mem, size, line, size, jpeg, yuv) == Done(size, jpeg, yuv)
  {
  }

  lemma {:induction false} Sizes(ts: seq<Token>, line: nat)
    requires TokensOk(ts, line)
    ensures |YuvOf(ts)| == Lines(ts) * line
    ensures (exists t :: t in ts && t.JpegWord?) ==> |JpegOf(ts)| >= 4
  {
    if ts != [] {
      Sizes(ts[1..], line);
      assert TokenOk(ts[0], line);
      forall t | t in ts && t.JpegWord?
        ensures |JpegOf(ts)| >= 4
      {
        assert t == ts[0] || t in ts[1..];
      }
      assert Lines(ts) * line == (if ts[0].YuvLine? then line else 0) + Lines(ts[1..]) * line by {
        if ts[0].YuvLine? { assert (1 + Lines(ts[1..])) * line == line + Lines(ts[1..]) * line; }
      }
    }
  }

  /** The tokens of the data, read off by the loop's own cases; none if a line is broken or the last step
      overruns the data. */
  function Tokens(mem: seq<byte>, size: nat, line: nat, i: nat): Option<seq<Token>>
    decreases size - i
  {
    if i > size then None
    else if i == size then Some([])
    else if |mem| < i + 4 then None
    else
      var w := mem[i..i + 4];
      if !IsPadding(w) && IsStart(w) && EndOfLine(mem, line, i) != Closed then None
      else
        var t :=
          if IsPadding(w) then Padding(w)
          else if IsStart(w) then YuvLine(mem[i + 2..i + 2 + line]) else JpegWord(w);
        match Tokens(mem, size, line, i + if t.YuvLine? then line + 4 else 4)
        case None => None
        case Some(ts) => Some([t] + ts)
  }

  /** Every undamaged stream is the printing of its tokens, and they are what the decoder delivers. */
  lemma {:induction false} TokensPrint(mem: seq<byte>, size: nat, line: nat, i: nat, jpeg: seq<byte>, yuv: seq<byte>)
    requires size <= |mem| && Tokens(mem, size, line, i).Some?
    ensures var ts := Tokens(mem, size, line, i).value;
      && i <= size && TokensOk(ts, line) && mem[i..size] == Print(ts)
      && Run(mem, size, line, i, jpeg, yuv) == Done(size, jpeg + JpegOf(ts), yuv + YuvOf(ts))
    decreases size - i
  {
    hide Run, PrintToken, TokenOk, Tokens;
    var ts := Tokens(mem, size, line, i).value;
    if i == size {
      TokensEnd(mem, size, line);
      assert jpeg + [] == jpeg && yuv + [] == yuv;
      RunEnd(mem, size, line, jpeg, yuv);
    } else {
      TokensHead(mem, size, line, i);
      var t, rest := ts[0], ts[1..];
      var n := |PrintToken(t)|;
      var j := if t.JpegWord? then t.word else [];
      var y := if t.YuvLine? then t.pixels else [];
      TokensPrint(mem, size, line, i + n, jpeg + j, yuv + y);
      assert mem[i..size] == mem[i..i + n] + mem[i + n..size];
      assert mem[i..] == PrintToken(t) + mem[i + n..];
      TokenStep(mem, size, line, i, t, mem[i + n..], jpeg, yuv);
      Associative(jpeg, j, JpegOf(rest));
      Associative(yuv, y, YuvOf(rest));
    }
  }

  lemma TokensEnd(mem: seq<byte>, size: nat, line: nat)
    ensures Tokens(mem, size, line, size) == Some([])
  {
  }

  lemma TokensHead(mem: seq<byte>, size: nat, line: nat, i: nat)
    requires i != size && Tokens(mem, size, line, i).Some?
    ensures var ts := Tokens(mem, size, line, i).value;
      && i < size && ts != [] && TokenOk(ts[0], line)
      && var n := |PrintToken(ts[0])|;
      && n >= 4 && i + n <= |mem| && mem[i..i + n] == PrintToken(ts[0])
      && Tokens(mem, size, line, i + n) == Some(ts[1..])
  {
  }

  // ---------- the trim ----------

  /** At most `k` trailing 0xFF bytes are dropped. */
  function Trim(s: seq<byte>, k: nat): (r: seq<byte>)
    ensures |r| <= |s| && r == s[..|r|] && |s| - |r| <= k
    ensures forall i :: |r| <= i < |s| ==> s[i] == 0xFF
    ensures r == [] || r[|r| - 1] != 0xFF || |s| - |r| == k
    decreases k
  {
    if k == 0 || s == [] || s[|s| - 1] != 0xFF then s else Trim(s[..|s| - 1], k - 1)
  }

  /** The last stored word is never all 0xFF: that word is padding. */
  lemma {:induction false} LastWord(ts: seq<Token>, line: nat)
    requires TokensOk(ts, line)
    ensures var s := JpegOf(ts); s == [] || (|s| >= 4 && s[|s| - 4..] != [0xFF, 0xFF, 0xFF, 0xFF])
  {
    if ts != [] {
      LastWord(ts[1..], line);
      assert TokenOk(ts[0], line);
      var w := if ts[0].JpegWord? then ts[0].word else [];
      var r := JpegOf(ts[1..]);
      var s := w + r;
      if r == [] {
        assert s == w;
      } else {
        assert s[|s| - 4..] == r[|r| - 4..];
      }
    }
  }

  /** Three steps always suffice: everything dropped is 0xFF and the last kept byte is not. */
  lemma TrimSuffices(ts: seq<Token>, line: nat)
    requires TokensOk(ts, line) && JpegOf(ts) != []
    ensures var s := JpegOf(ts); var r := Trim(s, 3);
      && r != [] && r[|r| - 1] != 0xFF
      && forall k :: |r| <= k < |s| ==> s[k] == 0xFF
  {
    hide Trim, JpegOf, TokenOk;
    var s := JpegOf(ts);
    var r := Trim(s, 3);
    LastWord(ts, line);
    assert s[|s| - 4..] == [s[|s| - 4], s[|s| - 3], s[|s| - 2], s[|s| - 1]];
    assert r[|r| - 1] == s[|r| - 1];
  }

  // ---------- the code ----------

  method Append(dst: array<byte>, at: nat, src: array<byte>, from: nat, n: nat)
    requires at + n <= dst.Length && from + n <= src.Length && dst != src
    modifies dst
    ensures dst[..at + n] == old(dst[..at]) + src[from..from + n]
  {
    ghost var m := dst[..];
    MemCopy(dst, at, src[from..from + n]);
    OverwriteExtends(m, 0, at, src[from..from + n]);
  }

  /** The loop of m_decodeInterleaveData: `broken` when a line lacks its end code, `overrun` when it reads on
      behind the data buffer. */
  method Separate(data: array<byte>, size: nat, line: nat, pJpeg: array?<byte>, pYuv: array?<byte>)
    returns (broken: bool, overrun: bool, jpegSize: nat, yuvSize: nat, ghost jpeg: seq<byte>, ghost yuv: seq<byte>)
    requires pJpeg != null ==> pJpeg.Length >= size + 3
    requires pYuv != null ==> pYuv.Length >= size + line
    requires data != pJpeg && data != pYuv && (pJpeg != pYuv || pJpeg == null)
    modifies pJpeg, pYuv
    ensures match Run(data[..], size, line, 0, [], [])
      case Broken => broken && !overrun
      case Overrun => overrun
      case Done(_, j, y) =>
        && !broken && !overrun && jpeg == j && yuv == y
        && (if pJpeg == null then jpegSize == 0 else jpegSize == |j| <= pJpeg.Length && pJpeg[..jpegSize] == j)
        && (if pYuv == null then yuvSize == 0 else yuvSize == |y| <= pYuv.Length && pYuv[..yuvSize] == y)
  {
    hide Run, EndOfLine;
    broken, overrun, jpegSize, yuvSize, jpeg, yuv := false, false, 0, 0, [], [];
    var i: nat := 0;
    while i < size
      invariant i <= size + line + 3 && |jpeg| <= i && |yuv| <= i && |jpeg| <= size + 3 && |yuv| <= size + line
      invariant if pJpeg == null then jpegSize == 0 else jpegSize == |jpeg| && pJpeg[..jpegSize] == jpeg
      invariant if pYuv == null then yuvSize == 0 else yuvSize == |yuv| && pYuv[..yuvSize] == yuv
      invariant Run(data[..], size, line, i, jpeg, yuv) == Run(data[..], size, line, 0, [], [])
      decreases size - i
    {
      if data.Length < i + 4 {
        RunShort(data[..], size, line, i, jpeg, yuv);
        overrun := true;
        return;
      }
      assert data[..][i..i + 4] == data[i..i + 4];
      var word := data[i..i + 4];
      if word == [0xFF, 0xFF, 0xFF, 0xFF] || word == [0xFF, 0xFF, 0xFF, 0x02] || word == [0xFF, 0xFF, 0x02, 0xFF] {
        WordStep(data[..], size, line, i, jpeg, yuv);
        i := i + 4;
      } else if data[i] == 0xFF && data[i + 1] == 0x05 {
        LineStep(data[..], size, line, i, jpeg, yuv);
        if pYuv != null {
          if data.Length < i + 2 + line {
            LineShort(data[..], line, i);
            overrun := true;
            return;
          }
          Append(pYuv, yuvSize, data, i + 2, line);
          yuvSize := yuvSize + line;
        }
        var end := CheckEndCode(data, line, i);
        if end != Closed {
          broken, overrun := end == Open, end == Unreadable;
          return;
        }
        assert data[..][i + 2..i + 2 + line] == data[i + 2..i + 2 + line];
        yuv := yuv + data[i + 2..i + 2 + line];
        i := i + line + 4;
      } else {
        WordStep(data[..], size, line, i, jpeg, yuv);
        if pJpeg != null {
          Append(pJpeg, jpegSize, data, i, 4);
          jpegSize := jpegSize + 4;
        }
        jpeg := jpeg + data[i..i + 4];
        i := i + 4;
      }
    }
    RunDone(data[..], size, line, i, jpeg, yuv);
  }

  /** The end-code check: the second byte is read only behind an 0xFF. */
  method CheckEndCode(data: array<byte>, line: nat, i: nat) returns (end: LineEnd)
    ensures end == EndOfLine(data[..], line, i)
  {
    var p := i + 2 + line;
    if data.Length <= p {
      return Unreadable;
    }
    if data[p] != 0xFF {
      return Open;
    }
    if data.Length <= p + 1 {
      return Unreadable;
    }
    end := if data[p + 1] == 0x06 then Closed else Open;
  }

  lemma LineShort(mem: seq<byte>, line: nat, i: nat)
    requires |mem| < i + 2 + line
    ensures EndOfLine(mem, line, i) == Unreadable
  {
  }

  lemma RunShort(mem: seq<byte>, size: nat, line: nat, i: nat, jpeg: seq<byte>, yuv: seq<byte>)
    requires i < size && |mem| < i + 4
    ensures Run(mem, size, line, i, jpeg, yuv) == Overrun
  {
  }

  lemma RunDone(mem: seq<byte>, size: nat, line: nat, i: nat, jpeg: seq<byte>, yuv: seq<byte>)
    requires i >= size
    ensures Run(mem, size, line, i, jpeg, yuv) == Done(i, jpeg, yuv)
  {
  }

  /** The padding behind the EOI: at most three trailing 0xFF bytes do not count. */
  method RemovePadding(pJpeg: array<byte>, size: nat) returns (jpegSize: nat)
    requires 3 <= size <= pJpeg.Length
    ensures jpegSize <= size && pJpeg[..jpegSize] == Trim(pJpeg[..size], 3)
  {
    jpegSize := size;
    var k: nat := 0;
    while k < 3
      invariant k <= 3 && jpegSize == size - k
      invariant Trim(pJpeg[..jpegSize], 3 - k) == Trim(pJpeg[..size], 3)
    {
      assert pJpeg[..jpegSize][..jpegSize - 1] == pJpeg[..jpegSize - 1];
      if pJpeg[jpegSize - 1] != 0xFF {
        break;
      }
      jpegSize := jpegSize - 1;
      k := k + 1;
    }
  }

  /** m_decodeInterleaveData. `fault` is a read behind the data buffer, which broken data can lead to, or the read
      in front of the JPEG buffer when no word was stored. The JPEG size is reported only when there is a JPEG
      buffer and no line is broken. */
  method DecodeInterleaveData(data: array?<byte>, size: nat, yuvWidth: nat, yuvHeight: int,
                              pJpeg: array?<byte>, pYuv: array?<byte>)
    returns (ret: bool, fault: bool, jpegSize: Option<nat>)
    requires pJpeg != null ==> pJpeg.Length >= size + 3
    requires pYuv != null ==> pYuv.Length >= size + 2 * yuvWidth
    requires data != null ==> data != pJpeg && data != pYuv
    requires pJpeg != pYuv || pJpeg == null
    modifies pJpeg, pYuv
    ensures data == null ==> !ret && !fault && jpegSize == None
    ensures data != null ==>
      match Run(data[..], size, 2 * yuvWidth, 0, [], [])
      case Broken => !ret && !fault && jpegSize == None
      case Overrun => !ret && fault && jpegSize == None
      case Done(_, j, y) =>
        && fault == (pJpeg != null && j == [])
        && (!fault ==> ret == (pYuv == null || |y| == yuvWidth * yuvHeight * 2))
        && (!fault && pJpeg != null ==>
          jpegSize.Some? && jpegSize.value <= pJpeg.Length && pJpeg[..jpegSize.value] == Trim(j, 3))
        && (pYuv != null ==> |y| <= pYuv.Length && pYuv[..|y|] == y)
  {
    hide Run, Trim;
    ret, fault, jpegSize := false, false, None;
    if data == null {
      return;
    }
    var broken, overrun, jSize, ySize;
    ghost var jpeg, yuv;
    broken, overrun, jSize, ySize, jpeg, yuv := Separate(data, size, 2 * yuvWidth, pJpeg, pYuv);
    if broken || overrun {
      fault := overrun;
      return;
    }
    ret := true;
    if pJpeg != null {
      if jSize == 0 {
        fault := true;
        return;
      }
      RunWords(data[..], size, 2 * yuvWidth, 0, [], []);
      jSize := RemovePadding(pJpeg, jSize);
      jpegSize := Some(jSize);
    }
    if pYuv != null && ySize != yuvWidth * yuvHeight * 2 {
      ret := false;
    }
  }

  /** JPEG data comes in whole words. */
  lemma {:induction false} RunWords(mem: seq<byte>, size: nat, line: nat, i: nat, jpeg: seq<byte>, yuv: seq<byte>)
    requires |jpeg| % 4 == 0
    ensures var o := Run(mem, size, line, i, jpeg, yuv); o.Done? ==> |o.jpeg| % 4 == 0
    decreases size - i
  {
    hide IsPadding;
    if i < size && i + 4 <= |mem| {
      var w := mem[i..i + 4];
      if IsPadding(w) {
        RunWords(mem, size, line, i + 4, jpeg, yuv);
      } else if IsStart(w) && EndOfLine(mem, line, i) == Closed {
        RunWords(mem, size, line, i + line + 4, jpeg, yuv + mem[i + 2..i + 2 + line]);
      } else if !IsStart(w) {
        RunWords(mem, size, line, i + 4, jpeg + w, yuv);
      }
    }
  }

  /** Main result: on a printed list of tokens with at least one JPEG word the outputs are the in-order
      concatenations, success holds exactly when there are `yuvHeight` lines, and the trim drops 0xFF bytes only,
      down to a byte that is not 0xFF. */
  lemma DecodeInverts(ts: seq<Token>, tail: seq<byte>, yuvWidth: nat, yuvHeight: int)
    requires TokensOk(ts, 2 * yuvWidth) && JpegOf(ts) != [] && yuvWidth > 0
    ensures var o := Run(Print(ts) + tail, |Print(ts)|, 2 * yuvWidth, 0, [], []);
      && o == Done(|Print(ts)|, JpegOf(ts), YuvOf(ts))
      && (|o.yuv| == yuvWidth * yuvHeight * 2 <==> Lines(ts) == yuvHeight)
      && var r := Trim(o.jpeg, 3);
      && r != [] && r[|r| - 1] != 0xFF && r == o.jpeg[..|r|] && forall k :: |r| <= k < |o.jpeg| ==> o.jpeg[k] == 0xFF
  {
    hide Run, Trim, TokensOk, JpegOf, YuvOf, Lines, Print;
    RunOfPrint(ts, tail, 2 * yuvWidth);
    LineCount(ts, yuvWidth, yuvHeight);
    TrimSuffices(ts, 2 * yuvWidth);
  }

  lemma RunOfPrint(ts: seq<Token>, tail: seq<byte>, line: nat)
    requires TokensOk(ts, line)
    ensures Run(Print(ts) + tail, |Print(ts)|, line, 0, [], []) == Done(|Print(ts)|, JpegOf(ts), YuvOf(ts))
  {
    hide Run, TokensOk, JpegOf, YuvOf, Print;
    var mem := Print(ts) + tail;
    assert mem[0..] == mem;
    RunInvertsPrint(mem, |Print(ts)|, line, 0, ts, tail, [], []);
    assert [] + JpegOf(ts) == JpegOf(ts) && [] + YuvOf(ts) == YuvOf(ts);
  }

  lemma LineCount(ts: seq<Token>, yuvWidth: nat, yuvHeight: int)
    requires TokensOk(ts, 2 * yuvWidth) && yuvWidth > 0
    ensures |YuvOf(ts)| == yuvWidth * yuvHeight * 2 <==> Lines(ts) == yuvHeight
  {
    hide TokensOk, YuvOf, Lines;
    Sizes(ts, 2 * yuvWidth);
    SameProduct(Lines(ts), yuvHeight, yuvWidth);
  }

  lemma SameProduct(a: int, b: int, w: nat)
    requires w > 0
    ensures a * (2 * w) == w * b * 2 <==> a == b
  {
    assert a * (2 * w) == 2 * (a * w) && w * b * 2 == 2 * (b * w);
    if a < b { Product(a, b, w); }
    if b < a { Product(b, a, w); }
  }

  lemma Product(a: int, b: int, w: nat)
    requires w > 0 && a < b
    ensures a * w < b * w
  {
  }

  /** The converse: whatever decodes without a broken line and without overrunning the data is the printing of
      a list of tokens; PrintInjective says that there is only one. */
  lemma DecodableIsPrinted(mem: seq<byte>, size: nat, line: nat)
    requires size <= |mem|
    ensures (exists ts :: TokensOk(ts, line) && mem[..size] == Print(ts)) <==>
      Run(mem, size, line, 0, [], []).Done? && Run(mem, size, line, 0, [], []).end == size
  {
    hide Run, Tokens, Print, TokensOk;
    if exists ts :: TokensOk(ts, line) && mem[..size] == Print(ts) {
      var ts :| TokensOk(ts, line) && mem[..size] == Print(ts);
      assert mem[0..] == Print(ts) + mem[size..];
      RunInvertsPrint(mem, size, line, 0, ts, mem[size..], [], []);
    }
    if Run(mem, size, line, 0, [], []).Done? && Run(mem, size, line, 0, [], []).end == size {
      RunTokens(mem, size, line, 0, [], []);
      TokensPrint(mem, size, line, 0, [], []);
      assert mem[0..size] == mem[..size];
    }
  }

  lemma {:induction false} RunTokens(mem: seq<byte>, size: nat, line: nat, i: nat, jpeg: seq<byte>, yuv: seq<byte>)
    requires Run(mem, size, line, i, jpeg, yuv).Done? && Run(mem, size, line, i, jpeg, yuv).end == size
    ensures Tokens(mem, size, line, i).Some?
    decreases size - i
  {
    if i < size {
      var w := mem[i..i + 4];
      if IsPadding(w) {
        RunTokens(mem, size, line, i + 4, jpeg, yuv);
      } else if IsStart(w) {
        RunTokens(mem, size, line, i + line + 4, jpeg, yuv + mem[i + 2..i + 2 + line]);
      } else {
        RunTokens(mem, size, line, i + 4, jpeg + w, yuv);
      }
    }
  }

  lemma {:induction false} TokensInvertPrint(mem: seq<byte>, size: nat, line: nat, i: nat, ts: seq<Token>,
                                             tail: seq<byte>)
    requires |tail| + size == |mem| && i <= size
    requires TokensOk(ts, line) && mem[i..] == Print(ts) + tail
    ensures Tokens(mem, size, line, i) == Some(ts)
    decreases |ts|
  {
    hide PrintToken, TokenOk, Tokens;
    assert |mem[i..]| == |Print(ts)| + |tail|;
    if ts == [] {
      TokensEnd(mem, size, line);
    } else {
      var n := |PrintToken(ts[0])|;
      TokenSize(ts[0], line);
      Associative(PrintToken(ts[0]), Print(ts[1..]), tail);
      TokensStep(mem, size, line, i, ts[0], Print(ts[1..]) + tail);
      TokensInvertPrint(mem, size, line, i + n, ts[1..], tail);
      assert ts == [ts[0]] + ts[1..];
    }
  }

  lemma TokensStep(mem: seq<byte>, size: nat, line: nat, i: nat, t: Token, rest: seq<byte>)
    requires i <= |mem| && i < size && TokenOk(t, line) && mem[i..] == PrintToken(t) + rest
    ensures i + |PrintToken(t)| <= |mem| && mem[i + |PrintToken(t)|..] == rest
    ensures var o := Tokens(mem, size, line, i + |PrintToken(t)|);
      Tokens(mem, size, line, i) == if o.Some? then Some([t] + o.value) else None
  {
    hide Tokens, EndOfLine;
    match t
    case Padding(w) =>
      WordView(mem, i, w, rest);
      TokensWord(mem, size, line, i);
    case JpegWord(w) =>
      WordView(mem, i, w, rest);
      TokensWord(mem, size, line, i);
    case YuvLine(p) =>
      LineView(mem, i, p, rest);
      TokensLine(mem, size, line, i);
      assert |PrintToken(t)| == line + 4;
  }

  lemma TokensWord(mem: seq<byte>, size: nat, line: nat, i: nat)
    requires i + 4 <= |mem| && i < size && (IsPadding(mem[i..i + 4]) || !IsStart(mem[i..i + 4]))
    ensures var w := mem[i..i + 4];
      var o := Tokens(mem, size, line, i + 4);
      Tokens(mem, size, line, i)
        == if o.Some? then Some([if IsPadding(w) then Padding(w) else JpegWord(w)] + o.value) else None
  {
  }

  lemma TokensLine(mem: seq<byte>, size: nat, line: nat, i: nat)
    requires i + line + 4 <= |mem| && i < size && mem[i] == 0xFF && mem[i + 1] == 0x05
    requires mem[i + 2 + line] == 0xFF && mem[i + 3 + line] == 0x06
    ensures var o := Tokens(mem, size, line, i + line + 4);
      Tokens(mem, size, line, i) == if o.Some? then Some([YuvLine(mem[i + 2..i + 2 + line])] + o.value) else None
  {
    var w := mem[i..i + 4];
    assert w[0] == 0xFF && w[1] == 0x05;
  }

  /** No stream has two readings. */
  lemma PrintInjective(ts: seq<Token>, us: seq<Token>, line: nat)
    requires TokensOk(ts, line) && TokensOk(us, line) && Print(ts) == Print(us)
    ensures ts == us
  {
    hide Tokens, Print, TokensOk;
    var mem := Print(ts);
    assert mem[0..] == mem + [];
    TokensInvertPrint(mem, |mem|, line, 0, ts, []);
    TokensInvertPrint(mem, |mem|, line, 0, us, []);
  }
}
