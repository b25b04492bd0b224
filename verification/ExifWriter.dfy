/** The EXIF writer itself: makeExif and the writeExifIfd overloads, storing into one byte buffer through an
    advancing entry cursor and a growing value-pool offset. */
module ExifWriter {
  import opened Bytes
  import opened Tiff
  import opened ExifLayout
  import opened ExifTags
  import opened ExifRecord
  import opened ExifSegment

  /** Index of the TIFF header in the buffer: APP1 marker, length and identifier come first. */
  const IFD_START: nat := 10

  /** A directory being written: its offset and the fields it is to hold. */
  datatype Dir = Dir(at: nat, fs: seq<Field>) {
    function Pool(): nat { PoolStart(at, fs) }
    function End(): nat { at + DirSize(fs) }
  }

  /** The first `k` fields of `d` are in the buffer: `cur` is the index of the next entry, `off` the offset
      of the next pooled value. */
  ghost predicate Filled(m: seq<byte>, d: Dir, k: nat, cur: nat, off: nat) {
    && k <= |d.fs| && |d.fs| < 0x1_0000 && IFD_START + d.End() <= |m|
    && cur == IFD_START + d.at + 2 + 12 * k
    && off == d.Pool() + |ExifLayout.Pool(d.fs[..k])| <= d.End()
    && m[IFD_START + d.at..IFD_START + d.at + 2] == U16(|d.fs|)
    && m[IFD_START + d.at + 2..cur] == Entries(d.fs[..k], d.Pool())
    && m[IFD_START + d.Pool()..IFD_START + off] == ExifLayout.Pool(d.fs[..k])
  }

  /** The memory after field `f` was written with its entry at `cur` and its value, if pooled, at `off`. */
  ghost function Written(m: seq<byte>, f: Field, cur: nat, off: nat): seq<byte>
    requires cur + 12 <= |m| && IFD_START + off + |Payload(f)| <= |m|
  {
    Overwrite(Overwrite(m, cur, EntryBytes(f, off)), IFD_START + off, Payload(f))
  }

  lemma PoolPrefix(fs: seq<Field>, k: nat)
    requires k <= |fs|
    ensures |ExifLayout.Pool(fs[..k])| <= |ExifLayout.Pool(fs)|
  {
    assert fs == fs[..k] + fs[k..];
    PoolAppend(fs[..k], fs[k..]);
  }

  lemma Room(m: seq<byte>, d: Dir, k: nat, cur: nat, off: nat)
    requires Filled(m, d, k, cur, off) && k < |d.fs|
    ensures cur + 12 <= IFD_START + d.Pool() <= IFD_START + off
    ensures off + |Payload(d.fs[k])| <= d.End()
  {
    hide Payload, Entries;
    PoolStep(d.fs, k);
    PoolPrefix(d.fs, k + 1);
  }

  /** Writing the next field of a directory extends what is filled. */
  lemma FillNext(m: seq<byte>, d: Dir, k: nat, cur: nat, off: nat)
    requires Filled(m, d, k, cur, off) && k < |d.fs|
    ensures cur + 12 <= |m| && IFD_START + off + |Payload(d.fs[k])| <= |m|
    ensures Filled(Written(m, d.fs[k], cur, off), d, k + 1, cur + 12, off + |Payload(d.fs[k])|)
  {
    hide Payload, EntryBytes, Entries, Pool, Overwrite;
    var f := d.fs[k];
    Room(m, d, k, cur, off);
    assert d.fs[..k + 1] == d.fs[..k] + [f];
    EntriesAppend(d.fs[..k], f, d.Pool());
    PoolAppend(d.fs[..k], [f]);
    assert ExifLayout.Pool([f]) == Payload(f) by { SingletonPool(f); }
    var m1 := Overwrite(m, cur, EntryBytes(f, off));
    var m2 := Written(m, f, cur, off);
    var a := IFD_START + d.at;
    var p := IFD_START + d.Pool();
    OverwriteApart(m, cur, EntryBytes(f, off), a, a + 2);
    OverwriteApart(m1, IFD_START + off, Payload(f), a, a + 2);
    OverwriteExtends(m, a + 2, cur, EntryBytes(f, off));
    OverwriteApart(m1, IFD_START + off, Payload(f), a + 2, cur + 12);
    OverwriteApart(m, cur, EntryBytes(f, off), p, IFD_START + off);
    OverwriteExtends(m1, p, IFD_START + off, Payload(f));
  }

  lemma SingletonPool(f: Field)
    ensures ExifLayout.Pool([f]) == Payload(f)
  {
  }

  /** Nothing outside [lo, hi) changed. */
  ghost predicate SameOutside(m: seq<byte>, m': seq<byte>, lo: nat, hi: nat) {
    lo <= hi <= |m| && |m'| == |m| && m'[..lo] == m[..lo] && m'[hi..] == m[hi..]
  }

  lemma WrittenFrame(m: seq<byte>, d: Dir, k: nat, cur: nat, off: nat)
    requires Filled(m, d, k, cur, off) && k < |d.fs|
    ensures cur + 12 <= |m| && IFD_START + off + |Payload(d.fs[k])| <= |m|
    ensures SameOutside(m, Written(m, d.fs[k], cur, off), IFD_START + d.at, IFD_START + d.End())
  {
    hide Payload, EntryBytes, Overwrite;
    Room(m, d, k, cur, off);
    var f := d.fs[k];
    var m1 := Overwrite(m, cur, EntryBytes(f, off));
    var lo, hi := IFD_START + d.at, IFD_START + d.End();
    OverwriteApart(m, cur, EntryBytes(f, off), 0, lo);
    OverwriteApart(m1, IFD_START + off, Payload(f), 0, lo);
    OverwriteApart(m, cur, EntryBytes(f, off), hi, |m|);
    OverwriteApart(m1, IFD_START + off, Payload(f), hi, |m|);
  }

  /** A directory survives writes elsewhere. */
  lemma FilledFrame(m: seq<byte>, m': seq<byte>, d: Dir, k: nat, cur: nat, off: nat)
    requires Filled(m, d, k, cur, off) && |m'| == |m|
    requires m'[IFD_START + d.at..IFD_START + d.End()] == m[IFD_START + d.at..IFD_START + d.End()]
    ensures Filled(m', d, k, cur, off)
  {
    hide Pool, Entries, U16;
    assert cur <= IFD_START + d.Pool();
    var a, e := IFD_START + d.at, IFD_START + d.End();
    SubSlice(m, a, e, 0, 2);
    SubSlice(m', a, e, 0, 2);
    SubSlice(m, a, e, 2, cur - a);
    SubSlice(m', a, e, 2, cur - a);
    SubSlice(m, a, e, IFD_START + d.Pool() - a, IFD_START + off - a);
    SubSlice(m', a, e, IFD_START + d.Pool() - a, IFD_START + off - a);
  }

  /** The 12 bytes of an entry, four memcpy calls. */
  method PutEntry(buf: array<byte>, pCur: nat, tag: u16, kind: u16, count: u32, slot: seq<byte>) returns (next: nat)
    requires |slot| == 4 && pCur + 12 <= buf.Length
    modifies buf
    ensures next == pCur + 12
    ensures buf[..] == Overwrite(old(buf[..]), pCur, U16(tag) + U16(kind) + U32(count) + slot)
  {
    hide Overwrite, U16, U32;
    next := pCur;
    MemCopy(buf, next, U16(tag));
    next := next + 2;
    MemCopy(buf, next, U16(kind));
    next := next + 2;
    OverwriteTwice(old(buf[..]), pCur, U16(tag), U16(kind));
    MemCopy(buf, next, U32(count));
    next := next + 4;
    OverwriteTwice(old(buf[..]), pCur, U16(tag) + U16(kind), U32(count));
    MemCopy(buf, next, slot);
    next := next + 4;
    OverwriteTwice(old(buf[..]), pCur, U16(tag) + U16(kind) + U32(count), slot);
  }

  /** The value of a single number, as its type. */
  function Single(kind: u16, value: u32): Value
    requires kind == TYPE_BYTE ==> value < 0x100
    requires kind == TYPE_SHORT ==> value < 0x1_0000
  {
    if kind == TYPE_BYTE then Value.Bytes([value as byte])
    else if kind == TYPE_SHORT then Shorts([value])
    else Longs([value])
  }

  /** A value held as bytes, as its type. */
  function Text(kind: u16, b: seq<byte>): Value {
    if kind == TYPE_BYTE then Value.Bytes(b) else if kind == TYPE_ASCII then Ascii(b) else Undefined(b)
  }

  lemma SingleSlot(tag: u16, kind: u16, value: u32, off: nat)
    requires kind == TYPE_BYTE ==> value < 0x100
    requires kind == TYPE_SHORT ==> value < 0x1_0000
    ensures Slot(Field(tag, Single(kind, value), false), off) == U32(value)
  {
    if kind == TYPE_BYTE {
      assert U32(value) == [value as byte, 0, 0, 0];
    } else if kind == TYPE_SHORT {
      assert ShortBytes([value]) == U16(value);
      assert value % 0x1_0000 == value && value / 0x1_0000 == 0;
      assert U32(value) == U16(value) + U16(0);
    } else {
      assert LongBytes([value]) == U32(value);
    }
  }

  lemma NoPayload(m: seq<byte>, f: Field, cur: nat, off: nat)
    requires cur + 12 <= |m| && IFD_START + off <= |m| && !f.pooled
    ensures Written(m, f, cur, off) == Overwrite(m, cur, EntryBytes(f, off))
  {
    hide EntryBytes;
  }

  /** writeExifIfd for a number stored in the entry. */
  method WriteIfdValue(buf: array<byte>, pCur: nat, tag: u16, kind: u16, count: u32, value: u32,
                       ghost d: Dir, ghost k: nat, ghost off: nat) returns (next: nat)
    requires kind in {TYPE_BYTE, TYPE_SHORT, TYPE_LONG} && count == 1
    requires (kind == TYPE_BYTE ==> value < 0x100) && (kind == TYPE_SHORT ==> value < 0x1_0000)
    requires Filled(buf[..], d, k, pCur, off)
    requires k < |d.fs| && d.fs[k] == Field(tag, Single(kind, value), false)
    modifies buf
    ensures next == pCur + 12
    ensures IFD_START + off <= |old(buf[..])| && buf[..] == Written(old(buf[..]), d.fs[k], pCur, off)
    ensures Filled(buf[..], d, k + 1, next, off)
    ensures SameOutside(old(buf[..]), buf[..], IFD_START + d.at, IFD_START + d.End())
  {
    hide Filled, Overwrite, U16, U32, Slot;
    FillNext(buf[..], d, k, pCur, off);
    WrittenFrame(buf[..], d, k, pCur, off);
    SingleSlot(tag, kind, value, off);
    NoPayload(buf[..], d.fs[k], pCur, off);
    next := PutEntry(buf, pCur, tag, kind, count, U32(value));
  }

  /** writeExifIfd for at most four bytes stored in the entry. */
  method WriteIfdInline(buf: array<byte>, pCur: nat, tag: u16, kind: u16, count: u32, pValue: seq<byte>,
                        ghost d: Dir, ghost k: nat, ghost off: nat) returns (next: nat)
    requires kind in {TYPE_BYTE, TYPE_ASCII, TYPE_UNDEFINED} && count == |pValue| <= 4
    requires Filled(buf[..], d, k, pCur, off)
    requires k < |d.fs| && d.fs[k] == Field(tag, Text(kind, pValue), false)
    modifies buf
    ensures next == pCur + 12
    ensures IFD_START + off <= |old(buf[..])| && buf[..] == Written(old(buf[..]), d.fs[k], pCur, off)
    ensures Filled(buf[..], d, k + 1, next, off)
    ensures SameOutside(old(buf[..]), buf[..], IFD_START + d.at, IFD_START + d.End())
  {
    hide Filled, Overwrite, U16, U32;
    FillNext(buf[..], d, k, pCur, off);
    WrittenFrame(buf[..], d, k, pCur, off);
    NoPayload(buf[..], d.fs[k], pCur, off);
    var slot := (pValue + [0, 0, 0, 0])[..4];
    next := PutEntry(buf, pCur, tag, kind, count, slot);
  }

  lemma TextEntry(tag: u16, kind: u16, b: seq<byte>, off: nat)
    requires kind in {TYPE_BYTE, TYPE_ASCII, TYPE_UNDEFINED}
    ensures EntryBytes(Field(tag, Text(kind, b), true), off) == U16(tag) + U16(kind) + U32(|b|) + U32(off)
    ensures Payload(Field(tag, Text(kind, b), true)) == b
  {
    hide U16, U32;
  }

  /** writeExifIfd for bytes stored in the value pool, whatever their number. */
  method WriteIfdBytes(buf: array<byte>, pCur: nat, tag: u16, kind: u16, count: u32, pValue: seq<byte>, offset: nat,
                       ghost d: Dir, ghost k: nat) returns (next: nat, offset': nat)
    requires kind in {TYPE_BYTE, TYPE_ASCII, TYPE_UNDEFINED} && count == |pValue|
    requires Filled(buf[..], d, k, pCur, offset)
    requires k < |d.fs| && d.fs[k] == Field(tag, Text(kind, pValue), true)
    modifies buf
    ensures next == pCur + 12 && offset' == offset + count
    ensures IFD_START + offset' <= |old(buf[..])| && buf[..] == Written(old(buf[..]), d.fs[k], pCur, offset)
    ensures Filled(buf[..], d, k + 1, next, offset')
    ensures SameOutside(old(buf[..]), buf[..], IFD_START + d.at, IFD_START + d.End())
  {
    hide Filled, Overwrite, U16, U32, Slot, EntryBytes, Payload, Text;
    FillNext(buf[..], d, k, pCur, offset);
    WrittenFrame(buf[..], d, k, pCur, offset);
    TextEntry(tag, kind, pValue, offset);
    next := PutEntry(buf, pCur, tag, kind, count, U32(offset));
    MemCopy(buf, IFD_START + offset, pValue);
    offset' := offset + count;
  }

  /** writeExifIfd for rationals stored in the value pool; signed ones are passed by their words. */
  method WriteIfdRationals(buf: array<byte>, pCur: nat, tag: u16, kind: u16, count: u32, pValue: seq<Rational>,
                           offset: nat, ghost d: Dir, ghost k: nat) returns (next: nat, offset': nat)
    requires Filled(buf[..], d, k, pCur, offset)
    requires k < |d.fs| && d.fs[k].tag == tag && d.fs[k].pooled && Kind(d.fs[k].value) == kind
    requires count == |pValue| == Count(d.fs[k].value) && Encode(d.fs[k].value) == RationalBytes(pValue)
    modifies buf
    ensures next == pCur + 12 && offset' == offset + 8 * count
    ensures IFD_START + offset' <= |old(buf[..])| && buf[..] == Written(old(buf[..]), d.fs[k], pCur, offset)
    ensures Filled(buf[..], d, k + 1, next, offset')
    ensures SameOutside(old(buf[..]), buf[..], IFD_START + d.at, IFD_START + d.End())
  {
    hide Filled, Overwrite, U16, U32, Encode, RationalBytes;
    FillNext(buf[..], d, k, pCur, offset);
    WrittenFrame(buf[..], d, k, pCur, offset);
    next := PutEntry(buf, pCur, tag, kind, count, U32(offset));
    MemCopy(buf, IFD_START + offset, RationalBytes(pValue));
    offset' := offset + 8 * count;
  }

  /** Reading the words of a signed rational as unsigned ones. */
  function Words(r: SRational): Rational {
    Rational(if r.num < 0 then r.num + 0x1_0000_0000 else r.num, if r.den < 0 then r.den + 0x1_0000_0000 else r.den)
  }

  lemma WordsBytes(r: SRational)
    ensures RationalBytes([Words(r)]) == SRationalBytes([r])
  {
    WordBytes(r.num);
    WordBytes(r.den);
  }

  /** Storing the entry count opens a directory. */
  lemma Open(m: seq<byte>, d: Dir)
    requires |d.fs| < 0x1_0000 && IFD_START + d.End() <= |m|
    ensures var m' := Overwrite(m, IFD_START + d.at, U16(|d.fs|));
      && Filled(m', d, 0, IFD_START + d.at + 2, d.Pool())
      && SameOutside(m, m', IFD_START + d.at, IFD_START + d.End())
  {
    hide Overwrite, U16;
    var at, b := IFD_START + d.at, U16(|d.fs|);
    assert d.fs[..0] == [];
    OverwriteApart(m, at, b, 0, at);
    OverwriteApart(m, at, b, IFD_START + d.End(), |m|);
  }

  /** The number of pooled bytes so far does not change when the remaining fields sit in their entries. */
  lemma PoolComplete(fs: seq<Field>, k: nat)
    requires k <= |fs| && forall i :: k <= i < |fs| ==> !fs[i].pooled
    ensures |ExifLayout.Pool(fs[..k])| == |ExifLayout.Pool(fs)|
    decreases |fs| - k
  {
    hide Pool;
    if k < |fs| {
      PoolStep(fs, k);
      assert Payload(fs[k]) == [];
      PoolComplete(fs, k + 1);
    } else {
      assert fs[..k] == fs;
    }
  }

  lemma PrimaryAt(a: Attributes, text: seq<byte>)
    requires Writable(a, text)
    ensures ExifAt(a) < GpsAt(a, text) < 0x1_0000
    ensures var fs := Primary(a, text);
      && |fs| == (if a.enableGps then 10 else 9)
      && fs[0] == Field(IMAGE_WIDTH, Longs([a.width]), false)
      && fs[1] == Field(IMAGE_HEIGHT, Longs([a.height]), false)
      && fs[2] == Field(MAKE, Ascii(CString(a.maker)), true)
      && fs[3] == Field(MODEL, Ascii(CString(a.model)), true)
      && fs[4] == Field(ORIENTATION, Shorts([a.orientation]), false)
      && fs[5] == Field(SOFTWARE, Ascii(CString(a.software)), true)
      && fs[6] == Field(DATE_TIME, Ascii(a.dateTime), true)
      && fs[7] == Field(YCBCR_POSITIONING, Shorts([a.ycbcrPositioning]), false)
      && fs[8] == Field(EXIF_IFD_POINTER, Longs([ExifAt(a)]), false)
      && (a.enableGps ==> fs[9] == Field(GPS_IFD_POINTER, Longs([GpsAt(a, text)]), false))
      && 8 + DirSize(fs) == ExifAt(a)
  {
    hide DirSize;
    OffsetBounds(a, text);
    PrimarySize(a, ExifAt(a), GpsAt(a, text));
  }

  /** 0th IFD up to the Exif pointer; the GPS entry and the next-IFD offset are left for later. */
  method WritePrimaryIfd(buf: array<byte>, a: Attributes, ghost text: seq<byte>)
    returns (pGpsIfdPtr: nat, pNextIfdOffset: nat, offset: nat)
    requires Writable(a, text) && IFD_START + JpegAt(a, text) <= buf.Length
    modifies buf
    ensures offset == ExifAt(a)
    ensures pNextIfdOffset + 4 == IFD_START + PoolStart(8, Primary(a, text))
    ensures Filled(buf[..], Dir(8, Primary(a, text)), 9, pGpsIfdPtr, offset)
    ensures SameOutside(old(buf[..]), buf[..], IFD_START + 8, IFD_START + offset)
  {
    hide Filled, Overwrite, U16, Written, DirSize, Payload, CString, Pool, Primary, GpsAt, ThumbDirAt, JpegAt;
    ghost var d := Dir(8, Primary(a, text));
    PrimaryAt(a, text);
    OffsetBounds(a, text);
    var pCur := IFD_START + 8;
    var tmp := if a.enableGps then 10 else 9;
    Open(buf[..], d);
    MemCopy(buf, pCur, U16(tmp));
    pCur := pCur + 2;
    offset := 8 + 2 + tmp * 12 + 4;
    pCur := WriteIfdValue(buf, pCur, IMAGE_WIDTH, TYPE_LONG, 1, a.width, d, 0, offset);
    pCur := WriteIfdValue(buf, pCur, IMAGE_HEIGHT, TYPE_LONG, 1, a.height, d, 1, offset);
    pCur, offset := WriteIfdBytes(buf, pCur, MAKE, TYPE_ASCII, StrLen(a.maker) + 1, CString(a.maker), offset, d, 2);
    pCur, offset := WriteIfdBytes(buf, pCur, MODEL, TYPE_ASCII, StrLen(a.model) + 1, CString(a.model), offset, d, 3);
    pCur := WriteIfdValue(buf, pCur, ORIENTATION, TYPE_SHORT, 1, a.orientation, d, 4, offset);
    pCur, offset :=
      WriteIfdBytes(buf, pCur, SOFTWARE, TYPE_ASCII, StrLen(a.software) + 1, CString(a.software), offset, d, 5);
    pCur, offset := WriteIfdBytes(buf, pCur, DATE_TIME, TYPE_ASCII, 20, a.dateTime, offset, d, 6);
    pCur := WriteIfdValue(buf, pCur, YCBCR_POSITIONING, TYPE_SHORT, 1, a.ycbcrPositioning, d, 7, offset);
    assert offset == ExifAt(a) by {
      FilledOffset(buf[..], d, 8, pCur, offset);
    }
    pCur := WriteIfdValue(buf, pCur, EXIF_IFD_POINTER, TYPE_LONG, 1, offset, d, 8, offset);
    pGpsIfdPtr := pCur;
    if a.enableGps {
      pCur := pCur + 12;
    }
    pNextIfdOffset := pCur;
    assert pNextIfdOffset == IFD_START + 8 + 2 + 12 * |d.fs|;
  }

  lemma FilledOffset(m: seq<byte>, d: Dir, k: nat, cur: nat, off: nat)
    requires Filled(m, d, k, cur, off)
    requires forall i :: k <= i < |d.fs| ==> !d.fs[i].pooled
    ensures off == d.End() && cur == IFD_START + d.at + 2 + 12 * k
  {
    PoolComplete(d.fs, k);
  }

  lemma ExifFieldsAt(a: Attributes, text: seq<byte>)
    requires Writable(a, text)
    ensures var fs := ExifFields(a, text);
      && |fs| == 22
      && fs[0] == Field(EXPOSURE_TIME, Rationals([a.exposureTime]), true)
      && fs[1] == Field(FNUMBER, Rationals([a.fnumber]), true)
      && fs[2] == Field(EXPOSURE_PROGRAM, Shorts([a.exposureProgram]), false)
      && fs[3] == Field(ISO_SPEED_RATING, Shorts([a.isoSpeedRating]), false)
      && fs[4] == Field(EXIF_VERSION, Undefined(a.exifVersion), false)
      && fs[5] == Field(DATE_TIME_ORG, Ascii(a.dateTime), true)
      && fs[6] == Field(DATE_TIME_DIGITIZE, Ascii(a.dateTime), true)
      && fs[7] == Field(SHUTTER_SPEED, SRationals([a.shutterSpeed]), true)
      && ExifAt(a) + DirSize(fs) == GpsAt(a, text)
  {
    hide DirSize, PixelX, PixelY;
  }

  lemma ExifFieldsAtMiddle(a: Attributes, text: seq<byte>)
    requires Writable(a, text)
    ensures var fs := ExifFields(a, text);
      && |fs| == 22
      && fs[8] == Field(APERTURE, Rationals([a.aperture]), true)
      && fs[9] == Field(BRIGHTNESS, SRationals([a.brightness]), true)
      && fs[10] == Field(EXPOSURE_BIAS, SRationals([a.exposureBias]), true)
      && fs[11] == Field(MAX_APERTURE, Rationals([a.maxAperture]), true)
      && fs[12] == Field(METERING_MODE, Shorts([a.meteringMode]), false)
      && fs[13] == Field(FLASH, Shorts([a.flash]), false)
      && fs[14] == Field(FOCAL_LENGTH, Rationals([a.focalLength]), true)
  {
    hide PixelX, PixelY;
  }

  lemma ExifFieldsAtTail(a: Attributes, text: seq<byte>)
    requires Writable(a, text)
    ensures var fs := ExifFields(a, text);
      && |fs| == 22
      && fs[15] == Field(USER_COMMENT, Undefined(CommentRecord(text)), true)
      && fs[16] == Field(COLOR_SPACE, Shorts([a.colorSpace]), false)
      && fs[17] == Field(PIXEL_X_DIMENSION, Longs([PixelX(a, text)]), false)
      && fs[18] == Field(PIXEL_Y_DIMENSION, Longs([PixelY(a, text)]), false)
      && fs[19] == Field(EXPOSURE_MODE, Longs([a.exposureMode]), false)
      && fs[20] == Field(WHITE_BALANCE, Longs([a.whiteBalance]), false)
      && fs[21] == Field(SCENE_CAPTURE_TYPE, Longs([a.sceneCaptureType]), false)
  {
    hide PixelX, PixelY;
  }

  /** Exif IFD, first half: exposure and dates. */
  method WriteExposure(buf: array<byte>, a: Attributes, ghost text: seq<byte>, at: nat)
    returns (pCur: nat, offset: nat)
    requires Writable(a, text) && at == ExifAt(a) && IFD_START + JpegAt(a, text) <= buf.Length
    modifies buf
    ensures Filled(buf[..], Dir(at, ExifFields(a, text)), 8, pCur, offset)
    ensures SameOutside(old(buf[..]), buf[..], IFD_START + at, IFD_START + GpsAt(a, text))
  {
    hide Filled, Overwrite, U16, Written, DirSize, Payload, Pool, ExifFields;
    ghost var d := Dir(at, ExifFields(a, text));
    ExifFieldsAt(a, text);
    OffsetBounds(a, text);
    pCur := IFD_START + at;
    Open(buf[..], d);
    MemCopy(buf, pCur, U16(22));
    pCur := pCur + 2;
    offset := at + 2 + 22 * 12 + 4;
    pCur, offset := WriteIfdRationals(buf, pCur, EXPOSURE_TIME, TYPE_RATIONAL, 1, [a.exposureTime], offset, d, 0);
    pCur, offset := WriteIfdRationals(buf, pCur, FNUMBER, TYPE_RATIONAL, 1, [a.fnumber], offset, d, 1);
    pCur := WriteIfdValue(buf, pCur, EXPOSURE_PROGRAM, TYPE_SHORT, 1, a.exposureProgram, d, 2, offset);
    pCur := WriteIfdValue(buf, pCur, ISO_SPEED_RATING, TYPE_SHORT, 1, a.isoSpeedRating, d, 3, offset);
    pCur := WriteIfdInline(buf, pCur, EXIF_VERSION, TYPE_UNDEFINED, 4, a.exifVersion, d, 4, offset);
    pCur, offset := WriteIfdBytes(buf, pCur, DATE_TIME_ORG, TYPE_ASCII, 20, a.dateTime, offset, d, 5);
    pCur, offset := WriteIfdBytes(buf, pCur, DATE_TIME_DIGITIZE, TYPE_ASCII, 20, a.dateTime, offset, d, 6);
    WordsBytes(a.shutterSpeed);
    pCur, offset :=
      WriteIfdRationals(buf, pCur, SHUTTER_SPEED, TYPE_SRATIONAL, 1, [Words(a.shutterSpeed)], offset, d, 7);
  }

  /** Exif IFD, APEX values and camera settings in front of the comment. */
  method WriteApex(buf: array<byte>, a: Attributes, ghost text: seq<byte>, ghost at: nat, cur: nat, off: nat)
    returns (pCur: nat, offset: nat)
    requires Writable(a, text) && at == ExifAt(a)
    requires Filled(buf[..], Dir(at, ExifFields(a, text)), 8, cur, off)
    modifies buf
    ensures Filled(buf[..], Dir(at, ExifFields(a, text)), 15, pCur, offset)
    ensures SameOutside(old(buf[..]), buf[..], IFD_START + at, IFD_START + GpsAt(a, text))
  {
    hide Filled, Overwrite, U16, Written, DirSize, Payload, Pool, ExifFields;
    ghost var d := Dir(at, ExifFields(a, text));
    ExifFieldsAt(a, text);
    ExifFieldsAtMiddle(a, text);
    pCur, offset := cur, off;
    pCur, offset := WriteIfdRationals(buf, pCur, APERTURE, TYPE_RATIONAL, 1, [a.aperture], offset, d, 8);
    WordsBytes(a.brightness);
    pCur, offset := WriteIfdRationals(buf, pCur, BRIGHTNESS, TYPE_SRATIONAL, 1, [Words(a.brightness)], offset, d, 9);
    WordsBytes(a.exposureBias);
    pCur, offset :=
      WriteIfdRationals(buf, pCur, EXPOSURE_BIAS, TYPE_SRATIONAL, 1, [Words(a.exposureBias)], offset, d, 10);
    pCur, offset := WriteIfdRationals(buf, pCur, MAX_APERTURE, TYPE_RATIONAL, 1, [a.maxAperture], offset, d, 11);
    pCur := WriteIfdValue(buf, pCur, METERING_MODE, TYPE_SHORT, 1, a.meteringMode, d, 12, offset);
    pCur := WriteIfdValue(buf, pCur, FLASH, TYPE_SHORT, 1, a.flash, d, 13, offset);
    pCur, offset := WriteIfdRationals(buf, pCur, FOCAL_LENGTH, TYPE_RATIONAL, 1, [a.focalLength], offset, d, 14);
  }

  /** The text of a comment field. */
  ghost function CommentText(comment: seq<byte>): seq<byte> {
    comment[..StrLen(comment)]
  }

  /** The comment field of a record with the image's width and height, which the record keeps right behind it. */
  ghost predicate CommentMemory(comment: seq<byte>, a: Attributes) {
    |comment| == COMMENT_SPAN && comment[COMMENT_SIZE..] == Behind(a)
  }

  /** That memory after the writer has used it. */
  ghost function CommentAfter(comment: seq<byte>): seq<byte>
    requires StrLen(comment) + 9 <= |comment|
  {
    CommentRecord(CommentText(comment)) + comment[StrLen(comment) + 9..]
  }

  /** The code starts with a NUL, so a field that was written once reads as an empty comment afterwards:
      every later segment made from the same record loses the text. */
  lemma CommentLost(comment: seq<byte>)
    requires StrLen(comment) + 9 <= |comment|
    ensures |CommentAfter(comment)| == |comment| && CommentText(CommentAfter(comment)) == []
  {
    assert CommentAfter(comment)[0] == 0;
  }

  /** What lies behind the field afterwards, and so what the record holds. */
  lemma BehindStored(comment: seq<byte>, a: Attributes)
    requires CommentMemory(comment, a) && StrLen(comment) < COMMENT_SIZE
    ensures |CommentAfter(comment)| == COMMENT_SPAN
    ensures CommentAfter(comment)[COMMENT_SIZE..] == BehindAfter(a, CommentText(comment))
  {
    hide U32;
    var text := CommentText(comment);
    var r, n := CommentRecord(text), Excess(text);
    RecordLength(text);
    assert |r| <= COMMENT_SIZE ==> n == 0;
    assert |r| > COMMENT_SIZE ==> n == |r| - COMMENT_SIZE;
    assert comment[COMMENT_SIZE..][n..] == comment[COMMENT_SIZE + n..];
  }

  /** The memory is that of the record as the writer leaves it. */
  lemma DamagedMemory(comment: seq<byte>, a: Attributes)
    requires CommentMemory(comment, a) && StrLen(comment) < COMMENT_SIZE
    ensures |CommentAfter(comment)| == COMMENT_SPAN
    ensures CommentMemory(CommentAfter(comment), Damaged(a, CommentText(comment)))
  {
    hide U32, AsU32, BehindAfter, CommentText, CommentAfter;
    BehindStored(comment, a);
    var b := BehindAfter(a, CommentText(comment));
    U32Inverse(b[..4]);
    U32Inverse(b[4..]);
    assert b == b[..4] + b[4..];
  }

  /** The code is put in front of the comment, in the caller's own record. A comment of 142 or more characters
      does not fit its field then and runs over the width, and one of 146 or more over the height. */
  method PrefixComment(comment: array<byte>) returns (commentsLen: nat)
    requires comment.Length == COMMENT_SPAN && StrLen(comment[..]) < COMMENT_SIZE
    modifies comment
    ensures commentsLen == StrLen(old(comment[..])) + 1
    ensures comment[..] == CommentAfter(old(comment[..]))
  {
    ghost var was := comment[..];
    commentsLen := StrLen(comment[..]) + 1;
    MemMoveUp(comment, 8, 0, commentsLen);
    MemCopy(comment, 0, COMMENT_CODE);
    Prefixed(was, StrLen(was));
  }

  /** Moving the terminated text up by eight and storing the code in the gap. */
  lemma Prefixed(was: seq<byte>, n: nat)
    requires n + 9 <= |was| && was[n] == 0
    ensures Overwrite(Overwrite(was, 8, was[0..n + 1]), 0, COMMENT_CODE)
      == CommentRecord(was[..n]) + was[n + 9..]
  {
    assert was[0..n + 1] == was[..n] + [0];
  }

  /** Storing the next-IFD offset completes a directory. */
  lemma Close(m: seq<byte>, d: Dir, cur: nat, off: nat, next: u32)
    requires Filled(m, d, |d.fs|, cur, off)
    ensures var m' := Overwrite(m, cur, U32(next));
      && off == d.End()
      && m'[IFD_START + d.at..IFD_START + d.End()] == DirBytes(d.at, d.fs, next)
      && SameOutside(m, m', IFD_START + d.at, IFD_START + d.End())
  {
    hide Overwrite, U16, U32, Pool, Entries;
    var b := U32(next);
    var m' := Overwrite(m, cur, b);
    var at, end := IFD_START + d.at, IFD_START + d.End();
    assert d.fs[..|d.fs|] == d.fs;
    OverwriteApart(m, cur, b, at, at + 2);
    OverwriteApart(m, cur, b, at + 2, cur);
    OverwriteApart(m, cur, b, cur + 4, end);
    OverwriteApart(m, cur, b, 0, at);
    OverwriteApart(m, cur, b, end, |m|);
    assert m'[at..end] == m'[at..at + 2] + m'[at + 2..cur] + m'[cur..cur + 4] + m'[cur + 4..end];
  }

  /** Exif IFD, camera settings behind the comment. The pixel dimensions come from behind the comment field. */
  method WriteSettings(buf: array<byte>, a: Attributes, ghost text: seq<byte>, comment: array<byte>, ghost at: nat,
                       cur: nat, ghost off: nat)
    returns (pCur: nat)
    requires buf != comment && comment.Length == COMMENT_SPAN && comment[COMMENT_SIZE..] == BehindAfter(a, text)
    requires Writable(a, text) && at == ExifAt(a)
    requires Filled(buf[..], Dir(at, ExifFields(a, text)), 16, cur, off)
    modifies buf
    ensures Filled(buf[..], Dir(at, ExifFields(a, text)), 22, pCur, off)
    ensures SameOutside(old(buf[..]), buf[..], IFD_START + at, IFD_START + GpsAt(a, text))
  {
    hide Filled, Overwrite, U16, Written, DirSize, Payload, Pool, ExifFields, AsU32, BehindAfter;
    ghost var d := Dir(at, ExifFields(a, text));
    ExifFieldsAt(a, text);
    ExifFieldsAtTail(a, text);
    var width, height := AsU32(comment[COMMENT_SIZE..][..4]), AsU32(comment[COMMENT_SIZE..][4..]);
    pCur := WriteIfdValue(buf, cur, COLOR_SPACE, TYPE_SHORT, 1, a.colorSpace, d, 16, off);
    pCur := WriteIfdValue(buf, pCur, PIXEL_X_DIMENSION, TYPE_LONG, 1, width, d, 17, off);
    pCur := WriteIfdValue(buf, pCur, PIXEL_Y_DIMENSION, TYPE_LONG, 1, height, d, 18, off);
    pCur := WriteIfdValue(buf, pCur, EXPOSURE_MODE, TYPE_LONG, 1, a.exposureMode, d, 19, off);
    pCur := WriteIfdValue(buf, pCur, WHITE_BALANCE, TYPE_LONG, 1, a.whiteBalance, d, 20, off);
    pCur := WriteIfdValue(buf, pCur, SCENE_CAPTURE_TYPE, TYPE_LONG, 1, a.sceneCaptureType, d, 21, off);
  }

  /** Exif IFD, the comment, with its code in front. */
  method WriteComment(buf: array<byte>, a: Attributes, ghost text: seq<byte>, comment: array<byte>, ghost at: nat,
                      cur: nat, off: nat)
    returns (pCur: nat, offset: nat)
    requires buf != comment && comment.Length == COMMENT_SPAN && text == CommentText(comment[..])
    requires Writable(a, text) && at == ExifAt(a)
    requires Filled(buf[..], Dir(at, ExifFields(a, text)), 15, cur, off)
    modifies buf, comment
    ensures Filled(buf[..], Dir(at, ExifFields(a, text)), 16, pCur, offset)
    ensures SameOutside(old(buf[..]), buf[..], IFD_START + at, IFD_START + GpsAt(a, text))
    ensures comment[..] == CommentAfter(old(comment[..]))
  {
    hide Filled, Overwrite, U16, Written, DirSize, Payload, Pool, ExifFields, PixelX, PixelY;
    ghost var d := Dir(at, ExifFields(a, text));
    ExifFieldsAt(a, text);
    ExifFieldsAtTail(a, text);
    var commentsLen := PrefixComment(comment);
    var record := comment[..commentsLen + 8];
    assert record == CommentRecord(text);
    pCur, offset := WriteIfdBytes(buf, cur, USER_COMMENT, TYPE_UNDEFINED, commentsLen + 8, record, off, d, 15);
  }

  /** Exif IFD: the whole directory, with the comment field of the record prefixed on the way. */
  method WriteExifPrivate(buf: array<byte>, a: Attributes, comment: array<byte>, at: nat) returns (offset: nat)
    requires buf != comment && CommentMemory(comment[..], a)
    requires Writable(a, CommentText(comment[..])) && at == ExifAt(a)
    requires IFD_START + JpegAt(a, CommentText(comment[..])) <= buf.Length
    modifies buf, comment
    ensures offset == GpsAt(a, CommentText(old(comment[..])))
    ensures SameOutside(old(buf[..]), buf[..], IFD_START + at, IFD_START + offset)
    ensures buf[IFD_START + at..IFD_START + offset] == DirBytes(at, ExifFields(a, CommentText(old(comment[..]))), 0)
    ensures comment[..] == CommentAfter(old(comment[..]))
  {
    hide Filled, Overwrite, U16, U32, Written, DirSize, DirBytes, Payload, Pool, ExifFields, BehindAfter, CommentAfter;
    ghost var text := CommentText(comment[..]);
    ghost var d := Dir(at, ExifFields(a, text));
    OffsetBounds(a, text);
    ExifFieldsAt(a, text);
    BehindStored(comment[..], a);
    var pCur;
    pCur, offset := WriteExposure(buf, a, text, at);
    pCur, offset := WriteApex(buf, a, text, at, pCur, offset);
    pCur, offset := WriteComment(buf, a, text, comment, at, pCur, offset);
    assert comment[COMMENT_SIZE..] == comment[..][COMMENT_SIZE..];
    pCur := WriteSettings(buf, a, text, comment, at, pCur, offset);
    Close(buf[..], d, pCur, offset, 0);
    assert pCur + 4 <= buf.Length by { FilledOffset(buf[..], d, 22, pCur, offset); SizeAtLeast(d.fs); }
    MemCopy(buf, pCur, U32(0));
  }

  lemma SizeAtLeast(fs: seq<Field>)
    ensures DirSize(fs) >= 2 + 12 * |fs| + 4
  {
  }

  lemma GpsFieldsAt(a: Attributes)
    requires a.Valid()
    ensures var fs := GpsFields(a);
      var n := if a.gpsProcessingMethod[0] == 0 then 9 else 10;
      && |fs| == n
      && fs[0] == Field(GPS_VERSION_ID, Value.Bytes(a.gpsVersionId), false)
      && fs[1] == Field(GPS_LATITUDE_REF, Ascii(a.gpsLatitudeRef), false)
      && fs[2] == Field(GPS_LATITUDE, Rationals(a.gpsLatitude), true)
      && fs[3] == Field(GPS_LONGITUDE_REF, Ascii(a.gpsLongitudeRef), false)
      && fs[4] == Field(GPS_LONGITUDE, Rationals(a.gpsLongitude), true)
      && fs[5] == Field(GPS_ALTITUDE_REF, Value.Bytes([a.gpsAltitudeRef]), false)
      && fs[6] == Field(GPS_ALTITUDE, Rationals([a.gpsAltitude]), true)
      && fs[7] == Field(GPS_TIMESTAMP, Rationals(a.gpsTimestamp), true)
      && (n == 10 ==> fs[8] == Field(GPS_PROCESSING_METHOD, Undefined(MethodRecord(a)), true))
      && fs[n - 1] == Field(GPS_DATESTAMP, Ascii(a.gpsDatestamp), true)
  {
  }

  /** GPS IFD up to the longitude. */
  method WritePosition(buf: array<byte>, a: Attributes, at: nat) returns (pCur: nat, offset: nat)
    requires a.Valid() && at + DirSize(GpsFields(a)) < 0x1_0000
    requires IFD_START + at + DirSize(GpsFields(a)) <= buf.Length
    modifies buf
    ensures Filled(buf[..], Dir(at, GpsFields(a)), 5, pCur, offset)
    ensures SameOutside(old(buf[..]), buf[..], IFD_START + at, IFD_START + at + DirSize(GpsFields(a)))
  {
    hide Filled, Overwrite, U16, Written, DirSize, Payload, Pool, GpsFields;
    ghost var d := Dir(at, GpsFields(a));
    GpsFieldsAt(a);
    pCur := IFD_START + at;
    var tmp := if a.gpsProcessingMethod[0] == 0 then 9 else 10;
    Open(buf[..], d);
    SizeAtLeast(d.fs);
    MemCopy(buf, pCur, U16(tmp));
    pCur := pCur + 2;
    offset := at + 2 + tmp * 12 + 4;
    pCur := WriteIfdInline(buf, pCur, GPS_VERSION_ID, TYPE_BYTE, 4, a.gpsVersionId, d, 0, offset);
    pCur := WriteIfdInline(buf, pCur, GPS_LATITUDE_REF, TYPE_ASCII, 2, a.gpsLatitudeRef, d, 1, offset);
    pCur, offset := WriteIfdRationals(buf, pCur, GPS_LATITUDE, TYPE_RATIONAL, 3, a.gpsLatitude, offset, d, 2);
    pCur := WriteIfdInline(buf, pCur, GPS_LONGITUDE_REF, TYPE_ASCII, 2, a.gpsLongitudeRef, d, 3, offset);
    pCur, offset := WriteIfdRationals(buf, pCur, GPS_LONGITUDE, TYPE_RATIONAL, 3, a.gpsLongitude, offset, d, 4);
  }

  /** strlen of a field that may lack its NUL: it then runs on into whatever lies behind the field. */
  method StrLenFrom(field: seq<byte>) returns (n: nat)
    ensures 0 in field ==> n == StrLen(field)
    ensures 0 !in field ==> n >= |field|
  {
    n := StrLen(field);
    if 0 !in field {
      var beyond: int := *;
      n := |field| + if beyond > 0 then beyond else 0;
    }
  }

  /** GPS IFD, the processing method if there is one; one that fills its field is cut where the field ends. */
  method WriteMethod(buf: array<byte>, a: Attributes, ghost at: nat, cur: nat, off: nat)
    returns (pCur: nat, offset: nat)
    requires a.Valid() && Filled(buf[..], Dir(at, GpsFields(a)), 8, cur, off)
    modifies buf
    ensures Filled(buf[..], Dir(at, GpsFields(a)), |GpsFields(a)| - 1, pCur, offset)
    ensures SameOutside(old(buf[..]), buf[..], IFD_START + at, IFD_START + at + DirSize(GpsFields(a)))
  {
    hide Filled, Overwrite, U16, Written, DirSize, Payload, Pool, GpsFields;
    ghost var d := Dir(at, GpsFields(a));
    GpsFieldsAt(a);
    FilledSame(buf[..], d, 8, cur, off);
    pCur, offset := cur, off;
    var tmp := StrLenFrom(a.gpsProcessingMethod);
    if tmp > 0 {
      if tmp > 100 {
        tmp := 100;
      }
      var tmpBuf := ASCII_PREFIX + a.gpsProcessingMethod[..tmp];
      pCur, offset := WriteIfdBytes(buf, pCur, GPS_PROCESSING_METHOD, TYPE_UNDEFINED, tmp + 8, tmpBuf, offset, d, 8);
    }
  }

  lemma FilledSame(m: seq<byte>, d: Dir, k: nat, cur: nat, off: nat)
    requires Filled(m, d, k, cur, off)
    ensures SameOutside(m, m, IFD_START + d.at, IFD_START + d.End())
  {
  }

  /** GPS IFD. */
  method WriteGpsIfd(buf: array<byte>, a: Attributes, at: nat) returns (offset: nat)
    requires a.Valid() && at + DirSize(GpsFields(a)) < 0x1_0000
    requires IFD_START + at + DirSize(GpsFields(a)) <= buf.Length
    modifies buf
    ensures offset == at + DirSize(GpsFields(a))
    ensures SameOutside(old(buf[..]), buf[..], IFD_START + at, IFD_START + offset)
    ensures buf[IFD_START + at..IFD_START + offset] == DirBytes(at, GpsFields(a), 0)
  {
    hide Filled, Overwrite, U16, U32, Written, DirSize, DirBytes, Payload, Pool, GpsFields;
    ghost var d := Dir(at, GpsFields(a));
    GpsFieldsAt(a);
    var pCur;
    pCur, offset := WritePosition(buf, a, at);
    pCur := WriteIfdValue(buf, pCur, GPS_ALTITUDE_REF, TYPE_BYTE, 1, a.gpsAltitudeRef as int, d, 5, offset);
    pCur, offset := WriteIfdRationals(buf, pCur, GPS_ALTITUDE, TYPE_RATIONAL, 1, [a.gpsAltitude], offset, d, 6);
    pCur, offset := WriteIfdRationals(buf, pCur, GPS_TIMESTAMP, TYPE_RATIONAL, 3, a.gpsTimestamp, offset, d, 7);
    pCur, offset := WriteMethod(buf, a, at, pCur, offset);
    pCur, offset := WriteIfdBytes(buf, pCur, GPS_DATESTAMP, TYPE_ASCII, 11, a.gpsDatestamp, offset, d, |d.fs| - 1);
    Close(buf[..], d, pCur, offset, 0);
    assert pCur + 4 <= buf.Length by { FilledOffset(buf[..], d, |d.fs|, pCur, offset); SizeAtLeast(d.fs); }
    MemCopy(buf, pCur, U32(0));
  }

  lemma ThumbnailFieldsAt(a: Attributes, text: seq<byte>, jpeg: seq<byte>)
    requires Writable(a, text) && |jpeg| <= MAX_JPEG
    ensures JpegAt(a, text) < 0x1_0000
    ensures var fs := Thumbnail(a, text, jpeg);
      && |fs| == 9
      && fs[0] == Field(IMAGE_WIDTH, Longs([a.widthThumb]), false)
      && fs[1] == Field(IMAGE_HEIGHT, Longs([a.heightThumb]), false)
      && fs[2] == Field(COMPRESSION_SCHEME, Shorts([a.compressionScheme]), false)
      && fs[3] == Field(ORIENTATION, Shorts([a.orientation]), false)
      && fs[4] == Field(X_RESOLUTION, Rationals([a.xResolution]), true)
      && fs[5] == Field(Y_RESOLUTION, Rationals([a.yResolution]), true)
      && fs[6] == Field(RESOLUTION_UNIT, Shorts([a.resolutionUnit]), false)
      && fs[7] == Field(JPEG_INTERCHANGE_FORMAT, Longs([JpegAt(a, text)]), false)
      && fs[8] == Field(JPEG_INTERCHANGE_FORMAT_LEN, Longs([|jpeg|]), false)
      && ThumbDirAt(a, text) + DirSize(fs) == JpegAt(a, text)
  {
    hide DirSize;
    OffsetBounds(a, text);
    ThumbnailSize(a, JpegAt(a, text), |jpeg|);
  }

  /** Two changes, each within [lo, hi). */
  lemma OutsideJoin(m0: seq<byte>, m1: seq<byte>, m2: seq<byte>, lo1: nat, hi1: nat, lo2: nat, hi2: nat,
                    lo: nat, hi: nat)
    requires SameOutside(m0, m1, lo1, hi1) && SameOutside(m1, m2, lo2, hi2)
    requires lo <= lo1 && lo <= lo2 && hi1 <= hi && hi2 <= hi <= |m0|
    ensures SameOutside(m0, m2, lo, hi)
  {
    OutsideSlice(m0, m1, lo1, hi1, 0, lo);
    OutsideSlice(m1, m2, lo2, hi2, 0, lo);
    OutsideSlice(m0, m1, lo1, hi1, hi, |m0|);
    OutsideSlice(m1, m2, lo2, hi2, hi, |m0|);
    OutsideSlices(m0, m2, lo, hi);
  }

  lemma OutsideSlices(m: seq<byte>, m': seq<byte>, lo: nat, hi: nat)
    requires lo <= hi <= |m| == |m'| && m'[0..lo] == m[0..lo] && m'[hi..|m|] == m[hi..|m|]
    ensures SameOutside(m, m', lo, hi)
  {
  }

  /** Changes from some point on leave a slice in front of it alone. */
  lemma OutsideSlice(m: seq<byte>, m': seq<byte>, lo: nat, hi: nat, i: nat, j: nat)
    requires SameOutside(m, m', lo, hi) && i <= j <= |m| && (j <= lo || hi <= i)
    ensures |m'| == |m| && lo <= hi <= |m|
    ensures m'[i..j] == m[i..j]
  {
    if j <= lo {
      SubSlice(m, 0, lo, i, j);
      SubSlice(m', 0, lo, i, j);
    } else {
      SubSlice(m, hi, |m|, i - hi, j - hi);
      SubSlice(m', hi, |m|, i - hi, j - hi);
    }
  }

  /** 1st IFD. */
  method WriteThumbnailDir(buf: array<byte>, a: Attributes, ghost text: seq<byte>, at: nat, ghost jpeg: seq<byte>,
                           thumbSize: nat)
    returns (offset: nat)
    requires Writable(a, text) && at == ThumbDirAt(a, text) && thumbSize == |jpeg| <= MAX_JPEG
    requires IFD_START + JpegAt(a, text) <= buf.Length
    modifies buf
    ensures offset == JpegAt(a, text)
    ensures SameOutside(old(buf[..]), buf[..], IFD_START + at, IFD_START + offset)
    ensures buf[IFD_START + at..IFD_START + offset] == DirBytes(at, Thumbnail(a, text, jpeg), 0)
  {
    hide Filled, Overwrite, U16, U32, Written, DirSize, DirBytes, Payload, Pool, Thumbnail, GpsAt;
    ghost var d := Dir(at, Thumbnail(a, text, jpeg));
    OffsetBounds(a, text);
    ThumbnailFieldsAt(a, text, jpeg);
    SizeAtLeast(d.fs);
    var pCur := IFD_START + at;
    Open(buf[..], d);
    MemCopy(buf, pCur, U16(9));
    pCur := pCur + 2;
    offset := at + 2 + 9 * 12 + 4;
    pCur := WriteIfdValue(buf, pCur, IMAGE_WIDTH, TYPE_LONG, 1, a.widthThumb, d, 0, offset);
    pCur := WriteIfdValue(buf, pCur, IMAGE_HEIGHT, TYPE_LONG, 1, a.heightThumb, d, 1, offset);
    pCur := WriteIfdValue(buf, pCur, COMPRESSION_SCHEME, TYPE_SHORT, 1, a.compressionScheme, d, 2, offset);
    pCur := WriteIfdValue(buf, pCur, ORIENTATION, TYPE_SHORT, 1, a.orientation, d, 3, offset);
    pCur, offset := WriteIfdRationals(buf, pCur, X_RESOLUTION, TYPE_RATIONAL, 1, [a.xResolution], offset, d, 4);
    pCur, offset := WriteIfdRationals(buf, pCur, Y_RESOLUTION, TYPE_RATIONAL, 1, [a.yResolution], offset, d, 5);
    pCur := WriteIfdValue(buf, pCur, RESOLUTION_UNIT, TYPE_SHORT, 1, a.resolutionUnit, d, 6, offset);
    assert offset == JpegAt(a, text) by {
      FilledOffset(buf[..], d, 7, pCur, offset);
    }
    pCur := WriteIfdValue(buf, pCur, JPEG_INTERCHANGE_FORMAT, TYPE_LONG, 1, offset, d, 7, offset);
    pCur := WriteIfdValue(buf, pCur, JPEG_INTERCHANGE_FORMAT_LEN, TYPE_LONG, 1, thumbSize, d, 8, offset);
    Close(buf[..], d, pCur, offset, 0);
    assert pCur + 4 <= buf.Length by { FilledOffset(buf[..], d, 9, pCur, offset); }
    MemCopy(buf, pCur, U32(0));
  }

  /** 1st IFD and, behind it, the thumbnail's JPEG bytes. */
  method WriteThumbnail(buf: array<byte>, a: Attributes, ghost text: seq<byte>, at: nat, thumbBuf: seq<byte>)
    returns (offset: nat)
    requires Writable(a, text) && at == ThumbDirAt(a, text) && |thumbBuf| <= MAX_JPEG
    requires IFD_START + JpegAt(a, text) + |thumbBuf| <= buf.Length
    modifies buf
    ensures offset == JpegAt(a, text) + |thumbBuf|
    ensures SameOutside(old(buf[..]), buf[..], IFD_START + at, IFD_START + offset)
    ensures buf[IFD_START + at..IFD_START + offset] == ThumbnailPart(a, text, Some(thumbBuf))
  {
    hide Overwrite, DirSize, DirBytes, Thumbnail;
    OffsetBounds(a, text);
    offset := WriteThumbnailDir(buf, a, text, at, thumbBuf, |thumbBuf|);
    ghost var m := buf[..];
    var lo, end := IFD_START + at, IFD_START + offset;
    MemCopy(buf, end, thumbBuf);
    OverwriteExtends(m, lo, end, thumbBuf);
    OverwriteApart(m, end, thumbBuf, 0, lo);
    OverwriteApart(m, end, thumbBuf, end + |thumbBuf|, |m|);
    OutsideSlices(m, buf[..], lo, end + |thumbBuf|);
    OutsideJoin(old(buf[..]), m, buf[..], lo, end, lo, end + |thumbBuf|, lo, end + |thumbBuf|);
    offset := offset + |thumbBuf|;
  }

  /** Header, 0th IFD but for its next-IFD offset, Exif IFD and GPS IFD are in the buffer. */
  ghost predicate MainDone(m: seq<byte>, a: Attributes, text: seq<byte>, pNextIfdOffset: nat)
    requires Writable(a, text)
  {
    && IFD_START + ThumbDirAt(a, text) <= |m|
    && m[4..IFD_START + 8] == EXIF_ID + TIFF_HEADER
    && Filled(m, Dir(8, Primary(a, text)), |Primary(a, text)|, pNextIfdOffset, ExifAt(a))
    && ExifAt(a) <= GpsAt(a, text) <= ThumbDirAt(a, text)
    && m[IFD_START + ExifAt(a)..IFD_START + GpsAt(a, text)] == DirBytes(ExifAt(a), ExifFields(a, text), 0)
    && m[IFD_START + GpsAt(a, text)..IFD_START + ThumbDirAt(a, text)] == GpsPart(a, text)
  }

  method WriteHeader(buf: array<byte>)
    requires IFD_START + 8 <= buf.Length
    modifies buf
    ensures buf[4..IFD_START + 8] == EXIF_ID + TIFF_HEADER
    ensures SameOutside(old(buf[..]), buf[..], 4, IFD_START + 8)
  {
    hide Overwrite;
    ghost var m0 := buf[..];
    MemCopy(buf, 4, EXIF_ID);
    ghost var m1 := buf[..];
    MemCopy(buf, IFD_START, TIFF_HEADER);
    OverwriteApart(m1, IFD_START, TIFF_HEADER, 0, 4);
    OverwriteApart(m0, 4, EXIF_ID, 0, 4);
    OverwriteApart(m1, IFD_START, TIFF_HEADER, IFD_START + 8, |m0|);
    OverwriteApart(m0, 4, EXIF_ID, IFD_START + 8, |m0|);
    OverwriteExtends(m0, 4, 4, EXIF_ID);
    OverwriteExtends(m1, 4, IFD_START, TIFF_HEADER);
  }

  lemma MainFrame(m0: seq<byte>, m1: seq<byte>, m2: seq<byte>, m3: seq<byte>, a: Attributes, text: seq<byte>, cur: nat)
    requires Writable(a, text) && 8 <= ExifAt(a) <= GpsAt(a, text)
    requires SameOutside(m0, m1, 4, 18) && m1[4..18] == EXIF_ID + TIFF_HEADER
    requires SameOutside(m1, m2, 18, IFD_START + ExifAt(a))
    requires Filled(m2, Dir(8, Primary(a, text)), 9, cur, ExifAt(a))
    requires SameOutside(m2, m3, IFD_START + ExifAt(a), IFD_START + GpsAt(a, text))
    requires 8 + DirSize(Primary(a, text)) == ExifAt(a)
    ensures m3[4..18] == EXIF_ID + TIFF_HEADER
    ensures Filled(m3, Dir(8, Primary(a, text)), 9, cur, ExifAt(a))
    ensures SameOutside(m0, m3, 4, IFD_START + GpsAt(a, text))
  {
    hide Filled, DirSize, SameOutside, Primary;
    var x, g := IFD_START + ExifAt(a), IFD_START + GpsAt(a, text);
    OutsideSlice(m0, m1, 4, 18, 0, 0);
    OutsideSlice(m1, m2, 18, x, 4, 18);
    OutsideSlice(m2, m3, x, g, 4, 18);
    OutsideSlice(m2, m3, x, g, 18, x);
    FilledFrame(m2, m3, Dir(8, Primary(a, text)), 9, cur, ExifAt(a));
    OutsideJoin(m0, m1, m2, 4, 18, 18, x, 4, g);
    OutsideJoin(m0, m2, m3, 4, g, x, g, 4, g);
  }

  lemma GpsFrame(m0: seq<byte>, m3: seq<byte>, m4: seq<byte>, m5: seq<byte>, a: Attributes, text: seq<byte>, cur: nat)
    requires Writable(a, text) && 8 <= ExifAt(a) <= GpsAt(a, text) <= ThumbDirAt(a, text)
    requires SameOutside(m0, m3, 4, IFD_START + GpsAt(a, text))
    requires m3[4..18] == EXIF_ID + TIFF_HEADER
    requires SameOutside(m3, m4, 18, IFD_START + ExifAt(a))
    requires Filled(m4, Dir(8, Primary(a, text)), 10, cur, ExifAt(a))
    requires SameOutside(m4, m5, IFD_START + GpsAt(a, text), IFD_START + ThumbDirAt(a, text))
    requires 8 + DirSize(Primary(a, text)) == ExifAt(a)
    ensures m5[4..18] == EXIF_ID + TIFF_HEADER
    ensures Filled(m5, Dir(8, Primary(a, text)), 10, cur, ExifAt(a))
    ensures m5[IFD_START + ExifAt(a)..IFD_START + GpsAt(a, text)]
      == m3[IFD_START + ExifAt(a)..IFD_START + GpsAt(a, text)]
    ensures SameOutside(m0, m5, 4, IFD_START + ThumbDirAt(a, text))
  {
    hide Filled, DirSize, SameOutside, Primary;
    var x, g, t := IFD_START + ExifAt(a), IFD_START + GpsAt(a, text), IFD_START + ThumbDirAt(a, text);
    OutsideSlice(m0, m3, 4, g, 0, 0);
    OutsideSlice(m3, m4, 18, x, 4, 18);
    OutsideSlice(m4, m5, g, t, 4, 18);
    OutsideSlice(m3, m4, 18, x, x, g);
    OutsideSlice(m4, m5, g, t, x, g);
    OutsideSlice(m4, m5, g, t, 18, x);
    FilledFrame(m4, m5, Dir(8, Primary(a, text)), 10, cur, ExifAt(a));
    OutsideJoin(m0, m3, m4, 4, g, 18, x, 4, t);
    OutsideJoin(m0, m4, m5, 4, t, g, t, 4, t);
  }

  // ---------- what is written behind the cursor ----------

  /** In front of `edge` a write changed nothing but the `n` reserved bytes at `slot`. */
  ghost predicate OnlySlot(m: seq<byte>, m': seq<byte>, edge: nat, slot: nat, n: nat) {
    |m'| == |m| && edge <= |m| && forall i | 0 <= i < edge && !(slot <= i < slot + n) :: m'[i] == m[i]
  }

  lemma SlotStored(m: seq<byte>, b: seq<byte>, edge: nat, slot: nat)
    requires slot + |b| <= |m| && edge <= |m|
    ensures OnlySlot(m, Overwrite(m, slot, b), edge, slot, |b|)
  {
    hide Overwrite;
    forall i | 0 <= i < edge && !(slot <= i < slot + |b|)
      ensures Overwrite(m, slot, b)[i] == m[i]
    {
      OverwriteAt(m, slot, b, i);
    }
  }

  lemma SlotThenBeyond(m: seq<byte>, m1: seq<byte>, m2: seq<byte>, edge: nat, slot: nat, n: nat, lo: nat, hi: nat)
    requires OnlySlot(m, m1, edge, slot, n) && SameOutside(m1, m2, lo, hi) && edge <= lo
    ensures OnlySlot(m, m2, edge, slot, n)
  {
    forall i | 0 <= i < edge && !(slot <= i < slot + n)
      ensures m2[i] == m[i]
    {
      assert m2[..lo][i] == m1[..lo][i];
    }
  }

  lemma SlotTwice(m: seq<byte>, m1: seq<byte>, m2: seq<byte>, edge: nat, slot: nat, n: nat)
    requires OnlySlot(m, m1, edge, slot, n) && OnlySlot(m1, m2, edge, slot, n)
    ensures OnlySlot(m, m2, edge, slot, n)
  {
  }

  /** Header, 0th IFD without its GPS entry, Exif IFD. */
  method WriteFront(buf: array<byte>, a: Attributes, comment: array<byte>)
    returns (pGpsIfdPtr: nat, pNextIfdOffset: nat, offset: nat)
    requires buf != comment && CommentMemory(comment[..], a)
    requires Writable(a, CommentText(comment[..])) && IFD_START + JpegAt(a, CommentText(comment[..])) <= buf.Length
    modifies buf, comment
    ensures offset == GpsAt(a, CommentText(old(comment[..]))) && 8 <= ExifAt(a) <= offset <= buf.Length - IFD_START
    ensures pNextIfdOffset + 4 == IFD_START + PoolStart(8, Primary(a, CommentText(old(comment[..]))))
    ensures buf[4..18] == EXIF_ID + TIFF_HEADER
    ensures Filled(buf[..], Dir(8, Primary(a, CommentText(old(comment[..])))), 9, pGpsIfdPtr, ExifAt(a))
    ensures buf[IFD_START + ExifAt(a)..IFD_START + offset]
      == DirBytes(ExifAt(a), ExifFields(a, CommentText(old(comment[..]))), 0)
    ensures SameOutside(old(buf[..]), buf[..], 4, IFD_START + offset)
    ensures comment[..] == CommentAfter(old(comment[..]))
  {
    hide Filled, DirSize, DirBytes, ExifFields, Primary, SameOutside, CommentAfter, Overwrite;
    ghost var text := CommentText(comment[..]);
    OffsetBounds(a, text);
    PrimaryAt(a, text);
    ghost var m0 := buf[..];
    WriteHeader(buf);
    ghost var m1 := buf[..];
    pGpsIfdPtr, pNextIfdOffset, offset := WritePrimaryIfd(buf, a, text);
    ghost var m2 := buf[..];
    offset := WriteExifPrivate(buf, a, comment, offset);
    MainFrame(m0, m1, m2, buf[..], a, text, pGpsIfdPtr);
  }

  /** The GPS entry of the 0th IFD and the GPS IFD. */
  method WriteGps(buf: array<byte>, a: Attributes, ghost text: seq<byte>, ghost m0: seq<byte>, pGpsIfdPtr: nat, at: nat)
    returns (ghost cur: nat, offset: nat)
    requires Writable(a, text) && a.enableGps && IFD_START + JpegAt(a, text) <= buf.Length
    requires at == GpsAt(a, text) && 8 <= ExifAt(a) <= at
    requires SameOutside(m0, buf[..], 4, IFD_START + at)
    requires buf.Length >= 18 && buf[4..18] == EXIF_ID + TIFF_HEADER
    requires Filled(buf[..], Dir(8, Primary(a, text)), 9, pGpsIfdPtr, ExifAt(a))
    modifies buf
    ensures offset == ThumbDirAt(a, text) && IFD_START + offset <= buf.Length
    ensures buf[4..18] == EXIF_ID + TIFF_HEADER
    ensures Filled(buf[..], Dir(8, Primary(a, text)), 10, cur, ExifAt(a))
    ensures buf[IFD_START + ExifAt(a)..IFD_START + at] == old(buf[IFD_START + ExifAt(a)..IFD_START + at])
    ensures buf[IFD_START + at..IFD_START + offset] == DirBytes(at, GpsFields(a), 0)
    ensures SameOutside(m0, buf[..], 4, IFD_START + offset)
    ensures OnlySlot(old(buf[..]), buf[..], IFD_START + at, pGpsIfdPtr, 12)
  {
    hide Filled, DirSize, DirBytes, GpsFields, Primary, SameOutside, Written, OnlySlot;
    OffsetBounds(a, text);
    PrimaryAt(a, text);
    ghost var m3 := buf[..];
    cur := WriteIfdValue(buf, pGpsIfdPtr, GPS_IFD_POINTER, TYPE_LONG, 1, at, Dir(8, Primary(a, text)), 9, ExifAt(a));
    ghost var m4 := buf[..];
    assert pGpsIfdPtr + 12 <= |m3| by { WrittenFrame(m3, Dir(8, Primary(a, text)), 9, pGpsIfdPtr, ExifAt(a)); }
    GpsEntryStored(m3, m4, a, text, pGpsIfdPtr, at);
    offset := WriteGpsIfd(buf, a, at);
    GpsFrame(m0, m3, m4, buf[..], a, text, cur);
    SlotThenBeyond(m3, m4, buf[..], IFD_START + at, pGpsIfdPtr, 12, IFD_START + at, IFD_START + offset);
  }

  lemma GpsEntryStored(m: seq<byte>, m': seq<byte>, a: Attributes, text: seq<byte>, pGpsIfdPtr: nat, at: nat)
    requires Writable(a, text) && a.enableGps && IFD_START + at <= |m|
    requires Filled(m, Dir(8, Primary(a, text)), 9, pGpsIfdPtr, ExifAt(a))
    requires |Primary(a, text)| == 10 && !Primary(a, text)[9].pooled
    requires IFD_START + ExifAt(a) <= |m| && pGpsIfdPtr + 12 <= |m|
    requires m' == Written(m, Primary(a, text)[9], pGpsIfdPtr, ExifAt(a))
    ensures OnlySlot(m, m', IFD_START + at, pGpsIfdPtr, 12)
  {
    hide Filled, Written, Overwrite, OnlySlot, Primary;
    NoPayload(m, Primary(a, text)[9], pGpsIfdPtr, ExifAt(a));
    SlotStored(m, EntryBytes(Primary(a, text)[9], ExifAt(a)), IFD_START + at, pGpsIfdPtr);
  }

  /** Everything in front of the thumbnail; `offset` is where the next directory would start. */
  method WriteMain(buf: array<byte>, a: Attributes, comment: array<byte>) returns (pNextIfdOffset: nat, offset: nat)
    requires buf != comment && CommentMemory(comment[..], a)
    requires Writable(a, CommentText(comment[..])) && IFD_START + JpegAt(a, CommentText(comment[..])) <= buf.Length
    modifies buf, comment
    ensures offset == ThumbDirAt(a, CommentText(old(comment[..])))
    ensures MainDone(buf[..], a, CommentText(old(comment[..])), pNextIfdOffset)
    ensures SameOutside(old(buf[..]), buf[..], 4, IFD_START + offset)
    ensures comment[..] == CommentAfter(old(comment[..]))
  {
    hide Filled, DirSize, DirBytes, ExifFields, GpsFields, Primary, SameOutside, CommentAfter, OnlySlot;
    ghost var text := CommentText(comment[..]);
    ghost var m0 := buf[..];
    PrimaryAt(a, text);
    var pGpsIfdPtr;
    pGpsIfdPtr, pNextIfdOffset, offset := WriteFront(buf, a, comment);
    ghost var cur := pGpsIfdPtr;
    if a.enableGps {
      cur, offset := WriteGps(buf, a, text, m0, pGpsIfdPtr, offset);
    }
    assert pNextIfdOffset == cur by {
      FilledOffset(buf[..], Dir(8, Primary(a, text)), |Primary(a, text)|, cur, ExifAt(a));
    }
  }

  const EXIF_FILE_SIZE: nat := 28800

  /** The 0th IFD is complete and `offset` ends the TIFF part. */
  ghost predicate TiffDone(m: seq<byte>, a: Attributes, text: seq<byte>, jpeg: Option<seq<byte>>, offset: nat)
    requires Writable(a, text) && (jpeg.Some? ==> |jpeg.value| <= MAX_JPEG)
  {
    && IFD_START + offset <= |m|
    && 10 + offset == SegmentSize(a, text, jpeg)
    && m[4..IFD_START + offset] == EXIF_ID + TiffBytes(a, text, jpeg)
  }

  /** Storing into the reserved next-IFD slot leaves the written fields alone. */
  lemma SlotFree(m: seq<byte>, d: Dir, cur: nat, off: nat, b: seq<byte>)
    requires Filled(m, d, |d.fs|, cur, off) && |b| == 4
    ensures cur + 4 <= |m| && Filled(Overwrite(m, cur, b), d, |d.fs|, cur, off)
    ensures SameOutside(m, Overwrite(m, cur, b), IFD_START + d.at, IFD_START + d.End())
  {
    hide Overwrite, U16, Pool, Entries;
    var at, end := IFD_START + d.at, IFD_START + d.End();
    OverwriteApart(m, cur, b, at, at + 2);
    OverwriteApart(m, cur, b, at + 2, cur);
    OverwriteApart(m, cur, b, IFD_START + d.Pool(), IFD_START + off);
    OverwriteApart(m, cur, b, 0, at);
    OverwriteApart(m, cur, b, end, |m|);
  }

  lemma MainSlotFree(m: seq<byte>, a: Attributes, text: seq<byte>, slot: nat, b: seq<byte>)
    requires Writable(a, text) && MainDone(m, a, text, slot) && |b| == 4
    ensures slot + 4 <= |m| && MainDone(Overwrite(m, slot, b), a, text, slot)
    ensures SameOutside(m, Overwrite(m, slot, b), 18, IFD_START + ExifAt(a))
  {
    hide Overwrite, DirBytes, DirSize, Primary, ExifFields, GpsPart, Filled, SameOutside, TIFF_HEADER;
    var x, g, t := IFD_START + ExifAt(a), IFD_START + GpsAt(a, text), IFD_START + ThumbDirAt(a, text);
    PrimaryAt(a, text);
    SlotFree(m, Dir(8, Primary(a, text)), slot, ExifAt(a), b);
    var m' := Overwrite(m, slot, b);
    OutsideSlice(m, m', 18, x, 4, 18);
    OutsideSlice(m, m', 18, x, x, g);
    OutsideSlice(m, m', 18, x, g, t);
  }

  /** What the main part holds survives the thumbnail. */
  lemma MainKept(m: seq<byte>, m': seq<byte>, a: Attributes, text: seq<byte>, slot: nat, hi: nat)
    requires Writable(a, text) && MainDone(m, a, text, slot)
    requires SameOutside(m, m', IFD_START + ThumbDirAt(a, text), hi)
    ensures MainDone(m', a, text, slot) && slot + 4 <= |m| && m'[slot..slot + 4] == m[slot..slot + 4]
  {
    hide DirBytes, DirSize, Primary, ExifFields, GpsPart, Filled, SameOutside, TIFF_HEADER;
    var x, g, t := IFD_START + ExifAt(a), IFD_START + GpsAt(a, text), IFD_START + ThumbDirAt(a, text);
    var d := Dir(8, Primary(a, text));
    PrimaryAt(a, text);
    SlotFree(m, d, slot, ExifAt(a), [0, 0, 0, 0]);
    assert slot + 4 <= x by {
      FilledOffset(m, d, |d.fs|, slot, ExifAt(a));
      SizeAtLeast(d.fs);
    }
    OutsideSlice(m, m', t, hi, 18, x);
    OutsideSlice(m, m', t, hi, 4, 18);
    OutsideSlice(m, m', t, hi, x, g);
    OutsideSlice(m, m', t, hi, g, t);
    OutsideSlice(m, m', t, hi, slot, slot + 4);
    FilledFrame(m, m', d, |d.fs|, slot, ExifAt(a));
  }

  lemma OverwriteSelf(m: seq<byte>, at: nat, b: seq<byte>)
    requires at + |b| <= |m| && m[at..at + |b|] == b
    ensures Overwrite(m, at, b) == m
  {
    assert m == m[..at] + m[at..at + |b|] + m[at + |b|..];
  }

  /** With the next-IFD slot stored, the parts make up the TIFF part. */
  lemma Assemble(m: seq<byte>, a: Attributes, text: seq<byte>, jpeg: Option<seq<byte>>, slot: nat)
    requires Writable(a, text) && (jpeg.Some? ==> |jpeg.value| <= MAX_JPEG)
    requires MainDone(m, a, text, slot)
    requires slot + 4 <= |m| && m[slot..slot + 4] == U32(NextIfd(a, text, jpeg))
    requires ThumbDirAt(a, text) + 10 <= SegmentSize(a, text, jpeg) <= |m|
    requires m[IFD_START + ThumbDirAt(a, text)..SegmentSize(a, text, jpeg)] == ThumbnailPart(a, text, jpeg)
    ensures TiffDone(m, a, text, jpeg, SegmentSize(a, text, jpeg) - 10)
  {
    hide Overwrite, U32, DirBytes, DirSize, Primary, ExifFields, GpsPart, ThumbnailPart, Filled, TIFF_HEADER, NextIfd;
    hide GpsAt, ThumbDirAt, JpegAt, SegmentSize;
    var x, g := IFD_START + ExifAt(a), IFD_START + GpsAt(a, text);
    var t, e := IFD_START + ThumbDirAt(a, text), SegmentSize(a, text, jpeg);
    PrimaryClosed(m, a, text, jpeg, slot);
    Tile(m, 18, x, g, t, e);
    Regroup(EXIF_ID, TIFF_HEADER, m[18..x], m[x..g], m[g..t], m[t..e]);
    AssembledSize(a, text, jpeg);
  }

  lemma AssembledSize(a: Attributes, text: seq<byte>, jpeg: Option<seq<byte>>)
    requires Writable(a, text) && (jpeg.Some? ==> |jpeg.value| <= MAX_JPEG)
    ensures SegmentSize(a, text, jpeg) >= 10
  {
  }

  /** The 0th IFD is complete once its next-IFD slot holds the offset. */
  lemma PrimaryClosed(m: seq<byte>, a: Attributes, text: seq<byte>, jpeg: Option<seq<byte>>, slot: nat)
    requires Writable(a, text) && (jpeg.Some? ==> |jpeg.value| <= MAX_JPEG)
    requires MainDone(m, a, text, slot)
    requires slot + 4 <= |m| && m[slot..slot + 4] == U32(NextIfd(a, text, jpeg))
    ensures 18 <= IFD_START + ExifAt(a) <= |m|
    ensures m[18..IFD_START + ExifAt(a)] == DirBytes(8, Primary(a, text), NextIfd(a, text, jpeg))
  {
    hide Overwrite, U32, DirBytes, DirSize, Primary, ExifFields, GpsPart, Filled, TIFF_HEADER, NextIfd;
    hide GpsAt, ThumbDirAt, JpegAt;
    PrimaryAt(a, text);
    Close(m, Dir(8, Primary(a, text)), slot, ExifAt(a), NextIfd(a, text, jpeg));
    OverwriteSelf(m, slot, U32(NextIfd(a, text, jpeg)));
  }

  lemma Tile(m: seq<byte>, h: nat, x: nat, g: nat, t: nat, e: nat)
    requires 4 <= h <= x <= g <= t <= e <= |m|
    ensures m[4..e] == m[4..h] + m[h..x] + m[x..g] + m[g..t] + m[t..e]
  {
    assert m[4..x] == m[4..h] + m[h..x];
    assert m[4..g] == m[4..x] + m[x..g];
    assert m[4..t] == m[4..g] + m[g..t];
    assert m[4..e] == m[4..t] + m[t..e];
  }

  lemma Regroup(i: seq<byte>, h: seq<byte>, p: seq<byte>, x: seq<byte>, g: seq<byte>, t: seq<byte>)
    ensures i + h + p + x + g + t == i + (h + p + x + g + t)
  {
    Associative(i, h, p);
    Associative(i, h + p, x);
    Associative(i, h + p + x, g);
    Associative(i, h + p + x + g, t);
  }

  lemma AssembleWithout(m: seq<byte>, a: Attributes, text: seq<byte>, slot: nat)
    requires Writable(a, text) && MainDone(m, a, text, slot)
    requires slot + 4 <= |m| && m[slot..slot + 4] == U32(0)
    ensures TiffDone(m, a, text, None, ThumbDirAt(a, text))
  {
    hide MainDone, U32, TiffDone, ThumbDirAt, JpegAt;
    assert IFD_START + ThumbDirAt(a, text) <= |m| by { MainLength(m, a, text, slot); }
    assert m[IFD_START + ThumbDirAt(a, text)..SegmentSize(a, text, None)] == [];
    Assemble(m, a, text, None, slot);
  }

  lemma MainLength(m: seq<byte>, a: Attributes, text: seq<byte>, slot: nat)
    requires Writable(a, text) && MainDone(m, a, text, slot)
    ensures IFD_START + ThumbDirAt(a, text) <= |m|
  {
  }

  lemma AssembleWith(m: seq<byte>, a: Attributes, text: seq<byte>, jpeg: seq<byte>, slot: nat)
    requires Writable(a, text) && |jpeg| <= MAX_JPEG && MainDone(m, a, text, slot)
    requires slot + 4 <= |m| && m[slot..slot + 4] == U32(ThumbDirAt(a, text))
    requires IFD_START + JpegAt(a, text) + |jpeg| <= |m|
    requires IFD_START + ThumbDirAt(a, text) <= |m|
    requires ThumbDirAt(a, text) <= JpegAt(a, text)
    requires m[IFD_START + ThumbDirAt(a, text)..IFD_START + JpegAt(a, text) + |jpeg|]
      == ThumbnailPart(a, text, Some(jpeg))
    ensures TiffDone(m, a, text, Some(jpeg), JpegAt(a, text) + |jpeg|)
  {
    hide MainDone, U32, TiffDone, ThumbnailPart;
    Assemble(m, a, text, Some(jpeg), slot);
  }

  lemma OutsideWidens(m: seq<byte>, m': seq<byte>, lo: nat, hi: nat, lo': nat, hi': nat)
    requires SameOutside(m, m', lo, hi) && lo' <= lo && hi <= hi' <= |m|
    ensures SameOutside(m, m', lo', hi')
  {
    OutsideSlice(m, m', lo, hi, 0, lo');
    OutsideSlice(m, m', lo, hi, hi', |m|);
    OutsideSlices(m, m', lo', hi');
  }

  /** The next-IFD offset points at the 1st IFD, which is then written with the JPEG bytes behind it. */
  method AttachThumbnail(buf: array<byte>, a: Attributes, ghost text: seq<byte>, pNextIfdOffset: nat, at: nat,
                         thumbBuf: seq<byte>) returns (offset: nat)
    requires Writable(a, text) && at == ThumbDirAt(a, text) <= JpegAt(a, text) && |thumbBuf| <= MAX_JPEG
    requires IFD_START + JpegAt(a, text) + |thumbBuf| <= buf.Length
    requires MainDone(buf[..], a, text, pNextIfdOffset)
    modifies buf
    ensures offset == JpegAt(a, text) + |thumbBuf|
    ensures MainDone(buf[..], a, text, pNextIfdOffset)
    ensures TiffDone(buf[..], a, text, Some(thumbBuf), offset)
    ensures SameOutside(old(buf[..]), buf[..], 4, IFD_START + offset)
    ensures OnlySlot(old(buf[..]), buf[..], IFD_START + at, pNextIfdOffset, 4)
  {
    hide MainDone, SameOutside, Overwrite, U32, TiffDone, ThumbnailPart, ExifAt, GpsAt, ThumbDirAt, JpegAt, OnlySlot;
    OffsetBounds(a, text);
    ghost var m0 := buf[..];
    MainSlotFree(m0, a, text, pNextIfdOffset, U32(at));
    SlotStored(m0, U32(at), IFD_START + at, pNextIfdOffset);
    MemCopy(buf, pNextIfdOffset, U32(at));
    ghost var m1 := buf[..];
    offset := WriteThumbnail(buf, a, text, at, thumbBuf);
    ghost var m2 := buf[..];
    MainKept(m1, m2, a, text, pNextIfdOffset, IFD_START + offset);
    OutsideJoin(m0, m1, m2, 18, IFD_START + ExifAt(a), IFD_START + at, IFD_START + offset, 4, IFD_START + offset);
    SlotThenBeyond(m0, m1, m2, IFD_START + at, pNextIfdOffset, 4, IFD_START + at, IFD_START + offset);
    AssembleWith(m2, a, text, thumbBuf, pNextIfdOffset);
  }

  /** The next-IFD offset is zero: no 1st IFD. */
  method DetachThumbnail(buf: array<byte>, a: Attributes, ghost text: seq<byte>, pNextIfdOffset: nat)
    requires Writable(a, text) && MainDone(buf[..], a, text, pNextIfdOffset)
    modifies buf
    ensures TiffDone(buf[..], a, text, None, ThumbDirAt(a, text))
    ensures SameOutside(old(buf[..]), buf[..], 18, IFD_START + ExifAt(a))
    ensures IFD_START + ThumbDirAt(a, text) <= buf.Length
    ensures OnlySlot(old(buf[..]), buf[..], IFD_START + ThumbDirAt(a, text), pNextIfdOffset, 4)
  {
    hide MainDone, SameOutside, Overwrite, U32, TiffDone, OnlySlot;
    MainLength(buf[..], a, text, pNextIfdOffset);
    MainSlotFree(buf[..], a, text, pNextIfdOffset, U32(0));
    SlotStored(buf[..], U32(0), IFD_START + ThumbDirAt(a, text), pNextIfdOffset);
    MemCopy(buf, pNextIfdOffset, U32(0));
    AssembleWithout(buf[..], a, text, pNextIfdOffset);
  }

  /** What the thumbnail encoder offers: no buffer or no data is no thumbnail. */
  function Offered(enableThumb: bool, thumbBuf: seq<byte>): Option<seq<byte>> {
    if enableThumb && |thumbBuf| != 0 then Some(thumbBuf) else None
  }

  /** Thumbnail directory, next-IFD offset and rollback. */
  method FinishTiff(buf: array<byte>, a: Attributes, ghost text: seq<byte>, pNextIfdOffset: nat, at: nat,
                    enableThumb: bool, thumbBuf: seq<byte>) returns (offset: nat)
    requires Writable(a, text) && at == ThumbDirAt(a, text) && |thumbBuf| <= MAX_JPEG
    requires IFD_START + JpegAt(a, text) + (if enableThumb then |thumbBuf| else 0) <= buf.Length
    requires MainDone(buf[..], a, text, pNextIfdOffset)
    modifies buf
    ensures IFD_START + offset <= buf.Length
    ensures TiffDone(buf[..], a, text, Kept(a, text, Offered(enableThumb, thumbBuf)), offset)
    ensures SameOutside(old(buf[..]), buf[..], 4, SegmentSize(a, text, Offered(enableThumb, thumbBuf)))
    ensures OnlySlot(old(buf[..]), buf[..], IFD_START + at, pNextIfdOffset, 4)
  {
    hide MainDone, SameOutside, TiffDone, ExifAt, GpsAt, ThumbDirAt, JpegAt, OnlySlot;
    OffsetBounds(a, text);
    ghost var m0 := buf[..];
    ghost var x := IFD_START + ExifAt(a);
    offset := at;
    if enableThumb && |thumbBuf| != 0 {
      var exifSizeExceptThumb := offset;
      offset := AttachThumbnail(buf, a, text, pNextIfdOffset, at, thumbBuf);
      ghost var m1 := buf[..];
      if offset > EXIF_LIMIT_SIZE {
        ghost var e := IFD_START + offset;
        offset := exifSizeExceptThumb;
        DetachThumbnail(buf, a, text, pNextIfdOffset);
        OutsideJoin(m0, m1, buf[..], 4, e, 18, x, 4, e);
        SlotTwice(m0, m1, buf[..], IFD_START + at, pNextIfdOffset, 4);
      }
    } else {
      DetachThumbnail(buf, a, text, pNextIfdOffset);
      OutsideWidens(m0, buf[..], 18, x, 4, IFD_START + at);
    }
  }

  /** APP1 marker and segment length in front of the finished TIFF part. */
  method WriteMarker(buf: array<byte>, offset: nat) returns (size: nat)
    requires IFD_START + offset <= buf.Length
    modifies buf
    ensures size == 10 + offset
    ensures buf[..] == Overwrite(old(buf[..]), 0, [0xFF, 0xE1] + BigEndian16(size - 2))
    ensures OnlySlot(old(buf[..]), buf[..], size, 0, 4)
  {
    hide Overwrite, OnlySlot;
    ghost var m := buf[..];
    MemCopy(buf, 0, [0xFF, 0xE1]);
    size := 10 + offset;
    var tmp := size - 2;
    MemCopy(buf, 2, [(tmp / 0x100 % 0x100) as byte, (tmp % 0x100) as byte]);
    OverwriteTwice(m, 0, [0xFF, 0xE1], BigEndian16(tmp));
    SlotStored(m, [0xFF, 0xE1] + BigEndian16(tmp), size, 0);
  }

  lemma HeadStored(m: seq<byte>, head: seq<byte>, n: nat)
    requires |head| == 4 <= n <= |m|
    ensures |Overwrite(m, 0, head)| == |m| && Overwrite(m, 0, head)[..n] == head + m[4..n]
  {
  }

  lemma SegmentDone(m: seq<byte>, m': seq<byte>, a: Attributes, text: seq<byte>, jpeg: Option<seq<byte>>, offset: nat)
    requires Writable(a, text) && (jpeg.Some? ==> |jpeg.value| <= MAX_JPEG)
    requires TiffDone(m, a, text, jpeg, offset)
    requires m' == Overwrite(m, 0, [0xFF, 0xE1] + BigEndian16(8 + offset))
    ensures 10 + offset <= |m'| && m'[..10 + offset] == SegmentBytes(a, text, jpeg)
  {
    hide Overwrite, TiffBytes, SegmentSize, BigEndian16, ExifAt, GpsAt, ThumbDirAt, JpegAt;
    var head := [0xFF, 0xE1] + BigEndian16(8 + offset);
    HeadStored(m, head, 10 + offset);
    Associative(head, EXIF_ID, TiffBytes(a, text, jpeg));
  }

  /** makeExif: fills `exifOut` with the APP1 segment and returns its size. `enableThumb` and `thumbBuf`
      are what the thumbnail encoder offers; an empty `thumbBuf` stands for no buffer or no data. */
  method MakeExif(exifOut: array<byte>, a: Attributes, comment: array<byte>, enableThumb: bool, thumbBuf: seq<byte>)
    returns (size: nat)
    requires exifOut != comment && CommentMemory(comment[..], a) && |thumbBuf| <= MAX_JPEG
    requires Writable(a, CommentText(comment[..]))
    requires exifOut.Length >= EXIF_FILE_SIZE + if enableThumb then |thumbBuf| else 0
    modifies exifOut, comment
    ensures var text := CommentText(old(comment[..]));
      var kept := Kept(a, text, Offered(enableThumb, thumbBuf));
      && size == SegmentSize(a, text, kept) <= exifOut.Length
      && exifOut[..size] == SegmentBytes(a, text, kept)
    ensures var reach := SegmentSize(a, CommentText(old(comment[..])), Offered(enableThumb, thumbBuf));
      reach <= exifOut.Length && exifOut[reach..] == old(exifOut[reach..])
    ensures comment[..] == CommentAfter(old(comment[..]))
  {
    hide MainDone, SameOutside, Overwrite, TiffDone, SegmentBytes, CommentAfter, BigEndian16, Kept, SegmentSize;
    hide ExifAt, GpsAt, ThumbDirAt, JpegAt, CommentText, OnlySlot, CommentMemory;
    ghost var text := CommentText(comment[..]);
    ghost var offered := Offered(enableThumb, thumbBuf);
    ghost var m0 := exifOut[..];
    assert IFD_START + JpegAt(a, text) + (if enableThumb then |thumbBuf| else 0) <= exifOut.Length by {
      OffsetBounds(a, text);
    }
    var pNextIfdOffset, offset := WriteMain(exifOut, a, comment);
    ghost var main := exifOut[..];
    offset := FinishTiff(exifOut, a, text, pNextIfdOffset, offset, enableThumb, thumbBuf);
    ghost var tiff := exifOut[..];
    size := WriteMarker(exifOut, offset);
    Finished(m0, main, tiff, exifOut[..], a, text, offered, offset);
  }

  lemma TiffDoneSize(m: seq<byte>, a: Attributes, text: seq<byte>, jpeg: Option<seq<byte>>, offset: nat)
    requires Writable(a, text) && (jpeg.Some? ==> |jpeg.value| <= MAX_JPEG)
    requires TiffDone(m, a, text, jpeg, offset)
    ensures 10 + offset == SegmentSize(a, text, jpeg) <= |m|
  {
    hide TiffBytes;
  }

  /** What lies behind the reach of both writers is untouched. */
  lemma BehindUntouched(m0: seq<byte>, m1: seq<byte>, m2: seq<byte>, m3: seq<byte>, hi: nat, lim: nat, head: seq<byte>)
    requires SameOutside(m0, m1, 4, hi) && SameOutside(m1, m2, 4, lim) && hi <= lim
    requires |head| == 4 && m3 == Overwrite(m2, 0, head)
    ensures lim <= |m0| == |m3| && m3[lim..] == m0[lim..]
  {
    hide Overwrite, SameOutside;
    OutsideSlice(m0, m1, 4, hi, 0, 0);
    OutsideSlice(m1, m2, 4, lim, 0, 0);
    OutsideSlice(m1, m2, 4, lim, lim, |m0|);
    OutsideSlice(m0, m1, 4, hi, lim, |m0|);
    OverwriteApart(m2, 0, head, lim, |m0|);
    assert m3[lim..|m0|] == m3[lim..] && m0[lim..|m0|] == m0[lim..];
  }

  lemma Finished(m0: seq<byte>, m1: seq<byte>, m2: seq<byte>, m3: seq<byte>, a: Attributes, text: seq<byte>,
                 offered: Option<seq<byte>>, offset: nat)
    requires Writable(a, text) && (offered.Some? ==> |offered.value| <= MAX_JPEG)
    requires SameOutside(m0, m1, 4, IFD_START + ThumbDirAt(a, text))
    requires SameOutside(m1, m2, 4, SegmentSize(a, text, offered))
    requires TiffDone(m2, a, text, Kept(a, text, offered), offset)
    requires m3 == Overwrite(m2, 0, [0xFF, 0xE1] + BigEndian16(8 + offset))
    ensures 10 + offset == SegmentSize(a, text, Kept(a, text, offered)) <= |m3| == |m0|
    ensures m3[..10 + offset] == SegmentBytes(a, text, Kept(a, text, offered))
    ensures SegmentSize(a, text, offered) <= |m0|
    ensures m3[SegmentSize(a, text, offered)..] == m0[SegmentSize(a, text, offered)..]
  {
    hide SameOutside, Overwrite, TiffBytes, SegmentBytes, TiffDone, BigEndian16, SegmentSize, Kept;
    hide ExifAt, GpsAt, ThumbDirAt, JpegAt;
    KeptFits(a, text, offered);
    TiffDoneSize(m2, a, text, Kept(a, text, offered), offset);
    MainInSegment(a, text, offered);
    SegmentDone(m2, m3, a, text, Kept(a, text, offered), offset);
    BehindUntouched(m0, m1, m2, m3, IFD_START + ThumbDirAt(a, text), SegmentSize(a, text, offered),
                    [0xFF, 0xE1] + BigEndian16(8 + offset));
  }

  lemma KeptFits(a: Attributes, text: seq<byte>, offered: Option<seq<byte>>)
    requires Writable(a, text) && (offered.Some? ==> |offered.value| <= MAX_JPEG)
    ensures var kept := Kept(a, text, offered); kept.Some? ==> |kept.value| <= MAX_JPEG
  {
    hide ExifAt, GpsAt, ThumbDirAt, JpegAt;
  }

  lemma MainInSegment(a: Attributes, text: seq<byte>, jpeg: Option<seq<byte>>)
    requires Writable(a, text) && (jpeg.Some? ==> |jpeg.value| <= MAX_JPEG)
    ensures IFD_START + ThumbDirAt(a, text) <= SegmentSize(a, text, jpeg)
  {
    hide ExifAt, GpsAt, ThumbDirAt, JpegAt;
    OffsetBounds(a, text);
  }
}
