/** The whole TIFF part of the segment as a function of the record, and the proof that the reader inverts it. */
module ExifSegment {
  import opened Bytes
  import opened Tiff
  import opened ExifLayout
  import opened ExifTags
  import opened ExifRecord
  import opened ExifDocument

  /** A record the writer can be given: the comment is terminated inside its field. */
  predicate Writable(a: Attributes, text: seq<byte>) {
    a.Valid() && |text| < COMMENT_SIZE
  }

  function Primary(a: Attributes, text: seq<byte>): seq<Field>
    requires Writable(a, text)
  {
    OffsetBounds(a, text);
    PrimaryFields(a, ExifAt(a), GpsAt(a, text))
  }

  function Thumbnail(a: Attributes, text: seq<byte>, jpeg: seq<byte>): seq<Field>
    requires Writable(a, text) && |jpeg| <= MAX_JPEG
  {
    OffsetBounds(a, text);
    ThumbnailFields(a, JpegAt(a, text), |jpeg|)
  }

  /** What survives the rollback: a thumbnail that would push the offset past the limit is dropped. */
  function Kept(a: Attributes, text: seq<byte>, jpeg: Option<seq<byte>>): Option<seq<byte>>
    requires Writable(a, text)
  {
    if jpeg.Some? && JpegAt(a, text) + |jpeg.value| <= EXIF_LIMIT_SIZE then jpeg else None
  }

  function NextIfd(a: Attributes, text: seq<byte>, jpeg: Option<seq<byte>>): u32
    requires Writable(a, text)
  {
    OffsetBounds(a, text);
    if jpeg.Some? then ThumbDirAt(a, text) else 0
  }

  function GpsPart(a: Attributes, text: seq<byte>): seq<byte>
    requires Writable(a, text)
  {
    if a.enableGps then DirBytes(GpsAt(a, text), GpsFields(a), 0) else []
  }

  function ThumbnailPart(a: Attributes, text: seq<byte>, jpeg: Option<seq<byte>>): seq<byte>
    requires Writable(a, text) && (jpeg.Some? ==> |jpeg.value| <= MAX_JPEG)
  {
    if jpeg.Some? then DirBytes(ThumbDirAt(a, text), Thumbnail(a, text, jpeg.value), 0) + jpeg.value else []
  }

  /** The TIFF part: header and directories one after the other, no gaps. */
  function TiffBytes(a: Attributes, text: seq<byte>, jpeg: Option<seq<byte>>): seq<byte>
    requires Writable(a, text) && (jpeg.Some? ==> |jpeg.value| <= MAX_JPEG)
  {
    TIFF_HEADER
    + DirBytes(8, Primary(a, text), NextIfd(a, text, jpeg))
    + DirBytes(ExifAt(a), ExifFields(a, text), 0)
    + GpsPart(a, text)
    + ThumbnailPart(a, text, jpeg)
  }

  /** The document a reader finds in the TIFF part. */
  function Expected(a: Attributes, text: seq<byte>, jpeg: Option<seq<byte>>): Document
    requires Writable(a, text) && (jpeg.Some? ==> |jpeg.value| <= MAX_JPEG)
  {
    Document(
      DirSeen(8, Primary(a, text), NextIfd(a, text, jpeg)),
      Some(DirSeen(ExifAt(a), ExifFields(a, text), 0)),
      if a.enableGps then Some(DirSeen(GpsAt(a, text), GpsFields(a), 0)) else None,
      if jpeg.Some?
      then Some((DirSeen(ThumbDirAt(a, text), Thumbnail(a, text, jpeg.value), 0), jpeg.value))
      else None)
  }

  /** Where each part lies in the TIFF part. */
  lemma Parts(a: Attributes, text: seq<byte>, jpeg: Option<seq<byte>>)
    requires Writable(a, text) && (jpeg.Some? ==> |jpeg.value| <= MAX_JPEG)
    ensures var t := TiffBytes(a, text, jpeg);
      && |t| == (if jpeg.Some? then JpegAt(a, text) + |jpeg.value| else ThumbDirAt(a, text))
      && ExifAt(a) <= GpsAt(a, text) <= ThumbDirAt(a, text) <= |t| && 8 <= ExifAt(a)
      && t[..8] == TIFF_HEADER
      && t[8..ExifAt(a)] == DirBytes(8, Primary(a, text), NextIfd(a, text, jpeg))
      && t[ExifAt(a)..GpsAt(a, text)] == DirBytes(ExifAt(a), ExifFields(a, text), 0)
      && t[GpsAt(a, text)..ThumbDirAt(a, text)] == GpsPart(a, text)
      && t[ThumbDirAt(a, text)..] == ThumbnailPart(a, text, jpeg)
  {
    hide DirBytes, PrimaryFields, ExifFields, GpsFields, ThumbnailFields;
    OffsetBounds(a, text);
    PrimarySize(a, ExifAt(a), GpsAt(a, text));
    if jpeg.Some? {
      ThumbnailSize(a, JpegAt(a, text), |jpeg.value|);
    }
    var t := TiffBytes(a, text, jpeg);
    var p := DirBytes(8, Primary(a, text), NextIfd(a, text, jpeg));
    var x := DirBytes(ExifAt(a), ExifFields(a, text), 0);
    FiveParts(t, TIFF_HEADER, p, x, GpsPart(a, text), ThumbnailPart(a, text, jpeg));
  }

  lemma FiveParts(t: seq<byte>, h: seq<byte>, p: seq<byte>, x: seq<byte>, g: seq<byte>, n: seq<byte>)
    requires t == h + p + x + g + n
    ensures |t| == |h| + |p| + |x| + |g| + |n|
    ensures t[..|h|] == h
    ensures t[|h|..|h| + |p|] == p
    ensures t[|h| + |p|..|h| + |p| + |x|] == x
    ensures t[|h| + |p| + |x|..|h| + |p| + |x| + |g|] == g
    ensures t[|h| + |p| + |x| + |g|..] == n
  {
    assert t[0..|t|] == t;
    SliceOfSum(t, 0, h + p + x + g, n);
    SliceOfSum(t, 0, h + p + x, g);
    SliceOfSum(t, 0, h + p, x);
    SliceOfSum(t, 0, h, p);
  }

  /** The pointers of the 0th IFD lead where the directories are. */
  lemma PrimaryPointers(a: Attributes, text: seq<byte>, off: nat)
    requires Writable(a, text)
    ensures var es := SeenAll(Primary(a, text), off);
      && FindLong(es, TAG_EXIF_IFD) == Some(ExifAt(a))
      && FindLong(es, TAG_GPS_IFD) == (if a.enableGps then Some(GpsAt(a, text)) else None)
  {
    hide DirSize, SeenAll, FindLong;
    OffsetBounds(a, text);
    var fs := Primary(a, text);
    var es := SeenAll(fs, off);
    SeenTags(fs, off);
    assert fs[8] == Field(EXIF_IFD_POINTER, Longs([ExifAt(a)]), false);
    assert es[8] == Entry(TAG_EXIF_IFD, Longs([ExifAt(a)]));
    assert forall j :: 0 <= j < 8 ==> fs[j].tag < 0x8000;
    FindLongAt(es, TAG_EXIF_IFD, 8, ExifAt(a));
    if a.enableGps {
      assert es[9] == Entry(TAG_GPS_IFD, Longs([GpsAt(a, text)]));
      FindLongAt(es, TAG_GPS_IFD, 9, GpsAt(a, text));
    } else {
      FindLongNone(es, TAG_GPS_IFD);
    }
  }

  lemma ThumbnailPointers(a: Attributes, text: seq<byte>, jpeg: seq<byte>, off: nat)
    requires Writable(a, text) && |jpeg| <= MAX_JPEG
    ensures var es := SeenAll(Thumbnail(a, text, jpeg), off);
      && FindLong(es, TAG_JPEG_OFFSET) == Some(JpegAt(a, text))
      && FindLong(es, TAG_JPEG_LENGTH) == Some(|jpeg|)
  {
    hide DirSize, SeenAll, FindLong;
    OffsetBounds(a, text);
    var fs := Thumbnail(a, text, jpeg);
    var es := SeenAll(fs, off);
    SeenTags(fs, off);
    assert es[7] == Entry(TAG_JPEG_OFFSET, Longs([JpegAt(a, text)]));
    assert es[8] == Entry(TAG_JPEG_LENGTH, Longs([|jpeg|]));
    assert forall j :: 0 <= j < 7 ==> fs[j].tag < 0x0200;
    FindLongAt(es, TAG_JPEG_OFFSET, 7, JpegAt(a, text));
    FindLongAt(es, TAG_JPEG_LENGTH, 8, |jpeg|);
  }

  /** Reading one directory out of the TIFF part. */
  lemma ReadPart(t: seq<byte>, start: nat, fs: seq<Field>, next: u32)
    requires (forall f :: f in fs ==> Small(f)) && |fs| <= 22 && start < 0x1_0000
    requires start + DirSize(fs) <= |t| && t[start..start + DirSize(fs)] == DirBytes(start, fs, next)
    ensures ReadIfd(t, start) == Some(DirSeen(start, fs, next))
  {
    hide DirBytes, DirSeen, ReadIfd, Small;
    SmallDir(fs);
    ReadIfdInverse(t, start, fs, next);
  }

  lemma ReadMainParts(a: Attributes, text: seq<byte>, jpeg: Option<seq<byte>>)
    requires Writable(a, text) && (jpeg.Some? ==> |jpeg.value| <= MAX_JPEG)
    ensures var t := TiffBytes(a, text, jpeg);
      && ReadIfd(t, 8) == Some(DirSeen(8, Primary(a, text), NextIfd(a, text, jpeg)))
      && ReadIfd(t, ExifAt(a)) == Some(DirSeen(ExifAt(a), ExifFields(a, text), 0))
      && (a.enableGps ==> ReadIfd(t, GpsAt(a, text)) == Some(DirSeen(GpsAt(a, text), GpsFields(a), 0)))
  {
    hide DirBytes, DirSeen, ReadIfd, Small, PrimaryFields, ExifFields, GpsFields, TiffBytes;
    var t := TiffBytes(a, text, jpeg);
    Parts(a, text, jpeg);
    OffsetBounds(a, text);
    Lengths(a, text);
    PrimarySize(a, ExifAt(a), GpsAt(a, text));
    PrimarySmall(a, ExifAt(a), GpsAt(a, text));
    ExifSmall(a, text);
    GpsSmall(a);
    ReadPart(t, 8, Primary(a, text), NextIfd(a, text, jpeg));
    ReadPart(t, ExifAt(a), ExifFields(a, text), 0);
    if a.enableGps {
      ReadPart(t, GpsAt(a, text), GpsFields(a), 0);
    }
  }

  lemma ReadThumbnailPart(a: Attributes, text: seq<byte>, jpeg: seq<byte>)
    requires Writable(a, text) && |jpeg| <= MAX_JPEG
    ensures ReadThumbnail(TiffBytes(a, text, Some(jpeg)), ThumbDirAt(a, text))
      == Some(Some((DirSeen(ThumbDirAt(a, text), Thumbnail(a, text, jpeg), 0), jpeg)))
  {
    hide DirBytes, DirSize, ReadIfd, Small, ThumbnailFields, TiffBytes, SeenAll, FindLong;
    var t := TiffBytes(a, text, Some(jpeg));
    var at := ThumbDirAt(a, text);
    var fs := Thumbnail(a, text, jpeg);
    Parts(a, text, Some(jpeg));
    OffsetBounds(a, text);
    Lengths(a, text);
    ThumbnailSize(a, JpegAt(a, text), |jpeg|);
    SliceOfSum(t, at, DirBytes(at, fs, 0), jpeg);
    ReadPart(t, at, fs, 0);
    ThumbnailPointers(a, text, jpeg, PoolStart(at, fs));
  }

  /** Round trip: the TIFF reader recovers the document from the bytes, for every record, with or
      without GPS data, processing method and thumbnail. */
  lemma ReadBack(a: Attributes, text: seq<byte>, jpeg: Option<seq<byte>>)
    requires Writable(a, text) && (jpeg.Some? ==> |jpeg.value| <= MAX_JPEG)
    ensures ReadDocument(TiffBytes(a, text, jpeg)) == Some(Expected(a, text, jpeg))
  {
    hide DirBytes, DirSize, ReadIfd, FindLong, SeenAll, TiffBytes, Primary, Thumbnail, ExifFields, GpsFields;
    var t := TiffBytes(a, text, jpeg);
    Parts(a, text, jpeg);
    assert t[..4] == TIFF_HEADER[..4] && t[4..8] == TIFF_HEADER[4..8];
    ReadMainParts(a, text, jpeg);
    PrimaryPointers(a, text, PoolStart(8, Primary(a, text)));
    if jpeg.Some? {
      ReadThumbnailPart(a, text, jpeg.value);
      OffsetBounds(a, text);
    }
  }

  // ---------- what the recovered values are ----------

  predicate Ascending(fs: seq<Field>) {
    forall i :: 0 < i < |fs| ==> fs[i - 1].tag < fs[i].tag
  }

  /** TIFF 6.0 Section 2 wants the entries of a directory sorted by tag. */
  lemma TagsAscending(a: Attributes, text: seq<byte>, jpeg: seq<byte>)
    requires Writable(a, text) && |jpeg| <= MAX_JPEG
    ensures Ascending(Primary(a, text)) && Ascending(ExifFields(a, text))
    ensures Ascending(GpsFields(a)) && Ascending(Thumbnail(a, text, jpeg))
  {
    hide PrimaryFields, ExifFieldsWith, GpsFields, ThumbnailFields, Ascending, PixelX, PixelY;
    OffsetBounds(a, text);
    PrimaryAscending(a, ExifAt(a), GpsAt(a, text));
    ExifAscending(a, text, PixelX(a, text), PixelY(a, text));
    GpsAscending(a);
    ThumbnailAscending(a, JpegAt(a, text), |jpeg|);
  }

  lemma PrimaryAscending(a: Attributes, exifAt: u32, gpsAt: u32)
    requires a.Valid()
    ensures Ascending(PrimaryFields(a, exifAt, gpsAt))
  {
  }

  lemma ExifAscending(a: Attributes, text: seq<byte>, pixelX: u32, pixelY: u32)
    requires a.Valid()
    ensures Ascending(ExifFieldsWith(a, text, pixelX, pixelY))
  {
  }

  lemma GpsAscending(a: Attributes)
    requires a.Valid()
    ensures Ascending(GpsFields(a))
  {
  }

  lemma ThumbnailAscending(a: Attributes, jpegAt: u32, jpegLength: u32)
    ensures Ascending(ThumbnailFields(a, jpegAt, jpegLength))
  {
  }

  /** The string is too long for the value slot, or it happens to be the one character whose code is
      the offset stored in the slot. */
  predicate NameReadable(s: seq<byte>, off: nat)
    requires 0 in s
  {
    StrLen(s) >= 4 || (StrLen(s) == 1 && s[0] as int == off)
  }

  /** A pooled string is read back exactly when it is readable in this sense. */
  lemma NameSeen(tag: u16, s: seq<byte>, off: nat)
    requires 0 in s && 0 < off < 0x100
    ensures Seen(Field(tag, Ascii(CString(s)), true), off) == Entry(tag, Ascii(CString(s))) <==> NameReadable(s, off)
  {
    var n := StrLen(s);
    var c := CString(s);
    assert U32(off) == [off as byte, 0, 0, 0];
    if 1 <= n <= 3 {
      var slot := U32(off)[..n + 1];
      assert slot[0] == off as byte && c[0] == s[0] && c[n] == 0;
      if n >= 2 {
        assert s[1] in s[..n] && c[1] == s[1] && slot[1] == 0;
      } else {
        assert c == slot <==> s[0] == off as byte;
      }
    }
  }

  lemma PoolStep(fs: seq<Field>, i: nat)
    requires i < |fs|
    ensures i == 0 ==> Pool(fs[..i]) == []
    ensures |Pool(fs[..i + 1])| == |Pool(fs[..i])| + |Payload(fs[i])|
  {
    hide Payload;
    assert fs[..i + 1] == fs[..i] + [fs[i]];
    PoolAppend(fs[..i], [fs[i]]);
  }

  /** Offsets of the three strings of the 0th IFD. */
  lemma NameOffsets(a: Attributes, text: seq<byte>)
    requires Writable(a, text)
    ensures var fs := Primary(a, text);
      && PoolStart(8, fs) == (if a.enableGps then 134 else 122)
      && |Pool(fs[..2])| == 0
      && |Pool(fs[..3])| == StrLen(a.maker) + 1
      && |Pool(fs[..5])| == StrLen(a.maker) + 1 + StrLen(a.model) + 1
  {
    hide DirSize, Pool, Payload, CString, PoolStart, Primary;
    PrimaryPoolStart(a, text);
    NamePayloads(a, text);
    NameFields(a, text);
    NamePools(Primary(a, text));
  }

  lemma PrimaryPoolStart(a: Attributes, text: seq<byte>)
    requires Writable(a, text)
    ensures PoolStart(8, Primary(a, text)) == if a.enableGps then 134 else 122
  {
    hide DirSize, CString;
  }

  /** The pools in front of the second and the third pooled field, when the fields between them are not pooled. */
  lemma NamePools(fs: seq<Field>)
    requires |fs| >= 5 && |Payload(fs[0])| == |Payload(fs[1])| == |Payload(fs[4])| == 0
    ensures |Pool(fs[..2])| == 0
    ensures |Pool(fs[..3])| == |Payload(fs[2])|
    ensures |Pool(fs[..5])| == |Payload(fs[2])| + |Payload(fs[3])|
  {
    hide Pool, Payload;
    PoolStep(fs, 0);
    PoolStep(fs, 1);
    PoolStep(fs, 2);
    PoolStep(fs, 3);
    PoolStep(fs, 4);
  }

  lemma NameFields(a: Attributes, text: seq<byte>)
    requires Writable(a, text)
    ensures var fs := Primary(a, text);
      && |fs| >= 9
      && fs[2] == Field(MAKE, Ascii(CString(a.maker)), true)
      && fs[3] == Field(MODEL, Ascii(CString(a.model)), true)
      && fs[5] == Field(SOFTWARE, Ascii(CString(a.software)), true)
  {
    hide DirSize;
  }

  lemma NamePayloads(a: Attributes, text: seq<byte>)
    requires Writable(a, text)
    ensures var fs := Primary(a, text);
      && |Payload(fs[0])| == |Payload(fs[1])| == |Payload(fs[4])| == 0
      && |Payload(fs[2])| == StrLen(a.maker) + 1 && |Payload(fs[3])| == StrLen(a.model) + 1
  {
    hide DirSize;
  }

  /** The Exif IFD with the pixel dimensions that the record holds when the writer is called. */
  function RecordedExif(a: Attributes, text: seq<byte>): seq<Field>
    requires Writable(a, text)
  {
    ExifFieldsWith(a, text, a.width, a.height)
  }

  /** The document with every value as the record holds it when the writer is called. */
  function PlainDocument(a: Attributes, text: seq<byte>, jpeg: Option<seq<byte>>): Document
    requires Writable(a, text) && (jpeg.Some? ==> |jpeg.value| <= MAX_JPEG)
  {
    OffsetBounds(a, text);
    Document(
      Ifd(PrimaryEntries(a, ExifAt(a), GpsAt(a, text)), if jpeg.Some? then ThumbDirAt(a, text) else 0),
      Some(Ifd(ExifEntries(a, text), 0)),
      if a.enableGps then Some(Ifd(GpsEntries(a), 0)) else None,
      if jpeg.Some?
      then Some((Ifd(ThumbnailEntries(a, JpegAt(a, text), |jpeg.value|), 0), jpeg.value))
      else None)
  }

  /** It is what the fields of the writer's directories stand for. */
  lemma PlainDocumentIs(a: Attributes, text: seq<byte>, jpeg: Option<seq<byte>>)
    requires Writable(a, text) && (jpeg.Some? ==> |jpeg.value| <= MAX_JPEG)
    ensures PlainDocument(a, text, jpeg)
      == Document(
           Ifd(Plain(Primary(a, text)), NextIfd(a, text, jpeg)),
           Some(Ifd(Plain(RecordedExif(a, text)), 0)),
           if a.enableGps then Some(Ifd(Plain(GpsFields(a)), 0)) else None,
           if jpeg.Some? then Some((Ifd(Plain(Thumbnail(a, text, jpeg.value)), 0), jpeg.value)) else None)
  {
    hide Plain, PrimaryFields, ExifFieldsWith, GpsFields, ThumbnailFields;
    hide PrimaryEntries, ExifEntries, GpsEntries, ThumbnailEntries, ExifAt, GpsAt, ThumbDirAt, JpegAt;
    OffsetBounds(a, text);
    PrimaryStands(a, ExifAt(a), GpsAt(a, text));
    ExifStands(a, text);
    GpsStands(a);
    if jpeg.Some? {
      ThumbnailStands(a, JpegAt(a, text), |jpeg.value|);
    }
  }

  predicate NamesReadable(a: Attributes)
    requires a.Valid()
  {
    var off := if a.enableGps then 134 else 122;
    && NameReadable(a.maker, off)
    && NameReadable(a.model, off + StrLen(a.maker) + 1)
    && NameReadable(a.software, off + StrLen(a.maker) + 1 + StrLen(a.model) + 1)
  }

  lemma NamesPlain(a: Attributes, text: seq<byte>)
    requires Writable(a, text)
    ensures var fs := Primary(a, text); var es := SeenAll(fs, PoolStart(8, fs));
      NamesReadable(a) <==> es[2] == Plain(fs)[2] && es[3] == Plain(fs)[3] && es[5] == Plain(fs)[5]
  {
    hide Primary, CString, DirSize, Pool, SeenAll, Seen, Encode, NameReadable;
    var fs := Primary(a, text);
    var off := PoolStart(8, fs);
    NameFields(a, text);
    NameOffsets(a, text);
    SeenAt(fs, off, 2);
    SeenAt(fs, off, 3);
    SeenAt(fs, off, 5);
    NameSeen(MAKE, a.maker, off);
    NameSeen(MODEL, a.model, off + StrLen(a.maker) + 1);
    NameSeen(SOFTWARE, a.software, off + StrLen(a.maker) + 1 + StrLen(a.model) + 1);
  }

  lemma OtherEntriesPlain(a: Attributes, text: seq<byte>, i: nat)
    requires Writable(a, text)
    requires i < |Primary(a, text)| && i != 2 && i != 3 && i != 5
    ensures var fs := Primary(a, text);
      SeenAll(fs, PoolStart(8, fs))[i] == Plain(fs)[i]
  {
    hide DirSize, Pool, SeenAll, Seen, Encode;
    var fs := Primary(a, text);
    var off := PoolStart(8, fs);
    SeenAt(fs, off, i);
    FaithfulSeen(fs[i], off + |Pool(fs[..i])|);
  }

  lemma PrimaryPlain(a: Attributes, text: seq<byte>)
    requires Writable(a, text)
    ensures SeenAll(Primary(a, text), PoolStart(8, Primary(a, text))) == Plain(Primary(a, text)) <==> NamesReadable(a)
  {
    hide Primary, SeenAll, Plain, NamesReadable;
    var fs := Primary(a, text);
    NamesPlain(a, text);
    forall i | 0 <= i < |fs| && i != 2 && i != 3 && i != 5
      ensures SeenAll(fs, PoolStart(8, fs))[i] == Plain(fs)[i]
    {
      OtherEntriesPlain(a, text, i);
    }
  }

  lemma FaithfulSeen(f: Field, off: nat)
    ensures (f.pooled ==> |Encode(f.value)| > 4) ==> Seen(f, off) == Entry(f.tag, f.value)
    ensures f.value.Ascii? ==> Encode(f.value) == f.value.s
  {
  }

  /** The document read back holds exactly the record's values if and only if the maker, model and software
      strings are readable and the comment leaves the pixel dimensions alone; four or more characters for the
      names and at most 141 for the comment are always enough. */
  lemma ReadBackExact(a: Attributes, text: seq<byte>, jpeg: Option<seq<byte>>)
    requires Writable(a, text) && (jpeg.Some? ==> |jpeg.value| <= MAX_JPEG)
    ensures ReadDocument(TiffBytes(a, text, jpeg)) == Some(PlainDocument(a, text, jpeg))
            <==> NamesReadable(a) && DimensionsKept(a, text)
    ensures StrLen(a.maker) >= 4 && StrLen(a.model) >= 4 && StrLen(a.software) >= 4 && |text| <= 141 ==>
      ReadDocument(TiffBytes(a, text, jpeg)) == Some(PlainDocument(a, text, jpeg))
  {
    hide DirSize, SeenAll, TiffBytes, Plain, ReadDocument, ExifFields, GpsFields, Primary, Thumbnail, RecordedExif;
    hide DimensionsKept, PlainDocument;
    PlainDocumentIs(a, text, jpeg);
    ReadBack(a, text, jpeg);
    PrimaryPlain(a, text);
    OtherDirsPlain(a, text, jpeg);
    RecordedExactly(a, text);
    if |text| <= 141 {
      ShortComment(a, text);
    }
  }

  lemma ShortComment(a: Attributes, text: seq<byte>)
    requires |text| <= 141
    ensures DimensionsKept(a, text)
  {
  }

  /** What is written of the Exif IFD is what the record held exactly when the pixel dimensions survive. */
  lemma RecordedExactly(a: Attributes, text: seq<byte>)
    requires Writable(a, text)
    ensures Plain(ExifFields(a, text)) == Plain(RecordedExif(a, text)) <==> DimensionsKept(a, text)
  {
    hide PixelX, PixelY, DimensionsKept;
    DimensionsExact(a, text);
    PixelEntries(a, text, PixelX(a, text), PixelY(a, text));
    PixelEntries(a, text, a.width, a.height);
  }

  lemma PixelEntries(a: Attributes, text: seq<byte>, x: u32, y: u32)
    requires Writable(a, text)
    ensures var es := Plain(ExifFieldsWith(a, text, x, y));
      |es| == 22 && es[17] == Entry(PIXEL_X_DIMENSION, Longs([x])) && es[18] == Entry(PIXEL_Y_DIMENSION, Longs([y]))
      && Longs([x]).ls[0] == x && Longs([y]).ls[0] == y
  {
  }

  /** A reader finds these two widths in the 0th IFD and in the Exif IFD. */
  predicate WidthsFound(doc: Option<Document>, primary: u32, exif: u32) {
    && doc.Some? && doc.value.primary.entries != []
    && doc.value.primary.entries[0] == Entry(IMAGE_WIDTH, Longs([primary]))
    && doc.value.exif.Some? && |doc.value.exif.value.entries| == 22
    && doc.value.exif.value.entries[17] == Entry(PIXEL_X_DIMENSION, Longs([exif]))
  }

  /** The widths found are the record's when it is called and the one behind the comment. */
  lemma WidthsRead(a: Attributes, text: seq<byte>, jpeg: Option<seq<byte>>)
    requires Writable(a, text) && (jpeg.Some? ==> |jpeg.value| <= MAX_JPEG)
    ensures WidthsFound(ReadDocument(TiffBytes(a, text, jpeg)), a.width, PixelX(a, text))
  {
    hide DirSize, SeenAll, TiffBytes, Plain, ReadDocument, GpsFields, Primary, Thumbnail, PixelX, PixelY;
    hide ExifFieldsWith, DirSeen;
    ReadBack(a, text, jpeg);
    OtherDirsPlain(a, text, jpeg);
    PixelEntries(a, text, PixelX(a, text), PixelY(a, text));
    WidthSeen(a, text);
  }

  function LowByteCleared(w: u32): (r: u32)
    ensures r <= w < r + 0x100 && r % 0x100 == 0
  {
    w / 0x100 * 0x100
  }

  /** A comment of 142 characters puts its NUL into the lowest byte of the width: of 1920 a reader finds 1792 in the
      Exif IFD, and still 1920 in the 0th IFD, which was written before. */
  lemma LongCommentChangesTheWidth(a: Attributes, text: seq<byte>, jpeg: Option<seq<byte>>)
    requires Writable(a, text) && (jpeg.Some? ==> |jpeg.value| <= MAX_JPEG)
    requires |text| == 142
    ensures WidthsFound(ReadDocument(TiffBytes(a, text, jpeg)), a.width, LowByteCleared(a.width))
    ensures LowByteCleared(a.width) != a.width ==>
      ReadDocument(TiffBytes(a, text, jpeg)) != Some(PlainDocument(a, text, jpeg))
    ensures LowByteCleared(1920) == 1792
  {
    hide ReadDocument, TiffBytes, PlainDocument, PixelX, PixelY, WidthsFound, DimensionsKept;
    WidthsRead(a, text, jpeg);
    WidthChanged(a, text);
    DimensionsExact(a, text);
    ReadBackExact(a, text, jpeg);
  }

  lemma WidthChanged(a: Attributes, text: seq<byte>)
    requires |text| == 142
    ensures PixelX(a, text) == LowByteCleared(a.width)
  {
    var r, w := CommentRecord(text), a.width;
    assert r[|r| - 1..] == [0];
    var b := BehindAfter(a, text)[..4];
    assert b == [0] + U32(w)[1..];
    assert U32(w)[..2] == U16(w % 0x1_0000) && U32(w)[2..] == U16(w / 0x1_0000);
    AsU16Inverse(w / 0x1_0000);
    assert b[2..] == U16(w / 0x1_0000);
    assert b[..2][0] == 0 && b[..2][1] == U16(w % 0x1_0000)[1];
    assert w % 0x1_0000 / 0x100 * 0x100 + w / 0x1_0000 * 0x1_0000 == LowByteCleared(w);
  }

  lemma WidthSeen(a: Attributes, text: seq<byte>)
    requires Writable(a, text)
    ensures forall next: u32 :: var es := DirSeen(8, Primary(a, text), next).entries;
      es != [] && es[0] == Entry(IMAGE_WIDTH, Longs([a.width]))
  {
    hide SeenAll, DirSize;
    var fs := Primary(a, text);
    assert |fs| > 0 && fs[0] == Field(IMAGE_WIDTH, Longs([a.width]), false);
    SeenAt(fs, PoolStart(8, fs), 0);
  }

  /** A maker of no, two or three characters, as "LGE", is misread in every record. */
  lemma ShortMakerIsMisread(a: Attributes, text: seq<byte>, jpeg: Option<seq<byte>>)
    requires Writable(a, text) && (jpeg.Some? ==> |jpeg.value| <= MAX_JPEG)
    requires StrLen(a.maker) < 4 && StrLen(a.maker) != 1
    ensures ReadDocument(TiffBytes(a, text, jpeg)) != Some(PlainDocument(a, text, jpeg))
  {
    hide ReadDocument, TiffBytes, PlainDocument;
    ReadBackExact(a, text, jpeg);
  }

  lemma ExifPlain(a: Attributes, text: seq<byte>)
    requires Writable(a, text)
    ensures DirSeen(ExifAt(a), ExifFields(a, text), 0) == Ifd(Plain(ExifFields(a, text)), 0)
  {
    hide Encode, DirSize, SeenAll, Plain, PixelX, PixelY;
    SeenIsPlain(ExifFields(a, text), PoolStart(ExifAt(a), ExifFields(a, text)));
  }

  lemma GpsPlain(a: Attributes, text: seq<byte>)
    requires Writable(a, text)
    ensures DirSeen(GpsAt(a, text), GpsFields(a), 0) == Ifd(Plain(GpsFields(a)), 0)
  {
    hide Encode, DirSize, SeenAll, Plain;
    SeenIsPlain(GpsFields(a), PoolStart(GpsAt(a, text), GpsFields(a)));
  }

  lemma ThumbnailPlain(a: Attributes, text: seq<byte>, jpeg: seq<byte>)
    requires Writable(a, text) && |jpeg| <= MAX_JPEG
    ensures DirSeen(ThumbDirAt(a, text), Thumbnail(a, text, jpeg), 0) == Ifd(Plain(Thumbnail(a, text, jpeg)), 0)
  {
    hide Encode, DirSize, SeenAll, Plain;
    var fs := Thumbnail(a, text, jpeg);
    SeenIsPlain(fs, PoolStart(ThumbDirAt(a, text), fs));
  }

  lemma OtherDirsPlain(a: Attributes, text: seq<byte>, jpeg: Option<seq<byte>>)
    requires Writable(a, text) && (jpeg.Some? ==> |jpeg.value| <= MAX_JPEG)
    ensures DirSeen(ExifAt(a), ExifFields(a, text), 0) == Ifd(Plain(ExifFields(a, text)), 0)
    ensures DirSeen(GpsAt(a, text), GpsFields(a), 0) == Ifd(Plain(GpsFields(a)), 0)
    ensures jpeg.Some? ==>
      DirSeen(ThumbDirAt(a, text), Thumbnail(a, text, jpeg.value), 0) == Ifd(Plain(Thumbnail(a, text, jpeg.value)), 0)
  {
    hide DirSize, SeenAll, Plain, DirSeen, ExifFields, GpsFields, Thumbnail;
    ExifPlain(a, text);
    GpsPlain(a, text);
    if jpeg.Some? {
      ThumbnailPlain(a, text, jpeg.value);
    }
  }

  /** The rollback: a reader finds the thumbnail that is offered, byte for byte, if and only if it ends at most 64K
      behind the TIFF header, and otherwise none. */
  lemma RolledBack(a: Attributes, text: seq<byte>, jpeg: seq<byte>)
    requires Writable(a, text) && |jpeg| <= MAX_JPEG
    ensures JpegAt(a, text) <= 9000
    ensures var doc := ReadDocument(TiffBytes(a, text, Kept(a, text, Some(jpeg))));
      && doc.Some?
      && if JpegAt(a, text) + |jpeg| <= 0x1_0000
         then doc.value.thumbnail.Some? && doc.value.thumbnail.value.1 == jpeg && doc.value.primary.next != 0
         else doc.value.thumbnail == None && doc.value.primary.next == 0
  {
    hide ReadDocument, TiffBytes, ExifAt, GpsAt, ThumbDirAt, JpegAt, SeenAll;
    OffsetBounds(a, text);
    ReadBack(a, text, Kept(a, text, Some(jpeg)));
  }

  // ---------- the APP1 segment ----------

  const EXIF_ID: seq<byte> := [0x45, 0x78, 0x69, 0x66, 0x00, 0x00]

  /** Two bytes, most significant first: the marker length of ITU-T T.81 section B.1.1.4. */
  function BigEndian16(x: nat): (b: seq<byte>)
    ensures |b| == 2
  {
    [(x / 0x100 % 0x100) as byte, (x % 0x100) as byte]
  }

  function SegmentSize(a: Attributes, text: seq<byte>, jpeg: Option<seq<byte>>): nat
    requires Writable(a, text)
  {
    10 + if jpeg.Some? then JpegAt(a, text) + |jpeg.value| else ThumbDirAt(a, text)
  }

  /** APP1 marker, length without the marker, Exif identifier, TIFF part. */
  function SegmentBytes(a: Attributes, text: seq<byte>, jpeg: Option<seq<byte>>): seq<byte>
    requires Writable(a, text) && (jpeg.Some? ==> |jpeg.value| <= MAX_JPEG)
  {
    [0xFF, 0xE1] + BigEndian16(SegmentSize(a, text, jpeg) - 2) + EXIF_ID + TiffBytes(a, text, jpeg)
  }
}
