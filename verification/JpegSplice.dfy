/** encode: the finished JPEG gets the EXIF segment spliced in behind its first two bytes. */
module JpegSplice {
  import opened Bytes
  import opened Tiff
  import opened ExifLayout
  import opened ExifTags
  import opened ExifRecord
  import opened ExifSegment
  import opened ExifWriter

  /** exif_attribute_t as the encoder uses it: the comment and the thumbnail flag are changed in place. The memory
      of the comment includes the width and the height behind its field, which `attributes` repeats. */
  class ExifInfo {
    var attributes: Attributes
    var enableThumb: bool
    const userComment: array<byte>

    ghost predicate Valid()
      reads this, userComment
    {
      CommentMemory(userComment[..], attributes) && Writable(attributes, CommentText(userComment[..]))
    }

    constructor (a: Attributes, thumb: bool, comment: array<byte>)
      requires CommentMemory(comment[..], a) && Writable(a, CommentText(comment[..]))
      ensures Valid() && attributes == a && enableThumb == thumb && userComment == comment
    {
      attributes := a;
      enableThumb := thumb;
      userComment := comment;
    }

    /** makeExif on this record, whose width and height are what lies behind the comment field afterwards. */
    method MakeSegment(exifOut: array<byte>, thumbBuf: seq<byte>) returns (size: nat)
      requires Valid() && exifOut != userComment && |thumbBuf| <= MAX_JPEG
      requires exifOut.Length >= EXIF_FILE_SIZE + if enableThumb then |thumbBuf| else 0
      modifies exifOut, this`attributes, userComment
      ensures Valid()
      ensures attributes == old(Damaged(attributes, CommentText(userComment[..])))
      ensures userComment[..] == old(CommentAfter(userComment[..]))
      ensures var text := CommentText(old(userComment[..]));
        var kept := Kept(old(attributes), text, Offered(enableThumb, thumbBuf));
        && size == SegmentSize(old(attributes), text, kept) <= exifOut.Length
        && exifOut[..size] == SegmentBytes(old(attributes), text, kept)
    {
      hide CommentMemory, CommentAfter, CommentText, Kept, SegmentBytes, SegmentSize, BehindAfter, AsU32;
      ghost var comment := userComment[..];
      StillValid(comment, attributes);
      size := MakeExif(exifOut, attributes, userComment, enableThumb, thumbBuf);
      var behind := userComment[..][COMMENT_SIZE..];
      attributes := attributes.(width := AsU32(behind[..4]), height := AsU32(behind[4..]));
    }
  }

  /** The record is as usable after a picture as before it. */
  lemma StillValid(comment: seq<byte>, a: Attributes)
    requires CommentMemory(comment, a) && Writable(a, CommentText(comment))
    ensures StrLen(comment) + 9 <= |comment| == |CommentAfter(comment)| == COMMENT_SPAN
    ensures CommentAfter(comment)[COMMENT_SIZE..] == BehindAfter(a, CommentText(comment))
    ensures var a' := Damaged(a, CommentText(comment));
      CommentMemory(CommentAfter(comment), a') && Writable(a', CommentText(CommentAfter(comment)))
  {
    hide PixelX, PixelY, CommentAfter, BehindAfter, Behind;
    BehindStored(comment, a);
    DamagedMemory(comment, a);
    CommentLost(comment);
  }

  datatype Status =
    | Done | NotYetCreated | EncodeFailed(ret: int)
    | OutBufferTooSmall | OutBufferFailed(ret: int) | OutBufferCreateFail

  /** The thumbnail that reaches makeExif: a failed or oversized one switches thumbnails off. */
  function Usable(enableThumb: bool, thumb: Option<seq<byte>>): Option<seq<byte>> {
    if enableThumb && thumb.Some? && |thumb.value| <= EXIF_LIMIT_SIZE then Offered(true, thumb.value) else None
  }

  /** The segment that encode inserts, if it inserts one. */
  function Inserted(a: Attributes, text: seq<byte>, enableThumb: bool, thumb: Option<seq<byte>>): Option<seq<byte>>
    requires Writable(a, text)
  {
    var kept := Kept(a, text, Usable(enableThumb, thumb));
    if SegmentSize(a, text, kept) <= EXIF_LIMIT_SIZE then Some(SegmentBytes(a, text, kept)) else None
  }

  function Splice(jpeg: seq<byte>, segment: seq<byte>): seq<byte>
    requires |jpeg| >= 2
  {
    jpeg[..2] + segment + jpeg[2..]
  }

  /** memmove of the tail, then memcpy of the segment into the gap: `out` holds `size` JPEG bytes. */
  method InsertSegment(out: array<byte>, size: nat, segment: array<byte>, len: nat)
    requires 2 <= size && size + len <= out.Length && len <= segment.Length && out != segment
    modifies out
    ensures out[..size + len] == Splice(old(out[..size]), segment[..len])
    ensures out[size + len..] == old(out[size + len..])
  {
    hide Overwrite;
    ghost var m0 := out[..];
    MemMoveUp(out, len + 2, 2, size - 2);
    ghost var m1 := out[..];
    MemCopy(out, 2, segment[..len]);
    SpliceDone(m0, m1, out[..], size, segment[..len]);
  }

  lemma SpliceDone(m0: seq<byte>, m1: seq<byte>, m2: seq<byte>, size: nat, s: seq<byte>)
    requires 2 <= size && size + |s| <= |m0|
    requires m1 == Overwrite(m0, |s| + 2, m0[2..size]) && m2 == Overwrite(m1, 2, s)
    ensures m2[..size + |s|] == Splice(m0[..size], s) && m2[size + |s|..] == m0[size + |s|..]
  {
    hide Overwrite;
    var e := size + |s|;
    OverwriteApart(m0, |s| + 2, m0[2..size], 0, 2);
    OverwriteApart(m1, 2, s, 0, 2);
    OverwriteApart(m1, 2, s, |s| + 2, e);
    OverwriteApart(m0, |s| + 2, m0[2..size], e, |m0|);
    OverwriteApart(m1, 2, s, e, |m0|);
    assert m2[..e] == m2[0..2] + m2[2..|s| + 2] + m2[|s| + 2..e];
    assert m0[..size][..2] == m0[0..2] && m0[..size][2..] == m0[2..size];
    assert m2[e..|m0|] == m2[e..] && m0[e..|m0|] == m0[e..];
  }

  /** encode. The codec is outside the model: `created`, `encodeRet`, `jpegSize` and `getOutBufRet` are its
      answers, `out` its output buffer or null, and `thumb` what encodeThumbnail yields. */
  method Encode(created: bool, encodeRet: int, jpegSize: int, getOutBufRet: int, out: array?<byte>,
                info: ExifInfo?, thumb: Option<seq<byte>>)
    returns (status: Status, size: int)
    requires out != null ==> jpegSize <= out.Length
    requires info != null ==> info.Valid() && info.userComment != out && jpegSize != 1
    requires info != null && out != null && jpegSize > 0 ==>
      var s := Inserted(info.attributes, CommentText(info.userComment[..]), info.enableThumb, thumb);
      s.Some? ==> jpegSize + |s.value| <= out.Length
    modifies out, info, if info != null then {info.userComment} else {}
    ensures status.NotYetCreated? <==> !created
    ensures status.EncodeFailed? <==> created && encodeRet != 0
    ensures status.OutBufferTooSmall? <==> created && encodeRet == 0 && jpegSize <= 0
    ensures status.OutBufferFailed? <==> created && encodeRet == 0 && jpegSize > 0 && getOutBufRet != 0
    ensures status.OutBufferCreateFail? <==>
      created && encodeRet == 0 && jpegSize > 0 && getOutBufRet == 0 && (out == null || old(out[0]) == 0)
    ensures status.EncodeFailed? ==> status.ret == encodeRet
    ensures status.OutBufferFailed? ==> status.ret == getOutBufRet
    ensures status.Done? ==> out != null
    ensures status.Done? ==>
      var s := if info == null then None
               else old(Inserted(info.attributes, CommentText(info.userComment[..]), info.enableThumb, thumb));
      if s.Some?
      then size == jpegSize + |s.value| <= out.Length && out[..size] == Splice(old(out[..jpegSize]), s.value)
      else size == jpegSize && out[..size] == old(out[..size])
    ensures status.Done? && info != null ==>
      && info.Valid() && info.userComment[..] == old(CommentAfter(info.userComment[..]))
      && info.attributes == old(Damaged(info.attributes, CommentText(info.userComment[..])))
      && info.enableThumb == (old(info.enableThumb) && thumb.Some? && |thumb.value| <= EXIF_LIMIT_SIZE)
    ensures !status.Done? && out != null ==> out[..] == old(out[..])
  {
    hide Kept, SegmentBytes, SegmentSize, CommentAfter, CommentText, CommentMemory, BehindAfter;
    hide OnlySlot, ExifAt, GpsAt, ThumbDirAt, JpegAt, Splice;
    size := 0;
    if !created {
      return NotYetCreated, size;
    }
    if encodeRet != 0 {
      return EncodeFailed(encodeRet), size;
    }
    var iJpegSize := jpegSize;
    if iJpegSize <= 0 {
      return OutBufferTooSmall, size;
    }
    if getOutBufRet != 0 {
      return OutBufferFailed(getOutBufRet), size;
    }
    if out == null {
      return OutBufferCreateFail, size;
    }
    if out[0] == 0 {
      return OutBufferCreateFail, size;
    }
    if info != null {
      var bufSize := EXIF_FILE_SIZE;
      var thumbBuf: seq<byte> := [];
      if info.enableThumb {
        if thumb.None? {
          info.enableThumb := false;
        } else if |thumb.value| > EXIF_LIMIT_SIZE {
          info.enableThumb := false;
        } else {
          thumbBuf := thumb.value;
          bufSize := EXIF_FILE_SIZE + |thumbBuf|;
        }
      }
      var exifOut := new byte[bufSize](_ => 0);
      var exifLen := info.MakeSegment(exifOut, thumbBuf);
      if exifLen <= EXIF_LIMIT_SIZE {
        InsertSegment(out, iJpegSize, exifOut, exifLen);
        iJpegSize := iJpegSize + exifLen;
      }
    }
    size := iJpegSize;
    status := Done;
  }

  // ---------- what a JPEG reader finds afterwards ----------

  function AsBigEndian16(b: seq<byte>): nat
    requires |b| == 2
  {
    0x100 * (b[0] as int) + (b[1] as int)
  }

  /** SOI, then one APP1 segment: its contents and what follows it. */
  function ReadApp1(j: seq<byte>): Option<(seq<byte>, seq<byte>)> {
    if |j| < 6 || j[..2] != [0xFF, 0xD8] || j[2..4] != [0xFF, 0xE1] then None
    else
      var len := AsBigEndian16(j[4..6]);
      if len < 2 || 4 + len > |j| then None else Some((j[6..4 + len], j[4 + len..]))
  }

  function ReadExif(j: seq<byte>): Option<Document> {
    match ReadApp1(j)
    case Some((payload, _)) =>
      if |payload| < 6 || payload[..6] != [0x45, 0x78, 0x69, 0x66, 0x00, 0x00] then None
      else ReadDocument(payload[6..])
    case None => None
  }

  lemma SegmentLength(a: Attributes, text: seq<byte>, jpeg: Option<seq<byte>>)
    requires Writable(a, text) && (jpeg.Some? ==> |jpeg.value| <= MAX_JPEG)
    ensures |TiffBytes(a, text, jpeg)| + 10 == |SegmentBytes(a, text, jpeg)| == SegmentSize(a, text, jpeg)
  {
    hide TiffBytes;
    Parts(a, text, jpeg);
  }

  /** The big-endian length survives in two bytes because of the 64K guard in front of the splice. */
  lemma LengthExact(n: nat)
    ensures AsBigEndian16(BigEndian16(n)) == n <==> n < 0x1_0000
  {
  }

  lemma ReadSpliced(jpeg: seq<byte>, tiff: seq<byte>)
    requires |jpeg| >= 2 && jpeg[..2] == [0xFF, 0xD8] && |tiff| + 8 < 0x1_0000
    ensures var s := [0xFF, 0xE1] + BigEndian16(|tiff| + 8) + EXIF_ID + tiff;
      ReadApp1(Splice(jpeg, s)) == Some((EXIF_ID + tiff, jpeg[2..]))
  {
    var len := BigEndian16(|tiff| + 8);
    var s := [0xFF, 0xE1] + len + EXIF_ID + tiff;
    var j := Splice(jpeg, s);
    LengthExact(|tiff| + 8);
    assert j[2..2 + |s|] == s && j[2 + |s|..] == jpeg[2..];
    assert s == [0xFF, 0xE1] + len + (EXIF_ID + tiff);
    SliceOfSum(j, 2, [0xFF, 0xE1] + len, EXIF_ID + tiff);
    SliceOfSum(j, 2, [0xFF, 0xE1], len);
    assert j[..2] == jpeg[..2];
  }

  /** End to end: a reader of the finished file finds the document of the record in the APP1 segment and
      the untouched JPEG behind it. */
  lemma SplicedReadBack(a: Attributes, text: seq<byte>, enableThumb: bool, thumb: Option<seq<byte>>, jpeg: seq<byte>)
    requires Writable(a, text) && |jpeg| >= 2 && jpeg[..2] == [0xFF, 0xD8]
    requires Inserted(a, text, enableThumb, thumb).Some?
    ensures var j := Splice(jpeg, Inserted(a, text, enableThumb, thumb).value);
      && ReadExif(j) == Some(Expected(a, text, Kept(a, text, Usable(enableThumb, thumb))))
      && ReadApp1(j).value.1 == jpeg[2..]
  {
    hide TiffBytes, Expected, ReadDocument, ReadApp1, Splice, BigEndian16;
    var kept := Kept(a, text, Usable(enableThumb, thumb));
    var tiff := TiffBytes(a, text, kept);
    SegmentLength(a, text, kept);
    ReadBack(a, text, kept);
    ReadSpliced(jpeg, tiff);
    assert (EXIF_ID + tiff)[6..] == tiff && (EXIF_ID + tiff)[..6] == EXIF_ID;
  }

  /** What becomes of a thumbnail, end to end. One of at most 64K that ends ten bytes before 64K behind the TIFF
      header, and so every one of at most 56526 bytes, is what a reader of the finished file finds, byte for byte.
      One that ends later than 64K is left out, with the rest of the Exif data in place; one that ends in between
      costs the picture its Exif data. Without a thumbnail the reader finds none. */
  lemma ThumbnailFound(a: Attributes, text: seq<byte>, enableThumb: bool, thumb: Option<seq<byte>>, jpeg: seq<byte>)
    requires Writable(a, text) && |jpeg| >= 2 && jpeg[..2] == [0xFF, 0xD8]
    ensures JpegAt(a, text) <= 9000
    ensures var i := Inserted(a, text, enableThumb, thumb);
      var end := if enableThumb && thumb.Some? && thumb.value != [] then JpegAt(a, text) + |thumb.value| else 0;
      && (i.None? <==> 0x1_0000 - 10 < end <= 0x1_0000)
      && (i.Some? ==>
        var doc := ReadExif(Splice(jpeg, i.value));
        && doc.Some?
        && if 0 < end <= 0x1_0000 - 10
           then doc.value.thumbnail.Some? && doc.value.thumbnail.value.1 == thumb.value
           else doc.value.thumbnail == None)
  {
    hide ReadExif, Splice, SegmentBytes, TiffBytes, ExifAt, GpsAt, ThumbDirAt, JpegAt, SegmentSize, SeenAll;
    OffsetBounds(a, text);
    InsertedUnlessInTheGap(a, text, enableThumb, thumb);
    if Inserted(a, text, enableThumb, thumb).Some? {
      SplicedReadBack(a, text, enableThumb, thumb, jpeg);
    }
  }

  /** End to end, exactly: a reader of the finished file finds the values that the record had, under the tags of the
      standard and with the thumbnail that fits, if and only if the names are readable and the comment leaves the
      pixel dimensions alone. */
  lemma FinishedFile(a: Attributes, text: seq<byte>, enableThumb: bool, thumb: Option<seq<byte>>, jpeg: seq<byte>)
    requires Writable(a, text) && |jpeg| >= 2 && jpeg[..2] == [0xFF, 0xD8]
    requires Inserted(a, text, enableThumb, thumb).Some?
    ensures var j := Splice(jpeg, Inserted(a, text, enableThumb, thumb).value);
      var found := enableThumb && thumb.Some? && thumb.value != [] && JpegAt(a, text) + |thumb.value| <= 0x1_0000;
      (ReadExif(j) == Some(PlainDocument(a, text, if found then thumb else None)))
      <==> NamesReadable(a) && DimensionsKept(a, text)
  {
    hide ReadExif, Splice, SegmentBytes, TiffBytes, ExifAt, GpsAt, ThumbDirAt, SegmentSize, SeenAll;
    hide PlainDocument, NamesReadable, DimensionsKept, Expected, ReadDocument;
    var kept := Kept(a, text, Usable(enableThumb, thumb));
    SplicedReadBack(a, text, enableThumb, thumb, jpeg);
    ReadBack(a, text, kept);
    ReadBackExact(a, text, kept);
  }

  /** The rollback compares the TIFF offset with the limit, the splice the whole segment, ten bytes more. In
      between the segment is neither cut down nor inserted: the picture has no EXIF data at all. */
  lemma InsertedUnlessInTheGap(a: Attributes, text: seq<byte>, enableThumb: bool, thumb: Option<seq<byte>>)
    requires Writable(a, text)
    ensures var usable := Usable(enableThumb, thumb);
      Inserted(a, text, enableThumb, thumb).None? <==>
        usable.Some? && EXIF_LIMIT_SIZE - 10 < JpegAt(a, text) + |usable.value| <= EXIF_LIMIT_SIZE
  {
    OffsetBounds(a, text);
  }

  /** A thumbnail that hits the gap, for any record. */
  lemma GapExists(a: Attributes, text: seq<byte>) returns (thumb: seq<byte>)
    requires Writable(a, text)
    ensures Inserted(a, text, true, Some(thumb)).None? && Inserted(a, text, false, None).Some?
  {
    hide Inserted, JpegAt, TiffBytes, ThumbnailFields;
    OffsetBounds(a, text);
    thumb := seq(EXIF_LIMIT_SIZE - JpegAt(a, text), _ => 0);
    InsertedUnlessInTheGap(a, text, true, Some(thumb));
    InsertedUnlessInTheGap(a, text, false, None);
  }

  /** A reader finds code, text and NUL in the first picture's bytes, and code and NUL in those of the next
      picture taken with the same record: the text is lost. */
  lemma CommentOfNextPicture(a: Attributes, comment: seq<byte>, jpeg: Option<seq<byte>>)
    requires CommentMemory(comment, a) && Writable(a, CommentText(comment))
    requires jpeg.Some? ==> |jpeg.value| <= MAX_JPEG
    ensures StrLen(comment) + 9 <= |comment|
    ensures CommentRead(a, CommentText(comment), jpeg)
      == Some([0x00, 0x00, 0x00, 0x49, 0x49, 0x43, 0x53, 0x41] + CommentText(comment) + [0])
    ensures var a', text' := Damaged(a, CommentText(comment)), CommentText(CommentAfter(comment));
      && CommentMemory(CommentAfter(comment), a') && Writable(a', text')
      && CommentRead(a', text', jpeg) == Some([0x00, 0x00, 0x00, 0x49, 0x49, 0x43, 0x53, 0x41, 0x00])
  {
    hide DirSize, Primary, Thumbnail, CommentRead, CommentMemory, Damaged, CommentText, CommentAfter, BehindAfter;
    StillValid(comment, a);
    CommentLost(comment);
    CommentReadBack(a, CommentText(comment), jpeg);
    CommentReadBack(Damaged(a, CommentText(comment)), [], jpeg);
    assert COMMENT_CODE + [] + [0] == [0x00, 0x00, 0x00, 0x49, 0x49, 0x43, 0x53, 0x41, 0x00];
  }

  /** What the comment did to the width lasts: both directories of the next picture have it, unless the caller sets
      the width again. */
  lemma WidthOfNextPicture(a: Attributes, comment: seq<byte>, jpeg: Option<seq<byte>>)
    requires CommentMemory(comment, a) && Writable(a, CommentText(comment))
    requires jpeg.Some? ==> |jpeg.value| <= MAX_JPEG
    ensures StrLen(comment) + 9 <= |comment|
    ensures var a', text' := Damaged(a, CommentText(comment)), CommentText(CommentAfter(comment));
      && CommentMemory(CommentAfter(comment), a') && Writable(a', text')
      && WidthsFound(ReadDocument(TiffBytes(a', text', jpeg)), PixelX(a, CommentText(comment)),
                     PixelX(a, CommentText(comment)))
  {
    hide TiffBytes, ReadDocument, CommentMemory, CommentText, CommentAfter, PixelX, PixelY, DimensionsKept, WidthsFound;
    StillValid(comment, a);
    CommentLost(comment);
    var a' := Damaged(a, CommentText(comment));
    WidthsRead(a', [], jpeg);
    ShortComment(a', []);
    DimensionsExact(a', []);
  }

  /** The user comment that a TIFF reader finds under its tag in the written bytes. */
  function CommentRead(a: Attributes, text: seq<byte>, jpeg: Option<seq<byte>>): Option<seq<byte>>
    requires Writable(a, text) && (jpeg.Some? ==> |jpeg.value| <= MAX_JPEG)
  {
    match ReadDocument(TiffBytes(a, text, jpeg))
    case Some(doc) => if doc.exif.Some? then FindBytes(doc.exif.value.entries, USER_COMMENT) else None
    case None => None
  }

  /** The undefined bytes stored under a tag, if there are any. */
  function FindBytes(entries: seq<Entry>, tag: u16): Option<seq<byte>> {
    if entries == [] then None
    else if entries[0].tag == tag && entries[0].value.Undefined? then Some(entries[0].value.u)
    else FindBytes(entries[1..], tag)
  }

  lemma CommentReadBack(a: Attributes, text: seq<byte>, jpeg: Option<seq<byte>>)
    requires Writable(a, text) && (jpeg.Some? ==> |jpeg.value| <= MAX_JPEG)
    ensures CommentRead(a, text, jpeg) == Some(COMMENT_CODE + text + [0])
  {
    hide TiffBytes, ReadDocument, DirSeen, ExifFields, FindBytes, Plain;
    ReadBack(a, text, jpeg);
    OtherDirsPlain(a, text, jpeg);
    CommentEntry(a, text);
    FindBytesAt(Plain(ExifFields(a, text)), USER_COMMENT, 15);
  }

  lemma {:induction false} FindBytesAt(entries: seq<Entry>, tag: u16, i: nat)
    requires i < |entries| && entries[i].tag == tag && entries[i].value.Undefined?
    requires forall k | 0 <= k < i :: entries[k].tag != tag
    ensures FindBytes(entries, tag) == Some(entries[i].value.u)
  {
    if 0 < i {
      FindBytesAt(entries[1..], tag, i - 1);
    }
  }

  lemma CommentEntry(a: Attributes, text: seq<byte>)
    requires Writable(a, text)
    ensures |Plain(ExifFields(a, text))| == 22
    ensures Plain(ExifFields(a, text))[15] == Entry(USER_COMMENT, Undefined(COMMENT_CODE + text + [0]))
    ensures forall k | 0 <= k < 15 :: Plain(ExifFields(a, text))[k].tag != USER_COMMENT
  {
  }
}
