/** The attribute record handed to the EXIF writer, the directories it stands for, and the bytes of the
    whole segment as a function of the record alone. */
module ExifRecord {
  import opened Bytes
  import opened Tiff
  import opened ExifLayout
  import opened ExifTags

  /** exif_attribute_t without the user comment, which the writer changes in place. */
  datatype Attributes = Attributes(
    enableGps: bool,
    maker: seq<byte>, model: seq<byte>, software: seq<byte>,
    exifVersion: seq<byte>, dateTime: seq<byte>,
    width: u32, height: u32, widthThumb: u32, heightThumb: u32,
    orientation: u16, ycbcrPositioning: u16, exposureProgram: u16, isoSpeedRating: u16,
    meteringMode: u16, flash: u16, colorSpace: u16, exposureMode: u16, whiteBalance: u16,
    sceneCaptureType: u16,
    exposureTime: Rational, fnumber: Rational, aperture: Rational, maxAperture: Rational,
    focalLength: Rational,
    shutterSpeed: SRational, brightness: SRational, exposureBias: SRational,
    gpsLatitudeRef: seq<byte>, gpsLongitudeRef: seq<byte>,
    gpsVersionId: seq<byte>, gpsAltitudeRef: byte,
    gpsLatitude: seq<Rational>, gpsLongitude: seq<Rational>, gpsAltitude: Rational,
    gpsTimestamp: seq<Rational>, gpsDatestamp: seq<byte>, gpsProcessingMethod: seq<byte>,
    xResolution: Rational, yResolution: Rational, resolutionUnit: u16, compressionScheme: u16)
  {
    /** The field sizes of the C struct, with the names terminated inside their fields. The processing method
        may fill its field, which then has no terminating NUL. */
    predicate Valid() {
      && |maker| == 32 && 0 in maker && |model| == 32 && 0 in model && |software| == 32 && 0 in software
      && |exifVersion| == 4 && |dateTime| == 20
      && |gpsLatitudeRef| == 2 && |gpsLongitudeRef| == 2 && |gpsVersionId| == 4
      && |gpsLatitude| == 3 && |gpsLongitude| == 3 && |gpsTimestamp| == 3
      && |gpsDatestamp| == 11 && |gpsProcessingMethod| == 100
    }
  }

  const COMMENT_SIZE: nat := 150

  /** The comment field with the image's width and height, which follow it in the record. */
  const COMMENT_SPAN: nat := COMMENT_SIZE + 8

  /** The eight bytes the writer puts in front of the user comment. */
  const COMMENT_CODE: seq<byte> := [0x00, 0x00, 0x00, 0x49, 0x49, 0x43, 0x53, 0x41]
  const ASCII_PREFIX: seq<byte> := [0x41, 0x53, 0x43, 0x49, 0x49, 0x00, 0x00, 0x00]
  const TIFF_HEADER: seq<byte> := [0x49, 0x49, 0x2A, 0x00, 0x08, 0x00, 0x00, 0x00]
  const EXIF_LIMIT_SIZE: nat := 64 * 1024

  /** The largest thumbnail whose length fits a C int next to the directories. */
  const MAX_JPEG: nat := 0x7FFF_0000

  /** A string with its terminating NUL. */
  function CString(s: seq<byte>): (r: seq<byte>)
    requires 0 in s
    ensures |r| == StrLen(s) + 1 && r == s[..StrLen(s)] + [0]
  {
    s[..StrLen(s) + 1]
  }

  /** Data: the user comment as it is recorded. */
  function CommentRecord(text: seq<byte>): seq<byte> {
    COMMENT_CODE + text + [0]
  }

  /** The bytes of the record right behind the comment field. */
  function Behind(a: Attributes): (b: seq<byte>)
    ensures |b| == 8
  {
    U32(a.width) + U32(a.height)
  }

  /** How far the recorded comment runs over its field, in which it is put together. */
  function Excess(text: seq<byte>): (n: nat)
    ensures n <= 8
  {
    if |text| + 9 <= COMMENT_SIZE then 0 else if |text| + 9 <= COMMENT_SPAN then |text| + 9 - COMMENT_SIZE else 8
  }

  /** The same bytes once the comment was put together: its end replaces the first of them. */
  function BehindAfter(a: Attributes, text: seq<byte>): (b: seq<byte>)
    ensures |b| == 8
  {
    var r, n := CommentRecord(text), Excess(text);
    r[|r| - n..] + Behind(a)[n..]
  }

  /** The image's width and height as the record holds them behind the recorded comment. */
  function PixelX(a: Attributes, text: seq<byte>): u32 {
    AsU32(BehindAfter(a, text)[..4])
  }

  function PixelY(a: Attributes, text: seq<byte>): u32 {
    AsU32(BehindAfter(a, text)[4..])
  }

  /** The record as the writer leaves it, with whatever the comment made of the two words behind it. */
  function Damaged(a: Attributes, text: seq<byte>): Attributes {
    a.(width := PixelX(a, text), height := PixelY(a, text))
  }

  function MethodRecord(a: Attributes): seq<byte> {
    ASCII_PREFIX + a.gpsProcessingMethod[..StrLen(a.gpsProcessingMethod)]
  }

  function PrimaryFields(a: Attributes, exifAt: u32, gpsAt: u32): seq<Field>
    requires a.Valid()
  {
    [ Field(IMAGE_WIDTH, Longs([a.width]), false),
      Field(IMAGE_HEIGHT, Longs([a.height]), false),
      Field(MAKE, Ascii(CString(a.maker)), true),
      Field(MODEL, Ascii(CString(a.model)), true),
      Field(ORIENTATION, Shorts([a.orientation]), false),
      Field(SOFTWARE, Ascii(CString(a.software)), true),
      Field(DATE_TIME, Ascii(a.dateTime), true),
      Field(YCBCR_POSITIONING, Shorts([a.ycbcrPositioning]), false),
      Field(EXIF_IFD_POINTER, Longs([exifAt]), false) ]
    + if a.enableGps then [Field(GPS_IFD_POINTER, Longs([gpsAt]), false)] else []
  }

  /** The Exif IFD as it is written: the pixel dimensions are read when the comment has been put together. */
  function ExifFields(a: Attributes, text: seq<byte>): seq<Field>
    requires a.Valid()
  {
    ExifFieldsWith(a, text, PixelX(a, text), PixelY(a, text))
  }

  function ExifFieldsWith(a: Attributes, text: seq<byte>, pixelX: u32, pixelY: u32): seq<Field>
    requires a.Valid()
  {
    [ Field(EXPOSURE_TIME, Rationals([a.exposureTime]), true),
      Field(FNUMBER, Rationals([a.fnumber]), true),
      Field(EXPOSURE_PROGRAM, Shorts([a.exposureProgram]), false),
      Field(ISO_SPEED_RATING, Shorts([a.isoSpeedRating]), false),
      Field(EXIF_VERSION, Undefined(a.exifVersion), false),
      Field(DATE_TIME_ORG, Ascii(a.dateTime), true),
      Field(DATE_TIME_DIGITIZE, Ascii(a.dateTime), true),
      Field(SHUTTER_SPEED, SRationals([a.shutterSpeed]), true),
      Field(APERTURE, Rationals([a.aperture]), true),
      Field(BRIGHTNESS, SRationals([a.brightness]), true),
      Field(EXPOSURE_BIAS, SRationals([a.exposureBias]), true),
      Field(MAX_APERTURE, Rationals([a.maxAperture]), true),
      Field(METERING_MODE, Shorts([a.meteringMode]), false),
      Field(FLASH, Shorts([a.flash]), false),
      Field(FOCAL_LENGTH, Rationals([a.focalLength]), true),
      Field(USER_COMMENT, Undefined(CommentRecord(text)), true),
      Field(COLOR_SPACE, Shorts([a.colorSpace]), false),
      Field(PIXEL_X_DIMENSION, Longs([pixelX]), false),
      Field(PIXEL_Y_DIMENSION, Longs([pixelY]), false),
      Field(EXPOSURE_MODE, Longs([a.exposureMode]), false),
      Field(WHITE_BALANCE, Longs([a.whiteBalance]), false),
      Field(SCENE_CAPTURE_TYPE, Longs([a.sceneCaptureType]), false) ]
  }

  function GpsFields(a: Attributes): seq<Field>
    requires a.Valid()
  {
    [ Field(GPS_VERSION_ID, Value.Bytes(a.gpsVersionId), false),
      Field(GPS_LATITUDE_REF, Ascii(a.gpsLatitudeRef), false),
      Field(GPS_LATITUDE, Rationals(a.gpsLatitude), true),
      Field(GPS_LONGITUDE_REF, Ascii(a.gpsLongitudeRef), false),
      Field(GPS_LONGITUDE, Rationals(a.gpsLongitude), true),
      Field(GPS_ALTITUDE_REF, Value.Bytes([a.gpsAltitudeRef]), false),
      Field(GPS_ALTITUDE, Rationals([a.gpsAltitude]), true),
      Field(GPS_TIMESTAMP, Rationals(a.gpsTimestamp), true) ]
    + (if a.gpsProcessingMethod[0] == 0 then []
       else [Field(GPS_PROCESSING_METHOD, Undefined(MethodRecord(a)), true)])
    + [Field(GPS_DATESTAMP, Ascii(a.gpsDatestamp), true)]
  }

  function ThumbnailFields(a: Attributes, jpegAt: u32, jpegLength: u32): seq<Field> {
    [ Field(IMAGE_WIDTH, Longs([a.widthThumb]), false),
      Field(IMAGE_HEIGHT, Longs([a.heightThumb]), false),
      Field(COMPRESSION_SCHEME, Shorts([a.compressionScheme]), false),
      Field(ORIENTATION, Shorts([a.orientation]), false),
      Field(X_RESOLUTION, Rationals([a.xResolution]), true),
      Field(Y_RESOLUTION, Rationals([a.yResolution]), true),
      Field(RESOLUTION_UNIT, Shorts([a.resolutionUnit]), false),
      Field(JPEG_INTERCHANGE_FORMAT, Longs([jpegAt]), false),
      Field(JPEG_INTERCHANGE_FORMAT_LEN, Longs([jpegLength]), false) ]
  }

  // ---------- offsets, relative to the TIFF header ----------

  function ExifAt(a: Attributes): nat
    requires a.Valid()
  {
    8 + DirSize(PrimaryFields(a, 0, 0))
  }

  function GpsAt(a: Attributes, text: seq<byte>): nat
    requires a.Valid()
  {
    ExifAt(a) + DirSize(ExifFields(a, text))
  }

  function ThumbDirAt(a: Attributes, text: seq<byte>): nat
    requires a.Valid()
  {
    GpsAt(a, text) + if a.enableGps then DirSize(GpsFields(a)) else 0
  }

  function JpegAt(a: Attributes, text: seq<byte>): nat
    requires a.Valid()
  {
    ThumbDirAt(a, text) + DirSize(ThumbnailFields(a, 0, 0))
  }

  // ---------- the directories are well formed and small ----------

  /** Every stored value is at most this long. */
  const MAX_PAYLOAD: nat := 160

  predicate Small(f: Field) {
    |Encode(f.value)| <= if f.pooled then MAX_PAYLOAD else 4
  }

  lemma SmallDir(fs: seq<Field>)
    requires (forall f :: f in fs ==> Small(f)) && |fs| <= 22
    ensures DirSize(fs) <= 6 + 172 * |fs|
    ensures forall start: nat :: start < 0x1000_0000 ==> DirOk(start, fs)
  {
    hide Encode;
    PoolBound(fs, MAX_PAYLOAD);
    forall f | f in fs
      ensures FieldOk(f)
    {
      assert Small(f);
      assert Count(f.value) <= |Encode(f.value)|;
    }
  }

  /** The pointers stored in the 0th IFD do not move anything. */
  lemma PrimarySize(a: Attributes, exifAt: u32, gpsAt: u32)
    requires a.Valid()
    ensures |PrimaryFields(a, exifAt, gpsAt)| == if a.enableGps then 10 else 9
    ensures DirSize(PrimaryFields(a, exifAt, gpsAt)) == DirSize(PrimaryFields(a, 0, 0))
  {
    var fs, gs := PrimaryFields(a, exifAt, gpsAt), PrimaryFields(a, 0, 0);
    forall i | 0 <= i < |fs|
      ensures Payload(fs[i]) == Payload(gs[i])
    {
      assert i < 8 ==> fs[i] == gs[i];
    }
    PoolCongruent(fs, gs);
  }

  lemma PrimarySmall(a: Attributes, exifAt: u32, gpsAt: u32)
    requires a.Valid()
    ensures forall f :: f in PrimaryFields(a, exifAt, gpsAt) ==> Small(f)
  {
  }

  lemma ExifSmall(a: Attributes, text: seq<byte>)
    requires a.Valid() && |text| < COMMENT_SIZE
    ensures forall f :: f in ExifFields(a, text) ==> Small(f)
  {
    hide PixelX, PixelY;
  }

  lemma GpsSmall(a: Attributes)
    requires a.Valid()
    ensures forall f :: f in GpsFields(a) ==> Small(f)
  {
  }

  lemma ThumbnailSize(a: Attributes, jpegAt: u32, jpegLength: u32)
    ensures forall f :: f in ThumbnailFields(a, jpegAt, jpegLength) ==> Small(f)
    ensures |ThumbnailFields(a, jpegAt, jpegLength)| == 9
    ensures DirSize(ThumbnailFields(a, jpegAt, jpegLength)) == DirSize(ThumbnailFields(a, 0, 0))
  {
    var fs, gs := ThumbnailFields(a, jpegAt, jpegLength), ThumbnailFields(a, 0, 0);
    forall i | 0 <= i < |fs|
      ensures Payload(fs[i]) == Payload(gs[i])
    {
      assert i < 7 ==> fs[i] == gs[i];
    }
    PoolCongruent(fs, gs);
  }

  /** Without the thumbnail bytes the TIFF part stays far below the scratch buffer of the encoder. */
  lemma OffsetBounds(a: Attributes, text: seq<byte>)
    requires a.Valid() && |text| < COMMENT_SIZE
    ensures ExifAt(a) <= 1800
    ensures ExifAt(a) < GpsAt(a, text) <= 5600
    ensures GpsAt(a, text) <= ThumbDirAt(a, text) <= 7400
    ensures ThumbDirAt(a, text) < JpegAt(a, text) <= 9000
  {
    hide PrimaryFields, ExifFields, GpsFields, ThumbnailFields, Small;
    assert |PrimaryFields(a, 0, 0)| <= 10 && |ExifFields(a, text)| == 22 && |GpsFields(a)| <= 10
      && |ThumbnailFields(a, 0, 0)| == 9 by {
      Lengths(a, text);
    }
    PrimarySmall(a, 0, 0);
    ExifSmall(a, text);
    GpsSmall(a);
    ThumbnailSize(a, 0, 0);
    SmallDir(PrimaryFields(a, 0, 0));
    SmallDir(ExifFields(a, text));
    SmallDir(GpsFields(a));
    SmallDir(ThumbnailFields(a, 0, 0));
  }

  lemma Lengths(a: Attributes, text: seq<byte>)
    requires a.Valid()
    ensures |PrimaryFields(a, 0, 0)| == if a.enableGps then 10 else 9
    ensures |ExifFields(a, text)| == 22
    ensures |GpsFields(a)| == if a.gpsProcessingMethod[0] == 0 then 9 else 10
    ensures |ThumbnailFields(a, 0, 0)| == 9
  {
  }

  // ---------- a comment that runs over its field ----------

  /** The pixel dimensions survive the comment: it stays in its field, or what it overwrites is equal. */
  predicate DimensionsKept(a: Attributes, text: seq<byte>)
    requires |text| < COMMENT_SIZE
  {
    || |text| + 9 <= COMMENT_SIZE
    || CommentRecord(text)[COMMENT_SIZE..] == Behind(a)[..|text| + 9 - COMMENT_SIZE]
  }

  lemma DimensionsExact(a: Attributes, text: seq<byte>)
    requires |text| < COMMENT_SIZE
    ensures PixelX(a, text) == a.width && PixelY(a, text) == a.height <==> DimensionsKept(a, text)
  {
    hide U32, AsU32, CommentRecord;
    var r, n := CommentRecord(text), Excess(text);
    RecordLength(text);
    var b, c := BehindAfter(a, text), Behind(a);
    assert b == r[|r| - n..] + c[n..] && c == c[..n] + c[n..];
    WordsEqual(b, a.width, a.height);
    if b == c {
      assert r[|r| - n..] == b[..n] == c[..n];
    }
    if 0 < n {
      assert |r| - n == COMMENT_SIZE;
    } else {
      assert r[|r|..] == [];
    }
  }

  lemma RecordLength(text: seq<byte>)
    ensures |CommentRecord(text)| == |text| + 9
  {
  }

  /** Two words read from eight bytes are the given ones exactly when the bytes are theirs. */
  lemma WordsEqual(b: seq<byte>, x: u32, y: u32)
    requires |b| == 8
    ensures AsU32(b[..4]) == x && AsU32(b[4..]) == y <==> b == U32(x) + U32(y)
  {
    AsU32Inverse(x);
    AsU32Inverse(y);
    U32Inverse(b[..4]);
    U32Inverse(b[4..]);
    hide U32, AsU32;
    assert b == b[..4] + b[4..];
    assert (U32(x) + U32(y))[..4] == U32(x) && (U32(x) + U32(y))[4..] == U32(y);
  }
}
