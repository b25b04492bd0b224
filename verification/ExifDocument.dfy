/** What Exif 2.2 sections 4.6.4 to 4.6.6 want to find under which tag, as a reader finds it: the entries that a
    record stands for, with the numbers and bytes of the standard written out. */
module ExifDocument {
  import opened Bytes
  import opened Tiff
  import opened ExifLayout
  import opened ExifTags
  import opened ExifRecord

  /** 0th IFD. */
  function PrimaryEntries(a: Attributes, exifAt: u32, gpsAt: u32): seq<Entry>
    requires a.Valid()
  {
    [ Entry(0x0100, Longs([a.width])),
      Entry(0x0101, Longs([a.height])),
      Entry(0x010F, Ascii(a.maker[..StrLen(a.maker)] + [0])),
      Entry(0x0110, Ascii(a.model[..StrLen(a.model)] + [0])),
      Entry(0x0112, Shorts([a.orientation])),
      Entry(0x0131, Ascii(a.software[..StrLen(a.software)] + [0])),
      Entry(0x0132, Ascii(a.dateTime)),
      Entry(0x0213, Shorts([a.ycbcrPositioning])),
      Entry(0x8769, Longs([exifAt])) ]
    + if a.enableGps then [Entry(0x8825, Longs([gpsAt]))] else []
  }

  /** Exif IFD. The character code of the comment is "ASCII" spelled backwards, behind three NULs; the last three
      values are stored as LONG, for which the standard has SHORT. */
  function ExifEntries(a: Attributes, text: seq<byte>): seq<Entry>
    requires a.Valid()
  {
    [ Entry(0x829A, Rationals([a.exposureTime])),
      Entry(0x829D, Rationals([a.fnumber])),
      Entry(0x8822, Shorts([a.exposureProgram])),
      Entry(0x8827, Shorts([a.isoSpeedRating])),
      Entry(0x9000, Undefined(a.exifVersion)),
      Entry(0x9003, Ascii(a.dateTime)),
      Entry(0x9004, Ascii(a.dateTime)),
      Entry(0x9201, SRationals([a.shutterSpeed])),
      Entry(0x9202, Rationals([a.aperture])),
      Entry(0x9203, SRationals([a.brightness])),
      Entry(0x9204, SRationals([a.exposureBias])),
      Entry(0x9205, Rationals([a.maxAperture])),
      Entry(0x9207, Shorts([a.meteringMode])),
      Entry(0x9209, Shorts([a.flash])),
      Entry(0x920A, Rationals([a.focalLength])),
      Entry(0x9286, Undefined([0x00, 0x00, 0x00, 0x49, 0x49, 0x43, 0x53, 0x41] + text + [0])),
      Entry(0xA001, Shorts([a.colorSpace])),
      Entry(0xA002, Longs([a.width])),
      Entry(0xA003, Longs([a.height])),
      Entry(0xA402, Longs([a.exposureMode])),
      Entry(0xA403, Longs([a.whiteBalance])),
      Entry(0xA406, Longs([a.sceneCaptureType])) ]
  }

  /** GPS IFD. The processing method has the character code "ASCII" in front and no NUL behind it. */
  function GpsEntries(a: Attributes): seq<Entry>
    requires a.Valid()
  {
    var m := a.gpsProcessingMethod;
    [ Entry(0x0000, Value.Bytes(a.gpsVersionId)),
      Entry(0x0001, Ascii(a.gpsLatitudeRef)),
      Entry(0x0002, Rationals(a.gpsLatitude)),
      Entry(0x0003, Ascii(a.gpsLongitudeRef)),
      Entry(0x0004, Rationals(a.gpsLongitude)),
      Entry(0x0005, Value.Bytes([a.gpsAltitudeRef])),
      Entry(0x0006, Rationals([a.gpsAltitude])),
      Entry(0x0007, Rationals(a.gpsTimestamp)) ]
    + (if m[0] == 0 then []
       else [Entry(0x001B, Undefined([0x41, 0x53, 0x43, 0x49, 0x49, 0x00, 0x00, 0x00] + m[..StrLen(m)]))])
    + [Entry(0x001D, Ascii(a.gpsDatestamp))]
  }

  /** 1st IFD. */
  function ThumbnailEntries(a: Attributes, jpegAt: u32, jpegLength: u32): seq<Entry> {
    [ Entry(0x0100, Longs([a.widthThumb])),
      Entry(0x0101, Longs([a.heightThumb])),
      Entry(0x0103, Shorts([a.compressionScheme])),
      Entry(0x0112, Shorts([a.orientation])),
      Entry(0x011A, Rationals([a.xResolution])),
      Entry(0x011B, Rationals([a.yResolution])),
      Entry(0x0128, Shorts([a.resolutionUnit])),
      Entry(0x0201, Longs([jpegAt])),
      Entry(0x0202, Longs([jpegLength])) ]
  }

  lemma PrimaryStands(a: Attributes, exifAt: u32, gpsAt: u32)
    requires a.Valid()
    ensures Plain(PrimaryFields(a, exifAt, gpsAt)) == PrimaryEntries(a, exifAt, gpsAt)
  {
  }

  lemma ExifStands(a: Attributes, text: seq<byte>)
    requires a.Valid()
    ensures Plain(ExifFieldsWith(a, text, a.width, a.height)) == ExifEntries(a, text)
  {
  }

  lemma GpsStands(a: Attributes)
    requires a.Valid()
    ensures Plain(GpsFields(a)) == GpsEntries(a)
  {
  }

  lemma ThumbnailStands(a: Attributes, jpegAt: u32, jpegLength: u32)
    ensures Plain(ThumbnailFields(a, jpegAt, jpegLength)) == ThumbnailEntries(a, jpegAt, jpegLength)
  {
  }

  /** The type codes of TIFF 6.0 Section 2 and Exif 2.2 section 4.6.2, in the bytes of an entry. */
  lemma TypeCodes(f: Field, off: int)
    ensures EntryBytes(f, off)[3] == 0
    ensures EntryBytes(f, off)[2] ==
      match f.value
      case Bytes(_) => 1
      case Ascii(_) => 2
      case Shorts(_) => 3
      case Longs(_) => 4
      case Rationals(_) => 5
      case Undefined(_) => 7
      case SRationals(_) => 10
  {
    hide U16, U32, Slot;
    var kind := U16(Kind(f.value));
    assert EntryBytes(f, off)[2] == kind[0] && EntryBytes(f, off)[3] == kind[1];
    SmallWord(Kind(f.value));
  }

  lemma SmallWord(n: nat)
    requires n < 0x100
    ensures U16(n)[0] as int == n && U16(n)[1] == 0
  {
  }
}
