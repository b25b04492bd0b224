/** A small reader of the TIFF 6.0 image file structure (Section 2), little-endian files only. */
module Tiff {
  import opened Bytes

  datatype Rational = Rational(num: u32, den: u32)
  datatype SRational = SRational(num: i32, den: i32)

  /** A field value: the constructor is the TIFF type, the length of its list the TIFF count. */
  datatype Value =
    | Bytes(b: seq<byte>)
    | Ascii(s: seq<byte>)
    | Shorts(ss: seq<u16>)
    | Longs(ls: seq<u32>)
    | Rationals(rs: seq<Rational>)
    | Undefined(u: seq<byte>)
    | SRationals(srs: seq<SRational>)

  datatype Entry = Entry(tag: u16, value: Value)

  datatype Ifd = Ifd(entries: seq<Entry>, next: u32)

  /** Everything reachable from the header: 0th IFD, Exif IFD, GPS IFD, 1st IFD and its JPEG bytes. */
  datatype Document = Document(
    primary: Ifd, exif: Option<Ifd>, gps: Option<Ifd>, thumbnail: Option<(Ifd, seq<byte>)>)

  const TYPE_BYTE: u16 := 1
  const TYPE_ASCII: u16 := 2
  const TYPE_SHORT: u16 := 3
  const TYPE_LONG: u16 := 4
  const TYPE_RATIONAL: u16 := 5
  const TYPE_UNDEFINED: u16 := 7
  const TYPE_SRATIONAL: u16 := 10

  const TAG_EXIF_IFD: u16 := 0x8769
  const TAG_GPS_IFD: u16 := 0x8825
  const TAG_JPEG_OFFSET: u16 := 0x0201
  const TAG_JPEG_LENGTH: u16 := 0x0202

  predicate Known(kind: u16) {
    kind in {TYPE_BYTE, TYPE_ASCII, TYPE_SHORT, TYPE_LONG, TYPE_RATIONAL, TYPE_UNDEFINED, TYPE_SRATIONAL}
  }

  /** Size in bytes of `count` values of a known type. */
  function Size(kind: u16, count: nat): nat {
    if kind == TYPE_SHORT then 2 * count
    else if kind == TYPE_LONG then 4 * count
    else if kind == TYPE_RATIONAL || kind == TYPE_SRATIONAL then 8 * count
    else count
  }

  function ReadShorts(b: seq<byte>, n: nat): seq<u16>
    requires |b| == 2 * n
  {
    if n == 0 then [] else [AsU16(b[..2])] + ReadShorts(b[2..], n - 1)
  }

  function ReadLongs(b: seq<byte>, n: nat): seq<u32>
    requires |b| == 4 * n
  {
    if n == 0 then [] else [AsU32(b[..4])] + ReadLongs(b[4..], n - 1)
  }

  function ReadRationals(b: seq<byte>, n: nat): seq<Rational>
    requires |b| == 8 * n
  {
    if n == 0 then [] else [Rational(AsU32(b[..4]), AsU32(b[4..8]))] + ReadRationals(b[8..], n - 1)
  }

  function ReadSRationals(b: seq<byte>, n: nat): seq<SRational>
    requires |b| == 8 * n
  {
    if n == 0 then [] else [SRational(AsI32(b[..4]), AsI32(b[4..8]))] + ReadSRationals(b[8..], n - 1)
  }

  function Decode(kind: u16, count: nat, b: seq<byte>): Value
    requires Known(kind) && |b| == Size(kind, count)
  {
    if kind == TYPE_BYTE then Bytes(b)
    else if kind == TYPE_ASCII then Ascii(b)
    else if kind == TYPE_SHORT then Shorts(ReadShorts(b, count))
    else if kind == TYPE_LONG then Longs(ReadLongs(b, count))
    else if kind == TYPE_RATIONAL then Rationals(ReadRationals(b, count))
    else if kind == TYPE_UNDEFINED then Undefined(b)
    else SRationals(ReadSRationals(b, count))
  }

  /** One 12-byte entry: a value of at most four bytes sits in the entry, a longer one at an offset. */
  function ReadEntry(t: seq<byte>, at: nat): Option<Entry> {
    if at + 12 > |t| then None
    else
      var tag := AsU16(t[at..at + 2]);
      var kind := AsU16(t[at + 2..at + 4]);
      var count := AsU32(t[at + 4..at + 8]);
      var size := Size(kind, count);
      if !Known(kind) then None
      else if size <= 4 then Some(Entry(tag, Decode(kind, count, t[at + 8..at + 8 + size])))
      else
        var off := AsU32(t[at + 8..at + 12]);
        if off + size > |t| then None
        else Some(Entry(tag, Decode(kind, count, t[off..off + size])))
  }

  function ReadEntries(t: seq<byte>, at: nat, n: nat): Option<seq<Entry>>
    decreases n
  {
    if n == 0 then Some([])
    else
      match ReadEntry(t, at)
      case None => None
      case Some(e) =>
        match ReadEntries(t, at + 12, n - 1)
        case None => None
        case Some(es) => Some([e] + es)
  }

  function ReadIfd(t: seq<byte>, at: nat): Option<Ifd> {
    if at + 2 > |t| then None
    else
      var n := AsU16(t[at..at + 2]);
      if at + 2 + 12 * n + 4 > |t| then None
      else
        match ReadEntries(t, at + 2, n)
        case None => None
        case Some(es) => Some(Ifd(es, AsU32(t[at + 2 + 12 * n..at + 2 + 12 * n + 4])))
  }

  /** The single LONG stored under a tag, if the directory has one. */
  function FindLong(es: seq<Entry>, tag: u16): Option<u32> {
    if es == [] then None
    else if es[0].tag == tag then
      if es[0].value.Longs? && |es[0].value.ls| == 1 then Some(es[0].value.ls[0]) else None
    else FindLong(es[1..], tag)
  }

  /** Follows a pointer entry: no entry gives Some(None), a broken directory None. */
  function Follow(t: seq<byte>, es: seq<Entry>, tag: u16): Option<Option<Ifd>> {
    match FindLong(es, tag)
    case None => Some(None)
    case Some(off) =>
      match ReadIfd(t, off)
      case None => None
      case Some(d) => Some(Some(d))
  }

  function ReadThumbnail(t: seq<byte>, next: u32): Option<Option<(Ifd, seq<byte>)>> {
    if next == 0 then Some(None)
    else
      match ReadIfd(t, next)
      case None => None
      case Some(d) =>
        match (FindLong(d.entries, TAG_JPEG_OFFSET), FindLong(d.entries, TAG_JPEG_LENGTH))
        case (Some(off), Some(len)) =>
          if off + len <= |t| then Some(Some((d, t[off..off + len]))) else None
        case _ => None
  }

  function ReadDocument(t: seq<byte>): Option<Document> {
    if |t| < 8 || t[..4] != [0x49, 0x49, 0x2A, 0x00] then None
    else
      match ReadIfd(t, AsU32(t[4..8]))
      case None => None
      case Some(d0) =>
        match (Follow(t, d0.entries, TAG_EXIF_IFD), Follow(t, d0.entries, TAG_GPS_IFD), ReadThumbnail(t, d0.next))
        case (Some(x), Some(g), Some(th)) => Some(Document(d0, x, g, th))
        case _ => None
  }
}
