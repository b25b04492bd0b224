/** Byte layout of the directories the EXIF writer produces, and the proof that the reader undoes it. */
module ExifLayout {
  import opened Bytes
  import opened Tiff

  /** A directory field; `pooled` when the writer stores the value in the pool behind the directory. */
  datatype Field = Field(tag: u16, value: Value, pooled: bool)

  function Kind(v: Value): (k: u16)
    ensures Known(k)
  {
    match v
    case Bytes(_) => TYPE_BYTE
    case Ascii(_) => TYPE_ASCII
    case Shorts(_) => TYPE_SHORT
    case Longs(_) => TYPE_LONG
    case Rationals(_) => TYPE_RATIONAL
    case Undefined(_) => TYPE_UNDEFINED
    case SRationals(_) => TYPE_SRATIONAL
  }

  function Count(v: Value): nat {
    match v
    case Bytes(b) => |b|
    case Ascii(s) => |s|
    case Shorts(ss) => |ss|
    case Longs(ls) => |ls|
    case Rationals(rs) => |rs|
    case Undefined(u) => |u|
    case SRationals(rs) => |rs|
  }

  function ShortBytes(ss: seq<u16>): (b: seq<byte>)
    ensures |b| == 2 * |ss|
  {
    if ss == [] then [] else U16(ss[0]) + ShortBytes(ss[1..])
  }

  function LongBytes(ls: seq<u32>): (b: seq<byte>)
    ensures |b| == 4 * |ls|
  {
    if ls == [] then [] else U32(ls[0]) + LongBytes(ls[1..])
  }

  function RationalBytes(rs: seq<Rational>): (b: seq<byte>)
    ensures |b| == 8 * |rs|
  {
    if rs == [] then [] else U32(rs[0].num) + U32(rs[0].den) + RationalBytes(rs[1..])
  }

  function SRationalBytes(rs: seq<SRational>): (b: seq<byte>)
    ensures |b| == 8 * |rs|
  {
    if rs == [] then [] else U32(rs[0].num) + U32(rs[0].den) + SRationalBytes(rs[1..])
  }

  function Encode(v: Value): (b: seq<byte>)
    ensures |b| == Size(Kind(v), Count(v))
  {
    match v
    case Bytes(b) => b
    case Ascii(s) => s
    case Shorts(ss) => ShortBytes(ss)
    case Longs(ls) => LongBytes(ls)
    case Rationals(rs) => RationalBytes(rs)
    case Undefined(u) => u
    case SRationals(rs) => SRationalBytes(rs)
  }

  lemma {:induction false} ReadShortsInverse(ss: seq<u16>)
    ensures ReadShorts(ShortBytes(ss), |ss|) == ss
  {
    if ss != [] {
      var b := ShortBytes(ss);
      AsU16Inverse(ss[0]);
      assert b[..2] == U16(ss[0]) && b[2..] == ShortBytes(ss[1..]);
      ReadShortsInverse(ss[1..]);
    }
  }

  lemma {:induction false} ReadLongsInverse(ls: seq<u32>)
    ensures ReadLongs(LongBytes(ls), |ls|) == ls
  {
    if ls != [] {
      var b := LongBytes(ls);
      AsU32Inverse(ls[0]);
      assert b[..4] == U32(ls[0]) && b[4..] == LongBytes(ls[1..]);
      ReadLongsInverse(ls[1..]);
    }
  }

  lemma {:induction false} ReadRationalsInverse(rs: seq<Rational>)
    ensures ReadRationals(RationalBytes(rs), |rs|) == rs
  {
    if rs != [] {
      var b := RationalBytes(rs);
      AsU32Inverse(rs[0].num);
      AsU32Inverse(rs[0].den);
      assert b[..4] == U32(rs[0].num) && b[4..8] == U32(rs[0].den) && b[8..] == RationalBytes(rs[1..]);
      ReadRationalsInverse(rs[1..]);
    }
  }

  lemma {:induction false} ReadSRationalsInverse(rs: seq<SRational>)
    ensures ReadSRationals(SRationalBytes(rs), |rs|) == rs
  {
    if rs != [] {
      var b := SRationalBytes(rs);
      AsI32Inverse(rs[0].num);
      AsI32Inverse(rs[0].den);
      assert b[..4] == U32(rs[0].num) && b[4..8] == U32(rs[0].den) && b[8..] == SRationalBytes(rs[1..]);
      ReadSRationalsInverse(rs[1..]);
    }
  }

  /** Decoding undoes encoding for every value of every type. */
  lemma DecodeInverse(v: Value)
    ensures Decode(Kind(v), Count(v), Encode(v)) == v
  {
    match v
    case Shorts(ss) => ReadShortsInverse(ss);
    case Longs(ls) => ReadLongsInverse(ls);
    case Rationals(rs) => ReadRationalsInverse(rs);
    case SRationals(rs) => ReadSRationalsInverse(rs);
    case _ =>
  }

  function Payload(f: Field): seq<byte> {
    if f.pooled then Encode(f.value) else []
  }

  predicate FieldOk(f: Field) {
    && Count(f.value) < 0x1_0000_0000
    && (!f.pooled ==> |Encode(f.value)| <= 4)
  }

  /** The four value bytes of an entry: the offset of a pooled value, otherwise the value zero-padded. */
  function Slot(f: Field, off: int): (b: seq<byte>)
    ensures |b| == 4
  {
    if f.pooled then U32(off) else (Encode(f.value) + [0, 0, 0, 0])[..4]
  }

  function EntryBytes(f: Field, off: int): (b: seq<byte>)
    ensures |b| == 12
  {
    U16(f.tag) + U16(Kind(f.value)) + U32(Count(f.value)) + Slot(f, off)
  }

  /** The value pool: the pooled values one after the other. */
  function Pool(fs: seq<Field>): seq<byte> {
    if fs == [] then [] else Payload(fs[0]) + Pool(fs[1..])
  }

  /** The entries of a directory whose pool starts at offset `off`. */
  function Entries(fs: seq<Field>, off: nat): (b: seq<byte>)
    ensures |b| == 12 * |fs|
  {
    if fs == [] then [] else EntryBytes(fs[0], off) + Entries(fs[1..], off + |Payload(fs[0])|)
  }

  lemma EntriesCons(fs: seq<Field>, off: nat)
    ensures fs == [] ==> Entries(fs, off) == []
    ensures fs != [] ==> Entries(fs, off) == EntryBytes(fs[0], off) + Entries(fs[1..], off + |Payload(fs[0])|)
  {
  }

  lemma {:induction false} PoolAppend(fs: seq<Field>, gs: seq<Field>)
    ensures Pool(fs + gs) == Pool(fs) + Pool(gs)
  {
    hide Payload;
    if fs == [] {
      assert fs + gs == gs;
    } else {
      assert (fs + gs)[1..] == fs[1..] + gs;
      PoolAppend(fs[1..], gs);
      Associative(Payload(fs[0]), Pool(fs[1..]), Pool(gs));
    }
  }

  lemma {:induction false} EntriesAppend(fs: seq<Field>, g: Field, off: nat)
    ensures Entries(fs + [g], off) == Entries(fs, off) + EntryBytes(g, off + |Pool(fs)|)
  {
    hide EntryBytes, Payload;
    if fs == [] {
      assert fs + [g] == [g];
    } else {
      var n := |Payload(fs[0])|;
      assert (fs + [g])[1..] == fs[1..] + [g];
      EntriesAppend(fs[1..], g, off + n);
      EntriesCons(fs + [g], off);
      Associative(EntryBytes(fs[0], off), Entries(fs[1..], off + n), EntryBytes(g, off + |Pool(fs)|));
    }
  }

  /** Pools depend on the payloads only, so a pointer field may change without moving anything. */
  lemma {:induction false} PoolCongruent(fs: seq<Field>, gs: seq<Field>)
    requires |fs| == |gs| && forall i :: 0 <= i < |fs| ==> Payload(fs[i]) == Payload(gs[i])
    ensures Pool(fs) == Pool(gs)
  {
    if fs != [] {
      PoolCongruent(fs[1..], gs[1..]);
    }
  }

  lemma {:induction false} PoolBound(fs: seq<Field>, bound: nat)
    requires forall f :: f in fs ==> |Payload(f)| <= bound
    ensures |Pool(fs)| <= bound * |fs|
  {
    hide Payload;
    if fs != [] {
      PoolBound(fs[1..], bound);
      OnceMore(bound, |fs| - 1);
    }
  }

  lemma OnceMore(bound: nat, n: nat)
    ensures bound * (n + 1) == bound * n + bound
  {
  }

  /** What a reader sees of a field: a pooled value that would have fitted in the entry is misread,
      because the reader takes the leading offset bytes for the value. */
  function Seen(f: Field, off: int): Entry {
    var b := Encode(f.value);
    if f.pooled && |b| <= 4
    then Entry(f.tag, Decode(Kind(f.value), Count(f.value), U32(off)[..|b|]))
    else Entry(f.tag, f.value)
  }

  function SeenAll(fs: seq<Field>, off: nat): (es: seq<Entry>)
    ensures |es| == |fs|
  {
    if fs == [] then [] else [Seen(fs[0], off)] + SeenAll(fs[1..], off + |Payload(fs[0])|)
  }

  lemma ReadEntryInverse(t: seq<byte>, at: nat, f: Field, off: u32)
    requires FieldOk(f)
    requires at + 12 <= |t| && t[at..at + 12] == EntryBytes(f, off)
    requires off + |Payload(f)| <= |t| && t[off..off + |Payload(f)|] == Payload(f)
    ensures ReadEntry(t, at) == Some(Seen(f, off))
  {
    hide U16, U32, AsU16, AsU32, Decode;
    var v := f.value;
    var size := |Encode(v)|;
    AsU16Inverse(f.tag);
    AsU16Inverse(Kind(v));
    AsU32Inverse(Count(v));
    AsU32Inverse(off);
    SliceOfSum(t, at, U16(f.tag) + U16(Kind(v)) + U32(Count(v)), Slot(f, off));
    SliceOfSum(t, at, U16(f.tag) + U16(Kind(v)), U32(Count(v)));
    SliceOfSum(t, at, U16(f.tag), U16(Kind(v)));
    if size <= 4 {
      assert t[at + 8..at + 8 + size] == Slot(f, off)[..size];
      if !f.pooled {
        assert Slot(f, off)[..size] == Encode(v);
      }
    }
    DecodeInverse(v);
  }

  /** The bytes of `fs` are found at `at` (entries) and `off` (pool). */
  predicate Holds(t: seq<byte>, at: nat, fs: seq<Field>, off: nat) {
    && at + 12 * |fs| <= |t| && t[at..at + 12 * |fs|] == Entries(fs, off)
    && off + |Pool(fs)| <= |t| && t[off..off + |Pool(fs)|] == Pool(fs)
  }

  lemma HoldsHead(t: seq<byte>, at: nat, fs: seq<Field>, off: nat)
    requires fs != [] && Holds(t, at, fs, off)
    ensures at + 12 <= |t| && t[at..at + 12] == EntryBytes(fs[0], off)
    ensures off + |Payload(fs[0])| <= |t| && t[off..off + |Payload(fs[0])|] == Payload(fs[0])
    ensures Holds(t, at + 12, fs[1..], off + |Payload(fs[0])|)
  {
    hide EntryBytes, Payload;
    SliceOfSum(t, at, EntryBytes(fs[0], off), Entries(fs[1..], off + |Payload(fs[0])|));
    SliceOfSum(t, off, Payload(fs[0]), Pool(fs[1..]));
  }

  lemma {:induction false} ReadEntriesInverse(t: seq<byte>, at: nat, fs: seq<Field>, off: nat)
    requires forall f :: f in fs ==> FieldOk(f)
    requires off + |Pool(fs)| < 0x1_0000_0000
    requires Holds(t, at, fs, off)
    ensures ReadEntries(t, at, |fs|) == Some(SeenAll(fs, off))
    decreases |fs|
  {
    hide Holds, ReadEntry, Seen, EntryBytes, Payload, FieldOk;
    if fs != [] {
      var n := |Payload(fs[0])|;
      HoldsHead(t, at, fs, off);
      assert ReadEntry(t, at) == Some(Seen(fs[0], off)) by {
        ReadEntryInverse(t, at, fs[0], off);
      }
      assert ReadEntries(t, at + 12, |fs| - 1) == Some(SeenAll(fs[1..], off + n)) by {
        ReadEntriesInverse(t, at + 12, fs[1..], off + n);
      }
    }
  }

  /** Size of a directory with its pool. */
  function DirSize(fs: seq<Field>): nat {
    2 + 12 * |fs| + 4 + |Pool(fs)|
  }

  /** Offset of the pool of a directory that starts at `start`. */
  function PoolStart(start: nat, fs: seq<Field>): nat {
    start + 2 + 12 * |fs| + 4
  }

  predicate DirOk(start: nat, fs: seq<Field>) {
    (forall f :: f in fs ==> FieldOk(f)) && |fs| < 0x1_0000 && start + DirSize(fs) < 0x1_0000_0000
  }

  /** A whole directory: entry count, entries, next-IFD offset, pool. */
  function DirBytes(start: nat, fs: seq<Field>, next: u32): (b: seq<byte>)
    ensures |b| == DirSize(fs)
  {
    U16(|fs|) + Entries(fs, PoolStart(start, fs)) + U32(next) + Pool(fs)
  }

  function DirSeen(start: nat, fs: seq<Field>, next: u32): Ifd {
    Ifd(SeenAll(fs, PoolStart(start, fs)), next)
  }

  /** The reader recovers a directory from any file that holds its bytes. */
  lemma ReadIfdInverse(t: seq<byte>, start: nat, fs: seq<Field>, next: u32)
    requires DirOk(start, fs)
    requires start + DirSize(fs) <= |t| && t[start..start + DirSize(fs)] == DirBytes(start, fs, next)
    ensures ReadIfd(t, start) == Some(DirSeen(start, fs, next))
  {
    hide U16, U32, AsU16, AsU32, FieldOk;
    var off := PoolStart(start, fs);
    AsU16Inverse(|fs|);
    AsU32Inverse(next);
    SliceOfSum(t, start, U16(|fs|) + Entries(fs, off) + U32(next), Pool(fs));
    SliceOfSum(t, start, U16(|fs|) + Entries(fs, off), U32(next));
    SliceOfSum(t, start, U16(|fs|), Entries(fs, off));
    ReadEntriesInverse(t, start + 2, fs, off);
  }

  /** A field whose value the reader gets back: stored in the entry, or too long for it. */
  predicate Faithful(f: Field) {
    f.pooled ==> |Encode(f.value)| > 4
  }

  function Plain(fs: seq<Field>): (es: seq<Entry>)
    ensures |es| == |fs|
    ensures forall i :: 0 <= i < |fs| ==> es[i] == Entry(fs[i].tag, fs[i].value)
  {
    seq(|fs|, i requires 0 <= i < |fs| => Entry(fs[i].tag, fs[i].value))
  }

  lemma {:induction false} SeenIsPlain(fs: seq<Field>, off: nat)
    requires forall i :: 0 <= i < |fs| ==> Faithful(fs[i])
    ensures SeenAll(fs, off) == Plain(fs)
  {
    hide Payload, Decode;
    if fs != [] {
      SeenIsPlain(fs[1..], off + |Payload(fs[0])|);
      assert Faithful(fs[0]);
      assert Plain(fs) == [Entry(fs[0].tag, fs[0].value)] + Plain(fs[1..]);
    }
  }

  lemma {:induction false} SeenTags(fs: seq<Field>, off: nat)
    ensures forall i :: 0 <= i < |fs| ==> SeenAll(fs, off)[i].tag == fs[i].tag
    ensures forall i :: 0 <= i < |fs| && !fs[i].pooled ==> SeenAll(fs, off)[i].value == fs[i].value
  {
    hide Decode, Encode, Payload;
    if fs != [] {
      SeenTags(fs[1..], off + |Payload(fs[0])|);
    }
  }

  /** The reader finds a pointer field under its tag. */
  lemma {:induction false} FindLongAt(es: seq<Entry>, tag: u16, i: nat, x: u32)
    requires i < |es| && es[i] == Entry(tag, Longs([x]))
    requires forall j :: 0 <= j < i ==> es[j].tag != tag
    ensures FindLong(es, tag) == Some(x)
  {
    if i > 0 {
      FindLongAt(es[1..], tag, i - 1, x);
    }
  }

  lemma {:induction false} FindLongNone(es: seq<Entry>, tag: u16)
    requires forall j :: 0 <= j < |es| ==> es[j].tag != tag
    ensures FindLong(es, tag) == None
  {
    if es != [] {
      FindLongNone(es[1..], tag);
    }
  }

  lemma {:induction false} SeenAt(fs: seq<Field>, off: nat, i: nat)
    requires i < |fs|
    ensures |Pool(fs[..i])| <= |Pool(fs)|
    ensures SeenAll(fs, off)[i] == Seen(fs[i], off + |Pool(fs[..i])|)
  {
    hide Seen, Payload;
    if i > 0 {
      assert fs[..i][1..] == fs[1..][..i - 1];
      SeenAt(fs[1..], off + |Payload(fs[0])|, i - 1);
    }
  }
}
