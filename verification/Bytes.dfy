/** Bytes, little-endian integers and the C memory primitives of the camera HAL. */
module Bytes {

  newtype byte = x: int | 0 <= x < 0x100
  type u16 = x: int | 0 <= x < 0x1_0000
  type u32 = x: int | 0 <= x < 0x1_0000_0000
  type i32 = x: int | -0x8000_0000 <= x < 0x8000_0000

  datatype Option<+T> = None | Some(value: T)

  /** memcpy of the low two bytes of an integer, least significant first. */
  function U16(x: int): (b: seq<byte>)
    ensures |b| == 2
  {
    [(x % 0x100) as byte, (x / 0x100 % 0x100) as byte]
  }

  function AsU16(b: seq<byte>): u16
    requires |b| == 2
  {
    (b[0] as int) + 0x100 * (b[1] as int)
  }

  lemma AsU16Inverse(x: u16)
    ensures AsU16(U16(x)) == x
  {
  }

  /** memcpy of the low four bytes of an integer, least significant first. */
  function U32(x: int): (b: seq<byte>)
    ensures |b| == 4
  {
    U16(x % 0x1_0000) + U16(x / 0x1_0000)
  }

  function AsU32(b: seq<byte>): u32
    requires |b| == 4
  {
    (AsU16(b[..2]) as int) + 0x1_0000 * (AsU16(b[2..]) as int)
  }

  lemma AsU32Inverse(x: u32)
    ensures AsU32(U32(x)) == x
  {
    assert U32(x)[..2] == U16(x % 0x1_0000) && U32(x)[2..] == U16(x / 0x1_0000);
    AsU16Inverse(x % 0x1_0000);
    AsU16Inverse(x / 0x1_0000);
  }

  lemma U32Inverse(b: seq<byte>)
    requires |b| == 4
    ensures U32(AsU32(b)) == b
  {
    var lo, hi := AsU16(b[..2]) as int, AsU16(b[2..]) as int;
    assert (lo + 0x1_0000 * hi) % 0x1_0000 == lo && (lo + 0x1_0000 * hi) / 0x1_0000 == hi;
    U16Inverse(b[..2]);
    U16Inverse(b[2..]);
  }

  lemma U16Inverse(b: seq<byte>)
    requires |b| == 2
    ensures U16(AsU16(b)) == b
  {
  }

  /** The signed reading of the same four bytes. */
  function AsI32(b: seq<byte>): i32
    requires |b| == 4
  {
    if AsU32(b) < 0x8000_0000 then AsU32(b) else AsU32(b) - 0x1_0000_0000
  }

  lemma U16Period(y: int)
    ensures U16(y + 0x1_0000) == U16(y)
  {
    assert (y + 0x1_0000) / 0x100 == y / 0x100 + 0x100;
  }

  /** A negative number and its two's complement word have the same bytes. */
  lemma WordBytes(x: i32)
    ensures U32(if x < 0 then x + 0x1_0000_0000 else x) == U32(x)
  {
    hide U16;
    assert (x + 0x1_0000_0000) % 0x1_0000 == x % 0x1_0000;
    assert (x + 0x1_0000_0000) / 0x1_0000 == x / 0x1_0000 + 0x1_0000;
    U16Period(x / 0x1_0000);
  }

  lemma AsI32Inverse(x: i32)
    ensures AsI32(U32(x)) == x
  {
    WordBytes(x);
    AsU32Inverse(if x < 0 then x + 0x1_0000_0000 else x);
  }

  /** Length of the NUL-terminated string held in a field; the whole field when there is no NUL. */
  function StrLen(s: seq<byte>): (n: nat)
    ensures n <= |s| && 0 !in s[..n]
    ensures n < |s| ==> s[n] == 0
    ensures 0 in s <==> n < |s|
  {
    if s == [] || s[0] == 0 then 0 else 1 + StrLen(s[1..])
  }

  /** Cutting a piece out of a slice. */
  lemma SubSlice<T>(s: seq<T>, lo: nat, hi: nat, i: nat, j: nat)
    requires i <= j && lo + j <= hi <= |s|
    ensures s[lo..hi][i..j] == s[lo + i..lo + j]
  {
    forall k | 0 <= k < j - i
      ensures s[lo..hi][i..j][k] == s[lo + i..lo + j][k]
    {
      assert s[lo..hi][i..j][k] == s[lo..hi][i + k];
    }
  }

  lemma Associative<T>(a: seq<T>, b: seq<T>, c: seq<T>)
    ensures a + (b + c) == (a + b) + c
  {
  }

  /** The two halves of a concatenation found in a file. */
  lemma SliceOfSum<T>(t: seq<T>, at: nat, a: seq<T>, b: seq<T>)
    requires at + |a| + |b| <= |t| && t[at..at + |a| + |b|] == a + b
    ensures t[at..at + |a|] == a
    ensures t[at + |a|..at + |a| + |b|] == b
  {
    SubSlice(t, at, at + |a| + |b|, 0, |a|);
    SubSlice(t, at, at + |a| + |b|, |a|, |a| + |b|);
  }

  /** The memory after `b` was stored from index `at` on. */
  function Overwrite(m: seq<byte>, at: nat, b: seq<byte>): (r: seq<byte>)
    requires at + |b| <= |m|
    ensures |r| == |m|
    ensures r[at..at + |b|] == b
    ensures r[..at] == m[..at] && r[at + |b|..] == m[at + |b|..]
  {
    m[..at] + b + m[at + |b|..]
  }

  /** A slice that the stored range does not touch keeps its contents. */
  lemma OverwriteApart(m: seq<byte>, at: nat, b: seq<byte>, lo: nat, hi: nat)
    requires at + |b| <= |m| && lo <= hi <= |m| && (hi <= at || at + |b| <= lo)
    ensures Overwrite(m, at, b)[lo..hi] == m[lo..hi]
  {
    var r := Overwrite(m, at, b);
    if hi <= at {
      assert r[..at][lo..hi] == m[..at][lo..hi];
    } else {
      var k := at + |b|;
      SubSlice(r, k, |r|, lo - k, hi - k);
      SubSlice(m, k, |m|, lo - k, hi - k);
    }
  }

  /** A slice that ends where the stored range begins grows by the stored bytes. */
  lemma OverwriteExtends(m: seq<byte>, lo: nat, at: nat, b: seq<byte>)
    requires lo <= at && at + |b| <= |m|
    ensures Overwrite(m, at, b)[lo..at + |b|] == m[lo..at] + b
  {
    var r := Overwrite(m, at, b);
    OverwriteApart(m, at, b, lo, at);
    assert r[lo..at + |b|] == r[lo..at] + r[at..at + |b|];
  }

  /** Two stores side by side are one store. */
  lemma OverwriteTwice(m: seq<byte>, at: nat, a: seq<byte>, b: seq<byte>)
    requires at + |a| + |b| <= |m|
    ensures Overwrite(Overwrite(m, at, a), at + |a|, b) == Overwrite(m, at, a + b)
  {
  }

  /** memcpy from a value: `b` is stored at `at`, nothing else changes. */
  method MemCopy(dst: array<byte>, at: nat, b: seq<byte>)
    requires at + |b| <= dst.Length
    modifies dst
    ensures dst[..] == Overwrite(old(dst[..]), at, b)
  {
    for i := 0 to |b|
      invariant dst[at..at + i] == b[..i]
      invariant dst[..at] == old(dst[..at]) && dst[at + i..] == old(dst[at + i..])
    {
      ghost var rest := dst[at + i..];
      dst[at + i] := b[i];
      assert dst[at + i + 1..] == rest[1..] == old(dst[at + i..])[1..];
      assert dst[at..at + i + 1] == dst[at..at + i] + [b[i]];
    }
    assert dst[..] == dst[..at] + dst[at..at + |b|] + dst[at + |b|..];
  }

  /** memmove towards higher addresses inside one buffer; the ranges may overlap. */
  method MemMoveUp(buf: array<byte>, to: nat, from: nat, n: nat)
    requires from <= to && to + n <= buf.Length
    modifies buf
    ensures buf[..] == Overwrite(old(buf[..]), to, old(buf[from..from + n]))
  {
    var k := n;
    ghost var was := buf[..];
    while k > 0
      invariant 0 <= k <= n
      invariant forall j :: 0 <= j < to + k ==> buf[j] == was[j]
      invariant forall j :: to + n <= j < buf.Length ==> buf[j] == was[j]
      invariant forall j {:trigger buf[j]} :: to + k <= j < to + n ==> buf[j] == was[j - to + from]
    {
      k := k - 1;
      buf[to + k] := buf[from + k];
    }
    ghost var r := Overwrite(was, to, was[from..from + n]);
    forall j | 0 <= j < buf.Length
      ensures buf[..][j] == r[j]
    {
      OverwriteAt(was, to, was[from..from + n], j);
      assert to <= j < to + n ==> was[from..from + n][j - to] == was[j - to + from];
    }
  }

  lemma OverwriteAt(m: seq<byte>, at: nat, b: seq<byte>, j: nat)
    requires at + |b| <= |m| && j < |m|
    ensures Overwrite(m, at, b)[j] == if at <= j < at + |b| then b[j - at] else m[j]
  {
  }
}
