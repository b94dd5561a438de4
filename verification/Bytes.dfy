/** Bytes, optional results, and the fixed-width integers the runtime reads and
    writes.  Shifts and masks of unsigned values are written as division and
    remainder by powers of two. */
module Bytes {

  type byte = x: int | 0 <= x < 0x100
  type uint16 = x: int | 0 <= x < 0x1_0000
  type uint32 = x: int | 0 <= x < 0x1_0000_0000
  type uint64 = x: int | 0 <= x < 0x1_0000_0000_0000_0000
  type int32 = x: int | -0x8000_0000 <= x < 0x8000_0000
  type int64 = x: int | -0x8000_0000_0000_0000 <= x < 0x8000_0000_0000_0000

  datatype Option<+T> = None | Some(value: T)

  /** A C double is never inspected by the runtime: eight opaque bytes. */
  type Double = s: seq<byte> | |s| == 8 witness [0, 0, 0, 0, 0, 0, 0, 0]

  const ZERO_DOUBLE: Double := [0, 0, 0, 0, 0, 0, 0, 0]

  /** `s` with the bytes from `at` on overwritten by `chunk`. */
  function Splice<T>(s: seq<T>, at: nat, chunk: seq<T>): (r: seq<T>)
    requires at + |chunk| <= |s|
    ensures |r| == |s|
  {
    s[..at] + chunk + s[at + |chunk|..]
  }

  /** memcpy of `chunk` into `a` at offset `at`. */
  method CopyInto(a: array<byte>, at: nat, chunk: seq<byte>)
    requires at + |chunk| <= a.Length
    modifies a
    ensures a[..] == Splice(old(a[..]), at, chunk)
  {
    var i := 0;
    while i < |chunk|
      invariant 0 <= i <= |chunk|
      invariant forall j :: 0 <= j < a.Length ==> a[j] == if at <= j < at + i then chunk[j - at] else old(a[j])
    {
      a[at + i] := chunk[i];
      i := i + 1;
    }
    assert a[..] == Splice(old(a[..]), at, chunk);
  }

  /** Reinterpretation of a signed 64-bit value as unsigned, and back. */
  function ToUnsigned64(v: int64): (u: uint64)
  {
    if v < 0 then v + 0x1_0000_0000_0000_0000 else v
  }

  function ToSigned64(u: uint64): (v: int64)
  {
    if u >= 0x8000_0000_0000_0000 then u - 0x1_0000_0000_0000_0000 else u
  }

  /** The cast `(uint16_t)v`. */
  function ToUint16(v: nat): (r: uint16)
    ensures (v < 0x1_0000 ==> r == v) && (v == 0x1_0000 ==> r == 0)
  {
    v % 0x1_0000
  }

  /** The cast `(int8_t)v`. */
  function ToInt8(v: int64): (r: int)
    ensures -128 <= r < 128
  {
    var m := v % 256;
    if m >= 128 then m - 256 else m
  }

  function BigEndian16(v: uint16): (b: seq<byte>)
    ensures |b| == 2
  {
    [v / 0x100, v % 0x100]
  }

  function BigEndian32(v: uint32): (b: seq<byte>)
    ensures |b| == 4
  {
    BigEndian16(v / 0x1_0000) + BigEndian16(v % 0x1_0000)
  }

  function BigEndian64(v: uint64): (b: seq<byte>)
    ensures |b| == 8
  {
    BigEndian32(v / 0x1_0000_0000) + BigEndian32(v % 0x1_0000_0000)
  }

  function ReadBigEndian32(b: seq<byte>): (v: uint32)
    requires |b| == 4
  {
    (((b[0] as int) * 0x100 + b[1]) * 0x100 + b[2]) * 0x100 + b[3]
  }

  function ReadBigEndian64(b: seq<byte>): (v: uint64)
    requires |b| == 8
  {
    ReadBigEndian32(b[..4]) * 0x1_0000_0000 + ReadBigEndian32(b[4..])
  }

  lemma {:induction false} BigEndian32RoundTrip(v: uint32)
    ensures ReadBigEndian32(BigEndian32(v)) == v
  {
    var hi, lo := v / 0x1_0000, v % 0x1_0000;
    assert hi == hi / 0x100 * 0x100 + hi % 0x100;
    assert lo == lo / 0x100 * 0x100 + lo % 0x100;
  }

  /** What the eight-byte writer stores, the eight-byte reader returns. */
  lemma {:induction false} BigEndian64RoundTrip(v: uint64)
    ensures ReadBigEndian64(BigEndian64(v)) == v
  {
    BigEndian32RoundTrip(v / 0x1_0000_0000);
    BigEndian32RoundTrip(v % 0x1_0000_0000);
    assert BigEndian64(v)[..4] == BigEndian32(v / 0x1_0000_0000);
    assert BigEndian64(v)[4..] == BigEndian32(v % 0x1_0000_0000);
  }

  /** Native (little-endian) four-byte words, as blob streams use them. */
  function LittleEndian32(v: uint32): (b: seq<byte>)
    ensures |b| == 4
  {
    [v % 0x100, v / 0x100 % 0x100, v / 0x100 / 0x100 % 0x100, v / 0x100 / 0x100 / 0x100]
  }

  function ReadLittleEndian32(b: seq<byte>): (v: uint32)
    requires |b| == 4
  {
    (b[0] as int) + 0x100 * ((b[1] as int) + 0x100 * ((b[2] as int) + 0x100 * (b[3] as int)))
  }

  lemma {:induction false} LittleEndian32RoundTrip(v: uint32)
    ensures ReadLittleEndian32(LittleEndian32(v)) == v
  {
  }

  /** A native eight-byte word, used only to leave a note for a later pass. */
  function Native64(v: uint64): (b: seq<byte>)
    ensures |b| == 8
  {
    LittleEndian32(v % 0x1_0000_0000) + LittleEndian32(v / 0x1_0000_0000)
  }

  function ReadNative64(b: seq<byte>): (v: uint64)
    requires |b| == 8
  {
    ReadLittleEndian32(b[..4]) + 0x1_0000_0000 * ReadLittleEndian32(b[4..])
  }

  lemma {:induction false} Native64RoundTrip(v: uint64)
    ensures ReadNative64(Native64(v)) == v
  {
    hide LittleEndian32, ReadLittleEndian32;
    LittleEndian32RoundTrip(v % 0x1_0000_0000);
    LittleEndian32RoundTrip(v / 0x1_0000_0000);
    assert Native64(v)[..4] == LittleEndian32(v % 0x1_0000_0000);
    assert Native64(v)[4..] == LittleEndian32(v / 0x1_0000_0000);
  }

  // ---------- chunks ----------

  /** The chunks from `i` on, one after the other. */
  function JoinFrom(cs: seq<seq<byte>>, i: nat): (s: seq<byte>)
    requires i <= |cs|
    decreases |cs| - i
  {
    if i == |cs| then [] else cs[i] + JoinFrom(cs, i + 1)
  }

  /** The first `i` chunks. */
  function JoinUpTo(cs: seq<seq<byte>>, i: nat): (s: seq<byte>)
    requires i <= |cs|
  {
    if i == 0 then [] else JoinUpTo(cs, i - 1) + cs[i - 1]
  }

  lemma {:induction false} ConcatAssoc(a: seq<byte>, b: seq<byte>, c: seq<byte>)
    ensures a + (b + c) == a + b + c
  {
  }

  lemma {:induction false} JoinSplit(cs: seq<seq<byte>>, i: nat)
    requires i <= |cs|
    ensures JoinUpTo(cs, i) + JoinFrom(cs, i) == JoinFrom(cs, 0)
  {
    if i == 0 {
      assert [] + JoinFrom(cs, 0) == JoinFrom(cs, 0);
    } else {
      JoinSplit(cs, i - 1);
      ConcatAssoc(JoinUpTo(cs, i - 1), cs[i - 1], JoinFrom(cs, i));
    }
  }

  lemma {:induction false} JoinAll(cs: seq<seq<byte>>)
    ensures JoinUpTo(cs, |cs|) == JoinFrom(cs, 0)
  {
    JoinSplit(cs, |cs|);
    assert JoinUpTo(cs, |cs|) + [] == JoinUpTo(cs, |cs|);
  }

  lemma {:induction false} JoinGrows(cs: seq<seq<byte>>, i: nat, j: nat)
    requires i <= j <= |cs|
    ensures |JoinUpTo(cs, i)| <= |JoinUpTo(cs, j)|
    decreases j
  {
    if i < j {
      JoinGrows(cs, i, j - 1);
    }
  }

  lemma {:induction false} JoinSlice(cs: seq<seq<byte>>, n: nat, i: nat)
    requires i < n <= |cs|
    ensures |JoinUpTo(cs, i + 1)| <= |JoinUpTo(cs, n)|
    ensures JoinUpTo(cs, n)[|JoinUpTo(cs, i)|..|JoinUpTo(cs, i + 1)|] == cs[i]
    decreases n
  {
    if i < n - 1 {
      JoinSlice(cs, n - 1, i);
    }
  }
}
