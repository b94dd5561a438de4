/** The common layout of key and value blobs: a 16-byte header, an array of eight-byte
    words, one type byte per column, and the variable area. */
module BlobLayout {
  import opened Bytes

  const MAGIC: uint32 := 0x524d3030

  const TYPE_BOOL: byte := 0
  const TYPE_INT32: byte := 1
  const TYPE_INT64: byte := 2
  const TYPE_FLOAT: byte := 3
  const TYPE_STRING: byte := 4
  const TYPE_BLOB: byte := 5
  const DIRTY: byte := 0x40

  /** How a call ends: with a result, with an SQL error, or in a failed runtime contract. */
  datatype Outcome<+T> = Done(value: T) | Error | Aborted

  /** Results at or above this size are refused by the allocator's contract. */
  const LIMIT: nat := 0x8000_0000

  // ---------- values ----------

  datatype Kind = NullKind | IntegerKind | FloatKind | TextKind | BlobKind

  /** An argument, as the accessors of the database see it. */
  datatype SqlValue = SqlValue(kind: Kind, asInt: int64, asDouble: Double, bytes: seq<byte>)

  function BlobArg(b: seq<byte>): SqlValue
  {
    SqlValue(BlobKind, 0, ZERO_DOUBLE, b)
  }

  /** What a getter returns. */
  datatype SqlResult = ResultNull | ResultInt(i: int64) | ResultDouble(d: Double) |
                       ResultText(text: seq<byte>) | ResultBlob(blob: seq<byte>)

  /** A stored column, normalized: bools are 0 or 1. */
  datatype Col =
    | BoolCol(b: bool)
    | Int32Col(i: int64)
    | Int64Col(l: int64)
    | FloatCol(d: Double)
    | StringCol(s: seq<byte>)
    | BlobCol(bytes: seq<byte>)

  function TypeCode(c: Col): byte
  {
    match c
    case BoolCol(_) => TYPE_BOOL
    case Int32Col(_) => TYPE_INT32
    case Int64Col(_) => TYPE_INT64
    case FloatCol(_) => TYPE_FLOAT
    case StringCol(_) => TYPE_STRING
    case BlobCol(_) => TYPE_BLOB
  }

  /** What a column keeps in the variable area; a string keeps its terminator. */
  function VarBytes(c: Col): seq<byte>
  {
    match c
    case StringCol(s) => s + [0]
    case BlobCol(s) => s
    case _ => []
  }

  function Vars(cols: seq<Col>): (vs: seq<seq<byte>>)
    ensures |vs| == |cols|
  {
    seq(|cols|, i requires 0 <= i < |cols| => VarBytes(cols[i]))
  }

  /** The length recorded for a string or blob. */
  function VarLen(c: Col): nat
  {
    match c
    case StringCol(s) => |s|
    case BlobCol(s) => |s|
    case _ => 0
  }

  function Result(c: Col): SqlResult
  {
    match c
    case BoolCol(b) => ResultInt(if b then 1 else 0)
    case Int32Col(i) => ResultInt(i)
    case Int64Col(l) => ResultInt(l)
    case FloatCol(d) => ResultDouble(d)
    case StringCol(s) => ResultText(s)
    case BlobCol(s) => ResultBlob(s)
  }

  /** `cql_blobtype_vs_argtype_compat`. */
  predicate Compatible(v: SqlValue, ty: int)
  {
    if ty == TYPE_BOOL || ty == TYPE_INT32 || ty == TYPE_INT64 then v.kind == IntegerKind
    else if ty == TYPE_FLOAT then v.kind == FloatKind || v.kind == IntegerKind
    else if ty == TYPE_STRING then v.kind == TextKind
    else ty == TYPE_BLOB && v.kind == BlobKind
  }

  function ColOf(v: SqlValue, ty: int): (c: Col)
    requires Compatible(v, ty)
    ensures TypeCode(c) == ty
  {
    if ty == TYPE_BOOL then BoolCol(v.asInt != 0)
    else if ty == TYPE_INT32 then Int32Col(v.asInt)
    else if ty == TYPE_INT64 then Int64Col(v.asInt)
    else if ty == TYPE_FLOAT then FloatCol(v.asDouble)
    else if ty == TYPE_STRING then StringCol(v.bytes)
    else BlobCol(v.bytes)
  }

  /** The variable size the compatibility test reports. */
  function ArgVarSize(v: SqlValue, ty: int): (n: nat)
    requires Compatible(v, ty)
    ensures n == |VarBytes(ColOf(v, ty))|
  {
    if ty == TYPE_STRING then |v.bytes| + 1 else if ty == TYPE_BLOB then |v.bytes| else 0
  }

  // ---------- words ----------

  type Word = w: seq<byte> | |w| == 8 witness [0, 0, 0, 0, 0, 0, 0, 0]

  /** Offset and length of a variable item, packed in one word. */
  function Info(offset: nat, len: nat): Word
    requires offset < 0x1_0000_0000 && len < 0x1_0000_0000
  {
    BigEndian64(offset * 0x1_0000_0000 + len)
  }

  function InfoOffset(w: Word): nat
  {
    ReadBigEndian64(w) / 0x1_0000_0000
  }

  function InfoLen(w: Word): nat
  {
    ReadBigEndian64(w) % 0x1_0000_0000
  }

  lemma {:induction false} InfoRoundTrip(offset: nat, len: nat)
    requires offset < 0x1_0000_0000 && len < 0x1_0000_0000
    ensures InfoOffset(Info(offset, len)) == offset && InfoLen(Info(offset, len)) == len
  {
    hide BigEndian64, ReadBigEndian64;
    BigEndian64RoundTrip(offset * 0x1_0000_0000 + len);
  }

  /** The storage word of a column whose variable bytes start at `offset`. */
  function WordOf(c: Col, offset: nat): Word
    requires offset < LIMIT && VarLen(c) < LIMIT
  {
    match c
    case BoolCol(b) => BigEndian64(if b then 1 else 0)
    case Int32Col(i) => BigEndian64(ToUnsigned64(i))
    case Int64Col(l) => BigEndian64(ToUnsigned64(l))
    case FloatCol(d) => d
    case StringCol(s) => Info(offset, |s|)
    case BlobCol(s) => Info(offset, |s|)
  }

  // ---------- records ----------

  const HEADER_SIZE := 16

  function Head(rtype: uint64, count: uint32): (h: seq<byte>)
    ensures |h| == HEADER_SIZE
  {
    BigEndian64(rtype) + BigEndian32(MAGIC) + BigEndian32(count)
  }

  function Flat(ws: seq<Word>): seq<byte>
  {
    JoinUpTo(ws, |ws|)
  }

  lemma {:induction false} FlatLength(ws: seq<Word>, n: nat)
    requires n <= |ws|
    ensures |JoinUpTo(ws, n)| == 8 * n
  {
    if n > 0 {
      FlatLength(ws, n - 1);
    }
  }

  function Record(head: seq<byte>, ws: seq<Word>, types: seq<byte>, tail: seq<byte>): (r: seq<byte>)
    requires |head| == HEADER_SIZE
    ensures |r| == HEADER_SIZE + 8 * |ws| + |types| + |tail|
  {
    FlatLength(ws, |ws|);
    head + Flat(ws) + types + tail
  }

  lemma {:induction false} FlatSlice(ws: seq<Word>, n: nat, k: nat)
    requires k < n <= |ws|
    ensures 8 * k + 8 <= |JoinUpTo(ws, n)| == 8 * n
    ensures JoinUpTo(ws, n)[8 * k..8 * k + 8] == ws[k]
    decreases n
  {
    FlatLength(ws, n);
    FlatLength(ws, n - 1);
    if k < n - 1 {
      FlatSlice(ws, n - 1, k);
      assert JoinUpTo(ws, n)[8 * k..8 * k + 8] == JoinUpTo(ws, n - 1)[8 * k..8 * k + 8];
    }
  }

  lemma {:induction false} FlatSplice(ws: seq<Word>, n: nat, k: nat, w: Word)
    requires k < n <= |ws|
    ensures 8 * k + 8 <= |JoinUpTo(ws, n)| == 8 * n
    ensures Splice(JoinUpTo(ws, n), 8 * k, w) == JoinUpTo(ws[k := w], n)
    decreases n
  {
    FlatLength(ws, n);
    FlatLength(ws, n - 1);
    var ws' := ws[k := w];
    if k < n - 1 {
      FlatSplice(ws, n - 1, k, w);
      SpliceLeft(JoinUpTo(ws, n - 1), ws[n - 1], 8 * k, w);
    } else {
      JoinSame(ws, ws', k);
      SpliceRight(JoinUpTo(ws, n - 1), ws[n - 1], 0, w);
      assert Splice(ws[n - 1], 0, w) == w;
    }
  }

  lemma {:induction false} JoinSame(a: seq<Word>, b: seq<Word>, n: nat)
    requires n <= |a| && n <= |b| && a[..n] == b[..n]
    ensures JoinUpTo(a, n) == JoinUpTo(b, n)
  {
    if n > 0 {
      assert a[..n - 1] == a[..n][..n - 1] && b[..n - 1] == b[..n][..n - 1];
      assert a[n - 1] == a[..n][n - 1] && b[n - 1] == b[..n][n - 1];
      JoinSame(a, b, n - 1);
    }
  }

  lemma {:induction false} SpliceLeft(a: seq<byte>, b: seq<byte>, at: nat, chunk: seq<byte>)
    requires at + |chunk| <= |a|
    ensures Splice(a + b, at, chunk) == Splice(a, at, chunk) + b
  {
  }

  lemma {:induction false} SpliceRight(a: seq<byte>, b: seq<byte>, at: nat, chunk: seq<byte>)
    requires at + |chunk| <= |b|
    ensures Splice(a + b, |a| + at, chunk) == a + Splice(b, at, chunk)
  {
  }

  lemma {:induction false} SliceLeft(a: seq<byte>, b: seq<byte>, lo: nat, hi: nat)
    requires lo <= hi <= |a|
    ensures (a + b)[lo..hi] == a[lo..hi]
  {
  }

  lemma {:induction false} SliceRight(a: seq<byte>, b: seq<byte>, lo: nat, hi: nat)
    requires lo <= hi <= |b|
    ensures (a + b)[|a| + lo..|a| + hi] == b[lo..hi]
  {
  }

  // ---------- writing into a record ----------

  lemma {:induction false} WriteHead(head: seq<byte>, ws: seq<Word>, types: seq<byte>, tail: seq<byte>, h: seq<byte>)
    requires |head| == |h| == HEADER_SIZE
    ensures Splice(Record(head, ws, types, tail), 0, h) == Record(h, ws, types, tail)
  {
  }

  lemma {:induction false} WriteWord(head: seq<byte>, ws: seq<Word>, types: seq<byte>, tail: seq<byte>, k: nat, w: Word)
    requires |head| == HEADER_SIZE && k < |ws|
    ensures HEADER_SIZE + 8 * k + 8 <= |Record(head, ws, types, tail)|
    ensures Splice(Record(head, ws, types, tail), HEADER_SIZE + 8 * k, w) == Record(head, ws[k := w], types, tail)
  {
    FlatSplice(ws, |ws|, k, w);
    SpliceRight(head, Flat(ws), 8 * k, w);
    SpliceLeft(head + Flat(ws), types, HEADER_SIZE + 8 * k, w);
    SpliceLeft(head + Flat(ws) + types, tail, HEADER_SIZE + 8 * k, w);
  }

  lemma {:induction false} WriteType(head: seq<byte>, ws: seq<Word>, types: seq<byte>, tail: seq<byte>, k: nat, t: byte)
    requires |head| == HEADER_SIZE && k < |types|
    ensures Splice(Record(head, ws, types, tail), HEADER_SIZE + 8 * |ws| + k, [t]) ==
            Record(head, ws, types[k := t], tail)
  {
    FlatLength(ws, |ws|);
    SpliceRight(head + Flat(ws), types, k, [t]);
    SpliceLeft(head + Flat(ws) + types, tail, HEADER_SIZE + 8 * |ws| + k, [t]);
    assert Splice(types, k, [t]) == types[k := t];
  }

  lemma {:induction false} WriteTail(head: seq<byte>, ws: seq<Word>, types: seq<byte>, tail: seq<byte>,
                                     at: nat, chunk: seq<byte>)
    requires |head| == HEADER_SIZE && at + |chunk| <= |tail|
    ensures Splice(Record(head, ws, types, tail), HEADER_SIZE + 8 * |ws| + |types| + at, chunk) ==
            Record(head, ws, types, Splice(tail, at, chunk))
  {
    FlatLength(ws, |ws|);
    SpliceRight(head + Flat(ws) + types, tail, at, chunk);
  }

  // ---------- reading from a record ----------

  lemma {:induction false} ReadWord(head: seq<byte>, ws: seq<Word>, types: seq<byte>, tail: seq<byte>, k: nat)
    requires |head| == HEADER_SIZE && k < |ws|
    ensures var at := HEADER_SIZE + 8 * k;
            at + 8 <= |Record(head, ws, types, tail)| && Record(head, ws, types, tail)[at..at + 8] == ws[k]
  {
    FlatSlice(ws, |ws|, k);
    SliceRight(head, Flat(ws), 8 * k, 8 * k + 8);
    SliceLeft(head + Flat(ws), types, HEADER_SIZE + 8 * k, HEADER_SIZE + 8 * k + 8);
    SliceLeft(head + Flat(ws) + types, tail, HEADER_SIZE + 8 * k, HEADER_SIZE + 8 * k + 8);
  }

  lemma {:induction false} ReadType(head: seq<byte>, ws: seq<Word>, types: seq<byte>, tail: seq<byte>, k: nat)
    requires |head| == HEADER_SIZE && k < |types|
    ensures Record(head, ws, types, tail)[HEADER_SIZE + 8 * |ws| + k] == types[k]
  {
    FlatLength(ws, |ws|);
  }

  lemma {:induction false} ReadTail(head: seq<byte>, ws: seq<Word>, types: seq<byte>, tail: seq<byte>, lo: nat, hi: nat)
    requires |head| == HEADER_SIZE && lo <= hi <= |tail|
    ensures var at := HEADER_SIZE + 8 * |ws| + |types|;
            Record(head, ws, types, tail)[at + lo..at + hi] == tail[lo..hi]
  {
    FlatLength(ws, |ws|);
    SliceRight(head + Flat(ws) + types, tail, lo, hi);
  }
}
