/** Blob streams: a count, the end offset of every blob, then the blobs. */
module BlobStream {
  import opened Bytes
  import opened ByteBuffer
  import opened Row
  import opened RowCodec
  import opened RowDecoder

  // ---------- the format ----------

  /** Where the blobs start, and where the first `i` of them end. */
  function EndOffset(blobs: seq<seq<byte>>, i: nat): nat
    requires i <= |blobs|
  {
    4 * (1 + |blobs|) + |JoinUpTo(blobs, i)|
  }

  predicate StreamFits(blobs: seq<seq<byte>>)
  {
    EndOffset(blobs, |blobs|) < 0x8000_0000
  }

  lemma {:induction false} OffsetsGrow(blobs: seq<seq<byte>>, i: nat, j: nat)
    requires i <= j <= |blobs|
    ensures EndOffset(blobs, i) <= EndOffset(blobs, j)
    decreases j
  {
    if i < j {
      OffsetsGrow(blobs, i, j - 1);
    }
  }

  /** The first `n` entries of the offset table. */
  function Offsets(blobs: seq<seq<byte>>, n: nat): (s: seq<byte>)
    requires StreamFits(blobs) && n <= |blobs|
    ensures |s| == 4 * n
  {
    if n == 0 then []
    else
      OffsetsGrow(blobs, n, |blobs|);
      Offsets(blobs, n - 1) + LittleEndian32(EndOffset(blobs, n))
  }

  function StreamBytes(blobs: seq<seq<byte>>): seq<byte>
    requires StreamFits(blobs)
  {
    LittleEndian32(|blobs|) + Offsets(blobs, |blobs|) + JoinUpTo(blobs, |blobs|)
  }

  // ---------- writing ----------

  method AppendOffsets(blobs: seq<seq<byte>>, b: ByteBuf)
    requires StreamFits(blobs) && b.Valid() && b.used + 4 * |blobs| <= MAX_BYTES
    modifies b, b.ptr
    ensures b.Valid() && (b.ptr == old(b.ptr) || fresh(b.ptr))
    ensures b.Contents() == old(b.Contents()) + Offsets(blobs, |blobs|)
  {
    ghost var base := b.Contents();
    var next := 4 * (1 + |blobs|);
    assert base + [] == base;
    for i := 0 to |blobs|
      invariant b.Valid() && (b.ptr == old(b.ptr) || fresh(b.ptr))
      invariant next == EndOffset(blobs, i)
      invariant b.Contents() == base + Offsets(blobs, i)
    {
      next := next + |blobs[i]|;
      OffsetsGrow(blobs, i + 1, |blobs|);
      ConcatAssoc(base, Offsets(blobs, i), LittleEndian32(next));
      b.Append(LittleEndian32(next));
    }
  }

  method AppendBlobs(blobs: seq<seq<byte>>, b: ByteBuf)
    requires StreamFits(blobs) && b.Valid() && b.used + |JoinUpTo(blobs, |blobs|)| <= MAX_BYTES
    modifies b, b.ptr
    ensures b.Valid() && (b.ptr == old(b.ptr) || fresh(b.ptr))
    ensures b.Contents() == old(b.Contents()) + JoinUpTo(blobs, |blobs|)
  {
    ghost var base := b.Contents();
    assert base + [] == base;
    for i := 0 to |blobs|
      invariant b.Valid() && (b.ptr == old(b.ptr) || fresh(b.ptr))
      invariant b.Contents() == base + JoinUpTo(blobs, i)
    {
      OffsetsGrow(blobs, i + 1, |blobs|);
      ConcatAssoc(base, JoinUpTo(blobs, i), blobs[i]);
      b.Append(blobs[i]);
    }
  }

  /** `cql_make_blob_stream`. */
  method MakeBlobStream(blobs: seq<seq<byte>>) returns (stream: seq<byte>)
    requires StreamFits(blobs)
    ensures stream == StreamBytes(blobs)
  {
    var b := new ByteBuf.Open();
    b.Append(LittleEndian32(|blobs|));
    assert [] + LittleEndian32(|blobs|) == LittleEndian32(|blobs|);
    AppendOffsets(blobs, b);
    AppendBlobs(blobs, b);
    stream := b.ptr[..b.used];
  }

  // ---------- reading ----------

  /** Word `k` of a stream. */
  function WordOf(stream: seq<byte>, k: nat): uint32
    requires 4 * k + 4 <= |stream|
  {
    ReadLittleEndian32(stream[4 * k..4 * k + 4])
  }

  /** `cql_blob_stream_count`. */
  function StreamCount(stream: seq<byte>): int32
  {
    if |stream| < 4 then 0
    else if WordOf(stream, 0) >= 0x8000_0000 then WordOf(stream, 0) - 0x1_0000_0000
    else WordOf(stream, 0)
  }

  /** The bounds check `(index + 2) * 4 > len` does not overflow where it is reached. */
  predicate Countable(stream: seq<byte>, index: int32)
  {
    |stream| >= 4 && 0 <= index < WordOf(stream, 0) ==> index + 2 < 0x2000_0000
  }

  /** The bytes that selecting `index` hands to the row decoder, or a refusal. */
  function Select(stream: seq<byte>, index: int32): (r: Option<seq<byte>>)
    requires Countable(stream, index)
  {
    if |stream| < 4 then None
    else
      var count := WordOf(stream, 0);
      if index < 0 || index >= count || 4 * (index + 2) > |stream| then None
      else
        var end := WordOf(stream, index + 1);
        if end > |stream| then None
        else
          var start := if index > 0 then WordOf(stream, index) else (count + 1) * 4 % 0x1_0000_0000;
          if start > end then None else Some(stream[start..end])
  }

  lemma {:induction false} SliceOfPrefix(a: seq<byte>, b: seq<byte>, lo: nat)
    requires |b| == 4
    ensures lo + 4 <= |a| ==> (a + b)[lo..lo + 4] == a[lo..lo + 4]
    ensures lo == |a| ==> (a + b)[lo..lo + 4] == b
  {
  }

  lemma {:induction false} OffsetAt(blobs: seq<seq<byte>>, n: nat, i: nat)
    requires StreamFits(blobs) && i < n <= |blobs|
    ensures EndOffset(blobs, i + 1) < 0x8000_0000 && EndOffset(blobs, n) < 0x8000_0000
    ensures Offsets(blobs, n)[4 * i..4 * i + 4] == LittleEndian32(EndOffset(blobs, i + 1))
    decreases n
  {
    hide LittleEndian32, Offsets, EndOffset, StreamFits;
    EndsFit(blobs, i + 1);
    EndsFit(blobs, n);
    var table, last := Offsets(blobs, n - 1), LittleEndian32(EndOffset(blobs, n));
    OffsetsStep(blobs, n);
    SliceOfPrefix(table, last, 4 * i);
    if i < n - 1 {
      OffsetAt(blobs, n - 1, i);
    }
  }

  lemma {:induction false} EndsFit(blobs: seq<seq<byte>>, i: nat)
    requires StreamFits(blobs) && i <= |blobs|
    ensures EndOffset(blobs, i) < 0x8000_0000
  {
    OffsetsGrow(blobs, i, |blobs|);
  }

  lemma {:induction false} OffsetsStep(blobs: seq<seq<byte>>, n: nat)
    requires StreamFits(blobs) && 0 < n <= |blobs|
    ensures EndOffset(blobs, n) < 0x8000_0000
    ensures Offsets(blobs, n) == Offsets(blobs, n - 1) + LittleEndian32(EndOffset(blobs, n))
  {
    hide LittleEndian32;
    EndsFit(blobs, n);
  }

  /** Word `k` of a stream: the count, then the offsets. */
  lemma {:induction false} WordAt(blobs: seq<seq<byte>>, k: nat)
    requires StreamFits(blobs) && k <= |blobs|
    ensures |StreamBytes(blobs)| == EndOffset(blobs, |blobs|)
    ensures 4 * k + 4 <= |StreamBytes(blobs)|
    ensures WordOf(StreamBytes(blobs), k) ==
            if k == 0 then |blobs| else EndOffset(blobs, k)
  {
    hide LittleEndian32, ReadLittleEndian32;
    var s := StreamBytes(blobs);
    var head, table := LittleEndian32(|blobs|), Offsets(blobs, |blobs|);
    if k == 0 {
      assert s[0..4] == head;
      LittleEndian32RoundTrip(|blobs|);
    } else {
      OffsetAt(blobs, |blobs|, k - 1);
      assert s[4 * k..4 * k + 4] == table[4 * (k - 1)..4 * (k - 1) + 4];
      LittleEndian32RoundTrip(EndOffset(blobs, k));
    }
  }

  lemma {:induction false} SliceOfConcat(a: seq<byte>, b: seq<byte>, lo: nat, hi: nat)
    requires lo <= hi <= |b|
    ensures (a + b)[|a| + lo..|a| + hi] == b[lo..hi]
  {
  }

  /** A stream reports the length of its list. */
  lemma {:induction false} CountOfStream(blobs: seq<seq<byte>>)
    requires StreamFits(blobs)
    ensures StreamCount(StreamBytes(blobs)) == |blobs|
  {
    WordAt(blobs, 0);
  }

  lemma {:induction false} SelectBy(s: seq<byte>, index: int32, count: nat, start: nat, end: nat)
    requires 0 <= index < count && 4 * (count + 1) <= start <= end <= |s| < 0x8000_0000
    requires index + 2 < 0x2000_0000
    requires WordOf(s, 0) == count && WordOf(s, index + 1) == end
    requires if index > 0 then WordOf(s, index) == start else start == 4 * (count + 1)
    ensures Select(s, index) == Some(s[start..end])
  {
    hide WordOf;
  }

  /** Selecting index `i` of a stream yields exactly blob `i`, and every other index is refused. */
  lemma {:induction false} SelectOfStream(blobs: seq<seq<byte>>, index: int32)
    requires StreamFits(blobs)
    ensures Countable(StreamBytes(blobs), index)
    ensures Select(StreamBytes(blobs), index) ==
            if 0 <= index < |blobs| then Some(blobs[index]) else None
  {
    hide WordOf;
    WordAt(blobs, 0);
    OffsetsGrow(blobs, 0, |blobs|);
    if 0 <= index < |blobs| {
      BlobSlice(blobs, index);
      WordAt(blobs, index);
      WordAt(blobs, index + 1);
      SelectBy(StreamBytes(blobs), index, |blobs|, EndOffset(blobs, index), EndOffset(blobs, index + 1));
    }
  }

  /** Where blob `i` lies in its stream. */
  lemma {:induction false} BlobSlice(blobs: seq<seq<byte>>, i: nat)
    requires StreamFits(blobs) && i < |blobs|
    ensures EndOffset(blobs, i) <= EndOffset(blobs, i + 1) <= |StreamBytes(blobs)|
    ensures StreamBytes(blobs)[EndOffset(blobs, i)..EndOffset(blobs, i + 1)] == blobs[i]
  {
    hide LittleEndian32;
    OffsetsGrow(blobs, i + 1, |blobs|);
    OffsetsGrow(blobs, i, i + 1);
    JoinSlice(blobs, |blobs|, i);
    SliceOfConcat(LittleEndian32(|blobs|) + Offsets(blobs, |blobs|), JoinUpTo(blobs, |blobs|),
                  |JoinUpTo(blobs, i)|, |JoinUpTo(blobs, i + 1)|);
  }

  // ---------- through the decoder ----------

  function DecodeSelected(shape: Shape, stream: seq<byte>, index: int32): Option<seq<Value>>
    requires Countable(stream, index)
  {
    match Select(stream, index)
    case None => None
    case Some(bytes) => Decode(shape, bytes)
  }

  /** Stream, then select, is decoding the blob itself. */
  lemma {:induction false} StreamThenSelect(shape: Shape, blobs: seq<seq<byte>>, index: int32)
    requires StreamFits(blobs) && 0 <= index < |blobs|
    ensures Countable(StreamBytes(blobs), index)
    ensures DecodeSelected(shape, StreamBytes(blobs), index) == Decode(shape, blobs[index])
  {
    SelectOfStream(blobs, index);
  }

  /** `cql_cursor_from_blob_stream`. */
  method CursorFromBlobStream(c: Cursor, stream: seq<byte>, index: int32) returns (ok: bool)
    requires c.Valid() && |stream| < 0x8000_0000 && Countable(stream, index)
    requires Select(stream, index).Some? ==> Readable(c.shape, Select(stream, index).value)
    modifies c, c.cells
    ensures c.Valid()
    ensures ok == DecodeSelected(c.shape, stream, index).Some? == c.hasRow
    ensures ok ==> c.cells[..] == DecodeSelected(c.shape, stream, index).value
    ensures !ok ==> c.owned == 0 && forall i :: 0 <= i < |c.shape| ==> !IsRef(c.cells[i])
  {
    var bytes := Select(stream, index);
    if bytes.Some? {
      ok := c.FromBytes(bytes.value);
    } else {
      c.hasRow := false;
      c.ReleaseRefs();
      ok := false;
    }
  }
}
