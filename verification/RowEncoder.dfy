/** `cql_cursor_to_bytebuf`.  The encoder keeps the address of the bit vector while it
    appends; when the buffer grows, later bits are written to the abandoned allocation.
    The contract says which columns that costs, in terms of the row and the buffer. */
module RowEncoder {
  import opened Bytes
  import opened BitVector
  import opened ByteBuffer
  import opened Varint
  import opened Row
  import opened RowCodec

  // ---------- which bits survive ----------

  /** `n` appends of a single byte. */
  function AfterOnes(g: Gauge, n: nat): (r: Gauge)
    requires g.used <= g.max
    ensures r.used == g.used + n <= r.max
  {
    if n == 0 then g else AllocStep(AfterOnes(g, n - 1), 1)
  }

  function FlagBytes(shape: Shape): nat
  {
    (NullableCount(shape) + BoolCount(shape) + 7) / 8
  }

  /** The room left in the buffer when the bit vector has just been allocated. */
  function RoomAfterBits(g: Gauge, shape: Shape): nat
    requires g.used <= g.max
  {
    var at := AllocStep(AfterOnes(g, |shape| + 1), FlagBytes(shape));
    at.max - at.used
  }

  /** How many of the first `i` chunks start before `room` is exceeded. */
  function LiveCount(cs: seq<seq<byte>>, room: nat, i: nat): (n: nat)
    requires i <= |cs|
    ensures n <= i
  {
    if i == 0 then 0
    else LiveCount(cs, room, i - 1) + (if |JoinUpTo(cs, i - 1)| <= room then 1 else 0)
  }

  /** While the data so far fits, every column so far is live. */
  lemma {:induction false} LiveCountFull(cs: seq<seq<byte>>, room: nat, i: nat)
    requires i <= |cs| && (i == 0 || |JoinUpTo(cs, i - 1)| <= room)
    ensures LiveCount(cs, room, i) == i
  {
    if i > 1 {
      JoinGrows(cs, i - 2, i - 1);
      LiveCountFull(cs, room, i - 1);
    }
  }

  lemma {:induction false} LiveCountExact(cs: seq<seq<byte>>, room: nat, n: nat, i: nat)
    requires i < n <= |cs|
    ensures i < LiveCount(cs, room, n) <==> |JoinUpTo(cs, i)| <= room
    decreases n
  {
    JoinGrows(cs, i, n - 1);
    if |JoinUpTo(cs, n - 1)| <= room {
      LiveCountFull(cs, room, n);
    } else if i < n - 1 {
      LiveCountExact(cs, room, n - 1, i);
    }
  }

  function LiveColumns(g: Gauge, shape: Shape, row: seq<Value>): nat
    requires g.used <= g.max && |shape| == |row|
    ensures LiveColumns(g, shape, row) <= |row|
  {
    LiveCount(Fields(row), RoomAfterBits(g, shape), |row|)
  }

  /** What a caller can check before encoding into a buffer with numbers `g`: every column
      that sets a bit, among the first `n`, comes before the data outgrows the buffer. */
  predicate BitsSafe(g: Gauge, shape: Shape, row: seq<Value>, n: nat)
    requires g.used <= g.max && |shape| == |row|
  {
    forall i :: 0 <= i < |shape| && i < n && SetsBit(shape[i], row[i]) ==>
                  |JoinUpTo(Fields(row), i)| <= RoomAfterBits(g, shape)
  }

  /** The round trip through a real buffer: under any compatible reader the row comes back
      if and only if no bit of a common column is set after the buffer has grown. */
  lemma {:induction false} BufferRoundTrip(g: Gauge, writer: Shape, row: seq<Value>, reader: Shape)
    requires g.used <= g.max && Fits(writer, row) && Compatible(writer, reader)
    ensures Decode(reader, EncodedLive(writer, row, LiveColumns(g, writer, row))) == Some(Project(row, reader))
            <==> BitsSafe(g, writer, row, |reader|)
  {
    var live, room := LiveColumns(g, writer, row), RoomAfterBits(g, writer);
    VersionedRoundTrip(writer, row, live, reader);
    forall i | 0 <= i < |writer|
      ensures i < live <==> |JoinUpTo(Fields(row), i)| <= room
    {
      LiveCountExact(Fields(row), room, |row|, i);
    }
    if BitsSafe(g, writer, row, |reader|) {
      assert forall i :: live <= i < |writer| && i < |reader| ==> !SetsBit(writer[i], row[i]);
    }
  }

  // ---------- raising one bit ----------

  lemma {:induction false} OrBitBelow(b: nat, j: nat, n: nat, half: nat)
    requires j < n && half == Pow2(n - 1) && b < 2 * half
    ensures OrBit(b, j) < 2 * half
    decreases j
  {
    assert b == 2 * (b / 2) + b % 2 && b / 2 <= half - 1;
    if j > 0 {
      OrBitBelow(b / 2, j - 1, n - 1, Pow2(n - 2));
      assert OrBit(b / 2, j - 1) <= half - 1;
    }
  }

  lemma {:induction false} OrBitIsByte(b: byte, j: nat)
    requires j < 8
    ensures OrBit(b, j) < 0x100
  {
    assert Pow2(4) == 2 * Pow2(3) == 2 * (2 * Pow2(2)) == 16;
    assert Pow2(7) == 2 * Pow2(6) == 2 * (2 * Pow2(5)) == 0x80;
    OrBitBelow(b, j, 8, 0x80);
  }

  method SetBit(bits: array<byte>, at: nat, index: nat)
    requires at + index / 8 < bits.Length
    modifies bits
    ensures OrBit(old(bits[at + index / 8]), index % 8) < 0x100
    ensures bits[..] == old(bits[..])[at + index / 8 := OrBit(old(bits[at + index / 8]), index % 8)]
  {
    OrBitIsByte(bits[at + index / 8], index % 8);
    bits[at + index / 8] := OrBit(bits[at + index / 8], index % 8);
  }

  // ---------- the encoder ----------

  lemma {:induction false} CodeStep(shape: Shape, i: nat)
    requires i < |shape|
    ensures NullsBefore(shape, i + 1) == NullsBefore(shape, i) + (if shape[i].notNull then 0 else 1)
    ensures BoolsBefore(shape, i + 1) == BoolsBefore(shape, i) + (if shape[i].core.BoolCore? then 1 else 0)
    ensures Codes(shape)[..i] + [Code(shape[i])] == Codes(shape)[..i + 1]
  {
  }

  method AppendCodes(shape: Shape, b: ByteBuf) returns (nullableCount: nat, boolCount: nat)
    requires b.Valid() && b.used + |shape| + 1 <= MAX_BYTES
    modifies b, b.ptr
    ensures b.Valid() && (b.ptr == old(b.ptr) || fresh(b.ptr))
    ensures b.Contents() == old(b.Contents()) + Codes(shape) + [0]
    ensures b.Numbers() == AfterOnes(old(b.Numbers()), |shape| + 1)
    ensures nullableCount == NullableCount(shape) && boolCount == BoolCount(shape)
  {
    hide Code, Codes, NullsBefore, BoolsBefore, AllocStep;
    nullableCount, boolCount := 0, 0;
    ghost var base := b.Contents();
    var i := 0;
    NothingYet(shape, [], 0);
    assert base + Codes(shape)[..0] == base;
    while i < |shape|
      invariant 0 <= i <= |shape| && b.Valid() && (b.ptr == old(b.ptr) || fresh(b.ptr))
      invariant b.Contents() == base + Codes(shape)[..i]
      invariant b.Numbers() == AfterOnes(old(b.Numbers()), i)
      invariant nullableCount == NullsBefore(shape, i) && boolCount == BoolsBefore(shape, i)
    {
      CodeStep(shape, i);
      if !shape[i].notNull {
        nullableCount := nullableCount + 1;
      }
      if shape[i].core.BoolCore? {
        boolCount := boolCount + 1;
      }
      ConcatAssoc(base, Codes(shape)[..i], [Code(shape[i])]);
      b.Append([Code(shape[i])]);
      assert b.Numbers() == AfterOnes(old(b.Numbers()), i + 1);
      i := i + 1;
    }
    assert Codes(shape)[..i] == Codes(shape);
    b.Append([0]);
  }

  /** The cleared bit vector at the end of the buffer. */
  method AllocBits(b: ByteBuf, n: nat) returns (at: nat)
    requires b.Valid() && b.used + n <= MAX_BYTES
    modifies b, b.ptr
    ensures b.Valid() && (b.ptr == old(b.ptr) || fresh(b.ptr))
    ensures at == old(b.used) && b.Contents() == old(b.Contents()) + Zeros(n)
    ensures b.Numbers() == AllocStep(old(b.Numbers()), n)
  {
    at := b.Alloc(n);
    CopyInto(b.ptr, at, Zeros(n));
  }

  method WriteBlob(b: ByteBuf, s: seq<byte>)
    requires b.Valid() && b.used + |EncodeVarint(|s|) + s| <= MAX_BYTES
    modifies b, b.ptr
    ensures b.Valid()
    ensures b.Contents() == old(b.Contents()) + (EncodeVarint(|s|) + s)
    ensures if b.used <= old(b.max) then b.ptr == old(b.ptr) && b.max == old(b.max)
            else fresh(b.ptr)
  {
    ghost var size := EncodeVarint(|s|);
    ConcatAssoc(b.Contents(), size, s);
    assert |size + s| == |size| + |s|;
    WriteVarint(b, |s|);
    b.Append(s);
  }

  /** The data of one column. */
  method WriteField(b: ByteBuf, v: Value)
    requires b.Valid() && b.used + |FieldBytes(v)| <= MAX_BYTES
    modifies b, b.ptr
    ensures b.Valid()
    ensures b.Contents() == old(b.Contents()) + FieldBytes(v)
    ensures if b.used <= old(b.max) then b.ptr == old(b.ptr) && b.max == old(b.max)
            else fresh(b.ptr)
  {
    match v
    case Null =>
    case Int(i) => WriteVarint(b, i);
    case Long(l) => WriteVarint(b, l);
    case Real(d) => b.Append(d);
    case Flag(_) =>
    case Text(s) => b.Append(s + [0]);
    case Blob(s) => WriteBlob(b, s);
  }

  /** `cql_setbit`, whose index is 16 bits wide, on a packed vector stored at `at`. */
  method RaiseFlag(bits: array<byte>, at: nat, index: nat, ghost flags: seq<bool>)
    requires index < |flags| <= 0x1_0000 && at + |Pack(flags)| <= bits.Length
    modifies bits
    ensures var end := at + |Pack(flags)|;
            && bits[..at] == old(bits[..at]) && bits[end..] == old(bits[end..])
            && (old(bits[at..end]) == Pack(flags) ==> bits[at..end] == Pack(flags[index := true]))
  {
    hide ToUint16;
    ghost var end := at + |Pack(flags)|;
    ghost var tracked := bits[at..end] == Pack(flags);
    PackSet(flags, index);
    SetBit(bits, at, ToUint16(index));
    if tracked {
      assert bits[at..end] == Pack(flags)[index / 8 := OrBit(Pack(flags)[index / 8], index % 8)];
    }
  }

  /** The bits of one column: its null flag, and its bool flag. */
  method SetColumnBits(bits: array<byte>, at: nat, setNull: bool, nullAt: nat, setBool: bool, boolAt: nat,
                       ghost flags: seq<bool>)
    requires (setNull ==> nullAt < |flags|) && (setBool ==> boolAt < |flags|)
    requires |flags| <= 0x1_0000 && at + |Pack(flags)| <= bits.Length
    modifies bits
    ensures var end := at + |Pack(flags)|;
            && bits[..at] == old(bits[..at]) && bits[end..] == old(bits[end..])
            && (old(bits[at..end]) == Pack(flags) ==>
                  bits[at..end] == Pack(Raised(flags, setNull, nullAt, setBool, boolAt)))
  {
    ghost var f := flags;
    if setNull {
      RaiseFlag(bits, at, nullAt, f);
      f := f[nullAt := true];
    }
    if setBool {
      RaiseFlag(bits, at, boolAt, f);
    }
  }

  lemma {:induction false} Region(a: seq<byte>, used: nat, head: seq<byte>, mid: seq<byte>, tail: seq<byte>)
    requires used <= |a| && a[..used] == head + mid + tail
    ensures |head| + |mid| <= |a| && a[|head|..|head| + |mid|] == mid
  {
    assert a[|head|..|head| + |mid|] == a[..used][|head|..|head| + |mid|];
  }

  lemma {:induction false} Reassemble(pre: seq<byte>, post: seq<byte>, used: nat,
                                      head: seq<byte>, mid: seq<byte>, tail: seq<byte>, mid': seq<byte>)
    requires used <= |pre| == |post| && pre[..used] == head + mid + tail && |mid'| == |mid|
    requires var at, end := |head|, |head| + |mid|;
             at <= end <= |pre| && post[..at] == pre[..at] && post[at..end] == mid' && post[end..] == pre[end..]
    ensures post[..used] == head + mid' + tail
  {
    var at, end := |head|, |head| + |mid|;
    assert pre[..at] == pre[..used][..at] == head;
    assert pre[end..used] == pre[..used][end..] == tail;
    assert post[end..used] == post[end..][..used - end] == pre[end..][..used - end] == pre[end..used];
    assert post[..used] == post[..at] + post[at..end] + post[end..used];
  }

  /** Bits set through a pointer taken earlier reach the buffer if it has not moved since. */
  method SetBitsOf(b: ByteBuf, bits: array<byte>, at: nat, setNull: bool, nullAt: nat, setBool: bool, boolAt: nat,
                   ghost head: seq<byte>, ghost flags: seq<bool>, ghost data: seq<byte>)
    requires (setNull ==> nullAt < |flags|) && (setBool ==> boolAt < |flags|)
    requires at == |head| && |flags| <= 0x1_0000 && at + |Pack(flags)| <= bits.Length
    requires b.Valid() && b.Contents() == head + Pack(flags) + data
    modifies bits
    ensures b.Valid()
    ensures b.Contents() ==
            head + Pack(if b.ptr == bits then Raised(flags, setNull, nullAt, setBool, boolAt) else flags) + data
  {
    ghost var pre := bits[..];
    if b.ptr == bits {
      Region(pre, b.used, head, Pack(flags), data);
    }
    SetColumnBits(bits, at, setNull, nullAt, setBool, boolAt, flags);
    if b.ptr == bits {
      Reassemble(pre, bits[..], b.used, head, Pack(flags), data, Pack(Raised(flags, setNull, nullAt, setBool, boolAt)));
    }
  }

  function EncodedSize(shape: Shape, row: seq<Value>): nat
  {
    |shape| + 1 + FlagBytes(shape) + |Payload(row)|
  }

  /** Between columns: what is in the buffer, and whether `bits` still points into it. */
  ghost predicate Between(b: ByteBuf, bits: array<byte>, room: nat,
                          head: seq<byte>, flags: seq<bool>, data: seq<byte>)
    reads b, b.ptr
  {
    && b.Valid()
    && |head| + |Pack(flags)| <= bits.Length
    && (if |data| <= room then b.ptr == bits && b.max == |head| + |Pack(flags)| + room else b.ptr != bits)
    && b.Contents() == head + Pack(flags) + data
  }

  /** One column: its bits through the saved pointer, then its data. */
  method WriteColumn(b: ByteBuf, bits: array<byte>, at: nat, setNull: bool, nullAt: nat, setBool: bool, boolAt: nat,
                     v: Value, ghost room: nat, ghost head: seq<byte>, ghost flags: seq<bool>, ghost data: seq<byte>)
    requires (setNull ==> nullAt < |flags|) && (setBool ==> boolAt < |flags|)
    requires at == |head| && |flags| <= 0x1_0000 && Between(b, bits, room, head, flags, data)
    requires |head| + |Pack(flags)| + |data + FieldBytes(v)| <= MAX_BYTES
    modifies b, b.ptr, bits
    ensures b.ptr == old(b.ptr) || fresh(b.ptr)
    ensures Between(b, bits, room, head,
                    if |data| <= room then Raised(flags, setNull, nullAt, setBool, boolAt) else flags,
                    data + FieldBytes(v))
  {
    ghost var flags' := if |data| <= room then Raised(flags, setNull, nullAt, setBool, boolAt) else flags;
    assert b.used == |b.Contents()| == |head| + |Pack(flags)| + |data|;
    SetBitsOf(b, bits, at, setNull, nullAt, setBool, boolAt, head, flags, data);
    ConcatAssoc(head + Pack(flags'), data, FieldBytes(v));
    WriteField(b, v);
    assert b.used == |b.Contents()| == |head| + |Pack(flags)| + |data + FieldBytes(v)|;
  }

  lemma {:induction false} LiveStep(cs: seq<seq<byte>>, room: nat, i: nat)
    requires i < |cs|
    ensures if |JoinUpTo(cs, i)| <= room then LiveCount(cs, room, i) == i && LiveCount(cs, room, i + 1) == i + 1
            else LiveCount(cs, room, i + 1) == LiveCount(cs, room, i)
  {
    if |JoinUpTo(cs, i)| <= room {
      LiveCountFull(cs, room, i + 1);
    }
  }

  /** The flags after column `i`, from those before it. */
  lemma {:induction false} LiveFlagsStep(shape: Shape, row: seq<Value>, cs: seq<seq<byte>>, room: nat, i: nat,
      flags: seq<bool>, flags': seq<bool>, setNull: bool, nullAt: nat, setBool: bool, boolAt: nat)
    requires |shape| == |row| == |cs| && i < |row|
    requires flags == FlagsUpTo(shape, row, LiveCount(cs, room, i))
    requires flags' == FlagsUpTo(shape, row, LiveCount(cs, room, i + 1))
    requires setNull == RaisesNull(shape, row, i) && nullAt == NullsBefore(shape, i)
    requires setBool == RaisesBool(shape, row, i) && boolAt == NullableCount(shape) + BoolsBefore(shape, i)
    ensures (setNull ==> nullAt < |flags|) && (setBool ==> boolAt < |flags|)
    ensures flags' == if |JoinUpTo(cs, i)| <= room then Raised(flags, setNull, nullAt, setBool, boolAt) else flags
  {
    CountsGrow(shape, i + 1, |shape|);
    LiveStep(cs, room, i);
  }

  lemma {:induction false} DataStep(cs: seq<seq<byte>>, i: nat, data: seq<byte>, data': seq<byte>)
    requires i < |cs| && data == JoinUpTo(cs, i) && data' == JoinUpTo(cs, i + 1)
    ensures data' == data + cs[i] && |data'| <= |JoinFrom(cs, 0)|
  {
    JoinGrows(cs, i + 1, |cs|);
    JoinAll(cs);
  }

  /** Column `i`: the buffer goes from the flags and data of `i` columns to those of `i + 1`. */
  method EncodeColumn(b: ByteBuf, bits: array<byte>, at: nat, shape: Shape, row: seq<Value>, i: nat,
                      nullableCount: nat, nullableIndex: nat, boolIndex: nat,
                      ghost cs: seq<seq<byte>>, ghost room: nat, ghost head: seq<byte>)
    requires |shape| == |row| && i < |row| && at == |head| && cs == Fields(row)
    requires nullableCount == NullableCount(shape) && Indexable(shape)
    requires nullableIndex == NullsBefore(shape, i) && boolIndex == BoolsBefore(shape, i)
    requires Between(b, bits, room, head, FlagsUpTo(shape, row, LiveCount(cs, room, i)), JoinUpTo(cs, i))
    requires |head| + FlagBytes(shape) + |JoinFrom(cs, 0)| <= MAX_BYTES
    modifies b, b.ptr, bits
    ensures b.ptr == old(b.ptr) || fresh(b.ptr)
    ensures Between(b, bits, room, head, FlagsUpTo(shape, row, LiveCount(cs, room, i + 1)), JoinUpTo(cs, i + 1))
  {
    hide Between, FlagsUpTo, LiveCount, JoinUpTo, JoinFrom, FieldBytes, RaisesNull, RaisesBool, NullsBefore, BoolsBefore;
    ghost var flags, data := FlagsUpTo(shape, row, LiveCount(cs, room, i)), JoinUpTo(cs, i);
    ghost var flags', data' := FlagsUpTo(shape, row, LiveCount(cs, room, i + 1)), JoinUpTo(cs, i + 1);
    var setNull, setBool := RaisesNull(shape, row, i), RaisesBool(shape, row, i);
    DataStep(cs, i, data, data');
    LiveFlagsStep(shape, row, cs, room, i, flags, flags', setNull, nullableIndex, setBool, nullableCount + boolIndex);
    WriteColumn(b, bits, at, setNull, nullableIndex, setBool, nullableCount + boolIndex, row[i],
                room, head, flags, data);
  }

  lemma {:induction false} NothingYet(shape: Shape, cs: seq<seq<byte>>, room: nat)
    ensures LiveCount(cs, room, 0) == 0 && JoinUpTo(cs, 0) == []
    ensures NullsBefore(shape, 0) == 0 && BoolsBefore(shape, 0) == 0
  {
  }

  method WriteColumns(b: ByteBuf, bits: array<byte>, at: nat, shape: Shape, row: seq<Value>, nullableCount: nat,
                      ghost cs: seq<seq<byte>>, ghost room: nat, ghost head: seq<byte>)
    requires |shape| == |row| && nullableCount == NullableCount(shape) && at == |head| && cs == Fields(row) && Indexable(shape)
    requires Between(b, bits, room, head, FlagsUpTo(shape, row, 0), [])
    requires |head| + FlagBytes(shape) + |JoinFrom(cs, 0)| <= MAX_BYTES
    modifies b, b.ptr, bits
    ensures Between(b, bits, room, head, FlagsUpTo(shape, row, LiveCount(cs, room, |row|)), JoinFrom(cs, 0))
  {
    hide Between, FlagsUpTo, LiveCount, JoinUpTo, JoinFrom, FieldBytes, NullsBefore, BoolsBefore;
    var nullableIndex, boolIndex := 0, 0;
    var i := 0;
    NothingYet(shape, cs, room);
    while i < |shape|
      invariant 0 <= i <= |shape|
      invariant b.ptr == old(b.ptr) || fresh(b.ptr)
      invariant nullableIndex == NullsBefore(shape, i) && boolIndex == BoolsBefore(shape, i)
      invariant Between(b, bits, room, head, FlagsUpTo(shape, row, LiveCount(cs, room, i)), JoinUpTo(cs, i))
    {
      CodeStep(shape, i);
      EncodeColumn(b, bits, at, shape, row, i, nullableCount, nullableIndex, boolIndex, cs, room, head);
      boolIndex := boolIndex + (if shape[i].core.BoolCore? then 1 else 0);
      nullableIndex := nullableIndex + (if shape[i].notNull then 0 else 1);
      i := i + 1;
    }
    JoinAll(cs);
  }

  /** Encodes a row at the end of a buffer.  The result depends on the buffer's numbers:
      only the columns before the first growth have their bits in it. */
  method CursorToByteBuf(shape: Shape, row: seq<Value>, b: ByteBuf)
    requires Fits(shape, row) && Indexable(shape)
    requires b.Valid() && b.used + EncodedSize(shape, row) <= MAX_BYTES
    modifies b, b.ptr
    ensures b.Valid()
    ensures b.Contents() == old(b.Contents()) +
                            EncodedLive(shape, row, LiveColumns(old(b.Numbers()), shape, row))
  {
    hide AllocStep, AfterOnes, Pack, FlagsUpTo, FieldBytes, Fields, JoinFrom, JoinUpTo, LiveCount, Codes, EncodedLive, InReach, NullsBefore, BoolsBefore;
    ghost var base := b.Contents();
    var nullableCount, boolCount := AppendCodes(shape, b);
    ghost var head := b.Contents();
    var at := AllocBits(b, (nullableCount + boolCount + 7) / 8);
    ghost var room := b.max - b.used;
    assert room == RoomAfterBits(old(b.Numbers()), shape);
    InitialFlags(shape, row);
    assert b.Contents() == head + Pack(FlagsUpTo(shape, row, 0)) + [];
    ghost var cs := Fields(row);
    WriteColumns(b, b.ptr, at, shape, row, nullableCount, cs, room, head);
    EncodedParts(base, shape, row, LiveCount(cs, room, |row|), b.Contents());
  }

  /** The encoding as the three steps leave it. */
  lemma {:induction false} EncodedParts(base: seq<byte>, shape: Shape, row: seq<Value>, live: nat, result: seq<byte>)
    requires |shape| == |row| && live <= |row|
    requires result == base + Codes(shape) + [0] + Pack(FlagsUpTo(shape, row, live)) + Payload(row)
    ensures result == base + EncodedLive(shape, row, live)
  {
    Assembled(base, Codes(shape), Pack(FlagsUpTo(shape, row, live)), Payload(row));
  }

  lemma {:induction false} InitialFlags(shape: Shape, row: seq<Value>)
    requires |shape| == |row|
    ensures Pack(FlagsUpTo(shape, row, 0)) == Zeros(FlagBytes(shape))
  {
    PackFalses(NullableCount(shape) + BoolCount(shape));
  }

  lemma {:induction false} Assembled(base: seq<byte>, codes: seq<byte>, packed: seq<byte>, data: seq<byte>)
    ensures base + codes + [0] + packed + data == base + (codes + [0] + packed + data)
  {
  }

  /** `cql_cursor_to_blob`: the same, in a buffer of its own. */
  method CursorToBlob(hasRow: bool, shape: Shape, row: seq<Value>) returns (blob: Option<seq<byte>>)
    requires hasRow ==> Fits(shape, row) && Indexable(shape) && EncodedSize(shape, row) <= MAX_BYTES
    ensures blob == if hasRow then Some(EncodedLive(shape, row, LiveColumns(OPENED, shape, row))) else None
  {
    if !hasRow {
      return None;
    }
    var b := new ByteBuf.Open();
    CursorToByteBuf(shape, row, b);
    blob := Some(b.ptr[..b.used]);
    ghost var encoded := EncodedLive(shape, row, LiveColumns(OPENED, shape, row));
    assert [] + encoded == encoded;
  }

  /** A blob larger than the initial buffer, followed by a nullable column with a value: the
      value is lost. */
  lemma {:induction false} BitLostAfterGrowth(big: seq<byte>)
    requires 2000 <= |big| < 0x8000_0000
    ensures var shape, row := [ColType(BlobCore, true), ColType(IntCore, false)], [Blob(big), Int(7)];
            Fits(shape, row) &&
            Decode(shape, EncodedLive(shape, row, LiveColumns(OPENED, shape, row))) != Some(row)
  {
    hide Decode, EncodedLive, LiveColumns, RoomAfterBits, FieldBytes, JoinUpTo, Fields, Fits, Compatible;
    var shape, row := [ColType(BlobCore, true), ColType(IntCore, false)], [Blob(big), Int(7)];
    BigRow(big, shape, row);
    BufferRoundTrip(OPENED, shape, row, shape);
    assert Project(row, shape) == row;
    RoomOfTwo(OPENED, shape);
    assert SetsBit(shape[1], row[1]) && |JoinUpTo(Fields(row), 1)| > RoomAfterBits(OPENED, shape);
  }

  lemma {:induction false} BigRow(big: seq<byte>, shape: Shape, row: seq<Value>)
    requires 2000 <= |big| < 0x8000_0000
    requires shape == [ColType(BlobCore, true), ColType(IntCore, false)] && row == [Blob(big), Int(7)]
    ensures Fits(shape, row) && Compatible(shape, shape) && |JoinUpTo(Fields(row), 1)| >= 2000
  {
    hide EncodeVarint;
    assert JoinUpTo(Fields(row), 1) == JoinUpTo(Fields(row), 0) + Fields(row)[0];
  }

  lemma {:induction false} RoomOfTwo(g: Gauge, shape: Shape)
    requires g.used == 0 && g.max == 1024 && |shape| == 2
    ensures RoomAfterBits(g, shape) <= 1024
  {
    assert AfterOnes(g, 1) == AllocStep(AfterOnes(g, 0), 1);
    assert AfterOnes(g, 2) == AllocStep(AfterOnes(g, 1), 1);
  }
}
