/** `cql_cursor_from_bytes`: reading an untrusted byte string into a cursor.  On failure
    the cursor has no row and owns no reference. */
module RowDecoder {
  import opened Bytes
  import opened BitVector
  import opened Varint
  import opened Row
  import opened RowCodec

  /** The number of references held in the first `n` cells. */
  function RefsIn(cells: seq<Value>, n: nat): (r: nat)
    requires n <= |cells|
  {
    if n == 0 then 0 else RefsIn(cells, n - 1) + (if IsRef(cells[n - 1]) then 1 else 0)
  }

  lemma {:induction false} RefsUpdate(cells: seq<Value>, n: nat, i: nat, v: Value)
    requires n <= |cells| && i < |cells|
    ensures RefsIn(cells[i := v], n) ==
            RefsIn(cells, n) + (if i < n then (if IsRef(v) then 1 else 0) - (if IsRef(cells[i]) then 1 else 0) else 0)
  {
    if n > 0 {
      RefsUpdate(cells, n - 1, i, v);
    }
  }

  lemma {:induction false} NoRefs(cells: seq<Value>, n: nat)
    requires n <= |cells| && forall i :: 0 <= i < n ==> !IsRef(cells[i])
    ensures RefsIn(cells, n) == 0
  {
    if n > 0 {
      NoRefs(cells, n - 1);
    }
  }

  /** The bytes before the first NUL: what the reader counts as type codes. */
  function CodeSpan(bytes: seq<byte>): nat
  {
    if 0 in bytes then FirstNul(bytes) else |bytes|
  }

  /** The scan of the codes ends before a 16-bit counter of them wraps: there are fewer than 65536, or
      one that the shape refuses comes first. */
  predicate ScanInRange(shape: Shape, bytes: seq<byte>)
  {
    CodeSpan(bytes) < 0x1_0000 || exists i :: 0 <= i < |shape| && i < |bytes| && !CodeOk(shape[i], bytes[i])
  }

  /** No index of a bool flag wraps in 16 bits. */
  predicate BitsInRange(shape: Shape, codes: seq<byte>)
  {
    forall i :: 0 <= i < |shape| && i < |codes| && shape[i].core.BoolCore? ==>
      LowerCount(codes) + BoolCodesBefore(codes, i) < 0x1_0000
  }

  /** What the decoder needs of its input. */
  predicate Readable(shape: Shape, bytes: seq<byte>)
  {
    && |shape| < 0x1_0000 && |bytes| < 0x8000_0000 && ScanInRange(shape, bytes)
    && (0 in bytes && Accepts(shape, bytes[..FirstNul(bytes)]) ==> BitsInRange(shape, bytes[..FirstNul(bytes)]))
  }

  lemma {:induction false} SpanBeyond(bytes: seq<byte>, n: nat)
    requires n <= |bytes| && 0 !in bytes[..n]
    ensures CodeSpan(bytes) >= n
  {
    if 0 in bytes {
      FirstNulBeyond(bytes, n);
    }
  }

  /** With few codes nothing can wrap. */
  lemma {:induction false} FewCodesReadable(shape: Shape, bytes: seq<byte>)
    requires |shape| < 0x1_0000 && |bytes| < 0x8000_0000 && CodeSpan(bytes) <= 0x8000
    ensures Readable(shape, bytes)
  {
    if 0 in bytes {
      var codes := bytes[..FirstNul(bytes)];
      forall i | 0 <= i < |shape| && i < |codes|
        ensures LowerCount(codes) + BoolCodesBefore(codes, i) < 0x1_0000
      {
        CodesAtMost(codes, |codes|);
        CodesAtMost(codes, i);
      }
    }
  }

  lemma {:induction false} NoCodesYet(codes: seq<byte>)
    ensures LowerBefore(codes, 0) == 0 && BoolCodesBefore(codes, 0) == 0
  {
  }

  lemma {:induction false} NextCode(codes: seq<byte>, i: nat)
    requires i < |codes|
    ensures LowerBefore(codes, i + 1) == LowerBefore(codes, i) + (if IsLower(codes[i]) then 1 else 0)
    ensures BoolCodesBefore(codes, i + 1) == BoolCodesBefore(codes, i) + (if IsBoolCode(codes[i]) then 1 else 0)
  {
  }

  lemma {:induction false} CodesAtMost(codes: seq<byte>, i: nat)
    requires i <= |codes|
    ensures LowerBefore(codes, i) <= i && BoolCodesBefore(codes, i) <= i
  {
    if i > 0 {
      CodesAtMost(codes, i - 1);
    }
  }

  /** Every reader can read what the encoder may write. */
  lemma {:induction false} EncodedReadable(writer: Shape, row: seq<Value>, live: nat, reader: Shape)
    requires |writer| == |row| && live <= |row| && Indexable(writer) && |reader| < 0x1_0000
    requires |EncodedLive(writer, row, live)| < 0x8000_0000
    ensures Readable(reader, EncodedLive(writer, row, live))
  {
    hide Code, CodeOk, IsLower, Pack, FlagsUpTo, Payload, LowerBefore, BoolCodesBefore, NullsBefore, BoolsBefore, FirstNul;
    var bytes, codes, rest := EncodedLive(writer, row, live), Codes(writer), Pack(FlagsUpTo(writer, row, live)) + Payload(row);
    NoNulInCodes(writer);
    FirstNulAfter(codes, rest);
    assert bytes == codes + [0] + rest;
    assert bytes[..|codes|] == codes;
    if Accepts(reader, codes) {
      CodeCounts(writer, |writer|);
      forall i | 0 <= i < |reader| && i < |codes| && reader[i].core.BoolCore?
        ensures LowerCount(codes) + BoolCodesBefore(codes, i) < 0x1_0000
      {
        BoolCodeCounts(codes, reader[i], i);
      }
    }
  }

  /** A code that a bool column accepts is counted. */
  lemma {:induction false} BoolCodeCounts(codes: seq<byte>, t: ColType, i: nat)
    requires i < |codes| && t.core.BoolCore? && CodeOk(t, codes[i])
    ensures BoolCodesBefore(codes, i) < BoolCodeCount(codes)
  {
    CodeCountsGrow(codes, i + 1, |codes|);
  }

  /** The failing case is real: 65536 acceptable codes, and the counter is zero again. */
  lemma {:induction false} ManyCodes(shape: Shape, bytes: seq<byte>)
    requires shape == [ColType(IntCore, true)] && |bytes| > 0x1_0000
    requires forall i :: 0 <= i < 0x1_0000 ==> bytes[i] == Code(shape[0])
    ensures !ScanInRange(shape, bytes)
  {
    SpanBeyond(bytes, 0x1_0000);
  }

  lemma {:induction false} FirstNulBeyond(bytes: seq<byte>, n: nat)
    requires 0 in bytes && n <= |bytes| && 0 !in bytes[..n]
    ensures FirstNul(bytes) >= n
  {
    if n > 0 {
      assert bytes[0] == bytes[..n][0] != 0;
      assert bytes[1..][..n - 1] == bytes[..n][1..];
      FirstNulBeyond(bytes[1..], n - 1);
    }
  }

  lemma {:induction false} FirstNulHere(bytes: seq<byte>, n: nat)
    requires n < |bytes| && bytes[n] == 0 && 0 !in bytes[..n]
    ensures 0 in bytes && FirstNul(bytes) == n
  {
    assert bytes == bytes[..n] + [0] + bytes[n + 1..];
    FirstNulAfter(bytes[..n], bytes[n + 1..]);
  }

  predicate FitsFrom(shape: Shape, i: nat, vs: seq<Value>)
  {
    i <= |shape| && |vs| == |shape| - i && forall k :: i <= k < |shape| ==> FitsCol(shape[k], vs[k - i])
  }

  lemma {:induction false} FitsCons(shape: Shape, i: nat, v: Value, tail: seq<Value>)
    requires i < |shape| && FitsCol(shape[i], v) && FitsFrom(shape, i + 1, tail)
    ensures FitsFrom(shape, i, [v] + tail)
  {
    hide FitsCol;
    forall k | i <= k < |shape|
      ensures FitsCol(shape[k], ([v] + tail)[k - i])
    {
      if k > i {
        assert ([v] + tail)[k - i] == tail[k - (i + 1)];
      }
    }
  }

  lemma {:induction false} DecodeFromFits(shape: Shape, v: Vector, p: Pos)
    requires p.i <= |shape| && Accepts(shape, v.codes) && |p.data| < 0x8000_0000
    ensures var r := DecodeFrom(shape, v, p); r.Some? ==> FitsFrom(shape, p.i, r.value)
    decreases |shape| - p.i
  {
    hide NextField, FitsCol, FitsFrom, Accepts;
    var r := DecodeFrom(shape, v, p);
    FitsNone(shape);
    if r.Some? && p.i < |shape| {
      FieldFits(shape, v, p);
      var f := NextField(shape, v, p).value;
      var q := Advance(shape, v, p, f.rest);
      DecodeFromFits(shape, v, q);
      var tail := DecodeFrom(shape, v, q).value;
      FitsCons(shape, p.i, f.value, tail);
    }
  }

  lemma {:induction false} FitsNone(shape: Shape)
    ensures FitsFrom(shape, |shape|, [])
  {
  }

  lemma {:induction false} FieldFits(shape: Shape, v: Vector, p: Pos)
    requires p.i < |shape| && Accepts(shape, v.codes) && |p.data| < 0x8000_0000
    ensures var f := NextField(shape, v, p);
            f.Some? ==> FitsCol(shape[p.i], f.value.value) && |f.value.rest| <= |p.data|
  {
    if p.i < |v.codes| {
      assert CodeOk(shape[p.i], v.codes[p.i]);
    }
  }

  /** A decoded row fits its shape: every not-null column is filled, with a value of its type. */
  lemma {:induction false} DecodeFits(shape: Shape, bytes: seq<byte>)
    requires |bytes| < 0x8000_0000
    ensures var r := Decode(shape, bytes); r.Some? ==> Fits(shape, r.value)
  {
    var r := Decode(shape, bytes);
    if r.Some? {
      var z := FirstNul(bytes);
      var codes := bytes[..z];
      var end := z + 1 + VectorBytes(codes);
      DecodeFromFits(shape, Vector(codes, bytes[z + 1..end], LowerCount(codes)), Pos(0, 0, 0, bytes[end..]));
    }
  }

  // ---------- reading one column ----------

  method ReadField(core: Core, flag: bool, input: InputBuf) returns (ok: bool, v: Value)
    requires input.Valid()
    modifies input
    ensures input.Valid()
    ensures ok == ParseField(core, flag, old(input.Rest())).Some?
    ensures ok ==> ParseField(core, flag, old(input.Rest())) == Some(Field(v, input.Rest()))
    ensures ok ==> v != Null && (IsRef(v) ==> IsRefCore(core))
  {
    v := Null;
    match core
    case IntCore =>
      var got, i := input.ReadVarint(W32);
      ok := got;
      if ok { v := Int(i); }
    case LongCore =>
      var got, l := input.ReadVarint(W64);
      ok := got;
      if ok { v := Long(l); }
    case RealCore =>
      var got, d := input.Read(8);
      ok := got;
      if ok { v := Real(d); }
    case BoolCore =>
      ok, v := true, Flag(flag);
    case TextCore =>
      ok, v := ReadText(input, flag);
    case BlobCore =>
      ok, v := ReadBlob(input, flag);
  }

  method ReadText(input: InputBuf, ghost flag: bool) returns (ok: bool, v: Value)
    requires input.Valid()
    modifies input
    ensures input.Valid()
    ensures ok == ParseField(TextCore, flag, old(input.Rest())).Some?
    ensures ok ==> v.Text? && ParseField(TextCore, flag, old(input.Rest())) == Some(Field(v, input.Rest()))
  {
    ghost var data := input.Rest();
    var got, s := input.ReadString();
    ok, v := got, Null;
    if ok {
      v := Text(s);
      FirstNulAfter(s, input.Rest());
      assert data[..|s|] == s && data[|s| + 1..] == input.Rest();
    }
  }

  method ReadBlob(input: InputBuf, ghost flag: bool) returns (ok: bool, v: Value)
    requires input.Valid()
    modifies input
    ensures input.Valid()
    ensures ok == ParseField(BlobCore, flag, old(input.Rest())).Some?
    ensures ok ==> v.Blob? && ParseField(BlobCore, flag, old(input.Rest())) == Some(Field(v, input.Rest()))
  {
    v := Null;
    var got, count := input.ReadVarint(W32);
    if !got {
      return false, v;
    }
    var size := if count < 0 then count + 0x1_0000_0000 else count;
    var more, bytes := input.Read(size);
    ok := more;
    if ok {
      v := Blob(bytes);
    }
  }

  /** `cql_getbit`, whose index is 16 bits wide. */
  predicate GetBit(bits: seq<byte>, i: nat)
    requires ToUint16(i) / 8 < |bits|
  {
    ByteBit(bits[ToUint16(i) / 8], ToUint16(i) % 8)
  }

  lemma {:induction false} FlagOnlyForBools(core: Core, f: bool, g: bool, data: seq<byte>)
    requires core.BoolCore? ==> f == g
    ensures ParseField(core, f, data) == ParseField(core, g, data)
  {
  }

  /** How the scan of the type codes ends.  Out of range, it reads a type past the shape. */
  datatype Scan = Accepted | Refused | OutOfRange

  /** While the writer has columns left, the reader's flag cursors are the counts of the
      codes passed, so both stay inside the vector. */
  predicate InStep(codes: seq<byte>, p: Pos)
  {
    p.i <= |codes| ==> p.nulls == LowerBefore(codes, p.i) && p.bools == BoolCodesBefore(codes, p.i)
  }

  lemma {:induction false} CodeCountsGrow(codes: seq<byte>, k: nat, i: nat)
    requires k <= i <= |codes|
    ensures LowerBefore(codes, k) <= LowerBefore(codes, i)
    ensures BoolCodesBefore(codes, k) <= BoolCodesBefore(codes, i)
    decreases i
  {
    if k < i {
      CodeCountsGrow(codes, k, i - 1);
    }
  }

  lemma {:induction false} StaysInStep(shape: Shape, v: Vector, p: Pos, rest: seq<byte>)
    requires p.i < |shape| && Accepts(shape, v.codes) && InStep(v.codes, p)
    ensures InStep(v.codes, Advance(shape, v, p, rest))
    ensures p.i < |v.codes| && !IsUpper(v.codes[p.i]) ==> p.nulls < LowerCount(v.codes)
    ensures p.i < |v.codes| && shape[p.i].core.BoolCore? ==> p.bools < BoolCodeCount(v.codes)
  {
    if p.i < |v.codes| {
      assert CodeOk(shape[p.i], v.codes[p.i]);
      CodeCountsGrow(v.codes, p.i + 1, |v.codes|);
    }
  }

  lemma {:induction false} DecodeRefuses(shape: Shape, bytes: seq<byte>)
    requires 0 in bytes ==> !Accepts(shape, bytes[..FirstNul(bytes)])
    ensures Decode(shape, bytes) == None
  {
  }

  lemma {:induction false} DecodeShort(shape: Shape, bytes: seq<byte>, z: nat)
    requires 0 in bytes && z == FirstNul(bytes) && VectorBytes(bytes[..z]) > |bytes[z + 1..]|
    ensures Decode(shape, bytes) == None
  {
  }

  lemma {:induction false} TakenApart(bytes: seq<byte>, codes: seq<byte>, bits: seq<byte>, data: seq<byte>)
    requires |codes| + 1 + |bits| <= |bytes| && codes == bytes[..|codes|] && bytes[|codes|] == 0
    requires bits == bytes[|codes| + 1..][..|bits|] && data == bytes[|codes| + 1..][|bits|..]
    ensures bytes == codes + [0] + bits + data
  {
    var rest := bytes[|codes| + 1..];
    assert rest == bits + data;
    assert bytes == codes + [0] + rest;
  }

  /** Prefixes already read, put before what decoding from `p` yields. */
  function Onto(done: seq<Value>, rest: Option<seq<Value>>): Option<seq<Value>>
  {
    match rest
    case None => None
    case Some(vs) => Some(done + vs)
  }

  lemma {:induction false} OntoStep(done: seq<Value>, v: Value, rest: Option<seq<Value>>)
    ensures Onto(done, Onto([v], rest)) == Onto(done + [v], rest)
  {
    if rest.Some? {
      assert done + ([v] + rest.value) == done + [v] + rest.value;
    }
  }

  // ---------- the cursor ----------

  class Cursor {
    const shape: Shape
    const cells: array<Value>
    var hasRow: bool
    var owned: nat

    /** `owned` counts the references the cells hold; only reference columns hold any. */
    ghost predicate Valid()
      reads this, cells
    {
      && cells.Length == |shape|
      && owned == RefsIn(cells[..], |shape|)
      && forall i :: 0 <= i < |shape| && IsRef(cells[i]) ==> IsRefCore(shape[i].core)
    }

    constructor (shape: Shape)
      ensures Valid() && this.shape == shape && !hasRow && owned == 0 && fresh(cells)
    {
      this.shape := shape;
      cells := new Value[|shape|](_ => Null);
      hasRow := false;
      owned := 0;
      new;
      NoRefs(cells[..], |shape|);
    }

    /** Stores into an empty slot; a string or blob is a new reference. */
    method Store(i: nat, v: Value)
      requires Valid() && i < |shape| && !IsRef(cells[i]) && (IsRef(v) ==> IsRefCore(shape[i].core))
      modifies this`owned, cells
      ensures Valid() && cells[..] == old(cells[..])[i := v]
    {
      RefsUpdate(cells[..], |shape|, i, v);
      assert cells[..][i := v] == cells[..i] + [v] + cells[i + 1..];
      cells[i] := v;
      assert cells[..] == old(cells[..])[i := v];
      if IsRef(v) {
        owned := owned + 1;
      }
    }

    /** `cql_release_offsets` on the reference columns. */
    method ReleaseRefs()
      requires Valid()
      modifies this`owned, cells
      ensures Valid() && owned == 0
      ensures forall i :: 0 <= i < |shape| ==> !IsRef(cells[i])
      ensures forall i :: 0 <= i < |shape| && IsRefCore(shape[i].core) ==> cells[i] == Null
    {
      var i := 0;
      while i < |shape|
        invariant 0 <= i <= |shape| && Valid()
        invariant forall k :: 0 <= k < i && IsRefCore(shape[k].core) ==> cells[k] == Null
      {
        if IsRefCore(shape[i].core) {
          RefsUpdate(cells[..], |shape|, i, Null);
          var held := IsRef(cells[i]);
          cells[i] := Null;
          if held {
            owned := owned - 1;
          }
        }
        i := i + 1;
      }
      NoRefs(cells[..], |shape|);
    }

    /** The type codes: counted in 16 bits, and checked against the columns needed. */
    method ReadCodes(input: InputBuf) returns (scan: Scan, nullableCount: nat, boolCount: nat, actual: nat)
      requires input.Valid() && input.data == 0 && |shape| < 0x1_0000
      modifies input
      ensures input.Valid()
      ensures scan == OutOfRange <==> !ScanInRange(shape, input.source)
      ensures scan == Accepted <==>
                (ScanInRange(shape, input.source) && 0 in input.source && Accepts(shape, input.source[..FirstNul(input.source)]))
      ensures scan == Accepted ==>
                && actual == FirstNul(input.source) < 0x1_0000
                && nullableCount == LowerCount(input.source[..actual])
                && boolCount == BoolCodeCount(input.source[..actual])
                && input.Rest() == input.source[actual + 1..]
    {
      hide ToUint16, CodeOk, IsLower, IsBoolCode, LowerBefore, BoolCodesBefore, FirstNul;
      ghost var bytes := input.source;
      NoCodesYet(bytes);
      scan, nullableCount, boolCount, actual := Refused, 0, 0, 0;
      var i := 0;
      var done := false;
      while !done
        invariant input.Valid() && actual + (if done then 1 else 0) == input.data <= |bytes|
        invariant 0 !in bytes[..actual] && actual < 0x1_0000
        invariant done ==> bytes[actual] == 0
        invariant i == (if actual < |shape| then actual else |shape|)
        invariant forall k :: 0 <= k < i ==> CodeOk(shape[k], bytes[k])
        invariant nullableCount == LowerBefore(bytes, actual) && boolCount == BoolCodesBefore(bytes, actual)
        decreases input.remaining
      {
        var got, b := input.Read(1);
        if !got {
          assert bytes[..actual] == bytes;
          return;
        }
        var code := b[0];
        assert code == bytes[actual];
        if code == 0 {
          done := true;
        } else {
          CodesAtMost(bytes, actual);
          NextCode(bytes, actual);
          if IsLower(code) {
            nullableCount := ToUint16(nullableCount + 1);
          }
          if IsBoolCode(code) {
            boolCount := ToUint16(boolCount + 1);
          }
          assert bytes[..actual + 1] == bytes[..actual] + [code];
          SpanBeyond(bytes, actual + 1);
          actual := ToUint16(actual + 1);
          if actual <= |shape| {
            if i >= |shape| {
              return OutOfRange, 0, 0, 0;
            }
            if !CodeOk(shape[i], code) {
              RefusedCode(shape, bytes, i);
              return;
            }
            i := i + 1;
          }
        }
      }
      FirstNulHere(bytes, actual);
      CountsOfPrefix(bytes, actual, actual);
      var ok := MissingAreNullable(i);
      scan := if ok then Accepted else Refused;
      if i < actual {
        assert forall k :: 0 <= k < |shape| ==> bytes[..actual][k] == bytes[k];
      }
    }

    /** The columns from `from` on may all be left out. */
    method MissingAreNullable(from: nat) returns (ok: bool)
      requires from <= |shape|
      ensures ok <==> forall k :: from <= k < |shape| ==> !shape[k].notNull
    {
      var i := from;
      while i < |shape|
        invariant from <= i <= |shape|
        invariant forall k :: from <= k < i ==> !shape[k].notNull
      {
        if shape[i].notNull {
          return false;
        }
        i := i + 1;
      }
      return true;
    }

    /** Column `i`, into its cell. */
    method ReadColumn(input: InputBuf, i: nat, codes: seq<byte>, bits: seq<byte>, nullableCount: nat,
                      nullableIndex: nat, boolIndex: nat)
      returns (ok: bool)
      requires Valid() && input.Valid() && i < |shape| && !IsRef(cells[i])
      requires Accepts(shape, codes) && InStep(codes, Pos(i, nullableIndex, boolIndex, input.Rest()))
      requires nullableCount == LowerCount(codes) && |bits| == VectorBytes(codes) && |codes| < 0x1_0000 && BitsInRange(shape, codes)
      modifies this`owned, cells, input
      ensures Valid() && input.Valid()
      ensures var f := NextField(shape, Vector(codes, bits, nullableCount),
                                 Pos(i, nullableIndex, boolIndex, old(input.Rest())));
              && ok == f.Some?
              && if ok then cells[..] == old(cells[..])[i := f.value.value] && input.Rest() == f.value.rest
                 else cells[..] == old(cells[..])
    {
      hide ToUint16, ByteBit, ParseField, LowerBefore, BoolCodesBefore;
      ghost var v, p := Vector(codes, bits, nullableCount), Pos(i, nullableIndex, boolIndex, input.Rest());
      StaysInStep(shape, v, p, []);
      CodesAtMost(codes, |codes|);
      var core := shape[i].core;
      var fetch := false;
      if i < |codes| {
        if IsUpper(codes[i]) {
          fetch := true;
        } else {
          fetch := GetBit(bits, nullableIndex);
        }
      }
      assert fetch == Present(v, p);
      var value := Null;
      ok := true;
      if fetch {
        var flag := core.BoolCore? && GetBit(bits, nullableCount + boolIndex);
        FlagOnlyForBools(core, flag, BitAt(bits, nullableCount + boolIndex), input.Rest());
        ok, value := ReadField(core, flag, input);
      }
      if ok {
        Store(i, value);
      }
    }

    /** All columns: either the row, or a failure somewhere along it. */
    method ReadFields(input: InputBuf, codes: seq<byte>, bits: seq<byte>, nullableCount: nat) returns (ok: bool)
      requires Valid() && input.Valid() && Accepts(shape, codes) && |codes| < 0x1_0000 && BitsInRange(shape, codes)
      requires nullableCount == LowerCount(codes) && |bits| == VectorBytes(codes)
      requires forall k :: 0 <= k < |shape| ==> !IsRef(cells[k])
      modifies this`owned, cells, input
      ensures Valid()
      ensures var r := DecodeFrom(shape, Vector(codes, bits, nullableCount), Pos(0, 0, 0, old(input.Rest())));
              ok == r.Some? && (ok ==> cells[..] == r.value)
    {
      ghost var v := Vector(codes, bits, nullableCount);
      ghost var whole := DecodeFrom(shape, v, Pos(0, 0, 0, input.Rest()));
      ghost var p := Pos(0, 0, 0, input.Rest());
      var nullableIndex, boolIndex := 0, 0;
      var i := 0;
      assert whole == Onto(cells[..i], DecodeFrom(shape, v, p)) by {
        assert whole.Some? ==> [] + whole.value == whole.value;
      }
      while i < |shape|
        invariant 0 <= i <= |shape| && Valid() && input.Valid()
        invariant p == Pos(i, nullableIndex, boolIndex, input.Rest())
        invariant InStep(codes, p)
        invariant forall k :: i <= k < |shape| ==> !IsRef(cells[k])
        invariant whole == Onto(cells[..i], DecodeFrom(shape, v, p))
      {
        ghost var before := cells[..];
        ghost var f := NextField(shape, v, p);
        ok := ReadColumn(input, i, codes, bits, nullableCount, nullableIndex, boolIndex);
        if !ok {
          return;
        }
        StaysInStep(shape, v, p, f.value.rest);
        ghost var q := Advance(shape, v, p, f.value.rest);
        assert DecodeFrom(shape, v, p) == Onto([f.value.value], DecodeFrom(shape, v, q));
        OntoStep(before[..i], f.value.value, DecodeFrom(shape, v, q));
        assert cells[..i + 1] == before[..i] + [f.value.value];
        nullableIndex := nullableIndex + (if i < |codes| && !IsUpper(codes[i]) then 1 else 0);
        boolIndex := boolIndex + (if shape[i].core.BoolCore? then 1 else 0);
        i := i + 1;
        p := q;
      }
      assert cells[..] + [] == cells[..] == cells[..i];
      ok := true;
    }

    /** The steps of `cql_cursor_from_bytes` before its error label. */
    method TryDecode(bytes: seq<byte>) returns (ok: bool)
      requires Valid() && Readable(shape, bytes)
      requires forall k :: 0 <= k < |shape| ==> !IsRef(cells[k])
      modifies this`owned, cells
      ensures Valid()
      ensures ok == Decode(shape, bytes).Some?
      ensures ok ==> cells[..] == Decode(shape, bytes).value
    {
      hide Decode, DecodeFrom, FirstNul, Accepts, LowerCount, BoolCodeCount, ScanInRange, BitsInRange, CodeOk, RefsIn, IsRef;
      var input := new InputBuf(bytes);
      var scan, nullableCount, boolCount, actual := ReadCodes(input);
      if scan != Accepted {
        DecodeRefuses(shape, bytes);
        return false;
      }
      var codes := bytes[..actual];
      var bits;
      ok, bits := input.Read((nullableCount + boolCount + 7) / 8);
      if !ok {
        DecodeShort(shape, bytes, actual);
        return;
      }
      TakenApart(bytes, codes, bits, input.Rest());
      DecodeParts(shape, codes, bits, input.Rest());
      ok := ReadFields(input, codes, bits, nullableCount);
    }

    /** Reads a byte string into the cursor.  Success is exactly `Decode`, and the row then
        fits the shape; failure leaves no row, no reference in any cell, and none outstanding. */
    method FromBytes(bytes: seq<byte>) returns (ok: bool)
      requires Valid() && Readable(shape, bytes)
      modifies this, cells
      ensures Valid()
      ensures ok == Decode(shape, bytes).Some? == hasRow
      ensures ok ==> cells[..] == Decode(shape, bytes).value && Fits(shape, cells[..])
      ensures !ok ==> owned == 0 && forall i :: 0 <= i < |shape| ==> !IsRef(cells[i])
    {
      hasRow := false;
      ReleaseRefs();
      ok := TryDecode(bytes);
      if ok {
        DecodeFits(shape, bytes);
        hasRow := true;
      } else {
        hasRow := false;
        ReleaseRefs();
      }
    }
  }

  lemma {:induction false} RefusedCode(shape: Shape, bytes: seq<byte>, i: nat)
    requires i < |shape| && i < |bytes| && 0 !in bytes[..i + 1] && !CodeOk(shape[i], bytes[i])
    ensures ScanInRange(shape, bytes) && (0 in bytes ==> !Accepts(shape, bytes[..FirstNul(bytes)]))
  {
    if 0 in bytes {
      FirstNulBeyond(bytes, i + 1);
      assert bytes[..FirstNul(bytes)][i] == bytes[i];
    }
  }

  lemma {:induction false} CountsOfPrefix(bytes: seq<byte>, n: nat, i: nat)
    requires i <= n <= |bytes|
    ensures LowerBefore(bytes[..n], i) == LowerBefore(bytes, i)
    ensures BoolCodesBefore(bytes[..n], i) == BoolCodesBefore(bytes, i)
  {
    if i > 0 {
      CountsOfPrefix(bytes, n, i - 1);
    }
  }
}
