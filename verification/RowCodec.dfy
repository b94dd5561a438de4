/** The versioned row encoding: type codes and a NUL, the packed null and bool flags,
    then the column data.  `Encoded` and `Decode` say what is written and how any byte
    string is read under any shape; the theorems relate the two. */
module RowCodec {
  import opened Bytes
  import opened BitVector
  import opened Varint
  import opened Row

  // ---------- type codes ----------

  /** 'I', 'L', 'D', 'F', 'S', 'B'. */
  function Letter(c: Core): byte
  {
    match c
    case IntCore => 73
    case LongCore => 76
    case RealCore => 68
    case BoolCore => 70
    case TextCore => 83
    case BlobCore => 66
  }

  /** Upper case for not null, lower case for nullable. */
  function Code(t: ColType): byte
  {
    Letter(t.core) + (if t.notNull then 0 else 32)
  }

  function Codes(shape: Shape): (s: seq<byte>)
    ensures |s| == |shape|
  {
    seq(|shape|, i requires 0 <= i < |shape| => Code(shape[i]))
  }

  predicate IsLower(c: byte)
  {
    97 <= c <= 122
  }

  predicate IsUpper(c: byte)
  {
    65 <= c <= 90
  }

  predicate IsBoolCode(c: byte)
  {
    c == 70 || c == 102
  }

  /** How many of the first `i` codes are lower case, and how many are bool codes. */
  function LowerBefore(codes: seq<byte>, i: nat): (n: nat)
    requires i <= |codes|
    ensures n <= i
  {
    if i == 0 then 0 else LowerBefore(codes, i - 1) + (if IsLower(codes[i - 1]) then 1 else 0)
  }

  function BoolCodesBefore(codes: seq<byte>, i: nat): (n: nat)
    requires i <= |codes|
    ensures n <= i
  {
    if i == 0 then 0 else BoolCodesBefore(codes, i - 1) + (if IsBoolCode(codes[i - 1]) then 1 else 0)
  }

  function LowerCount(codes: seq<byte>): nat
  {
    LowerBefore(codes, |codes|)
  }

  function BoolCodeCount(codes: seq<byte>): nat
  {
    BoolCodesBefore(codes, |codes|)
  }

  // ---------- flags ----------

  /** How many of the first `i` columns are nullable, and how many are bools. */
  function NullsBefore(shape: Shape, i: nat): (n: nat)
    requires i <= |shape|
    ensures n <= i
  {
    if i == 0 then 0 else NullsBefore(shape, i - 1) + (if shape[i - 1].notNull then 0 else 1)
  }

  function BoolsBefore(shape: Shape, i: nat): (n: nat)
    requires i <= |shape|
    ensures n <= i
  {
    if i == 0 then 0 else BoolsBefore(shape, i - 1) + (if shape[i - 1].core.BoolCore? then 1 else 0)
  }

  function NullableCount(shape: Shape): nat
  {
    NullsBefore(shape, |shape|)
  }

  function BoolCount(shape: Shape): nat
  {
    BoolsBefore(shape, |shape|)
  }

  /** The 16-bit counters can count the columns and index every flag. */
  predicate Indexable(shape: Shape)
  {
    |shape| < 0x1_0000 && NullableCount(shape) + BoolCount(shape) <= 0x1_0000
  }

  lemma {:induction false} CountsGrow(shape: Shape, k: nat, i: nat)
    requires k <= i <= |shape|
    ensures NullsBefore(shape, k) <= NullsBefore(shape, i)
    ensures BoolsBefore(shape, k) <= BoolsBefore(shape, i)
    decreases i
  {
    if k < i {
      CountsGrow(shape, k, i - 1);
    }
  }

  /** The reader's counts of a writer's codes are the writer's own. */
  lemma {:induction false} CodeCounts(shape: Shape, i: nat)
    requires i <= |shape|
    ensures LowerBefore(Codes(shape), i) == NullsBefore(shape, i)
    ensures BoolCodesBefore(Codes(shape), i) == BoolsBefore(shape, i)
  {
    if i > 0 {
      CodeCounts(shape, i - 1);
    }
  }

  /** The two bits the encoder may raise for column `i`. */
  predicate RaisesNull(shape: Shape, row: seq<Value>, i: nat)
    requires |shape| == |row| && i < |shape|
  {
    !shape[i].notNull && row[i] != Null
  }

  predicate RaisesBool(shape: Shape, row: seq<Value>, i: nat)
    requires |shape| == |row| && i < |shape|
  {
    shape[i].core.BoolCore? && row[i] == Flag(true)
  }

  function Raised(flags: seq<bool>, setNull: bool, nullAt: nat, setBool: bool, boolAt: nat): (f: seq<bool>)
    requires (setNull ==> nullAt < |flags|) && (setBool ==> boolAt < |flags|)
    ensures |f| == |flags|
  {
    var f1 := if setNull then flags[nullAt := true] else flags;
    if setBool then f1[boolAt := true] else f1
  }

  /** The flags when the bits of the first `k` columns have been set: one flag for each
      nullable column, raised if it has a value, then one for each bool column, raised if
      it is true. */
  function FlagsUpTo(shape: Shape, row: seq<Value>, k: nat): (f: seq<bool>)
    requires |shape| == |row| && k <= |shape|
    ensures |f| == NullableCount(shape) + BoolCount(shape)
  {
    if k == 0 then Falses(NullableCount(shape) + BoolCount(shape))
    else
      var i := k - 1;
      CountsGrow(shape, i + 1, |shape|);
      Raised(FlagsUpTo(shape, row, i), RaisesNull(shape, row, i), NullsBefore(shape, i),
             RaisesBool(shape, row, i), NullableCount(shape) + BoolsBefore(shape, i))
  }

  // ---------- column data ----------

  function FieldBytes(v: Value): seq<byte>
  {
    match v
    case Null => []
    case Int(i) => EncodeVarint(i)
    case Long(l) => EncodeVarint(l)
    case Real(d) => d
    case Flag(_) => []
    case Text(s) => s + [0]
    case Blob(s) => EncodeVarint(|s|) + s
  }

  function Fields(row: seq<Value>): (cs: seq<seq<byte>>)
    ensures |cs| == |row|
  {
    seq(|row|, i requires 0 <= i < |row| => FieldBytes(row[i]))
  }

  function Payload(row: seq<Value>): seq<byte>
  {
    JoinFrom(Fields(row), 0)
  }

  // ---------- the encoding ----------

  /** The bytes the encoder leaves when only the first `live` columns got their bits into
      the final buffer.  With `live == |shape|` nothing is lost. */
  function EncodedLive(shape: Shape, row: seq<Value>, live: nat): (s: seq<byte>)
    requires |shape| == |row| && live <= |shape|
  {
    Codes(shape) + [0] + Pack(FlagsUpTo(shape, row, live)) + Payload(row)
  }

  function Encoded(shape: Shape, row: seq<Value>): seq<byte>
    requires |shape| == |row|
  {
    EncodedLive(shape, row, |shape|)
  }

  /** The encoder raises a bit for this column. */
  predicate SetsBit(t: ColType, v: Value)
  {
    (!t.notNull && v != Null) || v == Flag(true)
  }

  // ---------- decoding ----------

  /** The reader's test of one type code against the column it needs. */
  predicate CodeOk(t: ColType, c: byte)
  {
    !(t.notNull && IsLower(c)) && (if IsLower(c) then c - 32 else c) == Letter(t.core)
  }

  /** Codes match on the common prefix and every column the writer lacks is nullable. */
  predicate Accepts(shape: Shape, codes: seq<byte>)
  {
    && (forall i :: 0 <= i < |shape| && i < |codes| ==> CodeOk(shape[i], codes[i]))
    && (forall i :: |codes| <= i < |shape| ==> !shape[i].notNull)
  }

  datatype Field = Field(value: Value, rest: seq<byte>)

  /** One present column; `flag` is its bool bit. */
  function ParseField(c: Core, flag: bool, data: seq<byte>): (r: Option<Field>)
  {
    match c
    case IntCore =>
      (match ParseVarint(W32, data)
       case None => None
       case Some(p) => Some(Field(Int(p.value), data[p.length..])))
    case LongCore =>
      (match ParseVarint(W64, data)
       case None => None
       case Some(p) => Some(Field(Long(p.value), data[p.length..])))
    case RealCore => if |data| < 8 then None else Some(Field(Real(data[..8]), data[8..]))
    case BoolCore => Some(Field(Flag(flag), data))
    case TextCore =>
      if 0 !in data then None
      else
        var z := FirstNul(data);
        Some(Field(Text(data[..z]), data[z + 1..]))
    case BlobCore =>
      (match ParseVarint(W32, data)
       case None => None
       case Some(p) =>
         var rest := data[p.length..];
         // the signed size is read as unsigned: a negative one is too big for any input
         var size := if p.value < 0 then p.value + 0x1_0000_0000 else p.value;
         if size > |rest| then None else Some(Field(Blob(rest[..size]), rest[size..])))
  }

  function FirstNul(s: seq<byte>): (z: nat)
    requires 0 in s
    ensures z < |s| && s[z] == 0 && 0 !in s[..z]
  {
    if s[0] == 0 then 0
    else
      var z := 1 + FirstNul(s[1..]);
      assert s[..z] == [s[0]] + s[1..][..z - 1];
      z
  }

  lemma {:induction false} FirstNulAfter(a: seq<byte>, b: seq<byte>)
    requires 0 !in a
    ensures 0 in a + [0] + b && FirstNul(a + [0] + b) == |a|
  {
    var s := a + [0] + b;
    assert s[|a|] == 0;
    if a != [] {
      assert s[1..] == a[1..] + [0] + b;
      FirstNulAfter(a[1..], b);
    }
  }

  /** Where the reader stands: next column, next null flag, next bool flag, unread data. */
  datatype Pos = Pos(i: nat, nulls: nat, bools: nat, data: seq<byte>)

  datatype Vector = Vector(codes: seq<byte>, bits: seq<byte>, nullableCount: nat)

  /** Whether column `p.i` has data in the input. */
  predicate Present(v: Vector, p: Pos)
  {
    p.i < |v.codes| && (IsUpper(v.codes[p.i]) || BitAt(v.bits, p.nulls))
  }

  function NextField(shape: Shape, v: Vector, p: Pos): (r: Option<Field>)
    requires p.i < |shape|
  {
    if Present(v, p) then
      ParseField(shape[p.i].core, BitAt(v.bits, v.nullableCount + p.bools), p.data)
    else Some(Field(Null, p.data))
  }

  function Advance(shape: Shape, v: Vector, p: Pos, rest: seq<byte>): Pos
    requires p.i < |shape|
  {
    Pos(p.i + 1,
        p.nulls + (if p.i < |v.codes| && !IsUpper(v.codes[p.i]) then 1 else 0),
        p.bools + (if shape[p.i].core.BoolCore? then 1 else 0),
        rest)
  }

  /** The columns from `p` on. */
  function DecodeFrom(shape: Shape, v: Vector, p: Pos): (r: Option<seq<Value>>)
    requires p.i <= |shape|
    ensures r.Some? ==> |r.value| == |shape| - p.i
    decreases |shape| - p.i
  {
    if p.i == |shape| then Some([])
    else
      match NextField(shape, v, p)
      case None => None
      case Some(f) =>
        match DecodeFrom(shape, v, Advance(shape, v, p, f.rest))
        case None => None
        case Some(vs) => Some([f.value] + vs)
  }

  function VectorBytes(codes: seq<byte>): nat
  {
    (LowerCount(codes) + BoolCodeCount(codes) + 7) / 8
  }

  /** Reading an arbitrary byte string as a row of `shape`: the row, or failure. */
  function Decode(shape: Shape, bytes: seq<byte>): (r: Option<seq<Value>>)
    ensures r.Some? ==> |r.value| == |shape|
  {
    if 0 !in bytes then None
    else
      var z := FirstNul(bytes);
      var codes := bytes[..z];
      var end := z + 1 + VectorBytes(codes);
      if !Accepts(shape, codes) || end > |bytes| then None
      else DecodeFrom(shape, Vector(codes, bytes[z + 1..end], LowerCount(codes)), Pos(0, 0, 0, bytes[end..]))
  }

  // ---------- what a reader shape must satisfy ----------

  /** Core types agree on the common prefix, the reader is nullable wherever the writer is,
      and whatever only the reader has is nullable. */
  predicate Compatible(writer: Shape, reader: Shape)
  {
    && (forall i :: 0 <= i < |writer| && i < |reader| ==>
          reader[i].core == writer[i].core && (reader[i].notNull ==> writer[i].notNull))
    && (forall i :: |writer| <= i < |reader| ==> !reader[i].notNull)
  }

  /** The row a reader should see: common columns, then nulls. */
  function Project(row: seq<Value>, reader: Shape): (r: seq<Value>)
    ensures |r| == |reader|
  {
    seq(|reader|, i requires 0 <= i < |reader| => if i < |row| then row[i] else Null)
  }

  lemma {:induction false} AcceptsIsCompatible(writer: Shape, reader: Shape)
    ensures Accepts(reader, Codes(writer)) <==> Compatible(writer, reader)
  {
    forall i | 0 <= i < |writer| && i < |reader|
      ensures CodeOk(reader[i], Codes(writer)[i]) <==>
              (reader[i].core == writer[i].core && (reader[i].notNull ==> writer[i].notNull))
    {
    }
  }

  // ---------- reading back one column ----------

  lemma {:induction false} ParseText(s: seq<byte>, flag: bool, rest: seq<byte>)
    requires 0 !in s
    ensures ParseField(TextCore, flag, s + [0] + rest) == Some(Field(Text(s), rest))
  {
    FirstNulAfter(s, rest);
    assert (s + [0] + rest)[..|s|] == s && (s + [0] + rest)[|s| + 1..] == rest;
  }

  lemma {:induction false} ParseBlob(s: seq<byte>, flag: bool, rest: seq<byte>)
    requires |s| < 0x8000_0000
    ensures ParseField(BlobCore, flag, EncodeVarint(|s|) + s + rest) == Some(Field(Blob(s), rest))
  {
    var size := EncodeVarint(|s|);
    VarintRoundTrip(W32, |s|, s + rest);
    assert size + s + rest == size + (s + rest);
    assert (size + (s + rest))[|size|..] == s + rest;
    assert (s + rest)[..|s|] == s && (s + rest)[|s|..] == rest;
  }

  lemma {:induction false} ParseFieldOfBytes(t: ColType, v: Value, flag: bool, rest: seq<byte>)
    requires FitsCol(t, v) && v != Null && (v.Flag? ==> v.b == flag)
    ensures ParseField(t.core, flag, FieldBytes(v) + rest) == Some(Field(v, rest))
  {
    match v
    case Int(i) =>
      VarintRoundTrip(W32, i, rest);
      assert (EncodeVarint(i) + rest)[|EncodeVarint(i)|..] == rest;
    case Long(l) =>
      VarintRoundTrip(W64, l, rest);
      assert (EncodeVarint(l) + rest)[|EncodeVarint(l)|..] == rest;
    case Real(d) =>
      assert (d + rest)[..8] == d && (d + rest)[8..] == rest;
    case Flag(_) =>
      assert [] + rest == rest;
    case Text(s) =>
      ParseText(s, flag, rest);
    case Blob(s) =>
      ParseBlob(s, flag, rest);
  }

  // ---------- the flags a column finds ----------

  lemma {:induction false} NullFlagUpTo(shape: Shape, row: seq<Value>, k: nat, i: nat)
    requires |shape| == |row| && k <= |shape| && i < |shape| && !shape[i].notNull
    ensures NullsBefore(shape, i) < NullableCount(shape)
    ensures FlagsUpTo(shape, row, k)[NullsBefore(shape, i)] == (i < k && row[i] != Null)
    decreases k
  {
    CountsGrow(shape, i + 1, |shape|);
    if k > 0 {
      NullFlagUpTo(shape, row, k - 1, i);
      CountsGrow(shape, k, |shape|);
      if i < k - 1 {
        CountsGrow(shape, i + 1, k - 1);
      } else if k - 1 < i {
        CountsGrow(shape, k, i);
      }
    }
  }

  lemma {:induction false} BoolFlagUpTo(shape: Shape, row: seq<Value>, k: nat, i: nat)
    requires |shape| == |row| && k <= |shape| && i < |shape| && shape[i].core.BoolCore?
    ensures BoolsBefore(shape, i) < BoolCount(shape)
    ensures FlagsUpTo(shape, row, k)[NullableCount(shape) + BoolsBefore(shape, i)] == (i < k && row[i] == Flag(true))
    decreases k
  {
    CountsGrow(shape, i + 1, |shape|);
    if k > 0 {
      BoolFlagUpTo(shape, row, k - 1, i);
      CountsGrow(shape, k, |shape|);
      if i < k - 1 {
        CountsGrow(shape, i + 1, k - 1);
      } else if k - 1 < i {
        CountsGrow(shape, k, i);
      }
    }
  }

  /** The flags of a live column are its own; those of a column past the live ones are clear. */
  predicate FlagsOf(v: Vector, shape: Shape, row: seq<Value>, live: nat, i: nat)
    requires |shape| == |row| && i < |shape|
  {
    && (!shape[i].notNull ==>
          BitAt(v.bits, NullsBefore(shape, i)) == (i < live && row[i] != Null))
    && (shape[i].core.BoolCore? ==>
          BitAt(v.bits, v.nullableCount + BoolsBefore(shape, i)) == (i < live && row[i] == Flag(true)))
  }

  /** A vector as the reader finds it, in terms of the row alone. */
  predicate Describes(v: Vector, shape: Shape, row: seq<Value>, live: nat)
    requires |shape| == |row|
  {
    v.codes == Codes(shape) && forall i :: 0 <= i < |shape| ==> FlagsOf(v, shape, row, live, i)
  }

  function VectorOf(shape: Shape, row: seq<Value>, live: nat): Vector
    requires |shape| == |row| && live <= |shape|
  {
    Vector(Codes(shape), Pack(FlagsUpTo(shape, row, live)), NullableCount(shape))
  }

  lemma {:induction false} NullFlagRead(shape: Shape, row: seq<Value>, live: nat, i: nat, flags: seq<bool>)
    requires |shape| == |row| && live <= |shape| && i < |shape| && flags == FlagsUpTo(shape, row, live)
    requires !shape[i].notNull
    ensures BitAt(Pack(flags), NullsBefore(shape, i)) == (i < live && row[i] != Null)
  {
    NullFlagUpTo(shape, row, live, i);
    PackGet(flags, NullsBefore(shape, i));
  }

  lemma {:induction false} BoolFlagRead(shape: Shape, row: seq<Value>, live: nat, i: nat, flags: seq<bool>)
    requires |shape| == |row| && live <= |shape| && i < |shape| && flags == FlagsUpTo(shape, row, live)
    requires shape[i].core.BoolCore?
    ensures BitAt(Pack(flags), NullableCount(shape) + BoolsBefore(shape, i)) == (i < live && row[i] == Flag(true))
  {
    BoolFlagUpTo(shape, row, live, i);
    PackGet(flags, NullableCount(shape) + BoolsBefore(shape, i));
  }

  lemma {:induction false} VectorDescribes(shape: Shape, row: seq<Value>, live: nat, flags: seq<bool>, v: Vector)
    requires |shape| == |row| && live <= |shape| && flags == FlagsUpTo(shape, row, live)
    requires v == Vector(Codes(shape), Pack(flags), NullableCount(shape))
    ensures Describes(v, shape, row, live)
  {
    forall i | 0 <= i < |shape|
      ensures FlagsOf(v, shape, row, live, i)
    {
      if !shape[i].notNull {
        NullFlagRead(shape, row, live, i, flags);
      }
      if shape[i].core.BoolCore? {
        BoolFlagRead(shape, row, live, i, flags);
      }
    }
  }

  // ---------- the round trip ----------

  /** Where the reader of an encoding stands before column `i`. */
  function PosOf(writer: Shape, row: seq<Value>, i: nat): Pos
    requires |writer| == |row| && i <= |writer|
  {
    Pos(i, NullsBefore(writer, i), BoolsBefore(writer, i), JoinFrom(Fields(row), i))
  }

  /** Column `i` finds its own flags. */
  predicate FlagKept(writer: Shape, row: seq<Value>, live: nat, i: nat)
    requires |writer| == |row| && i < |writer|
  {
    i < live || !SetsBit(writer[i], row[i])
  }

  /** Every column from `i` on that is among the reader's first `n` finds its flags. */
  predicate KeptFrom(writer: Shape, row: seq<Value>, live: nat, n: nat, i: nat)
    requires |writer| == |row| && i <= |writer|
    decreases |writer| - i
  {
    i == |writer| || i >= n || (FlagKept(writer, row, live, i) && KeptFrom(writer, row, live, n, i + 1))
  }

  lemma {:induction false} KeptFromAll(writer: Shape, row: seq<Value>, live: nat, n: nat, i: nat)
    requires |writer| == |row| && i <= |writer|
    ensures KeptFrom(writer, row, live, n, i) <==>
            forall j :: i <= j < |writer| && j < n ==> FlagKept(writer, row, live, j)
    decreases |writer| - i
  {
    if i < |writer| && i < n {
      KeptFromAll(writer, row, live, n, i + 1);
    }
  }

  /** Column `p.i` holds `val`, and the reader's three cursors point at what belongs to it. */
  predicate Aligned(v: Vector, p: Pos, t: ColType, val: Value, rest: seq<byte>)
  {
    && p.i < |v.codes| && v.codes[p.i] == Code(t)
    && (t.notNull || BitAt(v.bits, p.nulls) == (val != Null))
    && (t.core.BoolCore? ==> BitAt(v.bits, v.nullableCount + p.bools) == (val == Flag(true)))
    && p.data == FieldBytes(val) + rest
  }

  lemma {:induction false} AlignedReads(reader: Shape, v: Vector, p: Pos, t: ColType, val: Value, rest: seq<byte>)
    requires p.i < |reader| && reader[p.i].core == t.core
    requires FitsCol(t, val) && Aligned(v, p, t, val, rest)
    ensures NextField(reader, v, p) == Some(Field(val, rest))
  {
    if val == Null {
      assert [] + rest == rest;
    } else {
      ParseFieldOfBytes(t, val, BitAt(v.bits, v.nullableCount + p.bools), rest);
    }
  }

  /** A column that finds its flags is read back ... */
  lemma {:induction false} StepReads(writer: Shape, row: seq<Value>, live: nat, v: Vector, i: nat)
    requires Fits(writer, row) && Describes(v, writer, row, live)
    requires i < |writer| && FlagKept(writer, row, live, i)
    ensures Aligned(v, PosOf(writer, row, i), writer[i], row[i], JoinFrom(Fields(row), i + 1))
  {
    assert FlagsOf(v, writer, row, live, i);
  }

  /** ... and all three cursors stay aligned with the writer's. */
  lemma {:induction false} StepAligned(writer: Shape, row: seq<Value>, v: Vector, reader: Shape, i: nat)
    requires |writer| == |row| && v.codes == Codes(writer) && i < |writer| && i < |reader|
    requires reader[i].core == writer[i].core
    ensures Advance(reader, v, PosOf(writer, row, i), JoinFrom(Fields(row), i + 1)) == PosOf(writer, row, i + 1)
  {
  }

  /** A column whose bit was lost is not read back. */
  lemma {:induction false} StepMisreads(writer: Shape, row: seq<Value>, live: nat, v: Vector, reader: Shape, i: nat)
    requires Fits(writer, row) && Describes(v, writer, row, live)
    requires i < |writer| && i < |reader| && reader[i].core == writer[i].core && !FlagKept(writer, row, live, i)
    ensures var f := NextField(reader, v, PosOf(writer, row, i)); f.Some? && f.value.value != row[i]
  {
    assert FlagsOf(v, writer, row, live, i);
  }

  lemma {:induction false} DecodeCons(reader: Shape, v: Vector, p: Pos, want: seq<Value>)
    requires p.i < |reader| && want != [] && NextField(reader, v, p).Some?
    ensures var f := NextField(reader, v, p).value;
            DecodeFrom(reader, v, p) == Some(want) <==>
            (f.value == want[0] && DecodeFrom(reader, v, Advance(reader, v, p, f.rest)) == Some(want[1..]))
  {
    var f := NextField(reader, v, p).value;
    var tail := DecodeFrom(reader, v, Advance(reader, v, p, f.rest));
    if tail.Some? {
      var got := [f.value] + tail.value;
      assert got[0] == f.value && got[1..] == tail.value;
      assert want == [want[0]] + want[1..];
    }
  }

  function Nulls(n: nat): (s: seq<Value>)
    ensures |s| == n
  {
    seq(n, _ => Null)
  }

  /** Columns the writer does not have are null. */
  lemma {:induction false} MissingAreNull(reader: Shape, v: Vector, p: Pos)
    requires |v.codes| <= p.i <= |reader|
    ensures DecodeFrom(reader, v, p) == Some(Nulls(|reader| - p.i))
    decreases |reader| - p.i
  {
    if p.i < |reader| {
      MissingAreNull(reader, v, Advance(reader, v, p, p.data));
      assert [Null] + Nulls(|reader| - p.i - 1) == Nulls(|reader| - p.i);
    }
  }

  /** One column: decoding from here is right exactly when this column finds its flags and
      decoding from the next is right. */
  lemma {:induction false} DecodeStep(writer: Shape, row: seq<Value>, live: nat, v: Vector, reader: Shape, i: nat,
                                      want: seq<Value>)
    requires Fits(writer, row) && Describes(v, writer, row, live) && Compatible(writer, reader)
    requires i < |writer| && i < |reader| && want != [] && want[0] == row[i]
    ensures DecodeFrom(reader, v, PosOf(writer, row, i)) == Some(want) <==>
            (FlagKept(writer, row, live, i) && DecodeFrom(reader, v, PosOf(writer, row, i + 1)) == Some(want[1..]))
  {
    var p := PosOf(writer, row, i);
    if FlagKept(writer, row, live, i) {
      StepReads(writer, row, live, v, i);
      hide Aligned, FieldBytes, Describes;
      AlignedReads(reader, v, p, writer[i], row[i], JoinFrom(Fields(row), i + 1));
      StepAligned(writer, row, v, reader, i);
      DecodeCons(reader, v, p, want);
    } else {
      StepMisreads(writer, row, live, v, reader, i);
      DecodeCons(reader, v, p, want);
    }
  }

  /** From column `i` on, decoding is right exactly when every common column finds its flags. */
  lemma {:induction false} DecodeFromExact(writer: Shape, row: seq<Value>, live: nat, v: Vector, reader: Shape, i: nat)
    requires Fits(writer, row) && Describes(v, writer, row, live) && Compatible(writer, reader)
    requires i <= |writer| && i <= |reader|
    ensures DecodeFrom(reader, v, PosOf(writer, row, i)) == Some(Project(row, reader)[i..])
            <==> KeptFrom(writer, row, live, |reader|, i)
    decreases |writer| - i
  {
    var want := Project(row, reader)[i..];
    if i == |reader| {
      assert want == [];
    } else if i == |writer| {
      MissingAreNull(reader, v, PosOf(writer, row, i));
      assert want == Nulls(|reader| - i);
    } else {
      assert want[0] == row[i] && want[1..] == Project(row, reader)[i + 1..];
      hide DecodeFrom, Project, PosOf, Describes, FlagKept;
      DecodeStep(writer, row, live, v, reader, i, want);
      DecodeFromExact(writer, row, live, v, reader, i + 1);
    }
  }

  lemma {:induction false} NoNulInCodes(shape: Shape)
    ensures 0 !in Codes(shape)
  {
  }

  /** How the reader takes a byte string apart. */
  lemma {:induction false} DecodeParts(reader: Shape, codes: seq<byte>, bits: seq<byte>, data: seq<byte>)
    requires 0 !in codes && |bits| == VectorBytes(codes)
    ensures Decode(reader, codes + [0] + bits + data) ==
            if Accepts(reader, codes) then DecodeFrom(reader, Vector(codes, bits, LowerCount(codes)), Pos(0, 0, 0, data))
            else None
  {
    var bytes := codes + [0] + bits + data;
    FirstNulAfter(codes, bits + data);
    assert bytes == codes + [0] + (bits + data);
    var end := |codes| + 1 + |bits|;
    assert bytes[..|codes|] == codes && bytes[|codes| + 1..end] == bits && bytes[end..] == data;
  }

  lemma {:induction false} DecodeOfEncoded(writer: Shape, row: seq<Value>, live: nat, reader: Shape)
    requires Fits(writer, row) && live <= |writer|
    ensures Decode(reader, EncodedLive(writer, row, live)) ==
            if Compatible(writer, reader) then DecodeFrom(reader, VectorOf(writer, row, live), PosOf(writer, row, 0))
            else None
  {
    NoNulInCodes(writer);
    CodeCounts(writer, |writer|);
    DecodeParts(reader, Codes(writer), Pack(FlagsUpTo(writer, row, live)), Payload(row));
    AcceptsIsCompatible(writer, reader);
  }

  /** The versioned round trip, with its exact condition.  An encoding in which the bits of
      the first `live` columns reached the buffer decodes, under any compatible reader, to
      the writer's values in the common columns and nulls after them if and only if no
      common column past the live ones had a bit to set. */
  lemma {:induction false} VersionedRoundTrip(writer: Shape, row: seq<Value>, live: nat, reader: Shape)
    requires Fits(writer, row) && live <= |writer| && Compatible(writer, reader)
    ensures Decode(reader, EncodedLive(writer, row, live)) == Some(Project(row, reader)) <==>
            forall i :: live <= i < |writer| && i < |reader| ==> !SetsBit(writer[i], row[i])
  {
    DecodeOfEncoded(writer, row, live, reader);
    VectorDescribes(writer, row, live, FlagsUpTo(writer, row, live), VectorOf(writer, row, live));
    DecodeFromExact(writer, row, live, VectorOf(writer, row, live), reader, 0);
    KeptFromAll(writer, row, live, |reader|, 0);
    assert Project(row, reader)[0..] == Project(row, reader);
    assert forall i :: live <= i < |writer| && i < |reader| ==>
      (FlagKept(writer, row, live, i) <==> !SetsBit(writer[i], row[i]));
  }

  /** A complete encoding is read back by a shape if and only if the shape is compatible. */
  lemma {:induction false} RoundTripIffCompatible(writer: Shape, row: seq<Value>, reader: Shape)
    requires Fits(writer, row)
    ensures Decode(reader, Encoded(writer, row)) ==
            if Compatible(writer, reader) then Some(Project(row, reader)) else None
  {
    DecodeOfEncoded(writer, row, |writer|, reader);
    if Compatible(writer, reader) {
      VersionedRoundTrip(writer, row, |writer|, reader);
    }
  }

  /** A reader with the writer's own shape gets the row itself. */
  lemma {:induction false} RoundTrip(shape: Shape, row: seq<Value>)
    requires Fits(shape, row)
    ensures Decode(shape, Encoded(shape, row)) == Some(row)
  {
    RoundTripIffCompatible(shape, row, shape);
    assert Project(row, shape) == row;
  }
}
