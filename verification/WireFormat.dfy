/** The byte formats of the row codec, said without the functions that write and read them:
    digits, bits, letters and places. */
module WireFormat {
  import opened Bytes
  import opened Numerals
  import opened BitVector
  import opened Varint
  import opened Row
  import opened RowCodec
  import opened BlobStream

  // ---------- varints ----------

  /** The number that seven-bit groups spell, low group first. */
  function Spell(s: seq<byte>, n: nat): (v: nat)
    requires n <= |s|
  {
    if n == 0 then 0 else Spell(s, n - 1) + s[n - 1] % 0x80 * Power(0x80, n - 1)
  }

  lemma {:induction false} SpellFirst(s: seq<byte>, n: nat)
    requires 0 < n <= |s|
    ensures Spell(s, n) == s[0] % 0x80 + 0x80 * Spell(s[1..], n - 1)
  {
    if n == 1 {
      assert Power(0x80, 0) == 1;
    } else {
      SpellFirst(s, n - 1);
      assert Power(0x80, n - 1) == 0x80 * Power(0x80, n - 2);
      assert s[1..][n - 2] == s[n - 1];
      Shift7(s[n - 1] % 0x80, Power(0x80, n - 2));
    }
  }

  lemma {:induction false} Shift7(d: nat, p: nat)
    ensures d * (0x80 * p) == 0x80 * (d * p)
  {
  }

  /** Groups that are all marked but the last, and no more of them than needed. */
  predicate WellMarked(s: seq<byte>)
  {
    && |s| > 0 && s[|s| - 1] < 0x80 && (|s| > 1 ==> s[|s| - 1] > 0)
    && forall k :: 0 <= k < |s| - 1 ==> s[k] >= 0x80
  }

  lemma {:induction false} MarkedFirst(g: byte, rest: seq<byte>)
    requires g >= 0x80 && WellMarked(rest) && (|rest| == 1 ==> rest[0] > 0)
    ensures WellMarked([g] + rest)
  {
    var s := [g] + rest;
    forall k | 0 <= k < |s| - 1
      ensures s[k] >= 0x80
    {
      if k > 0 {
        assert s[k] == rest[k - 1];
      }
    }
  }

  lemma {:induction false} GroupsSpell(n: nat)
    ensures Spell(VarintBytes(n), |VarintBytes(n)|) == n && WellMarked(VarintBytes(n)) && (n > 0 && |VarintBytes(n)| == 1 ==> VarintBytes(n)[0] > 0)
  {
    hide Spell, VarintBytes;
    var s := VarintBytes(n);
    SpellFirst(s, |s|);
    if n >= 0x80 {
      var rest := VarintBytes(n / 0x80);
      FirstVarintByte(n, 0x80 + n % 0x80, n / 0x80);
      GroupsSpell(n / 0x80);
      assert s[1..] == rest;
      MarkedFirst(0x80 + n % 0x80, rest);
    } else {
      FirstVarintByte(n, n, 0);
      NoGroups(s[1..]);
    }
  }

  lemma {:induction false} NoGroups(s: seq<byte>)
    ensures Spell(s, 0) == 0
  {
  }

  /** A written integer: as few seven-bit groups as possible, all but the last marked, that spell
      `(i << 1) ^ (i >> 31)`: the sign in bit 0, and above it the bits of `i`, inverted if it
      is negative. */
  lemma {:induction false} VarintWire(i: int)
    ensures var s := EncodeVarint(i);
            && |s| > 0 && s[|s| - 1] < 128 && (|s| > 1 ==> s[|s| - 1] > 0)
            && (forall k :: 0 <= k < |s| - 1 ==> s[k] >= 128)
    ensures var v := Spell(EncodeVarint(i), |EncodeVarint(i)|);
            && v == (if i >= 0 then 2 * i else -2 * i - 1)
            && Bit(v, 0) == (i < 0) && forall k: nat :: Bit(v, k + 1) == (Bit(i, k) != (i < 0))
  {
    GroupsSpell(ZigZag(i));
    var v := Spell(EncodeVarint(i), |EncodeVarint(i)|);
    forall k: nat
      ensures Bit(v, k + 1) == (Bit(i, k) != (i < 0))
    {
      assert v / 2 == if i >= 0 then i else -i - 1;
      BitOfComplement(i, k);
    }
  }

  /** Any bytes read as a varint: a marked group too many is refused, otherwise the groups up to the
      first unmarked one spell the number, cut to the width, of the integer. */
  lemma {:induction false} VarintRead(w: Width, s: seq<byte>, k: nat)
    requires k <= |s| && k <= (if w.W32? then 5 else 10) && forall j :: 0 <= j < k ==> s[j] >= 128
    ensures k == |s| || k == (if w.W32? then 5 else 10) ==> ParseVarint(w, s) == None
    ensures k < |s| && k < (if w.W32? then 5 else 10) && s[k] < 128 ==>
              var n := Spell(s, k + 1) % (if w.W32? then 0x1_0000_0000 else 0x1_0000_0000_0000_0000);
              ParseVarint(w, s) == Some(Parsed(if n % 2 == 0 then n / 2 else -(n / 2) - 1, k + 1))
  {
    GroupsRead(s, k, w.limit);
  }

  lemma {:induction false} GroupsRead(s: seq<byte>, k: nat, limit: nat)
    requires k <= |s| && k <= limit && forall j :: 0 <= j < k ==> s[j] >= 128
    ensures k == |s| || k == limit ==> ParseRaw(s, limit) == None
    ensures k < |s| && k < limit && s[k] < 128 ==> ParseRaw(s, limit) == Some(Raw(Spell(s, k + 1), k + 1))
  {
    if k > 0 {
      GroupsRead(s[1..], k - 1, limit - 1);
    }
    if k < |s| {
      SpellFirst(s, k + 1);
      assert k == 0 ==> Spell(s[1..], 0) == 0;
    }
  }

  // ---------- rows ----------

  function LetterOf(c: Core): char
  {
    match c
    case IntCore => 'I'
    case LongCore => 'L'
    case RealCore => 'D'
    case BoolCore => 'F'
    case TextCore => 'S'
    case BlobCore => 'B'
  }

  function NullableLetterOf(c: Core): char
  {
    match c
    case IntCore => 'i'
    case LongCore => 'l'
    case RealCore => 'd'
    case BoolCore => 'f'
    case TextCore => 's'
    case BlobCore => 'b'
  }

  /** The nullable columns among the first `i`, and the bool columns. */
  function NullableBefore(shape: Shape, i: nat): (s: set<nat>)
    requires i <= |shape|
  {
    set j: nat | j < i && !shape[j].notNull
  }

  function BoolBefore(shape: Shape, i: nat): (s: set<nat>)
    requires i <= |shape|
  {
    set j: nat | j < i && shape[j].core == BoolCore
  }

  lemma {:induction false} CountNullable(shape: Shape, i: nat)
    requires i <= |shape|
    ensures |NullableBefore(shape, i)| == NullsBefore(shape, i)
  {
    if i > 0 {
      CountNullable(shape, i - 1);
      Grown(NullableBefore(shape, i - 1), NullableBefore(shape, i), i - 1, !shape[i - 1].notNull);
    }
  }

  lemma {:induction false} CountBools(shape: Shape, i: nat)
    requires i <= |shape|
    ensures |BoolBefore(shape, i)| == BoolsBefore(shape, i)
  {
    if i > 0 {
      CountBools(shape, i - 1);
      Grown(BoolBefore(shape, i - 1), BoolBefore(shape, i), i - 1, shape[i - 1].core == BoolCore);
    }
  }

  /** The weight of a bit in its byte. */
  function Weight(j: nat): (w: nat)
    ensures w > 0
  {
    if j == 0 then 1 else if j == 1 then 2 else if j == 2 then 4 else if j == 3 then 8
    else if j == 4 then 16 else if j == 5 then 32 else if j == 6 then 64 else 128
  }

  /** Bit `k` of a packed vector that starts at `at`: eight to a byte, low bit first. */
  predicate BitOf(s: seq<byte>, at: nat, k: nat)
    requires at + k / 8 < |s|
  {
    s[at + k / 8] / Weight(k % 8) % 2 == 1
  }

  lemma {:induction false} ByteBitIs(b: nat, j: nat)
    requires j < 8
    ensures ByteBit(b, j) <==> b / Weight(j) % 2 == 1
  {
    hide ByteBit, Weight;
    if j >= 4 {
      FourBits(b, j);
      LowBits(b / 16, j - 4);
      Divide16(b, j);
    } else {
      LowBits(b, j);
    }
  }

  lemma {:induction false} FourBits(b: nat, j: nat)
    requires j >= 4
    ensures ByteBit(b, j) == ByteBit(b / 16, j - 4)
  {
    hide ByteBit;
    NextBit(b, j);
    NextBit(b / 2, j - 1);
    NextBit(b / 4, j - 2);
    NextBit(b / 8, j - 3);
  }

  lemma {:induction false} Divide16(b: nat, j: nat)
    requires 4 <= j < 8
    ensures b / 16 / Weight(j - 4) == b / Weight(j)
  {
    if j == 4 {
      assert b / 16 / 1 == b / 16;
    } else if j == 5 {
      assert b / 16 / 2 == b / 32;
    } else if j == 6 {
      assert b / 16 / 4 == b / 64;
    } else {
      assert b / 16 / 8 == b / 128;
    }
  }

  lemma {:induction false} NextBit(b: nat, j: nat)
    ensures j > 0 ==> ByteBit(b, j) == ByteBit(b / 2, j - 1)
    ensures j == 0 ==> (ByteBit(b, j) <==> b % 2 == 1)
  {
  }

  lemma {:induction false} LowBits(b: nat, j: nat)
    requires j < 4
    ensures ByteBit(b, j) <==> b / Weight(j) % 2 == 1
  {
    hide ByteBit;
    NextBit(b, j);
    if j == 1 {
      NextBit(b / 2, 0);
    } else if j == 2 {
      NextBit(b / 2, 1);
      NextBit(b / 4, 0);
    } else if j == 3 {
      NextBit(b / 2, 2);
      NextBit(b / 4, 1);
      NextBit(b / 8, 0);
    }
  }

  lemma {:induction false} FlagBitIs(flags: seq<bool>, k: nat, s: seq<byte>, at: nat)
    requires k < |flags| && at + |Pack(flags)| <= |s| && s[at..at + |Pack(flags)|] == Pack(flags)
    ensures at + k / 8 < |s| && (BitOf(s, at, k) <==> flags[k])
  {
    hide ByteBit, Pack;
    PackGet(flags, k);
    assert s[at + k / 8] == s[at..at + |Pack(flags)|][k / 8];
    ByteBitIs(s[at + k / 8], k % 8);
  }

  /** The letter of a column: upper case for not null. */
  function ColumnLetter(t: ColType): char
  {
    if t.notNull then LetterOf(t.core) else NullableLetterOf(t.core)
  }

  /** A complete row `e`: one letter a column, a NUL, then the flags, one for each nullable column
      that is set if the column has a value, and one for each bool column that is set if it is
      true, and then the data. */
  lemma {:induction false} RowWire(shape: Shape, row: seq<Value>, e: seq<byte>, nulls: nat, bools: nat)
    requires |shape| == |row| && e == Encoded(shape, row)
    requires nulls == |NullableBefore(shape, |shape|)| && bools == |BoolBefore(shape, |shape|)|
    ensures |e| == |shape| + 1 + (nulls + bools + 7) / 8 + |Payload(row)| && e[|shape|] == 0
    ensures forall i :: 0 <= i < |shape| ==> e[i] == ColumnLetter(shape[i]) as int
    ensures forall i :: 0 <= i < |shape| && !shape[i].notNull ==> FlagIs(e, |shape| + 1, |NullableBefore(shape, i)|, row[i] != Null)
    ensures forall i :: 0 <= i < |shape| && shape[i].core == BoolCore ==>
              FlagIs(e, |shape| + 1, nulls + |BoolBefore(shape, i)|, row[i] == Flag(true))
    ensures e[|shape| + 1 + (nulls + bools + 7) / 8..] == Payload(row)
  {
    hide Pack, Payload, FlagsUpTo, NullsBefore, BoolsBefore, BitOf, NullableBefore, BoolBefore;
    CountNullable(shape, |shape|);
    CountBools(shape, |shape|);
    var at, flags := |shape| + 1, FlagsUpTo(shape, row, |shape|);
    assert e == Codes(shape) + [0] + Pack(flags) + Payload(row);
    assert e[at..at + |Pack(flags)|] == Pack(flags);
    forall i | 0 <= i < |shape|
      ensures e[i] == ColumnLetter(shape[i]) as int
    {
      assert e[i] == Codes(shape)[i];
    }
    forall i | 0 <= i < |shape|
      ensures !shape[i].notNull ==> FlagIs(e, at, |NullableBefore(shape, i)|, row[i] != Null)
      ensures shape[i].core == BoolCore ==> FlagIs(e, at, nulls + |BoolBefore(shape, i)|, row[i] == Flag(true))
    {
      CountNullable(shape, i);
      CountBools(shape, i);
      FlagsAre(shape, row, i);
      if !shape[i].notNull {
        FlagBitIs(flags, NullsBefore(shape, i), e, at);
      }
      if shape[i].core == BoolCore {
        FlagBitIs(flags, NullableCount(shape) + BoolsBefore(shape, i), e, at);
      }
    }
  }

  /** Flag `k` of the vector at `at` is there, and set or not. */
  predicate FlagIs(e: seq<byte>, at: nat, k: nat, set1: bool)
  {
    at + k / 8 < |e| && BitOf(e, at, k) == set1
  }

  lemma {:induction false} FlagsAre(shape: Shape, row: seq<Value>, i: nat)
    requires |shape| == |row| && i < |shape|
    ensures var flags := FlagsUpTo(shape, row, |shape|);
            && (!shape[i].notNull ==> NullsBefore(shape, i) < |flags| && (flags[NullsBefore(shape, i)] <==> row[i] != Null))
            && (shape[i].core == BoolCore ==> var k := NullableCount(shape) + BoolsBefore(shape, i);
                                               k < |flags| && (flags[k] <==> row[i] == Flag(true)))
  {
    hide FlagsUpTo, NullsBefore, BoolsBefore;
    if !shape[i].notNull {
      NullFlagUpTo(shape, row, |shape|, i);
    }
    if shape[i].core == BoolCore {
      BoolFlagUpTo(shape, row, |shape|, i);
    }
  }

  /** The data of rows put together is their data put together. */
  lemma {:induction false} PayloadConcat(a: seq<Value>, b: seq<Value>)
    ensures Payload(a + b) == Payload(a) + Payload(b)
  {
    PayloadFrom(a, b, 0);
  }

  lemma {:induction false} PayloadFrom(a: seq<Value>, b: seq<Value>, i: nat)
    requires i <= |a|
    ensures JoinFrom(Fields(a + b), i) == JoinFrom(Fields(a), i) + Payload(b)
    decreases |a| - i
  {
    hide FieldBytes;
    if i < |a| {
      PayloadFrom(a, b, i + 1);
    } else {
      PayloadShift(a, b, 0);
    }
  }

  lemma {:induction false} PayloadShift(a: seq<Value>, b: seq<Value>, j: nat)
    requires j <= |b|
    ensures JoinFrom(Fields(a + b), |a| + j) == JoinFrom(Fields(b), j)
    decreases |b| - j
  {
    hide FieldBytes;
    if j < |b| {
      PayloadShift(a, b, j + 1);
    }
  }

  /** The data of one column: nothing for a null or a bool, a varint for an integer, eight bytes
      for a double, a string with its NUL, and a blob behind its length. */
  lemma {:induction false} PayloadOne(v: Value)
    ensures match v
            case Null => Payload([v]) == []
            case Flag(_) => Payload([v]) == []
            case Int(i) => Payload([v]) == EncodeVarint(i)
            case Long(l) => Payload([v]) == EncodeVarint(l)
            case Real(d) => Payload([v]) == d
            case Text(t) => Payload([v]) == t + [0]
            case Blob(t) => Payload([v]) == EncodeVarint(|t|) + t
  {
    hide EncodeVarint;
    assert JoinFrom(Fields([v]), 1) == [];
    assert JoinFrom(Fields([v]), 0) == Fields([v])[0] + JoinFrom(Fields([v]), 1);
  }

  /** A string read from any data: the characters before the first NUL. */
  lemma {:induction false} TextRead(flag: bool, s: seq<byte>, rest: seq<byte>)
    ensures 0 !in s ==> ParseField(TextCore, flag, s) == None
    ensures 0 !in s ==> ParseField(TextCore, flag, s + [0] + rest) == Some(Field(Text(s), rest))
  {
    hide FirstNul;
    if 0 !in s {
      FirstNulAfter(s, rest);
      var data := s + [0] + rest;
      assert data[..|s|] == s && data[|s| + 1..] == rest && data[|s|] == 0;
    }
  }

  /** A double is eight bytes, a bool is its flag. */
  lemma {:induction false} FixedRead(flag: bool, s: seq<byte>, rest: seq<byte>)
    ensures |s| < 8 ==> ParseField(RealCore, flag, s) == None
    ensures |s| == 8 ==> ParseField(RealCore, flag, s + rest) == Some(Field(Real(s), rest))
    ensures ParseField(BoolCore, flag, s) == Some(Field(Flag(flag), s))
  {
    if |s| == 8 {
      assert (s + rest)[..8] == s && (s + rest)[8..] == rest;
    }
  }

  /** An integer is a varint, a blob a varint and as many bytes; a negative or larger length is refused. */
  lemma {:induction false} NumberRead(flag: bool, data: seq<byte>)
    requires |data| < 0x8000_0000
    ensures var p := ParseVarint(W64, data);
            ParseField(LongCore, flag, data) ==
            if p.None? then None else Some(Field(Long(p.value.value), data[p.value.length..]))
    ensures var p := ParseVarint(W32, data);
            ParseField(IntCore, flag, data) ==
            if p.None? then None else Some(Field(Int(p.value.value), data[p.value.length..]))
    ensures var p := ParseVarint(W32, data);
            ParseField(BlobCore, flag, data) ==
            if p.None? || p.value.value < 0 || p.value.value > |data| - p.value.length then None
            else Some(Field(Blob(data[p.value.length..p.value.length + p.value.value]), data[p.value.length + p.value.value..]))
  {
    hide ParseVarint;
    var p := ParseVarint(W32, data);
    if p.Some? && 0 <= p.value.value <= |data| - p.value.length {
      var rest, n := data[p.value.length..], p.value.value;
      assert rest[..n] == data[p.value.length..p.value.length + n] && rest[n..] == data[p.value.length + n..];
    }
  }

  /** Which codes a column takes: its own letter, and if it is nullable also the lower case one. */
  lemma {:induction false} CodeTaken(t: ColType, c: byte)
    ensures CodeOk(t, c) <==> c == LetterOf(t.core) as int || (!t.notNull && c == NullableLetterOf(t.core) as int)
  {
  }

  function LowerCodes(codes: seq<byte>, i: nat): (s: set<nat>)
    requires i <= |codes|
  {
    set j: nat | j < i && 'a' as int <= codes[j] <= 'z' as int
  }

  function BoolCodes(codes: seq<byte>, i: nat): (s: set<nat>)
    requires i <= |codes|
  {
    set j: nat | j < i && (codes[j] == 'f' as int || codes[j] == 'F' as int)
  }

  lemma {:induction false} CodeKinds(c: byte)
    ensures IsLower(c) <==> 'a' as int <= c <= 'z' as int
    ensures IsBoolCode(c) <==> c == 'f' as int || c == 'F' as int
  {
  }

  lemma {:induction false} CodesCounted(codes: seq<byte>, i: nat)
    requires i <= |codes|
    ensures LowerBefore(codes, i) == |LowerCodes(codes, i)| && BoolCodesBefore(codes, i) == |BoolCodes(codes, i)|
  {
    hide IsLower, IsBoolCode, LowerCodes, BoolCodes;
    NextCodes(codes, i);
    if i > 0 {
      CodesCounted(codes, i - 1);
      CodeKinds(codes[i - 1]);
    }
  }

  lemma {:induction false} NextCodes(codes: seq<byte>, i: nat)
    requires i <= |codes|
    ensures i == 0 ==> LowerCodes(codes, i) == {} == BoolCodes(codes, i)
    ensures i > 0 ==> var c := codes[i - 1];
                      && |LowerCodes(codes, i)| == |LowerCodes(codes, i - 1)| + (if 'a' as int <= c <= 'z' as int then 1 else 0)
                      && |BoolCodes(codes, i)| == |BoolCodes(codes, i - 1)| + (if c == 'f' as int || c == 'F' as int then 1 else 0)
  {
    if i > 0 {
      var c := codes[i - 1];
      Grown(LowerCodes(codes, i - 1), LowerCodes(codes, i), i - 1, 'a' as int <= c <= 'z' as int);
      Grown(BoolCodes(codes, i - 1), BoolCodes(codes, i), i - 1, c == 'f' as int || c == 'F' as int);
    }
  }

  /** How any bytes are taken apart: the codes up to the first NUL, as many flag bytes as the lower
      case and bool codes need, and the data; refused if a common code is not taken, a missing column is
      not nullable, or the flags are not all there. */
  lemma {:induction false} RowRead(shape: Shape, codes: seq<byte>, rest: seq<byte>, flagBytes: nat)
    requires 0 !in codes && flagBytes == (|LowerCodes(codes, |codes|)| + |BoolCodes(codes, |codes|)| + 7) / 8
    ensures (exists i :: 0 <= i < |shape| && i < |codes| && !CodeOk(shape[i], codes[i])) ==> Decode(shape, codes + [0] + rest) == None
    ensures (exists i :: |codes| <= i < |shape| && shape[i].notNull) ==> Decode(shape, codes + [0] + rest) == None
    ensures |rest| < flagBytes ==> Decode(shape, codes + [0] + rest) == None
    ensures Decode(shape, codes) == None
    ensures flagBytes <= |rest| && Accepts(shape, codes) ==>
              Decode(shape, codes + [0] + rest) ==
              DecodeFrom(shape, Vector(codes, rest[..flagBytes], |LowerCodes(codes, |codes|)|), Pos(0, 0, 0, rest[flagBytes..]))
  {
    hide CodeOk, DecodeFrom, LowerCodes, BoolCodes, FirstNul, LowerBefore, BoolCodesBefore;
    CodesCounted(codes, |codes|);
    FirstNulAfter(codes, rest);
    var bytes := codes + [0] + rest;
    assert bytes[..|codes|] == codes && bytes[|codes| + 1..] == rest;
    if flagBytes <= |rest| {
      assert rest == rest[..flagBytes] + rest[flagBytes..];
      assert bytes == codes + [0] + rest[..flagBytes] + rest[flagBytes..];
      DecodeParts(shape, codes, rest[..flagBytes], rest[flagBytes..]);
    }
  }

  // ---------- streams ----------

  /** Counting and selecting in any bytes. */
  lemma {:induction false} StreamRead(s: seq<byte>, index: int32)
    requires Countable(s, index)
    ensures |s| < 4 ==> StreamCount(s) == 0 && Select(s, index) == None
    ensures |s| >= 4 ==> StreamCount(s) == (if LittleEnd(s, 0, 4) < 0x8000_0000 then LittleEnd(s, 0, 4) else LittleEnd(s, 0, 4) - 0x1_0000_0000)
    ensures |s| >= 4 && (index < 0 || index >= LittleEnd(s, 0, 4) || 4 * index + 8 > |s|) ==> Select(s, index) == None
    ensures |s| >= 4 && 0 <= index < LittleEnd(s, 0, 4) && 4 * index + 8 <= |s| ==>
              var start := if index == 0 then 4 * (LittleEnd(s, 0, 4) + 1) % 0x1_0000_0000 else LittleEnd(s, 4 * index, 4);
              var end := LittleEnd(s, 4 * index + 4, 4);
              Select(s, index) == if start <= end <= |s| then Some(s[start..end]) else None
  {
    hide LittleEnd, WordOf;
    if |s| >= 4 {
      WordIs(s, 0);
      if 0 <= index < WordOf(s, 0) && 4 * index + 8 <= |s| {
        WordIs(s, index);
        WordIs(s, index + 1);
      }
    }
  }

  function Lengths(blobs: seq<seq<byte>>, n: nat): (k: nat)
    requires n <= |blobs|
  {
    if n == 0 then 0 else Lengths(blobs, n - 1) + |blobs[n - 1]|
  }

  lemma {:induction false} LengthsAre(blobs: seq<seq<byte>>, n: nat)
    requires n <= |blobs|
    ensures |JoinUpTo(blobs, n)| == Lengths(blobs, n)
  {
    if n > 0 {
      LengthsAre(blobs, n - 1);
    }
  }

  /** A stream `s`: the number of blobs, where each ends, and the blobs. */
  lemma {:induction false} StreamWire(blobs: seq<seq<byte>>, s: seq<byte>, base: nat)
    requires StreamFits(blobs) && s == StreamBytes(blobs) && base == 4 * (|blobs| + 1)
    ensures |s| == base + Lengths(blobs, |blobs|) && LittleEnd(s, 0, 4) == |blobs|
    ensures forall i :: 0 <= i < |blobs| ==> PlacedAt(blobs, s, base, i)
  {
    hide LittleEnd, WordOf, StreamBytes, JoinUpTo;
    LengthsAre(blobs, |blobs|);
    WordAt(blobs, 0);
    WordIs(s, 0);
    forall i | 0 <= i < |blobs|
      ensures PlacedAt(blobs, s, base, i)
    {
      LengthsAre(blobs, i);
      LengthsAre(blobs, i + 1);
      OffsetsGrow(blobs, i + 1, |blobs|);
      WordAt(blobs, i + 1);
      WordIs(s, i + 1);
      BlobSlice(blobs, i);
    }
  }

  /** Blob `i` ends where its word says, right after the blobs before it. */
  predicate PlacedAt(blobs: seq<seq<byte>>, s: seq<byte>, base: nat, i: nat)
    requires i < |blobs|
  {
    var end := base + Lengths(blobs, i) + |blobs[i]|;
    4 * i + 8 <= |s| && LittleEnd(s, 4 * i + 4, 4) == end <= |s| && s[end - |blobs[i]|..end] == blobs[i]
  }

  lemma {:induction false} WordIs(s: seq<byte>, k: nat)
    requires 4 * k + 4 <= |s|
    ensures LittleEnd(s, 4 * k, 4) == WordOf(s, k)
  {
    LittleEndOf4(s, 4 * k);
  }
}
