/** Row and cursor equality, hashing and difference.  A row's inline bytes come first and
    its references last, so rows are compared and hashed without looking at their columns. */
module RowHash {
  import opened Bytes

  /** A reference: an address together with the immutable contents found there. */
  datatype Ref =
    | Null
    | Str(id: nat, chars: seq<byte>)
    | Blob(id: nat, bytes: seq<byte>)
    | Object(id: nat)

  /** A row: the bytes before the first reference, and the references. */
  datatype Buffer = Buffer(prefix: seq<byte>, refs: seq<Ref>)

  // ---------- hashing ----------

  const SEED: uint64 := 5381

  /** One step of the accumulator: `hash * 33 + c` in 64 bits. */
  function Mix(hash: uint64, c: uint64): (h: uint64)
  {
    (hash * 33 + c) % 0x1_0000_0000_0000_0000
  }

  function BytesHash(s: seq<byte>, n: nat): (h: uint64)
    requires n <= |s|
  {
    if n == 0 then SEED else Mix(BytesHash(s, n - 1), s[n - 1])
  }

  /** `cql_ref_hash`; `None` is the failed contract for a reference that is not hashable. */
  function RefHash(r: Ref): (h: Option<uint64>)
  {
    match r
    case Null => Some(0)
    case Str(_, chars) => Some(BytesHash(chars, |chars|))
    case Blob(_, bytes) => Some(BytesHash(bytes, |bytes|))
    case Object(_) => None
  }

  function RefsHash(prefix: seq<byte>, refs: seq<Ref>, n: nat): (h: Option<uint64>)
    requires n <= |refs|
  {
    if n == 0 then Some(BytesHash(prefix, |prefix|))
    else
      var before := RefsHash(prefix, refs, n - 1);
      var last := RefHash(refs[n - 1]);
      if before.None? || last.None? then None else Some(Mix(before.value, last.value))
  }

  function BufferHash(b: Buffer): (h: Option<uint64>)
  {
    RefsHash(b.prefix, b.refs, |b.refs|)
  }

  method HashBytes(s: seq<byte>) returns (hash: uint64)
    ensures hash == BytesHash(s, |s|)
  {
    hide Mix;
    hash := SEED;
    var i := 0;
    while i < |s|
      invariant 0 <= i <= |s| && hash == BytesHash(s, i)
    {
      hash := Mix(hash, s[i]);
      i := i + 1;
    }
  }

  lemma {:induction false} UnhashableStays(b: Buffer, i: nat, n: nat)
    requires i <= n <= |b.refs| && RefsHash(b.prefix, b.refs, i).None?
    ensures RefsHash(b.prefix, b.refs, n).None?
    decreases n
  {
    if i < n {
      UnhashableStays(b, i, n - 1);
    }
  }

  /** `cql_hash_buffer`. */
  method HashBuffer(b: Buffer) returns (h: Option<uint64>)
    ensures h == BufferHash(b)
    ensures h.None? <==> exists i :: 0 <= i < |b.refs| && b.refs[i].Object?
  {
    hide Mix, BytesHash;
    var hash := HashBytes(b.prefix);
    var i := 0;
    while i < |b.refs|
      invariant 0 <= i <= |b.refs| && RefsHash(b.prefix, b.refs, i) == Some(hash)
      invariant forall j :: 0 <= j < i ==> !b.refs[j].Object?
    {
      match b.refs[i] {
        case Null =>
          hash := Mix(hash, 0);
        case Str(_, chars) =>
          var c := HashBytes(chars);
          hash := Mix(hash, c);
        case Blob(_, bytes) =>
          var c := HashBytes(bytes);
          hash := Mix(hash, c);
        case Object(_) =>
          UnhashableStays(b, i + 1, |b.refs|);
          return None;
      }
      i := i + 1;
    }
    return Some(hash);
  }

  // ---------- equality ----------

  /** `cql_ref_equal`; `None` is a failed contract. */
  function RefEqual(a: Ref, b: Ref): (e: Option<bool>)
  {
    if a == b then Some(true)
    else if a.Null? || b.Null? then Some(false)
    else if a.Str? && b.Str? then Some(a.chars == b.chars)
    else if a.Blob? && b.Blob? then Some(a.bytes == b.bytes)
    else None
  }

  function RefsEqual(a: seq<Ref>, b: seq<Ref>, i: nat): (e: Option<bool>)
    requires i <= |a| == |b|
    decreases |a| - i
  {
    if i == |a| then Some(true)
    else
      var here := RefEqual(a[i], b[i]);
      if here == Some(true) then RefsEqual(a, b, i + 1) else here
  }

  /** `cql_buffers_equal` on rows of one layout. */
  function BuffersEqual(a: Buffer, b: Buffer): (e: Option<bool>)
    requires |a.refs| == |b.refs|
  {
    if a.prefix != b.prefix then Some(false) else RefsEqual(a.refs, b.refs, 0)
  }

  /** What a reference stands for: its contents, or itself when it is not comparable. */
  function Meaning(r: Ref): (m: Ref)
  {
    match r
    case Str(_, chars) => Str(0, chars)
    case Blob(_, bytes) => Blob(0, bytes)
    case _ => r
  }

  /** Rows that stand for the same values. */
  predicate SameMeaning(a: Buffer, b: Buffer)
  {
    a.prefix == b.prefix && |a.refs| == |b.refs|
    && forall i :: 0 <= i < |a.refs| ==> Meaning(a.refs[i]) == Meaning(b.refs[i])
  }

  lemma {:induction false} RefsEqualIff(a: seq<Ref>, b: seq<Ref>, i: nat)
    requires i <= |a| == |b|
    ensures RefsEqual(a, b, i) == Some(true) <==> forall j :: i <= j < |a| ==> Meaning(a[j]) == Meaning(b[j])
    decreases |a| - i
  {
    if i < |a| {
      RefsEqualIff(a, b, i + 1);
      assert RefEqual(a[i], b[i]) == Some(true) <==> Meaning(a[i]) == Meaning(b[i]);
    }
  }

  /** The comparison succeeds exactly on rows with the same meaning: addresses of strings and
      blobs never matter. */
  lemma {:induction false} BuffersEqualIff(a: Buffer, b: Buffer)
    requires |a.refs| == |b.refs|
    ensures BuffersEqual(a, b) == Some(true) <==> SameMeaning(a, b)
  {
    RefsEqualIff(a.refs, b.refs, 0);
  }

  lemma {:induction false} SameRefsHash(prefix: seq<byte>, a: seq<Ref>, b: seq<Ref>, n: nat)
    requires n <= |a| == |b| && forall j :: 0 <= j < n ==> Meaning(a[j]) == Meaning(b[j])
    ensures RefsHash(prefix, a, n) == RefsHash(prefix, b, n)
  {
    if n > 0 {
      SameRefsHash(prefix, a, b, n - 1);
      assert RefHash(a[n - 1]) == RefHash(Meaning(a[n - 1])) == RefHash(b[n - 1]);
    }
  }

  /** Rows that compare equal hash equal. */
  lemma {:induction false} EqualRowsHashAlike(a: Buffer, b: Buffer)
    requires |a.refs| == |b.refs| && BuffersEqual(a, b) == Some(true)
    ensures BufferHash(a) == BufferHash(b)
  {
    BuffersEqualIff(a, b);
    SameRefsHash(a.prefix, a.refs, b.refs, |a.refs|);
  }

  /** The loop of `cql_buffers_equal`: a reference pair that cannot be compared is reached only
      when everything before it is equal. */
  method CompareBuffers(a: Buffer, b: Buffer) returns (e: Option<bool>)
    requires |a.prefix| == |b.prefix| && |a.refs| == |b.refs|
    ensures e == BuffersEqual(a, b)
    ensures e == Some(true) <==> SameMeaning(a, b)
    ensures e.None? <==> a.prefix == b.prefix && exists i ::
              && 0 <= i < |a.refs| && RefEqual(a.refs[i], b.refs[i]).None?
              && forall j :: 0 <= j < i ==> Meaning(a.refs[j]) == Meaning(b.refs[j])
  {
    BuffersEqualIff(a, b);
    if a.prefix != b.prefix {
      return Some(false);
    }
    var i := 0;
    while i < |a.refs|
      invariant 0 <= i <= |a.refs| && RefsEqual(a.refs, b.refs, 0) == RefsEqual(a.refs, b.refs, i)
      invariant forall j :: 0 <= j < i ==> Meaning(a.refs[j]) == Meaning(b.refs[j])
    {
      var here := RefEqual(a.refs[i], b.refs[i]);
      if here != Some(true) {
        return here;
      }
      i := i + 1;
    }
    return Some(true);
  }

  // ---------- cursors ----------

  datatype Kind = BoolCol | IntCol | LongCol | RealCol | TextCol | BlobCol | ObjectCol

  /** A column: for inline kinds `at` is a byte offset, for references a slot number. */
  datatype Column = Column(kind: Kind, notNull: bool, at: nat)

  datatype Cursor = Cursor(hasRow: bool, cols: seq<Column>, row: Buffer)

  predicate IsRef(k: Kind)
  {
    k.TextCol? || k.BlobCol? || k.ObjectCol?
  }

  function Width(k: Kind): (w: nat)
  {
    match k
    case BoolCol => 1
    case IntCol => 4
    case LongCol => 8
    case RealCol => 8
    case _ => 0
  }

  /** Where the value is: a nullable value follows its `is_null` byte, aligned to its width. */
  function ValueAt(c: Column): (p: nat)
  {
    if c.notNull then c.at else c.at + Width(c.kind)
  }

  /** `cql_cursor_hash`. */
  function CursorHash(c: Cursor): (h: Option<uint64>)
  {
    if c.hasRow then BufferHash(c.row) else Some(0)
  }

  /** `cql_cursors_equal`: the sizes first, then presence, then the rows. */
  function CursorsEqual(c1: Cursor, c2: Cursor): (e: Option<bool>)
  {
    if |c1.row.prefix| != |c2.row.prefix| || |c1.row.refs| != |c2.row.refs| || c1.hasRow != c2.hasRow then Some(false)
    else if !c1.hasRow then Some(true)
    else BuffersEqual(c1.row, c2.row)
  }

  /** Equal cursors hash equal, with or without a row. */
  lemma {:induction false} EqualCursorsHashAlike(c1: Cursor, c2: Cursor)
    requires CursorsEqual(c1, c2) == Some(true)
    ensures CursorHash(c1) == CursorHash(c2)
  {
    if c1.hasRow {
      EqualRowsHashAlike(c1.row, c2.row);
    }
  }

  // ---------- the difference of two cursors ----------

  /** The unsigned reading of `w` native bytes; two values are equal when their readings are. */
  function ReadNative(s: seq<byte>, at: nat, w: nat): (v: nat)
    requires at + w <= |s|
    decreases w
  {
    if w == 0 then 0 else s[at] + 0x100 * ReadNative(s, at + 1, w - 1)
  }

  predicate IsNan(s: seq<byte>, at: nat)
    requires at + 8 <= |s|
  {
    s[at + 7] % 128 == 127 && s[at + 6] / 16 == 15
    && !(s[at + 6] % 16 == 0 && forall p :: at <= p < at + 6 ==> s[p] == 0)
  }

  predicate IsZero(s: seq<byte>, at: nat)
    requires at + 8 <= |s|
  {
    s[at + 7] % 128 == 0 && forall p :: at <= p < at + 7 ==> s[p] == 0
  }

  /** `==` on doubles: no NaN equals anything, and the two zeros are equal. */
  predicate RealsEqual(s: seq<byte>, t: seq<byte>, at: nat)
    requires at + 8 <= |s| && at + 8 <= |t|
  {
    !IsNan(s, at) && !IsNan(t, at) && (ReadNative(s, at, 8) == ReadNative(t, at, 8) || (IsZero(s, at) && IsZero(t, at)))
  }

  /** The column lies inside the row. */
  predicate Placed(c: Column, b: Buffer)
  {
    if IsRef(c.kind) then c.at < |b.refs| && RefOfKind(c.kind, b.refs[c.at])
    else ValueAt(c) + Width(c.kind) <= |b.prefix|
  }

  predicate RefOfKind(k: Kind, r: Ref)
  {
    r.Null? || (k.TextCol? && r.Str?) || (k.BlobCol? && r.Blob?) || (k.ObjectCol? && r.Object?)
  }

  predicate ValuesEqual(c: Column, a: Buffer, b: Buffer)
    requires Placed(c, a) && Placed(c, b) && !IsRef(c.kind)
  {
    if c.kind.RealCol? then RealsEqual(a.prefix, b.prefix, ValueAt(c))
    else ReadNative(a.prefix, ValueAt(c), Width(c.kind)) == ReadNative(b.prefix, ValueAt(c), Width(c.kind))
  }

  /** `cql_compare_one_cursor_column`. */
  predicate ColumnsEqual(c: Column, a: Buffer, b: Buffer)
    requires Placed(c, a) && Placed(c, b)
  {
    match c.kind
    case TextCol =>
      var s, t := a.refs[c.at], b.refs[c.at];
      s == t || (!s.Null? && !t.Null? && s.chars == t.chars)
    case BlobCol =>
      var s, t := a.refs[c.at], b.refs[c.at];
      s == t || (!s.Null? && !t.Null? && s.bytes == t.bytes)
    case ObjectCol =>
      a.refs[c.at] == b.refs[c.at]
    case _ =>
      if c.notNull then ValuesEqual(c, a, b)
      else if a.prefix[c.at] != b.prefix[c.at] then false
      else if a.prefix[c.at] != 0 then true
      else ValuesEqual(c, a, b)
  }

  /** The columns describe the row, and every reference slot belongs to a column. */
  predicate Laid(cols: seq<Column>, b: Buffer)
  {
    && (forall i :: 0 <= i < |cols| ==> Placed(cols[i], b))
    && (forall r :: 0 <= r < |b.refs| ==> HasSlot(cols, r))
  }

  predicate HasSlot(cols: seq<Column>, r: nat)
  {
    exists i :: 0 <= i < |cols| && IsRef(cols[i].kind) && cols[i].at == r
  }

  /** Byte `p` is part of the column: its `is_null` byte or its value. */
  predicate Covers(c: Column, p: nat)
  {
    !IsRef(c.kind) && ((!c.notNull && p == c.at) || ValueAt(c) <= p < ValueAt(c) + Width(c.kind))
  }

  /** The column's null values are zero. */
  predicate NullIsZero(c: Column, b: Buffer)
    requires Placed(c, b)
  {
    !IsRef(c.kind) && !c.notNull && b.prefix[c.at] != 0 ==> ReadNative(b.prefix, ValueAt(c), Width(c.kind)) == 0
  }

  predicate NullsAreZero(cols: seq<Column>, b: Buffer)
    requires Laid(cols, b)
  {
    forall i :: 0 <= i < |cols| ==> NullIsZero(cols[i], b)
  }

  /** No double is a NaN or a negative zero. */
  predicate PlainReals(cols: seq<Column>, b: Buffer)
    requires Laid(cols, b)
  {
    forall i :: 0 <= i < |cols| && cols[i].kind.RealCol? ==>
      var at := ValueAt(cols[i]);
      !IsNan(b.prefix, at) && !(IsZero(b.prefix, at) && b.prefix[at + 7] == 128)
  }

  predicate SamePadding(cols: seq<Column>, a: Buffer, b: Buffer)
  {
    && |a.prefix| == |b.prefix| && |a.refs| == |b.refs|
    && forall p :: 0 <= p < |a.prefix| ==> a.prefix[p] == b.prefix[p] || InColumn(cols, p)
  }

  predicate InColumn(cols: seq<Column>, p: nat)
  {
    exists i :: 0 <= i < |cols| && Covers(cols[i], p)
  }

  /** The first column from `i` on that differs. */
  function FirstDiff(cols: seq<Column>, a: Buffer, b: Buffer, i: nat): (d: int)
    requires i <= |cols| && forall k :: 0 <= k < |cols| ==> Placed(cols[k], a) && Placed(cols[k], b)
    ensures d == -1 || i <= d < |cols|
    decreases |cols| - i
  {
    if i == |cols| then -1 else if !ColumnsEqual(cols[i], a, b) then i else FirstDiff(cols, a, b, i + 1)
  }

  /** Columns of one type are laid out at one place. */
  predicate LaidAlike(c1: Cursor, c2: Cursor)
  {
    && Laid(c1.cols, c1.row) && Laid(c2.cols, c2.row)
    && forall i :: 0 <= i < |c1.cols| && i < |c2.cols| && SameType(c1.cols[i], c2.cols[i]) ==> c1.cols[i] == c2.cols[i]
  }

  predicate SameType(c: Column, d: Column)
  {
    c.kind == d.kind && c.notNull == d.notNull
  }

  /** Column `i` is of one type in both cursors, and equal. */
  predicate Matches(c1: Cursor, c2: Cursor, i: nat)
    requires LaidAlike(c1, c2) && i < |c1.cols| && i < |c2.cols|
  {
    SameType(c1.cols[i], c2.cols[i]) && ColumnsEqual(c1.cols[i], c1.row, c2.row)
  }

  /** `cql_cursor_diff_index`: -2 when only one has a row, -1 when there is no difference, and
      otherwise the first column that differs.  No result is a failed contract: different
      numbers of columns, or different types where the columns before are equal. */
  method DiffIndex(c1: Cursor, c2: Cursor) returns (d: Option<int>)
    requires LaidAlike(c1, c2)
    ensures d == Some(-2) <==> c1.hasRow != c2.hasRow
    ensures d == Some(-1) <==> (c1.hasRow == c2.hasRow &&
              (c1.hasRow ==> |c1.cols| == |c2.cols| && forall i :: 0 <= i < |c1.cols| ==> Matches(c1, c2, i)))
    ensures d.None? <==> (c1.hasRow && c2.hasRow && (|c1.cols| != |c2.cols| ||
              exists i :: 0 <= i < |c1.cols| && !SameType(c1.cols[i], c2.cols[i]) && forall j :: 0 <= j < i ==> Matches(c1, c2, j)))
    ensures d.Some? && d.value >= 0 ==>
              && |c1.cols| == |c2.cols| && d.value < |c1.cols|
              && SameType(c1.cols[d.value], c2.cols[d.value]) && !Matches(c1, c2, d.value)
              && forall i :: 0 <= i < d.value ==> Matches(c1, c2, i)
    ensures d.Some? ==> d.value >= -2
    ensures c1.hasRow && c2.hasRow && c1.cols == c2.cols ==> d == Some(FirstDiff(c1.cols, c1.row, c2.row, 0))
  {
    hide ColumnsEqual, Laid;
    if c1.hasRow != c2.hasRow {
      return Some(-2);
    }
    if !c1.hasRow {
      return Some(-1);
    }
    if |c1.cols| != |c2.cols| {
      return None;
    }
    LaidPlaced(c1.cols, c1.row);
    LaidPlaced(c2.cols, c2.row);
    var i := 0;
    while i < |c1.cols|
      invariant 0 <= i <= |c1.cols|
      invariant forall j :: 0 <= j < i ==> Matches(c1, c2, j)
      invariant forall j :: 0 <= j < i ==> SameType(c1.cols[j], c2.cols[j])
      invariant c1.cols == c2.cols ==> FirstDiff(c1.cols, c1.row, c2.row, 0) == FirstDiff(c1.cols, c1.row, c2.row, i)
    {
      if !SameType(c1.cols[i], c2.cols[i]) {
        assert !Matches(c1, c2, i);
        return None;
      }
      if !ColumnsEqual(c1.cols[i], c1.row, c2.row) {
        assert !Matches(c1, c2, i);
        return Some(i);
      }
      i := i + 1;
    }
    return Some(-1);
  }

  lemma {:induction false} LaidPlaced(cols: seq<Column>, b: Buffer)
    requires Laid(cols, b)
    ensures forall i :: 0 <= i < |cols| ==> Placed(cols[i], b)
  {
  }

  // ---------- the two comparisons agree ----------

  lemma {:induction false} SameReading(s: seq<byte>, t: seq<byte>, at: nat, w: nat)
    requires at + w <= |s| && at + w <= |t|
    ensures ReadNative(s, at, w) == ReadNative(t, at, w) <==> forall p :: at <= p < at + w ==> s[p] == t[p]
    decreases w
  {
    if w > 0 {
      SameReading(s, t, at + 1, w - 1);
    }
  }

  /** All the column's bytes are the same. */
  predicate SameBytes(c: Column, a: Buffer, b: Buffer)
    requires |a.prefix| == |b.prefix|
  {
    forall p :: 0 <= p < |a.prefix| && Covers(c, p) ==> a.prefix[p] == b.prefix[p]
  }

  /** The column holds a double that is not null. */
  predicate HoldsReal(c: Column, b: Buffer)
    requires Placed(c, b)
  {
    c.kind.RealCol? && (c.notNull || b.prefix[c.at] == 0)
  }

  predicate HoldsNan(c: Column, b: Buffer)
    requires Placed(c, b)
  {
    HoldsReal(c, b) && IsNan(b.prefix, ValueAt(c))
  }

  /** Both rows hold a zero, of whatever sign. */
  predicate BothZero(c: Column, a: Buffer, b: Buffer)
    requires Placed(c, a) && Placed(c, b)
  {
    HoldsReal(c, a) && HoldsReal(c, b) && IsZero(a.prefix, ValueAt(c)) && IsZero(b.prefix, ValueAt(c))
  }

  /** Some double of the row is a NaN. */
  predicate HasNan(cols: seq<Column>, b: Buffer)
    requires Laid(cols, b)
  {
    exists i :: 0 <= i < |cols| && HoldsNan(cols[i], b)
  }

  /** The rows are the same but for the signs of zeros. */
  predicate UpToZeroSigns(cols: seq<Column>, a: Buffer, b: Buffer)
    requires Laid(cols, a) && Laid(cols, b) && |a.prefix| == |b.prefix| && |a.refs| == |b.refs|
  {
    && (forall i :: 0 <= i < |cols| && !IsRef(cols[i].kind) ==> SameBytes(cols[i], a, b) || BothZero(cols[i], a, b))
    && (forall r :: 0 <= r < |a.refs| ==> Meaning(a.refs[r]) == Meaning(b.refs[r]))
  }

  /** `==` on doubles, by their bytes. */
  lemma {:induction false} RealsEqualIff(s: seq<byte>, t: seq<byte>, at: nat)
    requires at + 8 <= |s| && at + 8 <= |t|
    ensures RealsEqual(s, t, at) <==>
            !IsNan(s, at) && ((forall p :: at <= p < at + 8 ==> s[p] == t[p]) || (IsZero(s, at) && IsZero(t, at)))
  {
    hide ReadNative;
    SameReading(s, t, at, 8);
    if forall p :: at <= p < at + 8 ==> s[p] == t[p] {
      assert IsNan(s, at) <==> IsNan(t, at);
    }
  }

  /** The bytes of an inline column are its `is_null` byte and its value. */
  lemma {:induction false} SameBytesIff(c: Column, a: Buffer, b: Buffer)
    requires Placed(c, a) && Placed(c, b) && !IsRef(c.kind) && |a.prefix| == |b.prefix|
    ensures SameBytes(c, a, b) <==>
            && (!c.notNull ==> a.prefix[c.at] == b.prefix[c.at])
            && (forall p :: ValueAt(c) <= p < ValueAt(c) + Width(c.kind) ==> a.prefix[p] == b.prefix[p])
  {
    if SameBytes(c, a, b) {
      if !c.notNull {
        assert Covers(c, c.at);
      }
      forall p | ValueAt(c) <= p < ValueAt(c) + Width(c.kind)
        ensures a.prefix[p] == b.prefix[p]
      {
        assert Covers(c, p);
      }
    }
  }

  lemma {:induction false} ValuesEqualIff(c: Column, a: Buffer, b: Buffer)
    requires Placed(c, a) && Placed(c, b) && !IsRef(c.kind)
    ensures var at := ValueAt(c);
            var same := forall p :: at <= p < at + Width(c.kind) ==> a.prefix[p] == b.prefix[p];
            ValuesEqual(c, a, b) <==>
            if c.kind.RealCol? then !IsNan(a.prefix, at) && (same || (IsZero(a.prefix, at) && IsZero(b.prefix, at))) else same
  {
    hide ReadNative, IsNan, IsZero, RealsEqual;
    SameReading(a.prefix, b.prefix, ValueAt(c), Width(c.kind));
    if c.kind.RealCol? {
      RealsEqualIff(a.prefix, b.prefix, ValueAt(c));
    }
  }

  /** An inline column compares equal exactly when it holds no NaN and its bytes are the same
      or both are zeros. */
  lemma {:induction false} InlineIff(c: Column, a: Buffer, b: Buffer)
    requires Placed(c, a) && Placed(c, b) && !IsRef(c.kind) && NullIsZero(c, a) && NullIsZero(c, b)
    requires |a.prefix| == |b.prefix|
    ensures ColumnsEqual(c, a, b) <==> !HoldsNan(c, a) && (SameBytes(c, a, b) || BothZero(c, a, b))
  {
    hide ReadNative, IsNan, IsZero, RealsEqual, SameBytes, ValuesEqual;
    SameBytesIff(c, a, b);
    SameReading(a.prefix, b.prefix, ValueAt(c), Width(c.kind));
    ValuesEqualIff(c, a, b);
  }

  lemma {:induction false} ReferenceIff(c: Column, a: Buffer, b: Buffer)
    requires Placed(c, a) && Placed(c, b) && IsRef(c.kind)
    ensures ColumnsEqual(c, a, b) <==> Meaning(a.refs[c.at]) == Meaning(b.refs[c.at])
    ensures !HoldsNan(c, a)
  {
  }

  lemma {:induction false} FirstDiffNone(cols: seq<Column>, a: Buffer, b: Buffer, i: nat)
    requires i <= |cols| && forall k :: 0 <= k < |cols| ==> Placed(cols[k], a) && Placed(cols[k], b)
    ensures FirstDiff(cols, a, b, i) == -1 <==> forall k :: i <= k < |cols| ==> ColumnsEqual(cols[k], a, b)
    decreases |cols| - i
  {
    if i < |cols| {
      FirstDiffNone(cols, a, b, i + 1);
    }
  }

  /** The comparison by columns finds no difference exactly when the rows are the same up to the
      signs of zeros and hold no NaN. */
  lemma {:induction false} NoDiffIff(cols: seq<Column>, a: Buffer, b: Buffer)
    requires Laid(cols, a) && Laid(cols, b) && SamePadding(cols, a, b)
    requires NullsAreZero(cols, a) && NullsAreZero(cols, b)
    ensures FirstDiff(cols, a, b, 0) == -1 <==> UpToZeroSigns(cols, a, b) && !HasNan(cols, a)
  {
    hide ColumnsEqual, SameBytes, BothZero, HoldsNan, ReadNative, Meaning;
    FirstDiffNone(cols, a, b, 0);
    forall i | 0 <= i < |cols|
      ensures if IsRef(cols[i].kind) then
                !HoldsNan(cols[i], a) && (ColumnsEqual(cols[i], a, b) <==> Meaning(a.refs[cols[i].at]) == Meaning(b.refs[cols[i].at]))
              else ColumnsEqual(cols[i], a, b) <==> !HoldsNan(cols[i], a) && (SameBytes(cols[i], a, b) || BothZero(cols[i], a, b))
    {
      if IsRef(cols[i].kind) {
        ReferenceIff(cols[i], a, b);
      } else {
        InlineIff(cols[i], a, b);
      }
    }
    if forall i :: 0 <= i < |cols| ==> ColumnsEqual(cols[i], a, b) {
      forall r | 0 <= r < |a.refs|
        ensures Meaning(a.refs[r]) == Meaning(b.refs[r])
      {
        assert HasSlot(cols, r);
        var i :| 0 <= i < |cols| && IsRef(cols[i].kind) && cols[i].at == r;
      }
    }
  }

  /** Equal bytes and equal references are one way of being the same up to the signs of zeros. */
  lemma {:induction false} SameIffPrefix(cols: seq<Column>, a: Buffer, b: Buffer)
    requires Laid(cols, a) && Laid(cols, b) && |a.prefix| == |b.prefix| && |a.refs| == |b.refs|
    ensures SameMeaning(a, b) <==> UpToZeroSigns(cols, a, b) && a.prefix == b.prefix
  {
    hide Meaning, BothZero;
  }

  /** Exactly when the comparison by bytes and the comparison by columns agree, object columns
      included: not on equal rows that hold a NaN, and not on rows without NaNs that differ,
      and only in the signs of zeros. */
  lemma {:induction false} AgreeIff(cols: seq<Column>, a: Buffer, b: Buffer)
    requires Laid(cols, a) && Laid(cols, b) && SamePadding(cols, a, b)
    requires NullsAreZero(cols, a) && NullsAreZero(cols, b)
    ensures (CursorsEqual(Cursor(true, cols, a), Cursor(true, cols, b)) == Some(true) <==> FirstDiff(cols, a, b, 0) == -1)
            <==>
            && !(SameMeaning(a, b) && HasNan(cols, a))
            && !(a.prefix != b.prefix && UpToZeroSigns(cols, a, b) && !HasNan(cols, a))
  {
    hide UpToZeroSigns, HasNan, SameMeaning, BuffersEqual, FirstDiff, NullsAreZero;
    BuffersEqualIff(a, b);
    NoDiffIff(cols, a, b);
    SameIffPrefix(cols, a, b);
  }

  /** Rows whose doubles are plain are always told apart alike. */
  lemma {:induction false} EqualIffNoDiff(cols: seq<Column>, a: Buffer, b: Buffer)
    requires Laid(cols, a) && Laid(cols, b) && SamePadding(cols, a, b)
    requires NullsAreZero(cols, a) && NullsAreZero(cols, b) && PlainReals(cols, a) && PlainReals(cols, b)
    ensures CursorsEqual(Cursor(true, cols, a), Cursor(true, cols, b)) == Some(true) <==> FirstDiff(cols, a, b, 0) == -1
  {
    hide CursorsEqual, FirstDiff, ReadNative, SameMeaning, IsNan;
    AgreeIff(cols, a, b);
    if UpToZeroSigns(cols, a, b) {
      forall p | 0 <= p < |a.prefix|
        ensures a.prefix[p] == b.prefix[p]
      {
        if InColumn(cols, p) {
          var i :| 0 <= i < |cols| && Covers(cols[i], p);
          if BothZero(cols[i], a, b) {
            PlainZeros(cols, i, a, b);
          }
          assert SameBytes(cols[i], a, b);
        }
      }
    }
  }

  /** Two plain zeros are the same bytes. */
  lemma {:induction false} PlainZeros(cols: seq<Column>, i: nat, a: Buffer, b: Buffer)
    requires i < |cols| && Laid(cols, a) && Laid(cols, b) && |a.prefix| == |b.prefix|
    requires PlainReals(cols, a) && PlainReals(cols, b) && BothZero(cols[i], a, b)
    ensures SameBytes(cols[i], a, b)
  {
    hide IsNan;
    var at := ValueAt(cols[i]);
    SameBytesIff(cols[i], a, b);
    assert a.prefix[at + 7] == b.prefix[at + 7] == 0;
  }

  /** The second exception is real: the two zeros are one value with two byte patterns. */
  lemma {:induction false} ZerosDisagree()
    ensures
      var cols, zero, minus := [Column(RealCol, true, 0)], Buffer([0, 0, 0, 0, 0, 0, 0, 0], []),
                               Buffer([0, 0, 0, 0, 0, 0, 0, 128], []);
      Laid(cols, zero) && Laid(cols, minus)
      && FirstDiff(cols, zero, minus, 0) == -1 && BuffersEqual(zero, minus) == Some(false)
  {
    var cols, zero, minus := [Column(RealCol, true, 0)], Buffer([0, 0, 0, 0, 0, 0, 0, 0], []),
                             Buffer([0, 0, 0, 0, 0, 0, 0, 128], []);
    assert zero.prefix[7] != minus.prefix[7];
    assert Placed(cols[0], zero) && Placed(cols[0], minus);
    assert IsZero(zero.prefix, 0) && IsZero(minus.prefix, 0);
    FirstDiffNone(cols, zero, minus, 0);
  }

  /** So is the first: a NaN differs from itself, though its bytes do not. */
  lemma {:induction false} NanDisagrees()
    ensures
      var cols, nan := [Column(RealCol, true, 0)], Buffer([0, 0, 0, 0, 0, 0, 248, 127], []);
      Laid(cols, nan) && FirstDiff(cols, nan, nan, 0) == 0 && BuffersEqual(nan, nan) == Some(true)
  {
    var cols, nan := [Column(RealCol, true, 0)], Buffer([0, 0, 0, 0, 0, 0, 248, 127], []);
    assert Placed(cols[0], nan);
    assert IsNan(nan.prefix, 0);
  }
}
