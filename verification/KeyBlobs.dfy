/** Key blobs: `bcreatekey`, `bgetkey` and `bgetkey_type`. */
module KeyBlobs {
  import opened Bytes
  import opened BlobLayout
  import opened BlobRead
  import opened BlobWrite

  /** The size of everything before the variable area. */
  function KeyBase(n: nat): nat
  {
    HEADER_SIZE + 9 * n
  }

  predicate KeyFits(cols: seq<Col>)
  {
    KeyBase(|cols|) + VarSize(cols) < LIMIT
  }

  /** The one key blob of a record type and columns: variable data in column order. */
  function KeyBlob(rtype: uint64, cols: seq<Col>): (b: seq<byte>)
    requires KeyFits(cols)
    ensures |b| == KeyBase(|cols|) + VarSize(cols)
  {
    Record(Head(rtype, |cols|), Cells(cols, KeyBase(|cols|)), Types(cols), JoinUpTo(Vars(cols), |cols|))
  }

  function KeyAreas(n: nat): Areas
  {
    AreasOf(0, n, n)
  }

  lemma {:induction false} KeyBlobStores(rtype: uint64, cols: seq<Col>)
    requires KeyFits(cols)
    ensures Stores(KeyBlob(rtype, cols), KeyAreas(|cols|), cols)
    ensures ReadHeader(KeyBlob(rtype, cols)) == Header(MAGIC, |cols|, rtype)
  {
    hide Record, Head, Stores, ReadHeader, Cells, JoinUpTo;
    var ws, vars := Cells(cols, KeyBase(|cols|)), JoinUpTo(Vars(cols), |cols|);
    assert ws[0..] == ws && vars + [] == vars;
    PackedStores(Head(rtype, |cols|), ws, cols, [], 0);
    HeaderOfRecord(rtype, |cols|, ws, Types(cols), vars);
  }

  // ---------- create ----------

  predicate ArgOk(args: seq<SqlValue>, i: nat)
    requires 2 * i + 2 < |args|
  {
    args[2 * i + 2].kind == IntegerKind && Compatible(args[2 * i + 1], ToInt8(args[2 * i + 2].asInt))
  }

  /** Column `i` as the arguments give it: a value and a type. */
  function ArgCol(args: seq<SqlValue>, i: nat): Col
    requires 2 * i + 2 < |args| && ArgOk(args, i)
  {
    ColOf(args[2 * i + 1], ToInt8(args[2 * i + 2].asInt))
  }

  function ArgCols(args: seq<SqlValue>, n: nat): (cols: seq<Col>)
    requires 2 * n < |args| && forall i :: 0 <= i < n ==> ArgOk(args, i)
    ensures |cols| == n
  {
    seq(n, i requires 0 <= i < n => ArgCol(args, i))
  }

  predicate CreateArgsOk(args: seq<SqlValue>)
  {
    && |args| >= 3 && |args| % 2 == 1 && args[0].kind == IntegerKind
    && forall i :: 0 <= i < (|args| - 1) / 2 ==> ArgOk(args, i)
  }

  function CreateKey(args: seq<SqlValue>): Outcome<seq<byte>>
  {
    if !CreateArgsOk(args) then Error
    else
      var cols := ArgCols(args, (|args| - 1) / 2);
      if !KeyFits(cols) then Aborted else Done(KeyBlob(ToUnsigned64(args[0].asInt), cols))
  }

  /** First pass: are the arguments good, and how much variable space do they need. */
  method CheckArgs(args: seq<SqlValue>, n: nat) returns (ok: bool, variableSize: nat)
    requires 2 * n < |args|
    ensures ok <==> forall i :: 0 <= i < n ==> ArgOk(args, i)
    ensures ok ==> variableSize == VarSize(ArgCols(args, n))
  {
    variableSize := 0;
    var i := 0;
    while i < n
      invariant 0 <= i <= n
      invariant forall k :: 0 <= k < i ==> ArgOk(args, k)
      invariant variableSize == VarSize(ArgCols(args, i))
    {
      if !ArgOk(args, i) {
        return false, 0;
      }
      SizeStep(args, i);
      variableSize := variableSize + ArgVarSize(args[2 * i + 1], ToInt8(args[2 * i + 2].asInt));
      i := i + 1;
    }
    ok := true;
  }

  lemma {:induction false} SizeStep(args: seq<SqlValue>, i: nat)
    requires 2 * i + 2 < |args| && ArgOk(args, i) && forall k :: 0 <= k < i ==> ArgOk(args, k)
    ensures VarSize(ArgCols(args, i + 1)) ==
            VarSize(ArgCols(args, i)) + ArgVarSize(args[2 * i + 1], ToInt8(args[2 * i + 2].asInt))
  {
    var less, more := ArgCols(args, i), ArgCols(args, i + 1);
    VarsPrefix(less, more, i);
    assert JoinUpTo(Vars(more), i + 1) == JoinUpTo(Vars(more), i) + Vars(more)[i];
  }

  /** Second pass: header, then every column at its place. */
  method FillKey(b: array<byte>, rtype: uint64, args: seq<SqlValue>, n: nat, ghost cols: seq<Col>)
    requires 2 * n < |args| && (forall i :: 0 <= i < n ==> ArgOk(args, i)) && cols == ArgCols(args, n)
    requires KeyFits(cols) && b.Length == KeyBase(n) + VarSize(cols)
    modifies b
    ensures b[..] == KeyBlob(rtype, cols)
  {
    hide Record, Splice, PartsDone, Cell, ArgCol, ArgOk, VarBytes, TypeCode, Head, JoinUpTo, WordOf, VarLen;
    ghost var junk: seq<byte>, ws: seq<Word>, types: seq<byte>, tail: seq<byte> := AnyRecord(b[..], n, n);
    ghost var head := Head(rtype, n);
    WriteHead(junk, ws, types, tail, head);
    CopyInto(b, 0, Head(rtype, n));
    var storageAt, typeAt, varAt := HEADER_SIZE, HEADER_SIZE + 8 * n, KeyBase(n);
    NoPartsYet(ws, types, tail, cols, KeyBase(n), 0);
    var i := 0;
    while i < n
      invariant 0 <= i <= n
      invariant |ws| == |types| == n && |tail| == VarSize(cols)
      invariant b[..] == Record(head, ws, types, tail)
      invariant PartsDone(ws, types, tail, cols, KeyBase(n), 0, i)
      invariant storageAt == HEADER_SIZE + 8 * i && typeAt == HEADER_SIZE + 8 * n + i
      invariant varAt == VarOffset(cols, KeyBase(n), i)
    {
      ghost var at := |JoinUpTo(Vars(cols), i)|;
      PartsStep(ws, types, tail, cols, KeyBase(n), 0, i);
      OffsetFits(cols, KeyBase(n), i);
      CellIs(cols, KeyBase(n), i);
      varAt := WriteColumn(b, typeAt, storageAt, varAt, ArgCol(args, i), head, ws, types, tail, i, i, at);
      ws, types, tail := ws[i := Cell(cols, KeyBase(n), i)], types[i := TypeCode(cols[i])],
                         Splice(tail, at, VarBytes(cols[i]));
      storageAt, typeAt := storageAt + 8, typeAt + 1;
      i := i + 1;
    }
    AllPartsDone(ws, types, tail, cols, KeyBase(n), 0, []);
    assert ws[0..] == ws && JoinUpTo(Vars(cols), n) + [] == JoinUpTo(Vars(cols), n);
  }

  method BCreateKey(args: seq<SqlValue>) returns (out: Outcome<seq<byte>>)
    ensures out == CreateKey(args)
  {
    if |args| < 3 || |args| % 2 == 0 {
      return Error;
    }
    if args[0].kind != IntegerKind {
      return Error;
    }
    var rtype := ToUnsigned64(args[0].asInt);
    var n := (|args| - 1) / 2;
    var ok, variableSize := CheckArgs(args, n);
    if !ok {
      return Error;
    }
    if KeyBase(n) + variableSize >= LIMIT {
      return Aborted;
    }
    var b := new byte[KeyBase(n) + variableSize];
    FillKey(b, rtype, args, n, ArgCols(args, n));
    out := Done(b[..]);
  }

  // ---------- get ----------

  /** What every reader of a key blob checks once the magic number is right. */
  function KeyChecked(b: seq<byte>): Outcome<Header>
  {
    var h := ReadHeader(b);
    if KeyBase(h.count) >= 0x1_0000_0000 then Aborted
    else if KeyBase(h.count) > |b| then Error
    else if !FieldsOk(b, KeyAreas(h.count), h.count) then Error
    else Done(h)
  }

  /** `bgetkey(blob, column)`. */
  function GetKey(args: seq<SqlValue>): Outcome<SqlResult>
  {
    if |args| != 2 || args[0].kind != BlobKind || args[1].kind != IntegerKind then Error
    else
      var b, icol := args[0].bytes, ToUnsigned64(args[1].asInt);
      var h := ReadHeader(b);
      if icol >= h.count || h.magic != MAGIC then Error
      else
        match KeyChecked(b)
        case Aborted => Aborted
        case Error => Error
        case Done(_) => GetColumn(b, KeyAreas(h.count), h.count, icol)
  }

  /** `bgetkey_type(blob)`. */
  function GetKeyType(args: seq<SqlValue>): Outcome<SqlResult>
  {
    if |args| != 1 || args[0].kind != BlobKind then Error
    else
      var h := ReadHeader(args[0].bytes);
      if h.magic != MAGIC then Error
      else
        match KeyChecked(args[0].bytes)
        case Aborted => Aborted
        case Error => Error
        case Done(_) => Done(ResultInt(ToSigned64(h.rtype)))
  }

  method CheckKey(b: seq<byte>) returns (out: Outcome<Header>)
    ensures out == KeyChecked(b)
  {
    var h := ReadHeader(b);
    if KeyBase(h.count) >= 0x1_0000_0000 {
      return Aborted;
    }
    if KeyBase(h.count) > |b| {
      return Error;
    }
    var ok := ValidateFields(b, KeyAreas(h.count), h.count);
    out := if ok then Done(h) else Error;
  }

  method BGetKey(args: seq<SqlValue>) returns (out: Outcome<SqlResult>)
    ensures out == GetKey(args)
  {
    if |args| != 2 || args[0].kind != BlobKind || args[1].kind != IntegerKind {
      return Error;
    }
    var b, icol := args[0].bytes, ToUnsigned64(args[1].asInt);
    var h := ReadHeader(b);
    if icol >= h.count || h.magic != MAGIC {
      return Error;
    }
    var checked := CheckKey(b);
    match checked
    case Aborted => out := Aborted;
    case Error => out := Error;
    case Done(_) => out := GetColumn(b, KeyAreas(h.count), h.count, icol);
  }

  lemma {:induction false} KeyBlobChecked(rtype: uint64, cols: seq<Col>)
    requires KeyFits(cols)
    ensures KeyChecked(KeyBlob(rtype, cols)) == Done(Header(MAGIC, |cols|, rtype))
  {
    hide KeyBlob, FieldsOk;
    KeyBlobStores(rtype, cols);
    StoredFieldsOk(KeyBlob(rtype, cols), KeyAreas(|cols|), cols);
  }

  /** Getting column `i` of the blob of some columns returns column `i`; any other index is an error. */
  lemma {:induction false} GetOfKeyBlob(rtype: uint64, cols: seq<Col>, index: SqlValue)
    requires KeyFits(cols) && index.kind == IntegerKind
    ensures var i := ToUnsigned64(index.asInt);
            GetKey([BlobArg(KeyBlob(rtype, cols)), index]) ==
            if i < |cols| then Done(Result(cols[i])) else Error
    ensures GetKeyType([BlobArg(KeyBlob(rtype, cols))]) == Done(ResultInt(ToSigned64(rtype)))
  {
    hide KeyBlob, KeyChecked, GetColumn, FieldOk;
    var b, i := KeyBlob(rtype, cols), ToUnsigned64(index.asInt);
    KeyBlobStores(rtype, cols);
    KeyBlobChecked(rtype, cols);
    if i < |cols| {
      assert StoresCol(b, KeyAreas(|cols|), cols, i);
      ReadStored(b, KeyAreas(|cols|), cols, i);
    }
  }

  // ---------- one blob per key ----------

  lemma {:induction false} SameCol(c: Col, d: Col)
    requires TypeCode(c) == TypeCode(d) && Result(c) == Result(d)
    ensures c == d
  {
  }

  /** Two key blobs are equal exactly when record type, column types and normalized values are. */
  lemma {:induction false} KeyBlobsEqualIff(rtype1: uint64, cols1: seq<Col>, rtype2: uint64, cols2: seq<Col>)
    requires KeyFits(cols1) && KeyFits(cols2)
    ensures KeyBlob(rtype1, cols1) == KeyBlob(rtype2, cols2) <==> rtype1 == rtype2 && cols1 == cols2
  {
    hide KeyBlob, GetColumn, TypeCode, Result;
    var b := KeyBlob(rtype1, cols1);
    if b == KeyBlob(rtype2, cols2) {
      KeyBlobStores(rtype1, cols1);
      KeyBlobStores(rtype2, cols2);
      forall i | 0 <= i < |cols1|
        ensures cols1[i] == cols2[i]
      {
        assert StoresCol(b, KeyAreas(|cols1|), cols1, i) && StoresCol(b, KeyAreas(|cols2|), cols2, i);
        ReadStored(b, KeyAreas(|cols1|), cols1, i);
        ReadStored(b, KeyAreas(|cols1|), cols2, i);
        SameCol(cols1[i], cols2[i]);
      }
    }
  }
}
