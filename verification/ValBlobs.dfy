/** Value blobs: `bcreateval`, `bgetval` and `bgetval_type`.  A value blob is a finite map from
    field id to value; an absent field is null. */
module ValBlobs {
  import opened Bytes
  import opened BlobLayout
  import opened BlobRead
  import opened BlobWrite

  datatype Entry = Entry(id: int64, col: Col)

  function Cols(es: seq<Entry>): (cols: seq<Col>)
    ensures |cols| == |es|
  {
    seq(|es|, i requires 0 <= i < |es| => es[i].col)
  }

  function IdWord(id: int64): Word
  {
    BigEndian64(ToUnsigned64(id))
  }

  function Ids(es: seq<Entry>): (ws: seq<Word>)
    ensures |ws| == |es|
  {
    seq(|es|, i requires 0 <= i < |es| => IdWord(es[i].id))
  }

  lemma {:induction false} IdRoundTrip(id: int64)
    ensures ToSigned64(ReadBigEndian64(IdWord(id))) == id
  {
    hide BigEndian64, ReadBigEndian64;
    BigEndian64RoundTrip(ToUnsigned64(id));
  }

  function ValBase(n: nat): nat
  {
    HEADER_SIZE + 17 * n
  }

  predicate ValFits(es: seq<Entry>, slack: nat)
  {
    ValBase(|es|) + VarSize(Cols(es)) + slack < LIMIT
  }

  /** The field ids, then the storage words. */
  function ValWords(es: seq<Entry>): (ws: seq<Word>)
    requires ValFits(es, 0)
    ensures |ws| == 2 * |es|
  {
    Ids(es) + Cells(Cols(es), ValBase(|es|))
  }

  /** A value blob; deleted columns leave unused bytes at the end. */
  function ValBlob(rtype: uint64, es: seq<Entry>, slack: seq<byte>): (b: seq<byte>)
    requires ValFits(es, |slack|)
    ensures |b| == ValBase(|es|) + VarSize(Cols(es)) + |slack|
  {
    Record(Head(rtype, |es|), ValWords(es), Types(Cols(es)), JoinUpTo(Vars(Cols(es)), |es|) + slack)
  }

  function ValAreas(n: nat): Areas
  {
    AreasOf(n, 2 * n, n)
  }

  lemma {:induction false} ValBlobStores(rtype: uint64, es: seq<Entry>, slack: seq<byte>)
    requires ValFits(es, |slack|)
    ensures Stores(ValBlob(rtype, es, slack), ValAreas(|es|), Cols(es))
    ensures ReadHeader(ValBlob(rtype, es, slack)) == Header(MAGIC, |es|, rtype)
  {
    hide Record, Head, Stores, ReadHeader, Cells, JoinUpTo, Ids;
    assert ValWords(es)[|es|..] == Cells(Cols(es), ValBase(|es|));
    PackedStores(Head(rtype, |es|), ValWords(es), Cols(es), slack, |es|);
    HeaderOfRecord(rtype, |es|, ValWords(es), Types(Cols(es)), JoinUpTo(Vars(Cols(es)), |es|) + slack);
  }

  // ---------- finding a field ----------

  /** The first entry with this id, or the number of entries. */
  function Find(es: seq<Entry>, id: int64, from: nat): (i: nat)
    requires from <= |es|
    ensures from <= i <= |es| && (i < |es| ==> es[i].id == id)
    ensures forall k :: from <= k < i ==> es[k].id != id
    decreases |es| - from
  {
    if from == |es| || es[from].id == id then from else Find(es, id, from + 1)
  }

  /** The first `n` words of `b` after the header are the ids of `es`. */
  predicate HasIds(b: seq<byte>, es: seq<Entry>)
  {
    HEADER_SIZE + 8 * |es| <= |b| &&
    forall i :: 0 <= i < |es| ==> b[HEADER_SIZE + 8 * i..HEADER_SIZE + 8 * i + 8] == IdWord(es[i].id)
  }

  lemma {:induction false} RecordHasIds(head: seq<byte>, es: seq<Entry>, types: seq<byte>, tail: seq<byte>)
    requires |head| == HEADER_SIZE && ValFits(es, 0)
    ensures HasIds(Record(head, ValWords(es), types, tail), es)
  {
    hide Record, Cells, IdWord;
    forall i | 0 <= i < |es|
      ensures Record(head, ValWords(es), types, tail)[HEADER_SIZE + 8 * i..HEADER_SIZE + 8 * i + 8] == IdWord(es[i].id)
    {
      ReadWord(head, ValWords(es), types, tail, i);
    }
  }

  function StoredId(b: seq<byte>, i: nat): int64
    requires HEADER_SIZE + 8 * i + 8 <= |b|
  {
    ToSigned64(ReadBigEndian64(b[HEADER_SIZE + 8 * i..HEADER_SIZE + 8 * i + 8]))
  }

  /** The search loop of `bgetval` and `bupdateval`, on any bytes. */
  method FindColumn(b: seq<byte>, n: nat, id: int64) returns (icol: nat)
    requires HEADER_SIZE + 8 * n <= |b|
    ensures icol <= n && (icol < n ==> StoredId(b, icol) == id)
    ensures forall k :: 0 <= k < icol ==> StoredId(b, k) != id
  {
    icol := 0;
    while icol < n
      invariant 0 <= icol <= n
      invariant forall k :: 0 <= k < icol ==> StoredId(b, k) != id
    {
      if StoredId(b, icol) == id {
        return;
      }
      icol := icol + 1;
    }
  }

  function FirstStored(b: seq<byte>, n: nat, id: int64, from: nat): (i: nat)
    requires HEADER_SIZE + 8 * n <= |b| && from <= n
    ensures from <= i <= n && (i < n ==> StoredId(b, i) == id)
    ensures forall k :: from <= k < i ==> StoredId(b, k) != id
    decreases n - from
  {
    if from == n || StoredId(b, from) == id then from else FirstStored(b, n, id, from + 1)
  }

  lemma {:induction false} StoredIdOf(b: seq<byte>, es: seq<Entry>, i: nat)
    requires HasIds(b, es) && i < |es|
    ensures StoredId(b, i) == es[i].id
  {
    hide IdWord, ReadBigEndian64, ToSigned64;
    IdRoundTrip(es[i].id);
  }

  lemma {:induction false} FirstStoredIsFind(b: seq<byte>, es: seq<Entry>, id: int64, from: nat)
    requires HasIds(b, es) && from <= |es|
    ensures FirstStored(b, |es|, id, from) == Find(es, id, from)
    decreases |es| - from
  {
    hide StoredId, HasIds;
    if from < |es| {
      StoredIdOf(b, es, from);
      FirstStoredIsFind(b, es, id, from + 1);
    }
  }

  // ---------- get ----------

  function ValChecked(b: seq<byte>): Outcome<Header>
  {
    var h := ReadHeader(b);
    if ValBase(h.count) >= LIMIT then Aborted
    else if ValBase(h.count) > |b| then Error
    else if !FieldsOk(b, ValAreas(h.count), h.count) then Error
    else Done(h)
  }

  /** `bgetval(blob, field id)`. */
  function GetVal(args: seq<SqlValue>): Outcome<SqlResult>
  {
    if |args| != 2 || args[0].kind != BlobKind || args[1].kind != IntegerKind then Error
    else
      var b := args[0].bytes;
      var h := ReadHeader(b);
      if h.magic != MAGIC then Error
      else
        match ValChecked(b)
        case Aborted => Aborted
        case Error => Error
        case Done(_) =>
          var i := FirstStored(b, h.count, args[1].asInt, 0);
          if i == h.count then Done(ResultNull) else GetColumn(b, ValAreas(h.count), h.count, i)
  }

  /** `bgetval_type(blob)`. */
  function GetValType(args: seq<SqlValue>): Outcome<SqlResult>
  {
    if |args| != 1 || args[0].kind != BlobKind then Error
    else
      var h := ReadHeader(args[0].bytes);
      if h.magic != MAGIC then Error
      else
        match ValChecked(args[0].bytes)
        case Aborted => Aborted
        case Error => Error
        case Done(_) => Done(ResultInt(ToSigned64(h.rtype)))
  }

  method CheckVal(b: seq<byte>) returns (out: Outcome<Header>)
    ensures out == ValChecked(b)
  {
    var h := ReadHeader(b);
    if ValBase(h.count) >= LIMIT {
      return Aborted;
    }
    if ValBase(h.count) > |b| {
      return Error;
    }
    var ok := ValidateFields(b, ValAreas(h.count), h.count);
    out := if ok then Done(h) else Error;
  }

  method BGetVal(args: seq<SqlValue>) returns (out: Outcome<SqlResult>)
    ensures out == GetVal(args)
  {
    if |args| != 2 || args[0].kind != BlobKind || args[1].kind != IntegerKind {
      return Error;
    }
    var b := args[0].bytes;
    var h := ReadHeader(b);
    if h.magic != MAGIC {
      return Error;
    }
    var checked := CheckVal(b);
    if checked.Aborted? {
      return Aborted;
    }
    if checked.Error? {
      return Error;
    }
    var i := FindColumn(b, h.count, args[1].asInt);
    ghost var f := FirstStored(b, h.count, args[1].asInt, 0);
    assert i == f;
    if i >= h.count {
      return Done(ResultNull);
    }
    out := GetColumn(b, ValAreas(h.count), h.count, i);
  }

  /** The value of a field: that of the first entry with its id, or null. */
  function Lookup(es: seq<Entry>, id: int64): SqlResult
  {
    var i := Find(es, id, 0);
    if i == |es| then ResultNull else Result(es[i].col)
  }

  lemma {:induction false} ValBlobChecked(rtype: uint64, es: seq<Entry>, slack: seq<byte>)
    requires ValFits(es, |slack|)
    ensures ValChecked(ValBlob(rtype, es, slack)) == Done(Header(MAGIC, |es|, rtype))
  {
    hide ValBlob, FieldsOk;
    ValBlobStores(rtype, es, slack);
    StoredFieldsOk(ValBlob(rtype, es, slack), ValAreas(|es|), Cols(es));
  }

  /** Getting any field of a value blob is looking it up in the entries; the slack is invisible. */
  lemma {:induction false} GetOfValBlob(rtype: uint64, es: seq<Entry>, slack: seq<byte>, id: SqlValue)
    requires ValFits(es, |slack|) && id.kind == IntegerKind
    ensures GetVal([BlobArg(ValBlob(rtype, es, slack)), id]) == Done(Lookup(es, id.asInt))
    ensures GetValType([BlobArg(ValBlob(rtype, es, slack))]) == Done(ResultInt(ToSigned64(rtype)))
  {
    hide ValBlob, ValChecked, GetColumn, FieldOk, HasIds, Result, FirstStored, Find;
    var b := ValBlob(rtype, es, slack);
    ValBlobStores(rtype, es, slack);
    ValBlobChecked(rtype, es, slack);
    ValBlobHasIds(rtype, es, slack);
    FirstStoredIsFind(b, es, id.asInt, 0);
    var i := Find(es, id.asInt, 0);
    if i < |es| {
      assert StoresCol(b, ValAreas(|es|), Cols(es), i);
      ReadStored(b, ValAreas(|es|), Cols(es), i);
    }
  }

  lemma {:induction false} ValBlobHasIds(rtype: uint64, es: seq<Entry>, slack: seq<byte>)
    requires ValFits(es, |slack|)
    ensures HasIds(ValBlob(rtype, es, slack), es)
  {
    RecordHasIds(Head(rtype, |es|), es, Types(Cols(es)), JoinUpTo(Vars(Cols(es)), |es|) + slack);
  }

  // ---------- writing entries ----------

  /** The first `e` of the entries `es` are written: ids, words, types and variable bytes. */
  ghost predicate EntriesDone(ws: seq<Word>, types: seq<byte>, tail: seq<byte>, es: seq<Entry>, e: nat)
  {
    && e <= |es| && ValFits(es, 0)
    && |ws| == 2 * |es| && |types| == |es| && VarSize(Cols(es)) <= |tail|
    && PartsDone(ws, types, tail, Cols(es), ValBase(|es|), |es|, e)
    && forall k :: 0 <= k < e ==> ws[k] == IdWord(es[k].id)
  }

  lemma {:induction false} NoEntriesYet(ws: seq<Word>, types: seq<byte>, tail: seq<byte>, es: seq<Entry>)
    requires ValFits(es, 0) && |ws| == 2 * |es| && |types| == |es| && VarSize(Cols(es)) <= |tail|
    ensures EntriesDone(ws, types, tail, es, 0)
    ensures VarOffset(Cols(es), ValBase(|es|), 0) == ValBase(|es|)
  {
  }

  lemma {:induction false} EntriesStep(ws: seq<Word>, types: seq<byte>, tail: seq<byte>, es: seq<Entry>, e: nat)
    requires e < |es| && EntriesDone(ws, types, tail, es, e)
    ensures var cols, base := Cols(es), ValBase(|es|);
            var at := |JoinUpTo(Vars(cols), e)|;
            && at + |VarBytes(es[e].col)| <= |tail|
            && EntriesDone(ws[e := IdWord(es[e].id)][|es| + e := Cell(cols, base, e)], types[e := TypeCode(es[e].col)],
                           Splice(tail, at, VarBytes(es[e].col)), es, e + 1)
  {
    hide Cell, TypeCode, VarBytes, IdWord, JoinUpTo;
    var cols, base := Cols(es), ValBase(|es|);
    var ws1 := ws[e := IdWord(es[e].id)];
    PartsKeep(ws, ws1, types, tail, cols, base, |es|, e);
    PartsStep(ws1, types, tail, cols, base, |es|, e);
  }

  /** Words before the storage area do not matter to the parts. */
  lemma {:induction false} PartsKeep(ws: seq<Word>, ws1: seq<Word>, types: seq<byte>, tail: seq<byte>, cols: seq<Col>,
                                     base: nat, first: nat, i: nat)
    requires i <= |cols| && base + VarSize(cols) < LIMIT && PartsDone(ws, types, tail, cols, base, first, i)
    requires |ws1| == |ws| && forall k :: first <= k < |ws| ==> ws1[k] == ws[k]
    ensures PartsDone(ws1, types, tail, cols, base, first, i)
  {
  }

  lemma {:induction false} AllEntriesDone(ws: seq<Word>, types: seq<byte>, tail: seq<byte>, es: seq<Entry>)
    requires EntriesDone(ws, types, tail, es, |es|)
    ensures ws == ValWords(es) && types == Types(Cols(es))
    ensures tail == JoinUpTo(Vars(Cols(es)), |es|) + tail[VarSize(Cols(es))..]
  {
    hide Cell, TypeCode, IdWord, JoinUpTo, PartsDone;
    AllPartsDone(ws, types, tail, Cols(es), ValBase(|es|), |es|, tail[VarSize(Cols(es))..]);
    assert ws[..|es|] == Ids(es);
    assert ws == ws[..|es|] + ws[|es|..];
  }

  /** Writes entry `e` from its pieces, at the four running offsets. */
  method WriteEntry(b: array<byte>, idAt: nat, storageAt: nat, typeAt: nat, varAt: nat,
                    idWord: Word, ty: byte, w: Word, bytes: seq<byte>,
                    ghost head: seq<byte>, ghost ws: seq<Word>, ghost types: seq<byte>, ghost tail: seq<byte>,
                    ghost es: seq<Entry>, ghost e: nat)
    returns (varNext: nat, ghost ws': seq<Word>, ghost types': seq<byte>, ghost tail': seq<byte>)
    requires |head| == HEADER_SIZE && b[..] == Record(head, ws, types, tail)
    requires e < |es| && EntriesDone(ws, types, tail, es, e)
    requires idAt == HEADER_SIZE + 8 * e && storageAt == HEADER_SIZE + 8 * (|es| + e)
    requires typeAt == HEADER_SIZE + 16 * |es| + e && varAt == VarOffset(Cols(es), ValBase(|es|), e)
    requires idWord == IdWord(es[e].id) && ty == TypeCode(es[e].col) && bytes == VarBytes(es[e].col)
    requires w == Cell(Cols(es), ValBase(|es|), e)
    modifies b
    ensures b[..] == Record(head, ws', types', tail') && |tail'| == |tail|
    ensures EntriesDone(ws', types', tail', es, e + 1)
    ensures varNext == VarOffset(Cols(es), ValBase(|es|), e + 1)
  {
    hide Record, PartsDone, Cell, TypeCode, VarBytes, IdWord, JoinUpTo, Splice, VarSize;
    ghost var at := |JoinUpTo(Vars(Cols(es)), e)|;
    EntriesStep(ws, types, tail, es, e);
    OffsetFits(Cols(es), ValBase(|es|), e);
    types' := types[e := ty];
    PutType(b, typeAt, ty, head, ws, types, tail, e);
    PutWord(b, idAt, idWord, head, ws, types', tail, e);
    ghost var ws1 := ws[e := idWord];
    PutWord(b, storageAt, w, head, ws1, types', tail, |es| + e);
    ws' := ws1[|es| + e := w];
    PutVar(b, varAt, bytes, head, ws', types', tail, at);
    tail' := Splice(tail, at, bytes);
    varNext := varAt + |bytes|;
  }

  // ---------- create ----------

  /** Specification `i` of a create or an update: id, value and type arguments. */
  predicate SpecOk(args: seq<SqlValue>, i: nat)
    requires 3 * i + 3 < |args|
  {
    && args[3 * i + 3].kind == IntegerKind && args[3 * i + 1].kind == IntegerKind
    && (args[3 * i + 2].kind == NullKind || Compatible(args[3 * i + 2], ToInt8(args[3 * i + 3].asInt)))
  }

  /** The entry a non-null specification sets. */
  function SpecEntry(args: seq<SqlValue>, i: nat): Entry
    requires 3 * i + 3 < |args| && Compatible(args[3 * i + 2], ToInt8(args[3 * i + 3].asInt))
  {
    Entry(args[3 * i + 1].asInt, ColOf(args[3 * i + 2], ToInt8(args[3 * i + 3].asInt)))
  }

  predicate Sets(args: seq<SqlValue>, i: nat)
    requires 3 * i + 3 < |args|
  {
    args[3 * i + 2].kind != NullKind
  }

  /** Every non-null specification among the first `n` has a value that fits its type. */
  predicate SpecsFit(args: seq<SqlValue>, n: nat)
    requires 3 * n < |args|
  {
    forall i :: 0 <= i < n && Sets(args, i) ==> Compatible(args[3 * i + 2], ToInt8(args[3 * i + 3].asInt))
  }

  /** The entries of the first `n` specifications; a null value leaves no entry. */
  function SetEntries(args: seq<SqlValue>, n: nat): (es: seq<Entry>)
    requires 3 * n < |args| && SpecsFit(args, n)
    ensures |es| <= n
  {
    if n == 0 then []
    else SetEntries(args, n - 1) + (if Sets(args, n - 1) then [SpecEntry(args, n - 1)] else [])
  }

  predicate CreateValArgsOk(args: seq<SqlValue>)
  {
    && |args| >= 1 && |args| % 3 == 1 && args[0].kind == IntegerKind
    && forall i :: 0 <= i < (|args| - 1) / 3 ==> SpecOk(args, i)
  }

  function CreateVal(args: seq<SqlValue>): Outcome<seq<byte>>
  {
    if !CreateValArgsOk(args) then Error
    else
      var n := (|args| - 1) / 3;
      assert forall i :: 0 <= i < n && Sets(args, i) ==> SpecOk(args, i);
      var es := SetEntries(args, n);
      if !ValFits(es, 0) then Aborted else Done(ValBlob(ToUnsigned64(args[0].asInt), es, []))
  }

  lemma {:induction false} VarSizeSnoc(es: seq<Entry>, e: Entry)
    ensures VarSize(Cols(es + [e])) == VarSize(Cols(es)) + |VarBytes(e.col)|
  {
    hide VarBytes;
    var more := Cols(es + [e]);
    VarsPrefix(Cols(es), more, |es|);
    assert JoinUpTo(Vars(more), |es| + 1) == JoinUpTo(Vars(more), |es|) + Vars(more)[|es|];
  }

  method CheckSpecs(args: seq<SqlValue>, n: nat) returns (ok: bool, variableSize: nat, count: nat)
    requires 3 * n < |args|
    ensures ok <==> forall i :: 0 <= i < n ==> SpecOk(args, i)
    ensures ok ==> SpecsFit(args, n) && variableSize == VarSize(Cols(SetEntries(args, n))) && count == |SetEntries(args, n)|
  {
    hide Compatible, ColOf, VarBytes, JoinUpTo, ToInt8;
    variableSize, count := 0, 0;
    NoVars();
    var i := 0;
    while i < n
      invariant 0 <= i <= n
      invariant forall k :: 0 <= k < i ==> SpecOk(args, k)
      invariant SpecsFit(args, i)
      invariant variableSize == VarSize(Cols(SetEntries(args, i))) && count == |SetEntries(args, i)|
    {
      if !SpecOk(args, i) {
        return false, 0, 0;
      }
      if Sets(args, i) {
        VarSizeSnoc(SetEntries(args, i), SpecEntry(args, i));
        variableSize := variableSize + ArgVarSize(args[3 * i + 2], ToInt8(args[3 * i + 3].asInt));
        count := count + 1;
      } else {
        assert SetEntries(args, i) + [] == SetEntries(args, i);
      }
      i := i + 1;
    }
    ok := true;
  }

  lemma {:induction false} NoVars()
    ensures VarSize(Cols([])) == 0
  {
  }

  lemma {:induction false} SetPrefix(args: seq<SqlValue>, i: nat, u: nat)
    requires i <= u && 3 * u < |args| && SpecsFit(args, u)
    ensures SpecsFit(args, i) && SetEntries(args, i) <= SetEntries(args, u)
    decreases u
  {
    if i < u {
      SetPrefix(args, i, u - 1);
    }
  }

  /** The entry that specification `i` sets is the next one of `es`. */
  lemma {:induction false} NextSet(args: seq<SqlValue>, i: nat, u: nat, es: seq<Entry>)
    requires i < u && 3 * u < |args| && SpecsFit(args, u) && SetEntries(args, u) <= es
    ensures SpecsFit(args, i) && SpecsFit(args, i + 1)
    ensures var e := |SetEntries(args, i)|;
            if Sets(args, i) then e < |es| && es[e] == SpecEntry(args, i) && |SetEntries(args, i + 1)| == e + 1
            else |SetEntries(args, i + 1)| == e
  {
    hide Compatible, ColOf;
    SetPrefix(args, i, u);
    SetPrefix(args, i + 1, u);
    var now, next, all := SetEntries(args, i), SetEntries(args, i + 1), SetEntries(args, u);
    if Sets(args, i) {
      assert next[|now|] == SpecEntry(args, i);
      assert all[|now|] == next[|now|] && es[|now|] == all[|now|];
    }
  }

  /** Writes every non-null specification, in order, as the first entries of `es`. */
  method WriteSpecs(b: array<byte>, args: seq<SqlValue>, u: nat, m: nat,
                    ghost head: seq<byte>, ghost ws0: seq<Word>, ghost types0: seq<byte>, ghost tail0: seq<byte>,
                    ghost es: seq<Entry>)
    returns (e: nat, varAt: nat, ghost ws: seq<Word>, ghost types: seq<byte>, ghost tail: seq<byte>)
    requires 3 * u < |args| && SpecsFit(args, u) && m == |es| && SetEntries(args, u) <= es
    requires |head| == HEADER_SIZE && b[..] == Record(head, ws0, types0, tail0) && EntriesDone(ws0, types0, tail0, es, 0)
    modifies b
    ensures e == |SetEntries(args, u)| && varAt == VarOffset(Cols(es), ValBase(m), e)
    ensures b[..] == Record(head, ws, types, tail) && |tail| == |tail0| && EntriesDone(ws, types, tail, es, e)
  {
    hide Record, EntriesDone, VarOffset, Compatible, ColOf, IdWord, TypeCode, VarBytes, Cell, WordOf, SetEntries, ToInt8, VarLen;
    ws, types, tail := ws0, types0, tail0;
    StartOffset(args, es);
    EntriesFit(ws, types, tail, es, 0);
    e, varAt := 0, ValBase(m);
    var i := 0;
    while i < u
      invariant 0 <= i <= u && SpecsFit(args, i) && e <= m
      invariant e == |SetEntries(args, i)| && varAt == VarOffset(Cols(es), ValBase(m), e)
      invariant b[..] == Record(head, ws, types, tail) && |tail| == |tail0| && EntriesDone(ws, types, tail, es, e)
    {
      NextSet(args, i, u, es);
      if Sets(args, i) {
        CellIs(Cols(es), ValBase(m), e);
        var entry := SpecEntry(args, i);
        varAt, ws, types, tail :=
          WriteEntry(b, HEADER_SIZE + 8 * e, HEADER_SIZE + 8 * (m + e), HEADER_SIZE + 16 * m + e, varAt,
                     IdWord(entry.id), TypeCode(entry.col), WordOf(entry.col, varAt), VarBytes(entry.col),
                     head, ws, types, tail, es, e);
        e := e + 1;
      }
      i := i + 1;
    }
  }

  lemma {:induction false} StartOffset(args: seq<SqlValue>, es: seq<Entry>)
    requires |args| > 0
    ensures SetEntries(args, 0) == [] && VarOffset(Cols(es), ValBase(|es|), 0) == ValBase(|es|)
  {
  }

  lemma {:induction false} EntriesFit(ws: seq<Word>, types: seq<byte>, tail: seq<byte>, es: seq<Entry>, e: nat)
    requires EntriesDone(ws, types, tail, es, e)
    ensures ValFits(es, 0)
  {
  }

  /** `bcreateval(record type, [id, value, type]*)`. */
  method BCreateVal(args: seq<SqlValue>) returns (out: Outcome<seq<byte>>)
    ensures out == CreateVal(args)
  {
    hide Record, EntriesDone, Compatible, JoinUpTo, Head, SetEntries, SpecOk, SpecsFit, ValWords, Cols, Vars, Types;
    if |args| < 1 || |args| % 3 != 1 {
      return Error;
    }
    if args[0].kind != IntegerKind {
      return Error;
    }
    var rtype := ToUnsigned64(args[0].asInt);
    var n := (|args| - 1) / 3;
    var ok, variableSize, m := CheckSpecs(args, n);
    if !ok {
      return Error;
    }
    if ValBase(m) + variableSize >= LIMIT {
      return Aborted;
    }
    ghost var es := SetEntries(args, n);
    var b := new byte[ValBase(m) + variableSize];
    ghost var junk, ws, types, tail := AnyRecord(b[..], 2 * m, m);
    ghost var head := Head(rtype, m);
    WriteHead(junk, ws, types, tail, head);
    CopyInto(b, 0, Head(rtype, m));
    NoEntriesYet(ws, types, tail, es);
    var e, varAt;
    e, varAt, ws, types, tail := WriteSpecs(b, args, n, m, head, ws, types, tail, es);
    AllEntriesDone(ws, types, tail, es);
    assert tail[VarSize(Cols(es))..] == [];
    out := Done(b[..]);
  }
}
