/** `bupdatekey`: three passes over a copy of the blob and the result.  The updated blob is
    byte for byte the blob that `bcreatekey` would make of the new values. */
module KeyUpdate {
  import opened Bytes
  import opened BlobLayout
  import opened BlobRead
  import opened BlobWrite
  import opened KeyBlobs

  // ---------- what an update means ----------

  /** The columns after some updates, and for each updated column the argument it came from. */
  datatype Updated = Updated(cols: seq<Col>, src: map<nat, nat>)

  /** Update `k` is the pair of arguments index `2k + 1` and value `2k + 2`. */
  predicate UpdateOk(st: Updated, args: seq<SqlValue>, k: nat)
    requires 2 * k + 2 < |args|
  {
    var icol := ToUnsigned64(args[2 * k + 1].asInt);
    && args[2 * k + 1].kind == IntegerKind
    && icol < |st.cols| && icol !in st.src
    && Compatible(args[2 * k + 2], TypeCode(st.cols[icol]))
  }

  function UpdateStep(st: Updated, args: seq<SqlValue>, k: nat): (r: Updated)
    requires 2 * k + 2 < |args| && UpdateOk(st, args, k)
  {
    var icol := ToUnsigned64(args[2 * k + 1].asInt);
    Updated(st.cols[icol := ColOf(args[2 * k + 2], TypeCode(st.cols[icol]))], st.src[icol := 2 * k + 2])
  }

  /** The first `k` updates, or none if one of them is refused. */
  function Updates(cols: seq<Col>, args: seq<SqlValue>, k: nat): (r: Option<Updated>)
    requires 2 * k < |args|
  {
    if k == 0 then Some(Updated(cols, map[]))
    else
      match Updates(cols, args, k - 1)
      case None => None
      case Some(st) => if UpdateOk(st, args, k - 1) then Some(UpdateStep(st, args, k - 1)) else None
  }

  /** What the updates keep: the shape, the types, every column not named; and each named
      column holds the value of the argument recorded for it. */
  ghost predicate Consistent(cols: seq<Col>, st: Updated, args: seq<SqlValue>)
  {
    && |st.cols| == |cols|
    && (forall c :: 0 <= c < |cols| ==> TypeCode(st.cols[c]) == TypeCode(cols[c]))
    && (forall c :: 0 <= c < |cols| && c !in st.src ==> st.cols[c] == cols[c])
    && (forall c :: c in st.src ==>
          && c < |cols| && 0 < st.src[c] < |args|
          && Compatible(args[st.src[c]], TypeCode(cols[c]))
          && st.cols[c] == ColOf(args[st.src[c]], TypeCode(cols[c])))
  }

  lemma {:induction false} StepConsistent(cols: seq<Col>, st: Updated, args: seq<SqlValue>, k: nat)
    requires 2 * k + 2 < |args| && UpdateOk(st, args, k) && Consistent(cols, st, args)
    ensures Consistent(cols, UpdateStep(st, args, k), args)
  {
    hide Compatible, ColOf, TypeCode;
    var icol := ToUnsigned64(args[2 * k + 1].asInt);
    ColOfType(args[2 * k + 2], TypeCode(cols[icol]));
  }

  lemma {:induction false} ColOfType(v: SqlValue, ty: int)
    requires Compatible(v, ty)
    ensures TypeCode(ColOf(v, ty)) == ty
  {
  }

  lemma {:induction false} UpdatesConsistent(cols: seq<Col>, args: seq<SqlValue>, k: nat)
    requires 2 * k < |args|
    ensures var r := Updates(cols, args, k); r.Some? ==> Consistent(cols, r.value, args)
  {
    hide Compatible, ColOf, TypeCode, UpdateOk;
    if k > 0 {
      UpdatesConsistent(cols, args, k - 1);
      var r := Updates(cols, args, k - 1);
      if r.Some? && UpdateOk(r.value, args, k - 1) {
        StepConsistent(cols, r.value, args, k - 1);
      }
    }
  }

  /** Replacing one column changes the variable size by the difference. */
  lemma {:induction false} VarSizeUpdate(cols: seq<Col>, i: nat, c: Col, n: nat)
    requires i < |cols| && n <= |cols|
    ensures |JoinUpTo(Vars(cols[i := c]), n)| ==
            |JoinUpTo(Vars(cols), n)| + (if i < n then |VarBytes(c)| - |VarBytes(cols[i])| else 0)
  {
    hide VarBytes;
    if n > 0 {
      VarSizeUpdate(cols, i, c, n - 1);
    }
  }

  // ---------- first pass: check, and mark what will change ----------

  /** The parts of the original blob. */
  datatype Original = Original(head: seq<byte>, cells: seq<Word>, tail: seq<byte>)

  ghost predicate IsOriginal(o: Original, cols: seq<Col>)
  {
    && KeyFits(cols) && |o.head| == HEADER_SIZE && o.cells == Cells(cols, KeyBase(|cols|))
    && o.tail == JoinUpTo(Vars(cols), |cols|)
  }

  function RecordOf(o: Original, types: seq<byte>): seq<byte>
    requires |o.head| == HEADER_SIZE
  {
    Record(o.head, o.cells, types, o.tail)
  }

  lemma {:induction false} DirtyRead(o: Original, cols: seq<Col>, dirty: set<nat>, b: seq<byte>, icol: nat)
    requires IsOriginal(o, cols) && b == RecordOf(o, DirtyTypes(cols, dirty)) && icol < |cols|
    ensures var typeAt := HEADER_SIZE + 8 * |cols| + icol;
            typeAt < |b| && b[typeAt] == TypeCode(cols[icol]) + (if icol in dirty then DIRTY else 0)
    ensures var at := HEADER_SIZE + 8 * icol;
            at + 8 <= |b| && b[at..at + 8] == Cell(cols, KeyBase(|cols|), icol)
  {
    hide Record, TypeCode, Cell;
    ReadType(o.head, o.cells, DirtyTypes(cols, dirty), o.tail, icol);
    ReadWord(o.head, o.cells, DirtyTypes(cols, dirty), o.tail, icol);
  }

  /** One update of the first pass. */
  method MarkUpdate(b: array<byte>, n: nat, args: seq<SqlValue>, k: nat,
                    ghost o: Original, ghost cols: seq<Col>, ghost st: Updated)
    returns (ok: bool, adjustment: int)
    requires 2 * k + 2 < |args| && n == |cols| && IsOriginal(o, cols) && Consistent(cols, st, args)
    requires b[..] == RecordOf(o, DirtyTypes(cols, st.src.Keys))
    modifies b
    ensures ok <==> UpdateOk(st, args, k)
    ensures ok ==> var st' := UpdateStep(st, args, k);
                   && b[..] == RecordOf(o, DirtyTypes(cols, st'.src.Keys))
                   && adjustment == VarSize(st'.cols) - VarSize(st.cols)
  {
    hide Record, TypeCode, Cell, VarBytes, JoinUpTo, Compatible, ColOf, StoredSize;
    var index, value := args[2 * k + 1], args[2 * k + 2];
    adjustment := 0;
    if index.kind != IntegerKind {
      return false, 0;
    }
    var icol := ToUnsigned64(index.asInt);
    if icol >= n {
      return false, 0;
    }
    DirtyRead(o, cols, st.src.Keys, b[..], icol);
    TypeCodeSmall(cols[icol]);
    var typeAt, storageAt := HEADER_SIZE + 8 * n + icol, HEADER_SIZE + 8 * icol;
    var ty := b[typeAt];
    if ty >= DIRTY {
      return false, 0;
    }
    assert icol !in st.src && ty == TypeCode(cols[icol]) && st.cols[icol] == cols[icol];
    PutType(b, typeAt, ty + DIRTY, o.head, o.cells, DirtyTypes(cols, st.src.Keys), o.tail, icol);
    MarkDirty(cols, st.src.Keys, icol);
    if !Compatible(value, ty) {
      return false, 0;
    }
    ghost var st' := UpdateStep(st, args, k);
    assert st'.src.Keys == st.src.Keys + {icol};
    StoredSizeOfCell(cols, KeyBase(n), icol);
    DirtyRead(o, cols, st'.src.Keys, b[..], icol);
    VarSizeUpdate(st.cols, icol, ColOf(value, ty), n);
    adjustment := ArgVarSize(value, ty) - StoredSize(ty, b[storageAt..storageAt + 8]);
    ok := true;
  }

  /** The first pass: either some update is refused, or all are marked and the change in
      variable size is known. */
  method MarkUpdates(b: array<byte>, n: nat, args: seq<SqlValue>, updates: nat, ghost o: Original, ghost cols: seq<Col>)
    returns (ok: bool, adjustment: int)
    requires 2 * updates < |args| && n == |cols| && IsOriginal(o, cols) && b[..] == RecordOf(o, Types(cols))
    modifies b
    ensures ok <==> Updates(cols, args, updates).Some?
    ensures ok ==> var st := Updates(cols, args, updates).value;
                   && b[..] == RecordOf(o, DirtyTypes(cols, st.src.Keys))
                   && adjustment == VarSize(st.cols) - VarSize(cols)
  {
    hide Record, Consistent, UpdateOk, UpdateStep, VarSize, DirtyTypes, JoinUpTo, Cells;
    adjustment := 0;
    ghost var st := Updated(cols, map[]);
    CleanTypes(cols);
    assert st.src.Keys == {};
    var k := 0;
    while k < updates
      invariant 0 <= k <= updates
      invariant Updates(cols, args, k) == Some(st)
      invariant b[..] == RecordOf(o, DirtyTypes(cols, st.src.Keys))
      invariant adjustment == VarSize(st.cols) - VarSize(cols)
    {
      UpdatesConsistent(cols, args, k);
      var good, delta := MarkUpdate(b, n, args, k, o, cols, st);
      if !good {
        RefusedForever(cols, args, k + 1, updates);
        return false, 0;
      }
      st := UpdateStep(st, args, k);
      adjustment := adjustment + delta;
      k := k + 1;
    }
    ok := true;
  }

  lemma {:induction false} RefusedForever(cols: seq<Col>, args: seq<SqlValue>, k: nat, u: nat)
    requires k <= u && 2 * u < |args| && Updates(cols, args, k) == None
    ensures Updates(cols, args, u) == None
    decreases u
  {
    if k < u {
      RefusedForever(cols, args, k, u - 1);
    }
  }

  // ---------- second pass: values in place, notes for the rest ----------

  /** The word of an updated column between the passes: its value, or the number of the
      argument that holds it. */
  function NoteWord(c: Col, iarg: nat): Word
    requires iarg < LIMIT
  {
    if IsVar(c) then Native64(iarg) else WordOf(c, 0)
  }

  ghost predicate Noted(ws: seq<Word>, o: Original, st: Updated, done: set<nat>)
  {
    && |ws| == |o.cells| == |st.cols|
    && forall c :: 0 <= c < |ws| ==>
         ws[c] == if c in done && c in st.src && st.src[c] < LIMIT then NoteWord(st.cols[c], st.src[c]) else o.cells[c]
  }

  /** The first `k` updates are part of all of them. */
  lemma {:induction false} UpdatesGrow(cols: seq<Col>, args: seq<SqlValue>, k: nat, u: nat)
    requires k <= u && 2 * u < |args| && Updates(cols, args, u).Some?
    ensures Updates(cols, args, k).Some?
    ensures var early, late := Updates(cols, args, k).value, Updates(cols, args, u).value;
            forall c :: c in early.src ==> c in late.src && late.src[c] == early.src[c]
    decreases u
  {
    hide Compatible, ColOf, TypeCode;
    if k < u {
      UpdatesGrow(cols, args, k, u - 1);
    }
  }

  /** One update of the second pass. */
  method NoteUpdate(result: array<byte>, b: seq<byte>, n: nat, args: seq<SqlValue>, k: nat,
                    ghost o: Original, ghost cols: seq<Col>, ghost st: Updated, ghost done: set<nat>,
                    ghost ws: seq<Word>, ghost junk: seq<byte>)
    returns (ghost ws': seq<Word>)
    requires 2 * k + 2 < |args| < LIMIT && n == |cols| && IsOriginal(o, cols) && Consistent(cols, st, args)
    requires b == RecordOf(o, DirtyTypes(cols, st.src.Keys))
    requires var icol := ToUnsigned64(args[2 * k + 1].asInt);
             icol in st.src && st.src[icol] == 2 * k + 2 && icol !in done
    requires |ws| == n && Noted(ws, o, st, done)
    requires result[..] == Record(o.head, ws, DirtyTypes(cols, st.src.Keys - done), junk)
    modifies result
    ensures var done' := done + {ToUnsigned64(args[2 * k + 1].asInt)};
            && |ws'| == n && Noted(ws', o, st, done')
            && result[..] == Record(o.head, ws', DirtyTypes(cols, st.src.Keys - done'), junk)
  {
    hide Record, TypeCode, Cell, JoinUpTo, Compatible, ColOf, DirtyTypes, Native64, WordOf, VarSize, BigEndian64;
    var icol := ToUnsigned64(args[2 * k + 1].asInt);
    DirtyRead(o, cols, st.src.Keys, b, icol);
    TypeCodeSmall(cols[icol]);
    var typeAt, storageAt := HEADER_SIZE + 8 * n + icol, HEADER_SIZE + 8 * icol;
    var ty := b[typeAt] - DIRTY;
    ghost var types := DirtyTypes(cols, st.src.Keys - done);
    Unmark(cols, st.src.Keys - done, icol);
    assert st.src.Keys - done - {icol} == st.src.Keys - (done + {icol});
    PutType(result, typeAt, ty, o.head, ws, types, junk, icol);
    IsVarByType(st.cols[icol]);
    var w: Word;
    if ty == TYPE_STRING || ty == TYPE_BLOB {
      w := Native64(2 * k + 2);
    } else {
      FixedWord(args[2 * k + 2], ty);
      w := WordOf(ColOf(args[2 * k + 2], ty), 0);
    }
    assert w == NoteWord(st.cols[icol], st.src[icol]);
    PutWord(result, storageAt, w, o.head, ws, types[icol := ty], junk, icol);
    ws' := ws[icol := w];
  }

  lemma {:induction false} FixedWord(v: SqlValue, ty: int)
    requires Compatible(v, ty) && ty != TYPE_STRING && ty != TYPE_BLOB
    ensures VarLen(ColOf(v, ty)) == 0
  {
  }

  /** The second pass. */
  method NoteUpdates(result: array<byte>, b: seq<byte>, n: nat, args: seq<SqlValue>, updates: nat,
                     ghost o: Original, ghost cols: seq<Col>, ghost st: Updated, ghost junk: seq<byte>)
    returns (ghost ws: seq<Word>)
    requires 2 * updates < |args| < LIMIT && n == |cols| && IsOriginal(o, cols)
    requires Updates(cols, args, updates) == Some(st) && Consistent(cols, st, args)
    requires b == RecordOf(o, DirtyTypes(cols, st.src.Keys))
    requires result[..] == Record(o.head, o.cells, DirtyTypes(cols, st.src.Keys), junk)
    modifies result
    ensures |ws| == n && Noted(ws, o, st, st.src.Keys)
    ensures result[..] == Record(o.head, ws, Types(cols), junk)
  {
    hide Record, JoinUpTo, DirtyTypes, VarSize, Consistent, NoteWord, Noted, UpdateOk, UpdateStep;
    NothingNoted(o, cols, st, args);
    ws := o.cells;
    ghost var done: set<nat> := {};
    assert st.src.Keys - done == st.src.Keys;
    var k := 0;
    while k < updates
      invariant 0 <= k <= updates && |ws| == n && Noted(ws, o, st, done)
      invariant Updates(cols, args, k).Some? && done == Updates(cols, args, k).value.src.Keys
      invariant result[..] == Record(o.head, ws, DirtyTypes(cols, st.src.Keys - done), junk)
    {
      UpdatesGrow(cols, args, k + 1, updates);
      ghost var icol := ToUnsigned64(args[2 * k + 1].asInt);
      NextUpdate(cols, args, k);
      ws := NoteUpdate(result, b, n, args, k, o, cols, st, done, ws, junk);
      done := done + {icol};
      k := k + 1;
    }
    assert st.src.Keys - done == {};
    CleanTypes(cols);
  }

  lemma {:induction false} NothingNoted(o: Original, cols: seq<Col>, st: Updated, args: seq<SqlValue>)
    requires IsOriginal(o, cols) && Consistent(cols, st, args)
    ensures Noted(o.cells, o, st, {})
  {
  }

  lemma {:induction false} NextUpdate(cols: seq<Col>, args: seq<SqlValue>, k: nat)
    requires 2 * k + 2 < |args| && Updates(cols, args, k + 1).Some?
    ensures Updates(cols, args, k).Some?
    ensures var early, late, icol := Updates(cols, args, k).value, Updates(cols, args, k + 1).value,
                                     ToUnsigned64(args[2 * k + 1].asInt);
            && icol !in early.src && icol in late.src && late.src[icol] == 2 * k + 2
            && late.src.Keys == early.src.Keys + {icol}
  {
  }

  // ---------- third pass: variable data in column order ----------

  /** The variable bytes of column `c` of the result: from the original, or from an argument. */
  method FetchVar(resultWord: Word, b: seq<byte>, n: nat, args: seq<SqlValue>, c: nat,
                  ghost o: Original, ghost cols: seq<Col>, ghost st: Updated, ghost rtype: uint64)
    returns (isVar: bool, len: nat, bytes: seq<byte>)
    requires c < n == |cols| && IsOriginal(o, cols) && o.head == Head(rtype, |cols|)
    requires Consistent(cols, st, args) && |args| < LIMIT
    requires b == RecordOf(o, DirtyTypes(cols, st.src.Keys))
    requires resultWord == if c in st.src then NoteWord(st.cols[c], st.src[c]) else o.cells[c]
    ensures isVar == IsVar(st.cols[c])
    ensures isVar ==> len == VarLen(st.cols[c]) && bytes == VarBytes(st.cols[c])
  {
    hide Record, JoinUpTo, Cell, DirtyTypes, BigEndian64, ReadBigEndian64, Native64, ReadNative64, WordOf, Head;
    DirtyRead(o, cols, st.src.Keys, b, c);
    TypeCodeSmall(cols[c]);
    IsVarByType(st.cols[c]);
    var ty := b[HEADER_SIZE + 8 * n + c];
    len, bytes := 0, [];
    if ty == TYPE_STRING || ty == TYPE_BLOB {
      var storageAt := HEADER_SIZE + 8 * c;
      var w := b[storageAt..storageAt + 8];
      CleanVar(o, cols, st.src.Keys, b, c);
      len := InfoLen(w);
      bytes := b[InfoOffset(w)..InfoOffset(w) + len + (if ty == TYPE_STRING then 1 else 0)];
      isVar := true;
    } else if ty == TYPE_STRING + DIRTY || ty == TYPE_BLOB + DIRTY {
      Native64RoundTrip(st.src[c]);
      var iarg := ReadNative64(resultWord);
      len := |args[iarg].bytes|;
      bytes := if ty == TYPE_STRING + DIRTY then args[iarg].bytes + [0] else args[iarg].bytes;
      isVar := true;
    } else {
      isVar := false;
    }
  }

  /** A clean string or blob is where its word says. */
  lemma {:induction false} CleanVar(o: Original, cols: seq<Col>, dirty: set<nat>, b: seq<byte>, c: nat)
    requires c < |cols| && IsOriginal(o, cols) && IsVar(cols[c])
    requires b == RecordOf(o, DirtyTypes(cols, dirty))
    ensures var w, extra := Cell(cols, KeyBase(|cols|), c), (if cols[c].StringCol? then 1 else 0);
            && InfoLen(w) == VarLen(cols[c]) && InfoOffset(w) + InfoLen(w) + extra <= |b|
            && b[InfoOffset(w)..InfoOffset(w) + InfoLen(w) + extra] == VarBytes(cols[c])
  {
    hide Record, DirtyTypes, BigEndian64, ReadBigEndian64, JoinUpTo, Info, InfoLen, InfoOffset;
    var base := KeyBase(|cols|);
    CellIs(cols, base, c);
    OffsetFits(cols, base, c);
    InfoRoundTrip(VarOffset(cols, base, c), VarLen(cols[c]));
    var lo, hi := |JoinUpTo(Vars(cols), c)|, |JoinUpTo(Vars(cols), c + 1)|;
    ReadTail(o.head, o.cells, DirtyTypes(cols, dirty), o.tail, lo, hi);
    JoinSlice(Vars(cols), |cols|, c);
  }

  /** The words from `c` on are as the second pass left them. */
  ghost predicate NotedFrom(ws: seq<Word>, o: Original, st: Updated, c: nat)
  {
    && |ws| == |o.cells| == |st.cols|
    && forall k :: c <= k < |ws| ==>
         ws[k] == if k in st.src && st.src[k] < LIMIT then NoteWord(st.cols[k], st.src[k]) else o.cells[k]
  }

  /** A column without variable data already has its final word. */
  lemma {:induction false} FixedInPlace(ws: seq<Word>, o: Original, cols: seq<Col>, st: Updated, args: seq<SqlValue>, c: nat)
    requires c < |cols| && IsOriginal(o, cols) && Consistent(cols, st, args) && |args| < LIMIT && KeyFits(st.cols)
    requires NotedFrom(ws, o, st, c) && !IsVar(st.cols[c])
    ensures ws[c] == Cell(st.cols, KeyBase(|cols|), c) && VarBytes(st.cols[c]) == []
  {
    hide WordOf, JoinUpTo, Record, VarBytes, TypeCode, ColOf, Compatible;
    var base := KeyBase(|cols|);
    CellIs(cols, base, c);
    CellIs(st.cols, base, c);
    FixedSame(st.cols[c], VarOffset(st.cols, base, c), VarOffset(cols, base, c));
    FixedSame(st.cols[c], VarOffset(st.cols, base, c), 0);
  }

  /** One column of the third pass. */
  method PlaceColumn(result: array<byte>, b: seq<byte>, n: nat, args: seq<SqlValue>, c: nat, varAt: nat,
                     ghost o: Original, ghost cols: seq<Col>, ghost st: Updated, ghost rtype: uint64,
                     ghost ws: seq<Word>, ghost tail: seq<byte>)
    returns (varNext: nat, ghost ws': seq<Word>, ghost tail': seq<byte>)
    requires c < n == |cols| && IsOriginal(o, cols) && o.head == Head(rtype, |cols|)
    requires Consistent(cols, st, args) && |args| < LIMIT && KeyFits(st.cols)
    requires b == RecordOf(o, DirtyTypes(cols, st.src.Keys))
    requires result[..] == Record(o.head, ws, Types(cols), tail) && |tail| == VarSize(st.cols)
    requires NotedFrom(ws, o, st, c) && PartsDone(ws, Types(cols), tail, st.cols, KeyBase(n), 0, c)
    requires varAt == VarOffset(st.cols, KeyBase(n), c)
    modifies result
    ensures result[..] == Record(o.head, ws', Types(cols), tail') && |tail'| == |tail|
    ensures NotedFrom(ws', o, st, c + 1) && PartsDone(ws', Types(cols), tail', st.cols, KeyBase(n), 0, c + 1)
    ensures varNext == VarOffset(st.cols, KeyBase(n), c + 1)
  {
    hide Record, JoinUpTo, PartsDone, WordOf, VarBytes, VarLen, DirtyTypes, Cell, Info, NoteWord, Head, TypeCode, Splice, VarSize, ColOf, Compatible;
    ghost var base, at := KeyBase(n), |JoinUpTo(Vars(st.cols), c)|;
    ghost var types := Types(cols);
    SameTypes(cols, st, args);
    PartsStep(ws, types, tail, st.cols, base, 0, c);
    OffsetFits(st.cols, base, c);
    CellIs(st.cols, base, c);
    assert types[c := TypeCode(st.cols[c])] == types;
    var storageAt := HEADER_SIZE + 8 * c;
    ReadWord(o.head, ws, types, tail, c);
    var isVar, len, bytes := FetchVar(result[storageAt..storageAt + 8], b, n, args, c, o, cols, st, rtype);
    ws', tail' := ws[c := Cell(st.cols, base, c)], Splice(tail, at, VarBytes(st.cols[c]));
    if isVar {
      VarWord(st.cols[c], varAt);
      PutWord(result, storageAt, Info(varAt, len), o.head, ws, types, tail, c);
      PutVar(result, varAt, bytes, o.head, ws', types, tail, at);
      varNext := varAt + |bytes|;
    } else {
      FixedInPlace(ws, o, cols, st, args, c);
      SpliceNothing(tail, at);
      assert ws' == ws;
      varNext := varAt;
    }
  }

  lemma {:induction false} SameTypes(cols: seq<Col>, st: Updated, args: seq<SqlValue>)
    requires Consistent(cols, st, args)
    ensures Types(st.cols) == Types(cols)
  {
  }

  /** The third pass: the result is the canonical blob of the updated columns. */
  method PlaceColumns(result: array<byte>, b: seq<byte>, n: nat, args: seq<SqlValue>,
                      ghost o: Original, ghost cols: seq<Col>, ghost st: Updated, ghost rtype: uint64,
                      ghost noted: seq<Word>, ghost junk: seq<byte>)
    requires n == |cols| && IsOriginal(o, cols) && o.head == Head(rtype, |cols|)
    requires Consistent(cols, st, args) && |args| < LIMIT && KeyFits(st.cols)
    requires b == RecordOf(o, DirtyTypes(cols, st.src.Keys))
    requires |noted| == n && Noted(noted, o, st, st.src.Keys)
    requires result[..] == Record(o.head, noted, Types(cols), junk) && |junk| == VarSize(st.cols)
    modifies result
    ensures result[..] == KeyBlob(rtype, st.cols)
  {
    hide Record, JoinUpTo, PartsDone, DirtyTypes, Head, VarSize, NotedFrom, TypeCode, Noted, VarOffset;
    ghost var ws, tail := noted, junk;
    var varAt := KeyBase(n);
    NoPartsYet(ws, Types(cols), tail, st.cols, KeyBase(n), 0);
    NotedAll(ws, o, st, args, cols);
    SameTypes(cols, st, args);
    var c := 0;
    while c < n
      invariant 0 <= c <= n
      invariant result[..] == Record(o.head, ws, Types(cols), tail) && |tail| == VarSize(st.cols) && |ws| == n
      invariant NotedFrom(ws, o, st, c) && PartsDone(ws, Types(cols), tail, st.cols, KeyBase(n), 0, c)
      invariant varAt == VarOffset(st.cols, KeyBase(n), c)
    {
      varAt, ws, tail := PlaceColumn(result, b, n, args, c, varAt, o, cols, st, rtype, ws, tail);
      NotedSize(ws, o, st, c + 1, cols, args);
      c := c + 1;
    }
    AllPartsDone(ws, Types(cols), tail, st.cols, KeyBase(n), 0, []);
    assert ws[0..] == ws && JoinUpTo(Vars(st.cols), n) + [] == JoinUpTo(Vars(st.cols), n);
  }

  lemma {:induction false} NotedAll(ws: seq<Word>, o: Original, st: Updated, args: seq<SqlValue>, cols: seq<Col>)
    requires Noted(ws, o, st, st.src.Keys) && Consistent(cols, st, args)
    ensures NotedFrom(ws, o, st, 0)
  {
  }

  lemma {:induction false} NotedSize(ws: seq<Word>, o: Original, st: Updated, c: nat, cols: seq<Col>, args: seq<SqlValue>)
    requires NotedFrom(ws, o, st, c) && Consistent(cols, st, args)
    ensures |ws| == |cols|
  {
  }

  // ---------- the whole call ----------

  /** The blob passes every check a reader makes. */
  predicate Recognized(b: seq<byte>)
  {
    ReadHeader(b).magic == MAGIC && KeyChecked(b).Done?
  }

  /** `bupdatekey(blob, [index, value]+)` on the blob of some columns. */
  function UpdateKey(args: seq<SqlValue>, rtype: uint64, cols: seq<Col>): Outcome<seq<byte>>
  {
    if |args| < 3 || |args| % 2 == 0 || args[0].kind != BlobKind || ReadHeader(args[0].bytes).magic != MAGIC then Error
    else
      match KeyChecked(args[0].bytes)
      case Aborted => Aborted
      case Error => Error
      case Done(_) =>
        match Updates(cols, args, (|args| - 1) / 2)
        case None => Error
        case Some(st) => if KeyFits(st.cols) then Done(KeyBlob(rtype, st.cols)) else Aborted
  }

  /** Handles every argument list.  A blob that passes the checks must be one that creates and
      updates produce; the code has no other guarantee that its variable data is disjoint. */
  method BUpdateKey(args: seq<SqlValue>, ghost rtype: uint64, ghost cols: seq<Col>) returns (out: Outcome<seq<byte>>)
    requires |args| < LIMIT
    requires args != [] && args[0].kind == BlobKind && Recognized(args[0].bytes) ==>
               KeyFits(cols) && args[0].bytes == KeyBlob(rtype, cols)
    ensures out == UpdateKey(args, rtype, cols)
  {
    hide KeyBlob, Updates, KeyFits;
    if |args| < 3 || |args| % 2 == 0 || args[0].kind != BlobKind {
      return Error;
    }
    if ReadHeader(args[0].bytes).magic != MAGIC {
      return Error;
    }
    var checked := CheckKey(args[0].bytes);
    if checked.Aborted? {
      return Aborted;
    }
    if checked.Error? {
      return Error;
    }
    out := UpdateRecognized(args, checked.value.count, rtype, cols);
  }

  /** The three passes, on a blob that has been recognized. */
  method UpdateRecognized(args: seq<SqlValue>, count: nat, ghost rtype: uint64, ghost cols: seq<Col>)
    returns (out: Outcome<seq<byte>>)
    requires 3 <= |args| < LIMIT && KeyFits(cols) && args[0].bytes == KeyBlob(rtype, cols)
    requires count == ReadHeader(args[0].bytes).count
    ensures out == match Updates(cols, args, (|args| - 1) / 2)
                   case None => Error
                   case Some(st) => if KeyFits(st.cols) then Done(KeyBlob(rtype, st.cols)) else Aborted
  {
    hide Record, JoinUpTo, Updates, Head, ReadHeader, Cells, DirtyTypes, Noted, Consistent, Splice, VarSize;
    KeyBlobStores(rtype, cols);
    var n, updates := count, (|args| - 1) / 2;
    var original := args[0].bytes;
    var b := new byte[|original|];
    CopyAll(b, original);
    ghost var o := Original(Head(rtype, |cols|), Cells(cols, KeyBase(|cols|)), JoinUpTo(Vars(cols), |cols|));
    var ok, adjustment := MarkUpdates(b, n, args, updates, o, cols);
    if !ok {
      return Error;
    }
    ghost var st := Updates(cols, args, updates).value;
    UpdatesConsistent(cols, args, updates);
    KeepsCount(cols, st, args);
    var total := |original| + adjustment;
    if total >= LIMIT {
      return Aborted;
    }
    var result := new byte[total];
    ghost var types := DirtyTypes(cols, st.src.Keys);
    var marked := b[..];
    SplicePrefix(result[..], marked[..KeyBase(n)]);
    CopyInto(result, 0, marked[..KeyBase(n)]);
    ghost var junk := CopiedHead(o, types, marked, result[..], KeyBase(n));
    ghost var ws := NoteUpdates(result, marked, n, args, updates, o, cols, st, junk);
    PlaceColumns(result, marked, n, args, o, cols, st, rtype, ws, junk);
    out := Done(result[..]);
  }

  lemma {:induction false} KeepsCount(cols: seq<Col>, st: Updated, args: seq<SqlValue>)
    requires Consistent(cols, st, args)
    ensures |st.cols| == |cols|
  {
  }

  /** Copying everything before the variable area gives a record with the same head, words and types. */
  lemma {:induction false} CopiedHead(o: Original, types: seq<byte>, b: seq<byte>, result: seq<byte>, at: nat)
    returns (junk: seq<byte>)
    requires |o.head| == HEADER_SIZE && b == RecordOf(o, types)
    requires at == HEADER_SIZE + 8 * |o.cells| + |types| <= |result| && result[..at] == b[..at]
    ensures result == Record(o.head, o.cells, types, junk) && |junk| == |result| - at
  {
    FlatLength(o.cells, |o.cells|);
    junk := result[at..];
    assert b[..at] == o.head + Flat(o.cells) + types;
    assert result == result[..at] + result[at..];
  }

  // ---------- canonical over every run, in any argument order ----------

  function IndexOf(args: seq<SqlValue>, k: nat): nat
    requires 2 * k + 2 < |args|
  {
    ToUnsigned64(args[2 * k + 1].asInt)
  }

  /** An update that the stored types allow. */
  predicate PairOk(cols: seq<Col>, args: seq<SqlValue>, k: nat)
    requires 2 * k + 2 < |args|
  {
    && args[2 * k + 1].kind == IntegerKind && IndexOf(args, k) < |cols|
    && Compatible(args[2 * k + 2], TypeCode(cols[IndexOf(args, k)]))
  }

  lemma {:induction false} UpdateRecorded(cols: seq<Col>, args: seq<SqlValue>, u: nat, k: nat)
    requires k < u && 2 * u < |args| && Updates(cols, args, u).Some?
    ensures var st := Updates(cols, args, u).value;
            IndexOf(args, k) in st.src && st.src[IndexOf(args, k)] == 2 * k + 2
  {
    UpdatesGrow(cols, args, k + 1, u);
    NextUpdate(cols, args, k);
  }

  lemma {:induction false} RecordedBy(cols: seq<Col>, args: seq<SqlValue>, u: nat, c: nat) returns (k: nat)
    requires 2 * u < |args| && Updates(cols, args, u).Some? && c in Updates(cols, args, u).value.src
    ensures k < u && IndexOf(args, k) == c && Updates(cols, args, u).value.src[c] == 2 * k + 2
    decreases u
  {
    if IndexOf(args, u - 1) == c {
      k := u - 1;
      UpdateRecorded(cols, args, u, k);
    } else {
      k := RecordedBy(cols, args, u - 1, c);
    }
  }

  lemma {:induction false} OkIff(cols: seq<Col>, st: Updated, args: seq<SqlValue>, k: nat)
    requires 2 * k + 2 < |args| && Consistent(cols, st, args)
    ensures UpdateOk(st, args, k) <==> PairOk(cols, args, k) && IndexOf(args, k) !in st.src
  {
    hide Compatible, ColOf, TypeCode;
  }

  lemma {:induction false} NamedIff(cols: seq<Col>, args: seq<SqlValue>, u: nat, c: nat)
    requires 2 * u < |args| && Updates(cols, args, u).Some?
    ensures c in Updates(cols, args, u).value.src <==> exists j :: 0 <= j < u && IndexOf(args, j) == c
  {
    hide Updates;
    if c in Updates(cols, args, u).value.src {
      var j := RecordedBy(cols, args, u, c);
    }
    forall j | 0 <= j < u && IndexOf(args, j) == c
      ensures c in Updates(cols, args, u).value.src
    {
      UpdateRecorded(cols, args, u, j);
    }
  }

  /** An update list is accepted exactly when every pair fits the stored types and no column
      is named twice. */
  lemma {:induction false} AcceptedIff(cols: seq<Col>, args: seq<SqlValue>, u: nat)
    requires 2 * u < |args|
    ensures Updates(cols, args, u).Some? <==>
            (forall k :: 0 <= k < u ==> PairOk(cols, args, k)) &&
            (forall j, k :: 0 <= j < k < u ==> IndexOf(args, j) != IndexOf(args, k))
  {
    hide UpdateOk, PairOk, IndexOf, UpdateStep, Consistent;
    if u > 0 {
      AcceptedIff(cols, args, u - 1);
      var before := Updates(cols, args, u - 1);
      if before.Some? {
        UpdatesConsistent(cols, args, u - 1);
        OkIff(cols, before.value, args, u - 1);
        NamedIff(cols, args, u - 1, IndexOf(args, u - 1));
      }
    }
  }

  predicate HasPair(args: seq<SqlValue>, u: nat, index: SqlValue, value: SqlValue)
    requires 2 * u < |args|
  {
    exists k :: 0 <= k < u && args[2 * k + 1] == index && args[2 * k + 2] == value
  }

  /** Two accepted update lists with the same pairs, in whatever order, give the same columns. */
  lemma {:induction false} OrderIrrelevant(cols: seq<Col>, args: seq<SqlValue>, args': seq<SqlValue>, u: nat, u': nat)
    requires 2 * u < |args| && 2 * u' < |args'|
    requires Updates(cols, args, u).Some? && Updates(cols, args', u').Some?
    requires forall k :: 0 <= k < u ==> HasPair(args', u', args[2 * k + 1], args[2 * k + 2])
    requires forall k :: 0 <= k < u' ==> HasPair(args, u, args'[2 * k + 1], args'[2 * k + 2])
    ensures Updates(cols, args, u).value.cols == Updates(cols, args', u').value.cols
  {
    var st, st' := Updates(cols, args, u).value, Updates(cols, args', u').value;
    UpdatesConsistent(cols, args, u);
    UpdatesConsistent(cols, args', u');
    forall c | 0 <= c < |cols|
      ensures st.cols[c] == st'.cols[c]
    {
      if c in st.src {
        var k := RecordedBy(cols, args, u, c);
        assert HasPair(args', u', args[2 * k + 1], args[2 * k + 2]);
        var k' :| 0 <= k' < u' && args'[2 * k' + 1] == args[2 * k + 1] && args'[2 * k' + 2] == args[2 * k + 2];
        UpdateRecorded(cols, args', u', k');
      } else if c in st'.src {
        var k' := RecordedBy(cols, args', u', c);
        assert HasPair(args, u, args'[2 * k' + 1], args'[2 * k' + 2]);
        var k :| 0 <= k < u && args[2 * k + 1] == args'[2 * k' + 1] && args[2 * k + 2] == args'[2 * k' + 2];
        UpdateRecorded(cols, args, u, k);
      }
    }
  }

  /** The arguments with which `bcreatekey` makes a given key. */
  function ArgFor(c: Col): SqlValue
  {
    match c
    case BoolCol(b) => SqlValue(IntegerKind, if b then 1 else 0, ZERO_DOUBLE, [])
    case Int32Col(i) => SqlValue(IntegerKind, i, ZERO_DOUBLE, [])
    case Int64Col(l) => SqlValue(IntegerKind, l, ZERO_DOUBLE, [])
    case FloatCol(d) => SqlValue(FloatKind, 0, d, [])
    case StringCol(s) => SqlValue(TextKind, 0, ZERO_DOUBLE, s)
    case BlobCol(s) => SqlValue(BlobKind, 0, ZERO_DOUBLE, s)
  }

  function IntArg(i: int64): SqlValue
  {
    SqlValue(IntegerKind, i, ZERO_DOUBLE, [])
  }

  function CreateArgs(rtype: uint64, cols: seq<Col>): (args: seq<SqlValue>)
    ensures |args| == 2 * |cols| + 1
  {
    seq(2 * |cols| + 1, j requires 0 <= j < 2 * |cols| + 1 =>
      if j == 0 then IntArg(ToSigned64(rtype))
      else if j % 2 == 1 then ArgFor(cols[(j - 1) / 2])
      else IntArg(TypeCode(cols[(j - 2) / 2])))
  }

  lemma {:induction false} CreateArgAt(rtype: uint64, cols: seq<Col>, i: nat)
    requires i < |cols|
    ensures var args := CreateArgs(rtype, cols);
            args[2 * i + 1] == ArgFor(cols[i]) && args[2 * i + 2] == IntArg(TypeCode(cols[i]))
  {
    hide ArgFor, IntArg, TypeCode;
  }

  lemma {:induction false} ArgForCol(c: Col)
    ensures ToInt8(TypeCode(c)) == TypeCode(c)
    ensures Compatible(ArgFor(c), TypeCode(c)) && ColOf(ArgFor(c), TypeCode(c)) == c
  {
  }

  lemma {:induction false} CreateOfCols(rtype: uint64, cols: seq<Col>)
    requires cols != [] && KeyFits(cols)
    ensures CreateKey(CreateArgs(rtype, cols)) == Done(KeyBlob(rtype, cols))
  {
    hide KeyBlob, KeyFits, CreateArgs, ArgFor, TypeCode, ColOf, Compatible, ToInt8;
    var args := CreateArgs(rtype, cols);
    FirstArg(rtype, cols);
    forall i | 0 <= i < |cols|
      ensures ArgOk(args, i) && ArgCol(args, i) == cols[i]
    {
      CreateArgAt(rtype, cols, i);
      ArgForCol(cols[i]);
    }
    assert ArgCols(args, |cols|) == cols;
  }

  lemma {:induction false} FirstArg(rtype: uint64, cols: seq<Col>)
    ensures CreateArgs(rtype, cols)[0] == IntArg(ToSigned64(rtype))
  {
  }

  /** A key's history: one create, then updates, each a list of index and value pairs. */
  datatype Run = Create(args: seq<SqlValue>) | Update(before: Run, changes: seq<SqlValue>)

  datatype Key = Key(rtype: uint64, cols: seq<Col>)

  /** The values the calls set, if every call succeeded. */
  function Current(run: Run): (r: Option<Key>)
  {
    match run
    case Create(args) =>
      if CreateKey(args).Done? then Some(Key(ToUnsigned64(args[0].asInt), ArgCols(args, (|args| - 1) / 2))) else None
    case Update(before, changes) =>
      match Current(before)
      case None => None
      case Some(key) =>
        var args := [BlobArg([])] + changes;
        if |changes| < 2 || |changes| % 2 == 1 then None
        else
          match Updates(key.cols, args, |changes| / 2)
          case None => None
          case Some(st) => if KeyFits(st.cols) then Some(Key(key.rtype, st.cols)) else None
  }

  /** The blob the calls produce. */
  function Blob(run: Run): (r: Outcome<seq<byte>>)
  {
    match run
    case Create(args) => CreateKey(args)
    case Update(before, changes) =>
      match Blob(before)
      case Aborted => Aborted
      case Error => Error
      case Done(b) =>
        if Current(before).None? then Error
        else UpdateKey([BlobArg(b)] + changes, Current(before).value.rtype, Current(before).value.cols)
  }

  lemma {:induction false} UpdatesIgnoreBlob(cols: seq<Col>, b: SqlValue, b': SqlValue, changes: seq<SqlValue>, k: nat)
    requires 2 * k < |changes| + 1
    ensures Updates(cols, [b] + changes, k) == Updates(cols, [b'] + changes, k)
  {
    hide Compatible, ColOf, TypeCode, UpdateOk, UpdateStep;
    if k > 0 {
      UpdatesIgnoreBlob(cols, b, b', changes, k - 1);
      var before := Updates(cols, [b] + changes, k - 1);
      if before.Some? {
        StepIgnoresBlob(before.value, b, b', changes, k - 1);
      }
    }
  }

  lemma {:induction false} StepIgnoresBlob(st: Updated, b: SqlValue, b': SqlValue, changes: seq<SqlValue>, k: nat)
    requires 2 * k + 1 < |changes|
    ensures UpdateOk(st, [b] + changes, k) == UpdateOk(st, [b'] + changes, k)
    ensures UpdateOk(st, [b] + changes, k) ==> UpdateStep(st, [b] + changes, k) == UpdateStep(st, [b'] + changes, k)
  {
    hide Compatible, ColOf, TypeCode;
  }

  /** One update of a canonical blob. */
  lemma {:induction false} UpdateIsCanonical(key: Key, b: seq<byte>, changes: seq<SqlValue>)
    requires key.cols != [] && KeyFits(key.cols) && b == KeyBlob(key.rtype, key.cols)
    ensures var r := UpdateKey([BlobArg(b)] + changes, key.rtype, key.cols);
            if |changes| < 2 || |changes| % 2 == 1 then r == Error
            else
              match Updates(key.cols, [BlobArg([])] + changes, |changes| / 2)
              case None => r == Error
              case Some(st) =>
                && |st.cols| == |key.cols|
                && r == if KeyFits(st.cols) then Done(KeyBlob(key.rtype, st.cols)) else Aborted
  {
    hide KeyBlob, KeyFits, Updates, KeyChecked, ReadHeader, Consistent;
    KeyBlobChecked(key.rtype, key.cols);
    KeyBlobStores(key.rtype, key.cols);
    if |changes| >= 2 && |changes| % 2 == 0 {
      var args, u := [BlobArg(b)] + changes, |changes| / 2;
      assert (|args| - 1) / 2 == u;
      UpdatesIgnoreBlob(key.cols, BlobArg(b), BlobArg([]), changes, u);
      UpdatesConsistent(key.cols, args, u);
      if Updates(key.cols, args, u).Some? {
        KeepsCount(key.cols, Updates(key.cols, args, u).value, args);
      }
    }
  }

  /** Keys are canonical over every run: whatever the calls, the blob is byte for byte what
      `bcreatekey` makes of the current values. */
  lemma {:induction false} RunIsCanonical(run: Run)
    ensures Blob(run).Done? <==> Current(run).Some?
    ensures Blob(run).Done? ==>
              var key := Current(run).value;
              && key.cols != [] && KeyFits(key.cols)
              && Blob(run) == Done(KeyBlob(key.rtype, key.cols)) == CreateKey(CreateArgs(key.rtype, key.cols))
  {
    hide KeyBlob, KeyFits, Updates, UpdateKey, CreateArgs, ArgCols, BlobArg;
    if run.Update? {
      RunIsCanonical(run.before);
      if Blob(run.before).Done? {
        UpdateIsCanonical(Current(run.before).value, Blob(run.before).value, run.changes);
      }
    }
    if Blob(run).Done? {
      CreateOfCols(Current(run).value.rtype, Current(run).value.cols);
    }
  }

  /** Argument lists have as many arguments as an `int` can count. */
  predicate Countable(run: Run)
  {
    run.Update? ==> |run.changes| + 1 < LIMIT && Countable(run.before)
  }

  /** The calls of a run, one on the result of the other. */
  method RunKey(run: Run) returns (out: Outcome<seq<byte>>)
    requires Countable(run)
    ensures out == Blob(run)
    decreases run
  {
    hide KeyBlob, KeyFits, Updates, UpdateKey, CreateKey, BlobArg, KeyChecked, ReadHeader, CreateArgs;
    match run
    case Create(args) =>
      out := BCreateKey(args);
    case Update(before, changes) =>
      out := RunKey(before);
      if out.Done? {
        RunIsCanonical(before);
        ghost var key := Current(before).value;
        var args := [BlobArg(out.value)] + changes;
        BlobArgIs(out.value);
        out := BUpdateKey(args, key.rtype, key.cols);
      }
  }

  lemma {:induction false} BlobArgIs(b: seq<byte>)
    ensures BlobArg(b).kind == BlobKind && BlobArg(b).bytes == b
  {
  }
}
