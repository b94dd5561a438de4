/** `bupdateval`: setting, replacing and deleting fields of a value blob. */
module ValUpdate {
  import opened Bytes
  import opened BlobLayout
  import opened BlobRead
  import opened BlobWrite
  import opened ValBlobs

  // ---------- the first pass, as a specification ----------

  function TypeArg(args: seq<SqlValue>, k: nat): int
    requires 3 * k + 3 < |args|
  {
    ToInt8(args[3 * k + 3].asInt)
  }

  /** The stored entry that update `k` names, or the number of entries if it names a new field. */
  function Named(es: seq<Entry>, args: seq<SqlValue>, k: nat): (i: nat)
    requires 3 * k + 3 < |args|
    ensures i <= |es| && (i < |es| ==> es[i].id == args[3 * k + 1].asInt)
  {
    Find(es, args[3 * k + 1].asInt, 0)
  }

  /** The test of update `k` when the entries in `dirty` have been named before.  A named
      entry's type byte is marked, which is what refuses a second update of it. */
  predicate StepOk(es: seq<Entry>, dirty: set<nat>, args: seq<SqlValue>, k: nat)
    requires 3 * k + 3 < |args|
  {
    var i, ty := Named(es, args, k), TypeArg(args, k);
    && args[3 * k + 1].kind == IntegerKind
    && (i < |es| ==> ty == TypeCode(es[i].col) + (if i in dirty then DIRTY else 0))
    && (Sets(args, k) ==> Compatible(args[3 * k + 2], ty))
  }

  /** The entries named by the first `k` updates, or none if one is refused. */
  function Marks(es: seq<Entry>, args: seq<SqlValue>, k: nat): (r: Option<set<nat>>)
    requires 3 * k < |args|
  {
    if k == 0 then Some({})
    else
      match Marks(es, args, k - 1)
      case None => None
      case Some(dirty) =>
        if !StepOk(es, dirty, args, k - 1) then None
        else Some(if Named(es, args, k - 1) < |es| then dirty + {Named(es, args, k - 1)} else dirty)
  }

  /** The change in column count: new fields add one, deleted fields remove one. */
  function CountChange(es: seq<Entry>, args: seq<SqlValue>, k: nat): int
    requires 3 * k < |args|
  {
    if k == 0 then 0
    else
      CountChange(es, args, k - 1) +
      (if Named(es, args, k - 1) == |es| then (if Sets(args, k - 1) then 1 else 0)
       else if Sets(args, k - 1) then 0 else -1)
  }

  /** The variable size of the value that update `k` sets. */
  function SetSize(args: seq<SqlValue>, k: nat): nat
    requires 3 * k + 3 < |args|
  {
    if Sets(args, k) && Compatible(args[3 * k + 2], TypeArg(args, k)) then ArgVarSize(args[3 * k + 2], TypeArg(args, k))
    else 0
  }

  /** The change in variable size: a deleted column gives nothing back. */
  function SizeChange(es: seq<Entry>, args: seq<SqlValue>, k: nat): int
    requires 3 * k < |args|
  {
    if k == 0 then 0
    else
      var i := Named(es, args, k - 1);
      SizeChange(es, args, k - 1) + SetSize(args, k - 1) -
      (if i < |es| && Sets(args, k - 1) then |VarBytes(es[i].col)| else 0)
  }

  /** The variable bytes of the columns that the first `k` updates delete. */
  function DeletedSize(es: seq<Entry>, args: seq<SqlValue>, k: nat): nat
    requires 3 * k < |args|
  {
    if k == 0 then 0
    else
      var i := Named(es, args, k - 1);
      DeletedSize(es, args, k - 1) + (if i < |es| && !Sets(args, k - 1) then |VarBytes(es[i].col)| else 0)
  }

  // ---------- the new entries ----------

  /** The entries among the first `i` that no update names. */
  function Clean(es: seq<Entry>, dirty: set<nat>, i: nat): (r: seq<Entry>)
    requires i <= |es|
    ensures |r| <= i
  {
    if i == 0 then [] else Clean(es, dirty, i - 1) + (if i - 1 in dirty then [] else [es[i - 1]])
  }

  /** The set fields in argument order, then the untouched ones in stored order. */
  function NewEntries(es: seq<Entry>, dirty: set<nat>, args: seq<SqlValue>, u: nat): seq<Entry>
    requires 3 * u < |args| && SpecsFit(args, u)
  {
    SetEntries(args, u) + Clean(es, dirty, |es|)
  }

  /** No update of a stored field carries a marked type code. */
  predicate Unmarked(es: seq<Entry>, args: seq<SqlValue>, u: nat)
    requires 3 * u < |args|
  {
    forall k :: 0 <= k < u && Named(es, args, k) < |es| ==> TypeArg(args, k) < DIRTY
  }

  lemma {:induction false} MarksBounded(es: seq<Entry>, args: seq<SqlValue>, k: nat)
    requires 3 * k < |args| && Marks(es, args, k).Some?
    ensures forall i :: i in Marks(es, args, k).value ==> i < |es|
    ensures SpecsFit(args, k)
  {
    hide Compatible, TypeCode, Find;
    if k > 0 {
      MarksBounded(es, args, k - 1);
    }
  }

  lemma {:induction false} CleanDrops(es: seq<Entry>, dirty: set<nat>, i: nat, n: nat)
    requires n <= |es| && i !in dirty
    ensures |Clean(es, dirty + {i}, n)| == |Clean(es, dirty, n)| - (if i < n then 1 else 0)
    ensures VarSize(Cols(Clean(es, dirty + {i}, n))) ==
            VarSize(Cols(Clean(es, dirty, n))) - (if i < n then |VarBytes(es[i].col)| else 0)
  {
    hide VarSize, Cols;
    if n > 0 {
      CleanDrops(es, dirty, i, n - 1);
      CleanSize(es, dirty, n);
      CleanSize(es, dirty + {i}, n);
    }
  }

  lemma {:induction false} CleanSize(es: seq<Entry>, dirty: set<nat>, n: nat)
    requires 0 < n <= |es|
    ensures VarSize(Cols(Clean(es, dirty, n))) ==
            VarSize(Cols(Clean(es, dirty, n - 1))) + (if n - 1 in dirty then 0 else |VarBytes(es[n - 1].col)|)
  {
    hide VarSize, Cols, VarBytes;
    if n - 1 in dirty {
      assert Clean(es, dirty, n) == Clean(es, dirty, n - 1);
    } else {
      VarSizeSnoc(Clean(es, dirty, n - 1), es[n - 1]);
    }
  }

  lemma {:induction false} CleanOfNone(es: seq<Entry>, n: nat)
    requires n <= |es|
    ensures Clean(es, {}, n) == es[..n]
  {
    if n > 0 {
      CleanOfNone(es, n - 1);
    }
  }

  lemma {:induction false} SetEntriesSize(args: seq<SqlValue>, k: nat)
    requires 3 * k + 3 < |args| && SpecsFit(args, k + 1)
    ensures SpecsFit(args, k)
    ensures VarSize(Cols(SetEntries(args, k + 1))) == VarSize(Cols(SetEntries(args, k))) + SetSize(args, k)
    ensures |SetEntries(args, k + 1)| == |SetEntries(args, k)| + (if Sets(args, k) then 1 else 0)
  {
    hide VarSize, Cols, VarBytes, Compatible, ColOf;
    if Sets(args, k) {
      VarSizeSnoc(SetEntries(args, k), SpecEntry(args, k));
    } else {
      assert SetEntries(args, k + 1) == SetEntries(args, k);
    }
  }

  /** The books of the first pass: the count and the sizes it adds up are those of the new
      entries; what deleted columns occupied is left over. */
  lemma {:induction false} Books(es: seq<Entry>, args: seq<SqlValue>, k: nat)
    requires 3 * k < |args| && Marks(es, args, k).Some? && Unmarked(es, args, k)
    ensures SpecsFit(args, k)
    ensures var clean := Clean(es, Marks(es, args, k).value, |es|);
            && |SetEntries(args, k)| + |clean| == |es| + CountChange(es, args, k)
            && VarSize(Cols(SetEntries(args, k))) + VarSize(Cols(clean)) + DeletedSize(es, args, k) ==
               VarSize(Cols(es)) + SizeChange(es, args, k)
  {
    hide VarSize, Cols, VarBytes, Compatible, TypeCode, Find, SetEntries, Clean, SetSize;
    MarksBounded(es, args, k);
    if k == 0 {
      BooksStart(es, args);
    } else {
      Books(es, args, k - 1);
      SetEntriesSize(args, k - 1);
      var dirty, i := Marks(es, args, k - 1).value, Named(es, args, k - 1);
      if i < |es| {
        assert i !in dirty by {
          TypeCodeSmall(es[i].col);
          assert StepOk(es, dirty, args, k - 1) && TypeArg(args, k - 1) < DIRTY;
        }
        CleanDrops(es, dirty, i, |es|);
      }
    }
  }

  lemma {:induction false} BooksStart(es: seq<Entry>, args: seq<SqlValue>)
    requires |args| > 0
    ensures SetEntries(args, 0) == [] && Clean(es, {}, |es|) == es && VarSize(Cols([])) == 0
  {
    CleanOfNone(es, |es|);
  }

  // ---------- first pass ----------

  /** The copied blob with the named entries marked. */
  function Marked(head: seq<byte>, es: seq<Entry>, dirty: set<nat>, slack: seq<byte>): seq<byte>
    requires |head| == HEADER_SIZE && ValFits(es, |slack|)
  {
    Record(head, ValWords(es), DirtyTypes(Cols(es), dirty), JoinUpTo(Vars(Cols(es)), |es|) + slack)
  }

  lemma {:induction false} MarkedRead(head: seq<byte>, es: seq<Entry>, dirty: set<nat>, slack: seq<byte>, i: nat)
    requires |head| == HEADER_SIZE && ValFits(es, |slack|) && i < |es|
    ensures var b := Marked(head, es, dirty, slack);
            && |b| == ValBase(|es|) + VarSize(Cols(es)) + |slack|
            && b[HEADER_SIZE + 16 * |es| + i] == TypeCode(es[i].col) + (if i in dirty then DIRTY else 0)
            && b[HEADER_SIZE + 8 * (|es| + i)..HEADER_SIZE + 8 * (|es| + i) + 8] == Cell(Cols(es), ValBase(|es|), i)
            && b[HEADER_SIZE + 8 * i..HEADER_SIZE + 8 * i + 8] == IdWord(es[i].id)
  {
    hide Record, TypeCode, Cell, IdWord, JoinUpTo;
    var types, tail := DirtyTypes(Cols(es), dirty), JoinUpTo(Vars(Cols(es)), |es|) + slack;
    ReadType(head, ValWords(es), types, tail, i);
    ReadWord(head, ValWords(es), types, tail, |es| + i);
    ReadWord(head, ValWords(es), types, tail, i);
  }

  /** Update `k` of the first pass: is it acceptable, and what does it change. */
  method MarkSpec(b: array<byte>, n: nat, args: seq<SqlValue>, k: nat,
                  ghost head: seq<byte>, ghost es: seq<Entry>, ghost dirty: set<nat>, ghost slack: seq<byte>)
    returns (ok: bool, count: int, size: int)
    requires 3 * k + 3 < |args| && n == |es| && |head| == HEADER_SIZE && ValFits(es, |slack|)
    requires b[..] == Marked(head, es, dirty, slack)
    modifies b
    ensures ok <==> StepOk(es, dirty, args, k)
    ensures ok ==> var i := Named(es, args, k);
                   && b[..] == Marked(head, es, if i < |es| then dirty + {i} else dirty, slack)
                   && count == (if i == |es| then (if Sets(args, k) then 1 else 0) else if Sets(args, k) then 0 else -1)
                   && size == SetSize(args, k) - (if i < |es| && Sets(args, k) then |VarBytes(es[i].col)| else 0)
  {
    hide Record, TypeCode, Cell, JoinUpTo, Compatible, ColOf, VarBytes, DirtyTypes, ToInt8, FirstStored, Find, ValWords, StoredSize, VarSize, Vars, IdWord, HasIds;
    var id, value, ty := args[3 * k + 1], args[3 * k + 2], ToInt8(args[3 * k + 3].asInt);
    count, size := 0, 0;
    if id.kind != IntegerKind {
      return false, 0, 0;
    }
    MarkedHasIds(head, es, dirty, slack);
    FirstStoredIsFind(b[..], es, id.asInt, 0);
    var i := FindColumn(b[..], n, id.asInt);
    FoundFirst(b[..], n, id.asInt, i);
    if i >= n {
      if value.kind != NullKind {
        if !Compatible(value, ty) {
          return false, 0, 0;
        }
        count := 1;
        size := ArgVarSize(value, ty);
      }
      return true, count, size;
    }
    ok, count, size := MarkStored(b, n, value, ty, i, head, es, dirty, slack);
  }

  /** The same for a stored column: its type byte is compared and marked. */
  method MarkStored(b: array<byte>, n: nat, value: SqlValue, ty: int, i: nat,
                    ghost head: seq<byte>, ghost es: seq<Entry>, ghost dirty: set<nat>, ghost slack: seq<byte>)
    returns (ok: bool, count: int, size: int)
    requires i < n == |es| && |head| == HEADER_SIZE && ValFits(es, |slack|)
    requires b[..] == Marked(head, es, dirty, slack)
    modifies b
    ensures ok <==> ty == TypeCode(es[i].col) + (if i in dirty then DIRTY else 0) && (value.kind != NullKind ==> Compatible(value, ty))
    ensures ok ==> && b[..] == Marked(head, es, dirty + {i}, slack)
                   && count == (if value.kind != NullKind then 0 else -1)
                   && size == if value.kind != NullKind then ArgVarSize(value, ty) - |VarBytes(es[i].col)| else 0
  {
    hide Record, TypeCode, Cell, JoinUpTo, Compatible, ColOf, VarBytes, DirtyTypes, ValWords, StoredSize, VarSize, Vars, IdWord;
    count, size := 0, 0;
    MarkedRead(head, es, dirty, slack, i);
    TypeCodeSmall(es[i].col);
    var typeAt, storageAt := HEADER_SIZE + 16 * n + i, HEADER_SIZE + 8 * (n + i);
    if ty != b[typeAt] {
      return false, 0, 0;
    }
    PutType(b, typeAt, if ty < DIRTY then ty + DIRTY else ty, head, ValWords(es), DirtyTypes(Cols(es), dirty), JoinUpTo(Vars(Cols(es)), |es|) + slack, i);
    MarkDirty(Cols(es), dirty, i);
    if value.kind != NullKind {
      if !Compatible(value, ty) {
        return false, 0, 0;
      }
      CompatibleIsUnmarked(value, ty);
      MarkedRead(head, es, dirty + {i}, slack, i);
      StoredSizeOfCell(Cols(es), ValBase(n), i);
      size := ArgVarSize(value, ty) - StoredSize(ty, b[storageAt..storageAt + 8]);
    } else {
      count := -1;
    }
    ok := true;
  }

  /** A marked type code suits no value. */
  lemma {:induction false} CompatibleIsUnmarked(v: SqlValue, ty: int)
    requires Compatible(v, ty)
    ensures ty < DIRTY
  {
  }

  lemma {:induction false} MarkedHasIds(head: seq<byte>, es: seq<Entry>, dirty: set<nat>, slack: seq<byte>)
    requires |head| == HEADER_SIZE && ValFits(es, |slack|)
    ensures HasIds(Marked(head, es, dirty, slack), es)
  {
    RecordHasIds(head, es, DirtyTypes(Cols(es), dirty), JoinUpTo(Vars(Cols(es)), |es|) + slack);
  }

  lemma {:induction false} FoundFirst(b: seq<byte>, n: nat, id: int64, i: nat)
    requires HEADER_SIZE + 8 * n <= |b| && i <= n && (i < n ==> StoredId(b, i) == id)
    requires forall k :: 0 <= k < i ==> StoredId(b, k) != id
    ensures FirstStored(b, n, id, 0) == i
  {
    hide StoredId;
  }

  /** The first pass: refusal, or the marks with the changes in count and size. */
  method MarkSpecs(b: array<byte>, n: nat, args: seq<SqlValue>, u: nat,
                   ghost head: seq<byte>, ghost es: seq<Entry>, ghost slack: seq<byte>)
    returns (ok: bool, count: int, size: int)
    requires 3 * u < |args| && n == |es| && |head| == HEADER_SIZE && ValFits(es, |slack|)
    requires b[..] == Marked(head, es, {}, slack)
    modifies b
    ensures ok <==> Marks(es, args, u).Some?
    ensures ok ==> && b[..] == Marked(head, es, Marks(es, args, u).value, slack)
                   && count == CountChange(es, args, u) && size == SizeChange(es, args, u)
  {
    hide Marked, StepOk, Named, SetSize, VarBytes, TypeArg, ValFits;
    count, size := 0, 0;
    ghost var dirty: set<nat> := {};
    var k := 0;
    while k < u
      invariant 0 <= k <= u && Marks(es, args, k) == Some(dirty)
      invariant b[..] == Marked(head, es, dirty, slack)
      invariant count == CountChange(es, args, k) && size == SizeChange(es, args, k)
    {
      var good, dc, ds := MarkSpec(b, n, args, k, head, es, dirty, slack);
      if !good {
        RefusedForever(es, args, k + 1, u);
        return false, 0, 0;
      }
      if Named(es, args, k) < |es| {
        dirty := dirty + {Named(es, args, k)};
      }
      count, size := count + dc, size + ds;
      k := k + 1;
    }
    ok := true;
  }

  lemma {:induction false} RefusedForever(es: seq<Entry>, args: seq<SqlValue>, k: nat, u: nat)
    requires k <= u && 3 * u < |args| && Marks(es, args, k) == None
    ensures Marks(es, args, u) == None
    decreases u
  {
    hide StepOk;
    if k < u {
      RefusedForever(es, args, k, u - 1);
    }
  }

  // ---------- third pass ----------

  lemma {:induction false} CleanPrefix(es: seq<Entry>, dirty: set<nat>, i: nat, n: nat)
    requires i <= n <= |es|
    ensures Clean(es, dirty, i) <= Clean(es, dirty, n)
    decreases n
  {
    if i < n {
      CleanPrefix(es, dirty, i, n - 1);
    }
  }

  /** The next entry of the result, when stored entry `i` is reached. */
  lemma {:induction false} NextClean(es: seq<Entry>, dirty: set<nat>, i: nat, sets: seq<Entry>, all: seq<Entry>)
    requires i < |es| && all == sets + Clean(es, dirty, |es|)
    ensures var e := |sets| + |Clean(es, dirty, i)|;
            if i in dirty then |sets| + |Clean(es, dirty, i + 1)| == e
            else e < |all| && all[e] == es[i] && |sets| + |Clean(es, dirty, i + 1)| == e + 1
  {
    CleanPrefix(es, dirty, i + 1, |es|);
    if i !in dirty {
      var now, next := Clean(es, dirty, i), Clean(es, dirty, i + 1);
      assert next[|now|] == es[i];
      assert all[|sets| + |now|] == Clean(es, dirty, |es|)[|now|] == next[|now|];
    }
  }

  /** An unmarked string or blob is where its word says. */
  lemma {:induction false} CleanVar(head: seq<byte>, es: seq<Entry>, dirty: set<nat>, slack: seq<byte>, i: nat)
    requires |head| == HEADER_SIZE && ValFits(es, |slack|) && i < |es| && IsVar(es[i].col)
    ensures var b, w, extra := Marked(head, es, dirty, slack), Cell(Cols(es), ValBase(|es|), i),
                               (if es[i].col.StringCol? then 1 else 0);
            && InfoLen(w) == VarLen(es[i].col) && InfoOffset(w) + InfoLen(w) + extra <= |b|
            && b[InfoOffset(w)..InfoOffset(w) + InfoLen(w) + extra] == VarBytes(es[i].col)
  {
    hide Record, DirtyTypes, BigEndian64, ReadBigEndian64, JoinUpTo, Info, InfoLen, InfoOffset, ValWords;
    var cols, base := Cols(es), ValBase(|es|);
    CellIs(cols, base, i);
    OffsetFits(cols, base, i);
    InfoRoundTrip(VarOffset(cols, base, i), VarLen(es[i].col));
    var lo, hi := |JoinUpTo(Vars(cols), i)|, |JoinUpTo(Vars(cols), i + 1)|;
    ReadTail(head, ValWords(es), DirtyTypes(cols, dirty), JoinUpTo(Vars(cols), |es|) + slack, lo, hi);
    JoinSlice(Vars(cols), |es|, i);
    SliceLeft(JoinUpTo(Vars(cols), |es|), slack, lo, hi);
  }

  /** The word and variable bytes with which a clean column goes into the result. */
  method FetchColumn(b: seq<byte>, n: nat, i: nat, varAt: nat,
                     ghost head: seq<byte>, ghost es: seq<Entry>, ghost dirty: set<nat>, ghost slack: seq<byte>)
    returns (w: Word, bytes: seq<byte>)
    requires |head| == HEADER_SIZE && ValFits(es, |slack|) && i < n == |es| && i !in dirty && varAt < LIMIT
    requires b == Marked(head, es, dirty, slack)
    ensures VarLen(es[i].col) < LIMIT
    ensures w == WordOf(es[i].col, varAt) && bytes == VarBytes(es[i].col)
  {
    hide Marked, Cell, JoinUpTo, BigEndian64, ReadBigEndian64, WordOf, Info, InfoLen, InfoOffset, VarBytes, VarLen, ValWords, TypeCode, VarOffset;
    MarkedRead(head, es, dirty, slack, i);
    CellIs(Cols(es), ValBase(n), i);
    IsVarByType(es[i].col);
    var ty := b[HEADER_SIZE + 16 * n + i];
    var stored := b[HEADER_SIZE + 8 * (n + i)..HEADER_SIZE + 8 * (n + i) + 8];
    if ty == TYPE_STRING || ty == TYPE_BLOB {
      CleanVar(head, es, dirty, slack, i);
      TypeOfVar(es[i].col);
      var len := InfoLen(stored);
      VarWord(es[i].col, varAt);
      w := Info(varAt, len);
      bytes := b[InfoOffset(stored)..InfoOffset(stored) + len + (if ty == TYPE_STRING then 1 else 0)];
    } else {
      FixedSame(es[i].col, varAt, VarOffset(Cols(es), ValBase(n), i));
      w, bytes := stored, [];
    }
  }

  lemma {:induction false} TypeOfVar(c: Col)
    ensures c.StringCol? <==> TypeCode(c) == TYPE_STRING
  {
  }

  /** Copies every unmarked column, in stored order, after the ones already written. */
  method CopyClean(result: array<byte>, b: seq<byte>, n: nat, m: nat, e0: nat, varAt0: nat,
                   ghost head: seq<byte>, ghost es: seq<Entry>, ghost dirty: set<nat>, ghost slack: seq<byte>,
                   ghost newHead: seq<byte>, ghost ws0: seq<Word>, ghost types0: seq<byte>, ghost tail0: seq<byte>,
                   ghost sets: seq<Entry>, ghost all: seq<Entry>)
    returns (ghost ws: seq<Word>, ghost types: seq<byte>, ghost tail: seq<byte>)
    requires |head| == |newHead| == HEADER_SIZE && ValFits(es, |slack|) && n == |es|
    requires b == Marked(head, es, dirty, slack)
    requires all == sets + Clean(es, dirty, |es|) && m == |all| && e0 == |sets| && ValFits(all, 0)
    requires varAt0 == VarOffset(Cols(all), ValBase(m), e0)
    requires result[..] == Record(newHead, ws0, types0, tail0) && EntriesDone(ws0, types0, tail0, all, e0)
    modifies result
    ensures result[..] == Record(newHead, ws, types, tail) && |tail| == |tail0| && EntriesDone(ws, types, tail, all, m)
  {
    hide Record, EntriesDone, VarOffset, Clean, Marked, WordOf, VarBytes, Cell, TypeCode, IdWord, VarSize, Vars, VarLen;
    ws, types, tail := ws0, types0, tail0;
    NothingClean(es, dirty);
    var e, varAt := e0, varAt0;
    var i := 0;
    while i < n
      invariant 0 <= i <= n && e <= m && e == |sets| + |Clean(es, dirty, i)|
      invariant varAt == VarOffset(Cols(all), ValBase(m), e)
      invariant result[..] == Record(newHead, ws, types, tail) && |tail| == |tail0| && EntriesDone(ws, types, tail, all, e)
    {
      NextClean(es, dirty, i, sets, all);
      MarkedRead(head, es, dirty, slack, i);
      TypeCodeSmall(es[i].col);
      var ty := b[HEADER_SIZE + 16 * n + i];
      if ty <= TYPE_BLOB {
        CellIs(Cols(all), ValBase(m), e);
        var w, bytes := FetchColumn(b, n, i, varAt, head, es, dirty, slack);
        varAt, ws, types, tail :=
          WriteEntry(result, HEADER_SIZE + 8 * e, HEADER_SIZE + 8 * (m + e), HEADER_SIZE + 16 * m + e, varAt,
                     b[HEADER_SIZE + 8 * i..HEADER_SIZE + 8 * i + 8], ty, w, bytes,
                     newHead, ws, types, tail, all, e);
        e := e + 1;
      }
      i := i + 1;
    }
  }

  lemma {:induction false} NothingClean(es: seq<Entry>, dirty: set<nat>)
    ensures Clean(es, dirty, 0) == []
  {
  }

  // ---------- the whole call ----------

  predicate Recognized(b: seq<byte>)
  {
    ReadHeader(b).magic == MAGIC && ValChecked(b).Done?
  }

  /** The entries after an accepted update list. */
  function Updated(es: seq<Entry>, args: seq<SqlValue>): (r: Option<seq<Entry>>)
    requires |args| > 0
  {
    var u := (|args| - 1) / 3;
    match Marks(es, args, u)
    case None => None
    case Some(dirty) =>
      MarksBounded(es, args, u);
      Some(NewEntries(es, dirty, args, u))
  }

  /** The unused bytes after an accepted update list: those there were, and those of the
      deleted columns. */
  function NewSlack(es: seq<Entry>, slack: nat, args: seq<SqlValue>): nat
    requires |args| > 0
  {
    slack + DeletedSize(es, args, (|args| - 1) / 3)
  }

  /** `bupdateval(blob, [id, value, type]+)` on the blob of some entries; the content of the
      slack is whatever the allocator left there. */
  ghost predicate UpdatesVal(args: seq<SqlValue>, rtype: uint64, es: seq<Entry>, slack: nat, out: Outcome<seq<byte>>)
  {
    if |args| < 4 || |args| % 3 != 1 || args[0].kind != BlobKind || ReadHeader(args[0].bytes).magic != MAGIC then out == Error
    else
      match ValChecked(args[0].bytes)
      case Aborted => out == Aborted
      case Error => out == Error
      case Done(_) =>
        match Updated(es, args)
        case None => out == Error
        case Some(all) =>
          if !ValFits(all, NewSlack(es, slack, args)) then out == Aborted
          else exists junk: seq<byte> :: |junk| == NewSlack(es, slack, args) && out == Done(ValBlob(rtype, all, junk))
  }

  /** Handles every argument list but those that slip a marked type code past the duplicate check.
      A blob that passes the checks must be one that creates and updates produce. */
  method BUpdateVal(args: seq<SqlValue>, ghost rtype: uint64, ghost es: seq<Entry>, ghost slack: seq<byte>)
    returns (out: Outcome<seq<byte>>)
    requires args != [] && args[0].kind == BlobKind && Recognized(args[0].bytes) ==>
               ValFits(es, |slack|) && args[0].bytes == ValBlob(rtype, es, slack)
    requires |args| > 0 && Marks(es, args, (|args| - 1) / 3).Some? ==> Unmarked(es, args, (|args| - 1) / 3)
    ensures UpdatesVal(args, rtype, es, |slack|, out)
  {
    hide ValBlob, Updated, ValFits, NewSlack, Unmarked, Marks;
    if |args| < 4 || |args| % 3 != 1 || args[0].kind != BlobKind {
      return Error;
    }
    if ReadHeader(args[0].bytes).magic != MAGIC {
      return Error;
    }
    var checked := CheckVal(args[0].bytes);
    if checked.Aborted? {
      return Aborted;
    }
    if checked.Error? {
      return Error;
    }
    out := UpdateRecognized(args, checked.value, rtype, es, slack);
  }

  /** The three passes, on a blob that has been recognized. */
  method UpdateRecognized(args: seq<SqlValue>, header: Header, ghost rtype: uint64, ghost es: seq<Entry>, ghost slack: seq<byte>)
    returns (out: Outcome<seq<byte>>)
    requires |args| >= 4 && ValFits(es, |slack|) && args[0].bytes == ValBlob(rtype, es, slack)
    requires Marks(es, args, (|args| - 1) / 3).Some? ==> Unmarked(es, args, (|args| - 1) / 3)
    requires header == ReadHeader(args[0].bytes)
    ensures match Updated(es, args)
            case None => out == Error
            case Some(all) =>
              if !ValFits(all, NewSlack(es, |slack|, args)) then out == Aborted
              else exists junk: seq<byte> ::
                     |junk| == NewSlack(es, |slack|, args) && out == Done(ValBlob(rtype, all, junk))
  {
    hide Record, JoinUpTo, Marks, Head, ReadHeader, ValWords, DirtyTypes, Clean, EntriesDone, Splice, VarSize, SetEntries, CountChange, SizeChange, DeletedSize, Unmarked, SpecsFit, Vars, Types, VarOffset;
    ValBlobStores(rtype, es, slack);
    var n, u := header.count, (|args| - 1) / 3;
    var original := args[0].bytes;
    var b := new byte[|original|];
    CopyAll(b, original);
    ghost var head := Head(rtype, |es|);
    CleanTypes(Cols(es));
    assert b[..] == Marked(head, es, {}, slack);
    var ok, count, size := MarkSpecs(b, n, args, u, head, es, slack);
    if !ok {
      return Error;
    }
    ghost var dirty := Marks(es, args, u).value;
    MarksBounded(es, args, u);
    ghost var sets := SetEntries(args, u);
    ghost var all := NewEntries(es, dirty, args, u);
    Books(es, args, u);
    NewSize(es, dirty, args, u);
    var m := n + count;
    var variableSize := |original| - ValBase(n) + size;
    assert m == |all| && variableSize == VarSize(Cols(all)) + NewSlack(es, |slack|, args);
    if ValBase(m) + variableSize >= LIMIT {
      return Aborted;
    }
    var result := new byte[ValBase(m) + variableSize];
    ghost var junk, ws, types, tail := AnyRecord(result[..], 2 * m, m);
    NoEntriesYet(ws, types, tail, all);
    var e, varAt;
    e, varAt, ws, types, tail := WriteSpecs(result, args, u, m, junk, ws, types, tail, all);
    ws, types, tail := CopyClean(result, b[..], n, m, e, varAt, head, es, dirty, slack, junk, ws, types, tail, sets, all);
    AllEntriesDone(ws, types, tail, all);
    WriteHead(junk, ws, types, tail, Head(rtype, m));
    CopyInto(result, 0, Head(header.rtype, m));
    ghost var left := tail[VarSize(Cols(all))..];
    assert result[..] == ValBlob(rtype, all, left);
    out := Done(result[..]);
  }

  lemma {:induction false} VarSizeConcat(a: seq<Entry>, b: seq<Entry>)
    ensures VarSize(Cols(a + b)) == VarSize(Cols(a)) + VarSize(Cols(b))
    decreases |b|
  {
    hide VarSize, Cols, VarBytes;
    if b == [] {
      assert a + b == a;
      NoVars();
    } else {
      var front, last := b[..|b| - 1], b[|b| - 1];
      VarSizeConcat(a, front);
      VarSizeSnoc(front, last);
      VarSizeSnoc(a + front, last);
      assert front + [last] == b && (a + front) + [last] == a + b;
    }
  }

  lemma {:induction false} NewSize(es: seq<Entry>, dirty: set<nat>, args: seq<SqlValue>, u: nat)
    requires 3 * u < |args| && SpecsFit(args, u)
    ensures VarSize(Cols(NewEntries(es, dirty, args, u))) ==
            VarSize(Cols(SetEntries(args, u))) + VarSize(Cols(Clean(es, dirty, |es|)))
  {
    VarSizeConcat(SetEntries(args, u), Clean(es, dirty, |es|));
  }
}
