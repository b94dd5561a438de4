/** Writing columns into a blob: the packed form every create and update must produce, and
    the step that writes one column. */
module BlobWrite {
  import opened Bytes
  import opened BlobLayout
  import opened BlobRead

  // ---------- the packed form ----------

  function VarSize(cols: seq<Col>): nat
  {
    |JoinUpTo(Vars(cols), |cols|)|
  }

  /** Each column's variable bytes lie inside the variable area, one after the other. */
  lemma {:induction false} OffsetFits(cols: seq<Col>, base: nat, i: nat)
    requires i < |cols|
    ensures VarOffset(cols, base, i + 1) == VarOffset(cols, base, i) + |VarBytes(cols[i])|
    ensures VarOffset(cols, base, i + 1) <= base + VarSize(cols)
    ensures VarLen(cols[i]) <= |VarBytes(cols[i])| && Vars(cols)[i] == VarBytes(cols[i])
  {
    JoinGrows(Vars(cols), i + 1, |cols|);
  }

  function Cell(cols: seq<Col>, base: nat, i: nat): Word
    requires i < |cols| && base + VarSize(cols) < LIMIT
  {
    OffsetFits(cols, base, i);
    WordOf(cols[i], VarOffset(cols, base, i))
  }

  function Cells(cols: seq<Col>, base: nat): (ws: seq<Word>)
    requires base + VarSize(cols) < LIMIT
    ensures |ws| == |cols|
  {
    seq(|cols|, i requires 0 <= i < |cols| => Cell(cols, base, i))
  }

  function Types(cols: seq<Col>): (ts: seq<byte>)
    ensures |ts| == |cols|
  {
    seq(|cols|, i requires 0 <= i < |cols| => TypeCode(cols[i]))
  }

  /** The areas of a record whose storage words start at word `first`. */
  function AreasOf(first: nat, words: nat, n: nat): Areas
  {
    Areas(HEADER_SIZE + 8 * first, HEADER_SIZE + 8 * words, HEADER_SIZE + 8 * words + n)
  }

  /** A record with packed words, types and variable bytes stores its columns. */
  lemma {:induction false} PackedStores(head: seq<byte>, ws: seq<Word>, cols: seq<Col>, slack: seq<byte>, first: nat)
    requires |head| == HEADER_SIZE && first + |cols| == |ws|
    requires HEADER_SIZE + 8 * |ws| + |cols| + VarSize(cols) + |slack| < LIMIT
    requires ws[first..] == Cells(cols, HEADER_SIZE + 8 * |ws| + |cols|)
    ensures Stores(Record(head, ws, Types(cols), JoinUpTo(Vars(cols), |cols|) + slack),
                   AreasOf(first, |ws|, |cols|), cols)
  {
    var tail := JoinUpTo(Vars(cols), |cols|) + slack;
    var b, a := Record(head, ws, Types(cols), tail), AreasOf(first, |ws|, |cols|);
    forall i | 0 <= i < |cols|
      ensures StoresCol(b, a, cols, i)
    {
      assert ws[first + i] == ws[first..][i] == Cell(cols, a.vars, i);
      PackedStoresCol(head, ws, Types(cols), cols, slack, first, i, b, a);
    }
  }

  lemma {:induction false} PackedStoresCol(head: seq<byte>, ws: seq<Word>, types: seq<byte>, cols: seq<Col>,
                                           slack: seq<byte>, first: nat, i: nat, b: seq<byte>, a: Areas)
    requires |head| == HEADER_SIZE && first + |cols| == |ws| && i < |cols| && a == AreasOf(first, |ws|, |cols|)
    requires a.vars + VarSize(cols) + |slack| < LIMIT
    requires ws[first + i] == Cell(cols, a.vars, i) && |types| == |cols| && types[i] == TypeCode(cols[i])
    requires b == Record(head, ws, types, JoinUpTo(Vars(cols), |cols|) + slack)
    ensures StoresCol(b, a, cols, i)
  {
    hide Record, WordOf, TypeCode, VarBytes, VarLen, JoinUpTo, Vars;
    var vars := JoinUpTo(Vars(cols), |cols|);
    var lo, hi := |JoinUpTo(Vars(cols), i)|, |JoinUpTo(Vars(cols), i + 1)|;
    OffsetFits(cols, a.vars, i);
    var at := a.vars + lo;
    assert b[a.types + i] == TypeCode(cols[i]) by {
      ReadType(head, ws, types, vars + slack, i);
    }
    assert StorageWord(b, a, i) == WordOf(cols[i], at) by {
      ReadWord(head, ws, types, vars + slack, first + i);
    }
    assert b[at..at + |VarBytes(cols[i])|] == VarBytes(cols[i]) by {
      ReadTail(head, ws, types, vars + slack, lo, hi);
      JoinSlice(Vars(cols), |cols|, i);
      SliceLeft(vars, slack, lo, hi);
    }
  }

  lemma {:induction false} VarsPrefix(cols: seq<Col>, more: seq<Col>, i: nat)
    requires i <= |cols| && i <= |more| && forall k :: 0 <= k < i ==> cols[k] == more[k]
    ensures JoinUpTo(Vars(cols), i) == JoinUpTo(Vars(more), i)
  {
    if i > 0 {
      VarsPrefix(cols, more, i - 1);
    }
  }

  // ---------- writes into a record ----------

  method PutWord(b: array<byte>, storageAt: nat, w: Word,
                 ghost head: seq<byte>, ghost ws: seq<Word>, ghost types: seq<byte>, ghost tail: seq<byte>, ghost k: nat)
    requires |head| == HEADER_SIZE && b[..] == Record(head, ws, types, tail)
    requires k < |ws| && storageAt == HEADER_SIZE + 8 * k
    modifies b
    ensures b[..] == Record(head, ws[k := w], types, tail)
  {
    hide Record, Splice;
    WriteWord(head, ws, types, tail, k, w);
    CopyInto(b, storageAt, w);
  }

  method PutType(b: array<byte>, typeAt: nat, t: byte,
                 ghost head: seq<byte>, ghost ws: seq<Word>, ghost types: seq<byte>, ghost tail: seq<byte>, ghost k: nat)
    requires |head| == HEADER_SIZE && b[..] == Record(head, ws, types, tail)
    requires k < |types| && typeAt == HEADER_SIZE + 8 * |ws| + k
    modifies b
    ensures b[..] == Record(head, ws, types[k := t], tail)
  {
    hide Record, Splice;
    WriteType(head, ws, types, tail, k, t);
    CopyInto(b, typeAt, [t]);
  }

  method PutVar(b: array<byte>, varAt: nat, bytes: seq<byte>,
                ghost head: seq<byte>, ghost ws: seq<Word>, ghost types: seq<byte>, ghost tail: seq<byte>, ghost at: nat)
    requires |head| == HEADER_SIZE && b[..] == Record(head, ws, types, tail)
    requires at + |bytes| <= |tail| && varAt == HEADER_SIZE + 8 * |ws| + |types| + at
    modifies b
    ensures b[..] == Record(head, ws, types, Splice(tail, at, bytes))
  {
    hide Record, Splice;
    WriteTail(head, ws, types, tail, at, bytes);
    CopyInto(b, varAt, bytes);
  }

  /** Writes the type byte, the storage word and the variable bytes of a column, and nothing
      else. */
  method WriteColumn(b: array<byte>, typeAt: nat, storageAt: nat, varAt: nat, c: Col,
                     ghost head: seq<byte>, ghost ws: seq<Word>, ghost types: seq<byte>, ghost tail: seq<byte>,
                     ghost word: nat, ghost icol: nat, ghost at: nat)
    returns (varNext: nat)
    requires |head| == HEADER_SIZE && b[..] == Record(head, ws, types, tail)
    requires word < |ws| && icol < |types| && at + |VarBytes(c)| <= |tail|
    requires storageAt == HEADER_SIZE + 8 * word
    requires typeAt == HEADER_SIZE + 8 * |ws| + icol
    requires varAt == HEADER_SIZE + 8 * |ws| + |types| + at
    requires varAt < LIMIT && VarLen(c) < LIMIT
    modifies b
    ensures b[..] == Record(head, ws[word := WordOf(c, varAt)], types[icol := TypeCode(c)],
                            Splice(tail, at, VarBytes(c)))
    ensures varNext == varAt + |VarBytes(c)|
  {
    hide WordOf, Record, TypeCode, VarBytes, Splice;
    ghost var types' := types[icol := TypeCode(c)];
    PutType(b, typeAt, TypeCode(c), head, ws, types, tail, icol);
    PutWord(b, storageAt, WordOf(c, varAt), head, ws, types', tail, word);
    PutVar(b, varAt, VarBytes(c), head, ws[word := WordOf(c, varAt)], types', tail, at);
    varNext := varAt + |VarBytes(c)|;
  }

  /** Any byte string of the right size is a record. */
  lemma {:induction false} AnyRecord(s: seq<byte>, words: nat, n: nat)
    returns (head: seq<byte>, ws: seq<Word>, types: seq<byte>, tail: seq<byte>)
    requires HEADER_SIZE + 8 * words + n <= |s|
    ensures |head| == HEADER_SIZE && |ws| == words && |types| == n
    ensures s == Record(head, ws, types, tail)
  {
    var at, end := HEADER_SIZE + 8 * words, HEADER_SIZE + 8 * words + n;
    head, types, tail := s[..HEADER_SIZE], s[at..end], s[end..];
    ws := AnyWords(s[HEADER_SIZE..at], words);
    assert s == s[..HEADER_SIZE] + s[HEADER_SIZE..at] + s[at..end] + s[end..];
  }

  lemma {:induction false} AnyWords(s: seq<byte>, n: nat) returns (ws: seq<Word>)
    requires |s| == 8 * n
    ensures |ws| == n && Flat(ws) == s
  {
    if n == 0 {
      ws := [];
    } else {
      var front := AnyWords(s[..8 * (n - 1)], n - 1);
      ws := front + [s[8 * (n - 1)..]];
      JoinSame(ws, front, n - 1);
      assert s == s[..8 * (n - 1)] + s[8 * (n - 1)..];
    }
  }

  /** The parts of a record under construction after `i` columns of `cols` have been written;
      storage word `first + i` is the next. */
  predicate PartsDone(ws: seq<Word>, types: seq<byte>, tail: seq<byte>, cols: seq<Col>, base: nat, first: nat, i: nat)
    requires i <= |cols| && base + VarSize(cols) < LIMIT
  {
    && first + i <= |ws| && i <= |types| && |JoinUpTo(Vars(cols), i)| <= |tail|
    && (forall k :: 0 <= k < i ==> ws[first + k] == Cell(cols, base, k))
    && (forall k :: 0 <= k < i ==> types[k] == TypeCode(cols[k]))
    && tail[..|JoinUpTo(Vars(cols), i)|] == JoinUpTo(Vars(cols), i)
  }

  lemma {:induction false} JoinNext(cs: seq<seq<byte>>, i: nat)
    requires i < |cs|
    ensures JoinUpTo(cs, i + 1) == JoinUpTo(cs, i) + cs[i]
  {
  }

  lemma {:induction false} PartsStep(ws: seq<Word>, types: seq<byte>, tail: seq<byte>, cols: seq<Col>,
                                     base: nat, first: nat, i: nat)
    requires i < |cols| && base + VarSize(cols) < LIMIT && PartsDone(ws, types, tail, cols, base, first, i)
    requires first + i < |ws| && i < |types| && VarSize(cols) <= |tail|
    ensures var at := |JoinUpTo(Vars(cols), i)|;
            && at + |VarBytes(cols[i])| <= |tail|
            && PartsDone(ws[first + i := Cell(cols, base, i)], types[i := TypeCode(cols[i])],
                         Splice(tail, at, VarBytes(cols[i])), cols, base, first, i + 1)
  {
    hide Cell, TypeCode, VarBytes, JoinUpTo;
    OffsetFits(cols, base, i);
    JoinNext(Vars(cols), i);
    var at := |JoinUpTo(Vars(cols), i)|;
    var tail' := Splice(tail, at, VarBytes(cols[i]));
    assert tail'[..at + |VarBytes(cols[i])|] == tail[..at] + VarBytes(cols[i]);
  }

  lemma {:induction false} CellIs(cols: seq<Col>, base: nat, i: nat)
    requires i < |cols| && base + VarSize(cols) < LIMIT
    ensures VarOffset(cols, base, i) < LIMIT && VarLen(cols[i]) < LIMIT
    ensures Cell(cols, base, i) == WordOf(cols[i], VarOffset(cols, base, i))
  {
    OffsetFits(cols, base, i);
  }

  lemma {:induction false} NoPartsYet(ws: seq<Word>, types: seq<byte>, tail: seq<byte>, cols: seq<Col>,
                                      base: nat, first: nat)
    requires base + VarSize(cols) < LIMIT && first <= |ws|
    ensures VarOffset(cols, base, 0) == base
    ensures PartsDone(ws, types, tail, cols, base, first, 0)
  {
  }

  /** When every column has been written the record is packed; what is left of the variable
      area is slack. */
  lemma {:induction false} AllPartsDone(ws: seq<Word>, types: seq<byte>, tail: seq<byte>, cols: seq<Col>,
                                        base: nat, first: nat, slack: seq<byte>)
    requires base + VarSize(cols) < LIMIT && PartsDone(ws, types, tail, cols, base, first, |cols|)
    requires |ws| == first + |cols| && |types| == |cols|
    requires slack == tail[VarSize(cols)..]
    ensures ws[first..] == Cells(cols, base) && types == Types(cols)
    ensures tail == JoinUpTo(Vars(cols), |cols|) + slack
  {
    hide Cell, TypeCode, JoinUpTo, Vars;
    assert tail == tail[..VarSize(cols)] + tail[VarSize(cols)..];
  }

  // ---------- marks and small facts ----------

  function DirtyTypes(cols: seq<Col>, dirty: set<nat>): (ts: seq<byte>)
    ensures |ts| == |cols|
  {
    seq(|cols|, i requires 0 <= i < |cols| => TypeCode(cols[i]) + (if i in dirty then DIRTY else 0))
  }

  /** The stored size of a string or blob, as read from its word. */
  function StoredSize(ty: byte, w: Word): nat
  {
    if ty == TYPE_STRING then InfoLen(w) + 1 else if ty == TYPE_BLOB then InfoLen(w) else 0
  }

  lemma {:induction false} TypeCodeSmall(c: Col)
    ensures TypeCode(c) <= TYPE_BLOB < DIRTY
  {
  }

  lemma {:induction false} CleanTypes(cols: seq<Col>)
    ensures DirtyTypes(cols, {}) == Types(cols)
  {
  }

  lemma {:induction false} MarkDirty(cols: seq<Col>, dirty: set<nat>, icol: nat)
    requires icol < |cols|
    ensures TypeCode(cols[icol]) + DIRTY < 0x100
    ensures DirtyTypes(cols, dirty)[icol := TypeCode(cols[icol]) + DIRTY] == DirtyTypes(cols, dirty + {icol})
  {
  }

  lemma {:induction false} Unmark(cols: seq<Col>, dirty: set<nat>, icol: nat)
    requires icol < |cols| && icol in dirty
    ensures DirtyTypes(cols, dirty)[icol := TypeCode(cols[icol])] == DirtyTypes(cols, dirty - {icol})
  {
  }

  lemma {:induction false} StoredSizeOfCell(cols: seq<Col>, base: nat, i: nat)
    requires i < |cols| && base + VarSize(cols) < LIMIT
    ensures StoredSize(TypeCode(cols[i]), Cell(cols, base, i)) == |VarBytes(cols[i])|
  {
    hide BigEndian64, ReadBigEndian64, JoinUpTo, Info, InfoLen, InfoOffset;
    CellIs(cols, base, i);
    if cols[i].StringCol? || cols[i].BlobCol? {
      InfoRoundTrip(VarOffset(cols, base, i), VarLen(cols[i]));
    }
  }

  predicate IsVar(c: Col)
  {
    c.StringCol? || c.BlobCol?
  }

  lemma {:induction false} IsVarByType(c: Col)
    ensures IsVar(c) <==> TypeCode(c) == TYPE_STRING || TypeCode(c) == TYPE_BLOB
  {
  }

  lemma {:induction false} FixedSame(c: Col, off: nat, off': nat)
    requires !IsVar(c) && off < LIMIT && off' < LIMIT
    ensures VarLen(c) == 0 && WordOf(c, off) == WordOf(c, off') && VarBytes(c) == []
  {
  }

  lemma {:induction false} VarWord(c: Col, off: nat)
    requires IsVar(c) && off < LIMIT && VarLen(c) < LIMIT
    ensures WordOf(c, off) == Info(off, VarLen(c))
  {
  }

  lemma {:induction false} SpliceNothing(s: seq<byte>, at: nat)
    requires at <= |s|
    ensures Splice(s, at, []) == s
  {
  }

  lemma {:induction false} SplicePrefix(s: seq<byte>, chunk: seq<byte>)
    requires |chunk| <= |s|
    ensures Splice(s, 0, chunk)[..|chunk|] == chunk
  {
  }

  method CopyAll(b: array<byte>, s: seq<byte>)
    requires b.Length == |s|
    modifies b
    ensures b[..] == s
  {
    CopyInto(b, 0, s);
  }
}
