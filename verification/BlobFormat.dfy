/** Key and value blobs, said on arguments, results and bytes alone: which arguments are accepted,
    what a get returns for each of them, and where everything is. */
module BlobFormat {
  import opened Bytes
  import opened Numerals
  import opened BlobLayout
  import opened BlobRead
  import opened BlobWrite
  import opened KeyBlobs
  import KU = KeyUpdate
  import opened ValBlobs
  import opened ValUpdate
  import opened ValLaws

  // ---------- values and types ----------

  /** The kinds of value that type code `code` takes: 0, 1 and 2 are bool, int and long, 3 is a double, 4
      a string, 5 a blob. */
  predicate Takes(code: int, kind: Kind)
  {
    || (0 <= code <= 2 && kind == IntegerKind)
    || (code == 3 && (kind == FloatKind || kind == IntegerKind))
    || (code == 4 && kind == TextKind)
    || (code == 5 && kind == BlobKind)
  }

  /** What a get shows of a value stored under a type code. */
  function Shown(v: SqlValue, code: int): SqlResult
  {
    if code == 0 then ResultInt(if v.asInt != 0 then 1 else 0)
    else if code == 1 || code == 2 then ResultInt(v.asInt)
    else if code == 3 then ResultDouble(v.asDouble)
    else if code == 4 then ResultText(v.bytes)
    else ResultBlob(v.bytes)
  }

  /** The variable space a value takes: a string and its NUL, or a blob. */
  function Room(v: SqlValue, code: int): nat
  {
    if code == 4 then |v.bytes| + 1 else if code == 5 then |v.bytes| else 0
  }

  /** A type argument: the low eight bits, signed. */
  function TypeGiven(v: SqlValue): int
  {
    (v.asInt + 128) % 256 - 128
  }

  lemma {:induction false} TypeGivenIs(v: SqlValue)
    ensures ToInt8(v.asInt) == TypeGiven(v)
  {
  }

  /** Storing a value keeps what a get is to show of it. */
  lemma {:induction false} StoredIs(v: SqlValue, ty: int)
    ensures Compatible(v, ty) <==> Takes(ty, v.kind)
    ensures Compatible(v, ty) ==>
              && TypeCode(ColOf(v, ty)) == ty && Result(ColOf(v, ty)) == Shown(v, ty) && |VarBytes(ColOf(v, ty))| == Room(v, ty)
  {
  }

  // ---------- creating a key ----------

  /** The arguments of `bcreatekey`: a record type, and then a value and a type code that takes it
      for each column. */
  predicate KeyArgs(args: seq<SqlValue>)
  {
    && |args| >= 3 && |args| % 2 == 1 && args[0].kind == IntegerKind
    && forall i :: 0 <= i < |args| / 2 ==> KeyArg(args, i)
  }

  predicate KeyArg(args: seq<SqlValue>, i: nat)
    requires 2 * i + 2 < |args|
  {
    args[2 * i + 2].kind == IntegerKind && Takes(TypeGiven(args[2 * i + 2]), args[2 * i + 1].kind)
  }

  function Rooms(args: seq<SqlValue>, n: nat): (k: nat)
    requires 2 * n < |args|
  {
    if n == 0 then 0 else Rooms(args, n - 1) + Room(args[2 * n - 1], TypeGiven(args[2 * n]))
  }

  lemma {:induction false} ArgsAre(args: seq<SqlValue>)
    ensures CreateArgsOk(args) <==> KeyArgs(args)
  {
    hide Compatible, Takes, ToInt8;
    if |args| >= 3 && |args| % 2 == 1 {
      assert (|args| - 1) / 2 == |args| / 2;
      forall i | 0 <= i < |args| / 2
        ensures ArgOk(args, i) <==> KeyArg(args, i)
      {
        TypeGivenIs(args[2 * i + 2]);
        StoredIs(args[2 * i + 1], ToInt8(args[2 * i + 2].asInt));
      }
    }
  }

  lemma {:induction false} RoomsAre(args: seq<SqlValue>, n: nat, cols: seq<Col>, i: nat)
    requires 2 * n < |args| && (forall i :: 0 <= i < n ==> ArgOk(args, i)) && cols == ArgCols(args, n) && i <= n
    ensures |JoinUpTo(Vars(cols), i)| == Rooms(args, i)
  {
    hide Compatible, ColOf, VarBytes, ToInt8, Room;
    if i > 0 {
      RoomsAre(args, n, cols, i - 1);
      TypeGivenIs(args[2 * i]);
      assert ArgOk(args, i - 1);
      StoredIs(args[2 * i - 1], ToInt8(args[2 * i].asInt));
    }
  }

  /** `bcreatekey` and then `bgetkey`: the call is refused exactly on other arguments, it fails its
      size contract exactly at 2^31 bytes, and otherwise each column shows its argument. */
  lemma {:induction false} CreateKeyThenGet(args: seq<SqlValue>)
    ensures CreateKey(args) == Error <==> !KeyArgs(args)
    ensures KeyArgs(args) ==>
              var n := |args| / 2;
              CreateKey(args) == Aborted <==> 16 + 9 * n + Rooms(args, n) >= 0x8000_0000
    ensures CreateKey(args).Done? ==>
              var b, n := CreateKey(args).value, |args| / 2;
              && |b| == 16 + 9 * n + Rooms(args, n)
              && GetKeyType([BlobArg(b)]) == Done(ResultInt(args[0].asInt))
              && forall index: SqlValue :: index.kind == IntegerKind ==>
                   GetKey([BlobArg(b), index]) ==
                   if 0 <= index.asInt < n then Done(Shown(args[2 * index.asInt + 1], TypeGiven(args[2 * index.asInt + 2])))
                   else Error
  {
    hide KeyBlob, GetKey, GetKeyType, Compatible, ColOf, ToInt8, Takes, Shown, Result, JoinUpTo;
    ArgsAre(args);
    if KeyArgs(args) {
      var n := |args| / 2;
      assert (|args| - 1) / 2 == n;
      var cols := ArgCols(args, n);
      RoomsAre(args, n, cols, n);
      if KeyFits(cols) {
        var rtype := ToUnsigned64(args[0].asInt);
        forall index: SqlValue | index.kind == IntegerKind
          ensures GetKey([BlobArg(KeyBlob(rtype, cols)), index]) ==
                  if 0 <= index.asInt < n then Done(Shown(args[2 * index.asInt + 1], TypeGiven(args[2 * index.asInt + 2])))
                  else Error
        {
          GetOfKeyBlob(rtype, cols, index);
          var i := index.asInt;
          if 0 <= i < n {
            assert ArgOk(args, i);
            TypeGivenIs(args[2 * i + 2]);
            StoredIs(args[2 * i + 1], ToInt8(args[2 * i + 2].asInt));
          }
        }
        GetOfKeyBlob(rtype, cols, args[0]);
      }
    }
  }

  // ---------- updating a key ----------

  /** The column that update `k` names. */
  function NamedColumn(args: seq<SqlValue>, k: nat): int
    requires 2 * k + 2 < |args|
  {
    args[2 * k + 1].asInt
  }

  /** Update `k` of `bupdatekey`: the index of a column of the blob, and a value that its stored type
      code takes. */
  predicate KeyPair(b: seq<byte>, n: nat, args: seq<SqlValue>, k: nat)
    requires 16 + 9 * n <= |b| && 2 * k + 2 < |args|
  {
    && args[2 * k + 1].kind == IntegerKind && 0 <= NamedColumn(args, k) < n
    && Takes(b[16 + 8 * n + NamedColumn(args, k)], args[2 * k + 2].kind)
  }

  predicate KeyPairs(b: seq<byte>, n: nat, args: seq<SqlValue>)
    requires 16 + 9 * n <= |b|
  {
    && |args| >= 3 && |args| % 2 == 1
    && (forall k :: 0 <= k < |args| / 2 ==> KeyPair(b, n, args, k))
    && (forall j, k :: 0 <= j < k < |args| / 2 ==> NamedColumn(args, j) != NamedColumn(args, k))
  }

  lemma {:induction false} StoredCode(rtype: uint64, cols: seq<Col>, i: nat)
    requires KeyFits(cols) && i < |cols|
    ensures KeyBlob(rtype, cols)[16 + 8 * |cols| + i] == TypeCode(cols[i])
  {
    hide KeyBlob, TypeCode;
    KeyBlobStores(rtype, cols);
    assert StoresCol(KeyBlob(rtype, cols), KeyAreas(|cols|), cols, i);
  }

  lemma {:induction false} PairIs(rtype: uint64, cols: seq<Col>, b: seq<byte>, args: seq<SqlValue>, k: nat)
    requires KeyFits(cols) && b == KeyBlob(rtype, cols) && 2 * k + 2 < |args|
    ensures KU.PairOk(cols, args, k) <==> KeyPair(b, |cols|, args, k)
    ensures KeyPair(b, |cols|, args, k) ==> KU.IndexOf(args, k) == NamedColumn(args, k)
  {
    hide KeyBlob, TypeCode, Compatible, Takes;
    var i := NamedColumn(args, k);
    if 0 <= i < |cols| {
      StoredCode(rtype, cols, i);
      StoredIs(args[2 * k + 2], TypeCode(cols[i]));
    }
  }

  /** `bupdatekey` on a key blob: refused exactly on other arguments. */
  lemma {:induction false} UpdateKeyAccepts(rtype: uint64, cols: seq<Col>, b: seq<byte>, args: seq<SqlValue>)
    requires KeyFits(cols) && b == KeyBlob(rtype, cols) && args != [] && args[0] == BlobArg(b)
    ensures KU.UpdateKey(args, rtype, cols) == Error <==> !KeyPairs(b, |cols|, args)
  {
    hide KeyBlob, KU.PairOk, KU.IndexOf, KU.Updates, KeyPair, KeyChecked, ReadHeader, KeyFits;
    KeyBlobChecked(rtype, cols);
    KeyBlobStores(rtype, cols);
    if |args| >= 3 && |args| % 2 == 1 {
      var u := |args| / 2;
      assert (|args| - 1) / 2 == u;
      KU.AcceptedIff(cols, args, u);
      forall k | 0 <= k < u
        ensures KU.PairOk(cols, args, k) <==> KeyPair(b, |cols|, args, k)
        ensures KeyPair(b, |cols|, args, k) ==> KU.IndexOf(args, k) == NamedColumn(args, k)
      {
        PairIs(rtype, cols, b, args, k);
      }
    }
  }

  /** It fails its size contract exactly when the new columns need 2^31 bytes. */
  lemma {:induction false} UpdateKeySize(rtype: uint64, cols: seq<Col>, b: seq<byte>, args: seq<SqlValue>)
    requires KeyFits(cols) && b == KeyBlob(rtype, cols) && args != [] && args[0] == BlobArg(b) && KeyPairs(b, |cols|, args)
    ensures KU.Updates(cols, args, |args| / 2).Some? && |KU.Updates(cols, args, |args| / 2).value.cols| == |cols|
    ensures KU.UpdateKey(args, rtype, cols) == Aborted <==>
            16 + 9 * |cols| + RoomBefore(KU.Updates(cols, args, |args| / 2).value.cols, |cols|) >= 0x8000_0000
  {
    hide KeyBlob, KU.Updates, KeyPairs, KeyChecked, ReadHeader, JoinUpTo, RoomBefore, KU.Consistent;
    UpdateKeyAccepts(rtype, cols, b, args);
    KeyPairsCount(b, |cols|, args);
    var u := |args| / 2;
    assert (|args| - 1) / 2 == u;
    KeyBlobChecked(rtype, cols);
    KeyBlobStores(rtype, cols);
    KU.UpdatesConsistent(cols, args, u);
    var st := KU.Updates(cols, args, u).value;
    KU.KeepsCount(cols, st, args);
    RoomIs(st.cols, |cols|);
  }

  lemma {:induction false} KeyPairsCount(b: seq<byte>, n: nat, args: seq<SqlValue>)
    requires 16 + 9 * n <= |b| && KeyPairs(b, n, args)
    ensures |args| >= 3 && |args| % 2 == 1
  {
  }

  /** And then `bgetkey`: a named column shows its new value, every other what it did. */
  lemma {:induction false} UpdateKeyThenGet(rtype: uint64, cols: seq<Col>, b: seq<byte>, args: seq<SqlValue>, b': seq<byte>, index: SqlValue)
    requires KeyFits(cols) && b == KeyBlob(rtype, cols) && args != [] && args[0] == BlobArg(b)
    requires KU.UpdateKey(args, rtype, cols) == Done(b') && index.kind == IntegerKind
    ensures |args| % 2 == 1 && GetKeyType([BlobArg(b')]) == GetKeyType([BlobArg(b)])
    ensures forall k :: 0 <= k < |args| / 2 && NamedColumn(args, k) == index.asInt ==>
              && 0 <= index.asInt < |cols|
              && GetKey([BlobArg(b'), index]) == Done(Shown(args[2 * k + 2], b[16 + 8 * |cols| + index.asInt]))
    ensures (forall k :: 0 <= k < |args| / 2 ==> NamedColumn(args, k) != index.asInt) ==>
              GetKey([BlobArg(b'), index]) == GetKey([BlobArg(b), index])
  {
    hide KeyBlob, KU.PairOk, KU.IndexOf, KU.Updates, Takes, KeyChecked, ReadHeader, GetKey, GetKeyType, KU.Consistent, Shown, BlobArg, VarSize;
    UpdateKeyAccepts(rtype, cols, b, args);
    var u := |args| / 2;
    assert (|args| - 1) / 2 == u;
    var st := KU.Updates(cols, args, u).value;
    KU.UpdatesConsistent(cols, args, u);
    KU.KeepsCount(cols, st, args);
    GetOfKeyBlob(rtype, cols, index);
    GetOfKeyBlob(rtype, st.cols, index);
    forall k | 0 <= k < u && NamedColumn(args, k) == index.asInt
      ensures 0 <= index.asInt < |cols|
      ensures Result(st.cols[index.asInt]) == Shown(args[2 * k + 2], b[16 + 8 * |cols| + index.asInt])
    {
      NamedShows(rtype, cols, b, args, u, k);
    }
    if forall k :: 0 <= k < u ==> NamedColumn(args, k) != index.asInt {
      var i := index.asInt;
      if 0 <= i < |cols| {
        UnnamedStays(rtype, cols, b, args, u, i);
      }
    }
  }

  lemma {:induction false} NamedShows(rtype: uint64, cols: seq<Col>, b: seq<byte>, args: seq<SqlValue>, u: nat, k: nat)
    requires KeyFits(cols) && b == KeyBlob(rtype, cols) && k < u && 2 * u < |args|
    requires KU.Updates(cols, args, u).Some? && KeyPair(b, |cols|, args, k)
    ensures var st, i := KU.Updates(cols, args, u).value, NamedColumn(args, k);
            |st.cols| == |cols| && Result(st.cols[i]) == Shown(args[2 * k + 2], b[16 + 8 * |cols| + i])
  {
    hide KeyBlob, KU.Updates, Takes, Shown, Result, ColOf, Compatible, TypeCode;
    PairIs(rtype, cols, b, args, k);
    KU.UpdatesConsistent(cols, args, u);
    KU.UpdateRecorded(cols, args, u, k);
    var i := NamedColumn(args, k);
    StoredCode(rtype, cols, i);
    StoredIs(args[2 * k + 2], TypeCode(cols[i]));
  }

  lemma {:induction false} UnnamedStays(rtype: uint64, cols: seq<Col>, b: seq<byte>, args: seq<SqlValue>, u: nat, i: nat)
    requires KeyFits(cols) && b == KeyBlob(rtype, cols) && 2 * u < |args| && i < |cols|
    requires KU.Updates(cols, args, u).Some? && forall k :: 0 <= k < u ==> NamedColumn(args, k) != i
    ensures var st := KU.Updates(cols, args, u).value; |st.cols| == |cols| && st.cols[i] == cols[i]
  {
    hide KeyBlob, KU.Updates, ColOf, Compatible, TypeCode;
    KU.UpdatesConsistent(cols, args, u);
    KU.NamedIff(cols, args, u, i);
    forall k | 0 <= k < u
      ensures KU.IndexOf(args, k) != i
    {
      assert NamedColumn(args, k) != i && i < 0x8000_0000;
    }
  }

  // ---------- values ----------

  function ColumnCode(c: Col): int
  {
    match c
    case BoolCol(_) => 0
    case Int32Col(_) => 1
    case Int64Col(_) => 2
    case FloatCol(_) => 3
    case StringCol(_) => 4
    case BlobCol(_) => 5
  }

  /** Specification `k`: a field id, a value and a type code. */
  function GivenId(args: seq<SqlValue>, k: nat): int64
    requires 3 * k + 3 < |args|
  {
    args[3 * k + 1].asInt
  }

  function GivenValue(args: seq<SqlValue>, k: nat): SqlValue
    requires 3 * k + 3 < |args|
  {
    args[3 * k + 2]
  }

  function GivenType(args: seq<SqlValue>, k: nat): int
    requires 3 * k + 3 < |args|
  {
    TypeGiven(args[3 * k + 3])
  }

  /** What a get shows of the field that specification `k` names. */
  function ShownOf(args: seq<SqlValue>, k: nat): SqlResult
    requires 3 * k + 3 < |args|
  {
    if GivenValue(args, k).kind == NullKind then ResultNull else Shown(GivenValue(args, k), GivenType(args, k))
  }

  predicate GivenOnce(args: seq<SqlValue>)
  {
    forall j, k :: 0 <= j < k < (|args| - 1) / 3 ==> GivenId(args, j) != GivenId(args, k)
  }

  predicate StoredOnce(es: seq<Entry>)
  {
    forall i, j :: 0 <= i < j < |es| ==> es[i].id != es[j].id
  }

  // ---------- creating a value ----------

  /** A value is null or of a kind that its type code takes; id and type are integers. */
  predicate ValArg(args: seq<SqlValue>, k: nat)
    requires 3 * k + 3 < |args|
  {
    && args[3 * k + 1].kind == IntegerKind && args[3 * k + 3].kind == IntegerKind
    && (GivenValue(args, k).kind == NullKind || Takes(GivenType(args, k), GivenValue(args, k).kind))
  }

  predicate ValArgs(args: seq<SqlValue>)
  {
    && |args| % 3 == 1 && args[0].kind == IntegerKind
    && forall k :: 0 <= k < |args| / 3 ==> ValArg(args, k)
  }

  lemma {:induction false} SpecIs(args: seq<SqlValue>, k: nat)
    requires 3 * k + 3 < |args|
    ensures SpecOk(args, k) <==> ValArg(args, k)
    ensures TypeArg(args, k) == GivenType(args, k)
    ensures Compatible(GivenValue(args, k), TypeArg(args, k)) <==> Takes(GivenType(args, k), GivenValue(args, k).kind)
    ensures (Sets(args, k) ==> Compatible(args[3 * k + 2], ToInt8(args[3 * k + 3].asInt))) ==> ValueArg(args, k) == ShownOf(args, k)
  {
    hide Compatible, Takes, ToInt8, Shown, Result, ColOf, TypeGiven;
    TypeGivenIs(args[3 * k + 3]);
    StoredIs(args[3 * k + 2], ToInt8(args[3 * k + 3].asInt));
  }

  lemma {:induction false} ValArgsAre(args: seq<SqlValue>)
    ensures CreateValArgsOk(args) <==> ValArgs(args)
  {
    hide SpecOk, ValArg;
    if |args| % 3 == 1 {
      assert (|args| - 1) / 3 == |args| / 3;
      forall k | 0 <= k < |args| / 3
        ensures SpecOk(args, k) <==> ValArg(args, k)
      {
        SpecIs(args, k);
      }
    }
  }

  /** `bcreateval` is refused exactly on other arguments. */
  lemma {:induction false} CreateValAccepts(args: seq<SqlValue>)
    ensures CreateVal(args) == Error <==> !ValArgs(args)
  {
    hide CreateValArgsOk, ValArgs;
    ValArgsAre(args);
    if CreateValArgsOk(args) {
      ArgsFit(args);
    }
  }

  lemma {:induction false} ArgsFit(args: seq<SqlValue>)
    requires CreateValArgsOk(args)
    ensures |args| >= 1 && SpecsFit(args, (|args| - 1) / 3)
  {
    hide Compatible;
    assert forall i :: 0 <= i < (|args| - 1) / 3 && Sets(args, i) ==> SpecOk(args, i);
  }

  lemma {:induction false} OnceIs(args: seq<SqlValue>, u: nat)
    requires |args| == 3 * u + 1
    ensures GivenOnce(args) <==> DistinctArgs(args, u)
  {
    forall k | 0 <= k < u
      ensures GivenId(args, k) == IdArg(args, k)
    {
    }
    if DistinctArgs(args, u) {
      forall j, k | 0 <= j < k < (|args| - 1) / 3
        ensures GivenId(args, j) != GivenId(args, k)
      {
        assert IdArg(args, j) != IdArg(args, k);
      }
    }
    if GivenOnce(args) {
      forall j, k | 0 <= j < k < u
        ensures IdArg(args, j) != IdArg(args, k)
      {
        assert GivenId(args, j) != GivenId(args, k);
      }
    }
  }

  /** `bcreateval` and then `bgetval`, with each id given once: a named field shows what was given
      for it, any other is null. */
  lemma {:induction false} CreateValThenGet(args: seq<SqlValue>, b: seq<byte>, id: SqlValue)
    requires CreateVal(args) == Done(b) && GivenOnce(args) && id.kind == IntegerKind
    ensures |args| % 3 == 1 && GetValType([BlobArg(b)]) == Done(ResultInt(args[0].asInt))
    ensures forall k :: 0 <= k < |args| / 3 && GivenId(args, k) == id.asInt ==> GetVal([BlobArg(b), id]) == Done(ShownOf(args, k))
    ensures (forall k :: 0 <= k < |args| / 3 ==> GivenId(args, k) != id.asInt) ==> GetVal([BlobArg(b), id]) == Done(ResultNull)
  {
    hide ValBlob, GetVal, GetValType, ValFits, SetEntries, ShownOf, ValueArg, Lookup, SpecOk, GivenOnce, DistinctArgs, SpecsFit, Given;
    var u := |args| / 3;
    assert (|args| - 1) / 3 == u;
    ArgsFit(args);
    OnceIs(args, u);
    CreateIsMap(args, u, id.asInt);
    GetOfValBlob(ToUnsigned64(args[0].asInt), SetEntries(args, u), [], id);
    forall k | 0 <= k < u && GivenId(args, k) == id.asInt
      ensures Given(args, u, id.asInt) == Some(ShownOf(args, k))
    {
      GivenShows(args, u, k);
    }
    if forall k :: 0 <= k < u ==> GivenId(args, k) != id.asInt {
      NoneGiven(args, u, id.asInt);
    }
  }

  lemma {:induction false} GivenShows(args: seq<SqlValue>, u: nat, k: nat)
    requires 3 * u < |args| && SpecsFit(args, u) && DistinctArgs(args, u) && k < u
    ensures Given(args, u, GivenId(args, k)) == Some(ShownOf(args, k))
  {
    hide Given, ShownOf, Compatible;
    GivenBy(args, u, k);
    SpecIs(args, k);
  }

  lemma {:induction false} NoneGiven(args: seq<SqlValue>, u: nat, id: int64)
    requires 3 * u < |args| && SpecsFit(args, u) && forall k :: 0 <= k < u ==> GivenId(args, k) != id
    ensures Given(args, u, id) == None
  {
    hide Given, Compatible;
    NotGiven(args, u, id);
    forall k | 0 <= k < u
      ensures IdArg(args, k) != id
    {
      assert GivenId(args, k) != id;
    }
  }

  // ---------- updating a value ----------

  /** Specification `k` of `bupdateval`: an integer id, the type code of every stored entry with that
      id, and a value that is null or of a kind that the type code takes. */
  predicate ValChange(es: seq<Entry>, args: seq<SqlValue>, k: nat)
    requires 3 * k + 3 < |args|
  {
    && args[3 * k + 1].kind == IntegerKind
    && (forall i :: 0 <= i < |es| && es[i].id == GivenId(args, k) ==> ColumnCode(es[i].col) == GivenType(args, k))
    && (GivenValue(args, k).kind != NullKind ==> Takes(GivenType(args, k), GivenValue(args, k).kind))
  }

  /** Which updates are accepted, ids being distinct. */
  lemma {:induction false} MarksAccept(es: seq<Entry>, args: seq<SqlValue>, u: nat)
    requires 3 * u < |args| && StoredOnce(es) && DistinctArgs(args, u)
    ensures Marks(es, args, u).Some? <==> forall k :: 0 <= k < u ==> ValChange(es, args, k)
  {
    hide StepOk, ValChange, DistinctArgs, StoredOnce;
    if u > 0 {
      FewerDistinct(args, u);
      MarksAccept(es, args, u - 1);
      if Marks(es, args, u - 1).Some? {
        StepIs(es, args, u - 1);
      }
    }
  }

  lemma {:induction false} FewerDistinct(args: seq<SqlValue>, u: nat)
    requires 0 < u && 3 * u < |args| && DistinctArgs(args, u)
    ensures DistinctArgs(args, u - 1)
  {
  }

  lemma {:induction false} StepIs(es: seq<Entry>, args: seq<SqlValue>, k: nat)
    requires 3 * k + 3 < |args| && StoredOnce(es) && DistinctArgs(args, k + 1) && Marks(es, args, k).Some?
    ensures StepOk(es, Marks(es, args, k).value, args, k) <==> ValChange(es, args, k)
  {
    hide Compatible, Takes, TypeArg, TypeGiven, Marks, DistinctArgs;
    var i := Named(es, args, k);
    SpecIs(args, k);
    if i < |es| {
      NotYetNamed(es, args, k);
      assert TypeCode(es[i].col) == ColumnCode(es[i].col);
    }
  }

  lemma {:induction false} NotYetNamed(es: seq<Entry>, args: seq<SqlValue>, k: nat)
    requires 3 * k + 3 < |args| && DistinctArgs(args, k + 1) && Marks(es, args, k).Some? && Named(es, args, k) < |es|
    ensures Named(es, args, k) !in Marks(es, args, k).value
  {
    hide Marks;
    MarksAre(es, args, k, Named(es, args, k));
    forall j | 0 <= j < k
      ensures Named(es, args, j) != Named(es, args, k)
    {
      assert IdArg(args, j) != IdArg(args, k);
    }
  }

  /** `bupdateval` on a value blob, each id stored and given once: refused exactly on other
      arguments. */
  lemma {:induction false} UpdateValAccepts(args: seq<SqlValue>, rtype: uint64, es: seq<Entry>, slack: seq<byte>, out: Outcome<seq<byte>>)
    requires ValFits(es, |slack|) && StoredOnce(es) && GivenOnce(args)
    requires args != [] && args[0] == BlobArg(ValBlob(rtype, es, slack)) && UpdatesVal(args, rtype, es, |slack|, out)
    ensures out == Error <==>
            !(|args| >= 4 && |args| % 3 == 1 && forall k :: 0 <= k < |args| / 3 ==> ValChange(es, args, k))
  {
    hide ValBlob, ValFits, Marks, ValChange, GivenOnce, DistinctArgs, StoredOnce, ValChecked, ReadHeader;
    ValBlobChecked(rtype, es, slack);
    ValBlobStores(rtype, es, slack);
    if |args| >= 4 && |args| % 3 == 1 {
      var u := |args| / 3;
      assert (|args| - 1) / 3 == u;
      OnceIs(args, u);
      MarksAccept(es, args, u);
    }
  }

  /** It fails its size contract exactly when the new entries and the slack, old and new, need 2^31
      bytes. */
  lemma {:induction false} UpdateValSize(args: seq<SqlValue>, rtype: uint64, es: seq<Entry>, slack: seq<byte>, out: Outcome<seq<byte>>)
    requires ValFits(es, |slack|) && |args| >= 4 && |args| % 3 == 1 && args[0] == BlobArg(ValBlob(rtype, es, slack))
    requires UpdatesVal(args, rtype, es, |slack|, out) && Updated(es, args).Some?
    ensures var all := Updated(es, args).value;
            && (out == Aborted <==> 16 + 17 * |all| + RoomBefore(Cols(all), |all|) + |slack| + DeletedSize(es, args, |args| / 3) >= 0x8000_0000)
            && (out.Done? ==> |out.value| == 16 + 17 * |all| + RoomBefore(Cols(all), |all|) + |slack| + DeletedSize(es, args, |args| / 3))
  {
    hide Updated, ValChecked, ReadHeader, JoinUpTo, RoomBefore, DeletedSize;
    ValBlobChecked(rtype, es, slack);
    ValBlobStores(rtype, es, slack);
    assert (|args| - 1) / 3 == |args| / 3;
    var all := Updated(es, args).value;
    RoomIs(Cols(all), |all|);
  }

  /** And then `bgetval`: a named field shows what was given for it, any other what it did. */
  lemma {:induction false} UpdateValThenGet(args: seq<SqlValue>, rtype: uint64, es: seq<Entry>, slack: seq<byte>, b': seq<byte>, id: SqlValue)
    requires ValFits(es, |slack|) && StoredOnce(es) && GivenOnce(args) && id.kind == IntegerKind
    requires args != [] && args[0] == BlobArg(ValBlob(rtype, es, slack)) && UpdatesVal(args, rtype, es, |slack|, Done(b'))
    ensures |args| % 3 == 1 && GetValType([BlobArg(b')]) == GetValType([args[0]])
    ensures forall k :: 0 <= k < |args| / 3 && GivenId(args, k) == id.asInt ==> GetVal([BlobArg(b'), id]) == Done(ShownOf(args, k))
    ensures (forall k :: 0 <= k < |args| / 3 ==> GivenId(args, k) != id.asInt) ==> GetVal([BlobArg(b'), id]) == GetVal([args[0], id])
  {
    hide ValBlob, GetVal, GetValType, ValFits, ShownOf, ValueArg, Lookup, GivenOnce, DistinctArgs, SpecsFit, Given, Marks, ValChecked, ReadHeader, UpdatesVal;
    var left := SlackOf(args, rtype, es, |slack|, b');
    var u := |args| / 3;
    assert Calls(args) == u;
    OnceIs(args, u);
    assert DistinctIds(es);
    GetAfterUpdate(args, rtype, es, slack, b', id);
    GetOfValBlob(rtype, es, slack, id);
    forall k | 0 <= k < u && GivenId(args, k) == id.asInt
      ensures Given(args, u, id.asInt) == Some(ShownOf(args, k))
    {
      GivenShows(args, u, k);
    }
    if forall k :: 0 <= k < u ==> GivenId(args, k) != id.asInt {
      NoneGiven(args, u, id.asInt);
    }
  }

  // ---------- where everything is ----------

  function RoomOf(c: Col): nat
  {
    match c
    case StringCol(s) => |s| + 1
    case BlobCol(s) => |s|
    case _ => 0
  }

  function RoomBefore(cols: seq<Col>, i: nat): (k: nat)
    requires i <= |cols|
  {
    if i == 0 then 0 else RoomBefore(cols, i - 1) + RoomOf(cols[i - 1])
  }

  lemma {:induction false} RoomIs(cols: seq<Col>, i: nat)
    requires i <= |cols|
    ensures |JoinUpTo(Vars(cols), i)| == RoomBefore(cols, i)
  {
    hide VarBytes, RoomOf;
    if i > 0 {
      RoomIs(cols, i - 1);
      RoomOfIs(cols[i - 1]);
    }
  }

  lemma {:induction false} RoomOfIs(c: Col)
    ensures |VarBytes(c)| == RoomOf(c)
  {
  }

  /** A column in bytes: its code at `ty`, its big-endian word at `word`, and the bytes of a string or
      blob at `at`, with the place in the high half of the word and the length in the low half. */
  predicate ColumnAt(b: seq<byte>, c: Col, word: nat, ty: nat, at: nat)
  {
    && word + 8 <= |b| && ty < |b| && b[ty] == ColumnCode(c)
    && match c
       case BoolCol(v) => BigEnd(b, word, 8) == if v then 1 else 0
       case Int32Col(v) => BigEnd(b, word, 8) == if v < 0 then v + 0x1_0000_0000_0000_0000 else v
       case Int64Col(v) => BigEnd(b, word, 8) == if v < 0 then v + 0x1_0000_0000_0000_0000 else v
       case FloatCol(d) => b[word..word + 8] == d
       case StringCol(s) => BigEnd(b, word, 8) == at * 0x1_0000_0000 + |s| && at + |s| < |b| && b[at..at + |s|] == s && b[at + |s|] == 0
       case BlobCol(s) => BigEnd(b, word, 8) == at * 0x1_0000_0000 + |s| && at + |s| <= |b| && b[at..at + |s|] == s
  }

  lemma {:induction false} FixedAt(b: seq<byte>, c: Col, word: nat, ty: nat, at: nat)
    requires word + 8 <= |b| && ty < |b| && b[ty] == TypeCode(c) && !c.StringCol? && !c.BlobCol?
    requires at < LIMIT && b[word..word + 8] == WordOf(c, at)
    ensures ColumnAt(b, c, word, ty, at)
  {
    hide BigEnd, BigEndian64, ReadBigEndian64;
    BigEndOf8(b, word);
    match c
    case BoolCol(v) => BigEndian64RoundTrip(if v then 1 else 0);
    case Int32Col(v) => BigEndian64RoundTrip(ToUnsigned64(v));
    case Int64Col(v) => BigEndian64RoundTrip(ToUnsigned64(v));
    case FloatCol(_) =>
  }

  lemma {:induction false} VariableAt(b: seq<byte>, c: Col, s: seq<byte>, word: nat, ty: nat, at: nat)
    requires word + 8 <= |b| && ty < |b| && b[ty] == TypeCode(c) && (c == StringCol(s) || c == BlobCol(s))
    requires at < LIMIT && |s| < LIMIT && b[word..word + 8] == WordOf(c, at)
    requires at + |VarBytes(c)| <= |b| && b[at..at + |VarBytes(c)|] == VarBytes(c)
    ensures ColumnAt(b, c, word, ty, at)
  {
    hide BigEnd, BigEndian64, ReadBigEndian64;
    BigEndOf8(b, word);
    BigEndian64RoundTrip(at * 0x1_0000_0000 + |s|);
    if c.StringCol? {
      assert b[at..at + |s| + 1] == s + [0];
      assert b[at..at + |s|] == b[at..at + |s| + 1][..|s|];
      assert b[at + |s|] == b[at..at + |s| + 1][|s|];
    }
  }

  lemma {:induction false} StoredAt(b: seq<byte>, a: Areas, cols: seq<Col>, i: nat)
    requires Within(b, a, |cols|) && i < |cols| && StoresCol(b, a, cols, i)
    ensures ColumnAt(b, cols[i], a.storage + 8 * i, a.types + i, a.vars + RoomBefore(cols, i))
  {
    hide ColumnAt, WordOf, TypeCode, JoinUpTo, RoomBefore, VarBytes;
    RoomIs(cols, i);
    var c, at := cols[i], VarOffset(cols, a.vars, i);
    match c
    case StringCol(s) => VariableAt(b, c, s, a.storage + 8 * i, a.types + i, at);
    case BlobCol(s) => VariableAt(b, c, s, a.storage + 8 * i, a.types + i, at);
    case _ => FixedAt(b, c, a.storage + 8 * i, a.types + i, at);
  }

  /** The header: the record type, the letters RM00, and the number of columns. */
  predicate HeaderAt(b: seq<byte>, rtype: uint64, n: nat)
  {
    |b| >= 16 && BigEnd(b, 0, 8) == rtype && b[8..12] == [0x52, 0x4d, 0x30, 0x30] && BigEnd(b, 12, 4) == n
  }

  lemma {:induction false} HeadIs(b: seq<byte>, rtype: uint64, count: uint32)
    requires |b| >= 16 && b[..16] == Head(rtype, count)
    ensures HeaderAt(b, rtype, count)
  {
    hide BigEnd, BigEndian64, BigEndian32, ReadBigEndian64, ReadBigEndian32;
    BigEndOf8(b, 0);
    BigEndOf4(b, 12);
    BigEndian64RoundTrip(rtype);
    BigEndian32RoundTrip(count);
    MagicIs();
    var h := Head(rtype, count);
    assert h[..8] == BigEndian64(rtype) && h[8..12] == BigEndian32(MAGIC) && h[12..] == BigEndian32(count);
    assert b[0..8] == b[..16][..8] && b[12..16] == b[..16][12..] && b[8..12] == b[..16][8..12];
  }

  lemma {:induction false} MagicIs()
    ensures BigEndian32(MAGIC) == [0x52, 0x4d, 0x30, 0x30]
  {
  }

  /** Four bytes are the magic number exactly when they are those letters. */
  lemma {:induction false} MagicOnly(m: seq<byte>)
    requires |m| == 4
    ensures ReadBigEndian32(m) == MAGIC <==> m == [0x52, 0x4d, 0x30, 0x30]
  {
  }

  lemma {:induction false} RecordHead(head: seq<byte>, ws: seq<Word>, types: seq<byte>, tail: seq<byte>)
    requires |head| == 16
    ensures Record(head, ws, types, tail)[..16] == head
  {
    hide Flat;
  }

  lemma {:induction false} KeyBlobIs(rtype: uint64, cols: seq<Col>)
    requires KeyFits(cols)
    ensures KeyBlob(rtype, cols) == Record(Head(rtype, |cols|), Cells(cols, KeyBase(|cols|)), Types(cols), JoinUpTo(Vars(cols), |cols|))
  {
  }

  lemma {:induction false} ValBlobIs(rtype: uint64, es: seq<Entry>, slack: seq<byte>)
    requires ValFits(es, |slack|)
    ensures ValBlob(rtype, es, slack) == Record(Head(rtype, |es|), ValWords(es), Types(Cols(es)), JoinUpTo(Vars(Cols(es)), |es|) + slack)
  {
  }

  lemma {:induction false} KeyHeader(rtype: uint64, cols: seq<Col>)
    requires KeyFits(cols)
    ensures |KeyBlob(rtype, cols)| == 16 + 9 * |cols| + RoomBefore(cols, |cols|) && HeaderAt(KeyBlob(rtype, cols), rtype, |cols|)
  {
    hide KeyBlob, Head, Cells, Types, JoinUpTo, RoomBefore, HeaderAt, Record;
    var n := |cols|;
    RoomIs(cols, n);
    RecordHead(Head(rtype, n), Cells(cols, KeyBase(n)), Types(cols), JoinUpTo(Vars(cols), n));
    KeyBlobIs(rtype, cols);
    HeadIs(KeyBlob(rtype, cols), rtype, n);
  }

  lemma {:induction false} KeyColumn(rtype: uint64, cols: seq<Col>, i: nat)
    requires KeyFits(cols) && i < |cols|
    ensures var n := |cols|;
            ColumnAt(KeyBlob(rtype, cols), cols[i], 16 + 8 * i, 16 + 8 * n + i, 16 + 9 * n + RoomBefore(cols, i))
  {
    hide KeyBlob, RoomBefore, ColumnAt, Stores, StoresCol;
    KeyBlobStores(rtype, cols);
    StoresAt(KeyBlob(rtype, cols), KeyAreas(|cols|), cols, i);
    StoredAt(KeyBlob(rtype, cols), KeyAreas(|cols|), cols, i);
  }

  /** A key blob: the header, a word a column, a type code a column, and the strings and blobs. */
  lemma {:induction false} KeyWire(rtype: uint64, cols: seq<Col>, b: seq<byte>, n: nat)
    requires KeyFits(cols) && b == KeyBlob(rtype, cols) && n == |cols|
    ensures |b| == 16 + 9 * n + RoomBefore(cols, n) && HeaderAt(b, rtype, n)
    ensures forall i :: 0 <= i < n ==> ColumnAt(b, cols[i], 16 + 8 * i, 16 + 8 * n + i, 16 + 9 * n + RoomBefore(cols, i))
  {
    hide KeyBlob, RoomBefore, ColumnAt, HeaderAt, KeyFits;
    KeyHeader(rtype, cols);
    forall i | 0 <= i < n
      ensures ColumnAt(b, cols[i], 16 + 8 * i, 16 + 8 * n + i, 16 + 9 * n + RoomBefore(cols, i))
    {
      KeyColumn(rtype, cols, i);
    }
  }

  lemma {:induction false} StoresAt(b: seq<byte>, a: Areas, cols: seq<Col>, i: nat)
    requires Stores(b, a, cols) && i < |cols|
    ensures Within(b, a, |cols|) && StoresCol(b, a, cols, i)
  {
  }

  lemma {:induction false} ValHeader(rtype: uint64, es: seq<Entry>, slack: seq<byte>)
    requires ValFits(es, |slack|)
    ensures |ValBlob(rtype, es, slack)| == 16 + 17 * |es| + RoomBefore(Cols(es), |es|) + |slack|
    ensures HeaderAt(ValBlob(rtype, es, slack), rtype, |es|)
  {
    hide ValBlob, Head, ValWords, Types, JoinUpTo, RoomBefore, HeaderAt, Record;
    var n := |es|;
    RoomIs(Cols(es), n);
    RecordHead(Head(rtype, n), ValWords(es), Types(Cols(es)), JoinUpTo(Vars(Cols(es)), n) + slack);
    ValBlobIs(rtype, es, slack);
    HeadIs(ValBlob(rtype, es, slack), rtype, n);
  }

  lemma {:induction false} ValColumn(rtype: uint64, es: seq<Entry>, slack: seq<byte>, i: nat)
    requires ValFits(es, |slack|) && i < |es|
    ensures var n := |es|;
            ColumnAt(ValBlob(rtype, es, slack), es[i].col, 16 + 8 * n + 8 * i, 16 + 16 * n + i, 16 + 17 * n + RoomBefore(Cols(es), i))
  {
    hide ValBlob, RoomBefore, ColumnAt, Stores, StoresCol;
    ValBlobStores(rtype, es, slack);
    StoresAt(ValBlob(rtype, es, slack), ValAreas(|es|), Cols(es), i);
    StoredAt(ValBlob(rtype, es, slack), ValAreas(|es|), Cols(es), i);
  }

  /** The id of entry `i` is at its place. */
  predicate IdPlaced(b: seq<byte>, id: int64, at: nat)
  {
    at + 8 <= |b| && BigEnd(b, at, 8) == if id < 0 then id + 0x1_0000_0000_0000_0000 else id
  }

  /** A value blob: the header, an id and then a word an entry, the type codes, the strings and blobs,
      and the slack. */
  lemma {:induction false} ValWire(rtype: uint64, es: seq<Entry>, slack: seq<byte>, b: seq<byte>, n: nat)
    requires ValFits(es, |slack|) && b == ValBlob(rtype, es, slack) && n == |es|
    ensures |b| == 16 + 17 * n + RoomBefore(Cols(es), n) + |slack| && HeaderAt(b, rtype, n)
    ensures forall i :: 0 <= i < n ==> IdPlaced(b, es[i].id, 16 + 8 * i)
    ensures forall i :: 0 <= i < n ==>
              ColumnAt(b, es[i].col, 16 + 8 * n + 8 * i, 16 + 16 * n + i, 16 + 17 * n + RoomBefore(Cols(es), i))
  {
    hide ValBlob, RoomBefore, ColumnAt, HeaderAt, ValFits, HasIds, BigEnd, Cols;
    ValHeader(rtype, es, slack);
    ValBlobHasIds(rtype, es, slack);
    forall i | 0 <= i < n
      ensures ColumnAt(b, es[i].col, 16 + 8 * n + 8 * i, 16 + 16 * n + i, 16 + 17 * n + RoomBefore(Cols(es), i))
      ensures IdPlaced(b, es[i].id, 16 + 8 * i)
    {
      ValColumn(rtype, es, slack, i);
      IdAt(b, es, i);
    }
  }

  lemma {:induction false} IdAt(b: seq<byte>, es: seq<Entry>, i: nat)
    requires HasIds(b, es) && i < |es|
    ensures 16 + 8 * i + 8 <= |b|
    ensures BigEnd(b, 16 + 8 * i, 8) == if es[i].id < 0 then es[i].id + 0x1_0000_0000_0000_0000 else es[i].id
  {
    hide BigEnd, BigEndian64, ReadBigEndian64;
    BigEndOf8(b, 16 + 8 * i);
    BigEndian64RoundTrip(ToUnsigned64(es[i].id));
  }

  // ---------- any bytes ----------

  /** What validation demands of field `i` of any bytes: a known code, and a string or blob that lies
      between `vars` and the end, the string with its NUL. */
  lemma {:induction false} FieldOkIs(b: seq<byte>, a: Areas, n: nat, i: nat)
    requires Within(b, a, n) && i < n
    ensures var code, w := b[a.types + i], BigEnd(b, a.storage + 8 * i, 8);
            var at, len := w / 0x1_0000_0000, w % 0x1_0000_0000;
            FieldOk(b, a, n, i) <==>
            || code <= 3
            || (code == 4 && a.vars <= at && at + len < |b| && b[at + len] == 0)
            || (code == 5 && a.vars <= at && at + len <= |b|)
  {
    hide BigEnd, ReadBigEndian64;
    BigEndOf8(b, a.storage + 8 * i);
  }

  /** What a get shows of field `i` of any bytes that pass it. */
  lemma {:induction false} GetColumnIs(b: seq<byte>, a: Areas, n: nat, i: nat)
    requires Within(b, a, n) && i < n && FieldOk(b, a, n, i)
    ensures var code, w := b[a.types + i], BigEnd(b, a.storage + 8 * i, 8);
            var at, len := w / 0x1_0000_0000, w % 0x1_0000_0000;
            && w < 0x1_0000_0000_0000_0000 && (code >= 4 ==> at + len <= |b|)
            && GetColumn(b, a, n, i) == Done(
                 if code == 0 then ResultInt(if w != 0 then 1 else 0)
                 else if code <= 2 then ResultInt(if w < 0x8000_0000_0000_0000 then w else w - 0x1_0000_0000_0000_0000)
                 else if code == 3 then ResultDouble(b[a.storage + 8 * i..a.storage + 8 * i + 8])
                 else if code == 4 then ResultText(b[at..at + len])
                 else ResultBlob(b[at..at + len]))
  {
    hide BigEnd, ReadBigEndian64;
    BigEndOf8(b, a.storage + 8 * i);
  }

  /** The columns counted in the header of any bytes. */
  function CountIn(b: seq<byte>): nat
  {
    if |b| >= 16 then BigEnd(b, 12, 4) else 0
  }

  predicate HasMagic(b: seq<byte>)
  {
    |b| >= 16 && b[8..12] == [0x52, 0x4d, 0x30, 0x30]
  }

  lemma {:induction false} MagicSize(b: seq<byte>)
    ensures HasMagic(b) ==> |b| >= 16
  {
  }

  lemma {:induction false} ReadHeaderIs(b: seq<byte>)
    ensures (ReadHeader(b).magic == MAGIC <==> HasMagic(b)) && ReadHeader(b).count == CountIn(b)
  {
    hide BigEnd, ReadBigEndian32, ReadBigEndian64;
    if |b| >= 16 {
      MagicOnly(b[8..12]);
      BigEndOf4(b, 12);
    }
  }

  /** Each of the `n` fields is in order. */
  predicate EveryField(b: seq<byte>, a: Areas, n: nat)
    requires Within(b, a, n)
  {
    forall i :: 0 <= i < n ==> FieldOk(b, a, n, i)
  }

  lemma {:induction false} EveryFieldIs(b: seq<byte>, a: Areas, n: nat)
    requires Within(b, a, n)
    ensures FieldsOk(b, a, n) <==> EveryField(b, a, n)
  {
  }

  /** What every use of a key blob checks: the magic number, room for its columns, and every field. */
  predicate KeySound(b: seq<byte>)
  {
    var n := CountIn(b);
    HasMagic(b) && 16 + 9 * n <= |b| && EveryField(b, Areas(16, 16 + 8 * n, 16 + 9 * n), n)
  }

  lemma {:induction false} KeyCheckedIs(b: seq<byte>)
    requires |b| < 0x1_0000_0000
    ensures HasMagic(b) && KeyChecked(b).Done? <==> KeySound(b)
    ensures KeyChecked(b) == Aborted <==> 16 + 9 * CountIn(b) >= 0x1_0000_0000
    ensures KeySound(b) ==> KeyChecked(b).value.rtype == BigEnd(b, 0, 8)
  {
    hide FieldsOk, EveryField, CountIn, HasMagic, BigEnd, ReadBigEndian64, ReadBigEndian32;
    MagicSize(b);
    ReadHeaderIs(b);
    var n := CountIn(b);
    assert KeyAreas(n) == Areas(16, 16 + 8 * n, 16 + 9 * n);
    if |b| >= 16 {
      BigEndOf8(b, 0);
      if 16 + 9 * n <= |b| {
        EveryFieldIs(b, KeyAreas(n), n);
      }
    }
  }

  /** `bgetkey` on any arguments: a blob and an index; refused without that column or unless the blob is
      sound, and then the column. */
  lemma {:induction false} GetKeyAny(args: seq<SqlValue>, b: seq<byte>, n: nat)
    requires |args| == 2 && args[0].kind == BlobKind && args[1].kind == IntegerKind ==> b == args[0].bytes && |b| < 0x1_0000_0000 && n == CountIn(b)
    ensures !(|args| == 2 && args[0].kind == BlobKind && args[1].kind == IntegerKind) ==> GetKey(args) == Error
    ensures |args| == 2 && args[0].kind == BlobKind && args[1].kind == IntegerKind ==>
              var i := args[1].asInt;
              GetKey(args) ==
              if !HasMagic(b) || i < 0 || i >= n then Error
              else if 16 + 9 * n >= 0x1_0000_0000 then Aborted
              else if !KeySound(b) then Error
              else GetColumn(b, Areas(16, 16 + 8 * n, 16 + 9 * n), n, i)
  {
    hide FieldOk, GetColumn, ReadHeader, CountIn, HasMagic, KeyChecked;
    if |args| == 2 && args[0].kind == BlobKind && args[1].kind == IntegerKind {
      ReadHeaderIs(b);
      KeyCheckedIs(b);
    }
  }

  /** The number a type query shows is the record type in two's complement. */
  predicate ShowsType(r: Outcome<SqlResult>, b: seq<byte>)
    requires |b| >= 8
  {
    r.Done? && r.value.ResultInt? && r.value.i % 0x1_0000_0000_0000_0000 == BigEnd(b, 0, 8)
  }

  /** `bgetkey_type` on any arguments. */
  lemma {:induction false} GetKeyTypeAny(args: seq<SqlValue>, b: seq<byte>)
    requires |args| == 1 && args[0].kind == BlobKind ==> b == args[0].bytes && |b| < 0x1_0000_0000
    ensures !(|args| == 1 && args[0].kind == BlobKind) ==> GetKeyType(args) == Error
    ensures |args| == 1 && args[0].kind == BlobKind ==>
              if !HasMagic(b) then GetKeyType(args) == Error
              else if 16 + 9 * CountIn(b) >= 0x1_0000_0000 then GetKeyType(args) == Aborted
              else if !KeySound(b) then GetKeyType(args) == Error
              else ShowsType(GetKeyType(args), b)
  {
    hide FieldOk, ReadHeader, CountIn, KeyChecked, BigEnd;
    if |args| == 1 && args[0].kind == BlobKind {
      ReadHeaderIs(b);
      KeyCheckedIs(b);
      SameHeader(b);
    }
  }

  lemma {:induction false} SameHeader(b: seq<byte>)
    ensures KeyChecked(b).Done? ==> KeyChecked(b).value == ReadHeader(b)
    ensures ValChecked(b).Done? ==> ValChecked(b).value == ReadHeader(b)
  {
  }

  /** `bupdatekey` on any arguments: refused unless there are pairs behind a sound blob. */
  lemma {:induction false} UpdateKeyRefuses(args: seq<SqlValue>, rtype: uint64, cols: seq<Col>)
    requires |args| < 3 || |args| % 2 == 0 || args[0].kind != BlobKind || !HasMagic(args[0].bytes)
    ensures KU.UpdateKey(args, rtype, cols) == Error
  {
    hide ReadHeader, HasMagic, KU.Updates, KeyChecked;
    if |args| > 0 {
      ReadHeaderIs(args[0].bytes);
    }
  }

  /** The id stored in place `i` of any bytes. */
  function IdIn(b: seq<byte>, i: nat): int
    requires 16 + 8 * i + 8 <= |b|
  {
    var w := BigEnd(b, 16 + 8 * i, 8);
    if w < 0x8000_0000_0000_0000 then w else w - 0x1_0000_0000_0000_0000
  }

  /** What every use of a value blob checks. */
  predicate ValSound(b: seq<byte>)
  {
    var n := CountIn(b);
    HasMagic(b) && 16 + 17 * n <= |b| && EveryField(b, Areas(16 + 8 * n, 16 + 16 * n, 16 + 17 * n), n)
  }

  lemma {:induction false} ValCheckedIs(b: seq<byte>)
    requires |b| < 0x8000_0000
    ensures HasMagic(b) && ValChecked(b).Done? <==> ValSound(b)
    ensures ValChecked(b) == Aborted <==> 16 + 17 * CountIn(b) >= 0x8000_0000
    ensures ValSound(b) ==> ValChecked(b).value.rtype == BigEnd(b, 0, 8)
  {
    hide FieldsOk, EveryField, CountIn, HasMagic, BigEnd, ReadBigEndian64, ReadBigEndian32;
    MagicSize(b);
    ReadHeaderIs(b);
    var n := CountIn(b);
    assert ValAreas(n) == Areas(16 + 8 * n, 16 + 16 * n, 16 + 17 * n);
    if |b| >= 16 {
      BigEndOf8(b, 0);
      if 16 + 17 * n <= |b| {
        EveryFieldIs(b, ValAreas(n), n);
      }
    }
  }

  /** `bgetval` on any arguments: a blob and an id; refused unless the blob is sound, and then the first
      column with that id, or null. */
  lemma {:induction false} GetValAny(args: seq<SqlValue>, b: seq<byte>, n: nat, i: nat)
    requires |args| == 2 && args[0].kind == BlobKind && args[1].kind == IntegerKind ==> b == args[0].bytes && |b| < 0x8000_0000 && n == CountIn(b)
    requires |args| == 2 && 16 + 17 * n <= |b| ==>
               i <= n && (i < n ==> IdIn(b, i) == args[1].asInt) && forall j :: 0 <= j < i ==> IdIn(b, j) != args[1].asInt
    ensures !(|args| == 2 && args[0].kind == BlobKind && args[1].kind == IntegerKind) ==> GetVal(args) == Error
    ensures |args| == 2 && args[0].kind == BlobKind && args[1].kind == IntegerKind ==>
              GetVal(args) ==
              if !HasMagic(b) then Error
              else if 16 + 17 * n >= 0x8000_0000 then Aborted
              else if !ValSound(b) then Error
              else if i == n then Done(ResultNull)
              else GetColumn(b, Areas(16 + 8 * n, 16 + 16 * n, 16 + 17 * n), n, i)
  {
    hide FieldOk, GetColumn, ReadHeader, CountIn, HasMagic, IdIn, StoredId, FirstStored, ValChecked;
    if |args| == 2 && args[0].kind == BlobKind && args[1].kind == IntegerKind {
      ReadHeaderIs(b);
      ValCheckedIs(b);
      SameHeader(b);
      if 16 + 17 * n <= |b| {
        forall j | 0 <= j < n
          ensures StoredId(b, j) == IdIn(b, j)
        {
          StoredIdIs(b, j);
        }
      }
    }
  }

  /** `bgetval_type` on any arguments. */
  lemma {:induction false} GetValTypeAny(args: seq<SqlValue>, b: seq<byte>)
    requires |args| == 1 && args[0].kind == BlobKind ==> b == args[0].bytes && |b| < 0x8000_0000
    ensures !(|args| == 1 && args[0].kind == BlobKind) ==> GetValType(args) == Error
    ensures |args| == 1 && args[0].kind == BlobKind ==>
              if !HasMagic(b) then GetValType(args) == Error
              else if 16 + 17 * CountIn(b) >= 0x8000_0000 then GetValType(args) == Aborted
              else if !ValSound(b) then GetValType(args) == Error
              else ShowsType(GetValType(args), b)
  {
    hide FieldOk, ReadHeader, CountIn, ValChecked, BigEnd;
    if |args| == 1 && args[0].kind == BlobKind {
      ReadHeaderIs(b);
      ValCheckedIs(b);
      SameHeader(b);
    }
  }

  /** `bupdateval` on any arguments: refused unless there are triples behind a blob. */
  lemma {:induction false} UpdateValRefuses(args: seq<SqlValue>, rtype: uint64, es: seq<Entry>, slack: nat, out: Outcome<seq<byte>>)
    requires |args| < 4 || |args| % 3 != 1 || args[0].kind != BlobKind || !HasMagic(args[0].bytes)
    requires UpdatesVal(args, rtype, es, slack, out)
    ensures out == Error
  {
    hide ReadHeader, HasMagic, Updated, ValChecked, ValFits, ValBlob;
    if |args| > 0 {
      ReadHeaderIs(args[0].bytes);
    }
  }

  lemma {:induction false} StoredIdIs(b: seq<byte>, j: nat)
    requires 16 + 8 * j + 8 <= |b|
    ensures StoredId(b, j) == IdIn(b, j)
  {
    hide BigEnd, ReadBigEndian64;
    BigEndOf8(b, 16 + 8 * j);
  }

  // ---------- sizes ----------

  /** The entries that specifications leave, and the variable space they take. */
  function GivenCount(args: seq<SqlValue>, n: nat): (k: nat)
    requires 3 * n < |args|
  {
    if n == 0 then 0 else GivenCount(args, n - 1) + (if GivenValue(args, n - 1).kind == NullKind then 0 else 1)
  }

  function GivenRoom(args: seq<SqlValue>, n: nat): (k: nat)
    requires 3 * n < |args|
  {
    if n == 0 then 0
    else GivenRoom(args, n - 1) +
         (if GivenValue(args, n - 1).kind == NullKind then 0 else Room(GivenValue(args, n - 1), GivenType(args, n - 1)))
  }

  lemma {:induction false} SizesAre(args: seq<SqlValue>, n: nat)
    requires 3 * n < |args| && SpecsFit(args, n)
    ensures |SetEntries(args, n)| == GivenCount(args, n) && VarSize(Cols(SetEntries(args, n))) == GivenRoom(args, n)
  {
    hide VarSize, Cols, SetEntries, Compatible, TypeGiven, Room;
    if n == 0 {
      NoEntries(args);
    } else {
      SetEntriesSize(args, n - 1);
      SizesAre(args, n - 1);
      SpecIs(args, n - 1);
      if Sets(args, n - 1) {
        StoredIs(args[3 * n - 1], TypeArg(args, n - 1));
        assert SetSize(args, n - 1) == ArgVarSize(args[3 * n - 1], TypeArg(args, n - 1));
      }
    }
  }

  lemma {:induction false} NoEntries(args: seq<SqlValue>)
    requires |args| > 0
    ensures SetEntries(args, 0) == [] && VarSize(Cols([])) == 0
  {
  }

  /** `bcreateval` fails its size contract exactly at 2^31 bytes. */
  lemma {:induction false} CreateValSize(args: seq<SqlValue>, n: nat)
    requires ValArgs(args) && n == |args| / 3
    ensures CreateVal(args) == Aborted <==> 16 + 17 * GivenCount(args, n) + GivenRoom(args, n) >= 0x8000_0000
    ensures CreateVal(args).Done? ==> |CreateVal(args).value| == 16 + 17 * GivenCount(args, n) + GivenRoom(args, n)
  {
    hide VarSize, Cols, SetEntries, Compatible, SpecOk, ValArg, SpecsFit;
    ValArgsAre(args);
    ArgsFit(args);
    assert (|args| - 1) / 3 == n;
    SizesAre(args, n);
  }
}
