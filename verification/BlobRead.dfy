/** Reading key and value blobs: the header, the validation of every stored field, and the
    value of one column, for any byte string. */
module BlobRead {
  import opened Bytes
  import opened BlobLayout

  datatype Header = Header(magic: uint32, count: uint32, rtype: uint64)

  /** `cql_read_blob_header`. */
  function ReadHeader(b: seq<byte>): Header
  {
    if |b| < HEADER_SIZE then Header(0, 0, 0)
    else Header(ReadBigEndian32(b[8..12]), ReadBigEndian32(b[12..16]), ReadBigEndian64(b[..8]))
  }

  lemma {:induction false} HeaderOfRecord(rtype: uint64, count: uint32, ws: seq<Word>, types: seq<byte>, tail: seq<byte>)
    ensures ReadHeader(Record(Head(rtype, count), ws, types, tail)) == Header(MAGIC, count, rtype)
  {
    var r := Record(Head(rtype, count), ws, types, tail);
    hide BigEndian64, BigEndian32, ReadBigEndian64, ReadBigEndian32;
    BigEndian64RoundTrip(rtype);
    BigEndian32RoundTrip(MAGIC);
    BigEndian32RoundTrip(count);
    assert r[..16] == Head(rtype, count);
    assert r[..8] == r[..16][..8] && r[8..12] == r[..16][8..12] && r[12..16] == r[..16][12..16];
  }

  /** Where the storage words, the type bytes and the variable area begin. */
  datatype Areas = Areas(storage: nat, types: nat, vars: nat)

  /** The areas of `n` columns are in order and inside `b`. */
  predicate Within(b: seq<byte>, a: Areas, n: nat)
  {
    a.storage + 8 * n <= a.types && a.types + n <= a.vars <= |b|
  }

  function StorageWord(b: seq<byte>, a: Areas, i: nat): Word
    requires a.storage + 8 * i + 8 <= |b|
  {
    b[a.storage + 8 * i..a.storage + 8 * i + 8]
  }

  /** The test of one stored field: a known type, and variable data inside the variable area. */
  predicate FieldOk(b: seq<byte>, a: Areas, n: nat, i: nat)
    requires Within(b, a, n) && i < n
  {
    var ty := b[a.types + i];
    var w := StorageWord(b, a, i);
    if ty <= TYPE_FLOAT then true
    else if ty == TYPE_STRING then
      a.vars <= InfoOffset(w) && InfoOffset(w) + InfoLen(w) + 1 <= |b| && b[InfoOffset(w) + InfoLen(w)] == 0
    else
      ty == TYPE_BLOB && a.vars <= InfoOffset(w) && InfoOffset(w) + InfoLen(w) <= |b|
  }

  predicate FieldsOk(b: seq<byte>, a: Areas, n: nat)
    requires Within(b, a, n)
  {
    forall i :: 0 <= i < n ==> FieldOk(b, a, n, i)
  }

  /** `cql_validate_blob_variable_fields`. */
  method ValidateFields(b: seq<byte>, a: Areas, n: nat) returns (ok: bool)
    requires Within(b, a, n)
    ensures ok <==> FieldsOk(b, a, n)
  {
    var i := 0;
    while i < n
      invariant 0 <= i <= n
      invariant forall k :: 0 <= k < i ==> FieldOk(b, a, n, k)
    {
      if !FieldOk(b, a, n, i) {
        return false;
      }
      i := i + 1;
    }
    return true;
  }

  /** The value of column `i`; the bounds are checked once more before variable data is read. */
  function GetColumn(b: seq<byte>, a: Areas, n: nat, i: nat): (r: Outcome<SqlResult>)
    requires Within(b, a, n) && i < n
    ensures FieldOk(b, a, n, i) ==> r.Done?
  {
    var ty := b[a.types + i];
    var w := StorageWord(b, a, i);
    if ty == TYPE_BOOL then Done(ResultInt(if ReadBigEndian64(w) != 0 then 1 else 0))
    else if ty == TYPE_INT32 || ty == TYPE_INT64 then Done(ResultInt(ToSigned64(ReadBigEndian64(w))))
    else if ty == TYPE_FLOAT then Done(ResultDouble(w))
    else if ty == TYPE_STRING || ty == TYPE_BLOB then
      var offset, len := InfoOffset(w), InfoLen(w);
      if offset + len > |b| then Error
      else if ty == TYPE_STRING then Done(ResultText(b[offset..offset + len]))
      else Done(ResultBlob(b[offset..offset + len]))
    else Error
  }

  // ---------- blobs that store columns in order ----------

  function VarOffset(cols: seq<Col>, base: nat, i: nat): nat
    requires i <= |cols|
  {
    base + |JoinUpTo(Vars(cols), i)|
  }

  /** Column `i` of `cols` is stored in `b`, its variable bytes after those of the columns before it. */
  predicate StoresCol(b: seq<byte>, a: Areas, cols: seq<Col>, i: nat)
    requires Within(b, a, |cols|) && i < |cols|
  {
    var at := VarOffset(cols, a.vars, i);
    && |b| < LIMIT
    && at + |VarBytes(cols[i])| <= |b|
    && b[a.types + i] == TypeCode(cols[i])
    && VarLen(cols[i]) < LIMIT && StorageWord(b, a, i) == WordOf(cols[i], at)
    && b[at..at + |VarBytes(cols[i])|] == VarBytes(cols[i])
  }

  predicate Stores(b: seq<byte>, a: Areas, cols: seq<Col>)
  {
    Within(b, a, |cols|) && forall i :: 0 <= i < |cols| ==> StoresCol(b, a, cols, i)
  }

  /** A stored column passes validation and is read back. */
  lemma {:induction false} ReadStored(b: seq<byte>, a: Areas, cols: seq<Col>, i: nat)
    requires Within(b, a, |cols|) && i < |cols| && StoresCol(b, a, cols, i)
    ensures FieldOk(b, a, |cols|, i)
    ensures GetColumn(b, a, |cols|, i) == Done(Result(cols[i]))
  {
    var at := VarOffset(cols, a.vars, i);
    var c := cols[i];
    hide BigEndian64, ReadBigEndian64, JoinUpTo;
    match c
    case BoolCol(v) => BigEndian64RoundTrip(if v then 1 else 0);
    case Int32Col(v) => BigEndian64RoundTrip(ToUnsigned64(v));
    case Int64Col(v) => BigEndian64RoundTrip(ToUnsigned64(v));
    case FloatCol(_) =>
    case StringCol(s) =>
      InfoRoundTrip(at, |s|);
      assert b[at..at + |s| + 1] == s + [0];
      assert b[at + |s|] == (s + [0])[|s|];
      assert b[at..at + |s|] == b[at..at + |s| + 1][..|s|];
    case BlobCol(s) =>
      InfoRoundTrip(at, |s|);
  }

  lemma {:induction false} StoredFieldsOk(b: seq<byte>, a: Areas, cols: seq<Col>)
    requires Stores(b, a, cols)
    ensures FieldsOk(b, a, |cols|)
  {
    forall i | 0 <= i < |cols|
      ensures FieldOk(b, a, |cols|, i)
    {
      assert StoresCol(b, a, cols, i);
      ReadStored(b, a, cols, i);
    }
  }
}
