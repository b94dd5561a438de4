/** Rows and row shapes, as the dynamic cursor metadata describes them. */
module Row {
  import opened Bytes

  datatype Core = IntCore | LongCore | RealCore | BoolCore | TextCore | BlobCore

  datatype ColType = ColType(core: Core, notNull: bool)

  type Shape = seq<ColType>

  /** One column of a row.  Text and blobs are references; the other values are stored inline. */
  datatype Value =
    | Null
    | Int(i: int32)
    | Long(l: int64)
    | Real(d: Double)
    | Flag(b: bool)
    | Text(s: seq<byte>)
    | Blob(bytes: seq<byte>)

  predicate IsRef(v: Value)
  {
    v.Text? || v.Blob?
  }

  predicate IsRefCore(c: Core)
  {
    c.TextCore? || c.BlobCore?
  }

  /** The values a column may hold: text has no NUL inside, blob sizes are 31-bit. */
  predicate FitsCol(t: ColType, v: Value)
  {
    match v
    case Null => !t.notNull
    case Int(_) => t.core.IntCore?
    case Long(_) => t.core.LongCore?
    case Real(_) => t.core.RealCore?
    case Flag(_) => t.core.BoolCore?
    case Text(s) => t.core.TextCore? && 0 !in s
    case Blob(s) => t.core.BlobCore? && |s| < 0x8000_0000
  }

  predicate Fits(shape: Shape, row: seq<Value>)
  {
    |shape| == |row| && forall i :: 0 <= i < |shape| ==> FitsCol(shape[i], row[i])
  }
}
