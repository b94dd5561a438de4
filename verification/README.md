# A verified model of the CQL runtime

CQL compiles stored procedures to C; its runtime (`release/cqlrt_common.c` over
`release/cqlrt.c`) does the work that generated code shares. This project models the parts of
that runtime where bytes, offsets, ownership and identity interact, and the list surgery of the
macro expander (`sources/ast.c`), and proves what they promise.

- **Versioned row codec** (`Varint`, `BitVector`, `Row`, `RowCodec`, `RowEncoder`, `RowDecoder`,
  `BlobStream`, over `Bytes` and `ByteBuffer`). A row is written as type codes, a packed vector of
  null and bool flags, and a payload; a reader of another shape takes the common prefix, fills
  missing columns with null and ignores extra ones. The encoder keeps a raw pointer to the flag
  vector while later appends may move the buffer. The model keeps that: the flag vector is an
  array identity, a growth makes a new array, and a flag set afterwards goes to the abandoned one
  (in C, to freed memory). The round trip is therefore an equivalence with a condition that a
  caller can compute before encoding.
- **Key and value blobs** (`BlobLayout`, `BlobRead`, `BlobWrite`, `KeyBlobs`, `KeyUpdate`,
  `ValBlobs`, `ValUpdate`, `ValLaws`). Self-describing records with create, get, validate and the
  multi-pass in-place updates. Keys are canonical over every run; values are a finite map from
  field id to value, with the trailing slack that deletions leave.
- **Hash table and partitioner** (`HashTable`, `RowHash`, `Grouping`, `Partition`). Linear probing
  with rehashing refines a map up to key equality; the partitioner refines a group-by, hands its
  row buffers over to shared result sets, and gives back every reference.
- **Reference counting** (`RefCount`). Counts, the global counter, cascading release and its
  termination, leaks.
- **Formats** (`Numerals`, `WireFormat`, `BlobFormat`, `RowValues`). What is on the wire, which arguments are
  accepted, what a get shows, and what is hashed and compared, said with literal letters, places,
  digits and bits, and without the functions that write and read.
- **Smaller parts**: row and cursor equality, hashing and difference (`RowHash`), the statement
  splitter (`Splitter`), the growable buffer (`ByteBuffer`), macro splicing and tree cloning
  (`AstSplice`, `AstClone`).

Code that updates buffers, cursors, tables, counts or tree nodes in place is modelled by classes
and arrays; each method is proved against a function or predicate of the old state, and the laws
are lemmas about those. Unsigned shifts and masks are written as division and remainder; native
words are little-endian; a C double is eight opaque bytes except where `RowHash` compares two. An
outcome `Aborted` (or `None` in `RowHash`, `RefCount.Runtime.RowsetCopy` and
`Partition.Partition.Extract`) is a failed contract assertion. The 16-bit counters and bit indices
of the row codec are written with their wrap-around.

Where the source and its comments differ, the code is followed:

- The comment on `bupdatekey` describes its arguments as value then index; the code reads index
  then value.
- The buffer's comment promises at most 2N data operations for N bytes. That holds while every
  growth starts at or below the 1 MiB cap (`CopiedBelowTwiceUsed`); past the
  cap no constant factor bounds the copying (`CopiedExceedsPastCap`).
- A comment in `bupdateval` says new columns are not handled; the code adds them. It does not
  check new ids against each other (`TakesEffectIff`, `SecondValueLost`), and its duplicate check
  on stored ids, which marks a column's type code, does not see an update whose type code already
  carries the mark (`CountExactIff`, `MarkedSlipsThrough`). No such update is accepted from a call
  that names each id once (`DistinctIsUnmarked`).
- The decoder counts type codes in 16 bits. After 65535 acceptable codes the count is zero again
  and the next type is read past the shape (`ReadCodes`, `ManyCodes`).

## Model

| member | source | states |
|---|---|---|
| `Varint.VarintRoundTrip` | release/cqlrt_common.c:2673-2769 | Every 32- or 64-bit signed value, written as a zigzag varint in at most 5 or 10 bytes and followed by any bytes, is read back and leaves exactly those bytes |
| `Varint.WriteVarint` | release/cqlrt_common.c:2745-2769 | The byte-by-byte writer appends exactly the varint, and says when the allocation survives |
| `Varint.InputBuf.Read` | release/cqlrt_common.c:2626-2671 | All the bytes asked for or none; consumed and remaining bytes always make up the input |
| `Varint.InputBuf.ReadString` | release/cqlrt_common.c:2642-2656 | Succeeds exactly when a NUL remains, takes the bytes before it and consumes it |
| `Varint.InputBuf.ReadVarint` | release/cqlrt_common.c:2691-2743 | The reading loop agrees with the specification on every input, overlong and truncated ones included |
| `WireFormat.VarintWire` | release/cqlrt_common.c:2673-2769 | The written groups, low first and as few as possible, spell `(i << 1) ^ (i >> 31)`: the sign in bit 0, above it the bits of i, inverted if it is negative |
| `WireFormat.VarintRead` | release/cqlrt_common.c:2691-2743 | Any bytes: a marked group too many is refused, otherwise the digits up to the first unmarked one, cut to 32 or 64 bits, are the integer's |
| `BitVector.PackGet` | release/cqlrt_common.c:2617-2624 | Bit i of a packed flag list is flag i |
| `BitVector.PackSet` | release/cqlrt_common.c:2613-2615 | Setting bit i in place is packing with flag i raised, and stays within a byte |
| `ByteBuffer.ByteBuf.Alloc` | release/cqlrt_common.c:668-692 | As long as the new capacity fits 32 bits, earlier bytes keep their places; the allocation changes identity exactly when the request does not fit, to twice the capacity up to 1 MiB and by 200 KiB beyond, and the request |
| `ByteBuffer.ByteBuf.Append` | release/cqlrt_common.c:694-701 | Contents grow by exactly the data; an abandoned allocation is left as it was |
| `ByteBuffer.CopiedBelowTwiceUsed` | release/cqlrt_common.h:357-365 | Over every run whose growths start at or below the cap, the bytes copied by growth are below twice the bytes in use |
| `ByteBuffer.CopiedExceedsPastCap` | release/cqlrt_common.h:357-365 | For every factor there is a run past the cap that copies more than that many times the bytes in use |
| `RowCodec.AcceptsIsCompatible` | release/cqlrt_common.c:3113-3171 | The reader's check of type codes accepts a writer exactly when core types agree on the common prefix, the reader is nullable wherever the writer is, and columns only the reader has are nullable |
| `RowCodec.DecodeFromExact` | release/cqlrt_common.c:3180-3341 | From any column on, with payload, null index and bool index aligned, decoding yields the writer's values and then nulls if and only if every common column finds its own flags |
| `RowCodec.VersionedRoundTrip` | release/cqlrt_common.c:2776-2943 | For every writer row and compatible reader, decoding yields the common columns and nulls after them if and only if no common column past the live ones had a flag to set |
| `RowCodec.RoundTripIffCompatible` | release/cqlrt_common.c:3084-3341 | A complete encoding decodes to the projected row under a compatible shape and is refused under every other |
| `RowCodec.RoundTrip` | release/cqlrt_common.c:2776-2943 | Under the writer's own shape the row itself comes back |
| `WireFormat.RowWire` | release/cqlrt_common.c:2776-2943 | The letters I, L, D, F, S and B by case, the NUL, which bit of which byte each null and bool flag is, and where the data starts |
| `WireFormat.PayloadOne` | release/cqlrt_common.c:2826-2943 | The data of one column, kind by kind |
| `WireFormat.PayloadConcat` | release/cqlrt_common.c:2826-2943 | The data of a row is that of its columns in order |
| `WireFormat.RowRead` | release/cqlrt_common.c:3102-3180 | Any bytes: codes up to the first NUL, as many flag bytes as lower case and bool codes need, and the data; refused for a code not taken, a missing not-null column or missing flags |
| `WireFormat.CodeTaken` | release/cqlrt_common.c:3126-3160 | A column takes exactly its own letter and, if nullable, the lower case one |
| `WireFormat.TextRead` | release/cqlrt_common.c:3275-3284 | A string read from any data is what stands before the first NUL, and there must be one |
| `WireFormat.FixedRead` | release/cqlrt_common.c:3244-3275 | A double is eight bytes or refused, a bool is its flag |
| `WireFormat.NumberRead` | release/cqlrt_common.c:3212-3341 | Integers and blobs read from any data: a varint, and for a blob that many bytes, a negative or larger length refused |
| `RowEncoder.CursorToByteBuf` | release/cqlrt_common.c:2776-2943 | The encoder, with its stale flag pointer, appends the encoding in which exactly the columns written before the first growth have their flags |
| `RowEncoder.BufferRoundTrip` | release/cqlrt_common.c:2820-2943 | Through a buffer of any state, the row comes back under a compatible reader if and only if no common column sets a flag after the data has outgrown the buffer |
| `RowEncoder.BitLostAfterGrowth` | release/cqlrt_common.c:2820-2943 | A large blob before a nullable column: the row does not come back |
| `RowEncoder.CursorToBlob` | release/cqlrt_common.c:2951-2967 | The same encoding from a newly opened buffer; nothing for a cursor without a row |
| `RowDecoder.Cursor.FromBytes` | release/cqlrt_common.c:3084-3347 | For every byte string success is exactly the specified decoding, with every not-null column filled; failure leaves no row, no reference in any cell and none outstanding |
| `RowDecoder.DecodeFits` | release/cqlrt_common.c:3084-3341 | Whatever bytes decode, the row fits the reader's shape |
| `RowDecoder.Cursor.ReadCodes` | release/cqlrt_common.c:3102-3171 | For every input: the 16-bit scan reads a type past the shape exactly when 65536 codes come before any that is refused; otherwise it accepts exactly acceptable codes and counts them |
| `RowDecoder.ManyCodes` | release/cqlrt_common.c:3113-3135 | 65536 acceptable codes: the scan leaves the shape |
| `RowDecoder.EncodedReadable` | release/cqlrt_common.c:2776-2943 | Whatever the encoder may write, for every reader shape, keeps the decoder's scan in range and its bit indices from wrapping |
| `RowDecoder.Cursor.ReleaseRefs` | release/cqlrt_common.c:3067-3073 | Every reference is given back once and every reference cell is null |
| `BlobStream.MakeBlobStream` | release/cqlrt_common.c:2975-3011 | The three loops produce the count, the end offsets and the blobs in order |
| `BlobStream.CountOfStream` | release/cqlrt_common.c:3374-3384 | A stream reports the length of its list |
| `BlobStream.SelectOfStream` | release/cqlrt_common.c:3388-3440 | Index i selects exactly the bytes of blob i and every other index, negative ones included, is refused |
| `BlobStream.StreamThenSelect` | release/cqlrt_common.c:2975-3011 | Stream, select, decode equals decoding the blob itself |
| `BlobStream.CursorFromBlobStream` | release/cqlrt_common.c:3388-3440 | For every stream and index the cursor gets that decoding, or fails leaving no row and no reference |
| `WireFormat.StreamWire` | release/cqlrt_common.c:2975-3011 | The little-endian count and end offsets, and each blob at its place |
| `WireFormat.StreamRead` | release/cqlrt_common.c:3374-3440 | Counting and selecting in any bytes, by little-endian words |
| `BlobLayout.WriteWord` | release/cqlrt_common.c:5437-5441 | Overwriting eight bytes of the word area changes that word and no other byte |
| `BlobRead.ValidateFields` | release/cqlrt_common.c:5535-5588 | Accepts exactly the blobs whose every variable field lies inside and whose strings end in NUL |
| `BlobRead.ReadStored` | release/cqlrt_common.c:5751-5850 | A stored column of any type passes validation and is read back |
| `BlobWrite.PackedStores` | release/cqlrt_common.c:5600-5745 | Consecutive, disjoint variable segments store all columns, whatever slack follows |
| `KeyBlobs.BCreateKey` | release/cqlrt_common.c:5600-5745 | For every argument list: the canonical blob, an error, or a size contract failure |
| `KeyBlobs.BGetKey` | release/cqlrt_common.c:5751-5850 | For every argument list and every byte string, the specified answer |
| `KeyBlobs.GetOfKeyBlob` | release/cqlrt_common.c:5751-5895 | Column i of a key blob is read back, any other index is an error, and the record type is read back |
| `KeyBlobs.KeyBlobsEqualIff` | release/cqlrt_common.c:5600-5745 | Two key blobs are equal exactly when record type, column types and normalized values are |
| `BlobFormat.StoredIs` | release/cqlrt_common.c:6210-6260 | The exact kinds each type code takes, what a get shows of the stored value and the space it needs |
| `BlobFormat.CreateKeyThenGet` | release/cqlrt_common.c:5600-5850 | On arguments alone: create is refused exactly on arguments its type codes do not take, fails its size contract exactly at 2^31 bytes, and then each column shows its argument: 1 iff not zero for a bool, the integer, the double of a float or an integer, the bytes |
| `BlobFormat.UpdateKeyAccepts` | release/cqlrt_common.c:5902-6060 | An update is refused exactly unless every pair is the index of a column and a value its stored code takes, no index twice |
| `BlobFormat.UpdateKeyThenGet` | release/cqlrt_common.c:5902-6206 | After an update a named column shows its new value and every other what it did |
| `BlobFormat.UpdateKeySize` | release/cqlrt_common.c:5997-6036 | An accepted update fails its size contract exactly at 2^31 bytes |
| `BlobFormat.KeyWire` | release/cqlrt_common.c:5481-5533 | A key blob byte by byte: record type, RM00, count, big-endian words, type codes, strings with their NULs and blobs |
| `BlobFormat.FieldOkIs` | release/cqlrt_common.c:5535-5588 | Validation of any bytes, by type code and big-endian place and length |
| `BlobFormat.GetColumnIs` | release/cqlrt_common.c:5790-5850 | What a valid field of any bytes shows |
| `BlobFormat.GetKeyAny` | release/cqlrt_common.c:5751-5850 | `bgetkey` on any arguments and any bytes |
| `BlobFormat.GetKeyTypeAny` | release/cqlrt_common.c:5858-5895 | `bgetkey_type` on any arguments and any bytes |
| `KeyUpdate.BUpdateKey` | release/cqlrt_common.c:5902-6206 | The marking, noting and placing passes together produce the canonical blob of the updated columns, or refuse |
| `KeyUpdate.AcceptedIff` | release/cqlrt_common.c:5902-6060 | An update list is accepted exactly when every pair fits the stored types and no column is named twice |
| `KeyUpdate.OrderIrrelevant` | release/cqlrt_common.c:6087-6206 | Accepted lists with the same pairs in any order give the same columns |
| `KeyUpdate.CreateOfCols` | release/cqlrt_common.c:5600-5745 | Every fitting key has create arguments that make it |
| `KeyUpdate.RunIsCanonical` | release/cqlrt_common.c:6087-6093 | After any run of one create and any updates the blob is, byte for byte, what create makes of the current values |
| `KeyUpdate.RunKey` | release/cqlrt_common.c:5600-6206 | Calling create and then update after update produces exactly the blob of the run |
| `ValBlobs.BCreateVal` | release/cqlrt_common.c:6315-6491 | For every argument list: the blob of the entries that are not null, an error, or a size contract failure |
| `ValBlobs.BGetVal` | release/cqlrt_common.c:6497-6614 | For every argument list and every byte string, the specified answer |
| `ValBlobs.GetOfValBlob` | release/cqlrt_common.c:6497-6655 | Getting any id is looking it up in the entries, null when absent; slack is invisible; the record type is read back |
| `ValUpdate.Books` | release/cqlrt_common.c:6720-6863 | The first pass's running count and size are those of the new entries, and what deleted columns occupied is left over |
| `ValUpdate.BUpdateVal` | release/cqlrt_common.c:6667-7031 | The three passes write exactly the new entries inside their areas, with trailing slack equal to the old slack plus the sizes of deleted columns, or refuse; for every list but those that get a marked type code accepted |
| `ValUpdate.CopyClean` | release/cqlrt_common.c:6948-7012 | Every column no update named is copied, after the new ones, to its new place |
| `ValLaws.UnnamedKeeps` | release/cqlrt_common.c:6667-7031 | An id no update names keeps its value |
| `ValLaws.TakesEffectIff` | release/cqlrt_common.c:6762-6785 | An accepted list takes effect for every id it names if and only if it gives no id two values |
| `ValLaws.SecondValueLost` | release/cqlrt_common.c:6762-6785 | Of two values given to one new id the second is lost |
| `ValLaws.CountExactIff` | release/cqlrt_common.c:6720-6863 | The header count of an accepted update equals the columns written if and only if no update of a stored id carries a marked type code |
| `ValLaws.MarkedSlipsThrough` | release/cqlrt_common.c:6795-6804 | An accepted call that sets one stored id to null twice: two columns leave the count and one leaves the blob |
| `ValLaws.DistinctIsUnmarked` | release/cqlrt_common.c:6795-6804 | An accepted call that names each id once carries no marked type code |
| `ValLaws.RunIsMap` | release/cqlrt_common.c:6315-7031 | Over every run in which no call names an id twice, ids stay distinct and each id holds what the last call to name it gave, null included |
| `ValLaws.RunGets` | release/cqlrt_common.c:6497-7031 | In bytes: a get on any blob such a run may leave, whatever is in its slack, returns what the last call to name the id gave, and the record type is the created one |
| `ValLaws.RunVal` | release/cqlrt_common.c:6315-7031 | Calling create and then update after update leaves one of those blobs, and an error means an unacceptable call |
| `ValLaws.GetAfterUpdate` | release/cqlrt_common.c:6497-7031 | On blobs: a get after a successful update returns the new value, null for an id set to null, the old answer otherwise, and the record type is unchanged |
| `BlobFormat.CreateValAccepts` | release/cqlrt_common.c:6315-6375 | Create is refused exactly unless every id and type is an integer and every value is null or taken by its code |
| `BlobFormat.CreateValSize` | release/cqlrt_common.c:6377-6384 | It fails its size contract exactly at 2^31 bytes, nulls not counted |
| `BlobFormat.CreateValThenGet` | release/cqlrt_common.c:6315-6614 | With each id given once, a get shows what was given for it, null for a null and for any other id |
| `BlobFormat.UpdateValAccepts` | release/cqlrt_common.c:6736-6815 | With ids stored and given once, an update is refused exactly unless every id is an integer, its type is that of the stored entry with the id, and every value is null or taken by its code |
| `BlobFormat.UpdateValThenGet` | release/cqlrt_common.c:6667-7031 | After an update a get shows what was given for a named id and the old answer for any other |
| `BlobFormat.UpdateValSize` | release/cqlrt_common.c:6846-6863 | An accepted update fails its size contract exactly at 2^31 bytes, slack included |
| `BlobFormat.ValWire` | release/cqlrt_common.c:6287-6306 | A value blob byte by byte, with ids before the words and the slack at the end |
| `BlobFormat.GetValAny` | release/cqlrt_common.c:6497-6614 | `bgetval` on any arguments and any bytes: the first column with the id, or null |
| `BlobFormat.GetValTypeAny` | release/cqlrt_common.c:6621-6655 | `bgetval_type` on any arguments and any bytes |
| `HashTable.HashTab.Seek` | release/cqlrt_common.c:2426-2488 | The unbounded probe loop terminates because the table is not full, at an equal key or at the first empty slot |
| `HashTable.HashTab.Find` | release/cqlrt_common.c:2465-2488 | Finds the entry of an equal key, or there is none in the map |
| `HashTable.HashTab.Add` | release/cqlrt_common.c:2426-2461 | Adds exactly when no equal key is present; the map grows by that pair; at most three quarters of the slots are taken afterwards; a call inside a rehash cannot rehash again |
| `HashTable.HashTab.Rehash` | release/cqlrt_common.c:2360-2379 | Twice the capacity, the same map, the same keys and values, and every key and value retained as often as before |
| `HashTable.HashTab.Upsert` | release/cqlrt_common.c:2583-2603 | Afterwards every key equal to the given one finds the new value and every other key what it found before |
| `HashTable.HashTab.Delete` | release/cqlrt_common.c:2407-2421 | Every retained key and every retained value is released exactly once |
| `HashTable.EmptyEndsProbe` | release/cqlrt_common.c:2465-2488 | In every well-formed table an empty slot on a key's probe means that no equal key is stored anywhere |
| `HashTable.InsertKeepsTable` | release/cqlrt_common.c:2426-2461 | Filling the slot where a probe ended keeps every stored key reachable and all keys unequal |
| `HashTable.ProbeIs` | release/cqlrt_common.c:2431-2459 | Probing starts at the hash modulo the capacity and goes on by ones round the end |
| `HashTable.UpdateMaps` | release/cqlrt_common.c:2583-2603 | Changing one stored value is a map update up to key equality |
| `RowHash.HashBuffer` | release/cqlrt_common.c:1385-1420 | The hash loops compute the djb2 accumulator over bytes and references, failing exactly on an object reference |
| `RowValues.HashIs` | release/cqlrt_common.c:1385-1420 | The hash is `5381 * 33^n + sum of s[i] * 33^(n-1-i)` over the bytes, continued over the hashes of the references with 0 for null, modulo 2^64; the table uses its low 32 bits |
| `RowValues.OneByteChangesHash` | release/cqlrt_common.c:1403-1408 | Byte strings that differ in one place hash differently |
| `RowHash.CompareBuffers` | release/cqlrt_common.c:1444-1476 | True exactly for rows with the same meaning; a contract failure exactly at the first incomparable pair after an equal prefix |
| `RowHash.BuffersEqualIff` | release/cqlrt.c:236-261 | Row equality is equality of bytes and of what references stand for, whatever their addresses |
| `RowValues.EqualIs` | release/cqlrt.c:236-261 | Rows are equal exactly when their bytes are and each pair of references is null, strings of the same characters, blobs of the same bytes or one object |
| `RowValues.IncomparableIs` | release/cqlrt.c:236-261 | Comparing two references fails its contract exactly for different ones, neither null, that are not two strings and not two blobs |
| `RowValues.CursorsAre` | release/cqlrt_common.c:3019-3065 | The same for cursors, with sizes and presence; no row hashes to zero |
| `RowHash.EqualCursorsHashAlike` | release/cqlrt_common.c:3019-3065 | Cursors that compare equal hash equal, with or without rows |
| `RowHash.DiffIndex` | release/cqlrt_common.c:4753-4781 | -2 exactly when one row is missing, -1 exactly when all columns are equal, a contract failure exactly on different column counts or on different types after equal columns, otherwise the first differing column |
| `RowValues.NotNullColumns` | release/cqlrt_common.c:4668-4698 | A column is the same exactly by one byte of a bool, four of an int, eight of a long, IEEE 754 equality of doubles, or the contents of references |
| `RowValues.NullableColumns` | release/cqlrt_common.c:4700-4743 | A nullable column is the same exactly when both are null or both present with those bytes after `is_null` the same |
| `RowHash.NoDiffIff` | release/cqlrt_common.c:4616-4781 | For one layout with normalized nulls and equal padding, comparison by columns finds no difference exactly on rows that are the same up to the signs of zeros and hold no NaN |
| `RowHash.AgreeIff` | release/cqlrt_common.c:3039-3065 | For such rows comparison by bytes and comparison by columns agree if and only if the rows are not equal rows with a NaN, and not rows without NaNs that differ only in the signs of zeros |
| `RowHash.EqualIffNoDiff` | release/cqlrt_common.c:4616-4781 | In particular the two comparisons agree on all rows without NaNs and negative zeros, object columns included |
| `RowHash.ZerosDisagree` | release/cqlrt_common.c:4616-4743 | The two zeros: no difference by columns, unequal by bytes |
| `RowHash.NanDisagrees` | release/cqlrt_common.c:4616-4743 | A NaN: a difference by columns, equal by bytes |
| `RefCount.Runtime.Retain` | release/cqlrt.c:31-36 | One more owner; the counter stays the sum of all counts less one for each literal |
| `RefCount.Runtime.Release` | release/cqlrt.c:39-50 | One owner fewer through the whole cascade; only a count drops unless it was the last owner, and then the object is freed; it terminates because the sum of all counts drops; the counter never goes negative; each finalizer runs once |
| `RefCount.Runtime.Finalize` | release/cqlrt_common.c:1334-1382 | A teardown gives back each owned reference once and clears its slot, leaving other finalizers' objects alone |
| `RefCount.Runtime.New` | release/cqlrt.c:198-213 | A new object starts with count one and takes over the references put into it |
| `RefCount.Runtime.Declare` | release/cqlrt.h:192-202 | A literal starts with one reference that the counter does not include |
| `RefCount.Runtime.SetRef` | release/cqlrt_common.c:460-480 | Retain before release is safe even when source and target are the same object |
| `RefCount.Runtime.SetSlot` | release/cqlrt_common.c:460-480 | The same on a slot of a held object, which keeps its other slots |
| `RefCount.Runtime.RowsetCopy` | release/cqlrt_common.c:1602-1629 | The copy owns the references of exactly those rows; old objects change only in their counts, each by its occurrences in the copy; a range outside the rows is a contract failure |
| `RefCount.AliveIffOwned` | release/cqlrt.c:28-50 | In every reachable state an object is alive exactly as long as someone owns it, and its finalizer has run exactly when it is not |
| `RefCount.CountIsOwners` | release/cqlrt.c:28-50 | A count is the number of live objects' slots that refer to the object plus the references held outside |
| `RefCount.NothingLeftIff` | release/cqlrt.c:28-50 | Once only literal declarations are held outside, the counter is zero if and only if ownership has no cycle |
| `RefCount.CycleLeaks` | release/cqlrt.c:28-50 | Creating an object, storing it into its own slot and releasing it leaves it alive with no holder |
| `RefCount.BackToStart` | release/cqlrt.c:28-50 | Over any run of creations, retains and releases that ends with the references held outside as they were, in a heap without ownership cycles, every old object has its old count, every new one is freed, and the counter is back |
| `Grouping.GroupHas` | release/cqlrt_common.c:3584-3596 | A row is in a key's group exactly when it was added under an equal key |
| `Grouping.GroupConcat` | release/cqlrt_common.c:3597-3665 | The group of rows added after others is the others' group followed by theirs |
| `Partition.KeysCongruent` | release/cqlrt_common.c:3527-3556 | Key cursor equality is an equivalence that the key hash respects |
| `Partition.Partition.AddRow` | release/cqlrt_common.c:3597-3665 | Fails its contract exactly after extraction or on another shape, skips absent rows, otherwise adds the row to its key's group, retaining key and row references |
| `Partition.Partition.Extract` | release/cqlrt_common.c:3672-3757 | The result holds exactly the key's group in order; results recorded for any key stay recorded; the caller gets one reference |
| `Partition.RecordedOnce` | release/cqlrt_common.c:3690-3734 | No key has two result sets, so repeated extraction gives the same object |
| `Partition.SameResultIff` | release/cqlrt_common.c:3672-3757 | Two keys get the same object exactly when they are equal or both have no rows |
| `Partition.Partition.Share` | release/cqlrt_common.c:3706-3734 | The buffer's references move to a new result set held by entry and caller |
| `Partition.Partition.Finalize` | release/cqlrt_common.c:3456-3524 | With any mix of extracted and unextracted keys, everything the partition holds is given back once and every row buffer is freed |
| `Partition.WholeLife` | release/cqlrt_common.c:3442-3757 | For every list of rows and every list of keys to extract: each key gets its group in insertion order, objects are shared exactly as above, and after the partition and the results are gone, in whichever order, the references held are those from before; if ownership had no cycle, so is every object with its count and the global counter, and every object made in between is freed |
| `Splitter.SplitStatements` | release/cqlrt_common.c:5164-5235 | The scanner with its skipping of doubled quotes computes the pieces that plain quote parity defines |
| `Splitter.CutsComplete` | release/cqlrt_common.c:5186-5216 | The cuts are exactly the places past the start, not at a quote, where the word stands after an even number of single quotes |
| `Splitter.SplitLosesNothing` | release/cqlrt_common.c:5164-5235 | The pieces concatenate to the input without its leading spaces |
| `Splitter.StatementsStartAtCuts` | release/cqlrt_common.c:5201-5230 | Every piece but the first starts at a cut and ends at the next one |
| `AstSplice.ReplaceNode` | sources/ast.c:1850-1857 | The new node takes the old one's place under its parent, and nothing else changes there |
| `AstSplice.SpliceIntoList` | sources/ast.c:1928-1962 | The parent's elements become those of the new list followed by the old tail, every parent pointer right, for one-element lists and empty tails too; otherwise nothing changes |
| `AstClone.Clone` | sources/ast.c:1705-1729 | The clone is the same tree in new nodes with its own parent pointers; its root still names the original's parent; the original is unchanged |
| `AstClone.CopiesIff` | sources/ast.c:1705-1729 | A copy is a tree with the same types and texts in the same places |

## Left out

- ByteBuffer.ByteBuf.Alloc: requires that the new capacity fits 32 bits, which it does up to 2^31 - 1 bytes; the wrap beyond and a failed allocation are not modelled.
- RowEncoder.CursorToByteBuf: requires fewer than 2^16 columns and at most 2^16 flags, because counters and bit indices are 16 bits wide; writes through the stale pointer go to the abandoned array, where C leaves them undefined.
- RowDecoder.Cursor.FromBytes: requires fewer than 2^31 bytes, a scan that stays in range and bool flags below index 2^16; `ReadCodes` says exactly when the scan does not, and the C code is then undefined.
- BlobStream.CursorFromBlobStream: an index below the stored count must be below 2^29 - 2, because the bounds check overflows there; streams made here need no such condition.
- KeyUpdate.BUpdateKey: a blob that passes every check must be one that create or update made; the checks do not establish that variable data is disjoint.
- ValUpdate.BUpdateVal: the same, and an accepted list must carry no marked type code on a stored id; `CountExactIff` shows that its header count would be wrong.
- HashTable.HashTab.Rehash: the 32-bit wrap of the capacity is not modelled.
- Partition.Partition.AddRow: key cursors have at least one column, and comparing a stored key with a new one does not fail its type contract, as the caller's type checking ensures; rows are kept as values, not as bytes of the buffer.
- Partition.Partition.Extract: the same demand on the types of the key.
- RefCount.Runtime.SetSlot: the old reference is taken out of the slot before it is released, where the source clears it by the store after; nothing reads the slot in between.
- RefCount.Runtime.Release: an object is whatever owns references; the different finalizers are one loop over owned slots, and counts do not wrap.
- AstSplice.SpliceIntoList: node types other than the four list types and macro arguments are one kind.
- SQLite statements, binding and fetching; SQL values are taken as a datatype of what the accessors return.
- Result-set getters and setters, boxing, list and dictionary wrappers: many easy members of one kind.
- Cursor formatting, fragment decompression, autodrop and recreate-group execution.
- The CoreFoundation runtime and the `beta/` copies.
- The full macro expander, the parser, semantic analysis and code generation.
