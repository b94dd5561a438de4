/** `cql_partition_cursor`, `cql_extract_partition` and the partition's finalizer: a group-by
    over the hash table, whose buffers of rows become shared result sets when extracted. */
module Partition {
  import opened Bytes
  import opened RowHash
  import opened Grouping
  import RefCount
  import HashTable

  datatype Shape = Shape(size: nat, refs: nat)

  function ShapeOf(b: Buffer): (s: Shape)
  {
    Shape(|b.prefix| + 8 * |b.refs|, |b.refs|)
  }

  /** Cursors of one shape have as many bytes and as many references; only an empty one has no size. */
  lemma {:induction false} ShapesAre(a: Buffer, b: Buffer)
    ensures ShapeOf(a) == ShapeOf(b) <==> |a.prefix| == |b.prefix| && |a.refs| == |b.refs|
    ensures ShapeOf(a).size == 0 <==> a.prefix == [] && a.refs == []
  {
  }

  datatype Outcome = Aborted | Skipped | Added

  lemma {:induction false} KeysCongruent()
    ensures HashTable.Congruent(KeyHash, KeyEqual)
  {
    forall a: Buffer, b: Buffer
      ensures KeyEqual(a, a) && (KeyEqual(a, b) ==> KeyEqual(b, a) && KeyHash(a) == KeyHash(b))
    {
      KeyEqualIff(a, a);
      KeyEqualIff(a, b);
      KeyEqualIff(b, a);
      if KeyEqual(a, b) {
        EqualKeysHashAlike(a, b);
      }
    }
    forall a: Buffer, b: Buffer, c: Buffer | KeyEqual(a, b) && KeyEqual(b, c)
      ensures KeyEqual(a, c)
    {
      KeyEqualIff(a, b);
      KeyEqualIff(b, c);
      KeyEqualIff(a, c);
    }
  }

  /** The references a row's retain needs are live. */
  ghost predicate RefsAlive(heap: seq<RefCount.Cell>, b: Buffer)
  {
    forall i :: 0 <= i < |b.refs| && !b.refs[i].Null? ==> RefCount.Alive(heap, b.refs[i].id)
  }

  /** The result set recorded for a key: its entry's, or the shared empty one. */
  ghost predicate Recorded(m: Entries, empty: Option<nat>, key: Buffer, o: nat)
  {
    (exists k :: k in m && SameMeaning(k, key) && m[k] == Shared(o)) || (!HasKey(m, key) && empty == Some(o))
  }

  /** No key has two result sets, so extracting a key again gives the same object. */
  lemma {:induction false} RecordedOnce(m: Entries, buffers: Buffers, sets: Buffers, added: seq<(Buffer, Buffer)>,
                                        empty: Option<nat>, key: Buffer, o: nat, o': nat)
    requires Grouped(m, buffers, sets, added) && Recorded(m, empty, key, o) && Recorded(m, empty, key, o')
    ensures o == o'
  {
    if HasKey(m, key) {
      var k :| k in m && SameMeaning(k, key) && m[k] == Shared(o);
      var k' :| k' in m && SameMeaning(k', key) && m[k'] == Shared(o');
      SameMeaningLaws(k', key, k);
      assert SameMeaning(k, k');
    }
  }

  /** The types of key cursors are checked ahead: no comparison or hash can fail its contract. */
  ghost predicate Comparable(m: Entries, key: Buffer)
  {
    BufferHash(key).Some? && forall k :: k in m && |k.refs| == |key.refs| ==> BuffersEqual(k, key).Some?
  }

  // ---------- what the entries and the ledger keep ----------

  /** The entries stand for the groups, their addresses are in use, the empty result is no
      entry's, and before any extraction every entry still has its buffer. */
  ghost predicate Content(m: Entries, buffers: Buffers, next: nat, sets: Buffers, empty: Option<nat>, extracted: bool,
                          added: seq<(Buffer, Buffer)>)
  {
    && Grouped(m, buffers, sets, added)
    && (forall b :: b in buffers ==> b < next)
    && (empty.Some? ==> empty.value in sets && sets[empty.value] == [] && forall k :: k in m ==> m[k] != Shared(empty.value))
    && (!extracted ==> forall k :: k in m ==> m[k].Rows?)
  }

  lemma {:induction false} ContentNew(m: Entries, buffers: Buffers, next: nat, sets: Buffers, empty: Option<nat>,
                                      added: seq<(Buffer, Buffer)>, key: Buffer)
    requires Content(m, buffers, next, sets, empty, false, added) && !HasKey(m, key)
    ensures Content(m[key := Rows(next)], buffers[next := []], next + 1, sets, empty, false, added)
  {
    hide Grouped;
    assert next !in buffers;
    NewGrouped(m, buffers, sets, added, key, next);
  }

  lemma {:induction false} ContentAppend(m: Entries, buffers: Buffers, next: nat, sets: Buffers, empty: Option<nat>,
                                         added: seq<(Buffer, Buffer)>, k: Buffer, b: nat, key: Buffer, row: Buffer)
    requires Content(m, buffers, next, sets, empty, false, added) && k in m && SameMeaning(k, key) && m[k] == Rows(b)
    requires b in buffers
    ensures Content(m, buffers[b := buffers[b] + [row]], next, sets, empty, false, added + [(key, row)])
  {
    hide Grouped, SameMeaning;
    AppendGrouped(m, buffers, sets, added, k, key, row);
  }

  lemma {:induction false} ContentShare(m: Entries, buffers: Buffers, next: nat, sets: Buffers, empty: Option<nat>,
                                        added: seq<(Buffer, Buffer)>, k: Buffer, b: nat, o: nat)
    requires Content(m, buffers, next, sets, empty, true, added) && k in m && m[k] == Rows(b) && b in buffers && o !in sets
    ensures Content(m[k := Shared(o)], buffers - {b}, next, sets[o := buffers[b]], empty, true, added)
  {
    hide Grouped;
    SharedGrouped(m, buffers, sets, added, k, o);
  }

  lemma {:induction false} ContentEmpty(m: Entries, buffers: Buffers, next: nat, sets: Buffers, added: seq<(Buffer, Buffer)>, o: nat)
    requires Content(m, buffers, next, sets, None, true, added) && o !in sets
    ensures Content(m, buffers, next, sets[o := []], Some(o), true, added)
  {
    forall k | k in m
      ensures m[k] != Shared(o) && RowsOf(m[k], buffers, sets[o := []]) == RowsOf(m[k], buffers, sets)
    {
      assert RowsOf(m[k], buffers, sets).Some?;
    }
  }

  /** An entry that still has its buffer has it among the live ones. */
  lemma {:induction false} BufferLive(m: Entries, buffers: Buffers, next: nat, sets: Buffers, empty: Option<nat>, extracted: bool,
                                      added: seq<(Buffer, Buffer)>, k: Buffer)
    requires Content(m, buffers, next, sets, empty, extracted, added) && k in m
    ensures m[k].Rows? ==> m[k].buf in buffers
    ensures m[k].Shared? ==> m[k].obj in sets
    ensures !extracted ==> m[k].Rows?
  {
    assert RowsOf(m[k], buffers, sets).Some?;
  }

  /** The references held for the entries and the empty result. */
  ghost function Ledger(order: seq<Buffer>, m: Entries, buffers: Buffers, empty: Option<nat>): (h: multiset<nat>)
    requires Lists(order, m)
  {
    Held(order, m, buffers, 0) + RefCount.One(empty)
  }

  lemma {:induction false} LedgerNew(order: seq<Buffer>, m: Entries, buffers: Buffers, empty: Option<nat>, key: Buffer, b: nat,
                                     m': Entries, buffers': Buffers)
    requires Lists(order, m) && key !in m && b !in buffers && (forall k :: k in m ==> m[k] != Rows(b))
    requires m' == m[key := Rows(b)] && buffers' == buffers[b := []]
    ensures Lists(order + [key], m')
    ensures Ledger(order + [key], m', buffers', empty) == Ledger(order, m, buffers, empty) + RefsOf(Ids(key.refs))
  {
    hide Ids, Held, RefsOf, RowSlots, ValRefs, Lists;
    ListsPush(order, m, key, b, m');
    OthersHoldTheSame(order, m, buffers, key, b, m', buffers');
    HeldSame(order, m, buffers, m', buffers', 0);
    HeldPush(order, m', buffers', key, 0);
    Swap(Held(order, m, buffers, 0), RefsOf(Ids(key.refs)), RefCount.One(empty));
  }

  lemma {:induction false} ListsPush(order: seq<Buffer>, m: Entries, key: Buffer, b: nat, m': Entries)
    requires Lists(order, m) && key !in m && m' == m[key := Rows(b)]
    ensures Lists(order + [key], m') && forall j :: 0 <= j < |order| ==> order[j] in m && order[j] in m'
  {
  }

  lemma {:induction false} OthersHoldTheSame(order: seq<Buffer>, m: Entries, buffers: Buffers, key: Buffer, b: nat,
                                             m': Entries, buffers': Buffers)
    requires key !in m && b !in buffers && (forall k :: k in m ==> m[k] != Rows(b))
    requires m' == m[key := Rows(b)] && buffers' == buffers[b := []]
    requires forall j :: 0 <= j < |order| ==> order[j] in m && order[j] in m'
    ensures forall j :: 0 <= j < |order| ==> ValRefs(m[order[j]], buffers) == ValRefs(m'[order[j]], buffers')
    ensures ValRefs(m'[key], buffers') == multiset{}
  {
    hide RefsOf, RowSlots;
    RowRefsNone(buffers'[b]);
  }

  lemma {:induction false} Swap(a: multiset<nat>, b: multiset<nat>, c: multiset<nat>)
    ensures (a + b + multiset{}) + c == (a + c) + b
  {
  }

  /** One entry's value changes: what is held besides that value stays. */
  lemma {:induction false} LedgerAround(order: seq<Buffer>, m: Entries, buffers: Buffers, empty: Option<nat>, k: Buffer, b: nat,
                                        m': Entries, buffers': Buffers) returns (rest: multiset<nat>)
    requires Lists(order, m) && k in m && m[k] == Rows(b) && m'.Keys == m.Keys
    requires forall k' :: k' in m && k' != k ==> m'[k'] == m[k'] && m[k'] != Rows(b)
    requires forall b' :: b' != b ==> (b' in buffers <==> b' in buffers')
    requires forall b' :: b' != b && b' in buffers ==> buffers'[b'] == buffers[b']
    ensures Lists(order, m')
    ensures Ledger(order, m, buffers, empty) == rest + ValRefs(m[k], buffers)
    ensures Ledger(order, m', buffers', empty) == rest + ValRefs(m'[k], buffers')
  {
    hide Ids, RefsOf, RowSlots, Held, ValRefs;
    assert k in order;
    var p :| 0 <= p < |order| && order[p] == k;
    var others := order[..p] + order[p + 1..];
    HeldRemove(order, m, buffers, 0, p);
    HeldRemove(order, m', buffers', 0, p);
    forall j | 0 <= j < |others|
      ensures others[j] in m && others[j] != k
    {
    }
    RestHoldsTheSame(others, m, buffers, k, b, m', buffers');
    HeldSame(others, m, buffers, m', buffers', 0);
    var keyRefs, held := RefsOf(Ids(k.refs)), Held(others, m, buffers, 0);
    rest := keyRefs + held + RefCount.One(empty);
    Rearrange(keyRefs, ValRefs(m[k], buffers), held, RefCount.One(empty));
    Rearrange(keyRefs, ValRefs(m'[k], buffers'), held, RefCount.One(empty));
  }

  lemma {:induction false} RestHoldsTheSame(others: seq<Buffer>, m: Entries, buffers: Buffers, k: Buffer, b: nat,
                                            m': Entries, buffers': Buffers)
    requires forall k' :: k' in m && k' != k ==> k' in m' && m'[k'] == m[k'] && m[k'] != Rows(b)
    requires forall b' :: b' != b ==> (b' in buffers <==> b' in buffers')
    requires forall b' :: b' != b && b' in buffers ==> buffers'[b'] == buffers[b']
    requires forall j :: 0 <= j < |others| ==> others[j] in m && others[j] != k
    ensures forall j :: 0 <= j < |others| ==> others[j] in m' && ValRefs(m[others[j]], buffers) == ValRefs(m'[others[j]], buffers')
  {
    hide RefsOf, RowSlots;
  }

  lemma {:induction false} Rearrange(a: multiset<nat>, v: multiset<nat>, h: multiset<nat>, e: multiset<nat>)
    ensures (a + v + h) + e == (a + h + e) + v
  {
  }

  lemma {:induction false} IdsAlive(heap: seq<RefCount.Cell>, b: Buffer)
    requires RefsAlive(heap, b)
    ensures forall i :: 0 <= i < |Ids(b.refs)| && Ids(b.refs)[i].Some? ==> RefCount.Alive(heap, Ids(b.refs)[i].value)
  {
  }

  // ---------- the partition ----------

  class Partition {
    const rt: RefCount.Runtime
    const ht: HashTable.HashTab<Buffer, Val>
    var buffers: Buffers
    var next: nat
    /** The rows of each result set made here. */
    var sets: Buffers
    var empty: Option<nat>
    var keyShape: Shape
    var valShape: Shape
    var didExtract: bool
    /** Every key and row added, and the keys in the order of their first rows. */
    ghost var added: seq<(Buffer, Buffer)>
    ghost var order: seq<Buffer>

    /** The references the partition holds. */
    ghost function Mine(): multiset<nat>
      reads this, ht
      requires Lists(order, ht.contents)
    {
      Ledger(order, ht.contents, buffers, empty)
    }

    ghost predicate TableOk()
      reads this, ht, ht.payload
    {
      && ht.Valid() && ht.hash == KeyHash && ht.eq == KeyEqual
      && Lists(order, ht.contents) && multiset(order) == ht.Keys()
    }

    /** `others` are the references held by everyone else, literal declarations included. */
    ghost predicate Valid(others: multiset<nat>)
      reads this, ht, ht.payload, rt
    {
      && TableOk() && rt.Valid()
      && Content(ht.contents, buffers, next, sets, empty, didExtract, added)
      && (keyShape.size == 0 ==> ht.contents == map[])
      && (forall o :: o in sets ==> o < |rt.heap|)
      && rt.ext == others + Mine() && RefCount.Declared(rt.heap, others)
    }

    /** `cql_partition_create`. */
    constructor (rt: RefCount.Runtime)
      requires rt.Valid()
      ensures Valid(rt.ext) && fresh(ht) && fresh(ht.payload) && this.rt == rt && added == [] && !didExtract
      ensures keyShape.size == 0 && ht.contents == map[]
    {
      hide HashTable.HashTab.Valid, HashTable.HashTab.Vals, HashTable.Congruent, HashTable.KeysIn, RefCount.Sound;
      KeysCongruent();
      this.rt := rt;
      ht := new HashTable.HashTab<Buffer, Val>(KeyHash, KeyEqual, _ => false);
      buffers, next, sets, empty := map[], 0, map[], None;
      keyShape, valShape, didExtract := Shape(0, 0), Shape(0, 0), false;
      added, order := [], [];
      new;
      RefCount.Declarations(rt.heap, rt.ext, rt.log);
      assert Mine() == multiset{};
    }

    /** `cql_partition_cursor`: adds a row under a key.  It fails its contract once extraction
        has begun or when the shapes differ from the first ones, and skips absent rows. */
    method AddRow(key: Buffer, keyHasRow: bool, row: Buffer, rowHasRow: bool, ghost others: multiset<nat>)
      returns (outcome: Outcome)
      requires Valid(others) && ShapeOf(key).size > 0
      requires keyHasRow ==> Comparable(ht.contents, key) && RefsAlive(rt.heap, key)
      requires rowHasRow ==> RefsAlive(rt.heap, row)
      modifies this, rt, ht, ht.payload
      ensures Valid(others) && didExtract == old(didExtract) && (ht.payload == old(ht.payload) || fresh(ht.payload))
      ensures outcome.Aborted? <==> (old(didExtract) ||
                (old(keyShape.size != 0) && (ShapeOf(key) != old(keyShape) || ShapeOf(row) != old(valShape))))
      ensures outcome.Added? <==> !outcome.Aborted? && keyHasRow && rowHasRow
      ensures added == if outcome.Added? then old(added) + [(key, row)] else old(added)
      ensures !outcome.Aborted? ==> keyShape == ShapeOf(key) && valShape == ShapeOf(row)
      ensures old(ht.contents.Keys) <= ht.contents.Keys <= old(ht.contents.Keys) + {key}
      ensures RefCount.SameObjects(old(rt.heap), rt.heap)
    {
      hide Grouped, Lists, RefCount.Declared, KeyHash, KeyEqual, Content, Ledger, RefsAlive, SameMeaning, Comparable;
      hide HashTable.HashTab.Valid, HashTable.HashTab.Keys, RefCount.Runtime.Valid;
      if didExtract || (keyShape.size != 0 && (keyShape != ShapeOf(key) || valShape != ShapeOf(row))) {
        return Aborted;
      }
      if keyShape.size == 0 {
        keyShape, valShape := ShapeOf(key), ShapeOf(row);
      }
      if !keyHasRow || !rowHasRow {
        return Skipped;
      }
      ghost var k;
      var b;
      b, k := EnsureEntry(key, others);
      StillAlive(old(rt.heap), rt.heap, row);
      AppendRow(key, row, b, k, others);
      return Added;
    }

    /** `cql_extract_partition`: the rows added under the key, as one shared result set; the
        caller gets a reference of its own. */
    method Extract(key: Buffer, ghost others: multiset<nat>) returns (result: Option<nat>)
      requires Valid(others) && Comparable(ht.contents, key)
      modifies this, rt, ht, ht.payload
      ensures didExtract && added == old(added) && ht.payload == old(ht.payload)
      ensures result.None? <==> keyShape.size != 0 && (ShapeOf(key) != keyShape || valShape.size == 0)
      ensures result.None? ==> Valid(others)
      ensures result.Some? ==>
                && Valid(others + multiset{result.value})
                && result.value in sets && sets[result.value] == Group(added, |added|, key)
                && Recorded(ht.contents, empty, key, result.value)
      ensures keyShape == old(keyShape) && valShape == old(valShape) && ht.contents.Keys == old(ht.contents.Keys)
      ensures RefCount.Evolves(old(rt.heap), rt.heap)
      ensures forall key', o :: old(Recorded(ht.contents, empty, key', o)) ==> Recorded(ht.contents, empty, key', o)
    {
      hide Grouped, Lists, RefCount.Declared, RefCount.Evolves, RefCount.Alive, KeyHash, KeyEqual, Content, Ledger, SameMeaning, Comparable, Group;
      hide HashTable.HashTab.Valid, HashTable.HashTab.Keys, RefCount.Runtime.Valid;
      ContentExtracts(ht.contents, buffers, next, sets, empty, didExtract, added);
      didExtract := true;
      if keyShape.size != 0 {
        if ShapeOf(key) != keyShape || valShape.size == 0 {
          RefCount.EvolvesSame(rt.heap);
          return None;
        }
        var found, p := ht.Find(key);
        if found {
          ghost var k := ht.payload[p].key;
          KeyEqualIff(k, key);
          Present(ht.contents, buffers, next, sets, empty, added, key, k);
          match ht.payload[p].val {
            case Shared(o) =>
              RetainSet(o, k, others);
              return Some(o);
            case Rows(b) =>
              var x := Share(p, b, others);
              return Some(x);
          }
        }
        NoEntry(ht.contents, key);
      }
      Absent(ht.contents, buffers, next, sets, empty, added, key);
      var x := EmptyResult(others);
      return Some(x);
    }

    /** The key's buffer, made on demand.  Every reference of a stored key is retained. */
    method EnsureEntry(key: Buffer, ghost others: multiset<nat>) returns (b: nat, ghost k: Buffer)
      requires Valid(others) && !didExtract && RefsAlive(rt.heap, key) && keyShape.size > 0
      modifies this, rt, ht, ht.payload
      ensures Valid(others) && (ht.payload == old(ht.payload) || fresh(ht.payload))
      ensures added == old(added) && !didExtract && keyShape == old(keyShape) && valShape == old(valShape)
      ensures k in ht.contents && SameMeaning(k, key) && ht.contents[k] == Rows(b) && b in buffers
      ensures old(ht.contents.Keys) <= ht.contents.Keys <= old(ht.contents.Keys) + {key}
      ensures RefCount.SameObjects(old(rt.heap), rt.heap)
    {
      hide Grouped, Lists, RefCount.Declared, RefCount.Sound, SameMeaning, KeyHash, KeyEqual, Content, Ledger, RefsAlive;
      hide HashTable.Table, HashTable.Represents, HashTable.Congruent, HashTable.KeysIn, HashTable.Occupied;
      var found, p := ht.Find(key);
      if found {
        k := ht.payload[p].key;
        KeyEqualIff(k, key);
        BufferLive(ht.contents, buffers, next, sets, empty, didExtract, added, k);
        b := ht.payload[p].val.buf;
      } else {
        b := NewEntry(key, others);
        k := key;
        SameMeaningLaws(key, key, key);
      }
    }

    /** A key's first row: a new buffer, and a copy of the key with its references retained. */
    method NewEntry(key: Buffer, ghost others: multiset<nat>) returns (b: nat)
      requires Valid(others) && !didExtract && RefsAlive(rt.heap, key) && keyShape.size > 0
      requires forall k :: k in ht.contents ==> !KeyEqual(k, key)
      modifies this, rt, ht, ht.payload
      ensures Valid(others) && (ht.payload == old(ht.payload) || fresh(ht.payload))
      ensures added == old(added) && !didExtract && keyShape == old(keyShape) && valShape == old(valShape)
      ensures key in ht.contents && ht.contents[key] == Rows(b) && b in buffers
      ensures ht.contents.Keys == old(ht.contents.Keys) + {key}
      ensures RefCount.SameObjects(old(rt.heap), rt.heap)
    {
      hide Grouped, Lists, RefCount.Declared, KeyHash, KeyEqual, RefCount.RefsFrom, Ids, Content, Ledger, RefsAlive, HasKey, RefCount.Alive;
      hide HashTable.HashTab.Valid, HashTable.HashTab.Keys, RefCount.Runtime.Valid;
      ghost var m, was, mine := ht.contents, buffers, Mine();
      ghost var refs := RefsOf(Ids(key.refs));
      NoEntry(m, key);
      b := next;
      Fresh(m, buffers, next, sets, empty, added, key);
      IdsAlive(rt.heap, key);
      rt.RetainOffsets(Ids(key.refs));
      RefCount.SameDeclared(old(rt.heap), rt.heap, others);
      ContentNew(m, buffers, next, sets, empty, added, key);
      next := next + 1;
      buffers := buffers[b := []];
      Enter(key, b);
      LedgerNew(old(order), m, was, empty, key, b, ht.contents, buffers);
      Regroup(others, mine, refs);
    }

    /** Copies a row to the end of its key's buffer, retaining its references. */
    method AppendRow(key: Buffer, row: Buffer, b: nat, ghost k: Buffer, ghost others: multiset<nat>)
      requires Valid(others) && !didExtract && RefsAlive(rt.heap, row)
      requires k in ht.contents && SameMeaning(k, key) && ht.contents[k] == Rows(b) && b in buffers
      modifies this, rt
      ensures Valid(others) && added == old(added) + [(key, row)] && RefCount.SameObjects(old(rt.heap), rt.heap)
      ensures !didExtract && keyShape == old(keyShape) && valShape == old(valShape)
    {
      hide Grouped, Lists, RefCount.Declared, KeyHash, KeyEqual, RefCount.RefsFrom, Ids, Content, Ledger, RefsAlive, HasKey, RefCount.Alive, RowSlots;
      hide HashTable.HashTab.Valid, HashTable.HashTab.Keys, RefCount.Runtime.Valid;
      ghost var m, was := ht.contents, buffers;
      ghost var refs := RefsOf(Ids(row.refs));
      ghost var buffers' := buffers[b := buffers[b] + [row]];
      OwnBuffer(m, buffers, next, sets, empty, didExtract, added, k, b);
      ghost var rest := LedgerAround(order, m, was, empty, k, b, m, buffers');
      RowRefsGrow(was[b], row);
      ContentAppend(m, buffers, next, sets, empty, added, k, b, key, row);
      IdsAlive(rt.heap, row);
      rt.RetainOffsets(Ids(row.refs));
      RefCount.SameDeclared(old(rt.heap), rt.heap, others);
      Spread(others, rest, RefsOf(RowSlots(was[b], 0)), refs);
      buffers := buffers[b := buffers[b] + [row]];
      added := added + [(key, row)];
    }

    /** Another reference to a result set that an entry holds. */
    method RetainSet(o: nat, ghost k: Buffer, ghost others: multiset<nat>)
      requires Valid(others) && k in ht.contents && ht.contents[k] == Shared(o)
      modifies rt
      ensures Valid(others + multiset{o})
      ensures RefCount.Evolves(old(rt.heap), rt.heap)
    {
      hide Grouped, Lists, RefCount.Declared, KeyHash, KeyEqual, Content, Ledger;
      hide HashTable.HashTab.Valid, HashTable.HashTab.Keys;
      ghost var mine := Mine();
      SharedHeld(order, ht.contents, buffers, empty, k, o);
      Add1(others, mine, o);
      RefCount.HeldIsAlive(rt.heap, rt.ext, rt.log, o);
      RefCount.RetainDeclares(rt.heap, Some(o), others);
      RefCount.RetainEvolves(rt.heap, o);
      rt.Retain(Some(o));
      RefCount.MoreDeclared(rt.heap, others, multiset{o});
    }

    /** The entry's buffer is handed over to a new result set, held by the entry and the caller. */
    method Share(p: nat, b: nat, ghost others: multiset<nat>) returns (x: nat)
      requires Valid(others) && didExtract && p < ht.payload.Length && ht.payload[p].Entry? && ht.payload[p].val == Rows(b)
      requires ht.payload[p].key in ht.contents && ht.contents[ht.payload[p].key] == Rows(b)
      modifies this, rt, ht, ht.payload
      ensures Valid(others + multiset{x}) && ht.payload == old(ht.payload)
      ensures b in old(buffers) && x in sets && sets[x] == old(buffers)[b]
      ensures ht.contents == old(ht.contents)[old(ht.payload[p].key) := Shared(x)]
      ensures RefCount.Evolves(old(rt.heap), rt.heap)
      ensures empty == old(empty) && added == old(added) && didExtract && keyShape == old(keyShape) && valShape == old(valShape)
    {
      hide Grouped, Lists, RefCount.Declared, RefCount.Evolves, RefCount.Alive, RefsOf, KeyHash, KeyEqual, Content, Ledger, RowSlots;
      hide HashTable.HashTab.Valid, HashTable.HashTab.Keys, RefCount.Runtime.Valid;
      ghost var k, m, was := ht.payload[p].key, ht.contents, buffers;
      BufferLive(m, buffers, next, sets, empty, didExtract, added, k);
      OwnBuffer(m, buffers, next, sets, empty, didExtract, added, k, b);
      var rows := buffers[b];
      ghost var id := |rt.heap|;
      ghost var rest := LedgerAround(order, m, was, empty, k, b, m[k := Shared(id)], was - {b});
      ContentShare(m, was, next, sets, empty, added, k, b, id);
      x := NewSet(rows, others, rest);
      buffers := buffers - {b};
      sets := sets[x := rows];
      ht.SetValue(p, Shared(x));
    }

    /** A result set of these rows takes over their references; it starts with two holders. */
    method NewSet(rows: seq<Buffer>, ghost others: multiset<nat>, ghost rest: multiset<nat>) returns (x: nat)
      requires rt.Valid() && rt.ext == others + (rest + RefsOf(RowSlots(rows, 0))) && RefCount.Declared(rt.heap, others)
      modifies rt
      ensures rt.Valid() && x == old(|rt.heap|) < |rt.heap| && rt.ext == (others + multiset{x}) + (rest + multiset{x})
      ensures RefCount.Declared(rt.heap, others + multiset{x})
      ensures RefCount.Alive(rt.heap, x) && rt.heap[x].slots == RowSlots(rows, 0)
      ensures RefCount.Evolves(old(rt.heap), rt.heap)
    {
      hide RowSlots, RefCount.RefsFrom, RefCount.Sound, RefCount.Declared;
      Regroup(others, rest, RefsOf(RowSlots(rows, 0)));
      RefCount.MoreDeclared(rt.heap, others, rest);
      RefCount.HeldBelow(rt.heap, rt.ext, rt.log, RowSlots(rows, 0));
      x := rt.New(RowSlots(rows, 0), others + rest);
      RefCount.NewDeclares(old(rt.heap), RowSlots(rows, 0), others);
      RefCount.NewEvolves(old(rt.heap), RowSlots(rows, 0));
      RefCount.RetainDeclares(rt.heap, Some(x), others);
      ghost var heap := rt.heap;
      RefCount.RetainEvolves(heap, x);
      rt.Retain(Some(x));
      RefCount.EvolvesTrans(old(rt.heap), heap, rt.heap);
      RefCount.MoreDeclared(rt.heap, others, multiset{x});
      Twice(others, rest, x);
    }

    /** The one result set for every absent key, made on demand. */
    method EmptyResult(ghost others: multiset<nat>) returns (x: nat)
      requires Valid(others) && didExtract
      modifies this, rt
      ensures Valid(others + multiset{x})
      ensures empty == Some(x) && (old(empty).Some? ==> empty == old(empty))
      ensures x in sets && sets[x] == []
      ensures RefCount.Evolves(old(rt.heap), rt.heap)
      ensures added == old(added) && didExtract && keyShape == old(keyShape) && valShape == old(valShape)
    {
      hide Grouped, Lists, RefCount.Declared, KeyHash, KeyEqual, Ledger, Content;
      hide HashTable.HashTab.Valid, HashTable.HashTab.Keys, RefCount.Runtime.Valid;
      if empty.None? {
        MakeEmpty(others);
      } else {
        RetainEmpty(others);
      }
      x := empty.value;
      EmptyHasNoRows(ht.contents, buffers, next, sets, x, added);
    }

    method MakeEmpty(ghost others: multiset<nat>)
      requires Valid(others) && didExtract && empty.None?
      modifies this, rt
      ensures empty.Some? && Valid(others + multiset{empty.value})
      ensures RefCount.Evolves(old(rt.heap), rt.heap)
      ensures added == old(added) && didExtract && keyShape == old(keyShape) && valShape == old(valShape)
    {
      hide Grouped, Lists, RefCount.Declared, KeyHash, KeyEqual, Ledger, Content, RowSlots, RefsOf;
      hide HashTable.HashTab.Valid, HashTable.HashTab.Keys, RefCount.Runtime.Valid;
      ghost var mine, id := Mine(), |rt.heap|;
      ContentEmpty(ht.contents, buffers, next, sets, added, id);
      LedgerEmpty(order, ht.contents, buffers, id);
      NoRows(mine);
      var x := NewSet([], others, mine);
      empty := Some(x);
      sets := sets[x := []];
    }

    method RetainEmpty(ghost others: multiset<nat>)
      requires Valid(others) && empty.Some?
      modifies rt
      ensures Valid(others + multiset{empty.value})
      ensures RefCount.Evolves(old(rt.heap), rt.heap)
    {
      hide Grouped, Lists, RefCount.Declared, KeyHash, KeyEqual, Ledger, Content, RefCount.Sound;
      hide HashTable.HashTab.Valid, HashTable.HashTab.Keys;
      var x := empty.value;
      LedgerEmpty(order, ht.contents, buffers, x);
      Add1(others, Mine(), x);
      RefCount.HeldIsAlive(rt.heap, rt.ext, rt.log, x);
      RefCount.RetainDeclares(rt.heap, Some(x), others);
      RefCount.RetainEvolves(rt.heap, x);
      rt.Retain(Some(x));
      RefCount.MoreDeclared(rt.heap, others, multiset{x});
    }

    method AddAll(adds: seq<(Buffer, Buffer)>, ghost keys: seq<Buffer>, ghost others: multiset<nat>, ghost ks: Shape, ghost vs: Shape)
      requires Valid(others) && Uniform(rt.heap, adds, keys, ks, vs) && added == [] && !didExtract
      requires keyShape.size == 0 && ht.contents == map[]
      modifies this, rt, ht, ht.payload
      ensures Valid(others) && added == adds && !didExtract && FromAdds(ht.contents, adds, |adds|)
      ensures keyShape.size != 0 ==> keyShape == ks && valShape == vs
      ensures RefCount.SameObjects(old(rt.heap), rt.heap) && (fresh(ht.payload) || ht.payload == old(ht.payload))
    {
      hide Uniform, FromAdds, Valid, RefCount.SameObjects, Comparable, RefsAlive;
      RefCount.SameRefl(rt.heap);
      FromNone(adds);
      var i := 0;
      while i < |adds|
        invariant 0 <= i <= |adds| && Valid(others) && added == adds[..i] && !didExtract && FromAdds(ht.contents, adds, i)
        invariant keyShape.size != 0 ==> keyShape == ks && valShape == vs
        invariant RefCount.SameObjects(old(rt.heap), rt.heap) && (fresh(ht.payload) || ht.payload == old(ht.payload))
      {
        ghost var heap, m := rt.heap, ht.contents;
        UniformAt(old(rt.heap), heap, adds, keys, ks, vs, i);
        FromAddsComparable(m, adds, i, adds[i].0);
        var outcome := AddRow(adds[i].0, true, adds[i].1, true, others);
        RefCount.SameTrans(old(rt.heap), heap, rt.heap);
        FromOneMore(m, ht.contents, adds, i);
        assert adds[..i + 1] == adds[..i] + [adds[i]];
        i := i + 1;
      }
      assert adds[..i] == adds;
    }

    method ExtractAll(ghost adds: seq<(Buffer, Buffer)>, keys: seq<Buffer>, ghost others: multiset<nat>, ghost ks: Shape, ghost vs: Shape)
      returns (results: seq<nat>, rows: seq<seq<Buffer>>)
      requires Valid(others) && added == adds && FromAdds(ht.contents, adds, |adds|)
      requires keyShape.size != 0 ==> keyShape == ks && valShape == vs
      requires vs.size > 0 && forall i :: 0 <= i < |keys| ==> ShapeOf(keys[i]) == ks && MeetsAll(adds, keys[i])
      modifies this, rt, ht, ht.payload
      ensures Valid(others + multiset(results)) && RefCount.Evolves(old(rt.heap), rt.heap)
      ensures ht.payload == old(ht.payload) && |results| == |rows| == |keys|
      ensures forall i :: 0 <= i < |keys| ==> rows[i] == Group(adds, |adds|, keys[i])
      ensures forall i, j :: 0 <= i < |keys| && 0 <= j < |keys| ==>
                (results[i] == results[j] <==> SameMeaning(keys[i], keys[j]) || (rows[i] == [] && rows[j] == []))
    {
      hide FromAdds, Valid, RefCount.Evolves, Comparable, MeetsAll, Group, SameMeaning, Recorded;
      RefCount.EvolvesSame(rt.heap);
      results, rows := [], [];
      assert others + multiset(results) == others;
      var i := 0;
      while i < |keys|
        invariant 0 <= i <= |keys| && |results| == |rows| == i
        invariant Valid(others + multiset(results)) && added == adds && ht.payload == old(ht.payload)
        invariant FromAdds(ht.contents, adds, |adds|) && (keyShape.size != 0 ==> keyShape == ks && valShape == vs)
        invariant RefCount.Evolves(old(rt.heap), rt.heap) && (i > 0 ==> didExtract)
        invariant forall j :: 0 <= j < i ==> rows[j] == Group(adds, |adds|, keys[j])
        invariant forall j :: 0 <= j < i ==> Recorded(ht.contents, empty, keys[j], results[j])
      {
        ghost var heap, m := rt.heap, ht.contents;
        FromAddsComparable(m, adds, |adds|, keys[i]);
        var x := Extract(keys[i], others + multiset(results));
        RefCount.EvolvesTrans(old(rt.heap), heap, rt.heap);
        FromSameKeys(m, ht.contents, adds);
        OneMoreResult(others, results, x.value);
        results, rows := results + [x.value], rows + [sets[x.value]];
        i := i + 1;
      }
      forall i, j | 0 <= i < |keys| && 0 <= j < |keys|
        ensures results[i] == results[j] <==> SameMeaning(keys[i], keys[j]) || (rows[i] == [] && rows[j] == [])
      {
        ContentHolds(others + multiset(results));
        SameResultIff(ht.contents, buffers, next, sets, empty, added, keys[i], results[i], keys[j], results[j]);
      }
    }

    /** A caller lets go of a result while the partition lives. */
    method LetGo(x: nat, ghost others: multiset<nat>)
      requires Valid(others + multiset{x}) && RefCount.Declared(rt.heap, others)
      modifies rt
      ensures Valid(others) && RefCount.Evolves(old(rt.heap), rt.heap)
    {
      hide Grouped, Lists, RefCount.Declared, RefCount.Evolves, KeyHash, KeyEqual, Ledger, Content, RefCount.Sound, RefCount.Later;
      hide HashTable.HashTab.Valid, HashTable.HashTab.Keys;
      ghost var heap, mine := rt.heap, Mine();
      Last(others, mine, x);
      RefCount.MoreDeclared(heap, others, mine);
      RefCount.Owing(others + mine, Some(x));
      RefCount.Releasable(heap, rt.ext, rt.log, others + mine, Some(x));
      rt.Release(Some(x));
      RefCount.StillDeclared(heap, rt.heap, others);
      RefCount.LaterEvolves(heap, rt.heap);
      RefCount.SameLength(heap, rt.heap);
    }

    /** Some of the results are let go of before the partition. */
    method ReleaseEarly(results: seq<nat>, early: seq<bool>, ghost others: multiset<nat>) returns (late: seq<nat>)
      requires |early| == |results| && Valid(others + multiset(results)) && RefCount.Declared(rt.heap, others)
      modifies rt
      ensures Valid(others + multiset(late)) && RefCount.Evolves(old(rt.heap), rt.heap)
      ensures forall x :: x in late ==> x in results
    {
      hide Valid, RefCount.Declared, RefCount.Evolves;
      RefCount.EvolvesSame(rt.heap);
      late := [];
      var i := 0;
      assert late + results[0..] == results;
      while i < |results|
        invariant 0 <= i <= |results| && Valid(others + multiset(late + results[i..])) && RefCount.Declared(rt.heap, others)
        invariant RefCount.Evolves(old(rt.heap), rt.heap) && forall x :: x in late ==> x in results
      {
        ghost var rest := late + results[i + 1..];
        if early[i] {
          ghost var heap := rt.heap;
          MidResult(others, late, results, i);
          RefCount.MoreDeclared(rt.heap, others, multiset(rest));
          LetGo(results[i], others + multiset(rest));
          RefCount.Kept(heap, rt.heap, others);
          RefCount.EvolvesTrans(old(rt.heap), heap, rt.heap);
        } else {
          assert late + results[i..] == late + [results[i]] + results[i + 1..];
          late := late + [results[i]];
        }
        i := i + 1;
      }
      assert late + results[i..] == late;
    }

    lemma {:induction false} ContentHolds(others: multiset<nat>)
      requires Valid(others) && didExtract
      ensures Content(ht.contents, buffers, next, sets, empty, true, added)
    {
    }

    /** `cql_partition_finalize`: every reference held for a key, a row or a result set is given
        back exactly once, whatever was extracted, and every row buffer is freed. */
    method Finalize(ghost others: multiset<nat>)
      requires Valid(others)
      modifies this, rt
      ensures rt.Valid() && rt.ext == others && RefCount.Declared(rt.heap, others)
      ensures RefCount.Evolves(old(rt.heap), rt.heap)
      ensures forall k :: k in ht.contents && ht.contents[k].Rows? ==> ht.contents[k].buf !in buffers
    {
      hide Grouped, RefCount.Declared, KeyHash, KeyEqual, Ledger, Content, Held, Unreleased, RefCount.Evolves;
      hide HashTable.HashTab.Valid, RefCount.Runtime.Valid, HashTable.KeysIn;
      StartRelease(order, ht.contents, buffers, next, sets, empty, didExtract, added);
      ht.EntriesMatch();
      ReleaseEmpty(others);
      ghost var heap := rt.heap;
      ReleaseEntries(ht.contents, others);
      RefCount.EvolvesTrans(old(rt.heap), heap, rt.heap);
    }

    /** `cql_hashtab_delete` with the partition's release functions. */
    method ReleaseEntries(ghost m: Entries, ghost others: multiset<nat>)
      requires rt.Valid() && RefCount.Declared(rt.heap, others)
      requires Unreleased(order, m, buffers) && (forall j :: 0 <= j < |order| ==> order[j] in m) && forall k :: k in m ==> k in order
      requires multiset(order) == HashTable.KeysIn(ht.payload[..], ht.payload.Length)
      requires rt.ext == others + Held(order, m, buffers, 0)
      requires forall p :: 0 <= p < ht.payload.Length && ht.payload[p].Entry? ==>
                 ht.payload[p].key in m && m[ht.payload[p].key] == ht.payload[p].val
      modifies `buffers, rt
      ensures rt.Valid() && rt.ext == others && RefCount.Declared(rt.heap, others)
      ensures RefCount.Evolves(old(rt.heap), rt.heap)
      ensures forall k :: k in m && m[k].Rows? ==> m[k].buf !in buffers
    {
      hide RefCount.Declared, Held, Unreleased, RefCount.Runtime.Valid, HashTable.KeysIn, RefsOf, Ids, ValRefs, RefCount.Evolves;
      RefCount.EvolvesSame(rt.heap);
      ghost var slots, left := ht.payload[..], order;
      HashTable.EmptyPrefix(slots);
      var i := 0;
      while i < ht.payload.Length
        invariant 0 <= i <= |slots|
        invariant rt.Valid() && RefCount.Declared(rt.heap, others) && RefCount.Evolves(old(rt.heap), rt.heap)
        invariant Unreleased(left, m, buffers) && forall j :: 0 <= j < |left| ==> left[j] in m
        invariant rt.ext == others + Held(left, m, buffers, 0)
        invariant multiset(left) + HashTable.KeysIn(slots, i) == HashTable.KeysIn(slots, |slots|)
        invariant forall k :: k in m && m[k].Rows? ==> k in left || m[k].buf !in buffers
      {
        HashTable.CountOne(slots, i);
        if ht.payload[i].Entry? {
          HashTable.KeysGrow(slots, i + 1, |slots|);
          ghost var heap := rt.heap;
          left := ReleaseNext(ht.payload[i].key, ht.payload[i].val, left, m, others, HashTable.KeysIn(slots, i), HashTable.KeysIn(slots, |slots|));
          RefCount.EvolvesTrans(old(rt.heap), heap, rt.heap);
        }
        i := i + 1;
      }
      NoneLeft(left, HashTable.KeysIn(slots, |slots|), m, buffers);
    }

    /** One more of the keys still left. */
    method ReleaseNext(key: Buffer, v: Val, ghost left: seq<Buffer>, ghost m: Entries, ghost others: multiset<nat>,
                       ghost gone: multiset<Buffer>, ghost all: multiset<Buffer>)
      returns (ghost rest: seq<Buffer>)
      requires rt.Valid() && RefCount.Declared(rt.heap, others) && key in m && m[key] == v
      requires Unreleased(left, m, buffers) && forall j :: 0 <= j < |left| ==> left[j] in m
      requires rt.ext == others + Held(left, m, buffers, 0)
      requires multiset(left) + gone == all && gone + multiset{key} <= all
      modifies `buffers, rt
      ensures rt.Valid() && RefCount.Declared(rt.heap, others) && RefCount.Evolves(old(rt.heap), rt.heap)
      ensures Unreleased(rest, m, buffers) && forall j :: 0 <= j < |rest| ==> rest[j] in m
      ensures rt.ext == others + Held(rest, m, buffers, 0)
      ensures multiset(rest) + (gone + multiset{key}) == all
      ensures forall k :: k in left && k != key ==> k in rest
      ensures buffers == if v.Rows? then old(buffers) - {v.buf} else old(buffers)
    {
      hide RefCount.Declared, Held, Unreleased, RefCount.Runtime.Valid, RefCount.Evolves, RefsOf, Ids, ValRefs;
      StillLeft(left, gone, all, key);
      rest := Release1(left, m, buffers, key, if v.Rows? then buffers - {v.buf} else buffers);
      Taken(left, rest, key, gone);
      ReleaseEntry(key, v, others, Held(rest, m, buffers, 0));
    }

    method ReleaseEmpty(ghost others: multiset<nat>)
      requires Valid(others)
      modifies rt
      ensures rt.Valid() && RefCount.Declared(rt.heap, others)
      ensures RefCount.Evolves(old(rt.heap), rt.heap)
      ensures forall j :: 0 <= j < |order| ==> order[j] in ht.contents
      ensures rt.ext == others + Held(order, ht.contents, buffers, 0)
    {
      hide Grouped, RefCount.Declared, KeyHash, KeyEqual, Content, Held, RefCount.Later, RefCount.Sound, RefCount.One;
      hide HashTable.HashTab.Valid, HashTable.HashTab.Keys;
      ghost var held, heap := Held(order, ht.contents, buffers, 0), rt.heap;
      ghost var base := others + held;
      Regroup(others, held, RefCount.One(empty));
      RefCount.Owing(base, empty);
      RefCount.MoreDeclared(heap, others, held);
      RefCount.Releasable(heap, rt.ext, rt.log, base, empty);
      rt.Release(empty);
      RefCount.StillDeclared(heap, rt.heap, others);
      RefCount.LaterEvolves(heap, rt.heap);
    }

    /** `cql_partition_key_release` and `cql_partition_val_release` on one entry. */
    method ReleaseEntry(key: Buffer, v: Val, ghost others: multiset<nat>, ghost rest: multiset<nat>)
      requires rt.Valid() && RefCount.Declared(rt.heap, others) && (v.Rows? ==> v.buf in buffers)
      requires rt.ext == others + (RefsOf(Ids(key.refs)) + ValRefs(v, buffers) + rest)
      modifies `buffers, rt
      ensures rt.Valid() && RefCount.Declared(rt.heap, others) && rt.ext == others + rest
      ensures RefCount.Evolves(old(rt.heap), rt.heap)
      ensures buffers == if v.Rows? then old(buffers) - {v.buf} else old(buffers)
    {
      hide RefCount.Declared, RefCount.Evolves, RefCount.Later, RefCount.Sound, RefCount.One, RowSlots, Ids, RefCount.RefsFrom;
      hide RefCount.Runtime.Valid;
      ghost var val := ValRefs(v, buffers);
      ghost var heap := rt.heap;
      Unstack(others, RefsOf(Ids(key.refs)), val, rest);
      RefCount.MoreDeclared(rt.heap, others, val + rest);
      rt.ReleaseOffsets(Ids(key.refs), others + (val + rest));
      RefCount.StillDeclared(heap, rt.heap, others);
      RefCount.LaterEvolves(heap, rt.heap);
      ghost var between := rt.heap;
      ReleaseVal(v, others, rest);
      RefCount.EvolvesTrans(heap, between, rt.heap);
    }

    method ReleaseVal(v: Val, ghost others: multiset<nat>, ghost rest: multiset<nat>)
      requires rt.Valid() && RefCount.Declared(rt.heap, others) && (v.Rows? ==> v.buf in buffers)
      requires rt.ext == others + (ValRefs(v, buffers) + rest)
      modifies `buffers, rt
      ensures rt.Valid() && RefCount.Declared(rt.heap, others) && rt.ext == others + rest
      ensures RefCount.Evolves(old(rt.heap), rt.heap)
      ensures buffers == if v.Rows? then old(buffers) - {v.buf} else old(buffers)
    {
      hide RefCount.Declared, RefCount.Evolves, RefCount.Later, RefCount.Sound, RowSlots, Ids, RefCount.RefsFrom;
      ghost var heap, base := rt.heap, others + rest;
      RefCount.MoreDeclared(heap, others, rest);
      match v {
        case Shared(o) =>
          assert rt.ext == base + RefCount.One(Some(o));
          RefCount.Owing(base, Some(o));
          RefCount.Releasable(heap, rt.ext, rt.log, base, Some(o));
          rt.Release(Some(o));
          RefCount.StillDeclared(heap, rt.heap, others);
          RefCount.LaterEvolves(heap, rt.heap);
        case Rows(b) =>
          ReleaseRows(buffers[b], others, rest);
          buffers := buffers - {b};
      }
    }

    method ReleaseRows(rows: seq<Buffer>, ghost others: multiset<nat>, ghost rest: multiset<nat>)
      requires rt.Valid() && RefCount.Declared(rt.heap, others)
      requires rt.ext == others + (RefsOf(RowSlots(rows, 0)) + rest)
      modifies rt
      ensures rt.Valid() && RefCount.Declared(rt.heap, others) && rt.ext == others + rest
      ensures RefCount.Evolves(old(rt.heap), rt.heap)
    {
      hide RefCount.Declared, RefCount.Later, RefCount.Sound, RowSlots, Ids, RefCount.RefsFrom, RefCount.Evolves;
      hide RefCount.Runtime.Valid;
      RefCount.EvolvesSame(rt.heap);
      var i := 0;
      while i < |rows|
        invariant 0 <= i <= |rows| && rt.Valid() && RefCount.Declared(rt.heap, others)
        invariant RefCount.Evolves(old(rt.heap), rt.heap)
        invariant rt.ext == others + (RefsOf(RowSlots(rows, i)) + rest)
      {
        ghost var heap, more := rt.heap, RefsOf(RowSlots(rows, i + 1));
        RowRefsNext(rows, i);
        Unstack(others, RefsOf(Ids(rows[i].refs)), more, rest);
        RefCount.MoreDeclared(heap, others, more + rest);
        rt.ReleaseOffsets(Ids(rows[i].refs), others + (more + rest));
        RefCount.StillDeclared(heap, rt.heap, others);
        RefCount.LaterEvolves(heap, rt.heap);
        RefCount.EvolvesTrans(old(rt.heap), heap, rt.heap);
        i := i + 1;
      }
      RowRefsNone(rows);
    }

    method Enter(key: Buffer, b: nat)
      requires TableOk() && !HasKey(ht.contents, key)
      modifies `order, ht, ht.payload
      ensures TableOk() && (ht.payload == old(ht.payload) || fresh(ht.payload))
      ensures ht.contents == old(ht.contents)[key := Rows(b)] && order == old(order) + [key]
    {
      hide KeyHash, KeyEqual, HashTable.HashTab.Valid, HashTable.HashTab.Keys, HashTable.HashTab.Vals, HashTable.ValOf;
      NoEntryKeys(ht.contents, key);
      var isNew := ht.Add(key, Rows(b));
      OneMore(order, key);
      order := order + [key];
    }
  }

  lemma {:induction false} Regroup(others: multiset<nat>, mine: multiset<nat>, refs: multiset<nat>)
    ensures others + mine + refs == others + (mine + refs)
  {
  }

  lemma {:induction false} Spread(others: multiset<nat>, rest: multiset<nat>, rows: multiset<nat>, refs: multiset<nat>)
    ensures others + (rest + rows) + refs == others + (rest + (rows + refs))
  {
  }

  /** No other entry uses this entry's buffer. */
  lemma {:induction false} OwnBuffer(m: Entries, buffers: Buffers, next: nat, sets: Buffers, empty: Option<nat>, extracted: bool,
                                     added: seq<(Buffer, Buffer)>, k: Buffer, b: nat)
    requires Content(m, buffers, next, sets, empty, extracted, added) && k in m && m[k] == Rows(b)
    ensures forall k' :: k' in m && k' != k ==> m[k'] != Rows(b)
  {
  }

  lemma {:induction false} Add1(others: multiset<nat>, mine: multiset<nat>, o: nat)
    requires o in mine
    ensures o in others + mine && others + mine + multiset{o} == (others + multiset{o}) + mine
  {
  }

  lemma {:induction false} Twice(others: multiset<nat>, rest: multiset<nat>, x: nat)
    ensures (others + rest) + multiset{x} + multiset{x} == (others + multiset{x}) + (rest + multiset{x})
  {
  }

  /** The ledger covers every entry's result set. */
  lemma {:induction false} SharedHeld(order: seq<Buffer>, m: Entries, buffers: Buffers, empty: Option<nat>, k: Buffer, o: nat)
    requires Lists(order, m) && k in m && m[k] == Shared(o)
    ensures o in Ledger(order, m, buffers, empty)
  {
    hide Ids, RefsOf, RowSlots, Held;
    assert k in order;
    var p :| 0 <= p < |order| && order[p] == k;
    HeldRemove(order, m, buffers, 0, p);
  }

  lemma {:induction false} StillAlive(heap: seq<RefCount.Cell>, heap': seq<RefCount.Cell>, b: Buffer)
    requires RefsAlive(heap, b) && RefCount.SameObjects(heap, heap')
    ensures RefsAlive(heap', b)
  {
  }

  lemma {:induction false} ContentExtracts(m: Entries, buffers: Buffers, next: nat, sets: Buffers, empty: Option<nat>,
                                           extracted: bool, added: seq<(Buffer, Buffer)>)
    requires Content(m, buffers, next, sets, empty, extracted, added)
    ensures Content(m, buffers, next, sets, empty, true, added)
  {
  }

  lemma {:induction false} Present(m: Entries, buffers: Buffers, next: nat, sets: Buffers, empty: Option<nat>,
                                   added: seq<(Buffer, Buffer)>, key: Buffer, k: Buffer)
    requires Content(m, buffers, next, sets, empty, true, added) && k in m && SameMeaning(k, key)
    ensures RowsOf(m[k], buffers, sets) == Some(Group(added, |added|, key)) && HasKey(m, key)
    ensures m[k].Shared? ==> Recorded(m, empty, key, m[k].obj)
    ensures m[k].Rows? ==> forall x :: Recorded(m[k := Shared(x)], empty, key, x)
    ensures m[k].Rows? ==> forall x, key', o :: Recorded(m, empty, key', o) ==> Recorded(m[k := Shared(x)], empty, key', o)
  {
    hide Group;
    PresentIsGroup(m, buffers, sets, added, key, k);
    if m[k].Rows? {
      forall x, key', o | Recorded(m, empty, key', o)
        ensures Recorded(m[k := Shared(x)], empty, key', o)
      {
        RecordStays(m, empty, k, x, key', o);
      }
      forall x
        ensures Recorded(m[k := Shared(x)], empty, key, x)
      {
        assert m[k := Shared(x)][k] == Shared(x);
      }
    }
  }

  lemma {:induction false} RecordStays(m: Entries, empty: Option<nat>, k: Buffer, x: nat, key: Buffer, o: nat)
    requires k in m && m[k].Rows? && Recorded(m, empty, key, o)
    ensures Recorded(m[k := Shared(x)], empty, key, o)
  {
    var m' := m[k := Shared(x)];
    if HasKey(m, key) {
      var k' :| k' in m && SameMeaning(k', key) && m[k'] == Shared(o);
      assert m'[k'] == Shared(o);
    } else {
      assert m'.Keys == m.Keys;
    }
  }

  lemma {:induction false} Absent(m: Entries, buffers: Buffers, next: nat, sets: Buffers, empty: Option<nat>,
                                  added: seq<(Buffer, Buffer)>, key: Buffer)
    requires Content(m, buffers, next, sets, empty, true, added) && (m == map[] || !HasKey(m, key))
    ensures !HasKey(m, key) && Group(added, |added|, key) == []
  {
    AbsentIsEmpty(m, buffers, sets, added, key);
  }

  lemma {:induction false} EmptyHasNoRows(m: Entries, buffers: Buffers, next: nat, sets: Buffers, x: nat,
                                          added: seq<(Buffer, Buffer)>)
    requires Content(m, buffers, next, sets, Some(x), true, added)
    ensures x in sets && sets[x] == []
  {
  }

  lemma {:induction false} LedgerEmpty(order: seq<Buffer>, m: Entries, buffers: Buffers, x: nat)
    requires Lists(order, m)
    ensures Ledger(order, m, buffers, Some(x)) == Ledger(order, m, buffers, None) + multiset{x}
    ensures x in Ledger(order, m, buffers, Some(x))
  {
    hide Held;
  }

  lemma {:induction false} NoRows(mine: multiset<nat>)
    ensures mine + RefsOf(RowSlots([], 0)) == mine
  {
    RowRefsNone([]);
  }

  lemma {:induction false} Unstack(others: multiset<nat>, top: multiset<nat>, more: multiset<nat>, rest: multiset<nat>)
    ensures others + (top + more + rest) == (others + (more + rest)) + top
  {
  }

  /** The entries of the keys in `left` are intact: each has its own live buffer or result set. */
  ghost predicate Unreleased(left: seq<Buffer>, m: Entries, buffers: Buffers)
  {
    && (forall j :: 0 <= j < |left| ==> left[j] in m && (m[left[j]].Rows? ==> m[left[j]].buf in buffers))
    && (forall i, j :: 0 <= i < j < |left| ==> left[i] != left[j])
    && (forall k, k' :: k in m && k' in m && m[k] == m[k'] ==> k == k')
  }

  lemma {:induction false} StartRelease(order: seq<Buffer>, m: Entries, buffers: Buffers, next: nat, sets: Buffers,
                                        empty: Option<nat>, extracted: bool, added: seq<(Buffer, Buffer)>)
    requires Lists(order, m) && Content(m, buffers, next, sets, empty, extracted, added)
    ensures Unreleased(order, m, buffers) && (forall j :: 0 <= j < |order| ==> order[j] in m) && forall k :: k in m ==> k in order
  {
    forall j | 0 <= j < |order|
      ensures order[j] in m && (m[order[j]].Rows? ==> m[order[j]].buf in buffers)
    {
      BufferLive(m, buffers, next, sets, empty, extracted, added, order[j]);
    }
  }

  /** A key the table has not yet given up is still to be released. */
  lemma {:induction false} StillLeft(left: seq<Buffer>, gone: multiset<Buffer>, all: multiset<Buffer>, key: Buffer)
    requires multiset(left) + gone == all && gone + multiset{key} <= all
    ensures key in left
  {
    assert (gone + multiset{key})[key] <= all[key];
    assert key in multiset(left);
  }

  lemma {:induction false} NoneLeft(left: seq<Buffer>, all: multiset<Buffer>, m: Entries, buffers: Buffers)
    requires multiset(left) + all == all && forall j :: 0 <= j < |left| ==> left[j] in m
    ensures left == [] && Held(left, m, buffers, 0) == multiset{}
  {
    assert |multiset(left) + all| == |multiset(left)| + |all|;
  }

  lemma {:induction false} WithoutOne(left: seq<Buffer>, p: nat, rest: seq<Buffer>)
    requires p < |left| && rest == left[..p] + left[p + 1..]
    ensures multiset(left) == multiset(rest) + multiset{left[p]}
  {
    assert left == left[..p] + [left[p]] + left[p + 1..];
  }

  /** The keys left without the one at `p`. */
  lemma {:induction false} Others(left: seq<Buffer>, p: nat, rest: seq<Buffer>)
    requires p < |left| && rest == left[..p] + left[p + 1..]
    ensures forall k :: k in left && k != left[p] ==> k in rest
    ensures forall j :: 0 <= j < |rest| ==> rest[j] in left
    ensures (forall i, j :: 0 <= i < j < |left| ==> left[i] != left[j]) ==>
              && (forall i, j :: 0 <= i < j < |rest| ==> rest[i] != rest[j])
              && (forall j :: 0 <= j < |rest| ==> rest[j] != left[p])
  {
    forall k | k in left && k != left[p]
      ensures k in rest
    {
      var j :| 0 <= j < |left| && left[j] == k;
      assert rest[if j < p then j else j - 1] == k;
    }
  }

  /** One entry's part of what is held, and what its release leaves intact. */
  lemma {:induction false} Release1(left: seq<Buffer>, m: Entries, buffers: Buffers, key: Buffer, buffers': Buffers)
    returns (rest: seq<Buffer>)
    requires Unreleased(left, m, buffers) && key in left && key in m
    requires buffers' == if m[key].Rows? then buffers - {m[key].buf} else buffers
    ensures multiset(left) == multiset(rest) + multiset{key} && (forall k :: k in left && k != key ==> k in rest)
    ensures (forall j :: 0 <= j < |left| ==> left[j] in m) && (forall j :: 0 <= j < |rest| ==> rest[j] in m)
    ensures Unreleased(rest, m, buffers') && (m[key].Rows? ==> m[key].buf in buffers)
    ensures Held(left, m, buffers, 0) == RefsOf(Ids(key.refs)) + ValRefs(m[key], buffers) + Held(rest, m, buffers, 0)
    ensures Held(rest, m, buffers', 0) == Held(rest, m, buffers, 0)
  {
    hide Held, RefsOf, Ids, RowSlots;
    var p :| 0 <= p < |left| && left[p] == key;
    rest := left[..p] + left[p + 1..];
    WithoutOne(left, p, rest);
    Others(left, p, rest);
    HeldRemove(left, m, buffers, 0, p);
    StillIntact(left, rest, m, buffers, key, buffers');
    HeldSame(rest, m, buffers, m, buffers', 0);
  }

  lemma {:induction false} StillIntact(left: seq<Buffer>, rest: seq<Buffer>, m: Entries, buffers: Buffers, key: Buffer, buffers': Buffers)
    requires Unreleased(left, m, buffers) && key in m
    requires buffers' == if m[key].Rows? then buffers - {m[key].buf} else buffers
    requires forall j :: 0 <= j < |rest| ==> rest[j] in left && rest[j] != key
    requires forall i, j :: 0 <= i < j < |rest| ==> rest[i] != rest[j]
    ensures Unreleased(rest, m, buffers')
    ensures forall j :: 0 <= j < |rest| ==> rest[j] in m && ValRefs(m[rest[j]], buffers) == ValRefs(m[rest[j]], buffers')
  {
    hide RefsOf, RowSlots;
    forall j | 0 <= j < |rest|
      ensures rest[j] in m && (m[rest[j]].Rows? ==> m[rest[j]].buf in buffers')
      ensures ValRefs(m[rest[j]], buffers) == ValRefs(m[rest[j]], buffers')
    {
      assert rest[j] in left && m[rest[j]] != m[key];
    }
  }

  lemma {:induction false} Taken(left: seq<Buffer>, rest: seq<Buffer>, key: Buffer, gone: multiset<Buffer>)
    requires multiset(left) == multiset(rest) + multiset{key}
    ensures multiset(left) + gone == multiset(rest) + (gone + multiset{key})
  {
  }

  lemma {:induction false} Last(others: multiset<nat>, mine: multiset<nat>, x: nat)
    ensures (others + multiset{x}) + mine == (others + mine) + RefCount.One(Some(x))
  {
  }

  lemma {:induction false} MidResult(others: multiset<nat>, late: seq<nat>, results: seq<nat>, i: nat)
    requires i < |results|
    ensures others + multiset(late + results[i..]) == others + multiset(late + results[i + 1..]) + multiset{results[i]}
  {
    assert results[i..] == [results[i]] + results[i + 1..];
  }

  lemma {:induction false} OneMore(order: seq<Buffer>, key: Buffer)
    ensures multiset(order + [key]) == multiset(order) + multiset{key}
  {
  }

  lemma {:induction false} NoEntry(m: Entries, key: Buffer)
    requires forall k :: k in m ==> !KeyEqual(k, key)
    ensures !HasKey(m, key) && key !in m
  {
    forall k | k in m
      ensures !SameMeaning(k, key) && k != key
    {
      KeyEqualIff(k, key);
      SameMeaningLaws(key, key, key);
    }
  }

  lemma {:induction false} NoEntryKeys(m: Entries, key: Buffer)
    requires !HasKey(m, key)
    ensures key !in m && forall k :: k in m ==> !KeyEqual(k, key)
  {
    forall k | k in m
      ensures !KeyEqual(k, key) && k != key
    {
      KeyEqualIff(k, key);
      SameMeaningLaws(key, key, key);
    }
  }

  lemma {:induction false} Fresh(m: Entries, buffers: Buffers, next: nat, sets: Buffers, empty: Option<nat>,
                                 added: seq<(Buffer, Buffer)>, key: Buffer)
    requires Content(m, buffers, next, sets, empty, false, added)
    ensures next !in buffers && forall k :: k in m ==> m[k] != Rows(next)
  {
    forall k | k in m
      ensures m[k] != Rows(next)
    {
      assert RowsOf(m[k], buffers, sets).Some?;
    }
  }

  // ---------- whole lives ----------

  /** The rows to add and the keys to extract are of one shape, live and comparable. */
  ghost predicate Uniform(heap: seq<RefCount.Cell>, adds: seq<(Buffer, Buffer)>, keys: seq<Buffer>, ks: Shape, vs: Shape)
  {
    && ks.size > 0 && vs.size > 0
    && (forall i :: 0 <= i < |adds| ==>
          && ShapeOf(adds[i].0) == ks && ShapeOf(adds[i].1) == vs
          && RefsAlive(heap, adds[i].0) && RefsAlive(heap, adds[i].1) && MeetsAll(adds, adds[i].0))
    && (forall i :: 0 <= i < |keys| ==> ShapeOf(keys[i]) == ks && MeetsAll(adds, keys[i]))
  }

  /** The key can be hashed, and compared with every key that is added. */
  ghost predicate MeetsAll(adds: seq<(Buffer, Buffer)>, key: Buffer)
  {
    BufferHash(key).Some? && forall i :: 0 <= i < |adds| ==> |adds[i].0.refs| == |key.refs| && BuffersEqual(adds[i].0, key).Some?
  }

  /** Every entry's key is one of the first `n` added. */
  ghost predicate FromAdds(m: Entries, adds: seq<(Buffer, Buffer)>, n: nat)
    requires n <= |adds|
  {
    forall k :: k in m ==> exists i :: 0 <= i < n && adds[i].0 == k
  }

  lemma {:induction false} FromAddsComparable(m: Entries, adds: seq<(Buffer, Buffer)>, n: nat, key: Buffer)
    requires n <= |adds| && FromAdds(m, adds, n) && MeetsAll(adds, key)
    ensures Comparable(m, key)
  {
  }

  lemma {:induction false} FromNone(adds: seq<(Buffer, Buffer)>)
    ensures FromAdds(map[], adds, 0)
  {
  }

  lemma {:induction false} FromOneMore(m: Entries, m': Entries, adds: seq<(Buffer, Buffer)>, i: nat)
    requires i < |adds| && FromAdds(m, adds, i) && m'.Keys <= m.Keys + {adds[i].0}
    ensures FromAdds(m', adds, i + 1)
  {
    forall k | k in m'
      ensures exists j :: 0 <= j < i + 1 && adds[j].0 == k
    {
      assert k in m.Keys + {adds[i].0};
    }
  }

  lemma {:induction false} FromSameKeys(m: Entries, m': Entries, adds: seq<(Buffer, Buffer)>)
    requires FromAdds(m, adds, |adds|) && m'.Keys == m.Keys
    ensures FromAdds(m', adds, |adds|)
  {
    forall k | k in m'
      ensures exists j :: 0 <= j < |adds| && adds[j].0 == k
    {
      assert k in m.Keys;
    }
  }

  lemma {:induction false} UniformAt(heap: seq<RefCount.Cell>, heap': seq<RefCount.Cell>, adds: seq<(Buffer, Buffer)>,
                                     keys: seq<Buffer>, ks: Shape, vs: Shape, i: nat)
    requires Uniform(heap, adds, keys, ks, vs) && RefCount.SameObjects(heap, heap') && i < |adds|
    ensures ks.size > 0 && ShapeOf(adds[i].0) == ks && ShapeOf(adds[i].1) == vs && MeetsAll(adds, adds[i].0)
    ensures RefsAlive(heap', adds[i].0) && RefsAlive(heap', adds[i].1)
  {
    StillAlive(heap, heap', adds[i].0);
    StillAlive(heap, heap', adds[i].1);
  }

  lemma {:induction false} UniformKeys(heap: seq<RefCount.Cell>, adds: seq<(Buffer, Buffer)>, keys: seq<Buffer>, ks: Shape, vs: Shape)
    requires Uniform(heap, adds, keys, ks, vs)
    ensures vs.size > 0 && forall i :: 0 <= i < |keys| ==> ShapeOf(keys[i]) == ks && MeetsAll(adds, keys[i])
  {
  }

  lemma {:induction false} OneMoreResult(others: multiset<nat>, results: seq<nat>, x: nat)
    ensures others + multiset(results) + multiset{x} == others + multiset(results + [x])
  {
  }

  /** A key has an entry exactly when its group has rows. */
  lemma {:induction false} HasKeyIff(m: Entries, buffers: Buffers, next: nat, sets: Buffers, empty: Option<nat>,
                                     added: seq<(Buffer, Buffer)>, key: Buffer)
    requires Content(m, buffers, next, sets, empty, true, added) && FromAdds(m, added, |added|)
    ensures HasKey(m, key) <==> Group(added, |added|, key) != []
  {
    hide Grouped, Group, SameMeaning;
    if HasKey(m, key) {
      var k :| k in m && SameMeaning(k, key);
      var i :| 0 <= i < |added| && added[i].0 == k;
      GroupHas(added, |added|, key, added[i].1);
    } else {
      Absent(m, buffers, next, sets, empty, added, key);
    }
  }

  /** Two keys get the same result set exactly when they are equal or both have no rows. */
  lemma {:induction false} SameResultIff(m: Entries, buffers: Buffers, next: nat, sets: Buffers, empty: Option<nat>,
                                         added: seq<(Buffer, Buffer)>, key: Buffer, o: nat, key': Buffer, o': nat)
    requires Content(m, buffers, next, sets, empty, true, added) && FromAdds(m, added, |added|)
    requires Recorded(m, empty, key, o) && Recorded(m, empty, key', o')
    ensures o == o' <==>
            SameMeaning(key, key') || (Group(added, |added|, key) == [] && Group(added, |added|, key') == [])
  {
    hide Group, FromAdds, SameMeaning;
    HasKeyIff(m, buffers, next, sets, empty, added, key);
    HasKeyIff(m, buffers, next, sets, empty, added, key');
    if SameMeaning(key, key') {
      GroupSame(added, |added|, key, key');
    }
    if HasKey(m, key) && HasKey(m, key') {
      var k :| k in m && SameMeaning(k, key) && m[k] == Shared(o);
      var k' :| k' in m && SameMeaning(k', key') && m[k'] == Shared(o');
      SameMeaningLaws(k, key, key');
      SameMeaningLaws(k', key', k);
      SameMeaningLaws(k, k', key');
      assert SameMeaning(key, key') <==> k == k';
    }
  }

  /** A partition's whole life.  Whatever rows are added and whatever keys are then extracted,
      each key gets the rows added under an equal key, in order; equal keys get one object, and
      so do all keys without rows.  When the partition and the results are gone, whichever
      results are let go of before the partition, every reference is back where it was; if no
      objects owned each other in a circle, so is every object with its count, and nothing made
      in between is left. */
  method WholeLife(rt: RefCount.Runtime, adds: seq<(Buffer, Buffer)>, keys: seq<Buffer>, early: seq<bool>, ghost ks: Shape, ghost vs: Shape)
    returns (results: seq<nat>, rows: seq<seq<Buffer>>)
    requires rt.Valid() && Uniform(rt.heap, adds, keys, ks, vs) && |early| == |keys|
    modifies rt
    ensures rt.Valid() && rt.ext == old(rt.ext)
    ensures forall rank: nat -> nat :: RefCount.Acyclic(old(rt.heap), rank) ==>
              && rt.outstanding == old(rt.outstanding) && old(rt.heap) <= rt.heap
              && forall x :: |old(rt.heap)| <= x < |rt.heap| ==> rt.heap[x].Freed?
    ensures |results| == |rows| == |keys|
    ensures forall i :: 0 <= i < |keys| ==> rows[i] == Group(adds, |adds|, keys[i])
    ensures forall i, j :: 0 <= i < |keys| && 0 <= j < |keys| ==>
              (results[i] == results[j] <==> SameMeaning(keys[i], keys[j]) || (rows[i] == [] && rows[j] == []))
  {
    hide RefCount.Declared, RefCount.Evolves, RefCount.Runtime.Valid, Group, SameMeaning, Uniform, FromAdds, MeetsAll;
    hide Partition.Valid, RefCount.Acyclic;
    ghost var others, first, log, count := rt.ext, rt.heap, rt.log, rt.outstanding;
    RefCount.RuntimeDeclares(rt);
    RefCount.RuntimeSettled(rt);
    UniformKeys(rt.heap, adds, keys, ks, vs);
    var p := new Partition(rt);
    p.AddAll(adds, keys, others, ks, vs);
    RefCount.SameEvolves(first, rt.heap);
    ghost var heap := rt.heap;
    results, rows := p.ExtractAll(adds, keys, others, ks, vs);
    RefCount.EvolvesTrans(first, heap, rt.heap);
    heap := rt.heap;
    RefCount.Kept(first, heap, others);
    var late := p.ReleaseEarly(results, early, others);
    RefCount.EvolvesTrans(first, heap, rt.heap);
    heap := rt.heap;
    p.Finalize(others + multiset(late));
    RefCount.EvolvesTrans(first, heap, rt.heap);
    heap := rt.heap;
    RefCount.Kept(first, heap, others);
    ReleaseAll(rt, late, others);
    RefCount.EvolvesTrans(first, heap, rt.heap);
    RefCount.RuntimeSettled(rt);
    forall rank: nat -> nat | RefCount.Acyclic(first, rank)
      ensures rt.outstanding == count && first <= rt.heap
      ensures forall x :: |first| <= x < |rt.heap| ==> rt.heap[x].Freed?
    {
      RefCount.BackToStart(first, log, rt.heap, rt.log, others, rank);
    }
  }

  /** The holders of the results let go. */
  method ReleaseAll(rt: RefCount.Runtime, results: seq<nat>, ghost others: multiset<nat>)
    requires rt.Valid() && rt.ext == others + multiset(results) && RefCount.Declared(rt.heap, others)
    modifies rt
    ensures rt.Valid() && rt.ext == others && RefCount.Evolves(old(rt.heap), rt.heap)
  {
    hide RefCount.Declared, RefCount.Later, RefCount.Sound, RefCount.Evolves;
    RefCount.EvolvesSame(rt.heap);
    var i := 0;
    assert results[0..] == results;
    while i < |results|
      invariant 0 <= i <= |results| && rt.Valid() && RefCount.Declared(rt.heap, others)
      invariant rt.ext == others + multiset(results[i..]) && RefCount.Evolves(old(rt.heap), rt.heap)
    {
      ghost var heap, base := rt.heap, others + multiset(results[i + 1..]);
      assert results[i..] == [results[i]] + results[i + 1..];
      assert rt.ext == base + RefCount.One(Some(results[i]));
      RefCount.Owing(base, Some(results[i]));
      RefCount.MoreDeclared(heap, others, multiset(results[i + 1..]));
      RefCount.Releasable(heap, rt.ext, rt.log, base, Some(results[i]));
      rt.Release(Some(results[i]));
      RefCount.StillDeclared(heap, rt.heap, others);
      RefCount.LaterEvolves(heap, rt.heap);
      RefCount.EvolvesTrans(old(rt.heap), heap, rt.heap);
      i := i + 1;
    }
  }
}
