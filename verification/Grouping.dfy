/** The data of a partition, apart from its hash table: groups of rows, the references each
    entry holds, and what adding and extracting do to them. */
module Grouping {
  import opened Bytes
  import opened RowHash
  import RefCount

  /** The value stored for a key: a growable buffer of rows while rows are being added, a
      shared result set once they have been extracted (the low bit of the C value). */
  datatype Val = Rows(buf: nat) | Shared(obj: nat)

  type Entries = map<Buffer, Val>

  /** The addresses of live row buffers, and what is in them. */
  type Buffers = map<nat, seq<Buffer>>

  // ---------- keys ----------

  function KeyHash(key: Buffer): (h: nat)
  {
    var h := BufferHash(key);
    if h.Some? then h.value % 0x1_0000_0000 else 0
  }

  predicate KeyEqual(a: Buffer, b: Buffer)
  {
    |a.refs| == |b.refs| && BuffersEqual(a, b) == Some(true)
  }

  lemma {:induction false} KeyEqualIff(a: Buffer, b: Buffer)
    ensures KeyEqual(a, b) <==> SameMeaning(a, b)
  {
    if |a.refs| == |b.refs| {
      BuffersEqualIff(a, b);
    }
  }

  lemma {:induction false} EqualKeysHashAlike(a: Buffer, b: Buffer)
    requires KeyEqual(a, b)
    ensures KeyHash(a) == KeyHash(b)
  {
    EqualRowsHashAlike(a, b);
  }

  // ---------- groups ----------

  /** The rows added under keys that mean the same as `key`, in the order they were added. */
  function Group(added: seq<(Buffer, Buffer)>, n: nat, key: Buffer): (rows: seq<Buffer>)
    requires n <= |added|
  {
    if n == 0 then []
    else Group(added, n - 1, key) + (if SameMeaning(added[n - 1].0, key) then [added[n - 1].1] else [])
  }

  lemma {:induction false} GroupSame(added: seq<(Buffer, Buffer)>, n: nat, k: Buffer, k': Buffer)
    requires n <= |added| && SameMeaning(k, k')
    ensures Group(added, n, k) == Group(added, n, k')
  {
    if n > 0 {
      GroupSame(added, n - 1, k, k');
    }
  }

  lemma {:induction false} GroupPrefix(added: seq<(Buffer, Buffer)>, n: nat, key: Buffer, last: (Buffer, Buffer))
    requires n <= |added|
    ensures Group(added + [last], n, key) == Group(added, n, key)
  {
    if n > 0 {
      GroupPrefix(added, n - 1, key, last);
    }
  }

  lemma {:induction false} GroupNone(added: seq<(Buffer, Buffer)>, n: nat, key: Buffer)
    requires n <= |added| && forall i :: 0 <= i < n ==> !SameMeaning(added[i].0, key)
    ensures Group(added, n, key) == []
  {
    if n > 0 {
      GroupNone(added, n - 1, key);
    }
  }

  /** A row belongs to a group exactly when its key does. */
  lemma {:induction false} GroupHas(added: seq<(Buffer, Buffer)>, n: nat, key: Buffer, row: Buffer)
    requires n <= |added|
    ensures row in Group(added, n, key) <==> exists i :: 0 <= i < n && SameMeaning(added[i].0, key) && added[i].1 == row
  {
    if n > 0 {
      GroupHas(added, n - 1, key, row);
      if SameMeaning(added[n - 1].0, key) && added[n - 1].1 == row {
        assert row in Group(added, n, key);
      }
    }
  }

  /** The groups of two lists put together are their groups put together, in order. */
  lemma {:induction false} GroupConcat(a: seq<(Buffer, Buffer)>, b: seq<(Buffer, Buffer)>, n: nat, key: Buffer)
    requires n <= |b|
    ensures Group(a + b, |a| + n, key) == Group(a, |a|, key) + Group(b, n, key)
  {
    if n > 0 {
      GroupConcat(a, b, n - 1, key);
    } else {
      GroupFront(a, b, |a|, key);
    }
  }

  lemma {:induction false} GroupFront(a: seq<(Buffer, Buffer)>, b: seq<(Buffer, Buffer)>, n: nat, key: Buffer)
    requires n <= |a|
    ensures Group(a + b, n, key) == Group(a, n, key)
  {
    if n > 0 {
      GroupFront(a, b, n - 1, key);
    }
  }

  /** One row is in the group of its key and of no other. */
  lemma {:induction false} GroupOne(k: Buffer, row: Buffer, key: Buffer)
    ensures Group([(k, row)], 1, key) == if SameMeaning(k, key) then [row] else []
  {
    assert Group([(k, row)], 0, key) == [];
  }

  ghost predicate HasKey(m: Entries, key: Buffer)
  {
    exists k :: k in m && SameMeaning(k, key)
  }

  /** The rows an entry stands for. */
  function RowsOf(v: Val, buffers: Buffers, sets: Buffers): (rows: Option<seq<Buffer>>)
  {
    match v
    case Rows(b) => if b in buffers then Some(buffers[b]) else None
    case Shared(o) => if o in sets then Some(sets[o]) else None
  }

  /** Every entry stands for its key's group; keys are inequivalent, buffers and result sets
      are not shared between entries, and every added row has an entry. */
  ghost predicate Grouped(m: Entries, buffers: Buffers, sets: Buffers, added: seq<(Buffer, Buffer)>)
  {
    && (forall k :: k in m ==> RowsOf(m[k], buffers, sets) == Some(Group(added, |added|, k)))
    && (forall k, k' :: k in m && k' in m && SameMeaning(k, k') ==> k == k')
    && (forall k, k' :: k in m && k' in m && m[k] == m[k'] ==> k == k')
    && (forall i :: 0 <= i < |added| ==> HasKey(m, added[i].0))
  }

  lemma {:induction false} AbsentIsEmpty(m: Entries, buffers: Buffers, sets: Buffers, added: seq<(Buffer, Buffer)>, key: Buffer)
    requires Grouped(m, buffers, sets, added) && !HasKey(m, key)
    ensures Group(added, |added|, key) == []
  {
    forall i | 0 <= i < |added|
      ensures !SameMeaning(added[i].0, key)
    {
      assert HasKey(m, added[i].0);
    }
    GroupNone(added, |added|, key);
  }

  lemma {:induction false} PresentIsGroup(m: Entries, buffers: Buffers, sets: Buffers, added: seq<(Buffer, Buffer)>, key: Buffer, k: Buffer)
    requires Grouped(m, buffers, sets, added) && k in m && SameMeaning(k, key)
    ensures RowsOf(m[k], buffers, sets) == Some(Group(added, |added|, key))
  {
    GroupSame(added, |added|, k, key);
  }

  /** Group of any key after one more row. */
  lemma {:induction false} GroupGrows(added: seq<(Buffer, Buffer)>, key: Buffer, row: Buffer, k: Buffer)
    ensures Group(added + [(key, row)], |added| + 1, k) ==
            if SameMeaning(key, k) then Group(added, |added|, k) + [row] else Group(added, |added|, k)
  {
    GroupPrefix(added, |added|, k, (key, row));
  }

  /** A row is appended to the buffer of its key's entry. */
  lemma {:induction false} AppendGrouped(m: Entries, buffers: Buffers, sets: Buffers, added: seq<(Buffer, Buffer)>,
                                         k: Buffer, key: Buffer, row: Buffer)
    requires Grouped(m, buffers, sets, added) && k in m && SameMeaning(k, key) && m[k].Rows? && m[k].buf in buffers
    ensures Grouped(m, buffers[m[k].buf := buffers[m[k].buf] + [row]], sets, added + [(key, row)])
  {
    hide Group, SameMeaning;
    var more, b := added + [(key, row)], m[k].buf;
    var buffers' := buffers[b := buffers[b] + [row]];
    forall k' | k' in m
      ensures RowsOf(m[k'], buffers', sets) == Some(Group(more, |more|, k'))
    {
      assert |more| == |added| + 1;
      GroupGrows(added, key, row, k');
      SameMeaningLaws(k, key, k');
      assert k' != k ==> !SameMeaning(k, k') && m[k'] != Rows(b);
      assert RowsOf(m[k'], buffers, sets) == Some(Group(added, |added|, k'));
    }
    forall i | 0 <= i < |more|
      ensures HasKey(m, more[i].0)
    {
      if i < |added| {
        assert HasKey(m, added[i].0);
      }
    }
  }

  lemma {:induction false} SameMeaningLaws(a: Buffer, b: Buffer, c: Buffer)
    ensures SameMeaning(a, a) && (SameMeaning(a, b) ==> SameMeaning(b, a))
    ensures SameMeaning(a, b) ==> (SameMeaning(a, c) <==> SameMeaning(b, c))
    ensures SameMeaning(a, b) ==> (SameMeaning(c, a) <==> SameMeaning(c, b))
  {
  }

  /** A key with no entry gets one, with a new empty buffer. */
  lemma {:induction false} NewGrouped(m: Entries, buffers: Buffers, sets: Buffers, added: seq<(Buffer, Buffer)>, key: Buffer, b: nat)
    requires Grouped(m, buffers, sets, added) && !HasKey(m, key) && b !in buffers
    ensures Grouped(m[key := Rows(b)], buffers[b := []], sets, added)
  {
    hide Group, SameMeaning;
    var m', buffers' := m[key := Rows(b)], buffers[b := []];
    AbsentIsEmpty(m, buffers, sets, added, key);
    forall k | k in m
      ensures !SameMeaning(k, key) && !SameMeaning(key, k) && m[k] != Rows(b)
      ensures k != key
    {
      SameMeaningLaws(k, key, key);
      SameMeaningLaws(key, k, k);
      assert RowsOf(m[k], buffers, sets).Some?;
    }
    forall i | 0 <= i < |added|
      ensures HasKey(m', added[i].0)
    {
      assert HasKey(m, added[i].0);
      var k :| k in m && SameMeaning(k, added[i].0);
      assert k in m';
    }
  }

  /** An entry's buffer becomes a result set with the same rows. */
  lemma {:induction false} SharedGrouped(m: Entries, buffers: Buffers, sets: Buffers, added: seq<(Buffer, Buffer)>, k: Buffer, o: nat)
    requires Grouped(m, buffers, sets, added) && k in m && m[k].Rows? && m[k].buf in buffers && o !in sets
    ensures Grouped(m[k := Shared(o)], buffers - {m[k].buf}, sets[o := buffers[m[k].buf]], added)
  {
    hide Group, SameMeaning;
    var b := m[k].buf;
    var m', buffers', sets' := m[k := Shared(o)], buffers - {b}, sets[o := buffers[b]];
    forall k' | k' in m'
      ensures RowsOf(m'[k'], buffers', sets') == Some(Group(added, |added|, k'))
      ensures k' != k ==> m'[k'] != Shared(o)
    {
      assert RowsOf(m[k'], buffers, sets).Some?;
    }
    forall i | 0 <= i < |added|
      ensures HasKey(m', added[i].0)
    {
      assert HasKey(m, added[i].0);
      var k' :| k' in m && SameMeaning(k', added[i].0);
      assert k' in m';
    }
  }

  // ---------- references ----------

  function IdOf(r: Ref): (id: Option<nat>)
  {
    if r.Null? then None else Some(r.id)
  }

  function Ids(refs: seq<Ref>): (ids: seq<Option<nat>>)
    ensures |ids| == |refs|
  {
    seq(|refs|, i requires 0 <= i < |refs| => IdOf(refs[i]))
  }

  /** All reference slots of the rows from `i` on. */
  function RowSlots(rows: seq<Buffer>, i: nat): (ids: seq<Option<nat>>)
    requires i <= |rows|
    decreases |rows| - i
  {
    if i == |rows| then [] else Ids(rows[i].refs) + RowSlots(rows, i + 1)
  }

  function RefsOf(ids: seq<Option<nat>>): (m: multiset<nat>)
  {
    RefCount.RefsFrom(ids, 0)
  }

  lemma {:induction false} RefsShift(a: seq<Option<nat>>, b: seq<Option<nat>>, j: nat)
    requires j <= |b|
    ensures RefCount.RefsFrom(a + b, |a| + j) == RefCount.RefsFrom(b, j)
    decreases |b| - j
  {
    if j < |b| {
      RefsShift(a, b, j + 1);
    }
  }

  lemma {:induction false} RefsAppend(a: seq<Option<nat>>, b: seq<Option<nat>>, i: nat)
    requires i <= |a|
    ensures RefCount.RefsFrom(a + b, i) == RefCount.RefsFrom(a, i) + RefsOf(b)
    decreases |a| - i
  {
    if i < |a| {
      RefsAppend(a, b, i + 1);
    } else {
      RefsShift(a, b, 0);
      RefCount.NoMoreRefs(a);
    }
  }

  lemma {:induction false} RowSlotsAppend(rows: seq<Buffer>, row: Buffer, i: nat)
    requires i <= |rows|
    ensures RowSlots(rows + [row], i) == RowSlots(rows, i) + Ids(row.refs)
    decreases |rows| - i
  {
    if i < |rows| {
      RowSlotsAppend(rows, row, i + 1);
    } else {
      assert RowSlots(rows + [row], i + 1) == [];
    }
  }

  /** The references a buffer of rows holds grow by those of the new row. */
  lemma {:induction false} RowRefsGrow(rows: seq<Buffer>, row: Buffer)
    ensures RefsOf(RowSlots(rows + [row], 0)) == RefsOf(RowSlots(rows, 0)) + RefsOf(Ids(row.refs))
  {
    RowSlotsAppend(rows, row, 0);
    RefsAppend(RowSlots(rows, 0), Ids(row.refs), 0);
  }

  lemma {:induction false} RowRefsNext(rows: seq<Buffer>, i: nat)
    requires i < |rows|
    ensures RefsOf(RowSlots(rows, i)) == RefsOf(Ids(rows[i].refs)) + RefsOf(RowSlots(rows, i + 1))
  {
    RefsAppend(Ids(rows[i].refs), RowSlots(rows, i + 1), 0);
  }

  lemma {:induction false} RowRefsNone(rows: seq<Buffer>)
    ensures RefsOf(RowSlots(rows, |rows|)) == multiset{}
  {
  }

  /** What a value holds: the references of its rows, or its result set. */
  function ValRefs(v: Val, buffers: Buffers): (m: multiset<nat>)
  {
    match v
    case Rows(b) => if b in buffers then RefsOf(RowSlots(buffers[b], 0)) else multiset{}
    case Shared(o) => multiset{o}
  }

  /** What the entries of the keys from `i` on hold. */
  function Held(order: seq<Buffer>, m: Entries, buffers: Buffers, i: nat): (h: multiset<nat>)
    requires i <= |order| && forall j :: 0 <= j < |order| ==> order[j] in m
    decreases |order| - i
  {
    if i == |order| then multiset{}
    else RefsOf(Ids(order[i].refs)) + ValRefs(m[order[i]], buffers) + Held(order, m, buffers, i + 1)
  }

  predicate Lists(order: seq<Buffer>, m: Entries)
  {
    && (forall j :: 0 <= j < |order| ==> order[j] in m)
    && (forall k :: k in m ==> k in order)
    && (forall i, j :: 0 <= i < j < |order| ==> order[i] != order[j])
  }

  /** Nothing changes for keys whose values hold the same. */
  lemma {:induction false} HeldSame(order: seq<Buffer>, m: Entries, buffers: Buffers, m': Entries, buffers': Buffers, i: nat)
    requires i <= |order| && forall j :: 0 <= j < |order| ==> order[j] in m && order[j] in m'
    requires forall j :: i <= j < |order| ==> ValRefs(m[order[j]], buffers) == ValRefs(m'[order[j]], buffers')
    ensures Held(order, m, buffers, i) == Held(order, m', buffers', i)
    decreases |order| - i
  {
    hide ValRefs, RefsOf, Ids;
    if i < |order| {
      HeldSame(order, m, buffers, m', buffers', i + 1);
    }
  }

  /** One key's value changes. */
  lemma {:induction false} HeldUpdate(order: seq<Buffer>, m: Entries, buffers: Buffers, m': Entries, buffers': Buffers, i: nat, p: nat)
    requires i <= p < |order| && forall j :: 0 <= j < |order| ==> order[j] in m && order[j] in m'
    requires forall j :: i <= j < |order| && j != p ==> ValRefs(m[order[j]], buffers) == ValRefs(m'[order[j]], buffers')
    ensures Held(order, m, buffers, i) + ValRefs(m'[order[p]], buffers') ==
            Held(order, m', buffers', i) + ValRefs(m[order[p]], buffers)
    decreases |order| - i
  {
    hide ValRefs, RefsOf, Ids;
    if i == p {
      HeldSame(order, m, buffers, m', buffers', i + 1);
    } else {
      HeldUpdate(order, m, buffers, m', buffers', i + 1, p);
      AddBoth(RefsOf(Ids(order[i].refs)) + ValRefs(m[order[i]], buffers), Held(order, m, buffers, i + 1),
              ValRefs(m'[order[p]], buffers'), Held(order, m', buffers', i + 1), ValRefs(m[order[p]], buffers));
    }
  }

  lemma {:induction false} AddBoth(r: multiset<nat>, a: multiset<nat>, b: multiset<nat>, c: multiset<nat>, d: multiset<nat>)
    requires a + b == c + d
    ensures (r + a) + b == (r + c) + d
  {
    assert (r + a) + b == r + (a + b);
    assert (r + c) + d == r + (c + d);
  }

  /** A new key at the end. */
  lemma {:induction false} HeldPush(order: seq<Buffer>, m: Entries, buffers: Buffers, key: Buffer, i: nat)
    requires i <= |order| && key in m && forall j :: 0 <= j < |order| ==> order[j] in m
    ensures Held(order + [key], m, buffers, i) ==
            Held(order, m, buffers, i) + RefsOf(Ids(key.refs)) + ValRefs(m[key], buffers)
    decreases |order| - i
  {
    hide ValRefs, RefsOf, Ids;
    if i < |order| {
      HeldPush(order, m, buffers, key, i + 1);
    } else {
      assert Held(order + [key], m, buffers, i + 1) == multiset{};
    }
  }

  lemma {:induction false} HeldStep(order: seq<Buffer>, m: Entries, buffers: Buffers, i: nat)
    requires i < |order| && forall j :: 0 <= j < |order| ==> order[j] in m
    ensures Held(order, m, buffers, i) ==
            RefsOf(Ids(order[i].refs)) + ValRefs(m[order[i]], buffers) + Held(order, m, buffers, i + 1)
  {
  }

  /** A key is taken out. */
  lemma {:induction false} HeldRemove(order: seq<Buffer>, m: Entries, buffers: Buffers, i: nat, p: nat)
    requires i <= p < |order| && forall j :: 0 <= j < |order| ==> order[j] in m
    ensures Held(order, m, buffers, i) ==
            RefsOf(Ids(order[p].refs)) + ValRefs(m[order[p]], buffers) + Held(order[..p] + order[p + 1..], m, buffers, i)
    decreases |order| - i
  {
    hide ValRefs, RefsOf, Ids, Held;
    var rest := order[..p] + order[p + 1..];
    HeldStep(order, m, buffers, i);
    if i == p {
      HeldTail(order, rest, m, buffers, p + 1, p);
    } else {
      HeldRemove(order, m, buffers, i + 1, p);
      HeldStep(rest, m, buffers, i);
      assert rest[i] == order[i];
      Shuffle(RefsOf(Ids(order[i].refs)) + ValRefs(m[order[i]], buffers), RefsOf(Ids(order[p].refs)) + ValRefs(m[order[p]], buffers),
              Held(rest, m, buffers, i + 1));
    }
  }

  lemma {:induction false} Shuffle(a: multiset<nat>, b: multiset<nat>, c: multiset<nat>)
    ensures a + (b + c) == b + (a + c)
  {
  }

  lemma {:induction false} HeldTail(order: seq<Buffer>, rest: seq<Buffer>, m: Entries, buffers: Buffers, i: nat, j: nat)
    requires i <= |order| && j <= |rest| && order[i..] == rest[j..]
    requires (forall q :: 0 <= q < |order| ==> order[q] in m) && (forall q :: 0 <= q < |rest| ==> rest[q] in m)
    ensures Held(order, m, buffers, i) == Held(rest, m, buffers, j)
    decreases |order| - i
  {
    hide ValRefs, RefsOf, Ids;
    assert |order| - i == |order[i..]| == |rest[j..]| == |rest| - j;
    if i < |order| {
      assert order[i] == order[i..][0] == rest[j..][0] == rest[j];
      assert order[i + 1..] == order[i..][1..] == rest[j..][1..] == rest[j + 1..];
      HeldTail(order, rest, m, buffers, i + 1, j + 1);
    }
  }
}
