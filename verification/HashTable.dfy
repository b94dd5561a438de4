/** The linear-probing hash table (`cql_hashtab`).  Keys are compared by an equivalence
    that the hash respects; the table refines a map from keys to values. */
module HashTable {

  datatype Slot<K, V> = Empty | Entry(key: K, val: V)

  const INIT_SIZE: nat := 4

  // ---------- probing ----------

  /** The `j`-th slot of a probe that starts at `start`, wrapping at the end. */
  function Probe(start: nat, j: nat, capacity: nat): (p: nat)
    requires start < capacity && j < capacity
    ensures p < capacity
  {
    if start + j < capacity then start + j else start + j - capacity
  }

  /** How many steps a probe from `start` takes to reach slot `p`. */
  function Steps(start: nat, p: nat, capacity: nat): (j: nat)
    requires start < capacity && p < capacity
    ensures j < capacity && Probe(start, j, capacity) == p
  {
    if start <= p then p - start else p + capacity - start
  }

  function Start<K>(hash: K -> nat, k: K, capacity: nat): (s: nat)
    requires capacity > 0
    ensures s < capacity
  {
    hash(k) % capacity
  }

  /** A probe starts at the hash modulo the capacity and goes on by ones, round the end. */
  lemma {:induction false} ProbeIs<K>(hash: K -> nat, k: K, j: nat, capacity: nat)
    requires j < capacity
    ensures Probe(Start(hash, k, capacity), j, capacity) == (hash(k) % capacity + j) % capacity
  {
    var i := hash(k) % capacity + j;
    if i >= capacity {
      assert i == 1 * capacity + (i - capacity);
      RemainderIs(i, capacity, 1, i - capacity);
    } else {
      RemainderIs(i, capacity, 0, i);
    }
  }

  lemma {:induction false} RemainderIs(n: nat, d: nat, q: nat, r: nat)
    requires q <= 1 && r < d && n == (if q == 1 then d else 0) + r
    ensures n % d == r
  {
  }

  // ---------- well-formed tables ----------

  /** The comparison is an equivalence and equal keys hash alike. */
  ghost predicate Congruent<K(!new)>(hash: K -> nat, eq: (K, K) -> bool)
  {
    && (forall a :: eq(a, a))
    && (forall a, b :: eq(a, b) ==> eq(b, a) && hash(a) == hash(b))
    && (forall a, b, c :: eq(a, b) && eq(b, c) ==> eq(a, c))
  }

  /** No empty slot lies between where a key's probe starts and where the key is. */
  predicate Reachable<K, V>(slots: seq<Slot<K, V>>, hash: K -> nat, p: nat)
    requires p < |slots| && slots[p].Entry?
  {
    var start := Start(hash, slots[p].key, |slots|);
    forall j :: 0 <= j < Steps(start, p, |slots|) ==> slots[Probe(start, j, |slots|)].Entry?
  }

  ghost predicate Table<K, V>(slots: seq<Slot<K, V>>, hash: K -> nat, eq: (K, K) -> bool)
  {
    && |slots| > 0
    && (forall p :: 0 <= p < |slots| && slots[p].Entry? ==> Reachable(slots, hash, p))
    && (forall p, q :: 0 <= p < |slots| && 0 <= q < |slots| && p != q && slots[p].Entry? && slots[q].Entry? ==>
          !eq(slots[p].key, slots[q].key))
  }

  function Occupied<K, V>(slots: seq<Slot<K, V>>, n: nat): (c: nat)
    requires n <= |slots|
    ensures c <= n
  {
    if n == 0 then 0 else Occupied(slots, n - 1) + (if slots[n - 1].Entry? then 1 else 0)
  }

  /** The first `j` slots of the probe are taken by other keys. */
  predicate Passed<K, V>(slots: seq<Slot<K, V>>, eq: (K, K) -> bool, k: K, start: nat, j: nat)
    requires start < |slots| && j <= |slots|
  {
    forall i :: 0 <= i < j ==>
      slots[Probe(start, i, |slots|)].Entry? && !eq(slots[Probe(start, i, |slots|)].key, k)
  }

  /** A probe that has passed every slot has seen the table full. */
  lemma {:induction false} PassedAll<K, V>(slots: seq<Slot<K, V>>, eq: (K, K) -> bool, k: K, start: nat)
    requires start < |slots| && Passed(slots, eq, k, start, |slots|)
    ensures Occupied(slots, |slots|) == |slots|
  {
    forall p | 0 <= p < |slots|
      ensures slots[p].Entry?
    {
      assert slots[Probe(start, Steps(start, p, |slots|), |slots|)].Entry?;
    }
    AllOccupied(slots, |slots|);
  }

  /** In a table that is not full, a probe has always more slots to see. */
  lemma {:induction false} NotYetAll<K, V>(slots: seq<Slot<K, V>>, eq: (K, K) -> bool, k: K, start: nat, j: nat)
    requires start < |slots| && j <= |slots| && Passed(slots, eq, k, start, j)
    requires Occupied(slots, |slots|) < |slots|
    ensures j < |slots|
  {
    if j == |slots| {
      PassedAll(slots, eq, k, start);
    }
  }

  lemma {:induction false} AllOccupied<K, V>(slots: seq<Slot<K, V>>, n: nat)
    requires n <= |slots| && forall p :: 0 <= p < n ==> slots[p].Entry?
    ensures Occupied(slots, n) == n
  {
    if n > 0 {
      AllOccupied(slots, n - 1);
    }
  }

  lemma {:induction false} OccupiedUpdate<K, V>(slots: seq<Slot<K, V>>, n: nat, p: nat, s: Slot<K, V>)
    requires n <= |slots| && p < |slots|
    ensures Occupied(slots[p := s], n) ==
            Occupied(slots, n) + (if p < n then (if s.Entry? then 1 else 0) - (if slots[p].Entry? then 1 else 0) else 0)
  {
    if n > 0 {
      OccupiedUpdate(slots, n - 1, p, s);
    }
  }

  lemma {:induction false} NoneOccupied<K, V>(slots: seq<Slot<K, V>>, n: nat)
    requires n <= |slots| && forall p :: 0 <= p < n ==> slots[p].Empty?
    ensures Occupied(slots, n) == 0
  {
    if n > 0 {
      NoneOccupied(slots, n - 1);
    }
  }

  /** An empty slot on the probe means the key is nowhere in the table. */
  lemma {:induction false} EmptyEndsProbe<K(!new), V>(slots: seq<Slot<K, V>>, hash: K -> nat, eq: (K, K) -> bool,
                                                      k: K, j: nat, q: nat)
    requires Congruent(hash, eq) && Table(slots, hash, eq) && j < |slots| && q < |slots|
    requires Passed(slots, eq, k, Start(hash, k, |slots|), j)
    requires slots[Probe(Start(hash, k, |slots|), j, |slots|)].Empty?
    ensures slots[q].Entry? ==> !eq(slots[q].key, k)
  {
    var start := Start(hash, k, |slots|);
    if slots[q].Entry? {
      var d := Steps(start, q, |slots|);
      assert Reachable(slots, hash, q);
      if Start(hash, slots[q].key, |slots|) == start {
        assert d <= j;
        assert d < j ==> !eq(slots[Probe(start, d, |slots|)].key, k);
      }
    }
  }

  /** Filling the empty slot at the end of a probe keeps the table well formed. */
  lemma {:induction false} InsertKeepsTable<K(!new), V>(slots: seq<Slot<K, V>>, hash: K -> nat, eq: (K, K) -> bool,
                                                        k: K, v: V, j: nat, p: nat)
    requires Congruent(hash, eq) && Table(slots, hash, eq) && j < |slots|
    requires Passed(slots, eq, k, Start(hash, k, |slots|), j)
    requires p == Probe(Start(hash, k, |slots|), j, |slots|) && slots[p].Empty?
    ensures Table(slots[p := Entry(k, v)], hash, eq)
  {
    var start, more := Start(hash, k, |slots|), slots[p := Entry(k, v)];
    forall q | 0 <= q < |slots| && more[q].Entry?
      ensures Reachable(more, hash, q)
    {
      if q == p {
        assert Steps(start, p, |slots|) == j;
      } else {
        assert Reachable(slots, hash, q);
      }
    }
    forall q, r | 0 <= q < |slots| && 0 <= r < |slots| && q != r && more[q].Entry? && more[r].Entry?
      ensures !eq(more[q].key, more[r].key)
    {
      EmptyEndsProbe(slots, hash, eq, k, j, q);
      EmptyEndsProbe(slots, hash, eq, k, j, r);
    }
  }

  // ---------- the keys a table holds ----------

  function KeysIn<K, V>(slots: seq<Slot<K, V>>, n: nat): (ks: multiset<K>)
    requires n <= |slots|
  {
    if n == 0 then multiset{}
    else KeysIn(slots, n - 1) + (if slots[n - 1].Entry? then multiset{slots[n - 1].key} else multiset{})
  }

  /** What a slot's value holds; retaining or releasing zero does nothing. */
  function ValOf<K, V>(s: Slot<K, V>, isZero: V -> bool): (vs: multiset<V>)
  {
    if s.Entry? && !isZero(s.val) then multiset{s.val} else multiset{}
  }

  function ValsIn<K, V>(slots: seq<Slot<K, V>>, n: nat, isZero: V -> bool): (vs: multiset<V>)
    requires n <= |slots|
  {
    if n == 0 then multiset{} else ValsIn(slots, n - 1, isZero) + ValOf(slots[n - 1], isZero)
  }

  lemma {:induction false} ValsInsert<K, V>(slots: seq<Slot<K, V>>, n: nat, p: nat, s: Slot<K, V>, isZero: V -> bool)
    requires n <= |slots| && p < |slots| && slots[p].Empty?
    ensures ValsIn(slots[p := s], n, isZero) == ValsIn(slots, n, isZero) + (if p < n then ValOf(s, isZero) else multiset{})
  {
    hide ValOf;
    if n > 0 {
      var more := slots[p := s];
      ValsInsert(slots, n - 1, p, s, isZero);
      if p == n - 1 {
        EmptyHoldsNothing(slots[p], isZero);
        assert ValsIn(more, n, isZero) == ValsIn(more, n - 1, isZero) + ValOf(s, isZero);
      } else {
        assert more[n - 1] == slots[n - 1];
        AddLast(ValsIn(slots, n - 1, isZero), if p < n then ValOf(s, isZero) else multiset{}, ValOf(slots[n - 1], isZero));
      }
    }
  }

  lemma {:induction false} AddLast<T>(a: multiset<T>, b: multiset<T>, c: multiset<T>)
    ensures (a + b) + c == (a + c) + b
  {
  }

  lemma {:induction false} ValsEmpty<K, V>(slots: seq<Slot<K, V>>, n: nat, isZero: V -> bool)
    requires n <= |slots| && forall p :: 0 <= p < n ==> slots[p].Empty?
    ensures ValsIn(slots, n, isZero) == multiset{}
  {
    if n > 0 {
      ValsEmpty(slots, n - 1, isZero);
    }
  }

  lemma {:induction false} ValsNone<K, V>(slots: seq<Slot<K, V>>, isZero: V -> bool)
    ensures ValsIn(slots, 0, isZero) == multiset{}
  {
  }

  lemma {:induction false} EmptyHoldsNothing<K, V>(s: Slot<K, V>, isZero: V -> bool)
    ensures s.Empty? ==> ValOf(s, isZero) == multiset{}
  {
  }

  lemma {:induction false} ValsOne<K, V>(slots: seq<Slot<K, V>>, i: nat, isZero: V -> bool)
    requires i < |slots|
    ensures ValsIn(slots, i + 1, isZero) == ValsIn(slots, i, isZero) + ValOf(slots[i], isZero)
  {
  }

  lemma {:induction false} ValsGrow<K, V>(slots: seq<Slot<K, V>>, i: nat, n: nat, isZero: V -> bool)
    requires i <= n <= |slots|
    ensures ValsIn(slots, i, isZero) <= ValsIn(slots, n, isZero)
    decreases n
  {
    hide ValOf;
    if i < n {
      ValsGrow(slots, i, n - 1, isZero);
    }
  }

  lemma {:induction false} KeysInsert<K, V>(slots: seq<Slot<K, V>>, n: nat, p: nat, k: K, v: V)
    requires n <= |slots| && p < |slots| && slots[p].Empty?
    ensures KeysIn(slots[p := Entry(k, v)], n) == KeysIn(slots, n) + (if p < n then multiset{k} else multiset{})
  {
    if n > 0 {
      var more := slots[p := Entry(k, v)];
      KeysInsert(slots, n - 1, p, k, v);
      if p == n - 1 {
        assert KeysIn(more, n) == KeysIn(more, n - 1) + multiset{k};
      } else {
        assert more[n - 1] == slots[n - 1];
      }
    }
  }

  lemma {:induction false} KeysEmpty<K, V>(slots: seq<Slot<K, V>>, n: nat)
    requires n <= |slots| && forall p :: 0 <= p < n ==> slots[p].Empty?
    ensures KeysIn(slots, n) == multiset{}
  {
    if n > 0 {
      KeysEmpty(slots, n - 1);
    }
  }

  /** The table stores exactly the pairs of a map. */
  ghost predicate Represents<K, V>(slots: seq<Slot<K, V>>, m: map<K, V>)
  {
    && (forall p :: 0 <= p < |slots| && slots[p].Entry? ==> slots[p].key in m && m[slots[p].key] == slots[p].val)
    && (forall k :: k in m ==> Holds(slots, k))
  }

  ghost predicate Holds<K, V>(slots: seq<Slot<K, V>>, k: K)
  {
    exists p :: 0 <= p < |slots| && slots[p].Entry? && slots[p].key == k
  }

  lemma {:induction false} InsertRepresents<K, V>(slots: seq<Slot<K, V>>, m: map<K, V>, p: nat, k: K, v: V)
    requires Represents(slots, m) && p < |slots| && slots[p].Empty? && k !in m
    ensures Represents(slots[p := Entry(k, v)], m[k := v])
  {
    var more := slots[p := Entry(k, v)];
    forall k' | k' in m[k := v]
      ensures Holds(more, k')
    {
      if k' == k {
        assert more[p].Entry? && more[p].key == k;
      } else {
        assert Holds(slots, k');
        var q :| 0 <= q < |slots| && slots[q].Entry? && slots[q].key == k';
        assert more[q].Entry? && more[q].key == k';
      }
    }
  }

  lemma {:induction false} RepresentsOne<K, V>(slots: seq<Slot<K, V>>, m: map<K, V>, m': map<K, V>)
    requires Represents(slots, m) && Represents(slots, m')
    ensures m == m'
  {
    forall k | k in m
      ensures k in m' && m'[k] == m[k]
    {
      assert Holds(slots, k);
    }
    forall k | k in m'
      ensures k in m
    {
      assert Holds(slots, k);
    }
  }

  /** A rehash has moved the first `i` old slots; the next one is added or skipped. */
  lemma {:induction false} MovedOne<K, V>(slots: seq<Slot<K, V>>, i: nat, m: map<K, V>)
    requires i < |slots| && Represents(slots[..i], m)
    ensures slots[i].Empty? ==> Represents(slots[..i + 1], m)
    ensures slots[i].Entry? && slots[i].key !in m ==> Represents(slots[..i + 1], m[slots[i].key := slots[i].val])
  {
    var now, next := slots[..i], slots[..i + 1];
    assert next == now + [slots[i]];
    forall k | k in m
      ensures Holds(next, k)
    {
      assert Holds(now, k);
      var q :| 0 <= q < |now| && now[q].Entry? && now[q].key == k;
      assert next[q].key == k;
    }
    if slots[i].Entry? {
      assert next[i].key == slots[i].key;
    }
  }

  lemma {:induction false} OccupiedGrows<K, V>(slots: seq<Slot<K, V>>, i: nat, n: nat)
    requires i <= n <= |slots|
    ensures Occupied(slots, i) <= Occupied(slots, n)
    decreases n
  {
    if i < n {
      OccupiedGrows(slots, i, n - 1);
    }
  }

  /** A table of empty slots stores nothing. */
  lemma {:induction false} EmptyTable<K, V>(slots: seq<Slot<K, V>>, hash: K -> nat, eq: (K, K) -> bool)
    requires |slots| > 0 && forall p :: 0 <= p < |slots| ==> slots[p].Empty?
    ensures Table(slots, hash, eq) && Represents(slots, map[])
    ensures Occupied(slots, |slots|) == 0 && KeysIn(slots, |slots|) == multiset{}
  {
    NoneOccupied(slots, |slots|);
    KeysEmpty(slots, |slots|);
  }

  lemma {:induction false} EmptyPrefix<K, V>(slots: seq<Slot<K, V>>)
    ensures Represents(slots[..0], map[]) && Occupied(slots, 0) == 0 && KeysIn(slots, 0) == multiset{}
  {
  }

  lemma {:induction false} CountOne<K, V>(slots: seq<Slot<K, V>>, i: nat)
    requires i < |slots|
    ensures slots[i].Empty? ==>
              Occupied(slots, i + 1) == Occupied(slots, i) && KeysIn(slots, i + 1) == KeysIn(slots, i)
    ensures slots[i].Entry? ==>
              && Occupied(slots, i + 1) == Occupied(slots, i) + 1
              && KeysIn(slots, i + 1) == KeysIn(slots, i) + multiset{slots[i].key}
  {
  }

  // ---------- maps up to equality ----------

  /** A key equal to `q` is mapped to `w`. */
  ghost predicate Maps<K(!new), V(!new)>(m: map<K, V>, eq: (K, K) -> bool, q: K, w: V)
  {
    exists k :: k in m && eq(k, q) && m[k] == w
  }

  /** Every key equal to `k` now finds `v`, and every other key what it found before. */
  ghost predicate Updates<K(!new), V(!new)>(m: map<K, V>, m': map<K, V>, eq: (K, K) -> bool, k: K, v: V)
  {
    forall q, w :: Maps(m', eq, q, w) <==> if eq(k, q) then w == v else Maps(m, eq, q, w)
  }

  /** No two keys of the map are equal. */
  ghost predicate Inequivalents<K(!new), V>(m: map<K, V>, eq: (K, K) -> bool)
  {
    forall a, b :: a in m && b in m && eq(a, b) ==> a == b
  }

  lemma {:induction false} Inequivalent<K(!new), V>(slots: seq<Slot<K, V>>, hash: K -> nat, eq: (K, K) -> bool, m: map<K, V>)
    requires Table(slots, hash, eq) && Represents(slots, m)
    ensures Inequivalents(m, eq)
  {
    forall a, b | a in m && b in m && eq(a, b)
      ensures a == b
    {
      assert Holds(slots, a) && Holds(slots, b);
    }
  }

  lemma {:induction false} MapsOne<K(!new), V(!new)>(m: map<K, V>, eq: (K, K) -> bool, k0: K, k: K)
    requires k0 in m && eq(k0, k)
    ensures Maps(m, eq, k, m[k0])
  {
  }

  lemma {:induction false} MapsNone<K(!new), V(!new)>(m: map<K, V>, eq: (K, K) -> bool, k: K)
    requires forall k' :: k' in m ==> !eq(k', k)
    ensures forall w :: !Maps(m, eq, k, w)
  {
  }

  /** Changing the value of an equal key. */
  lemma {:induction false} UpdateMaps<K(!new), V(!new)>(m: map<K, V>, hash: K -> nat, eq: (K, K) -> bool, k0: K, k: K, v: V)
    requires Congruent(hash, eq) && Inequivalents(m, eq) && k0 in m && eq(k0, k)
    ensures Updates(m, m[k0 := v], eq, k, v)
  {
    var m' := m[k0 := v];
    forall q, w
      ensures Maps(m', eq, q, w) <==> if eq(k, q) then w == v else Maps(m, eq, q, w)
    {
      assert eq(k0, q) <==> eq(k, q);
      if eq(k, q) {
        assert m'[k0] == v;
        forall a | a in m' && eq(a, q)
          ensures a == k0
        {
          assert eq(q, k0);
        }
      } else if Maps(m, eq, q, w) {
        var a :| a in m && eq(a, q) && m[a] == w;
        assert m'[a] == w;
      }
    }
  }

  /** Adding a key equal to none. */
  lemma {:induction false} InsertMaps<K(!new), V(!new)>(m: map<K, V>, hash: K -> nat, eq: (K, K) -> bool, k: K, v: V)
    requires Congruent(hash, eq) && forall a :: a in m ==> !eq(a, k)
    ensures Updates(m, m[k := v], eq, k, v)
  {
    var m' := m[k := v];
    forall q, w
      ensures Maps(m', eq, q, w) <==> if eq(k, q) then w == v else Maps(m, eq, q, w)
    {
      assert k !in m && m'[k] == v;
      if eq(k, q) {
        forall a | a in m' && eq(a, q)
          ensures a == k
        {
          assert eq(q, k);
        }
      } else if Maps(m, eq, q, w) {
        var a :| a in m && eq(a, q) && m[a] == w;
        assert m'[a] == w;
      }
    }
  }

  // ---------- the table ----------

  class HashTab<K(!new, ==), V(!new, ==, 0)> {
    const hash: K -> nat
    const eq: (K, K) -> bool
    const isZero: V -> bool
    var payload: array<Slot<K, V>>
    var count: nat
    /** Keys retained and not yet released. */
    var held: multiset<K>
    /** Values retained and not yet released, zeros aside. */
    var heldVals: multiset<V>
    ghost var contents: map<K, V>

    /** All but the load: what holds even while a rehash is due. */
    ghost predicate Loaded()
      reads this, payload
    {
      && Congruent(hash, eq)
      && payload.Length >= INIT_SIZE
      && Table(payload[..], hash, eq)
      && count == Occupied(payload[..], payload.Length)
      && Represents(payload[..], contents)
    }

    /** Between operations at most three quarters of the slots are taken. */
    ghost predicate Valid()
      reads this, payload
    {
      Loaded() && 4 * count <= 3 * payload.Length
    }

    ghost function Keys(): multiset<K>
      reads this, payload
    {
      KeysIn(payload[..], payload.Length)
    }

    ghost function Vals(): multiset<V>
      reads this, payload
    {
      ValsIn(payload[..], payload.Length, isZero)
    }

    constructor (hash: K -> nat, eq: (K, K) -> bool, isZero: V -> bool)
      requires Congruent(hash, eq)
      ensures Valid() && fresh(payload) && contents == map[] && held == multiset{} == Keys() && heldVals == multiset{} == Vals()
      ensures this.hash == hash && this.eq == eq && this.isZero == isZero && payload.Length == 4
    {
      this.hash, this.eq, this.isZero := hash, eq, isZero;
      heldVals := multiset{};
      payload := new Slot<K, V>[INIT_SIZE](_ => Empty);
      count := 0;
      held := multiset{};
      contents := map[];
      new;
      NoneOccupied(payload[..], payload.Length);
      KeysEmpty(payload[..], payload.Length);
      ValsEmpty(payload[..], payload.Length, isZero);
    }

    /** `cql_hashtab_find`: the slot of an equal key, if there is one. */
    method Find(k: K) returns (found: bool, p: nat)
      requires Valid()
      ensures found ==> p < payload.Length && payload[p].Entry? && eq(payload[p].key, k)
      ensures found ==> payload[p].key in contents && contents[payload[p].key] == payload[p].val
      ensures !found ==> forall k' :: k' in contents ==> !eq(k', k)
    {
      ghost var j;
      found, p, j := Seek(k);
      if !found {
        forall k' | k' in contents
          ensures !eq(k', k)
        {
          assert Holds(payload[..], k');
          var q :| 0 <= q < |payload[..]| && payload[..][q].Entry? && payload[..][q].key == k';
          EmptyEndsProbe(payload[..], hash, eq, k, j, q);
        }
      }
    }

    /** The probe loop shared by find and add.  It ends because the table is never full. */
    method Seek(k: K) returns (found: bool, p: nat, ghost j: nat)
      requires Loaded() && count < payload.Length
      ensures j < payload.Length && p == Probe(Start(hash, k, payload.Length), j, payload.Length)
      ensures Passed(payload[..], eq, k, Start(hash, k, payload.Length), j)
      ensures if found then payload[p].Entry? && eq(payload[p].key, k) else payload[p].Empty?
    {
      var start := Start(hash, k, payload.Length);
      p := start;
      j := 0;
      while true
        invariant 0 <= j < payload.Length && p == Probe(start, j, payload.Length)
        invariant Passed(payload[..], eq, k, start, j)
        decreases payload.Length - j
      {
        if payload[p].Empty? {
          return false, p, j;
        }
        if eq(payload[p].key, k) {
          return true, p, j;
        }
        assert Passed(payload[..], eq, k, start, j + 1);
        NotYetAll(payload[..], eq, k, start, j + 1);
        p := p + 1;
        if p >= payload.Length {
          p := 0;
        }
        j := j + 1;
      }
    }

    /** `cql_hashtab_add`: stores a new key, unless an equal one is there.  The rank says when
        the call may rehash: never inside a rehash. */
    method Add(k: K, v: V) returns (added: bool)
      requires Valid()
      modifies this, payload
      ensures Valid()
      ensures added <==> forall k' :: k' in old(contents) ==> !eq(k', k)
      ensures contents == if added then old(contents)[k := v] else old(contents)
      ensures added ==> k !in old(contents)
      ensures held == old(held) + (if added then multiset{k} else multiset{})
      ensures Keys() == old(Keys()) + (if added then multiset{k} else multiset{})
      ensures heldVals == old(heldVals) + (if added then ValOf(Entry(k, v), isZero) else multiset{})
      ensures Vals() == old(Vals()) + (if added then ValOf(Entry(k, v), isZero) else multiset{})
      ensures count == old(count) + (if added then 1 else 0)
      ensures if added && 4 * (old(count) + 1) > 3 * old(payload.Length)
              then fresh(payload) && payload.Length == 2 * old(payload.Length) else payload == old(payload)
      decreases if 4 * (count + 1) > 3 * payload.Length then 4 else 0
    {
      var found, p;
      ghost var j;
      found, p, j := Seek(k);
      if found {
        assert payload[p].key in contents;
        return false;
      }
      Insert(k, v, p, j);
      if 4 * count > 3 * payload.Length {
        Rehash();
      }
      added := true;
    }

    /** Fills the slot where a probe ended. */
    method Insert(k: K, v: V, p: nat, ghost j: nat)
      requires Loaded() && j < payload.Length && p == Probe(Start(hash, k, payload.Length), j, payload.Length)
      requires Passed(payload[..], eq, k, Start(hash, k, payload.Length), j) && payload[p].Empty?
      modifies `count, `held, `heldVals, `contents, payload
      ensures Loaded() && count == old(count) + 1
      ensures k !in old(contents) && contents == old(contents)[k := v]
      ensures forall k' :: k' in old(contents) ==> !eq(k', k)
      ensures held == old(held) + multiset{k} && Keys() == old(Keys()) + multiset{k}
      ensures heldVals == old(heldVals) + ValOf(Entry(k, v), isZero) && Vals() == old(Vals()) + ValOf(Entry(k, v), isZero)
    {
      ghost var slots := payload[..];
      forall k' | k' in contents
        ensures !eq(k', k)
      {
        assert Holds(slots, k');
        var q :| 0 <= q < |slots| && slots[q].Entry? && slots[q].key == k';
        EmptyEndsProbe(slots, hash, eq, k, j, q);
      }
      assert eq(k, k);
      InsertKeepsTable(slots, hash, eq, k, v, j, p);
      InsertRepresents(slots, contents, p, k, v);
      OccupiedUpdate(slots, |slots|, p, Entry(k, v));
      KeysInsert(slots, |slots|, p, k, v);
      ValsInsert(slots, |slots|, p, Entry(k, v), isZero);
      held := held + multiset{k};
      heldVals := heldVals + ValOf(Entry(k, v), isZero);
      payload[p] := Entry(k, v);
      assert payload[..] == slots[p := Entry(k, v)];
      count := count + 1;
      contents := contents[k := v];
    }

    /** `cql_hashtab_rehash`: twice the room, the same entries, and every key retained by its
        new slot and released by its old one. */
    method Rehash()
      requires Loaded() && 3 * payload.Length < 4 * count <= 3 * payload.Length + 4
      modifies this
      ensures Valid() && fresh(payload) && payload.Length == 2 * old(payload.Length)
      ensures contents == old(contents) && count == old(count)
      ensures held == old(held) && Keys() == old(Keys())
      ensures heldVals == old(heldVals) && Vals() == old(Vals())
      decreases 3
    {
      hide Table, Represents, KeysIn, Occupied, Congruent, ValsIn, ValOf;
      var oldPayload := payload;
      ghost var slots, before := oldPayload[..], contents;
      count := 0;
      payload := new Slot<K, V>[2 * oldPayload.Length](_ => Empty);
      contents := map[];
      EmptyTable(payload[..], hash, eq);
      ValsEmpty(payload[..], payload.Length, isZero);
      MoveAll(oldPayload);
      RepresentsOne(slots, contents, before);
    }

    /** Every old slot in use is added to the new ones. */
    method MoveAll(oldPayload: array<Slot<K, V>>)
      requires Valid() && contents == map[] && count == 0 && Keys() == multiset{} && Vals() == multiset{}
      requires payload != oldPayload && payload.Length == 2 * oldPayload.Length && Table(oldPayload[..], hash, eq)
      requires 4 * Occupied(oldPayload[..], oldPayload.Length) <= 3 * payload.Length
      modifies this, payload
      ensures Valid() && payload == old(payload) && count == Occupied(oldPayload[..], oldPayload.Length)
      ensures Represents(oldPayload[..], contents)
      ensures held == old(held) && Keys() == KeysIn(oldPayload[..], oldPayload.Length)
      ensures heldVals == old(heldVals) && Vals() == ValsIn(oldPayload[..], oldPayload.Length, isZero)
      decreases 2
    {
      hide Table, Represents, KeysIn, Occupied, Congruent, ValsIn, ValOf, Loaded;
      ghost var slots := oldPayload[..];
      EmptyPrefix(slots);
      ValsNone(slots, isZero);
      var i := 0;
      while i < oldPayload.Length
        invariant 0 <= i <= oldPayload.Length && oldPayload[..] == slots && payload == old(payload)
        invariant Valid() && Represents(slots[..i], contents) && count == Occupied(slots, i)
        invariant held == old(held) && Keys() == KeysIn(slots, i)
        invariant heldVals == old(heldVals) && Vals() == ValsIn(slots, i, isZero)
      {
        MovedOne(slots, i, contents);
        CountOne(slots, i);
        ValsOne(slots, i, isZero);
        EmptyHoldsNothing(slots[i], isZero);
        OccupiedGrows(slots, i + 1, |slots|);
        if oldPayload[i].Entry? {
          NewToMoved(slots, i, contents);
          Move(oldPayload[i].key, oldPayload[i].val);
        }
        i := i + 1;
      }
      assert slots[..i] == slots;
    }

    /** One old slot: its key and value are retained by the new slot and released by the old one. */
    method Move(k: K, v: V)
      requires Valid() && 4 * (count + 1) <= 3 * payload.Length && forall k' :: k' in contents ==> !eq(k', k)
      modifies this, payload
      ensures Valid() && payload == old(payload) && count == old(count) + 1
      ensures k !in old(contents) && contents == old(contents)[k := v]
      ensures held == old(held) && Keys() == old(Keys()) + multiset{k}
      ensures heldVals == old(heldVals) && Vals() == old(Vals()) + ValOf(Entry(k, v), isZero)
      decreases 1
    {
      hide Table, Represents, KeysIn, Occupied, Congruent, ValsIn, ValOf;
      var added := Add(k, v);
      Back(old(held), multiset{k});
      Back(old(heldVals), ValOf(Entry(k, v), isZero));
      held := held - multiset{k};
      heldVals := heldVals - ValOf(Entry(k, v), isZero);
    }

    /** A key not yet moved equals none that has been. */
    lemma {:induction false} NewToMoved(slots: seq<Slot<K, V>>, i: nat, m: map<K, V>)
      requires i < |slots| && slots[i].Entry? && Table(slots, hash, eq) && Represents(slots[..i], m)
      ensures forall k' :: k' in m ==> !eq(k', slots[i].key)
    {
      forall k' | k' in m
        ensures !eq(k', slots[i].key)
      {
        assert Holds(slots[..i], k');
        var q :| 0 <= q < |slots[..i]| && slots[..i][q].Entry? && slots[..i][q].key == k';
        assert slots[q].key == k';
      }
    }

    /** Every slot in use holds a pair of the map. */
    lemma {:induction false} EntriesMatch()
      requires Valid()
      ensures forall p :: 0 <= p < payload.Length && payload[p].Entry? ==>
                payload[p].key in contents && contents[payload[p].key] == payload[p].val
    {
      forall p | 0 <= p < payload.Length && payload[p].Entry?
        ensures payload[p].key in contents && contents[payload[p].key] == payload[p].val
      {
        assert payload[..][p] == payload[p];
      }
    }

    /** The in-place change of a found entry's value. */
    method SetValue(p: nat, v: V)
      requires Valid() && p < payload.Length && payload[p].Entry?
      modifies `contents, payload
      ensures Valid() && contents == old(contents)[old(payload[p].key) := v]
      ensures payload[..] == old(payload[..])[p := Entry(old(payload[p].key), v)]
      ensures Keys() == old(Keys())
    {
      ghost var slots, k := payload[..], payload[p].key;
      payload[p] := Entry(payload[p].key, v);
      contents := contents[k := v];
      SameShape(slots, payload[..], hash, eq, p);
      assert payload[..] == slots[p := Entry(k, v)];
    }

    /** The facet `find`: the value stored for an equal key. */
    method Lookup(k: K) returns (v: V, found: bool)
      requires Valid()
      ensures found ==> Maps(contents, eq, k, v)
      ensures !found ==> forall w :: !Maps(contents, eq, k, w)
    {
      var p;
      found, p := Find(k);
      if found {
        v := payload[p].val;
      } else {
        v := *;
      }
    }

    /** The facet `upsert`: afterwards every key equal to `k` finds `v`, and every other key finds
        what it found before. */
    method Upsert(k: K, v: V) returns (added: bool)
      requires Valid()
      modifies this, payload
      ensures Valid() && (payload == old(payload) || fresh(payload))
      ensures added <==> forall w :: !Maps(old(contents), eq, k, w)
      ensures Updates(old(contents), contents, eq, k, v)
    {
      hide Table, Represents, Occupied, KeysIn, Congruent, Maps, Updates;
      ghost var m := contents;
      Inequivalent(payload[..], hash, eq, m);
      var found, p := Find(k);
      if found {
        ghost var k0 := payload[p].key;
        MapsOne(m, eq, k0, k);
        UpdateMaps(m, hash, eq, k0, k, v);
        SetValue(p, v);
        assert contents == m[k0 := v];
        added := false;
      } else {
        MapsNone(m, eq, k);
        InsertMaps(m, hash, eq, k, v);
        added := Add(k, v);
        assert contents == m[k := v];
      }
    }

    /** `cql_hashtab_delete`: every key and every value the table holds is released once. */
    method Delete()
      requires Valid() && held == Keys() && heldVals == Vals()
      modifies `held, `heldVals
      ensures held == multiset{} && heldVals == multiset{}
    {
      hide Valid, KeysIn, ValsIn;
      ghost var slots := payload[..];
      EmptyPrefix(slots);
      ValsNone(slots, isZero);
      var i := 0;
      while i < payload.Length
        invariant 0 <= i <= payload.Length
        invariant held + KeysIn(slots, i) == KeysIn(slots, |slots|)
        invariant heldVals + ValsIn(slots, i, isZero) == ValsIn(slots, |slots|, isZero)
      {
        if payload[i].Entry? {
          ReleaseKey(i, slots);
          ReleaseValue(i, slots);
        } else {
          CountOne(slots, i);
          ValsOne(slots, i, isZero);
          EmptyHoldsNothing(slots[i], isZero);
        }
        i := i + 1;
      }
    }

    method ReleaseKey(i: nat, ghost slots: seq<Slot<K, V>>)
      requires i < payload.Length && slots == payload[..] && slots[i].Entry?
      requires held + KeysIn(slots, i) == KeysIn(slots, |slots|)
      modifies `held
      ensures held + KeysIn(slots, i + 1) == KeysIn(slots, |slots|)
    {
      hide KeysIn;
      CountOne(slots, i);
      KeysGrow(slots, i + 1, |slots|);
      Released(held, KeysIn(slots, i), multiset{payload[i].key}, KeysIn(slots, |slots|));
      held := held - multiset{payload[i].key};
    }

    method ReleaseValue(i: nat, ghost slots: seq<Slot<K, V>>)
      requires i < payload.Length && slots == payload[..] && slots[i].Entry?
      requires heldVals + ValsIn(slots, i, isZero) == ValsIn(slots, |slots|, isZero)
      modifies `heldVals
      ensures heldVals + ValsIn(slots, i + 1, isZero) == ValsIn(slots, |slots|, isZero)
    {
      hide ValsIn, ValOf;
      ValsOne(slots, i, isZero);
      ValsGrow(slots, i + 1, |slots|, isZero);
      Released(heldVals, ValsIn(slots, i, isZero), ValOf(slots[i], isZero), ValsIn(slots, |slots|, isZero));
      heldVals := heldVals - ValOf(payload[i], isZero);
    }
  }

  lemma {:induction false} Back<T>(a: multiset<T>, b: multiset<T>)
    ensures (a + b) - b == a
  {
  }

  /** What is given back next is still held. */
  lemma {:induction false} Released<T>(held: multiset<T>, gone: multiset<T>, next: multiset<T>, all: multiset<T>)
    requires held + gone == all && gone + next <= all
    ensures (held - next) + (gone + next) == all
  {
    assert next <= held by {
      forall x: T | x in next
        ensures next[x] <= held[x]
      {
        assert (gone + next)[x] <= all[x] == (held + gone)[x];
      }
    }
  }

  lemma {:induction false} KeysGrow<K, V>(slots: seq<Slot<K, V>>, i: nat, n: nat)
    requires i <= n <= |slots|
    ensures KeysIn(slots, i) <= KeysIn(slots, n)
    decreases n
  {
    if i < n {
      KeysGrow(slots, i, n - 1);
    }
  }

  /** Changing one value moves no key. */
  lemma {:induction false} SameShape<K(!new), V>(slots: seq<Slot<K, V>>, more: seq<Slot<K, V>>, hash: K -> nat,
                                                 eq: (K, K) -> bool, p: nat)
    requires p < |slots| == |more| && Table(slots, hash, eq) && Congruent(hash, eq)
    requires slots[p].Entry? && more[p].Entry? && more[p].key == slots[p].key
    requires forall q :: 0 <= q < |slots| && q != p ==> more[q] == slots[q]
    ensures Table(more, hash, eq) && Occupied(more, |more|) == Occupied(slots, |slots|)
    ensures KeysIn(more, |more|) == KeysIn(slots, |slots|)
    ensures forall m :: Represents(slots, m) ==> Represents(more, m[slots[p].key := more[p].val])
  {
    forall q | 0 <= q < |more| && more[q].Entry?
      ensures Reachable(more, hash, q)
    {
      assert Reachable(slots, hash, q);
    }
    SameCounts(slots, more, |slots|);
    forall m | Represents(slots, m)
      ensures Represents(more, m[slots[p].key := more[p].val])
    {
      StillRepresents(slots, more, eq, hash, p, m);
    }
  }

  lemma {:induction false} SameCounts<K, V>(slots: seq<Slot<K, V>>, more: seq<Slot<K, V>>, n: nat)
    requires n <= |slots| == |more|
    requires forall q :: 0 <= q < n ==> more[q].Entry? == slots[q].Entry? && (more[q].Entry? ==> more[q].key == slots[q].key)
    ensures Occupied(more, n) == Occupied(slots, n) && KeysIn(more, n) == KeysIn(slots, n)
  {
    if n > 0 {
      SameCounts(slots, more, n - 1);
    }
  }

  lemma {:induction false} StillRepresents<K(!new), V>(slots: seq<Slot<K, V>>, more: seq<Slot<K, V>>, eq: (K, K) -> bool,
                                                       hash: K -> nat, p: nat, m: map<K, V>)
    requires p < |slots| == |more| && Represents(slots, m) && Table(slots, hash, eq) && Congruent(hash, eq)
    requires slots[p].Entry? && more[p].Entry? && more[p].key == slots[p].key
    requires forall q :: 0 <= q < |slots| && q != p ==> more[q] == slots[q]
    ensures Represents(more, m[slots[p].key := more[p].val])
  {
    var m' := m[slots[p].key := more[p].val];
    forall q | 0 <= q < |more| && more[q].Entry?
      ensures more[q].key in m' && m'[more[q].key] == more[q].val
    {
      assert q != p ==> !eq(slots[q].key, slots[p].key);
      assert eq(slots[p].key, slots[p].key);
    }
    forall k | k in m'
      ensures Holds(more, k)
    {
      if k == slots[p].key {
        assert more[p].key == k;
      } else {
        assert Holds(slots, k);
        var q :| 0 <= q < |slots| && slots[q].Entry? && slots[q].key == k;
        assert more[q].key == k;
      }
    }
  }
}
