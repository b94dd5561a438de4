/** Reference counting: every object's count is the number of its owners, the global counter
    is the sum of all counts, and a release cascades through what the last owner let go of. */
module RefCount {
  import opened Bytes

  /** An object: its count, the references it owns (null slots included), and whether it is a
      static string literal.  An object with count zero is being finalized. */
  datatype Cell =
    | Live(count: nat, slots: seq<Option<nat>>, literal: bool)
    | Freed

  predicate Alive(heap: seq<Cell>, x: nat)
  {
    x < |heap| && heap[x].Live? && heap[x].count > 0
  }

  predicate Dying(heap: seq<Cell>, x: nat)
  {
    x < |heap| && heap[x].Live? && heap[x].count == 0
  }

  // ---------- owners and counts ----------

  function RefsFrom(slots: seq<Option<nat>>, i: nat): (m: multiset<nat>)
    requires i <= |slots|
    decreases |slots| - i
  {
    if i == |slots| then multiset{} else One(slots[i]) + RefsFrom(slots, i + 1)
  }

  function One(r: Option<nat>): (m: multiset<nat>)
  {
    if r.Some? then multiset{r.value} else multiset{}
  }

  /** What an object owns.  While it is being finalized its references are owed to no one. */
  function OwnedBy(c: Cell): (m: multiset<nat>)
  {
    if c.Live? && c.count > 0 then RefsFrom(c.slots, 0) else multiset{}
  }

  /** How many slots of the first `n` objects refer to `y`. */
  function Owners(heap: seq<Cell>, n: nat, y: nat): (k: nat)
    requires n <= |heap|
  {
    if n == 0 then 0 else Owners(heap, n - 1, y) + OwnedBy(heap[n - 1])[y]
  }

  function CountOf(c: Cell): (k: nat)
  {
    if c.Live? then c.count else 0
  }

  function Total(heap: seq<Cell>, n: nat): (k: nat)
    requires n <= |heap|
  {
    if n == 0 then 0 else Total(heap, n - 1) + CountOf(heap[n - 1])
  }

  function LiteralOf(c: Cell): (k: nat)
  {
    if c.Live? && c.literal then 1 else 0
  }

  function Literals(heap: seq<Cell>, n: nat): (k: nat)
    requires n <= |heap|
  {
    if n == 0 then 0 else Literals(heap, n - 1) + LiteralOf(heap[n - 1])
  }

  /** Each count is the number of owners: other objects' slots, and `ext` for everything else. */
  ghost predicate Counted(heap: seq<Cell>, ext: multiset<nat>)
  {
    forall y: nat :: Owners(heap, |heap|, y) + ext[y] == if y < |heap| then CountOf(heap[y]) else 0
  }

  /** Finalizers have run once each, on exactly the objects that are gone or going. */
  ghost predicate Logged(heap: seq<Cell>, log: seq<nat>)
  {
    && (forall i, j :: 0 <= i < j < |log| ==> log[i] != log[j])
    && (forall x: nat :: x in log <==> x < |heap| && !Alive(heap, x))
  }

  /** Every literal keeps the reference of its own declaration, and owns nothing. */
  ghost predicate Declared(heap: seq<Cell>, ext: multiset<nat>)
  {
    forall x {:trigger heap[x]} :: 0 <= x < |heap| && heap[x].Live? && heap[x].literal ==> ext[x] >= 1 && heap[x].slots == []
  }

  /** No finalizer is under way. */
  ghost predicate Settled(heap: seq<Cell>)
  {
    forall x {:trigger heap[x]} :: 0 <= x < |heap| && heap[x].Live? ==> heap[x].count > 0
  }

  ghost predicate Sound(heap: seq<Cell>, ext: multiset<nat>, log: seq<nat>)
  {
    Counted(heap, ext) && Logged(heap, log) && Declared(heap, ext)
  }

  /** What a release may do to objects: lower counts and free, never touching slots or objects
      already being finalized. */
  ghost predicate Later(heap: seq<Cell>, heap': seq<Cell>)
  {
    |heap| == |heap'| && forall x {:trigger heap[x]} {:trigger heap'[x]} :: 0 <= x < |heap| ==>
      match heap[x]
      case Freed => heap'[x].Freed?
      case Live(k, slots, lit) =>
        if k == 0 then heap'[x] == heap[x]
        else heap'[x].Freed? || (heap'[x].Live? && 0 < heap'[x].count <= k && heap'[x].slots == slots && heap'[x].literal == lit)
  }

  // ---------- one cell changes ----------

  lemma {:induction false} OwnersUpdate(heap: seq<Cell>, n: nat, x: nat, c: Cell, y: nat)
    requires n <= |heap| && x < |heap|
    ensures Owners(heap[x := c], n, y) + (if x < n then OwnedBy(heap[x])[y] else 0) ==
            Owners(heap, n, y) + (if x < n then OwnedBy(c)[y] else 0)
  {
    hide OwnedBy;
    if n > 0 {
      OwnersUpdate(heap, n - 1, x, c, y);
    }
  }

  lemma {:induction false} TotalUpdate(heap: seq<Cell>, n: nat, x: nat, c: Cell)
    requires n <= |heap| && x < |heap|
    ensures Total(heap[x := c], n) == Total(heap, n) + (if x < n then CountOf(c) - CountOf(heap[x]) else 0)
    ensures Literals(heap[x := c], n) == Literals(heap, n) + (if x < n then LiteralOf(c) - LiteralOf(heap[x]) else 0)
  {
    if n > 0 {
      TotalUpdate(heap, n - 1, x, c);
    }
  }

  lemma {:induction false} TotalCoversLiterals(heap: seq<Cell>, n: nat)
    requires n <= |heap| && forall x :: 0 <= x < n && heap[x].Live? && heap[x].literal ==> heap[x].count >= 1
    ensures Literals(heap, n) <= Total(heap, n)
  {
    if n > 0 {
      TotalCoversLiterals(heap, n - 1);
    }
  }

  lemma {:induction false} Unchanged(heap: seq<Cell>, more: seq<Cell>, n: nat)
    requires n <= |heap| <= |more| && forall x :: 0 <= x < n ==> heap[x] == more[x]
    ensures forall y: nat :: Owners(more, n, y) == Owners(heap, n, y)
    ensures Total(more, n) == Total(heap, n) && Literals(more, n) == Literals(heap, n)
  {
    if n > 0 {
      Unchanged(heap, more, n - 1);
    }
  }

  /** A count moves together with the references outside. */
  lemma {:induction false} Recount(heap: seq<Cell>, ext: multiset<nat>, log: seq<nat>, x: nat, k: nat, ext': multiset<nat>)
    requires Sound(heap, ext, log) && Alive(heap, x) && k > 0 && k + ext[x] == heap[x].count + ext'[x]
    requires forall y: nat :: y != x ==> ext'[y] == ext[y]
    requires heap[x].literal ==> ext'[x] >= 1
    ensures Sound(heap[x := heap[x].(count := k)], ext', log)
  {
    var heap' := heap[x := heap[x].(count := k)];
    forall y: nat
      ensures Owners(heap', |heap'|, y) + ext'[y] == if y < |heap'| then CountOf(heap'[y]) else 0
    {
      OwnersUpdate(heap, |heap|, x, heap'[x], y);
    }
    forall y: nat
      ensures Alive(heap', y) == Alive(heap, y)
    {
    }
  }

  /** `base` is `ext` without one reference to `x`. */
  ghost predicate Without(ext: multiset<nat>, x: nat, base: multiset<nat>)
  {
    base[x] + 1 == ext[x] && forall y: nat :: y != x ==> base[y] == ext[y]
  }

  lemma {:induction false} TakeOne(ext: multiset<nat>, x: nat)
    requires x in ext
    ensures Without(ext, x, ext - One(Some(x))) && |One(Some(x))| == 1
  {
    assert One(Some(x)) == multiset{x};
  }

  /** The last owner lets go: the object's references are now owed by its finalizer. */
  lemma {:induction false} LetGo(heap: seq<Cell>, ext: multiset<nat>, log: seq<nat>, x: nat, base: multiset<nat>,
                                 refs: multiset<nat>)
    requires Sound(heap, ext, log) && Alive(heap, x) && heap[x].count == 1 && !heap[x].literal
    requires Without(ext, x, base) && refs == RefsFrom(heap[x].slots, 0)
    ensures Sound(heap[x := heap[x].(count := 0)], base + refs, log + [x])
    ensures Declared(heap[x := heap[x].(count := 0)], base)
  {
    hide RefsFrom, Logged;
    var heap' := heap[x := heap[x].(count := 0)];
    forall y: nat
      ensures Owners(heap', |heap'|, y) + (base + refs)[y] == if y < |heap'| then CountOf(heap'[y]) else 0
    {
      LetGoCount(heap, ext, x, base, refs, y);
    }
    LogOne(heap, log, x);
  }

  lemma {:induction false} LetGoCount(heap: seq<Cell>, ext: multiset<nat>, x: nat, base: multiset<nat>, refs: multiset<nat>, y: nat)
    requires Counted(heap, ext) && Alive(heap, x) && heap[x].count == 1
    requires Without(ext, x, base) && refs == RefsFrom(heap[x].slots, 0)
    ensures var heap' := heap[x := heap[x].(count := 0)];
            Owners(heap', |heap'|, y) + base[y] + refs[y] == if y < |heap'| then CountOf(heap'[y]) else 0
  {
    hide RefsFrom;
    var heap' := heap[x := heap[x].(count := 0)];
    OwnersUpdate(heap, |heap|, x, heap'[x], y);
    assert OwnedBy(heap'[x])[y] == 0 && OwnedBy(heap[x]) == refs;
    assert Owners(heap, |heap|, y) + ext[y] == if y < |heap| then CountOf(heap[y]) else 0;
  }

  lemma {:induction false} LogOne(heap: seq<Cell>, log: seq<nat>, x: nat)
    requires Logged(heap, log) && Alive(heap, x)
    ensures Logged(heap[x := heap[x].(count := 0)], log + [x])
  {
    var heap' := heap[x := heap[x].(count := 0)];
    forall y: nat
      ensures y in log + [x] <==> y < |heap'| && !Alive(heap', y)
    {
      assert Alive(heap', y) <==> Alive(heap, y) && y != x;
    }
  }

  /** An object being finalized may lose slots, and is freed at the end. */
  lemma {:induction false} Wither(heap: seq<Cell>, ext: multiset<nat>, log: seq<nat>, x: nat, c: Cell)
    requires Sound(heap, ext, log) && Dying(heap, x) && !heap[x].literal
    requires c.Freed? || (c.Live? && c.count == 0 && !c.literal)
    ensures Sound(heap[x := c], ext, log)
  {
    hide RefsFrom;
    var heap' := heap[x := c];
    forall y: nat
      ensures Owners(heap', |heap'|, y) + ext[y] == if y < |heap'| then CountOf(heap'[y]) else 0
    {
      OwnersUpdate(heap, |heap|, x, c, y);
      assert OwnedBy(heap'[x])[y] == 0;
      assert OwnedBy(heap[x])[y] == 0;
    }
    forall y: nat
      ensures Alive(heap', y) == Alive(heap, y)
    {
    }
  }

  lemma {:induction false} LaterTrans(a: seq<Cell>, b: seq<Cell>, c: seq<Cell>)
    requires Later(a, b) && Later(b, c)
    ensures Later(a, c)
  {
  }

  /** A held reference leads to a live object with a count for each holder. */
  lemma {:induction false} HeldIsAlive(heap: seq<Cell>, ext: multiset<nat>, log: seq<nat>, x: nat)
    requires Sound(heap, ext, log) && x in ext
    ensures Alive(heap, x) && heap[x].count >= ext[x]
  {
    assert Owners(heap, |heap|, x) + ext[x] == if x < |heap| then CountOf(heap[x]) else 0;
  }

  lemma {:induction false} LiteralsCovered(heap: seq<Cell>, ext: multiset<nat>, log: seq<nat>)
    requires Sound(heap, ext, log)
    ensures Literals(heap, |heap|) <= Total(heap, |heap|)
  {
    forall x | 0 <= x < |heap| && heap[x].Live? && heap[x].literal
      ensures heap[x].count >= 1
    {
      HeldIsAlive(heap, ext, log, x);
    }
    TotalCoversLiterals(heap, |heap|);
  }

  lemma {:induction false} LowerIsLater(heap: seq<Cell>, x: nat)
    requires x < |heap| && heap[x].Live? && heap[x].count > 1
    ensures Later(heap, heap[x := heap[x].(count := heap[x].count - 1)])
  {
  }

  lemma {:induction false} FreeIsLater(heap: seq<Cell>, dying: Cell, heap': seq<Cell>, x: nat)
    requires Alive(heap, x) && |heap'| == |heap| && Later(heap[x := dying], heap'[x := dying])
    ensures Later(heap, heap'[x := Freed])
  {
    forall y | 0 <= y < |heap| && y != x
      ensures heap[x := dying][y] == heap[y] && heap'[x := dying][y] == heap'[y]
    {
    }
  }

  /** Literals keep their declarations through a release. */
  lemma {:induction false} StillDeclared(heap: seq<Cell>, heap': seq<Cell>, base: multiset<nat>)
    requires Declared(heap, base) && Later(heap, heap')
    ensures Declared(heap', base)
  {
  }

  /** One slot of an object being finalized has been released and cleared. */
  lemma {:induction false} SlotCleared(first: seq<Cell>, heap: seq<Cell>, heap': seq<Cell>, x: nat, was: Cell, c: Cell,
                                       base: multiset<nat>)
    requires Dying(heap, x) && Later(first, heap[x := was]) && Later(heap, heap') && Declared(heap, base)
    requires was.Live? && was.count == 0 && c.Live? && c.count == 0 && !c.literal
    ensures Dying(heap', x) && heap'[x] == heap[x]
    ensures Later(first, heap'[x := c][x := was]) && Declared(heap'[x := c], base)
  {
    assert Later(heap[x := was], heap'[x := was]) by {
      forall y | 0 <= y < |heap| && y != x
        ensures heap[x := was][y] == heap[y] && heap'[x := was][y] == heap'[y]
      {
      }
    }
    assert heap'[x := c][x := was] == heap'[x := was];
    LaterTrans(first, heap[x := was], heap'[x := was]);
  }

  lemma {:induction false} NextRef(slots: seq<Option<nat>>, i: nat)
    requires i < |slots|
    ensures RefsFrom(slots, i) == One(slots[i]) + RefsFrom(slots, i + 1)
  {
  }

  lemma {:induction false} NoMoreRefs(slots: seq<Option<nat>>)
    ensures RefsFrom(slots, |slots|) == multiset{}
  {
  }

  lemma {:induction false} LaterSame(heap: seq<Cell>)
    ensures Later(heap, heap)
  {
  }

  /** A reference owed on top of the declarations may be released. */
  lemma {:induction false} Releasable(heap: seq<Cell>, ext: multiset<nat>, log: seq<nat>, base: multiset<nat>, r: Option<nat>)
    requires Sound(heap, ext, log) && Declared(heap, base)
    requires r.Some? ==> ext[r.value] > base[r.value]
    ensures r.Some? ==> Alive(heap, r.value) && (heap[r.value].literal ==> ext[r.value] >= 2)
  {
    if r.Some? {
      HeldIsAlive(heap, ext, log, r.value);
    }
  }

  lemma {:induction false} DyingKept(heap: seq<Cell>, heap': seq<Cell>, x: nat)
    requires Dying(heap, x) && Later(heap, heap')
    ensures |heap'| == |heap| && heap'[x] == heap[x]
  {
  }

  lemma {:induction false} NullIsNone()
    ensures One(None) == multiset{} && |One(None)| == 0
  {
  }

  lemma {:induction false} Lowered(heap: seq<Cell>, ext: multiset<nat>, log: seq<nat>, x: nat, base: multiset<nat>)
    requires Sound(heap, ext, log) && Alive(heap, x) && heap[x].count > 1 && Without(ext, x, base)
    requires heap[x].literal ==> ext[x] >= 2
    ensures Sound(heap[x := heap[x].(count := heap[x].count - 1)], base, log)
  {
    Recount(heap, ext, log, x, heap[x].count - 1, base);
  }

  /** Owing one reference fewer. */
  lemma {:induction false} OweLess(base: multiset<nat>, r: Option<nat>, rest: multiset<nat>, ext: multiset<nat>)
    requires ext == base + (One(r) + rest)
    ensures ext - One(r) == base + rest && (r.Some? ==> r.value in ext && ext[r.value] > base[r.value])
  {
  }

  lemma {:induction false} StillSettled(heap: seq<Cell>, heap': seq<Cell>)
    requires Later(heap, heap')
    ensures Settled(heap) ==> Settled(heap')
  {
  }

  // ---------- new objects and changed slots ----------

  /** A new object takes over the references put into it. */
  lemma {:induction false} Created(heap: seq<Cell>, ext: multiset<nat>, log: seq<nat>, c: Cell, base: multiset<nat>)
    requires Sound(heap, ext, log) && c.Live? && c.count == 1 && (c.literal ==> c.slots == [])
    requires ext == base + RefsFrom(c.slots, 0) && Declared(heap, base)
    ensures Sound(heap + [c], base + multiset{|heap|}, log)
    ensures Total(heap + [c], |heap| + 1) == Total(heap, |heap|) + 1
    ensures Literals(heap + [c], |heap| + 1) == Literals(heap, |heap|) + LiteralOf(c)
  {
    hide RefsFrom, Owners, Logged, Counted;
    var more, x := heap + [c], |heap|;
    Unchanged(heap, more, x);
    forall y: nat
      ensures Owners(more, x + 1, y) + (base + multiset{x})[y] == if y < x + 1 then CountOf(more[y]) else 0
    {
      CreatedCount(heap, ext, c, base, y);
    }
    CountedBy(more, base + multiset{x});
    CreatedLog(heap, log, c);
  }

  lemma {:induction false} CountedBy(heap: seq<Cell>, ext: multiset<nat>)
    requires forall y: nat :: Owners(heap, |heap|, y) + ext[y] == if y < |heap| then CountOf(heap[y]) else 0
    ensures Counted(heap, ext)
  {
  }

  lemma {:induction false} CreatedCount(heap: seq<Cell>, ext: multiset<nat>, c: Cell, base: multiset<nat>, y: nat)
    requires Counted(heap, ext) && c.Live? && c.count == 1 && ext == base + RefsFrom(c.slots, 0)
    ensures var more, x := heap + [c], |heap|;
            Owners(more, x + 1, y) + (base + multiset{x})[y] == if y < x + 1 then CountOf(more[y]) else 0
  {
    hide RefsFrom;
    var more, x := heap + [c], |heap|;
    Unchanged(heap, more, x);
    assert Owners(heap, x, y) + ext[y] == if y < |heap| then CountOf(heap[y]) else 0;
    assert Owners(more, x + 1, y) == Owners(heap, x, y) + RefsFrom(c.slots, 0)[y];
    assert ext[y] == base[y] + RefsFrom(c.slots, 0)[y];
  }

  lemma {:induction false} CreatedLog(heap: seq<Cell>, log: seq<nat>, c: Cell)
    requires Logged(heap, log) && c.Live? && c.count == 1
    ensures Logged(heap + [c], log)
  {
    forall y: nat
      ensures Alive(heap + [c], y) <==> Alive(heap, y) || y == |heap|
    {
    }
  }

  lemma {:induction false} RefsUpdate(slots: seq<Option<nat>>, i: nat, s: nat, r: Option<nat>, y: nat)
    requires i <= |slots| && s < |slots|
    ensures RefsFrom(slots[s := r], i)[y] + (if i <= s then One(slots[s])[y] else 0) ==
            RefsFrom(slots, i)[y] + (if i <= s then One(r)[y] else 0)
    decreases |slots| - i
  {
    hide One;
    if i < |slots| {
      RefsUpdate(slots, i + 1, s, r, y);
    }
  }

  /** A slot of a live object changes hands with a reference held outside. */
  lemma {:induction false} SlotSwapped(heap: seq<Cell>, ext: multiset<nat>, log: seq<nat>, x: nat, s: nat, r: Option<nat>,
                                       ext': multiset<nat>)
    requires Sound(heap, ext, log) && Alive(heap, x) && s < |heap[x].slots| && Declared(heap, ext')
    requires ext' + One(r) == ext + One(heap[x].slots[s])
    ensures var heap' := heap[x := heap[x].(slots := heap[x].slots[s := r])];
            Sound(heap', ext', log) && Total(heap', |heap|) == Total(heap, |heap|) && Literals(heap', |heap|) == Literals(heap, |heap|)
  {
    hide RefsFrom, One;
    var was := heap[x].slots;
    var heap' := heap[x := heap[x].(slots := was[s := r])];
    TotalUpdate(heap, |heap|, x, heap'[x]);
    forall y: nat
      ensures Owners(heap', |heap'|, y) + ext'[y] == if y < |heap'| then CountOf(heap'[y]) else 0
    {
      OwnersUpdate(heap, |heap|, x, heap'[x], y);
      RefsUpdate(was, 0, s, r, y);
      assert Owners(heap, |heap|, y) + ext[y] == if y < |heap| then CountOf(heap[y]) else 0;
      assert (ext' + One(r))[y] == (ext + One(was[s]))[y];
    }
    forall y: nat
      ensures Alive(heap', y) == Alive(heap, y)
    {
    }
  }

  lemma {:induction false} Declarations(heap: seq<Cell>, ext: multiset<nat>, log: seq<nat>)
    requires Sound(heap, ext, log)
    ensures Declared(heap, ext)
  {
  }

  lemma {:induction false} RetainDeclares(heap: seq<Cell>, r: Option<nat>, base: multiset<nat>)
    requires Declared(heap, base) && (r.Some? ==> Alive(heap, r.value))
    ensures r.Some? ==> Declared(heap[r.value := heap[r.value].(count := heap[r.value].count + 1)], base)
  {
  }

  lemma {:induction false} Owing(base: multiset<nat>, r: Option<nat>)
    ensures r.Some? ==> r.value in base + One(r) && (base + One(r))[r.value] > base[r.value]
    ensures base + One(r) - One(r) == base
  {
  }

  lemma {:induction false} SameLength(heap: seq<Cell>, heap': seq<Cell>)
    requires Later(heap, heap')
    ensures |heap'| == |heap|
  {
  }

  /** A held object keeps its slots through a release. */
  lemma {:induction false} Survives(heap: seq<Cell>, heap': seq<Cell>, x: nat, ext: multiset<nat>, log: seq<nat>)
    requires Alive(heap, x) && Later(heap, heap') && Sound(heap', ext, log) && x in ext
    ensures Alive(heap', x) && heap'[x].slots == heap[x].slots
  {
    HeldIsAlive(heap', ext, log, x);
  }

  /** Only counts differ. */
  ghost predicate SameObjects(heap: seq<Cell>, heap': seq<Cell>)
  {
    |heap| == |heap'| && forall x {:trigger heap[x]} {:trigger heap'[x]} :: 0 <= x < |heap| ==>
      && heap'[x].Live? == heap[x].Live?
      && (heap[x].Live? ==> heap[x].count <= heap'[x].count && heap'[x].slots == heap[x].slots && heap'[x].literal == heap[x].literal)
  }

  lemma {:induction false} SameDeclared(heap: seq<Cell>, heap': seq<Cell>, base: multiset<nat>)
    requires Declared(heap, base) && SameObjects(heap, heap')
    ensures Declared(heap', base)
  {
  }

  lemma {:induction false} MoreDeclared(heap: seq<Cell>, base: multiset<nat>, more: multiset<nat>)
    requires Declared(heap, base)
    ensures Declared(heap, base + more)
  {
  }

  lemma {:induction false} NewDeclares(heap: seq<Cell>, slots: seq<Option<nat>>, base: multiset<nat>)
    requires Declared(heap, base)
    ensures Declared(heap + [Live(1, slots, false)], base)
  {
  }

  /** What a run of creations, retains and releases may do: old objects keep what they own or
      are freed, and new ones own only what was there before them. */
  ghost predicate Evolves(heap: seq<Cell>, heap': seq<Cell>)
  {
    && |heap| <= |heap'|
    && (forall x {:trigger heap[x]} {:trigger heap'[x]} :: 0 <= x < |heap| ==>
          heap'[x].Freed? || (heap[x].Live? && heap'[x].slots == heap[x].slots && heap'[x].literal == heap[x].literal))
    && (forall x {:trigger heap'[x]} :: |heap| <= x < |heap'| && heap'[x].Live? ==> !heap'[x].literal && OwnsBelow(heap'[x].slots, x))
  }

  predicate OwnsBelow(slots: seq<Option<nat>>, x: nat)
  {
    forall s :: 0 <= s < |slots| && slots[s].Some? ==> slots[s].value < x
  }

  lemma {:induction false} LaterEvolves(heap: seq<Cell>, heap': seq<Cell>)
    requires Later(heap, heap')
    ensures Evolves(heap, heap')
  {
  }

  lemma {:induction false} RetainEvolves(heap: seq<Cell>, x: nat)
    requires Alive(heap, x)
    ensures Evolves(heap, heap[x := heap[x].(count := heap[x].count + 1)])
  {
  }

  lemma {:induction false} NewEvolves(heap: seq<Cell>, slots: seq<Option<nat>>)
    requires OwnsBelow(slots, |heap|)
    ensures Evolves(heap, heap + [Live(1, slots, false)])
  {
  }

  /** References held outside lead to objects that exist. */
  lemma {:induction false} HeldBelow(heap: seq<Cell>, ext: multiset<nat>, log: seq<nat>, slots: seq<Option<nat>>)
    requires Sound(heap, ext, log) && RefsFrom(slots, 0) <= ext
    ensures OwnsBelow(slots, |heap|)
  {
    forall s | 0 <= s < |slots| && slots[s].Some?
      ensures slots[s].value < |heap|
    {
      RefCounts(slots, 0, s, slots[s].value);
      assert slots[s].value in ext;
      HeldIsAlive(heap, ext, log, slots[s].value);
    }
  }

  lemma {:induction false} EvolvesSame(heap: seq<Cell>)
    ensures Evolves(heap, heap)
  {
  }

  lemma {:induction false} SameEvolves(heap: seq<Cell>, heap': seq<Cell>)
    requires SameObjects(heap, heap')
    ensures Evolves(heap, heap')
  {
  }

  lemma {:induction false} SameTrans(a: seq<Cell>, b: seq<Cell>, c: seq<Cell>)
    requires SameObjects(a, b) && SameObjects(b, c)
    ensures SameObjects(a, c)
  {
  }

  lemma {:induction false} SameRefl(a: seq<Cell>)
    ensures SameObjects(a, a)
  {
  }

  lemma {:induction false} Kept(heap: seq<Cell>, heap': seq<Cell>, base: multiset<nat>)
    requires Evolves(heap, heap') && Declared(heap, base)
    ensures Declared(heap', base)
  {
  }

  lemma {:induction false} EvolvesTrans(a: seq<Cell>, b: seq<Cell>, c: seq<Cell>)
    requires Evolves(a, b) && Evolves(b, c)
    ensures Evolves(a, c)
  {
    hide OwnsBelow;
    forall x | |a| <= x < |c| && c[x].Live?
      ensures !c[x].literal && OwnsBelow(c[x].slots, x)
    {
      if x < |b| {
        assert b[x].Live?;
      }
    }
  }

  // ---------- who is alive ----------

  /** Between calls an object is alive exactly as long as it has an owner. */
  lemma {:induction false} AliveIffOwned(heap: seq<Cell>, ext: multiset<nat>, log: seq<nat>, x: nat)
    requires Sound(heap, ext, log) && Settled(heap) && x < |heap|
    ensures Alive(heap, x) <==> x in ext || exists o: nat, s: nat :: OwnsAt(heap, o, s, x)
    ensures x in log <==> !Alive(heap, x)
  {
    assert Owners(heap, |heap|, x) + ext[x] == CountOf(heap[x]);
    if Owners(heap, |heap|, x) > 0 {
      var o, s := OwnerExists(heap, |heap|, x);
      assert OwnsAt(heap, o, s, x);
    } else {
      forall o: nat, s: nat | OwnsAt(heap, o, s, x)
        ensures false
      {
        OwnerCounts(heap, |heap|, o, s, x);
      }
    }
  }

  predicate OwnsAt(heap: seq<Cell>, o: nat, s: nat, x: nat)
  {
    Alive(heap, o) && s < |heap[o].slots| && heap[o].slots[s] == Some(x)
  }

  /** The slots of the first `n` objects that refer to `y`, as pairs of object and place. */
  function OwnerSlots(heap: seq<Cell>, n: nat, y: nat): (ps: set<(nat, nat)>)
    requires n <= |heap|
  {
    set o: nat, s: nat | o < n && Alive(heap, o) && s < |heap[o].slots| && heap[o].slots[s] == Some(y) :: (o, s)
  }

  /** The places of one object from `i` on that refer to `y`. */
  function Places(slots: seq<Option<nat>>, i: nat, o: nat, y: nat): (ps: set<(nat, nat)>)
    requires i <= |slots|
  {
    set s: nat | i <= s < |slots| && slots[s] == Some(y) :: (o, s)
  }

  lemma {:induction false} PlacesCounted(slots: seq<Option<nat>>, i: nat, o: nat, y: nat)
    requires i <= |slots|
    ensures |Places(slots, i, o, y)| == RefsFrom(slots, i)[y]
    decreases |slots| - i
  {
    if i == |slots| {
      assert Places(slots, i, o, y) == {};
    } else {
      PlacesCounted(slots, i + 1, o, y);
      assert Places(slots, i, o, y) == Places(slots, i + 1, o, y) + (if slots[i] == Some(y) then {(o, i)} else {});
    }
  }

  lemma {:induction false} OwnersCounted(heap: seq<Cell>, n: nat, y: nat)
    requires n <= |heap|
    ensures Owners(heap, n, y) == |OwnerSlots(heap, n, y)|
  {
    hide RefsFrom, OwnerSlots, Places;
    if n == 0 {
      NoOwnerSlots(heap, y);
    } else {
      OwnersCounted(heap, n - 1, y);
      OwnerSlotsNext(heap, n, y);
      if Alive(heap, n - 1) {
        PlacesCounted(heap[n - 1].slots, 0, n - 1, y);
      }
    }
  }

  lemma {:induction false} NoOwnerSlots(heap: seq<Cell>, y: nat)
    ensures OwnerSlots(heap, 0, y) == {}
  {
  }

  lemma {:induction false} OwnerSlotsNext(heap: seq<Cell>, n: nat, y: nat)
    requires 0 < n <= |heap|
    ensures !Alive(heap, n - 1) ==> OwnerSlots(heap, n, y) == OwnerSlots(heap, n - 1, y)
    ensures Alive(heap, n - 1) ==>
              var here := Places(heap[n - 1].slots, 0, n - 1, y);
              OwnerSlots(heap, n, y) == OwnerSlots(heap, n - 1, y) + here && OwnerSlots(heap, n - 1, y) !! here
  {
  }

  /** In every sound state the count of an object is the number of live objects' slots that refer to
      it and of references held outside. */
  lemma {:induction false} CountIsOwners(heap: seq<Cell>, ext: multiset<nat>, log: seq<nat>, y: nat)
    requires Sound(heap, ext, log) && y < |heap| && heap[y].Live?
    ensures heap[y].count == |OwnerSlots(heap, |heap|, y)| + ext[y]
  {
    OwnersCounted(heap, |heap|, y);
    assert Owners(heap, |heap|, y) + ext[y] == CountOf(heap[y]);
  }

  lemma {:induction false} RefExists(slots: seq<Option<nat>>, i: nat, x: nat) returns (s: nat)
    requires i <= |slots| && x in RefsFrom(slots, i)
    ensures s < |slots| && slots[s] == Some(x)
    decreases |slots| - i
  {
    if slots[i] == Some(x) {
      s := i;
    } else {
      s := RefExists(slots, i + 1, x);
    }
  }

  lemma {:induction false} RefCounts(slots: seq<Option<nat>>, i: nat, s: nat, x: nat)
    requires i <= s < |slots| && slots[s] == Some(x)
    ensures x in RefsFrom(slots, i)
    decreases |slots| - i
  {
    if i < s {
      RefCounts(slots, i + 1, s, x);
    }
  }

  lemma {:induction false} OwnerExists(heap: seq<Cell>, n: nat, x: nat) returns (o: nat, s: nat)
    requires n <= |heap| && Owners(heap, n, x) > 0
    ensures o < n && OwnsAt(heap, o, s, x)
  {
    hide RefsFrom;
    if OwnedBy(heap[n - 1])[x] > 0 {
      o := n - 1;
      s := RefExists(heap[o].slots, 0, x);
    } else {
      o, s := OwnerExists(heap, n - 1, x);
    }
  }

  lemma {:induction false} OwnerCounts(heap: seq<Cell>, n: nat, o: nat, s: nat, x: nat)
    requires o < n <= |heap| && OwnsAt(heap, o, s, x)
    ensures Owners(heap, n, x) > 0
  {
    hide RefsFrom;
    if o < n - 1 {
      OwnerCounts(heap, n - 1, o, s, x);
    } else {
      RefCounts(heap[o].slots, 0, s, x);
    }
  }

  lemma {:induction false} SlotsAlive(heap: seq<Cell>, ext: multiset<nat>, log: seq<nat>, o: nat)
    requires Sound(heap, ext, log) && Alive(heap, o)
    ensures forall s :: 0 <= s < |heap[o].slots| && heap[o].slots[s].Some? ==> Alive(heap, heap[o].slots[s].value)
  {
    forall s | 0 <= s < |heap[o].slots| && heap[o].slots[s].Some?
      ensures Alive(heap, heap[o].slots[s].value)
    {
      var x := heap[o].slots[s].value;
      OwnerCounts(heap, |heap|, o, s, x);
      assert Owners(heap, |heap|, x) + ext[x] == if x < |heap| then CountOf(heap[x]) else 0;
    }
  }

  /** Owners come before what they own in some ranking, so there is no cycle. */
  ghost predicate Acyclic(heap: seq<Cell>, rank: nat -> nat)
  {
    forall o: nat, s: nat, x: nat :: OwnsAt(heap, o, s, x) ==> rank(o) < rank(x)
  }

  /** Nothing but the literals' own declarations is held outside. */
  ghost predicate OnlyDeclared(heap: seq<Cell>, ext: multiset<nat>)
  {
    forall x: nat :: ext[x] == if x < |heap| then LiteralOf(heap[x]) else 0
  }

  lemma {:induction false} NotAlive(heap: seq<Cell>, ext: multiset<nat>, log: seq<nat>, rank: nat -> nat, x: nat)
    requires Sound(heap, ext, log) && Settled(heap) && Acyclic(heap, rank) && OnlyDeclared(heap, ext)
    requires x < |heap| && LiteralOf(heap[x]) == 0
    ensures heap[x].Freed?
    decreases rank(x)
  {
    AliveIffOwned(heap, ext, log, x);
    if Alive(heap, x) {
      var o: nat, s: nat :| OwnsAt(heap, o, s, x);
      assert LiteralOf(heap[o]) == 0;
      NotAlive(heap, ext, log, rank, o);
    }
  }

  /** When the program has let go of everything, and ownership has no cycle, every object has
      been finalized and the global counter is zero: nothing leaks. */
  lemma {:induction false} NothingLeft(heap: seq<Cell>, ext: multiset<nat>, log: seq<nat>, rank: nat -> nat)
    requires Sound(heap, ext, log) && Settled(heap) && Acyclic(heap, rank) && OnlyDeclared(heap, ext)
    ensures forall x :: 0 <= x < |heap| ==> heap[x].Freed? || (heap[x].literal && heap[x].count == 1)
    ensures Total(heap, |heap|) == Literals(heap, |heap|)
  {
    forall x | 0 <= x < |heap|
      ensures CountOf(heap[x]) == LiteralOf(heap[x])
    {
      if LiteralOf(heap[x]) == 0 {
        NotAlive(heap, ext, log, rank, x);
      } else {
        assert Owners(heap, |heap|, x) + ext[x] == CountOf(heap[x]);
        if Owners(heap, |heap|, x) > 0 {
          var o, s := OwnerExists(heap, |heap|, x);
          NotAlive(heap, ext, log, rank, o);
        }
      }
    }
    AllCounted(heap, |heap|);
  }

  /** Once nothing is held outside, having no cycle is also what it takes. */
  lemma {:induction false} NothingLeftIff(heap: seq<Cell>, ext: multiset<nat>, log: seq<nat>)
    requires Sound(heap, ext, log) && Settled(heap) && OnlyDeclared(heap, ext)
    ensures (exists rank: nat -> nat :: Acyclic(heap, rank)) <==> Total(heap, |heap|) == Literals(heap, |heap|)
  {
    if rank: nat -> nat :| Acyclic(heap, rank) {
      NothingLeft(heap, ext, log, rank);
    }
    if Total(heap, |heap|) == Literals(heap, |heap|) {
      forall o: nat, s: nat, x: nat | OwnsAt(heap, o, s, x)
        ensures false
      {
        LiteralsAlive(heap, ext, log);
        LeftOver(heap, |heap|, o);
      }
      assert Acyclic(heap, (x: nat) => 0);
    }
  }

  lemma {:induction false} LiteralsAlive(heap: seq<Cell>, ext: multiset<nat>, log: seq<nat>)
    requires Sound(heap, ext, log)
    ensures forall x {:trigger heap[x]} :: 0 <= x < |heap| ==> LiteralOf(heap[x]) <= CountOf(heap[x])
  {
    forall x | 0 <= x < |heap| && LiteralOf(heap[x]) == 1
      ensures CountOf(heap[x]) >= 1
    {
      HeldIsAlive(heap, ext, log, x);
    }
  }

  /** A live object that is no literal shows in the total. */
  lemma {:induction false} LeftOver(heap: seq<Cell>, n: nat, o: nat)
    requires n <= |heap| && forall x {:trigger heap[x]} :: 0 <= x < n ==> LiteralOf(heap[x]) <= CountOf(heap[x])
    ensures Literals(heap, n) <= Total(heap, n)
    ensures o < n && Alive(heap, o) && !heap[o].literal ==> Literals(heap, n) < Total(heap, n)
  {
    if n > 0 {
      LeftOver(heap, n - 1, o);
    }
  }

  // ---------- copies ----------

  lemma {:induction false} SameOwned(heap: seq<Cell>, heap': seq<Cell>, n: nat, y: nat)
    requires n <= |heap| <= |heap'| && Settled(heap) && SameObjects(heap, heap'[..|heap|])
    ensures Owners(heap', n, y) == Owners(heap, n, y)
  {
    hide RefsFrom;
    if n > 0 {
      SameOwned(heap, heap', n - 1, y);
      assert heap'[..|heap|][n - 1] == heap'[n - 1];
    }
  }

  /** After one more object `x`, an old object has as many more owners as `x` has references to it. */
  lemma {:induction false} CopyCounts(heap: seq<Cell>, ext: multiset<nat>, log: seq<nat>, heap': seq<Cell>, ext': multiset<nat>,
                                      log': seq<nat>, x: nat, y: nat)
    requires Sound(heap, ext, log) && Settled(heap) && Sound(heap', ext', log')
    requires y < x == |heap| && |heap'| == x + 1 && Alive(heap', x) && SameObjects(heap, heap'[..x]) && ext' == ext + multiset{x}
    ensures CountOf(heap'[y]) == CountOf(heap[y]) + RefsFrom(heap'[x].slots, 0)[y]
  {
    hide RefsFrom;
    SameOwned(heap, heap', x, y);
    assert Owners(heap, x, y) + ext[y] == CountOf(heap[y]);
    assert Owners(heap', x + 1, y) + ext'[y] == CountOf(heap'[y]);
    assert Owners(heap', x + 1, y) == Owners(heap', x, y) + OwnedBy(heap'[x])[y];
  }

  // ---------- back to where it was ----------

  /** Two settled states with the same references outside, the second reached from the first. */
  ghost predicate Returned(h: seq<Cell>, log: seq<nat>, h': seq<Cell>, log': seq<nat>, ext: multiset<nat>)
  {
    Sound(h, ext, log) && Settled(h) && Sound(h', ext, log') && Settled(h') && Evolves(h, h')
  }

  /** An object made in between has no owner left. */
  lemma {:induction false} NewAreFreed(h: seq<Cell>, log: seq<nat>, h': seq<Cell>, log': seq<nat>, ext: multiset<nat>, x: nat)
    requires Returned(h, log, h', log', ext) && |h| <= x < |h'|
    ensures h'[x].Freed?
    decreases |h'| - x
  {
    hide Sound, Declared;
    AliveIffOwned(h', ext, log', x);
    if x in ext {
      HeldIsAlive(h, ext, log, x);
    } else if o: nat, s: nat :| OwnsAt(h', o, s, x) {
      if o < |h| {
        SlotsAlive(h, ext, log, o);
      } else {
        NewAreFreed(h, log, h', log', ext, o);
      }
    }
  }

  /** An object that was alive is: its owners are. */
  lemma {:induction false} OldStayAlive(h: seq<Cell>, log: seq<nat>, h': seq<Cell>, log': seq<nat>, ext: multiset<nat>,
                                        rank: nat -> nat, x: nat)
    requires Returned(h, log, h', log', ext) && Acyclic(h, rank) && Alive(h, x)
    ensures Alive(h', x)
    decreases rank(x)
  {
    hide Sound, Declared;
    AliveIffOwned(h, ext, log, x);
    AliveIffOwned(h', ext, log', x);
    if x !in ext {
      var o: nat, s: nat :| OwnsAt(h, o, s, x);
      OldStayAlive(h, log, h', log', ext, rank, o);
      assert OwnsAt(h', o, s, x);
    }
  }

  lemma {:induction false} SameOwners(h: seq<Cell>, h': seq<Cell>, n: nat, y: nat)
    requires |h| <= |h'| && n <= |h'|
    requires forall x {:trigger h'[x]} :: 0 <= x < n ==> if x < |h| then OwnedBy(h'[x]) == OwnedBy(h[x]) else h'[x].Freed?
    ensures Owners(h', n, y) == Owners(h, if n <= |h| then n else |h|, y)
  {
    hide OwnedBy;
    if n > 0 {
      SameOwners(h, h', n - 1, y);
      if n > |h| {
        FreedOwnsNothing(h'[n - 1], y);
      }
    }
  }

  lemma {:induction false} FreedOwnsNothing(c: Cell, y: nat)
    requires c.Freed?
    ensures OwnedBy(c)[y] == 0
  {
  }

  lemma {:induction false} SameTotals(h: seq<Cell>, h': seq<Cell>, n: nat)
    requires |h| <= |h'| && n <= |h'|
    requires forall x {:trigger h'[x]} :: 0 <= x < n ==> if x < |h| then h'[x] == h[x] else h'[x].Freed?
    ensures var k := if n <= |h| then n else |h|;
            Total(h', n) == Total(h, k) && Literals(h', n) == Literals(h, k)
  {
    if n > 0 {
      SameTotals(h, h', n - 1);
    }
  }

  /** When the references held outside are what they were, and ownership had no cycle, every
      old object is as it was, count included, and every object made in between is gone. */
  lemma {:induction false} BackToStart(h: seq<Cell>, log: seq<nat>, h': seq<Cell>, log': seq<nat>, ext: multiset<nat>, rank: nat -> nat)
    requires Returned(h, log, h', log', ext) && Acyclic(h, rank)
    ensures |h| <= |h'| && h'[..|h|] == h && forall x :: |h| <= x < |h'| ==> h'[x].Freed?
    ensures Total(h', |h'|) == Total(h, |h|) && Literals(h', |h'|) == Literals(h, |h|)
  {
    hide Acyclic, Sound, Settled, OwnedBy, Total, Literals, Owners;
    forall x | 0 <= x < |h'|
      ensures if x < |h| then OwnedBy(h'[x]) == OwnedBy(h[x]) && Same(h[x], h'[x]) else h'[x].Freed?
    {
      if x >= |h| {
        NewAreFreed(h, log, h', log', ext, x);
      } else {
        OldKeep(h, log, h', log', ext, rank, x);
      }
    }
    forall x | 0 <= x < |h|
      ensures h'[x] == h[x]
    {
      SameOwners(h, h', |h'|, x);
      SameCount(h, log, h', log', ext, x);
    }
    SameTotals(h, h', |h'|);
  }

  /** The same but for the count. */
  predicate Same(c: Cell, c': Cell)
  {
    c.Live? == c'.Live? && (c.Live? ==> c'.slots == c.slots && c'.literal == c.literal)
  }

  lemma {:induction false} OldKeep(h: seq<Cell>, log: seq<nat>, h': seq<Cell>, log': seq<nat>, ext: multiset<nat>,
                                   rank: nat -> nat, x: nat)
    requires Returned(h, log, h', log', ext) && Acyclic(h, rank) && x < |h|
    ensures OwnedBy(h'[x]) == OwnedBy(h[x]) && Same(h[x], h'[x])
  {
    hide Acyclic, Sound;
    if h[x].Live? {
      OldStayAlive(h, log, h', log', ext, rank, x);
    }
  }

  lemma {:induction false} SameCount(h: seq<Cell>, log: seq<nat>, h': seq<Cell>, log': seq<nat>, ext: multiset<nat>, x: nat)
    requires Returned(h, log, h', log', ext) && x < |h| && Same(h[x], h'[x])
    requires Owners(h', |h'|, x) == Owners(h, |h|, x)
    ensures h'[x] == h[x]
  {
    hide Owners;
    assert Owners(h, |h|, x) + ext[x] == CountOf(h[x]);
    assert Owners(h', |h'|, x) + ext[x] == CountOf(h'[x]);
  }

  lemma {:induction false} AllCounted(heap: seq<Cell>, n: nat)
    requires n <= |heap| && forall x :: 0 <= x < n ==> CountOf(heap[x]) == LiteralOf(heap[x])
    ensures Total(heap, n) == Literals(heap, n)
  {
    if n > 0 {
      AllCounted(heap, n - 1);
    }
  }

  /** Without that condition it fails: an object that owns itself outlives every holder. */
  lemma {:induction false} SelfOwner(heap: seq<Cell>, ext: multiset<nat>, log: seq<nat>)
    requires Sound(heap, ext, log)
    requires |heap| == 1 && heap[0].Live? && heap[0].count > 0 && heap[0].slots == [Some(0)]
    ensures heap[0].count == ext[0] + 1 && !heap[0].literal && log == []
  {
    assert RefsFrom(heap[0].slots, 1) == multiset{};
    assert RefsFrom(heap[0].slots, 0) == multiset{0};
    assert Owners(heap, 1, 0) == Owners(heap, 0, 0) + OwnedBy(heap[0])[0];
    assert Owners(heap, 1, 0) + ext[0] == CountOf(heap[0]);
    assert Alive(heap, 0);
    FirstIsIn(log);
  }

  lemma {:induction false} FirstIsIn(log: seq<nat>)
    ensures log == [] || log[0] in log
  {
  }

  lemma {:induction false} EmptySlot()
    ensures RefsFrom([None], 0) == multiset{}
  {
    assert RefsFrom([None], 1) == multiset{};
  }

  lemma {:induction false} OneObject(c: Cell)
    requires c.Live? && !c.literal
    ensures Total([c], 1) == c.count && Literals([c], 1) == 0
  {
    assert Total([c], 0) == 0 && Literals([c], 0) == 0;
  }

  // ---------- the runtime ----------

  class Runtime {
    var heap: seq<Cell>
    var outstanding: int
    /** The objects whose finalizers have run, in order. */
    var log: seq<nat>
    /** The references held outside the heap: variables, buffers, and literal declarations. */
    ghost var ext: multiset<nat>

    /** The global counter is the sum of all counts, less one for each literal. */
    ghost predicate Valid()
      reads this
    {
      && Sound(heap, ext, log)
      && Settled(heap)
      && outstanding == Total(heap, |heap|) - Literals(heap, |heap|)
    }

    constructor ()
      ensures Valid() && heap == [] && outstanding == 0 && ext == multiset{}
    {
      heap, outstanding, log, ext := [], 0, [], multiset{};
    }

    /** `cql_retain`. */
    method Retain(r: Option<nat>)
      requires Valid() && (r.Some? ==> Alive(heap, r.value))
      modifies this
      ensures Valid() && ext == old(ext) + One(r) && log == old(log)
      ensures outstanding == old(outstanding) + |One(r)|
      ensures heap == if r.None? then old(heap)
                      else old(heap)[r.value := old(heap)[r.value].(count := old(heap)[r.value].count + 1)]
    {
      if r.Some? {
        var x := r.value;
        var c := heap[x].(count := heap[x].count + 1);
        Recount(heap, ext, log, x, c.count, ext + multiset{x});
        TotalUpdate(heap, |heap|, x, c);
        heap := heap[x := c];
        ext := ext + multiset{x};
        outstanding := outstanding + 1;
      }
    }

    /** `cql_release`, finalizers included.  It terminates because the sum of all counts drops. */
    method Release(r: Option<nat>)
      requires Sound(heap, ext, log) && Total(heap, |heap|) - Literals(heap, |heap|) <= outstanding
      requires r.Some? ==> r.value in ext && (heap[r.value].literal ==> ext[r.value] >= 2)
      modifies this
      ensures Sound(heap, ext, log) && ext == old(ext) - One(r)
      ensures Later(old(heap), heap) && old(log) <= log
      ensures outstanding - Total(heap, |heap|) == old(outstanding - Total(heap, |heap|))
      ensures Literals(heap, |heap|) == old(Literals(heap, |heap|))
      ensures Total(heap, |heap|) + |One(r)| <= old(Total(heap, |heap|))
      ensures old(Valid()) ==> Valid()
      ensures r.Some? && old(heap)[r.value].count > 1 ==>
                heap == old(heap)[r.value := old(heap)[r.value].(count := old(heap)[r.value].count - 1)] && log == old(log)
      ensures r.Some? && old(heap)[r.value].count == 1 ==> heap[r.value].Freed? && r.value in log
      decreases Total(heap, |heap|), 1
    {
      hide Sound, Later, Total, Literals, RefsFrom, Declared, One, Without;
      if r.Some? {
        var x := r.value;
        HeldIsAlive(heap, ext, log, x);
        TakeOne(ext, x);
        ghost var base := ext - One(r);
        var c := heap[x].(count := heap[x].count - 1);
        TotalUpdate(heap, |heap|, x, c);
        if c.count == 0 {
          ghost var refs := RefsFrom(c.slots, 0);
          LetGo(heap, ext, log, x, base, refs);
          heap := heap[x := c];
          ext := base + refs;
          log := log + [x];
          ghost var logged := log;
          Finalize(x, base);
          assert log[|logged| - 1] == logged[|logged| - 1] == x;
          FreeIsLater(old(heap), c, heap, x);
          Wither(heap, ext, log, x, Freed);
          TotalUpdate(heap, |heap|, x, Freed);
          heap := heap[x := Freed];
        } else {
          Lowered(heap, ext, log, x, base);
          LowerIsLater(heap, x);
          heap := heap[x := c];
          ext := base;
        }
        outstanding := outstanding - 1;
        LiteralsCovered(heap, ext, log);
        assert outstanding >= 0;
      } else {
        LaterSame(heap);
        NullIsNone();
      }
      StillSettled(old(heap), heap);
    }

    /** A finalizer: `cql_release_offsets` over everything the object owned, clearing each slot. */
    method Finalize(x: nat, ghost base: multiset<nat>)
      requires Sound(heap, ext, log) && Dying(heap, x) && !heap[x].literal && ext == base + RefsFrom(heap[x].slots, 0)
      requires Declared(heap, base)
      requires Total(heap, |heap|) - Literals(heap, |heap|) <= outstanding
      modifies this
      ensures Sound(heap, ext, log) && ext == base && |heap| == |old(heap)|
      ensures Dying(heap, x) && !heap[x].literal && Later(old(heap), heap[x := old(heap)[x]]) && old(log) <= log
      ensures |heap[x].slots| == |old(heap)[x].slots| && forall j :: 0 <= j < |heap[x].slots| ==> heap[x].slots[j].None?
      ensures outstanding - Total(heap, |heap|) == old(outstanding - Total(heap, |heap|))
      ensures Literals(heap, |heap|) == old(Literals(heap, |heap|))
      ensures Total(heap, |heap|) <= old(Total(heap, |heap|))
      decreases Total(heap, |heap|), 2
    {
      hide Sound, Later, Total, Literals, RefsFrom, Declared, One;
      ghost var was := heap[x];
      LaterSame(heap);
      assert heap[x := was] == heap;
      var i := 0;
      while i < |heap[x].slots|
        invariant |heap| == |old(heap)|
        invariant Dying(heap, x) && !heap[x].literal && |heap[x].slots| == |was.slots| && 0 <= i <= |was.slots|
        invariant Sound(heap, ext, log) && ext == base + RefsFrom(was.slots, i) && Declared(heap, base)
        invariant forall j :: i <= j < |was.slots| ==> heap[x].slots[j] == was.slots[j]
        invariant forall j :: 0 <= j < i ==> heap[x].slots[j].None?
        invariant Later(old(heap), heap[x := was]) && old(log) <= log
        invariant outstanding - Total(heap, |heap|) == old(outstanding - Total(heap, |heap|))
        invariant Literals(heap, |heap|) == old(Literals(heap, |heap|))
        invariant Total(heap, |heap|) <= old(Total(heap, |heap|))
        decreases |was.slots| - i
      {
        NextRef(was.slots, i);
        ghost var before := heap;
        var r := heap[x].slots[i];
        OweLess(base, r, RefsFrom(was.slots, i + 1), ext);
        Releasable(heap, ext, log, base, r);
        Release(r);
        DyingKept(before, heap, x);
        var c := heap[x].(slots := heap[x].slots[i := None]);
        SlotCleared(old(heap), before, heap, x, was, c, base);
        Wither(heap, ext, log, x, c);
        TotalUpdate(heap, |heap|, x, c);
        heap := heap[x := c];
        i := i + 1;
      }
      NoMoreRefs(was.slots);
    }

    /** Creation with count one; the references in `slots` now belong to the object. */
    method New(slots: seq<Option<nat>>, ghost base: multiset<nat>) returns (x: nat)
      requires Valid() && ext == base + RefsFrom(slots, 0) && Declared(heap, base)
      modifies this
      ensures Valid() && x == |old(heap)| && heap == old(heap) + [Live(1, slots, false)]
      ensures ext == base + multiset{x} && log == old(log) && outstanding == old(outstanding) + 1
    {
      hide RefsFrom;
      x := |heap|;
      Created(heap, ext, log, Live(1, slots, false), base);
      heap := heap + [Live(1, slots, false)];
      ext := base + multiset{x};
      outstanding := outstanding + 1;
    }

    /** A string literal starts with the reference of its declaration, which is not counted. */
    method Declare() returns (x: nat)
      requires Valid()
      modifies this
      ensures Valid() && x == |old(heap)| && heap == old(heap) + [Live(1, [], true)]
      ensures ext == old(ext) + multiset{x} && log == old(log) && outstanding == old(outstanding)
    {
      x := |heap|;
      NoMoreRefs([]);
      Created(heap, ext, log, Live(1, [], true), ext);
      heap := heap + [Live(1, [], true)];
      ext := ext + multiset{x};
    }

    /** `cql_set_object_ref` and its like on a variable: safe when source and target are one. */
    method SetRef(target: Option<nat>, source: Option<nat>) returns (now: Option<nat>)
      requires Valid() && (source.Some? ==> Alive(heap, source.value))
      requires target.Some? ==> target.value in ext && (heap[target.value].literal ==> ext[target.value] >= 2)
      modifies this
      ensures Valid() && now == source && ext == old(ext) + One(source) - One(target)
    {
      Retain(source);
      Release(target);
      now := source;
    }

    /** `cql_set_object_ref` and its like on a slot of an object.  The old reference is taken
        out before it is released; nothing looks at the slot in between. */
    method SetSlot(x: nat, i: nat, source: Option<nat>)
      requires Valid() && x in ext && Alive(heap, x) && i < |heap[x].slots| && (source.Some? ==> Alive(heap, source.value))
      modifies this
      ensures Valid() && ext == old(ext) && |heap| == |old(heap)|
      ensures Alive(heap, x) && heap[x].slots == old(heap)[x].slots[i := source]
    {
      hide Sound, Total, Literals, One, Declared, Later;
      ghost var base := ext;
      Declarations(heap, ext, log);
      Retain(source);
      RetainDeclares(old(heap), source, base);
      ghost var with := ext;
      Declarations(heap, ext, log);
      var target := Take(x, i);
      Owing(with, target);
      Releasable(heap, ext, log, with, target);
      ghost var before := heap;
      Release(target);
      StillDeclared(before, heap, base);
      SameLength(before, heap);
      Survives(before, heap, x, ext, log);
      assert ext == base + One(source);
      Put(x, i, source, base);
    }

    /** Empties a slot; its reference is now held outside. */
    method Take(x: nat, i: nat) returns (r: Option<nat>)
      requires Valid() && Alive(heap, x) && i < |heap[x].slots|
      modifies this
      ensures Valid() && r == old(heap)[x].slots[i] && ext == old(ext) + One(r) && log == old(log)
      ensures heap == old(heap)[x := old(heap)[x].(slots := old(heap)[x].slots[i := None])]
      ensures forall base :: Declared(old(heap), base) ==> Declared(heap, base)
    {
      r := heap[x].slots[i];
      SlotSwapped(heap, ext, log, x, i, None, ext + One(r));
      heap := heap[x := heap[x].(slots := heap[x].slots[i := None])];
      ext := ext + One(r);
    }

    /** Fills an empty slot with a reference held outside. */
    method Put(x: nat, i: nat, r: Option<nat>, ghost base: multiset<nat>)
      requires Valid() && Alive(heap, x) && i < |heap[x].slots| && heap[x].slots[i].None?
      requires ext == base + One(r) && Declared(heap, base)
      modifies this
      ensures Valid() && ext == base && log == old(log)
      ensures heap == old(heap)[x := old(heap)[x].(slots := old(heap)[x].slots[i := r])]
    {
      SlotSwapped(heap, ext, log, x, i, r, base);
      heap := heap[x := heap[x].(slots := heap[x].slots[i := r])];
      ext := base;
    }

    /** `cql_retain_offsets`: every reference of a row gains an owner. */
    method RetainOffsets(slots: seq<Option<nat>>)
      requires Valid() && forall i :: 0 <= i < |slots| && slots[i].Some? ==> Alive(heap, slots[i].value)
      modifies this
      ensures Valid() && ext == old(ext) + RefsFrom(slots, 0) && log == old(log)
      ensures SameObjects(old(heap), heap)
    {
      hide RefsFrom, Sound, Owners, Total, Literals;
      ghost var all := RefsFrom(slots, 0);
      var i := 0;
      while i < |slots|
        invariant 0 <= i <= |slots| && Valid() && ext + RefsFrom(slots, i) == old(ext) + all && log == old(log)
        invariant SameObjects(old(heap), heap)
      {
        NextRef(slots, i);
        Retain(slots[i]);
        i := i + 1;
      }
      NoMoreRefs(slots);
    }

    /** `cql_release_offsets` on a row outside the heap: every reference loses an owner. */
    method ReleaseOffsets(slots: seq<Option<nat>>, ghost base: multiset<nat>)
      requires Valid() && ext == base + RefsFrom(slots, 0) && Declared(heap, base)
      modifies this
      ensures Valid() && ext == base && Later(old(heap), heap)
    {
      hide Sound, Later, Total, Literals, RefsFrom, Declared, One;
      LaterSame(heap);
      var i := 0;
      while i < |slots|
        invariant 0 <= i <= |slots| && Valid() && ext == base + RefsFrom(slots, i) && Declared(heap, base)
        invariant Later(old(heap), heap)
      {
        NextRef(slots, i);
        OweLess(base, slots[i], RefsFrom(slots, i + 1), ext);
        Releasable(heap, ext, log, base, slots[i]);
        ghost var before := heap;
        Release(slots[i]);
        StillDeclared(before, heap, base);
        LaterTrans(old(heap), before, heap);
        i := i + 1;
      }
      NoMoreRefs(slots);
    }

    /** `cql_rowset_copy`: a new object with the references of `count` of the rows, each now
        owned once more.  No result is a failed contract. */
    method RowsetCopy(src: nat, rows: nat, refsPerRow: nat, from: int, count: nat) returns (copy: Option<nat>)
      requires Valid() && Alive(heap, src) && |heap[src].slots| == rows * refsPerRow
      modifies this
      ensures Valid() && (copy.None? <==> from < 0 || from + count > rows)
      ensures copy.None? ==> heap == old(heap) && ext == old(ext)
      ensures copy.Some? ==>
                && from * refsPerRow <= (from + count) * refsPerRow <= rows * refsPerRow
                && Alive(heap, copy.value) && copy.value == |old(heap)| && ext == old(ext) + multiset{copy.value}
                && heap[copy.value].slots == old(heap)[src].slots[from * refsPerRow..(from + count) * refsPerRow]
                && SameObjects(old(heap), heap[..|old(heap)|])
                && forall y :: 0 <= y < |old(heap)| ==>
                     CountOf(heap[y]) == CountOf(old(heap)[y]) + RefsFrom(heap[copy.value].slots, 0)[y]
    {
      if from < 0 || from + count > rows {
        return None;
      }
      var lo, hi := from * refsPerRow, (from + count) * refsPerRow;
      Ordered(from, from + count, refsPerRow);
      Ordered(from + count, rows, refsPerRow);
      var slots := heap[src].slots[lo..hi];
      SlotsAlive(heap, ext, log, src);
      RetainOffsets(slots);
      SameDeclared(old(heap), heap, old(ext));
      ghost var counted := heap;
      var x := New(slots, old(ext));
      assert heap[..x] == counted;
      forall y | 0 <= y < x
        ensures CountOf(heap[y]) == CountOf(old(heap)[y]) + RefsFrom(slots, 0)[y]
      {
        CopyCounts(old(heap), old(ext), old(log), heap, ext, log, x, y);
      }
      return Some(x);
    }
  }

  lemma {:induction false} Ordered(a: nat, b: nat, k: nat)
    requires a <= b
    ensures a * k <= b * k
  {
    assert b * k - a * k == (b - a) * k;
  }

  lemma {:induction false} RuntimeDeclares(rt: Runtime)
    requires rt.Valid()
    ensures Declared(rt.heap, rt.ext)
  {
  }

  lemma {:induction false} RuntimeSettled(rt: Runtime)
    requires rt.Valid()
    ensures Sound(rt.heap, rt.ext, rt.log) && Settled(rt.heap)
    ensures rt.outstanding == Total(rt.heap, |rt.heap|) - Literals(rt.heap, |rt.heap|)
  {
  }

  /** How a leak comes about: an object is made, stored into its own slot, and let go of. */
  method CycleLeaks() returns (rt: Runtime)
    ensures fresh(rt) && rt.Valid() && OnlyDeclared(rt.heap, rt.ext)
    ensures rt.heap == [Live(1, [Some(0)], false)] && rt.outstanding == 1 && rt.log == []
  {
    hide Sound, RefsFrom, Owners, Total, Literals, Later;
    rt := new Runtime();
    EmptySlot();
    var x := rt.New([None], multiset{});
    rt.SetSlot(x, 0, Some(x));
    SelfOwner(rt.heap, rt.ext, rt.log);
    rt.Release(Some(x));
    SelfOwner(rt.heap, rt.ext, rt.log);
    OneObject(rt.heap[0]);
    assert rt.heap == [rt.heap[0]];
  }
}
