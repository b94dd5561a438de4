/** Value blobs as maps: what a get returns after any run of creates and updates. */
module ValLaws {
  import opened Bytes
  import opened BlobLayout
  import opened BlobRead
  import opened BlobWrite
  import opened ValBlobs
  import opened ValUpdate

  function IdArg(args: seq<SqlValue>, k: nat): int64
    requires 3 * k + 3 < |args|
  {
    args[3 * k + 1].asInt
  }

  /** What a caller asks of field `IdArg(args, k)`: the value given, or null. */
  function ValueArg(args: seq<SqlValue>, k: nat): SqlResult
    requires 3 * k + 3 < |args|
    requires Sets(args, k) ==> Compatible(args[3 * k + 2], ToInt8(args[3 * k + 3].asInt))
  {
    if Sets(args, k) then Result(SpecEntry(args, k).col) else ResultNull
  }

  predicate DistinctIds(es: seq<Entry>)
  {
    forall i, j :: 0 <= i < j < |es| ==> es[i].id != es[j].id
  }

  predicate HasId(es: seq<Entry>, id: int64)
  {
    exists i :: 0 <= i < |es| && es[i].id == id
  }

  // ---------- finding ----------

  lemma {:induction false} FindMissing(es: seq<Entry>, id: int64)
    requires !HasId(es, id)
    ensures Find(es, id, 0) == |es| && Lookup(es, id) == ResultNull
  {
  }

  lemma {:induction false} FindIs(es: seq<Entry>, id: int64, i: nat)
    requires i < |es| && es[i].id == id && forall k :: 0 <= k < i ==> es[k].id != id
    ensures Find(es, id, 0) == i && Lookup(es, id) == Result(es[i].col)
  {
    hide Result;
  }

  lemma {:induction false} LookupConcat(a: seq<Entry>, b: seq<Entry>, id: int64)
    ensures Lookup(a + b, id) == if HasId(a, id) then Lookup(a, id) else Lookup(b, id)
  {
    hide Result;
    var i := Find(a, id, 0);
    if HasId(a, id) {
      FindIs(a + b, id, i);
    } else {
      FindMissing(a, id);
      var j := Find(b, id, 0);
      if j < |b| {
        forall k | 0 <= k < |a| + j
          ensures (a + b)[k].id != id
        {
          if k < |a| {
            assert (a + b)[k] == a[k];
          } else {
            assert (a + b)[k] == b[k - |a|];
          }
        }
        FindIs(a + b, id, |a| + j);
      } else {
        forall k | 0 <= k < |a + b|
          ensures (a + b)[k].id != id
        {
          if k < |a| {
            assert (a + b)[k] == a[k];
          } else {
            assert (a + b)[k] == b[k - |a|];
          }
        }
        FindMissing(a + b, id);
      }
    }
  }

  // ---------- the fields an update list sets ----------

  /** The set entries hold the first value given for each id, and no other id. */
  lemma {:induction false} LookupSets(args: seq<SqlValue>, u: nat, id: int64) returns (k: nat)
    requires 3 * u < |args| && SpecsFit(args, u)
    ensures HasId(SetEntries(args, u), id) ==>
              && k < u && Sets(args, k) && IdArg(args, k) == id
              && Lookup(SetEntries(args, u), id) == ValueArg(args, k)
    ensures !HasId(SetEntries(args, u), id) ==>
              forall j :: 0 <= j < u && Sets(args, j) ==> IdArg(args, j) != id
    decreases u
  {
    hide Result, Compatible, ColOf, ToInt8, Lookup;
    k := 0;
    if u > 0 {
      k := LookupSets(args, u - 1, id);
      var front := SetEntries(args, u - 1);
      if Sets(args, u - 1) {
        var last := SpecEntry(args, u - 1);
        LookupConcat(front, [last], id);
        assert SetEntries(args, u) == front + [last];
        if HasId(front, id) {
          var i :| 0 <= i < |front| && front[i].id == id;
          assert (front + [last])[i].id == id;
        } else if last.id == id {
          k := u - 1;
          FindIs([last], id, 0);
          assert (front + [last])[|front|] == last;
        }
      } else {
        assert SetEntries(args, u) == front;
      }
    }
  }

  // ---------- the untouched fields ----------

  /** Entries that are not named keep their value; named ones are gone. */
  lemma {:induction false} LookupClean(es: seq<Entry>, dirty: set<nat>, n: nat, id: int64)
    requires n <= |es|
    requires forall i :: 0 <= i < n && es[i].id == id ==> i !in dirty
    ensures HasId(Clean(es, dirty, n), id) <==> HasId(es[..n], id)
    ensures Lookup(Clean(es, dirty, n), id) == Lookup(es[..n], id)
  {
    hide Result, Lookup;
    if n > 0 {
      LookupClean(es, dirty, n - 1, id);
      var front, clean, last := es[..n - 1], Clean(es, dirty, n - 1), es[n - 1];
      assert es[..n] == front + [last];
      LookupConcat(front, [last], id);
      HasConcat(front, last, id);
      HasConcat(clean, last, id);
      if n - 1 !in dirty {
        LookupConcat(clean, [last], id);
      } else {
        assert last.id != id;
        FindMissing([last], id);
        assert Clean(es, dirty, n) == clean;
        if !HasId(clean, id) {
          FindMissing(clean, id);
        }
      }
    }
  }

  lemma {:induction false} HasConcat(front: seq<Entry>, last: Entry, id: int64)
    ensures HasId(front + [last], id) <==> HasId(front, id) || last.id == id
  {
    if HasId(front, id) {
      var i :| 0 <= i < |front| && front[i].id == id;
      assert (front + [last])[i].id == id;
    }
    if last.id == id {
      assert (front + [last])[|front|].id == id;
    }
  }

  lemma {:induction false} CleanWithout(es: seq<Entry>, dirty: set<nat>, n: nat, id: int64)
    requires n <= |es| && forall i :: 0 <= i < n && es[i].id == id ==> i in dirty
    ensures !HasId(Clean(es, dirty, n), id)
  {
    if n > 0 {
      CleanWithout(es, dirty, n - 1, id);
      HasConcat(Clean(es, dirty, n - 1), es[n - 1], id);
      if n - 1 in dirty {
        assert Clean(es, dirty, n) == Clean(es, dirty, n - 1);
      }
    }
  }

  /** The marks are exactly the stored entries that some update names. */
  lemma {:induction false} MarksAre(es: seq<Entry>, args: seq<SqlValue>, u: nat, i: nat)
    requires 3 * u < |args| && Marks(es, args, u).Some?
    ensures i in Marks(es, args, u).value <==> i < |es| && exists k :: 0 <= k < u && Named(es, args, k) == i
  {
    hide StepOk, Named;
    if u > 0 {
      MarksAre(es, args, u - 1, i);
    }
  }

  predicate Names(args: seq<SqlValue>, u: nat, id: int64)
    requires 3 * u < |args|
  {
    exists k :: 0 <= k < u && IdArg(args, k) == id
  }

  /** A field that no update names keeps its value. */
  lemma {:induction false} UnnamedKeeps(es: seq<Entry>, args: seq<SqlValue>, u: nat, id: int64)
    requires 3 * u < |args| && Marks(es, args, u).Some? && SpecsFit(args, u) && !Names(args, u, id)
    ensures Lookup(NewEntries(es, Marks(es, args, u).value, args, u), id) == Lookup(es, id)
  {
    hide Lookup, Marks, Clean, SetEntries, Find;
    var dirty := Marks(es, args, u).value;
    var k := LookupSets(args, u, id);
    assert !HasId(SetEntries(args, u), id);
    forall i | 0 <= i < |es| && es[i].id == id
      ensures i !in dirty
    {
      MarksAre(es, args, u, i);
      assert forall k :: 0 <= k < u && Named(es, args, k) == i ==> IdArg(args, k) == id;
    }
    LookupClean(es, dirty, |es|, id);
    assert es[..|es|] == es;
    LookupConcat(SetEntries(args, u), Clean(es, dirty, |es|), id);
  }

  /** A named field gets the value of some update that names it: the first that is not null,
      or null. */
  lemma {:induction false} NamedGets(es: seq<Entry>, args: seq<SqlValue>, u: nat, k: nat) returns (j: nat)
    requires 3 * u < |args| && Marks(es, args, u).Some? && SpecsFit(args, u) && DistinctIds(es) && k < u
    ensures j < u && IdArg(args, j) == IdArg(args, k)
    ensures Lookup(NewEntries(es, Marks(es, args, u).value, args, u), IdArg(args, k)) == ValueArg(args, j)
  {
    hide Lookup, Marks, Clean, SetEntries, Result, Compatible;
    var dirty, id := Marks(es, args, u).value, IdArg(args, k);
    j := LookupSets(args, u, id);
    LookupConcat(SetEntries(args, u), Clean(es, dirty, |es|), id);
    if !HasId(SetEntries(args, u), id) {
      j := k;
      forall i | 0 <= i < |es| && es[i].id == id
        ensures i in dirty
      {
        assert Named(es, args, k) == i;
        MarksAre(es, args, u, i);
      }
      CleanWithout(es, dirty, |es|, id);
      FindMissing(Clean(es, dirty, |es|), id);
    }
  }

  /** What a caller can check: an id given twice is given the same value. */
  predicate Agreeing(args: seq<SqlValue>, u: nat)
    requires 3 * u < |args| && SpecsFit(args, u)
  {
    forall j, k :: 0 <= j < u && 0 <= k < u && IdArg(args, j) == IdArg(args, k) ==> ValueArg(args, j) == ValueArg(args, k)
  }

  /** Over stored entries with distinct ids, an accepted update list takes effect for every
      field it names, exactly when it does not give two values to one field. */
  lemma {:induction false} TakesEffectIff(es: seq<Entry>, args: seq<SqlValue>, u: nat)
    requires 3 * u < |args| && Marks(es, args, u).Some? && SpecsFit(args, u) && DistinctIds(es)
    ensures var all := NewEntries(es, Marks(es, args, u).value, args, u);
            (forall k :: 0 <= k < u ==> Lookup(all, IdArg(args, k)) == ValueArg(args, k)) <==> Agreeing(args, u)
  {
    hide Lookup, Marks, NewEntries, ValueArg, IdArg;
    var all := NewEntries(es, Marks(es, args, u).value, args, u);
    if Agreeing(args, u) {
      forall k | 0 <= k < u
        ensures Lookup(all, IdArg(args, k)) == ValueArg(args, k)
      {
        var j := NamedGets(es, args, u, k);
      }
    }
  }

  lemma {:induction false} MarksOfNone(args: seq<SqlValue>, u: nat)
    requires 3 * u < |args| && forall k :: 0 <= k < u ==> SpecOk(args, k)
    ensures Marks([], args, u) == Some({})
  {
    hide Compatible;
    if u > 0 {
      MarksOfNone(args, u - 1);
      assert SpecOk(args, u - 1);
    }
  }

  /** New ids are not checked against each other: of two values given to one new field, the
      second is lost. */
  lemma {:induction false} SecondValueLost(args: seq<SqlValue>)
    requires |args| == 7 && SpecOk(args, 0) && SpecOk(args, 1) && Sets(args, 0) && Sets(args, 1)
    requires IdArg(args, 0) == IdArg(args, 1) && ValueArg(args, 0) != ValueArg(args, 1)
    ensures Updated([], args).Some?
    ensures Lookup(Updated([], args).value, IdArg(args, 1)) == ValueArg(args, 0) != ValueArg(args, 1)
  {
    hide Compatible, ColOf, Result, Marks;
    MarksOfNone(args, 2);
    var all := Updated([], args).value;
    assert SetEntries(args, 1) == SetEntries(args, 0) + [SpecEntry(args, 0)];
    assert all[0] == SpecEntry(args, 0);
    FindIs(all, IdArg(args, 0), 0);
  }

  // ---------- the column count ----------

  /** How many of the first `k` updates name a stored entry again, by using its marked type. */
  function Repeats(es: seq<Entry>, args: seq<SqlValue>, k: nat): (n: nat)
    requires 3 * k < |args|
  {
    if k == 0 then 0
    else
      Repeats(es, args, k - 1) +
      (if Named(es, args, k - 1) < |es| && TypeArg(args, k - 1) >= DIRTY then 1 else 0)
  }

  lemma {:induction false} NoRepeatsIff(es: seq<Entry>, args: seq<SqlValue>, k: nat)
    requires 3 * k < |args|
    ensures Repeats(es, args, k) == 0 <==> Unmarked(es, args, k)
  {
    hide Named, TypeArg;
    if k > 0 {
      NoRepeatsIff(es, args, k - 1);
    }
  }

  lemma {:induction false} CountWithRepeats(es: seq<Entry>, args: seq<SqlValue>, k: nat)
    requires 3 * k < |args| && Marks(es, args, k).Some?
    ensures SpecsFit(args, k)
    ensures |SetEntries(args, k)| + |Clean(es, Marks(es, args, k).value, |es|)| ==
            |es| + CountChange(es, args, k) + Repeats(es, args, k)
  {
    hide VarSize, Cols, VarBytes, ColOf, TypeCode, Find, SetEntries, Clean, SetSize, ToInt8;
    MarksBounded(es, args, k);
    if k == 0 {
      BooksStart(es, args);
    } else {
      CountWithRepeats(es, args, k - 1);
      SetEntriesSize(args, k - 1);
      var dirty, i := Marks(es, args, k - 1).value, Named(es, args, k - 1);
      assert StepOk(es, dirty, args, k - 1);
      if i < |es| {
        TypeCodeSmall(es[i].col);
        if i in dirty {
          assert dirty + {i} == dirty;
        } else {
          CleanDrops(es, dirty, i, |es|);
        }
      }
    }
  }

  /** The header count of an accepted update is the number of columns written, exactly when
      no update of a stored field carries a marked type code. */
  lemma {:induction false} CountExactIff(es: seq<Entry>, args: seq<SqlValue>, u: nat)
    requires 3 * u < |args| && Marks(es, args, u).Some?
    ensures SpecsFit(args, u)
    ensures |NewEntries(es, Marks(es, args, u).value, args, u)| == |es| + CountChange(es, args, u)
            <==> Unmarked(es, args, u)
  {
    hide Marks, SetEntries, Clean, CountChange, Unmarked;
    CountWithRepeats(es, args, u);
    NoRepeatsIff(es, args, u);
  }

  function PlainArg(kind: Kind, i: int64): SqlValue
  {
    SqlValue(kind, i, ZERO_DOUBLE, [])
  }

  /** The other case does get accepted: field 1 is set to null twice, the second time under its
      type code with the mark.  Two columns leave the count, and one leaves the blob. */
  lemma {:induction false} MarkedSlipsThrough(es: seq<Entry>, args: seq<SqlValue>)
    requires es == [Entry(1, Int64Col(5)), Entry(2, Int64Col(6))]
    requires args == [BlobArg([]), PlainArg(IntegerKind, 1), PlainArg(NullKind, 0), PlainArg(IntegerKind, 2),
                                   PlainArg(IntegerKind, 1), PlainArg(NullKind, 0), PlainArg(IntegerKind, 66)]
    ensures Marks(es, args, 2) == Some({0}) && !Unmarked(es, args, 2) && SpecsFit(args, 2)
    ensures |es| + CountChange(es, args, 2) == 0 && NewEntries(es, {0}, args, 2) == [es[1]]
  {
    assert Named(es, args, 0) == 0 && Named(es, args, 1) == 0;
    var none: set<nat>, first: set<nat> := {}, {0};
    assert none + first == first && first + first == first;
    assert StepOk(es, none, args, 0) && StepOk(es, first, args, 1);
    assert Marks(es, args, 1) == Some({0});
    assert CountChange(es, args, 1) == -1;
    assert SetEntries(args, 1) == [] && SetEntries(args, 2) == [];
    assert Clean(es, {0}, 1) == [] && Clean(es, {0}, 2) == [es[1]];
  }

  /** Without the first of the two updates the second is refused. */
  lemma {:induction false} MarkedAloneRefused(es: seq<Entry>, args: seq<SqlValue>)
    requires |args| >= 4 && Named(es, args, 0) < |es| && TypeArg(args, 0) >= DIRTY
    ensures Marks(es, args, 1) == None
  {
    TypeCodeSmall(es[Named(es, args, 0)].col);
  }

  // ---------- distinct ids are kept ----------

  predicate DistinctArgs(args: seq<SqlValue>, u: nat)
    requires 3 * u < |args|
  {
    forall j, k :: 0 <= j < k < u ==> IdArg(args, j) != IdArg(args, k)
  }

  lemma {:induction false} SetIdsFrom(args: seq<SqlValue>, u: nat, id: int64)
    requires 3 * u < |args| && SpecsFit(args, u)
    ensures HasId(SetEntries(args, u), id) ==> Names(args, u, id)
  {
    var k := LookupSets(args, u, id);
  }

  lemma {:induction false} DistinctSnoc(es: seq<Entry>, e: Entry)
    requires DistinctIds(es) && !HasId(es, e.id)
    ensures DistinctIds(es + [e])
  {
  }

  lemma {:induction false} SetsDistinct(args: seq<SqlValue>, u: nat)
    requires 3 * u < |args| && SpecsFit(args, u) && DistinctArgs(args, u)
    ensures DistinctIds(SetEntries(args, u))
  {
    hide Compatible, ColOf;
    if u > 0 {
      SetsDistinct(args, u - 1);
      if Sets(args, u - 1) {
        SetIdsFrom(args, u - 1, IdArg(args, u - 1));
        DistinctSnoc(SetEntries(args, u - 1), SpecEntry(args, u - 1));
      } else {
        assert SetEntries(args, u) == SetEntries(args, u - 1);
      }
    }
  }

  lemma {:induction false} NewDistinct(es: seq<Entry>, args: seq<SqlValue>, u: nat, n: nat)
    requires 3 * u < |args| && Marks(es, args, u).Some? && SpecsFit(args, u) && DistinctArgs(args, u)
    requires DistinctIds(es) && n <= |es|
    ensures DistinctIds(SetEntries(args, u) + Clean(es, Marks(es, args, u).value, n))
    ensures forall i :: 0 <= i < |Clean(es, Marks(es, args, u).value, n)| ==>
              HasId(es[..n], Clean(es, Marks(es, args, u).value, n)[i].id)
  {
    hide Marks, SetEntries, Find;
    var dirty, sets := Marks(es, args, u).value, SetEntries(args, u);
    if n == 0 {
      SetsDistinct(args, u);
      assert sets + Clean(es, dirty, 0) == sets;
    } else {
      NewDistinct(es, args, u, n - 1);
      var clean, last := Clean(es, dirty, n - 1), es[n - 1];
      assert es[..n] == es[..n - 1] + [last];
      forall id | HasId(es[..n - 1], id)
        ensures HasId(es[..n], id)
      {
        HasConcat(es[..n - 1], last, id);
      }
      if n - 1 in dirty {
        assert Clean(es, dirty, n) == clean;
      } else {
        HasConcat(es[..n - 1], last, last.id);
        CleanIsNew(es, args, u, n - 1);
        DistinctSnoc(sets + clean, last);
        assert Clean(es, dirty, n) == clean + [last];
        assert sets + (clean + [last]) == (sets + clean) + [last];
      }
    }
  }

  /** An unmarked entry's id is among neither the set fields nor the earlier entries. */
  lemma {:induction false} CleanIsNew(es: seq<Entry>, args: seq<SqlValue>, u: nat, n: nat)
    requires 3 * u < |args| && Marks(es, args, u).Some? && SpecsFit(args, u) && DistinctIds(es) && n < |es|
    requires n !in Marks(es, args, u).value
    requires forall i :: 0 <= i < |Clean(es, Marks(es, args, u).value, n)| ==>
               HasId(es[..n], Clean(es, Marks(es, args, u).value, n)[i].id)
    ensures !HasId(SetEntries(args, u) + Clean(es, Marks(es, args, u).value, n), es[n].id)
  {
    hide Marks, SetEntries, Clean, Find;
    var sets, clean, id := SetEntries(args, u), Clean(es, Marks(es, args, u).value, n), es[n].id;
    SetIdsFrom(args, u, id);
    MarksAre(es, args, u, n);
    assert !Names(args, u, id) by {
      assert forall k :: 0 <= k < u && IdArg(args, k) == id ==> Named(es, args, k) == n;
    }
    assert !HasId(es[..n], id);
    assert forall i :: 0 <= i < |sets| ==> (sets + clean)[i] == sets[i];
    assert forall i :: 0 <= i < |clean| ==> clean[i].id != id;
  }

  // ---------- whole runs ----------

  /** A value blob's history: one create, then updates. */
  datatype Run = Create(args: seq<SqlValue>) | Update(before: Run, args: seq<SqlValue>)

  /** The entries after a run whose every call was accepted. */
  function Entries(run: Run): (r: Option<seq<Entry>>)
  {
    match run
    case Create(args) =>
      if !CreateValArgsOk(args) then None
      else
        assert forall i :: 0 <= i < (|args| - 1) / 3 && Sets(args, i) ==> SpecOk(args, i);
        Some(SetEntries(args, (|args| - 1) / 3))
    case Update(before, args) =>
      if |args| < 4 || |args| % 3 != 1 || Entries(before).None? then None else Updated(Entries(before).value, args)
  }

  function Calls(args: seq<SqlValue>): nat
  {
    if args == [] then 0 else (|args| - 1) / 3
  }

  /** No call of the run names a field twice. */
  predicate NamesOnce(run: Run)
  {
    match run
    case Create(args) => args == [] || DistinctArgs(args, Calls(args))
    case Update(before, args) => NamesOnce(before) && (args == [] || DistinctArgs(args, Calls(args)))
  }

  /** The value a call gives to a field, if it names it. */
  function Given(args: seq<SqlValue>, u: nat, id: int64): (r: Option<SqlResult>)
    requires 3 * u < |args| && SpecsFit(args, u)
  {
    if u == 0 then None
    else if IdArg(args, u - 1) == id then Some(ValueArg(args, u - 1))
    else Given(args, u - 1, id)
  }

  lemma {:induction false} GivenBy(args: seq<SqlValue>, u: nat, k: nat)
    requires 3 * u < |args| && SpecsFit(args, u) && DistinctArgs(args, u) && k < u
    ensures Given(args, u, IdArg(args, k)) == Some(ValueArg(args, k))
  {
    hide ValueArg, IdArg;
    if k < u - 1 {
      GivenBy(args, u - 1, k);
    }
  }

  lemma {:induction false} NotGiven(args: seq<SqlValue>, u: nat, id: int64)
    requires 3 * u < |args| && SpecsFit(args, u)
    ensures Given(args, u, id).Some? <==> Names(args, u, id)
  {
    if u > 0 {
      NotGiven(args, u - 1, id);
    }
  }

  lemma {:induction false} AcceptedFits(run: Run)
    requires Entries(run).Some?
    ensures run.args != [] && SpecsFit(run.args, Calls(run.args))
  {
    hide Marks, Compatible;
    if run.Update? {
      MarksBounded(Entries(run.before).value, run.args, Calls(run.args));
    } else {
      assert forall i :: 0 <= i < Calls(run.args) && Sets(run.args, i) ==> SpecOk(run.args, i);
    }
  }

  /** What the last call to name a field gave it; null if none did. */
  function Latest(run: Run, id: int64): SqlResult
    requires Entries(run).Some?
  {
    AcceptedFits(run);
    match Given(run.args, Calls(run.args), id)
    case Some(v) => v
    case None => if run.Update? then Latest(run.before, id) else ResultNull
  }

  /** Over every run in which no call names a field twice, ids stay distinct and each field
      holds what the last call to name it gave. */
  lemma {:induction false} RunIsMap(run: Run, id: int64)
    requires Entries(run).Some? && NamesOnce(run)
    ensures DistinctIds(Entries(run).value)
    ensures Lookup(Entries(run).value, id) == Latest(run, id)
  {
    hide Lookup, Marks, ValueArg, Given, DistinctIds, DistinctArgs, SetEntries, Compatible;
    AcceptedFits(run);
    var args, u := run.args, Calls(run.args);
    NotGiven(args, u, id);
    match run
    case Create(_) => CreateIsMap(args, u, id);
    case Update(before, _) =>
      RunIsMap(before, id);
      UpdateIsMap(Entries(before).value, args, u, id);
  }

  lemma {:induction false} CreateIsMap(args: seq<SqlValue>, u: nat, id: int64)
    requires 3 * u < |args| && SpecsFit(args, u) && DistinctArgs(args, u)
    ensures DistinctIds(SetEntries(args, u))
    ensures Lookup(SetEntries(args, u), id) ==
            match Given(args, u, id) case Some(v) => v case None => ResultNull
  {
    hide Lookup, ValueArg, Given, SetEntries, Compatible;
    SetsDistinct(args, u);
    NotGiven(args, u, id);
    var k := LookupSets(args, u, id);
    if HasId(SetEntries(args, u), id) {
      GivenBy(args, u, k);
    } else {
      FindMissing(SetEntries(args, u), id);
      if Names(args, u, id) {
        var j :| 0 <= j < u && IdArg(args, j) == id;
        GivenBy(args, u, j);
        NullGiven(args, j);
      }
    }
  }

  lemma {:induction false} NullGiven(args: seq<SqlValue>, j: nat)
    requires 3 * j + 3 < |args| && !Sets(args, j)
    ensures ValueArg(args, j) == ResultNull
  {
  }

  lemma {:induction false} UpdateIsMap(es: seq<Entry>, args: seq<SqlValue>, u: nat, id: int64)
    requires 3 * u < |args| && Marks(es, args, u).Some? && SpecsFit(args, u) && DistinctArgs(args, u) && DistinctIds(es)
    ensures DistinctIds(NewEntries(es, Marks(es, args, u).value, args, u))
    ensures Lookup(NewEntries(es, Marks(es, args, u).value, args, u), id) ==
            match Given(args, u, id) case Some(v) => v case None => Lookup(es, id)
  {
    hide Lookup, ValueArg, Given, SetEntries, Compatible, Marks, Clean;
    NewDistinct(es, args, u, |es|);
    NotGiven(args, u, id);
    if Names(args, u, id) {
      var k :| 0 <= k < u && IdArg(args, k) == id;
      var j := NamedGets(es, args, u, k);
      GivenBy(args, u, j);
    } else {
      UnnamedKeeps(es, args, u, id);
    }
  }

  /** The same at the level of blobs: a successful update followed by a get. */
  lemma {:induction false} GetAfterUpdate(args: seq<SqlValue>, rtype: uint64, es: seq<Entry>, slack: seq<byte>,
                                          out: seq<byte>, id: SqlValue)
    requires |args| >= 4 && |args| % 3 == 1 && args[0].kind == BlobKind && id.kind == IntegerKind
    requires ValFits(es, |slack|) && args[0].bytes == ValBlob(rtype, es, slack)
    requires UpdatesVal(args, rtype, es, |slack|, Done(out))
    requires DistinctIds(es) && DistinctArgs(args, Calls(args))
    ensures Marks(es, args, Calls(args)).Some? && SpecsFit(args, Calls(args))
    ensures GetVal([BlobArg(out), id]) ==
            Done(match Given(args, Calls(args), id.asInt) case Some(v) => v case None => Lookup(es, id.asInt))
    ensures GetValType([BlobArg(out)]) == GetValType([BlobArg(args[0].bytes)])
  {
    hide ValBlob, Lookup, Given, GetVal, GetValType, ValFits, ReadHeader, ValChecked, Marks, DistinctArgs, DistinctIds, DeletedSize;
    ValBlobStores(rtype, es, slack);
    ValBlobChecked(rtype, es, slack);
    var u := Calls(args);
    var all := Updated(es, args).value;
    MarksBounded(es, args, u);
    var junk: seq<byte> :| |junk| == NewSlack(es, |slack|, args) && Done(out) == Done(ValBlob(rtype, all, junk));
    UpdateIsMap(es, args, u, id.asInt);
    GetOfValBlob(rtype, all, junk, id);
    GetOfValBlob(rtype, es, slack, id);
  }

  // ---------- whole runs, in bytes ----------

  /** The record type a run was created with. */
  function RecordType(run: Run): uint64
  {
    match run
    case Create(args) => if args == [] then 0 else ToUnsigned64(args[0].asInt)
    case Update(before, _) => RecordType(before)
  }

  /** An update call on a given blob; the run leaves the first argument open. */
  function On(b: seq<byte>, args: seq<SqlValue>): (r: seq<SqlValue>)
    requires args != []
    ensures |r| == |args| && r[0] == BlobArg(b) && forall k :: 0 < k < |args| ==> r[k] == args[k]
  {
    args[0 := BlobArg(b)]
  }

  /** The blobs that the calls of a run may leave; the content of the slack is free. */
  ghost predicate Produces(run: Run, b: seq<byte>)
  {
    match run
    case Create(args) => CreateVal(args) == Done(b)
    case Update(before, args) =>
      && |args| > 0 && Entries(before).Some?
      && exists prev: seq<byte>, slack: seq<byte> ::
           && Produces(before, prev) && prev == Unparsed(before, slack)
           && UpdatesVal(On(prev, args), RecordType(before), Entries(before).value, |slack|, Done(b))
  }

  /** The blob of a run's entries, with some slack after them. */
  ghost function Unparsed(run: Run, slack: seq<byte>): seq<byte>
    requires Entries(run).Some?
  {
    if ValFits(Entries(run).value, |slack|) then ValBlob(RecordType(run), Entries(run).value, slack) else []
  }

  lemma {:induction false} MarksIgnoreBlob(es: seq<Entry>, b: seq<byte>, args: seq<SqlValue>, k: nat)
    requires 3 * k < |args|
    ensures Marks(es, On(b, args), k) == Marks(es, args, k)
  {
    hide Compatible, TypeCode, On, Find, ToInt8;
    if k > 0 {
      MarksIgnoreBlob(es, b, args, k - 1);
    }
  }

  lemma {:induction false} SetsIgnoreBlob(b: seq<byte>, args: seq<SqlValue>, k: nat)
    requires 3 * k < |args| && SpecsFit(args, k)
    ensures SpecsFit(On(b, args), k) && SetEntries(On(b, args), k) == SetEntries(args, k)
  {
    hide Compatible, ColOf, On, ToInt8;
    var call := On(b, args);
    forall i | 0 <= i < k
      ensures call[3 * i + 1] == args[3 * i + 1] && call[3 * i + 2] == args[3 * i + 2] && call[3 * i + 3] == args[3 * i + 3]
      ensures Sets(call, i) == Sets(args, i)
    {
    }
    if k > 0 {
      SetsIgnoreBlob(b, args, k - 1);
    }
  }

  lemma {:induction false} UpdatedIgnoresBlob(es: seq<Entry>, b: seq<byte>, args: seq<SqlValue>)
    requires |args| > 0
    ensures Updated(es, On(b, args)) == Updated(es, args)
  {
    hide On, Marks, SetEntries, SpecsFit, Clean;
    var u := (|args| - 1) / 3;
    MarksIgnoreBlob(es, b, args, u);
    if Marks(es, args, u).Some? {
      MarksBounded(es, args, u);
      SetsIgnoreBlob(b, args, u);
    }
  }

  /** Every blob of a run is that of its entries, with some slack. */
  lemma {:induction false} ProducedBlob(run: Run, b: seq<byte>) returns (slack: seq<byte>)
    requires Produces(run, b)
    ensures Entries(run).Some? && ValFits(Entries(run).value, |slack|)
    ensures b == ValBlob(RecordType(run), Entries(run).value, slack)
  {
    hide ValBlob, ValFits, Updated, SetEntries, SpecOk, UpdatesVal, On;
    match run
    case Create(args) =>
      slack := [];
    case Update(before, args) =>
      var es := Entries(before).value;
      var prev: seq<byte>, was: seq<byte> :| Produces(before, prev) && prev == Unparsed(before, was) &&
        UpdatesVal(On(prev, args), RecordType(before), es, |was|, Done(b));
      var call := On(prev, args);
      UpdatedIgnoresBlob(es, prev, args);
      slack := SlackOf(call, RecordType(before), es, |was|, b);
  }

  /** What a successful update leaves. */
  lemma {:induction false} SlackOf(args: seq<SqlValue>, rtype: uint64, es: seq<Entry>, size: nat, b: seq<byte>) returns (slack: seq<byte>)
    requires args != [] && UpdatesVal(args, rtype, es, size, Done(b))
    ensures |args| >= 4 && |args| % 3 == 1 && Updated(es, args).Some? && ValFits(Updated(es, args).value, |slack|)
    ensures b == ValBlob(rtype, Updated(es, args).value, slack)
  {
    hide ValBlob, ValFits, Updated, ValChecked, ReadHeader, NewSlack;
    slack :| |slack| == NewSlack(es, size, args) && Done(b) == Done(ValBlob(rtype, Updated(es, args).value, slack));
  }

  /** Over every run in which no call names a field twice, a get on any blob the run may leave
      returns what the last call to name the field gave it. */
  lemma {:induction false} RunGets(run: Run, b: seq<byte>, id: SqlValue)
    requires Produces(run, b) && NamesOnce(run) && id.kind == IntegerKind
    ensures Entries(run).Some? && GetVal([BlobArg(b), id]) == Done(Latest(run, id.asInt))
    ensures GetValType([BlobArg(b)]) == Done(ResultInt(ToSigned64(RecordType(run))))
  {
    hide ValBlob, ValFits, Entries, Latest, GetVal, GetValType, Produces, NamesOnce;
    var slack := ProducedBlob(run, b);
    RunIsMap(run, id.asInt);
    GetOfValBlob(RecordType(run), Entries(run).value, slack, id);
  }

  /** An accepted list that names no field twice carries no marked type code. */
  lemma {:induction false} DistinctIsUnmarked(es: seq<Entry>, args: seq<SqlValue>, u: nat)
    requires 3 * u < |args| && Marks(es, args, u).Some? && DistinctArgs(args, u)
    ensures Unmarked(es, args, u)
  {
    hide Compatible, TypeCode, Find, TypeArg;
    if u > 0 {
      DistinctIsUnmarked(es, args, u - 1);
      var dirty, i := Marks(es, args, u - 1).value, Named(es, args, u - 1);
      if i < |es| {
        MarksAre(es, args, u - 1, i);
        TypeCodeSmall(es[i].col);
        forall k | 0 <= k < u - 1
          ensures Named(es, args, k) != i
        {
          assert IdArg(args, k) != IdArg(args, u - 1);
        }
        assert i !in dirty;
      }
    }
  }

  lemma {:induction false} DistinctOn(b: seq<byte>, args: seq<SqlValue>)
    requires args != [] && DistinctArgs(args, Calls(args))
    ensures DistinctArgs(On(b, args), Calls(args))
  {
    hide On;
    forall k | 0 <= k < Calls(args)
      ensures IdArg(On(b, args), k) == IdArg(args, k)
    {
    }
  }

  /** The calls of a run, one on the result of the other.  Whatever comes out is a blob of the run,
      and an error means that some call was not acceptable. */
  method RunVal(run: Run) returns (out: Outcome<seq<byte>>)
    requires NamesOnce(run)
    ensures out.Done? ==> Produces(run, out.value)
    ensures out.Error? ==> Entries(run).None?
    decreases run
  {
    hide SetEntries, SpecOk, ValFits, Updated, Marks, Unmarked, On, ValBlob, DistinctArgs, ReadHeader, ValChecked;
    match run
    case Create(args) =>
      out := BCreateVal(args);
    case Update(before, args) =>
      out := RunVal(before);
      if out.Done? && args == [] {
        out := Error;
      } else if out.Done? {
        ghost var slack := ProducedBlob(before, out.value);
        ghost var es, u := Entries(before).value, Calls(args);
        var call := On(out.value, args);
        ghost var prev := out.value;
        ValBlobChecked(RecordType(before), es, slack);
        ValBlobStores(RecordType(before), es, slack);
        DistinctOn(prev, args);
        UpdatedIgnoresBlob(es, prev, args);
        AcceptedUnmarked(es, call);
        out := BUpdateVal(call, RecordType(before), es, slack);
        if out.Done? {
          assert prev == Unparsed(before, slack);
          assert Produces(run, out.value);
        }
      }
  }

  lemma {:induction false} AcceptedUnmarked(es: seq<Entry>, args: seq<SqlValue>)
    requires args != [] && DistinctArgs(args, Calls(args))
    ensures Marks(es, args, Calls(args)).Some? ==> Unmarked(es, args, Calls(args))
  {
    if Marks(es, args, Calls(args)).Some? {
      DistinctIsUnmarked(es, args, Calls(args));
    }
  }
}
