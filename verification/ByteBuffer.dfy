/** The growable byte buffer (`cql_bytebuf`).  Growing replaces the allocation, so a
    pointer taken earlier keeps denoting the old one: the buffer is an object whose
    array changes identity. */
module ByteBuffer {
  import opened Bytes

  const GROWTH_SIZE: nat := 1024
  const EXP_GROWTH_CAP: nat := 0x10_0000
  const GROWTH_SIZE_AFTER_CAP: nat := 204800

  /** While a buffer holds no more than this the 32-bit size arithmetic never wraps, and it is the
      largest size a blob can have. */
  const MAX_BYTES: nat := 0x7FFF_FFFF

  /** The numbers of a buffer: bytes in use, capacity, and bytes ever moved by growth. */
  datatype Gauge = Gauge(used: nat, max: nat, copied: nat)

  const OPENED := Gauge(0, GROWTH_SIZE, 0)

  predicate Grows(g: Gauge, needed: nat)
  {
    g.used + needed > g.max
  }

  function GrownMax(max: nat, needed: nat): nat
  {
    if max > EXP_GROWTH_CAP then needed + GROWTH_SIZE_AFTER_CAP + max else needed + (max + max)
  }

  /** Capacity stays within reach of the bytes in use. */
  predicate InReach(g: Gauge)
  {
    g.max == GROWTH_SIZE || g.max <= 3 * g.used
  }

  /** One `cql_bytebuf_alloc`, on the numbers. */
  function AllocStep(g: Gauge, needed: nat): (r: Gauge)
    requires g.used <= g.max
    ensures r.used == g.used + needed <= r.max
    ensures InReach(g) ==> InReach(r)
    ensures InReach(g) && g.max < 0x1_0000_0000 && r.used <= MAX_BYTES ==> r.max < 0x1_0000_0000
  {
    if Grows(g, needed) then Gauge(g.used + needed, GrownMax(g.max, needed), g.copied + g.used)
    else g.(used := g.used + needed)
  }

  /** A run of a buffer: opened, then asked for more, any number of times. */
  datatype Run = Open | Then(before: Run, needed: nat)

  function After(run: Run): (g: Gauge)
    ensures g.used <= g.max
  {
    match run
    case Open => OPENED
    case Then(before, needed) => AllocStep(After(before), needed)
  }

  /** Every growth of the run starts at or below the doubling cap. */
  predicate GrowsByDoubling(run: Run)
  {
    match run
    case Open => true
    case Then(before, needed) =>
      GrowsByDoubling(before) && (Grows(After(before), needed) ==> After(before).max <= EXP_GROWTH_CAP)
  }

  /** Over every run in the doubling phase, the copying done so far is paid for by the
      capacity, and it is less than twice the bytes in use. */
  lemma {:induction false} CopiedBelowTwiceUsed(run: Run)
    requires GrowsByDoubling(run)
    ensures var g := After(run);
            g.copied + GROWTH_SIZE <= g.max && (g.copied == 0 || g.copied < 2 * g.used)
  {
    match run
    case Open =>
    case Then(before, needed) => CopiedBelowTwiceUsed(before);
  }

  /** A full buffer past the cap: one more byte moves everything, for 200K of new room. */
  lemma {:induction false} GrowAndFill(run: Run)
    requires After(run).used == After(run).max > EXP_GROWTH_CAP
    ensures var g, h := After(run), After(Then(Then(run, 1), GROWTH_SIZE_AFTER_CAP));
            h.used == h.max == g.max + 1 + GROWTH_SIZE_AFTER_CAP && h.copied == g.copied + g.max
  {
    assert After(Then(run, 1)) == AllocStep(After(run), 1);
  }

  /** `n` such growths: the contents grow with `n`, the copying with its square. */
  lemma {:induction false} GrowMany(run: Run, n: nat) returns (r: Run)
    requires After(run).used == After(run).max > EXP_GROWTH_CAP
    ensures var g, h := After(run), After(r);
            && h.used == h.max == g.max + n * 204801
            && 2 * h.copied >= 2 * n * g.max + 204801 * (n * n - n)
  {
    if n == 0 {
      r := run;
    } else {
      var s := GrowMany(run, n - 1);
      ghost var m := After(run).max;
      assert (n - 1) * 204801 == n * 204801 - 204801;
      GrowAndFill(s);
      r := Then(Then(s, 1), GROWTH_SIZE_AFTER_CAP);
      Squares(n, m);
    }
  }

  lemma {:induction false} Squares(n: nat, m: nat)
    requires n > 0
    ensures 2 * (n - 1) * m + 204801 * ((n - 1) * (n - 1) - (n - 1)) + 2 * (m + (n - 1) * 204801) ==
            2 * n * m + 204801 * (n * n - n)
  {
  }

  lemma {:induction false} SquareWins(c: nat, n: nat, m: nat)
    requires n == 2 * c + 2 && m > 0
    ensures 2 * n * m + 204801 * (n * n - n) > 2 * (c * (m + n * 204801))
  {
    assert n * n - n == n * (2 * c + 1) == 2 * (c * n) + n;
    assert c * (m + n * 204801) == c * m + (c * n) * 204801;
    assert n * m == 2 * (c * m) + 2 * m;
  }

  lemma {:induction false} FirstGrowth(g: Gauge, n: nat)
    requires g.used == 0 && g.max == 1024 && g.copied == 0 && n > 1024
    ensures AllocStep(g, n) == Gauge(n, n + 2048, 0)
  {
  }

  /** A full buffer just past the cap. */
  lemma {:induction false} FullPastCap() returns (run: Run)
    ensures After(run).used == After(run).max > EXP_GROWTH_CAP
  {
    run := Then(Open, EXP_GROWTH_CAP);
    FirstGrowth(After(Open), EXP_GROWTH_CAP);
    assert After(Then(run, 2048)) == AllocStep(After(run), 2048);
    run := Then(run, 2048);
  }

  /** Past the cap growth is by a constant and no bound holds: for every factor there is a run
      that copies more than that many times what it stores. */
  lemma {:induction false} CopiedExceedsPastCap(c: nat) returns (run: Run)
    ensures After(run).copied > c * After(run).used
  {
    var full := FullPastCap();
    run := GrowMany(full, 2 * c + 2);
    SquareWins(c, 2 * c + 2, After(full).max);
  }

  class ByteBuf {
    var ptr: array<byte>
    var used: nat
    var max: nat
    ghost var copied: nat

    ghost predicate Valid()
      reads this
    {
      ptr.Length == max && used <= max && GROWTH_SIZE <= max < 0x1_0000_0000 && InReach(Numbers())
    }

    ghost function Contents(): (s: seq<byte>)
      requires Valid()
      reads this, ptr
    {
      ptr[..used]
    }

    ghost function Numbers(): (g: Gauge)
      reads this
    {
      Gauge(used, max, copied)
    }

    constructor Open()
      ensures Valid() && fresh(ptr) && Contents() == [] && Numbers() == OPENED && max == 1024
    {
      max := GROWTH_SIZE;
      ptr := new byte[GROWTH_SIZE];
      used := 0;
      copied := 0;
    }

    /** Reserves `needed` bytes and returns their offset, as long as the new capacity does not
        wrap.  The allocation changes identity exactly when the request does not fit. */
    method Alloc(needed: nat) returns (at: nat)
      requires Valid() && AllocStep(Numbers(), needed).max < 0x1_0000_0000
      modifies this
      ensures Valid()
      ensures at == old(used) && Numbers() == AllocStep(old(Numbers()), needed)
      ensures used == old(used) + needed && ptr.Length == max
      ensures max == if old(used) + needed <= old(max) then old(max)
                     else if old(max) <= 1024 * 1024 then needed + 2 * old(max) else needed + old(max) + 200 * 1024
      ensures ptr[..at] == old(Contents())
      ensures if Grows(old(Numbers()), needed) then fresh(ptr) else ptr == old(ptr)
    {
      var avail := max - used;
      if needed > avail {
        if max > EXP_GROWTH_CAP {
          max := needed + GROWTH_SIZE_AFTER_CAP + max;
        } else {
          max := needed + 2 * max;
        }
        var newptr := new byte[max];
        CopyInto(newptr, 0, ptr[..used]);
        assert newptr[..used] == ptr[..used];
        copied := copied + used;
        ptr := newptr;
      }
      at := used;
      used := used + needed;
    }

    method Append(data: seq<byte>)
      requires Valid() && AllocStep(Numbers(), |data|).max < 0x1_0000_0000
      modifies this, ptr
      ensures Valid()
      ensures Contents() == old(Contents()) + data
      ensures Numbers() == AllocStep(old(Numbers()), |data|)
      ensures if Grows(old(Numbers()), |data|) then fresh(ptr) else ptr == old(ptr)
      ensures Grows(old(Numbers()), |data|) ==> old(ptr)[..] == old(ptr[..])
    {
      var at := Alloc(|data|);
      CopyInto(ptr, at, data);
    }
  }
}
