/** The packed bit vector of the row codec: eight flags to a byte, low bit first. */
module BitVector {
  import opened Bytes

  /** `!!(b & (1 << j))`. */
  predicate ByteBit(b: nat, j: nat)
    decreases j
  {
    if j == 0 then b % 2 == 1 else ByteBit(b / 2, j - 1)
  }

  /** `b | (1 << j)`. */
  function OrBit(b: nat, j: nat): (r: nat)
    decreases j
  {
    if j == 0 then (if b % 2 == 1 then b else b + 1) else b % 2 + 2 * OrBit(b / 2, j - 1)
  }

  function PackByte(flags: seq<bool>): (b: nat)
  {
    if flags == [] then 0 else (if flags[0] then 1 else 0) + 2 * PackByte(flags[1..])
  }

  function Pow2(k: nat): nat
  {
    if k == 0 then 1 else 2 * Pow2(k - 1)
  }

  lemma {:induction false} PackByteBelow(flags: seq<bool>)
    ensures PackByte(flags) < Pow2(|flags|)
  {
    if flags != [] {
      PackByteBelow(flags[1..]);
    }
  }

  lemma {:induction false} PackByteGet(flags: seq<bool>, j: nat)
    requires j < |flags|
    ensures ByteBit(PackByte(flags), j) == flags[j]
  {
    hide PackByte;
    PackByteHalf(flags);
    if j > 0 {
      PackByteGet(flags[1..], j - 1);
    }
  }

  lemma {:induction false} PackByteHalf(flags: seq<bool>)
    requires flags != []
    ensures PackByte(flags) / 2 == PackByte(flags[1..]) && (PackByte(flags) % 2 == 1 <==> flags[0])
  {
  }

  lemma {:induction false} PackByteSet(flags: seq<bool>, j: nat)
    requires j < |flags|
    ensures OrBit(PackByte(flags), j) == PackByte(flags[j := true])
  {
    var up := flags[j := true];
    if j > 0 {
      PackByteSet(flags[1..], j - 1);
      assert flags[1..][j - 1 := true] == up[1..] && up[0] == flags[0];
      assert PackByte(flags) / 2 == PackByte(flags[1..]);
    } else {
      assert up[1..] == flags[1..];
    }
  }

  lemma {:induction false} PackOctet(flags: seq<bool>)
    requires |flags| <= 8
    ensures PackByte(flags) < 0x100
  {
    PackByteBelow(flags);
    assert Pow2(4) == 2 * Pow2(3) == 2 * (2 * Pow2(2)) == 16;
    assert Pow2(8) == 2 * Pow2(7) == 2 * (2 * Pow2(6)) == 2 * (2 * (2 * Pow2(5)));
    assert |flags| <= 4 || Pow2(|flags|) <= 0x100;
  }

  /** The bytes of a flag list; unused bits of the last byte are clear. */
  function Pack(flags: seq<bool>): (bits: seq<byte>)
    ensures |bits| == (|flags| + 7) / 8
    decreases |flags|
  {
    if flags == [] then []
    else
      var n := if |flags| < 8 then |flags| else 8;
      PackOctet(flags[..n]);
      [PackByte(flags[..n])] + Pack(flags[n..])
  }

  /** `cql_getbit`, with bits past the vector read as clear. */
  predicate BitAt(bits: seq<byte>, i: nat)
  {
    i / 8 < |bits| && ByteBit(bits[i / 8], i % 8)
  }

  lemma {:induction false} PackGet(flags: seq<bool>, i: nat)
    requires i < |flags|
    ensures BitAt(Pack(flags), i) == flags[i]
    decreases |flags|
  {
    hide ByteBit, PackByte, Pack;
    var n := if |flags| < 8 then |flags| else 8;
    PackSteps(flags, n);
    if i < n {
      PackByteGet(flags[..n], i);
    } else {
      PackGet(flags[n..], i - n);
      Eighths(i);
    }
  }

  lemma {:induction false} PackSteps(flags: seq<bool>, n: nat)
    requires 0 < |flags| && n == if |flags| < 8 then |flags| else 8
    ensures PackByte(flags[..n]) < 0x100 && Pack(flags) == [PackByte(flags[..n])] + Pack(flags[n..])
  {
    PackOctet(flags[..n]);
  }

  lemma {:induction false} Eighths(i: nat)
    requires i >= 8
    ensures i / 8 == (i - 8) / 8 + 1 && i % 8 == (i - 8) % 8
  {
  }

  /** Setting bit `i` in place is packing with flag `i` raised. */
  lemma {:induction false} PackSet(flags: seq<bool>, i: nat)
    requires i < |flags|
    ensures 0 <= OrBit(Pack(flags)[i / 8], i % 8) < 0x100
    ensures Pack(flags[i := true]) == Pack(flags)[i / 8 := OrBit(Pack(flags)[i / 8], i % 8)]
    decreases |flags|
  {
    hide OrBit, PackByte, Pack;
    var n := if |flags| < 8 then |flags| else 8;
    var up := flags[i := true];
    PackSteps(flags, n);
    PackSteps(up, n);
    if i < n {
      PackByteSet(flags[..n], i);
      PackOctet(up[..n]);
      assert up[..n] == flags[..n][i := true];
      assert up[n..] == flags[n..];
    } else {
      PackSet(flags[n..], i - n);
      assert up[..n] == flags[..n];
      assert up[n..] == flags[n..][i - n := true];
      Eighths(i);
    }
  }

  function Falses(n: nat): (s: seq<bool>)
    ensures |s| == n
  {
    seq(n, _ => false)
  }

  function Zeros(n: nat): (s: seq<byte>)
    ensures |s| == n
  {
    seq(n, _ => 0)
  }

  lemma {:induction false} PackByteFalses(n: nat)
    ensures PackByte(Falses(n)) == 0
  {
    if n > 0 {
      assert Falses(n)[1..] == Falses(n - 1);
      PackByteFalses(n - 1);
    }
  }

  lemma {:induction false} PackFalses(n: nat)
    ensures Pack(Falses(n)) == Zeros((n + 7) / 8)
    decreases n
  {
    if n > 0 {
      var m := if n < 8 then n else 8;
      assert Falses(n)[..m] == Falses(m) && Falses(n)[m..] == Falses(n - m);
      PackByteFalses(m);
      PackFalses(n - m);
    }
  }
}
