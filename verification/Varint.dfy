/** ZigZag variable-length integers, seven bits to a byte, low bits first, and the
    bounds-checked input cursor that reads them. */
module Varint {
  import opened Bytes
  import opened ByteBuffer

  // ---------- ZigZag ----------

  /** `(i >> 31) ^ (i << 1)`, and the same at 64 bits. */
  function ZigZag(i: int): (n: nat)
  {
    if i >= 0 then 2 * i else -2 * i - 1
  }

  /** `(n >> 1) ^ -(n & 1)`. */
  function UnZigZag(n: nat): (i: int)
    ensures ZigZag(i) == n
  {
    if n % 2 == 0 then n / 2 else -(n / 2) - 1
  }

  // ---------- the byte form ----------

  function VarintBytes(n: nat): (s: seq<byte>)
    ensures |s| >= 1
  {
    if n < 0x80 then [n] else [0x80 + n % 0x80] + VarintBytes(n / 0x80)
  }

  datatype Raw = Raw(value: nat, length: nat)

  /** The value and length of the varint at the head of `s`, if it ends within `limit` bytes. */
  function ParseRaw(s: seq<byte>, limit: nat): (r: Option<Raw>)
    ensures r.Some? ==> 1 <= r.value.length <= limit && r.value.length <= |s|
    decreases limit
  {
    if limit == 0 || s == [] then None
    else if s[0] < 0x80 then Some(Raw(s[0], 1))
    else
      match ParseRaw(s[1..], limit - 1)
      case None => None
      case Some(rest) => Some(Raw(s[0] % 0x80 + 0x80 * rest.value, rest.length + 1))
  }

  /** `x << (7 * k)`. */
  function Shl7(x: nat, k: nat): (r: nat)
  {
    if k == 0 then x else 0x80 * Shl7(x, k - 1)
  }

  lemma {:induction false} ParseRawOfBytes(n: nat, limit: nat, rest: seq<byte>)
    requires limit > 0 && n < Shl7(1, limit)
    ensures |VarintBytes(n)| <= limit
    ensures ParseRaw(VarintBytes(n) + rest, limit) == Some(Raw(n, |VarintBytes(n)|))
    decreases limit
  {
    var s := VarintBytes(n) + rest;
    if n >= 0x80 {
      ParseRawOfBytes(n / 0x80, limit - 1, rest);
      assert s[1..] == VarintBytes(n / 0x80) + rest;
    }
  }

  /** How many bits the integer has: 32 (at most 5 bytes) or 64 (at most 10). */
  datatype Width = W32 | W64 {
    const limit: nat := if W32? then 5 else 10
    const modulus: nat := if W32? then 0x1_0000_0000 else 0x1_0000_0000_0000_0000

    predicate Holds(i: int)
    {
      0 <= 2 * i + modulus < 2 * modulus
    }
  }

  /** Truncation of an unsigned value to the width. */
  function Truncate(w: Width, x: nat): (r: nat)
    ensures r <= x && r < w.modulus && (x < w.modulus ==> r == x)
  {
    if w.W32? then x % 0x1_0000_0000 else x % 0x1_0000_0000_0000_0000
  }

  lemma {:induction false} ModulusBelowShl7(w: Width)
    ensures w.modulus < Shl7(1, w.limit)
  {
    assert Shl7(1, 3) == 0x80 * Shl7(1, 2) == 0x80 * (0x80 * Shl7(1, 1)) == 0x20_0000;
    assert Shl7(1, 5) == 0x80 * Shl7(1, 4) == 0x80 * (0x80 * Shl7(1, 3)) == 0x8_0000_0000;
    assert Shl7(1, 7) == 0x80 * Shl7(1, 6) == 0x80 * (0x80 * Shl7(1, 5));
    assert Shl7(1, 9) == 0x80 * Shl7(1, 8) == 0x80 * (0x80 * Shl7(1, 7));
    assert Shl7(1, 10) == 0x80 * Shl7(1, 9);
  }

  datatype Parsed = Parsed(value: int, length: nat)

  /** What the reader makes of the bytes at the head of `s`: bits past the width are dropped. */
  function ParseVarint(w: Width, s: seq<byte>): (r: Option<Parsed>)
    ensures r.Some? ==> 1 <= r.value.length <= |s| && w.Holds(r.value.value)
  {
    match ParseRaw(s, w.limit)
    case None => None
    case Some(raw) => Some(Parsed(UnZigZag(Truncate(w, raw.value)), raw.length))
  }

  function EncodeVarint(i: int): seq<byte>
  {
    VarintBytes(ZigZag(i))
  }

  /** Reading a written integer gives it back and stops exactly before what follows; a
      32-bit value takes at most 5 bytes, a 64-bit one at most 10. */
  lemma {:induction false} VarintRoundTrip(w: Width, i: int, rest: seq<byte>)
    requires w.Holds(i)
    ensures |EncodeVarint(i)| <= w.limit
    ensures ParseVarint(w, EncodeVarint(i) + rest) == Some(Parsed(i, |EncodeVarint(i)|))
  {
    ModulusBelowShl7(w);
    ParseRawOfBytes(ZigZag(i), w.limit, rest);
  }

  // ---------- writing ----------

  lemma {:induction false} FirstVarintByte(whole: nat, byt: nat, n: nat)
    requires n == whole / 0x80 && byt == whole % 0x80 + (if n != 0 then 0x80 else 0)
    ensures VarintBytes(whole) == [byt] + (if n != 0 then VarintBytes(n) else [])
  {
  }

  /** Appends the varint byte by byte.  The allocation survives exactly if the result fits. */
  method WriteVarint(b: ByteBuf, i: int)
    requires b.Valid() && b.used + |EncodeVarint(i)| <= MAX_BYTES
    modifies b, b.ptr
    ensures b.Valid()
    ensures b.Contents() == old(b.Contents()) + EncodeVarint(i)
    ensures if b.used <= old(b.max) then b.ptr == old(b.ptr) && b.max == old(b.max)
            else fresh(b.ptr)
  {
    hide VarintBytes, ZigZag, InReach;
    var n := ZigZag(i);
    var more := true;
    while more
      invariant b.Valid()
      invariant b.ptr == old(b.ptr) || fresh(b.ptr)
      invariant b.Contents() + (if more then VarintBytes(n) else []) ==
                old(b.Contents()) + EncodeVarint(i)
      invariant if b.used <= old(b.max) then b.ptr == old(b.ptr) && b.max == old(b.max)
                else fresh(b.ptr)
      decreases more, n
    {
      ghost var whole, rest := n, VarintBytes(n);
      assert |b.Contents()| + |rest| == |old(b.Contents())| + |EncodeVarint(i)|;
      ghost var before := b.Contents();
      var byt := n % 0x80;
      n := n / 0x80;
      if n != 0 {
        byt := byt + 0x80;
      }
      more := n != 0;
      FirstVarintByte(whole, byt, n);
      assert rest == [byt] + (if more then VarintBytes(n) else []);
      assert before + rest == before + [byt] + (if more then VarintBytes(n) else []);
      b.Append([byt]);
    }
  }

  // ---------- reading ----------

  /** The whole varint, when `i` bytes have been summed into `result` and `rest` is the remainder. */
  function Resume(result: nat, i: nat, rest: Option<Raw>): Option<Raw>
  {
    match rest
    case None => None
    case Some(r) => Some(Raw(result + Shl7(r.value, i), i + r.length))
  }

  /** `cql_input_buf`: a position in the input and the bytes still unread. */
  class InputBuf {
    const source: seq<byte>
    var data: nat
    var remaining: nat

    ghost predicate Valid()
      reads this
    {
      data + remaining == |source|
    }

    ghost function Rest(): (s: seq<byte>)
      requires Valid()
      reads this
    {
      source[data..]
    }

    constructor (bytes: seq<byte>)
      ensures Valid() && source == bytes && Rest() == bytes && remaining == |bytes|
    {
      source := bytes;
      data := 0;
      remaining := |bytes|;
    }

    /** `cql_input_read` and `cql_input_inline_bytes`: all the bytes asked for, or none. */
    method Read(bytes: nat) returns (ok: bool, dest: seq<byte>)
      requires Valid()
      modifies this
      ensures Valid()
      ensures ok == (bytes <= old(remaining))
      ensures if ok then dest == old(Rest())[..bytes] && Rest() == old(Rest())[bytes..]
              else dest == [] && Rest() == old(Rest())
    {
      if bytes > remaining {
        return false, [];
      }
      dest := source[data..data + bytes];
      remaining := remaining - bytes;
      data := data + bytes;
      ok := true;
    }

    /** `cql_input_inline_str`: the bytes up to a NUL, which is consumed too. */
    method ReadString() returns (ok: bool, dest: seq<byte>)
      requires Valid()
      modifies this
      ensures Valid()
      ensures ok <==> 0 in old(Rest())
      ensures if ok then 0 !in dest && old(Rest()) == dest + [0] + Rest() else Rest() == old(Rest())
    {
      var i := data;
      while i < |source| && source[i] != 0
        invariant data <= i <= |source|
        invariant 0 !in source[data..i]
      {
        i := i + 1;
      }
      dest := source[data..i];
      if i == |source| {
        assert source[data..i] == Rest();
        return false, dest;
      }
      assert Rest()[i - data] == 0;
      remaining := remaining - (i - data + 1);
      data := i + 1;
      ok := true;
    }

    /** `cql_read_varint_32` and `cql_read_varint_64`. */
    method ReadVarint(w: Width) returns (ok: bool, out: int)
      requires Valid()
      modifies this
      ensures Valid()
      ensures ok <==> ParseVarint(w, old(Rest())).Some?
      ensures ok ==> var p := ParseVarint(w, old(Rest())).value;
                     out == p.value && Rest() == old(Rest())[p.length..]
    {
      hide ParseRaw, Shl7, Resume, Truncate, UnZigZag;
      ghost var s := Rest();
      ghost var whole := ParseRaw(s, w.limit);
      var result := 0;
      var i := 0;
      out := 0;
      ok := false;
      ResumeStart(s, w.limit);
      while i < w.limit
        invariant Valid() && 0 <= i <= w.limit && i <= |s| && Rest() == s[i..]
        invariant 0 <= result < Shl7(1, i)
        invariant whole == Resume(result, i, ParseRaw(s[i..], w.limit - i))
        decreases w.limit - i
      {
        ghost var here, before := s[i..], result;
        var got, byt := Read(1);
        if !got {
          ResumeEnd(before, i, here, w.limit - i);
          return;
        }
        assert here[1..] == s[i + 1..];
        assert byt[0] == here[0];
        result := Truncate(w, result + Shl7(byt[0] % 0x80, i));
        if byt[0] < 0x80 {
          ResumeLast(w, i, here, before, result, whole);
          assert Rest() == s[i + 1..];
          out := UnZigZag(result);
          return true, out;
        }
        ResumeStep(w, i, here, before, result);
        i := i + 1;
      }
      ResumeEnd(result, i, s[i..], 0);
    }
  }

  lemma {:induction false} ResumeStart(s: seq<byte>, limit: nat)
    ensures Shl7(1, 0) == 1
    ensures Resume(0, 0, ParseRaw(s[0..], limit)) == ParseRaw(s, limit)
  {
    assert s[0..] == s;
  }

  /** No bytes left, or none allowed: the varint does not end. */
  lemma {:induction false} ResumeEnd(result: nat, i: nat, here: seq<byte>, limit: nat)
    requires here == [] || limit == 0
    ensures Resume(result, i, ParseRaw(here, limit)) == None
  {
  }

  lemma {:induction false} Shl7Add(low: nat, v: nat, k: nat)
    ensures Shl7(low + 0x80 * v, k) == Shl7(low, k) + Shl7(v, k + 1)
    ensures low < 0x80 ==> Shl7(low, k) + Shl7(1, k) <= Shl7(1, k + 1)
  {
    if k > 0 {
      Shl7Add(low, v, k - 1);
    }
  }

  lemma {:induction false} Shl7Monotone(k: nat, m: nat)
    requires k <= m
    ensures Shl7(1, k) <= Shl7(1, m)
    decreases m
  {
    if k < m {
      Shl7Monotone(k, m - 1);
    }
  }

  /** Only the last byte allowed can reach past the width. */
  lemma {:induction false} StepBelowModulus(w: Width, k: nat)
    requires k < w.limit
    ensures Shl7(1, k) < w.modulus
  {
    Shl7Monotone(k, w.limit - 1);
    assert Shl7(1, 3) == 0x80 * Shl7(1, 2) == 0x80 * (0x80 * Shl7(1, 1)) == 0x20_0000;
    assert Shl7(1, 4) == 0x80 * Shl7(1, 3);
    assert Shl7(1, 6) == 0x80 * Shl7(1, 5) == 0x80 * (0x80 * Shl7(1, 4));
    assert Shl7(1, 8) == 0x80 * Shl7(1, 7) == 0x80 * (0x80 * Shl7(1, 6));
    assert Shl7(1, 9) == 0x80 * Shl7(1, 8);
  }

  /** A final byte completes the value. */
  lemma {:induction false} ResumeLast(
    w: Width, i: nat, here: seq<byte>, before: nat, result: nat, whole: Option<Raw>)
    requires i < w.limit && here != [] && here[0] < 0x80
    requires result == Truncate(w, before + Shl7(here[0] % 0x80, i))
    requires whole == Resume(before, i, ParseRaw(here, w.limit - i))
    ensures whole.Some? && whole.value.length == i + 1 && Truncate(w, whole.value.value) == result
  {
  }

  /** A continued byte moves from the unread part into the accumulator; truncating the
      accumulator loses nothing unless the limit is reached, which ends in failure. */
  lemma {:induction false} ResumeStep(w: Width, i: nat, here: seq<byte>, before: nat, result: nat)
    requires i < w.limit && here != [] && here[0] >= 0x80
    requires before < Shl7(1, i) && result == Truncate(w, before + Shl7(here[0] % 0x80, i))
    ensures result < Shl7(1, i + 1)
    ensures Resume(before, i, ParseRaw(here, w.limit - i)) ==
            Resume(result, i + 1, ParseRaw(here[1..], w.limit - (i + 1)))
  {
    var rest := ParseRaw(here[1..], w.limit - (i + 1));
    Shl7Add(here[0] % 0x80, if rest.Some? then rest.value.value else 0, i);
    if i + 1 < w.limit {
      StepBelowModulus(w, i + 1);
    }
  }
}
