/** Numbers in positional notation, as the file formats are described: the reference against
    which the runtime's own ways of writing and reading numbers are stated. */
module Numerals {
  import opened Bytes

  function Power(b: nat, e: nat): (p: nat)
  {
    if e == 0 then 1 else b * Power(b, e - 1)
  }

  /** The number that `w` bytes from `at` on spell, most significant first. */
  function BigEnd(s: seq<byte>, at: nat, w: nat): (n: nat)
    requires at + w <= |s|
  {
    if w == 0 then 0 else 0x100 * BigEnd(s, at, w - 1) + s[at + w - 1]
  }

  /** The number that `w` bytes from `at` on spell, least significant first. */
  function LittleEnd(s: seq<byte>, at: nat, w: nat): (n: nat)
    requires at + w <= |s|
    decreases w
  {
    if w == 0 then 0 else s[at] + 0x100 * LittleEnd(s, at + 1, w - 1)
  }

  /** Bit `k` of an integer in two's complement. */
  predicate Bit(x: int, k: nat)
    decreases k
  {
    if k == 0 then x % 2 == 1 else Bit(x / 2, k - 1)
  }

  /** The complement `-x - 1` has every bit inverted. */
  lemma {:induction false} BitOfComplement(x: int, k: nat)
    ensures Bit(-x - 1, k) == !Bit(x, k)
    decreases k
  {
    if k > 0 {
      assert (-x - 1) / 2 == -(x / 2) - 1;
      BitOfComplement(x / 2, k - 1);
    }
  }

  /** `sum of ds[i] * b^(n - 1 - i)` over `i` from `i` to `n - 1`. */
  function Weighted(ds: seq<nat>, n: nat, b: nat, i: nat): (v: nat)
    requires i <= n <= |ds|
    decreases n - i
  {
    if i == n then 0 else ds[i] * Power(b, n - 1 - i) + Weighted(ds, n, b, i + 1)
  }

  /** One more digit at the end. */
  lemma {:induction false} WeightedNext(ds: seq<nat>, n: nat, b: nat, i: nat)
    requires i <= n < |ds|
    ensures Weighted(ds, n + 1, b, i) == b * Weighted(ds, n, b, i) + ds[n]
    decreases n - i
  {
    if i == n {
      assert Power(b, 0) == 1;
      assert Weighted(ds, n + 1, b, n + 1) == 0;
    } else {
      WeightedNext(ds, n, b, i + 1);
      Spread(b, ds[i], Power(b, n - 1 - i), Weighted(ds, n, b, i + 1));
    }
  }

  lemma {:induction false} Spread(b: nat, d: nat, p: nat, w: nat)
    ensures d * (b * p) + b * w == b * (d * p + w)
  {
  }

  /** A set that gains one element or none. */
  lemma {:induction false} Grown(s: set<nat>, t: set<nat>, i: nat, added: bool)
    requires i !in s && forall j :: j in t <==> j in s || (added && j == i)
    ensures |t| == |s| + (if added then 1 else 0)
  {
    assert t == if added then s + {i} else s;
  }

  lemma {:induction false} BigEndOf8(s: seq<byte>, at: nat)
    requires at + 8 <= |s|
    ensures BigEnd(s, at, 8) == ReadBigEndian64(s[at..at + 8])
  {
    BigEndOf4(s, at);
    BigEndOf4(s, at + 4);
    BigEndHalves(s, at);
    assert s[at..at + 8][..4] == s[at..at + 4] && s[at..at + 8][4..] == s[at + 4..at + 8];
  }

  lemma {:induction false} BigEndHalves(s: seq<byte>, at: nat)
    requires at + 8 <= |s|
    ensures BigEnd(s, at, 8) == BigEnd(s, at, 4) * 0x1_0000_0000 + BigEnd(s, at + 4, 4)
  {
    assert BigEnd(s, at, 8) == 0x100 * BigEnd(s, at, 7) + s[at + 7];
    assert BigEnd(s, at, 7) == 0x100 * BigEnd(s, at, 6) + s[at + 6];
    assert BigEnd(s, at, 6) == 0x100 * BigEnd(s, at, 5) + s[at + 5];
    assert BigEnd(s, at, 5) == 0x100 * BigEnd(s, at, 4) + s[at + 4];
    assert BigEnd(s, at + 4, 4) == 0x100 * BigEnd(s, at + 4, 3) + s[at + 7];
    assert BigEnd(s, at + 4, 3) == 0x100 * BigEnd(s, at + 4, 2) + s[at + 6];
    assert BigEnd(s, at + 4, 2) == 0x100 * BigEnd(s, at + 4, 1) + s[at + 5];
    assert BigEnd(s, at + 4, 1) == 0x100 * BigEnd(s, at + 4, 0) + s[at + 4];
  }

  lemma {:induction false} BigEndOf4(s: seq<byte>, at: nat)
    requires at + 4 <= |s|
    ensures BigEnd(s, at, 4) == ReadBigEndian32(s[at..at + 4])
  {
    assert BigEnd(s, at, 2) == 0x100 * BigEnd(s, at, 1) + s[at + 1];
    assert BigEnd(s, at, 1) == s[at];
  }

  lemma {:induction false} LittleEndOf4(s: seq<byte>, at: nat)
    requires at + 4 <= |s|
    ensures LittleEnd(s, at, 4) == ReadLittleEndian32(s[at..at + 4])
  {
    assert LittleEnd(s, at + 2, 2) == s[at + 2] + 0x100 * LittleEnd(s, at + 3, 1);
    assert LittleEnd(s, at + 3, 1) == s[at + 3];
  }
}
