/** Hashes, equality and difference of rows, said on numbers, bytes and contents alone. */
module RowValues {
  import opened Bytes
  import opened Numerals
  import opened RowHash
  import Grouping

  // ---------- the hash ----------

  /** Digits after a start value, in base 33. */
  function Polynomial(start: nat, ds: seq<nat>): (v: nat)
  {
    start * Power(33, |ds|) + Weighted(ds, |ds|, 33, 0)
  }

  function Digits(s: seq<byte>): (ds: seq<nat>)
    ensures |ds| == |s|
  {
    seq(|s|, i requires 0 <= i < |s| => s[i] as nat)
  }

  /** One accumulator step, on numbers that agree modulo 2^64. */
  lemma {:induction false} MixIs(h: uint64, c: uint64, x: nat)
    requires h == x % 0x1_0000_0000_0000_0000
    ensures Mix(h, c) == (33 * x + c) % 0x1_0000_0000_0000_0000
  {
    var q := x / 0x1_0000_0000_0000_0000;
    var step := h * 33 + c;
    var p, m := step / 0x1_0000_0000_0000_0000, step % 0x1_0000_0000_0000_0000;
    assert 33 * x + c == (33 * q + p) * 0x1_0000_0000_0000_0000 + m;
    Remainder(33 * x + c, 33 * q + p, m);
  }

  lemma {:induction false} Remainder(n: nat, q: nat, m: nat)
    requires n == q * 0x1_0000_0000_0000_0000 + m && m < 0x1_0000_0000_0000_0000
    ensures n % 0x1_0000_0000_0000_0000 == m
  {
  }

  lemma {:induction false} PolynomialStep(start: nat, ds: seq<nat>, n: nat)
    requires n < |ds|
    ensures start * Power(33, n + 1) + Weighted(ds, n + 1, 33, 0) ==
            33 * (start * Power(33, n) + Weighted(ds, n, 33, 0)) + ds[n]
  {
    WeightedNext(ds, n, 33, 0);
    Spread33(start, Power(33, n), Weighted(ds, n, 33, 0));
  }

  lemma {:induction false} Spread33(start: nat, p: nat, w: nat)
    ensures start * (33 * p) + 33 * w == 33 * (start * p + w)
  {
  }

  lemma {:induction false} BytesHashUpTo(s: seq<byte>, n: nat)
    requires n <= |s|
    ensures BytesHash(s, n) == (5381 * Power(33, n) + Weighted(Digits(s), n, 33, 0)) % 0x1_0000_0000_0000_0000
  {
    hide Mix, Power, Weighted;
    if n == 0 {
      NoDigits(Digits(s));
    } else {
      BytesHashUpTo(s, n - 1);
      PolynomialStep(5381, Digits(s), n - 1);
      MixIs(BytesHash(s, n - 1), s[n - 1], 5381 * Power(33, n - 1) + Weighted(Digits(s), n - 1, 33, 0));
    }
  }

  lemma {:induction false} NoDigits(ds: seq<nat>)
    ensures Power(33, 0) == 1 && Weighted(ds, 0, 33, 0) == 0
  {
  }

  /** The hash of bytes: `5381 * 33^n + sum of s[i] * 33^(n - 1 - i)`, modulo 2^64. */
  function Djb2(s: seq<byte>): (h: nat)
  {
    Polynomial(5381, Digits(s)) % 0x1_0000_0000_0000_0000
  }

  /** What a reference adds: nothing for null, the hash of its contents for a string or blob. */
  function RefDigit(r: Ref): (d: nat)
  {
    match r
    case Null => 0
    case Str(_, chars) => Djb2(chars)
    case Blob(_, bytes) => Djb2(bytes)
    case Object(_) => 0
  }

  function RefDigits(refs: seq<Ref>): (ds: seq<nat>)
    ensures |ds| == |refs|
  {
    seq(|refs|, i requires 0 <= i < |refs| => RefDigit(refs[i]))
  }

  lemma {:induction false} RefDigitIs(r: Ref)
    ensures !r.Object? ==> RefHash(r) == Some(RefDigit(r))
  {
    match r
    case Str(_, chars) => BytesHashUpTo(chars, |chars|);
    case Blob(_, bytes) => BytesHashUpTo(bytes, |bytes|);
    case _ =>
  }

  lemma {:induction false} RefsHashUpTo(prefix: seq<byte>, refs: seq<Ref>, n: nat)
    requires n <= |refs| && forall i :: 0 <= i < n ==> !refs[i].Object?
    ensures RefsHash(prefix, refs, n) ==
            Some((Djb2(prefix) * Power(33, n) + Weighted(RefDigits(refs), n, 33, 0)) % 0x1_0000_0000_0000_0000)
  {
    hide Mix, Power, Weighted, RefDigit, Djb2, RefHash, BytesHash;
    if n == 0 {
      NoDigits(RefDigits(refs));
      PrefixIs(prefix);
    } else {
      RefsHashUpTo(prefix, refs, n - 1);
      RefDigitIs(refs[n - 1]);
      var x := Djb2(prefix) * Power(33, n - 1) + Weighted(RefDigits(refs), n - 1, 33, 0);
      PolynomialStep(Djb2(prefix), RefDigits(refs), n - 1);
      MixIs(x % 0x1_0000_0000_0000_0000, RefHash(refs[n - 1]).value, x);
    }
  }

  lemma {:induction false} PrefixIs(prefix: seq<byte>)
    ensures BytesHash(prefix, |prefix|) == Djb2(prefix) == Djb2(prefix) % 0x1_0000_0000_0000_0000
  {
    hide BytesHash, Power, Weighted;
    BytesHashUpTo(prefix, |prefix|);
  }

  /** The hash of a row: its bytes, and then its references as further digits. */
  lemma {:induction false} HashIs(b: Buffer)
    requires forall i :: 0 <= i < |b.refs| ==> !b.refs[i].Object?
    ensures BufferHash(b) == Some(Polynomial(Djb2(b.prefix), RefDigits(b.refs)) % 0x1_0000_0000_0000_0000)
    ensures Grouping.KeyHash(b) == Polynomial(Djb2(b.prefix), RefDigits(b.refs)) % 0x1_0000_0000_0000_0000 % 0x1_0000_0000
  {
    hide Djb2, RefDigits, Power, Weighted;
    RefsHashUpTo(b.prefix, b.refs, |b.refs|);
  }

  /** A step loses nothing: 33 has an inverse modulo 2^64. */
  lemma {:induction false} MixInjective(h: uint64, h': uint64, c: uint64)
    requires Mix(h, c) == Mix(h', c)
    ensures h == h'
  {
    var q := (h * 33 + c) / 0x1_0000_0000_0000_0000 - (h' * 33 + c) / 0x1_0000_0000_0000_0000;
    assert 33 * (h - h') == q * 0x1_0000_0000_0000_0000;
    Inverse33(h - h', q);
  }

  lemma {:induction false} Inverse33(d: int, q: int)
    requires 33 * d == q * 0x1_0000_0000_0000_0000
    requires -0x1_0000_0000_0000_0000 < d < 0x1_0000_0000_0000_0000
    ensures d == 0
  {
    // 33 * 0x0F83E0F83E0F83E1 == 2 * 2^64 + 1
    assert 33 * 0x0F83_E0F8_3E0F_83E1 == 2 * 0x1_0000_0000_0000_0000 + 1;
    assert d == (0x0F83_E0F8_3E0F_83E1 * q - 2 * d) * 0x1_0000_0000_0000_0000;
  }

  lemma {:induction false} LaterDiffers(s: seq<byte>, t: seq<byte>, p: nat, n: nat)
    requires |s| == |t| && p < n <= |s| && s[p] != t[p] && forall i :: 0 <= i < |s| && i != p ==> s[i] == t[i]
    ensures BytesHash(s, n) != BytesHash(t, n)
  {
    hide Mix;
    if n == p + 1 {
      SameBefore(s, t, p);
      MixDigit(BytesHash(s, p), s[p], t[p]);
    } else {
      LaterDiffers(s, t, p, n - 1);
      if BytesHash(s, n) == BytesHash(t, n) {
        MixInjective(BytesHash(s, n - 1), BytesHash(t, n - 1), s[n - 1]);
      }
    }
  }

  lemma {:induction false} SameBefore(s: seq<byte>, t: seq<byte>, n: nat)
    requires |s| == |t| && n <= |s| && forall i :: 0 <= i < n ==> s[i] == t[i]
    ensures BytesHash(s, n) == BytesHash(t, n)
  {
    if n > 0 {
      SameBefore(s, t, n - 1);
    }
  }

  lemma {:induction false} MixDigit(h: uint64, c: byte, d: byte)
    requires c != d
    ensures Mix(h, c) != Mix(h, d)
  {
  }

  /** Rows without references that differ in one byte hash differently. */
  lemma {:induction false} OneByteChangesHash(s: seq<byte>, t: seq<byte>, p: nat)
    requires |s| == |t| && p < |s| && s[p] != t[p] && forall i :: 0 <= i < |s| && i != p ==> s[i] == t[i]
    ensures BufferHash(Buffer(s, [])) != BufferHash(Buffer(t, []))
  {
    hide BytesHash;
    LaterDiffers(s, t, p, |s|);
  }

  // ---------- equality ----------

  /** Two references stand for the same: both null, strings with the same characters, blobs with the
      same bytes, or one object. */
  predicate SameContents(a: Ref, b: Ref)
  {
    || (a.Null? && b.Null?)
    || (a.Str? && b.Str? && a.chars == b.chars)
    || (a.Blob? && b.Blob? && a.bytes == b.bytes)
    || (a.Object? && a == b)
  }

  /** When two references cannot be compared: different ones, neither null, that are not two strings and
      not two blobs. */
  lemma {:induction false} IncomparableIs(a: Ref, b: Ref)
    ensures RefEqual(a, b) == None <==> a != b && !a.Null? && !b.Null? && !(a.Str? && b.Str?) && !(a.Blob? && b.Blob?)
    ensures RefEqual(a, b) == Some(true) <==> SameContents(a, b)
  {
  }

  /** When rows compare equal. */
  lemma {:induction false} EqualIs(a: Buffer, b: Buffer)
    requires |a.refs| == |b.refs|
    ensures BuffersEqual(a, b) == Some(true) <==>
            a.prefix == b.prefix && forall i :: 0 <= i < |a.refs| ==> SameContents(a.refs[i], b.refs[i])
    ensures SameMeaning(a, b) <==>
            a.prefix == b.prefix && forall i :: 0 <= i < |a.refs| ==> SameContents(a.refs[i], b.refs[i])
  {
    BuffersEqualIff(a, b);
    forall i | 0 <= i < |a.refs|
      ensures Meaning(a.refs[i]) == Meaning(b.refs[i]) <==> SameContents(a.refs[i], b.refs[i])
    {
    }
  }

  /** Cursors: without a row the hash is zero, and equality is of sizes, of presence and of rows. */
  lemma {:induction false} CursorsAre(c: Cursor, d: Cursor)
    ensures !c.hasRow ==> CursorHash(c) == Some(0)
    ensures c.hasRow ==> CursorHash(c) == BufferHash(c.row)
    ensures CursorsEqual(c, d) == Some(true) <==>
            && |c.row.prefix| == |d.row.prefix| && |c.row.refs| == |d.row.refs| && c.hasRow == d.hasRow
            && (c.hasRow ==> c.row.prefix == d.row.prefix && forall i :: 0 <= i < |c.row.refs| ==> SameContents(c.row.refs[i], d.row.refs[i]))
  {
    hide BuffersEqual, SameContents, BufferHash, SameMeaning;
    if |c.row.refs| == |d.row.refs| {
      EqualIs(c.row, d.row);
    }
  }

  // ---------- difference ----------

  /** `w` bytes are the same in both rows. */
  predicate SameAt(a: Buffer, b: Buffer, at: nat, w: nat)
    requires at + w <= |a.prefix| && at + w <= |b.prefix|
  {
    a.prefix[at..at + w] == b.prefix[at..at + w]
  }

  lemma {:induction false} SameAtIs(a: Buffer, b: Buffer, at: nat, w: nat)
    requires at + w <= |a.prefix| && at + w <= |b.prefix|
    ensures ReadNative(a.prefix, at, w) == ReadNative(b.prefix, at, w) <==> SameAt(a, b, at, w)
  {
    hide ReadNative;
    SameReading(a.prefix, b.prefix, at, w);
    if SameAt(a, b, at, w) {
      forall p | at <= p < at + w
        ensures a.prefix[p] == b.prefix[p]
      {
        assert a.prefix[p] == a.prefix[at..at + w][p - at] == b.prefix[at..at + w][p - at];
      }
    }
  }

  /** Two doubles in IEEE 754 order of bits: neither is above infinity, and they are the same number or
      both zero but for the sign. */
  predicate EqualDoubles(a: nat, b: nat)
  {
    && a % 0x8000_0000_0000_0000 <= 0x7FF0_0000_0000_0000 && b % 0x8000_0000_0000_0000 <= 0x7FF0_0000_0000_0000
    && (a == b || (a % 0x8000_0000_0000_0000 == 0 && b % 0x8000_0000_0000_0000 == 0))
  }

  lemma {:induction false} NativeIs(s: seq<byte>, at: nat, w: nat)
    requires at + w <= |s|
    ensures ReadNative(s, at, w) == LittleEnd(s, at, w)
    decreases w
  {
    if w > 0 {
      NativeIs(s, at + 1, w - 1);
    }
  }

  /** Six low bytes, and the two that hold sign, exponent and the top of the fraction. */
  lemma {:induction false} EightBytes(s: seq<byte>, at: nat)
    requires at + 8 <= |s|
    ensures LittleEnd(s, at, 8) == LittleEnd(s, at, 6) + 0x1_0000_0000_0000 * (s[at + 6] as int + 0x100 * (s[at + 7] as int))
    ensures LittleEnd(s, at, 6) < 0x1_0000_0000_0000
    ensures LittleEnd(s, at, 6) == 0 <==> forall p :: at <= p < at + 6 ==> s[p] == 0
  {
    LowBytes(s, at, 6, 2);
    LowBytesZero(s, at, 6);
    assert LittleEnd(s, at + 6, 2) == s[at + 6] + 0x100 * LittleEnd(s, at + 7, 1);
    assert LittleEnd(s, at + 7, 1) == s[at + 7] + 0x100 * LittleEnd(s, at + 8, 0);
    assert Power(0x100, 4) == 0x100 * Power(0x100, 3) == 0x100 * (0x100 * Power(0x100, 2)) == 0x1_0000_0000;
    assert Power(0x100, 6) == 0x100 * Power(0x100, 5) == 0x100 * (0x100 * Power(0x100, 4));
  }

  lemma {:induction false} LowBytes(s: seq<byte>, at: nat, w: nat, v: nat)
    requires at + w + v <= |s|
    ensures LittleEnd(s, at, w + v) == LittleEnd(s, at, w) + Power(0x100, w) * LittleEnd(s, at + w, v)
    decreases w
  {
    if w > 0 {
      LowBytes(s, at + 1, w - 1, v);
      Scale(LittleEnd(s, at + 1, w - 1), Power(0x100, w - 1), LittleEnd(s, at + w, v));
    } else {
      assert Power(0x100, 0) == 1;
    }
  }

  lemma {:induction false} Scale(l: nat, p: nat, h: nat)
    ensures 0x100 * (l + p * h) == 0x100 * l + 0x100 * p * h
  {
  }

  lemma {:induction false} LowBytesZero(s: seq<byte>, at: nat, w: nat)
    requires at + w <= |s|
    ensures LittleEnd(s, at, w) < Power(0x100, w)
    ensures LittleEnd(s, at, w) == 0 <==> forall p :: at <= p < at + w ==> s[p] == 0
    decreases w
  {
    if w > 0 {
      LowBytesZero(s, at + 1, w - 1);
    }
  }

  lemma {:induction false} NanIs(s: seq<byte>, at: nat)
    requires at + 8 <= |s|
    ensures IsNan(s, at) <==> LittleEnd(s, at, 8) % 0x8000_0000_0000_0000 > 0x7FF0_0000_0000_0000
    ensures IsZero(s, at) <==> LittleEnd(s, at, 8) % 0x8000_0000_0000_0000 == 0
  {
    hide LittleEnd;
    EightBytes(s, at);
    TopBytes(LittleEnd(s, at, 6), s[at + 6], s[at + 7]);
  }

  lemma {:induction false} TopBytes(low: nat, x: byte, y: byte)
    requires low < 0x1_0000_0000_0000
    ensures (low + 0x1_0000_0000_0000 * (x + 0x100 * y)) % 0x8000_0000_0000_0000 == low + 0x1_0000_0000_0000 * (x + 0x100 * (y % 128))
    ensures low + 0x1_0000_0000_0000 * (x + 0x100 * (y % 128)) > 0x7FF0_0000_0000_0000 <==>
            y % 128 == 127 && x / 16 == 15 && !(x % 16 == 0 && low == 0)
  {
  }

  lemma {:induction false} RealsAre(a: Buffer, b: Buffer, at: nat)
    requires at + 8 <= |a.prefix| && at + 8 <= |b.prefix|
    ensures RealsEqual(a.prefix, b.prefix, at) <==> EqualDoubles(LittleEnd(a.prefix, at, 8), LittleEnd(b.prefix, at, 8))
  {
    hide IsNan, IsZero, LittleEnd, ReadNative;
    NanIs(a.prefix, at);
    NanIs(b.prefix, at);
    NativeIs(a.prefix, at, 8);
    NativeIs(b.prefix, at, 8);
  }

  /** When a not-null column is the same in two rows: one byte of a bool, four of an int, eight of a
      long, two doubles that are equal, or references that stand for the same. */
  lemma {:induction false} NotNullColumns(c: Column, a: Buffer, b: Buffer)
    requires Placed(c, a) && Placed(c, b) && c.notNull
    ensures match c.kind
            case BoolCol => ColumnsEqual(c, a, b) <==> SameAt(a, b, c.at, 1)
            case IntCol => ColumnsEqual(c, a, b) <==> SameAt(a, b, c.at, 4)
            case LongCol => ColumnsEqual(c, a, b) <==> SameAt(a, b, c.at, 8)
            case RealCol => ColumnsEqual(c, a, b) <==> EqualDoubles(LittleEnd(a.prefix, c.at, 8), LittleEnd(b.prefix, c.at, 8))
            case _ => ColumnsEqual(c, a, b) <==> SameContents(a.refs[c.at], b.refs[c.at])
  {
    hide ReadNative, RealsEqual, LittleEnd, SameAt, EqualDoubles;
    if !IsRef(c.kind) {
      SameAtIs(a, b, c.at, Width(c.kind));
      if c.kind.RealCol? {
        RealsAre(a, b, c.at);
      }
    }
  }

  /** Both null, by the byte that says so, or both present and the values the same. */
  predicate NullOr(a: Buffer, b: Buffer, at: nat, same: bool)
    requires at < |a.prefix| && at < |b.prefix|
  {
    a.prefix[at] == b.prefix[at] && (a.prefix[at] != 0 || same)
  }

  /** When a nullable column is: the value of a bool is one byte after `is_null`, of an int four, of a long
      or double eight. */
  lemma {:induction false} NullableColumns(c: Column, a: Buffer, b: Buffer)
    requires Placed(c, a) && Placed(c, b) && !c.notNull
    ensures match c.kind
            case BoolCol => ColumnsEqual(c, a, b) <==> NullOr(a, b, c.at, SameAt(a, b, c.at + 1, 1))
            case IntCol => ColumnsEqual(c, a, b) <==> NullOr(a, b, c.at, SameAt(a, b, c.at + 4, 4))
            case LongCol => ColumnsEqual(c, a, b) <==> NullOr(a, b, c.at, SameAt(a, b, c.at + 8, 8))
            case RealCol => ColumnsEqual(c, a, b) <==>
                            NullOr(a, b, c.at, EqualDoubles(LittleEnd(a.prefix, c.at + 8, 8), LittleEnd(b.prefix, c.at + 8, 8)))
            case _ => ColumnsEqual(c, a, b) <==> SameContents(a.refs[c.at], b.refs[c.at])
  {
    hide ReadNative, RealsEqual, LittleEnd, SameAt, EqualDoubles;
    if !IsRef(c.kind) {
      SameAtIs(a, b, c.at + Width(c.kind), Width(c.kind));
      if c.kind.RealCol? {
        RealsAre(a, b, c.at + 8);
      }
    }
  }
}
