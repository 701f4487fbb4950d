/** Byte-level primitives the decoders are built on: the memory dump as a
    sequence of bytes, Python's clipping slice, little-endian unsigned
    integers (`int.from_bytes(..., 'little')`), the first-match search of
    `bytes.find`, and UTF-16LE code units. */
module Bytes {

  type Byte = b: int | 0 <= b < 0x100
  type CodeUnit = u: int | 0 <= u < 0x1_0000

  function Min(a: int, b: int): int { if a <= b then a else b }

  function Pow(base: nat, e: nat): (r: nat)
    ensures base > 0 ==> r > 0
  {
    if e == 0 then 1 else base * Pow(base, e - 1)
  }

  /** `m[a:b]` for non-negative bounds: indices past the end are clipped, so a
      read near the end of the dump yields a short (possibly empty) slice. */
  function Slice(m: seq<Byte>, a: nat, b: nat): (r: seq<Byte>)
    ensures |r| == if b <= a || |m| <= a then 0 else Min(b, |m|) - a
    ensures forall i :: 0 <= i < |r| ==> r[i] == m[a + i]
  {
    if |m| <= a || b <= a then [] else m[a..Min(b, |m|)]
  }

  /** `int.from_bytes(s, 'little')`: the first byte is the least significant.
      An empty sequence reads as 0. */
  function LeUint(s: seq<Byte>): nat
  {
    if s == [] then 0 else s[0] + 0x100 * LeUint(s[1..])
  }

  /** `n` bytes hold a value below `256^n`. */
  lemma {:induction false} LeUintBound(s: seq<Byte>)
    ensures LeUint(s) < Pow(0x100, |s|)
  {
    if s != [] {
      LeUintBound(s[1..]);
    }
  }

  /** `v.to_bytes(n, 'little')` for a value that fits: the inverse of LeUint. */
  function LeBytes(v: nat, n: nat): (r: seq<Byte>)
    ensures |r| == n
  {
    if n == 0 then [] else [v % 0x100] + LeBytes(v / 0x100, n - 1)
  }

  lemma {:induction false} LeUintOfLeBytes(v: nat, n: nat)
    requires v < Pow(0x100, n)
    ensures LeUint(LeBytes(v, n)) == v
  {
    if n > 0 {
      LeUintOfLeBytes(v / 0x100, n - 1);
      assert LeBytes(v, n)[1..] == LeBytes(v / 0x100, n - 1);
    }
  }

  lemma {:induction false} LeBytesOfLeUint(s: seq<Byte>)
    ensures LeBytes(LeUint(s), |s|) == s
  {
    if s != [] {
      LeBytesOfLeUint(s[1..]);
      assert LeUint(s) % 0x100 == s[0];
      assert LeUint(s) / 0x100 == LeUint(s[1..]);
    }
  }

  /** The 16-bit code unit stored little-endian in two bytes. */
  lemma LeUintOfTwo(s: seq<Byte>)
    requires |s| == 2
    ensures LeUint(s) == s[0] as int + 0x100 * s[1] as int
  {
    assert LeUint(s) == s[0] + 0x100 * LeUint(s[1..]);
    assert LeUint(s[1..]) == s[1] + 0x100 * LeUint(s[1..][1..]);
    assert s[1..][1..] == [];
  }

  /** The little-endian unsigned 32-bit value at `at`, read from exactly four
      bytes (one field of `struct.unpack('III', ...)`). */
  function U32At(m: seq<Byte>, at: nat): (r: nat)
    requires at + 4 <= |m|
    ensures r < 0x1_0000_0000
  {
    LeUintBound(m[at..at + 4]);
    assert Pow(0x100, 4) == 0x1_0000_0000;
    LeUint(m[at..at + 4])
  }

  ghost predicate MatchesAt(m: seq<Byte>, p: seq<Byte>, i: nat)
  {
    i + |p| <= |m| && m[i..i + |p|] == p
  }

  /** The least match of `p` at or after `from`, or -1. */
  function FindFrom(m: seq<Byte>, p: seq<Byte>, from: nat): (r: int)
    ensures r == -1 || (from <= r && MatchesAt(m, p, r))
    ensures r == -1 ==> forall i: nat :: from <= i ==> !MatchesAt(m, p, i)
    ensures r >= 0 ==> forall i: nat :: from <= i < r ==> !MatchesAt(m, p, i)
    decreases |m| - from
  {
    if |m| < from + |p| then -1
    else if m[from..from + |p|] == p then from
    else FindFrom(m, p, from + 1)
  }

  /** `memory.find(p)`: the index of the first occurrence of `p`, or -1. */
  function Find(m: seq<Byte>, p: seq<Byte>): (r: int)
    ensures r == -1 || (0 <= r && MatchesAt(m, p, r))
    ensures r == -1 <==> forall i: nat :: !MatchesAt(m, p, i)
    ensures r >= 0 ==> forall i: nat :: i < r ==> !MatchesAt(m, p, i)
  {
    FindFrom(m, p, 0)
  }

  /** The UTF-16LE code units of an even-length byte sequence. */
  function Units(b: seq<Byte>): (r: seq<CodeUnit>)
    requires |b| % 2 == 0
    ensures |r| == |b| / 2
  {
    seq(|b| / 2, i requires 0 <= i < |b| / 2 => b[2 * i] as int + 0x100 * b[2 * i + 1] as int)
  }

  /** Code unit `i` is the little-endian value of bytes `2i` and `2i + 1`. */
  lemma UnitsAt(b: seq<Byte>, i: nat)
    requires |b| % 2 == 0 && i < |b| / 2
    ensures Units(b)[i] == LeUint(b[2 * i..2 * i + 2])
  {
    LeUintOfTwo(b[2 * i..2 * i + 2]);
  }

  ghost predicate InBmp(s: string)
  {
    forall i :: 0 <= i < |s| ==> s[i] as int < 0x1_0000
  }

  /** `s.encode('utf_16_le')` for characters of the Basic Multilingual Plane. */
  function EncodeUtf16Le(s: string): (r: seq<Byte>)
    requires InBmp(s)
    ensures |r| == 2 * |s|
  {
    if s == [] then []
    else [s[0] as int % 0x100, s[0] as int / 0x100] + EncodeUtf16Le(s[1..])
  }

  /** Decoding the code units of an encoded string gives back its characters. */
  lemma {:induction false} UnitsOfEncoding(s: string)
    requires InBmp(s)
    ensures Units(EncodeUtf16Le(s)) == seq(|s|, i requires 0 <= i < |s| => s[i] as int)
  {
    if s != [] {
      UnitsOfEncoding(s[1..]);
      var e := EncodeUtf16Le(s);
      var t := EncodeUtf16Le(s[1..]);
      assert e == [s[0] as int % 0x100, s[0] as int / 0x100] + t;
      forall i | 0 <= i < |s|
        ensures Units(e)[i] == s[i] as int
      {
        if i > 0 {
          assert e[2 * i] == t[2 * (i - 1)] && e[2 * i + 1] == t[2 * (i - 1) + 1];
          assert Units(t)[i - 1] == s[1..][i - 1] as int;
        }
      }
    }
  }

  /** Two byte sequences with the same code units are equal: the low and the
      high byte of a unit are its remainder and quotient by 256. */
  lemma UnitsInjective(b1: seq<Byte>, b2: seq<Byte>)
    requires |b1| == |b2| && |b1| % 2 == 0
    requires Units(b1) == Units(b2)
    ensures b1 == b2
  {
    forall j | 0 <= j < |b1|
      ensures b1[j] == b2[j]
    {
      var i := j / 2;
      assert Units(b1)[i] == Units(b2)[i];
      assert b1[2 * i] as int + 0x100 * b1[2 * i + 1] as int == b2[2 * i] as int + 0x100 * b2[2 * i + 1] as int;
    }
  }

  /** A byte sequence whose code units are the characters of `s` is the
      UTF-16LE encoding of `s`. */
  lemma EncodingFromUnits(s: string, b: seq<Byte>)
    requires InBmp(s) && |b| == 2 * |s|
    requires Units(b) == seq(|s|, i requires 0 <= i < |s| => s[i] as int)
    ensures b == EncodeUtf16Le(s)
  {
    UnitsOfEncoding(s);
    UnitsInjective(b, EncodeUtf16Le(s));
  }
}
