/** Bytes, fixed-width words in network order, bit masks and padding. */
module Bytes {

  datatype Option<+T> = None | Some(value: T)

  type byte = b: int | 0 <= b < 0x100 witness 0

  const TWO_32: int := 0x1_0000_0000
  const TWO_64: int := 0x1_0000_0000_0000_0000

  type u32 = n: int | 0 <= n < 0x1_0000_0000 witness 0
  type u64 = n: int | 0 <= n < 0x1_0000_0000_0000_0000 witness 0
  type i32 = n: int | -0x8000_0000 <= n < 0x8000_0000 witness 0
  type i64 = n: int | -0x8000_0000_0000_0000 <= n < 0x8000_0000_0000_0000 witness 0

  // ---- words ----

  function Word(a: int, b: int, c: int, d: int): (n: int)
    ensures 0 <= a < 0x100 && 0 <= b < 0x100 && 0 <= c < 0x100 && 0 <= d < 0x100 ==> 0 <= n < TWO_32
  {
    a * 0x100_0000 + b * 0x1_0000 + c * 0x100 + d
  }

  /** The four bytes of a word, most significant first (htobe32). */
  function U32Bytes(n: u32): (s: seq<byte>)
    ensures |s| == 4
  {
    var a := n / 0x100;
    var b := a / 0x100;
    [b / 0x100, b % 0x100, a % 0x100, n % 0x100]
  }

  /** The word read back from four bytes at `p` (be32toh). */
  function U32At(b: seq<byte>, p: nat): (n: u32)
    requires p + 4 <= |b|
  {
    Word(b[p], b[p + 1], b[p + 2], b[p + 3])
  }

  function U64Bytes(n: u64): (s: seq<byte>)
    ensures |s| == 8
  {
    U32Bytes(n / TWO_32) + U32Bytes(n % TWO_32)
  }

  function U64At(b: seq<byte>, p: nat): (n: u64)
    requires p + 8 <= |b|
  {
    U32At(b, p) * TWO_32 + U32At(b, p + 4)
  }

  lemma U32RoundTrip(b: seq<byte>, p: nat, n: u32)
    requires p + 4 <= |b|
    requires b[p..p + 4] == U32Bytes(n)
    ensures U32At(b, p) == n
  {
    var s := b[p..p + 4];
    assert s[0] == b[p] && s[1] == b[p + 1] && s[2] == b[p + 2] && s[3] == b[p + 3];
  }

  lemma U64RoundTrip(b: seq<byte>, p: nat, n: u64)
    requires p + 8 <= |b|
    requires b[p..p + 8] == U64Bytes(n)
    ensures U64At(b, p) == n
  {
    assert b[p..p + 4] == b[p..p + 8][..4] == U32Bytes(n / TWO_32);
    assert b[p + 4..p + 8] == b[p..p + 8][4..] == U32Bytes(n % TWO_32);
    U32RoundTrip(b, p, n / TWO_32);
    U32RoundTrip(b, p + 4, n % TWO_32);
  }

  /** Bytes as a receiver compares them, the first difference deciding. */
  ghost predicate Earlier(s: seq<byte>, t: seq<byte>) {
    |s| == |t| && exists k | 0 <= k < |s| :: s[..k] == t[..k] && s[k] < t[k]
  }

  /** Network order: smaller words have earlier bytes. With the round trip this leaves one order only. */
  lemma U32Order(n: u32, m: u32)
    requires n < m
    ensures Earlier(U32Bytes(n), U32Bytes(m))
  {
    var s, t := U32Bytes(n), U32Bytes(m);
    var k := if s[0] != t[0] then 0 else if s[1] != t[1] then 1 else if s[2] != t[2] then 2 else 3;
    assert s[..k] == t[..k] && s[k] < t[k];
  }

  lemma U64Order(n: u64, m: u64)
    requires n < m
    ensures Earlier(U64Bytes(n), U64Bytes(m))
  {
    hide U32Bytes;
    var s, t := U64Bytes(n), U64Bytes(m);
    if n / TWO_32 < m / TWO_32 {
      U32Order(n / TWO_32, m / TWO_32);
      var x, y := U32Bytes(n / TWO_32), U32Bytes(m / TWO_32);
      var k :| 0 <= k < |x| && x[..k] == y[..k] && x[k] < y[k];
      assert s[..k] == x[..k] && t[..k] == y[..k] && s[k] == x[k] && t[k] == y[k];
    } else {
      U32Order(n % TWO_32, m % TWO_32);
      var x, y := U32Bytes(n % TWO_32), U32Bytes(m % TWO_32);
      var k :| 0 <= k < |x| && x[..k] == y[..k] && x[k] < y[k];
      assert s[..4 + k] == U32Bytes(n / TWO_32) + x[..k] && t[..4 + k] == U32Bytes(m / TWO_32) + y[..k];
      assert s[4 + k] == x[k] && t[4 + k] == y[k];
    }
  }

  /** Reading four bytes and writing the word gives the bytes back. */
  lemma U32Back(b: seq<byte>, p: nat)
    requires p + 4 <= |b|
    ensures U32Bytes(U32At(b, p)) == b[p..p + 4]
  {
    LastByte(b[p], b[p + 1]);
    var high: nat := b[p] as int * 0x100 + b[p + 1];
    LastByte(high, b[p + 2]);
    LastByte(high * 0x100 + b[p + 2], b[p + 3]);
    assert U32At(b, p) == (high * 0x100 + b[p + 2]) * 0x100 + b[p + 3];
  }

  lemma LastByte(n: nat, b: byte)
    ensures (n * 0x100 + b) / 0x100 == n && (n * 0x100 + b) % 0x100 == b
  {
  }

  // ---- two's complement ----

  /** A signed number and the word that carries it agree modulo the word's range, and each gives the other. */
  lemma TwosComplement32(i: i32, u: u32)
    ensures (U32Of(i) - i) % 0x1_0000_0000 == 0
    ensures I32Of(U32Of(i)) == i && U32Of(I32Of(u)) == u
  {
  }

  lemma TwosComplement64(h: i64, u: u64)
    ensures (U64Of(h) - h) % 0x1_0000_0000_0000_0000 == 0
    ensures I64Of(U64Of(h)) == h && U64Of(I64Of(u)) == u
  {
  }

  function U32Of(i: i32): u32 { if i < 0 then i + TWO_32 else i }
  function I32Of(u: u32): i32 { if u < 0x8000_0000 then u else u - TWO_32 }
  function U64Of(h: i64): u64 { if h < 0 then h + TWO_64 else h }
  function I64Of(u: u64): i64 { if u < 0x8000_0000_0000_0000 then u else u - TWO_64 }

  // ---- masks ----

  function Pow2(k: nat): (p: nat)
    ensures p > 0
  {
    if k == 0 then 1 else 2 * Pow2(k - 1)
  }

  lemma {:induction false} Pow2Double(k: nat)
    ensures Pow2(2 * k) == Pow2(k) * Pow2(k)
  {
    if k > 0 {
      Pow2Double(k - 1);
      assert Pow2(2 * k) == 2 * Pow2(2 * k - 1) == 4 * Pow2(2 * (k - 1));
    }
  }

  /** Bitwise and. */
  function And(x: nat, y: nat): nat {
    if x == 0 then 0
    else 2 * And(x / 2, y / 2) + (if x % 2 == 1 && y % 2 == 1 then 1 else 0)
  }

  /** Addition and subtraction of size_t wrap modulo 2^64. */
  function AddSize(x: nat, y: nat): nat { (x + y) % TWO_64 }
  function SubSize(x: nat, y: nat): nat { (x - y) % TWO_64 }

  /** A difference that wrapped below zero comes back once the ring's size is added. */
  lemma WrapBack(to: nat, from: nat, size: nat)
    requires to <= from < size < TWO_32
    ensures AddSize(SubSize(to, from), size) == size - (from - to)
  {
  }

  lemma {:induction false} AndZero(x: nat)
    ensures And(x, 0) == 0
  {
    if x > 0 { AndZero(x / 2); }
  }

  lemma MulBound(e: int, d: int)
    requires d >= 0
    ensures e >= 1 ==> e * d >= d
    ensures e <= -1 ==> e * d <= -d
  {
    if e >= 1 { assert (e - 1) * d >= 0; }
    if e <= -1 { assert (-e - 1) * d >= 0; }
  }

  lemma DivModUnique(x: nat, d: nat, q: int, r: nat)
    requires r < d && x == q * d + r
    ensures x % d == r && x / d == q
  {
    MulBound(q - x / d, d);
    assert (q - x / d) * d == q * d - x / d * d;
  }

  lemma AndOdd(x: nat, d: nat)
    requires d > 0
    ensures And(x, 2 * d - 1) == 2 * And(x / 2, d - 1) + x % 2
  {
    assert (2 * d - 1) / 2 == d - 1 && (2 * d - 1) % 2 == 1;
  }

  lemma {:induction false} AndSplit(x: nat, k: nat) returns (q: nat)
    ensures x == q * Pow2(k) + And(x, Pow2(k) - 1)
    ensures And(x, Pow2(k) - 1) < Pow2(k)
  {
    hide And;
    if k == 0 {
      AndZero(x);
      q := x;
    } else {
      var d := Pow2(k - 1);
      q := AndSplit(x / 2, k - 1);
      AndOdd(x, d);
      assert q * (2 * d) == 2 * (q * d);
    }
  }

  /** Masking with 2^k - 1 is reduction modulo 2^k. */
  lemma AndMask(x: nat, k: nat)
    ensures And(x, Pow2(k) - 1) == x % Pow2(k)
  {
    var q := AndSplit(x, k);
    DivModUnique(x, Pow2(k), q, And(x, Pow2(k) - 1));
  }

  /** Masking a wrapped value below twice the power subtracts at most once. */
  lemma AndMaskStep(x: nat, k: nat)
    requires x < 2 * Pow2(k)
    ensures And(x, Pow2(k) - 1) == if x < Pow2(k) then x else x - Pow2(k)
  {
    AndMask(x, k);
    if x < Pow2(k) {
      DivModUnique(x, Pow2(k), 0, x);
    } else {
      DivModUnique(x, Pow2(k), 1, x - Pow2(k));
    }
  }

  lemma {:induction false} Pow2Multiple(k: nat)
    requires k >= 3
    ensures Pow2(k) % 8 == 0 && Pow2(k) >= 8
  {
    if k > 3 {
      Pow2Multiple(k - 1);
    } else {
      assert Pow2(3) == 2 * Pow2(2) == 4 * Pow2(1) == 8;
    }
  }

  lemma {:induction false} Pow2Monotone(j: nat, k: nat)
    requires j <= k
    ensures Pow2(j) <= Pow2(k)
  {
    if j < k { Pow2Monotone(j, k - 1); }
  }

  // ---- padding ----

  function Pad4(n: nat): (p: nat)
    ensures n <= p < n + 4 && p % 4 == 0
  {
    (n + 3) / 4 * 4
  }

  function Pad8(n: nat): (p: nat)
    ensures n <= p < n + 8 && p % 8 == 0
  {
    (n + 7) / 8 * 8
  }

  lemma AndEven(x: nat, y: nat)
    ensures And(x, 2 * y) == 2 * And(x / 2, y)
  {
    assert 2 * y / 2 == y && 2 * y % 2 == 0;
  }

  /** The 32-bit pad mask rounds up to a multiple of 8 below 2^32. */
  lemma PadMask(n: nat)
    requires n + 7 < TWO_32
    ensures And(n + 7, 0xFFFF_FFF8) == Pad8(n)
  {
    hide And;
    var x := n + 7;
    assert Pow2(29) == 0x2000_0000 by {
      assert Pow2(3) == 8 && Pow2(5) == 32 && Pow2(7) == 128;
      Pow2Double(7);
      Pow2Double(14);
    }
    AndMask(x / 8, 29);
    AndEven(x, 0x7FFF_FFFC);
    AndEven(x / 2, 0x3FFF_FFFE);
    AndEven(x / 4, 0x1FFF_FFFF);
    DivModUnique(x / 8, 0x2000_0000, 0, x / 8);
  }

  lemma HeadTail<T>(q: seq<T>, r: seq<T>)
    requires q != []
    ensures q + r == [q[0]] + (q[1..] + r)
    ensures (q + r)[1..] == q[1..] + r
  {
  }

  /** The bytes of an ASCII text. */
  function Text(s: string): (b: seq<byte>)
    requires forall i | 0 <= i < |s| :: s[i] < 128 as char
    ensures |b| == |s| && forall i | 0 <= i < |s| :: b[i] == s[i] as int
  {
    seq(|s|, i requires 0 <= i < |s| => s[i] as int)
  }

  // ---- stretches of bytes ----

  /** The bytes `d` stand in `b` at `p`. */
  predicate Holds(b: seq<byte>, p: nat, d: seq<byte>) {
    && p + |d| <= |b|
    && forall k | 0 <= k < |d| :: b[p + k] == d[k]
  }
}
