/** Bytes, little-endian numbers, and the byte width the system gives to an identifier. */
module Bytes {
  type Byte = b: int | 0 <= b < 256
  type Bytes = seq<Byte>

  /** 256 to the power n: the number of values n bytes can hold. */
  function Pow256(n: nat): (p: nat)
    ensures p >= 1
  {
    if n == 0 then 1 else 256 * Pow256(n - 1)
  }

  lemma {:induction false} Pow256Monotone(m: nat, n: nat)
    requires m <= n
    ensures Pow256(m) <= Pow256(n)
    decreases n - m
  {
    if m < n {
      Pow256Monotone(m, n - 1);
    }
  }

  /** The number a little-endian byte string stands for. */
  function LeValue(s: Bytes): (v: nat) {
    if s == [] then 0 else s[0] + 256 * LeValue(s[1..])
  }

  /** The n low-order bytes of v, little end first. */
  function LeBytes(v: nat, n: nat): (s: Bytes)
    ensures |s| == n
    decreases n
  {
    if n == 0 then [] else [v % 256] + LeBytes(v / 256, n - 1)
  }

  lemma {:induction false} LeValueBound(s: Bytes)
    ensures LeValue(s) < Pow256(|s|)
  {
    if s != [] {
      LeValueBound(s[1..]);
    }
  }

  /** Writing a number in n bytes and reading it back is the identity when it fits. */
  lemma {:induction false} LeRoundTrip(v: nat, n: nat)
    requires v < Pow256(n)
    ensures LeValue(LeBytes(v, n)) == v
    decreases n
  {
    if n > 0 {
      LeRoundTrip(v / 256, n - 1);
      assert LeBytes(v, n)[1..] == LeBytes(v / 256, n - 1);
    }
  }

  /** Reading bytes as a number and writing it in as many bytes is the identity. */
  lemma {:induction false} LeInverse(s: Bytes)
    ensures LeBytes(LeValue(s), |s|) == s
  {
    if s != [] {
      LeInverse(s[1..]);
    }
  }

  /** The byte at place i is the one that counts for 256 to the power i. */
  lemma {:induction false} LePlaces(v: nat, n: nat, i: nat)
    requires i < n
    ensures LeBytes(v, n)[i] == v / Pow256(i) % 256
    decreases n
  {
    if i > 0 {
      LePlaces(v / 256, n - 1, i - 1);
      DivideTwice(v, Pow256(i - 1));
    }
  }

  lemma DivideTwice(v: nat, p: nat)
    requires p >= 1
    ensures v / 256 / p == v / (256 * p)
  {
    var q, r := v / 256 / p, v / 256 % p;
    assert v / 256 == q * p + r;
    assert v == 256 * (q * p + r) + v % 256;
    assert 256 * (q * p) == q * (256 * p);
    var rest := 256 * r + v % 256;
    assert v == q * (256 * p) + rest && 0 <= rest < 256 * p;
    DivideUnique(v, 256 * p, q, rest);
  }

  lemma {:induction false} StepsApart(p: nat, q: nat, step: nat)
    ensures p < q ==> p * step + step <= q * step
    decreases q
  {
    if p < q {
      StepsApart(p, q - 1, step);
      assert q * step == (q - 1) * step + step;
    }
  }

  lemma DivideUnique(a: nat, step: nat, q: nat, r: nat)
    requires step >= 1 && r < step && a == q * step + r
    ensures a / step == q && a % step == r
  {
    StepsApart(a / step, q, step);
    StepsApart(q, a / step, step);
    assert a == (a / step) * step + a % step;
  }

  /** A slice that lies in the left part of a concatenation. */
  lemma SliceLeft(a: Bytes, b: Bytes, i: nat, j: nat)
    requires i <= j <= |a|
    ensures (a + b)[i..j] == a[i..j]
  {
  }

  /** A slice that lies in the right part of a concatenation. */
  lemma SliceRight(a: Bytes, b: Bytes, i: nat, j: nat)
    requires |a| <= i <= j <= |a| + |b|
    ensures (a + b)[i..j] == b[i - |a|..j - |a|]
  {
  }

  lemma SliceOfTail(s: Bytes, at: nat, i: nat, j: nat)
    requires i <= j && at + j <= |s|
    ensures s[at..][i..j] == s[at + i..at + j]
    ensures i == 0 ==> s[at..][..j] == s[at..at + j]
  {
  }

  lemma SliceOfPrefix(s: Bytes, n: nat, i: nat, j: nat)
    requires i <= j <= n <= |s|
    ensures s[..n][i..j] == s[i..j]
  {
  }

  lemma TailOfTail(s: Bytes, at: nat, i: nat)
    requires at + i <= |s|
    ensures s[at..][i..] == s[at + i..]
  {
  }

  lemma DropLeft(a: Bytes, b: Bytes)
    ensures (a + b)[|a|..] == b
  {
  }

  lemma TakeAll(a: Bytes)
    ensures a[..|a|] == a
  {
  }

  lemma ConcatAssociates(a: Bytes, b: Bytes, c: Bytes)
    ensures (a + b) + c == a + (b + c)
  {
  }

  lemma SliceWhole(a: Bytes, b: Bytes)
    ensures (a + b)[0..|a|] == a
  {
  }

  function Zeros(n: nat): (s: Bytes)
    ensures |s| == n
  {
    seq(n, _ => 0)
  }

  lemma {:induction false} LeValueOfZeros(n: nat)
    ensures LeValue(Zeros(n)) == 0
  {
    if n > 0 {
      LeValueOfZeros(n - 1);
      assert Zeros(n)[1..] == Zeros(n - 1);
    }
  }

  /** High-order zero bytes do not change the number. */
  lemma {:induction false} LeValuePadded(s: Bytes, n: nat)
    ensures LeValue(s + Zeros(n)) == LeValue(s)
  {
    if s == [] {
      LeValueOfZeros(n);
      assert s + Zeros(n) == Zeros(n);
    } else {
      LeValuePadded(s[1..], n);
      assert (s + Zeros(n))[1..] == s[1..] + Zeros(n);
    }
  }

  /** Writing a number in more bytes than it needs adds zeros at the end. */
  lemma LePadded(v: nat, w: nat, n: nat)
    requires v < Pow256(w) && w <= n
    ensures LeBytes(v, w) + Zeros(n - w) == LeBytes(v, n)
  {
    var s := LeBytes(v, w) + Zeros(n - w);
    LeRoundTrip(v, w);
    LeValuePadded(LeBytes(v, w), n - w);
    LeInverse(s);
  }

  /** The least number of bytes that holds v (none for zero). */
  function ByteLength(v: nat): (n: nat)
    ensures v < Pow256(n)
    ensures n > 0 ==> Pow256(n - 1) <= v
  {
    if v == 0 then 0 else 1 + ByteLength(v / 256)
  }

  const U8_LIMIT: nat := 0x100
  const U16_LIMIT: nat := 0x1_0000
  const U32_LIMIT: nat := 0x1_0000_0000
  const U64_LIMIT: nat := 0x1_0000_0000_0000_0000
  const U128_LIMIT: nat := 0x1_0000_0000_0000_0000_0000_0000_0000_0000

  type U64 = v: nat | v < U64_LIMIT

  /** The machine limits as powers of 256. */
  lemma MachineLimits()
    ensures Pow256(1) == U8_LIMIT && Pow256(2) == U16_LIMIT && Pow256(4) == U32_LIMIT
    ensures Pow256(8) == U64_LIMIT && Pow256(16) == U128_LIMIT
  {
  }

  /**
   * The bytes an identifier occupies: 1, 2, 4, 8 or 16 while it fits a machine integer,
   * and its own byte length beyond that.
   */
  function IdWidth(v: nat): (n: nat)
    ensures n >= 1
    ensures v < Pow256(n)
  {
    MachineLimits();
    if v < U8_LIMIT then 1
    else if v < U16_LIMIT then 2
    else if v < U32_LIMIT then 4
    else if v < U64_LIMIT then 8
    else if v < U128_LIMIT then 16
    else ByteLength(v)
  }

  lemma ByteLengthAtLeast(v: nat, k: nat)
    requires Pow256(k) <= v
    ensures ByteLength(v) > k
  {
    if ByteLength(v) <= k {
      Pow256Monotone(ByteLength(v), k);
    }
  }

  lemma {:induction false} ByteLengthMonotone(u: nat, v: nat)
    requires u <= v
    ensures ByteLength(u) <= ByteLength(v)
  {
    if u > 0 {
      ByteLengthMonotone(u / 256, v / 256);
    }
  }

  /** A larger identifier never needs fewer bytes. */
  lemma IdWidthMonotone(u: nat, v: nat)
    requires u <= v
    ensures IdWidth(u) <= IdWidth(v)
  {
    ByteLengthMonotone(u, v);
    if v >= U128_LIMIT {
      MachineLimits();
      ByteLengthAtLeast(v, 16);
    }
  }

  /** An unsigned 64-bit number as its eight little-endian bytes. */
  function U64Bytes(v: U64): (s: Bytes)
    ensures |s| == 8
    ensures LeValue(s) == v
  {
    MachineLimits();
    LeRoundTrip(v, 8);
    LeBytes(v, 8)
  }

  function ReadU64(s: Bytes): (v: U64)
    requires |s| == 8
    ensures v == LeValue(s)
  {
    MachineLimits();
    LeValueBound(s);
    LeValue(s)
  }
}
