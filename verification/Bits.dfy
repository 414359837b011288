/** Bytes, powers of two, bit strings written most significant bit first, and the
    64-bit unsigned operations the decoders use, written out on natural numbers. */
module Bits {

  type byte = x: nat | x < 256

  type bit = b: nat | b < 2

  datatype Option<+T> = None | Some(value: T)

  function Pow2(n: nat): (r: nat)
    ensures r > 0
  {
    if n == 0 then 1 else 2 * Pow2(n - 1)
  }

  lemma {:induction false} Pow2Add(a: nat, b: nat)
    ensures Pow2(a + b) == Pow2(a) * Pow2(b)
  {
    if a != 0 {
      Pow2Add(a - 1, b);
      assert Pow2(a + b) == 2 * Pow2(a - 1 + b);
    }
  }

  lemma {:induction false} Pow2Monotone(a: nat, b: nat)
    requires a <= b
    ensures Pow2(a) <= Pow2(b)
  {
    if a < b {
      Pow2Monotone(a, b - 1);
    }
  }

  /** The number a bit string denotes, most significant bit first. */
  function NatOf(q: seq<bit>): nat {
    if q == [] then 0 else 2 * NatOf(q[..|q| - 1]) + q[|q| - 1]
  }

  /** The low n bits of v, most significant bit first. */
  function BitsOf(v: nat, n: nat): (q: seq<bit>)
    ensures |q| == n
  {
    if n == 0 then [] else BitsOf(v / 2, n - 1) + [v % 2]
  }

  lemma {:induction false} NatOfBound(q: seq<bit>)
    ensures NatOf(q) < Pow2(|q|)
  {
    if q != [] {
      NatOfBound(q[..|q| - 1]);
    }
  }

  lemma {:induction false} NatOfConcat(a: seq<bit>, b: seq<bit>)
    ensures NatOf(a + b) == NatOf(a) * Pow2(|b|) + NatOf(b)
  {
    if b == [] {
      assert a + b == a;
    } else {
      var front := b[..|b| - 1];
      assert (a + b)[..|a + b| - 1] == a + front;
      NatOfConcat(a, front);
      ShiftIn(NatOf(a), Pow2(|front|), NatOf(front), b[|b| - 1]);
    }
  }

  lemma ShiftIn(x: nat, p: nat, y: nat, b: nat)
    ensures 2 * (x * p + y) + b == x * (2 * p) + (2 * y + b)
  {
  }

  /** BitsOf is a section of NatOf on numbers that fit. */
  lemma {:induction false} NatOfBitsOf(v: nat, n: nat)
    requires v < Pow2(n)
    ensures NatOf(BitsOf(v, n)) == v
  {
    hide Pow2;
    HalfFits(v, n);
    if n != 0 {
      NatOfBitsOf(v / 2, n - 1);
      assert BitsOf(v, n)[..n - 1] == BitsOf(v / 2, n - 1);
    }
  }

  lemma HalfFits(v: nat, n: nat)
    requires v < Pow2(n)
    ensures if n == 0 then v == 0 else v / 2 < Pow2(n - 1)
  {
  }

  lemma {:induction false} BitsOfNatOf(q: seq<bit>)
    ensures BitsOf(NatOf(q), |q|) == q
  {
    if q != [] {
      BitsOfNatOf(q[..|q| - 1]);
      assert NatOf(q) / 2 == NatOf(q[..|q| - 1]);
      assert NatOf(q) % 2 == q[|q| - 1];
    }
  }

  lemma {:induction false} BitsOfAt(v: nat, n: nat, i: nat)
    requires i < n
    ensures BitsOf(v, n)[i] == v / Pow2(n - 1 - i) % 2
  {
    if i < n - 1 {
      BitsOfAt(v / 2, n - 1, i);
      var p := Pow2(n - 2 - i);
      DivDiv(v, p);
      assert Pow2(n - 1 - i) == 2 * p;
    }
  }

  lemma DivDiv(v: nat, p: nat)
    requires p > 0
    ensures v / 2 / p == v / (2 * p)
  {
    var q := v / (2 * p);
    var r := v % (2 * p);
    assert v == q * (2 * p) + r;
    assert v / 2 == q * p + r / 2 by {
      assert v == 2 * (q * p) + r;
    }
    assert r / 2 < p;
    DivUnique(v / 2, p, q, r / 2);
  }

  lemma MulBound(d: int, p: int)
    requires p > 0
    ensures d >= 1 ==> d * p >= p
    ensures d <= -1 ==> d * p <= -p
  {
    if d >= 1 {
      assert d * p == (d - 1) * p + p;
    } else if d <= -1 {
      assert d * p == (d + 1) * p - p;
    }
  }

  lemma DivUnique(v: nat, p: nat, q: nat, r: nat)
    requires r < p && v == q * p + r
    ensures v / p == q && v % p == r
  {
    var d := v / p - q;
    assert d * p == r - v % p by {
      assert v / p * p + v % p == v;
      assert d * p == v / p * p - q * p;
    }
    MulBound(d, p);
  }

  // ---- 64-bit unsigned arithmetic ------------------------------------------------

  const U64: nat := 0x1_0000_0000_0000_0000

  lemma Pow2Of64()
    ensures Pow2(64) == U64
  {
    Pow2Of32();
    Pow2Add(32, 32);
  }

  lemma Pow2Of32()
    ensures Pow2(32) == 0x1_0000_0000
  {
    assert Pow2(8) == 256;
    Pow2Add(8, 8);
    Pow2Add(16, 16);
  }

  // ---- Signed 64-bit integers ----------------------------------------------------

  const TOP: int := 0x8000_0000_0000_0000

  predicate IsInt64(x: int) {
    -TOP <= x < TOP
  }

  /** The int64 congruent to x modulo 2^64; on a uint64, the conversion. */
  function Int64(x: int): (y: int)
    ensures IsInt64(y) && (IsInt64(x) ==> y == x)
    ensures TOP <= x < U64 ==> y == x - U64
  {
    (x + TOP) % U64 - TOP
  }

  lemma SmallMod(x: nat, m: nat)
    requires x < m
    ensures x % m == x
  {
  }

  function Quotient(x: nat, p: nat): (q: nat)
    requires p > 0
    ensures q * p <= x < (q + 1) * p
  {
    x / p
  }

  /** (v >> (n - 1 - i)) & 1 is bit i of the low n bits of v, counted from the most significant. */
  function BitAt(v: nat, n: nat, i: nat): (b: bit)
    requires i < n
    ensures b == BitsOf(v, n)[i]
  {
    BitsOfAt(v, n, i);
    Quotient(v, Pow2(n - 1 - i)) % 2
  }

  /** x << n on uint64: high bits are lost; a shift count of 64 or more gives 0. */
  function Shl64(x: nat, n: nat): nat {
    if n >= 64 then 0 else x * Pow2(n) % U64
  }

  /** x >> n on uint64. */
  function Shr64(x: nat, n: nat): nat {
    if n >= 64 then 0 else Quotient(x, Pow2(n))
  }

  /** x | y, bit by bit. */
  function Or(x: nat, y: nat): nat
    decreases x + y
  {
    if x == 0 && y == 0 then 0
    else 2 * Or(x / 2, y / 2) + (if x % 2 == 1 || y % 2 == 1 then 1 else 0)
  }

  lemma {:induction false} OrZero(x: nat)
    ensures Or(x, 0) == x && Or(0, x) == x
  {
    if x != 0 {
      OrZero(x / 2);
    }
  }

  /** The | of numbers whose bits do not overlap is their sum. */
  lemma {:induction false} OrDisjoint(x: nat, k: nat, y: nat)
    requires y < Pow2(k)
    ensures Or(x * Pow2(k), y) == x * Pow2(k) + y
  {
    if k == 0 {
      OrZero(x);
    } else {
      var h := x * Pow2(k - 1);
      assert x * Pow2(k) == 2 * h;
      OrDisjoint(x, k - 1, y / 2);
      if 2 * h == 0 && y == 0 {
      } else {
        assert (2 * h) / 2 == h && (2 * h) % 2 == 0;
      }
    }
  }

  lemma SixteenBits()
    ensures Pow2(8) == 256 && Pow2(16) == 0x1_0000
  {
    assert Pow2(8) == 256;
    Pow2Add(8, 8);
  }

  // ---- Little-endian words ---------------------------------------------------------

  function Word16(data: seq<byte>, pos: nat): (w: nat)
    requires pos + 1 < |data|
    ensures w < 0x1_0000
  {
    (data[pos] as nat) + 256 * (data[pos + 1] as nat)
  }

  function Word32(data: seq<byte>, pos: nat): (w: nat)
    requires pos + 3 < |data|
    ensures w < 0x1_0000_0000
  {
    Word16(data, pos) + 0x1_0000 * Word16(data, pos + 2)
  }

  // ---- Pieces of files -------------------------------------------------------------

  /** A product under a name, so that proofs need not multiply. */
  function Times(x: nat, y: nat): nat {
    x * y
  }

  function Zeros(n: nat): (z: seq<byte>)
    ensures |z| == n && forall i :: 0 <= i < n ==> z[i] == 0
  {
    seq(n, _ => 0)
  }

  function Padded(b: seq<byte>, n: nat): (p: seq<byte>)
    requires |b| <= n
    ensures |p| == n
  {
    b + Zeros(n - |b|)
  }

  /** ReadAt: up to n bytes of a file, fewer where it ends. */
  function BytesAt(f: seq<byte>, off: nat, n: nat): (b: seq<byte>)
    ensures |b| <= n
  {
    if off >= |f| then [] else if off + n > |f| then f[off..] else f[off..off + n]
  }

  lemma SliceJoin(c: seq<byte>, i: nat, j: nat, k: nat)
    requires i <= j <= k <= |c|
    ensures c[i..j] + c[j..k] == c[i..k]
  {
  }

  lemma SliceSplit(s: seq<byte>, at: nat, a: seq<byte>, b: seq<byte>)
    requires at + |a| + |b| <= |s| && s[at..at + |a| + |b|] == a + b
    ensures s[at..at + |a|] == a && s[at + |a|..at + |a| + |b|] == b
  {
    assert s[at..at + |a|] == s[at..at + |a| + |b|][..|a|];
    assert s[at + |a|..at + |a| + |b|] == s[at..at + |a| + |b|][|a|..];
  }

  lemma CancelOne<T>(a: multiset<T>, b: multiset<T>, x: T)
    requires a + multiset{x} == b + multiset{x}
    ensures a == b
  {
    assert a + multiset{x} - multiset{x} == a;
  }
}
