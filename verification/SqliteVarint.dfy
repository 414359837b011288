/** SQLite varints: reading inverts writing (section 2.1 of the SQLite database file format). */
module SqliteVarint {
  import opened Bits

  // ---- Varints -------------------------------------------------------------------------------

  /** The value and its length in bytes, i bytes and v in: seven bits a byte, all eight of the ninth.
      Length 0 when the bytes run out. */
  function VarintFrom(b: seq<byte>, pos: nat, i: nat, v: nat): (res: (int, nat))
    requires i <= 8
    ensures res.1 <= 9 && (res.1 > 0 ==> i < res.1 && pos + res.1 <= |b|)
    decreases 8 - i
  {
    if pos + i >= |b| then (0, 0)
    else
      var c := b[pos + i];
      if i == 8 then (Int64(v * 256 + c), 9)
      else if c < 128 then (Int64(v * 128 + c), i + 1)
      else VarintFrom(b, pos, i + 1, v * 128 + c % 128)
  }

  function VarintAt(b: seq<byte>, pos: nat): (res: (int, nat))
    ensures res.1 <= 9 && (res.1 > 0 ==> pos + res.1 <= |b|)
  {
    VarintFrom(b, pos, 0, 0)
  }

  /** The shifts and ors are on uint64: nothing is ever shifted out. */
  method ReadVarint(b: seq<byte>, pos: nat) returns (value: int, n: nat)
    ensures (value, n) == VarintAt(b, pos)
  {
    hide Or, Shl64, Pow2, VarintFrom, Int64;
    var v: nat := 0;
    SevenBits(0);
    for i := 0 to 9
      invariant i <= 8 && v < Pow2(7 * i)
      invariant VarintFrom(b, pos, i, v) == VarintAt(b, pos)
    {
      SevenBits(i);
      Step(b, pos, i, v);
      if pos + i >= |b| {
        return 0, 0;
      }
      var c: nat := b[pos + i];
      if i == 8 {
        ShiftOr(v, 8, c);
        v := Or(Shl64(v, 8), c);
        return Int64(v), 9;
      }
      ShiftOr(v, 7, c % 128);
      v := Or(Shl64(v, 7), c % 128);
      if c < 128 {
        return Int64(v), i + 1;
      }
    }
  }

  /** One byte of a varint. */
  lemma Step(b: seq<byte>, pos: nat, i: nat, v: nat)
    requires i <= 8
    ensures pos + i >= |b| ==> VarintFrom(b, pos, i, v) == (0, 0)
    ensures pos + i < |b| && i == 8 ==> VarintFrom(b, pos, i, v) == (Int64(v * 256 + b[pos + i]), 9)
    ensures pos + i < |b| && i < 8 && b[pos + i] < 128 ==> VarintFrom(b, pos, i, v) == (Int64(v * 128 + b[pos + i]), i + 1)
    ensures pos + i < |b| && i < 8 && b[pos + i] >= 128 ==>
              VarintFrom(b, pos, i, v) == VarintFrom(b, pos, i + 1, v * 128 + b[pos + i] % 128)
  {
  }

  lemma SevenBits(i: nat)
    ensures Pow2(0) == 1 && Pow2(7) == 128 && Pow2(8) == 256
    ensures Pow2(7 * (i + 1)) == 128 * Pow2(7 * i)
    ensures i < 8 ==> 128 * Pow2(7 * i) < U64
    ensures i == 8 ==> 256 * Pow2(7 * i) == U64
  {
    Pow2Add(7 * i, 7);
    Pow2Of64();
    Pow2Add(56, 8);
    if i < 8 {
      Pow2Monotone(7 * (i + 1), 56);
    }
  }

  lemma ShiftOr(v: nat, w: nat, c: nat)
    requires w < 64 && c < Pow2(w) && (v + 1) * Pow2(w) <= U64
    ensures Or(Shl64(v, w), c) == v * Pow2(w) + c < U64
  {
    hide Or, Pow2;
    assert v * Pow2(w) + Pow2(w) == (v + 1) * Pow2(w);
    OrDisjoint(v, w, c);
  }

  /** n continuation bytes holding the low 7 * n bits of x. */
  function Continuation(x: nat, n: nat): (b: seq<byte>)
    ensures |b| == n
  {
    if n == 0 then [] else Continuation(x / 128, n - 1) + [128 + x % 128]
  }

  /** The bits in the last byte of a varint of n + 1 bytes, as a multiplier. */
  function LastUnit(n: nat): (unit: nat)
    ensures unit > 0
  {
    if n >= 8 then 256 else 128
  }

  /** v in n + 1 bytes. */
  function VarintBytes(v: nat, n: nat): (b: seq<byte>)
    ensures |b| == n + 1
  {
    Continuation(v / LastUnit(n), n) + [v % LastUnit(n)]
  }

  /** The width holds the value: seven bits a byte up to eight bytes, 64 bits in nine. */
  predicate WidthFits(v: nat, n: nat) {
    n <= 8 && v < LastUnit(n) * Pow2(7 * n)
  }

  /** The value v after the low 7 * n bits of x. */
  function After(v: nat, n: nat, x: nat): nat {
    v * Pow2(7 * n) + x
  }

  lemma {:induction false} ContinuationRead(s: seq<byte>, pos: nat, x: nat, n: nat, i: nat, v: nat)
    requires i + n <= 8 && pos + i + n <= |s| && x < Pow2(7 * n)
    requires s[pos + i..pos + i + n] == Continuation(x, n)
    ensures VarintFrom(s, pos, i, v) == VarintFrom(s, pos, i + n, After(v, n, x))
    decreases n
  {
    hide Pow2, VarintFrom, After;
    AfterStep(v, n, x);
    if n > 0 {
      assert Continuation(x, n) == Continuation(x / 128, n - 1) + [128 + x % 128];
      assert Continuation(x, n)[..n - 1] == Continuation(x / 128, n - 1);
      assert s[pos + i..pos + i + (n - 1)] == s[pos + i..pos + i + n][..n - 1];
      assert s[pos + (i + n - 1)] == s[pos + i..pos + i + n][n - 1] == Continuation(x, n)[n - 1];
      ContinuationRead(s, pos, x / 128, n - 1, i, v);
      Step(s, pos, i + n - 1, After(v, n - 1, x / 128));
    }
  }

  lemma AfterStep(v: nat, n: nat, x: nat)
    requires x < Pow2(7 * n)
    ensures n == 0 ==> After(v, n, x) == v
    ensures n > 0 ==> x / 128 < Pow2(7 * (n - 1)) && After(v, n, x) == After(v, n - 1, x / 128) * 128 + x % 128
  {
    hide Pow2;
    if n > 0 {
      SevenBits(n - 1);
      Scaled(v, x, Pow2(7 * (n - 1)));
    } else {
      SevenBits(0);
    }
  }

  lemma Scaled(v: nat, x: nat, p: nat)
    requires x < 128 * p
    ensures x / 128 < p && v * (128 * p) + x == (v * p + x / 128) * 128 + x % 128
  {
  }

  /** Reading inverts the encoding of every 64-bit value in any width that holds it, whatever is around it. */
  lemma VarintRoundTrip(s: seq<byte>, pos: nat, v: nat, n: nat)
    requires WidthFits(v, n)
    requires pos + n + 1 <= |s| && s[pos..pos + n + 1] == VarintBytes(v, n)
    ensures VarintAt(s, pos) == (Int64(v), n + 1)
  {
    hide Pow2, Continuation, VarintFrom, After, Int64, LastUnit;
    var unit := LastUnit(n);
    LastByte(v, n);
    assert s[pos + 0..pos + 0 + n] == s[pos..pos + n + 1][..n] == Continuation(v / unit, n);
    assert s[pos + n] == s[pos..pos + n + 1][n] == v % unit;
    ContinuationRead(s, pos, v / unit, n, 0, 0);
    Step(s, pos, n, v / unit);
  }

  lemma LastByte(v: nat, n: nat)
    requires WidthFits(v, n)
    ensures v / LastUnit(n) < Pow2(7 * n) && After(0, n, v / LastUnit(n)) == v / LastUnit(n)
    ensures v / LastUnit(n) * LastUnit(n) + v % LastUnit(n) == v
    ensures LastUnit(n) == if n == 8 then 256 else 128
  {
    hide Pow2;
  }

  /** Every 64-bit value has a width, and nine bytes always do. */
  lemma WidthExists(v: nat)
    requires v < U64
    ensures WidthFits(v, 8)
  {
    hide Pow2;
    SevenBits(8);
  }
}
