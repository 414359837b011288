/** The lazy bit reader of the LZXPRESS Huffman decoder: 16-bit little-endian words,
    most significant bit first, loaded into a 64-bit accumulator on demand. */
module XpressStream {
  import opened Bits

  /** What a reader means: the source position and the bits loaded but not yet consumed. */
  datatype Reader = Reader(pos: nat, queue: seq<bit>)

  function WordBits(data: seq<byte>, pos: nat): (q: seq<bit>)
    requires pos + 1 < |data|
    ensures |q| == 16
  {
    BitsOf(Word16(data, pos), 16)
  }

  /** One more word, if two bytes remain. */
  function LoadedWord(data: seq<byte>, r: Reader): (f: Reader)
    ensures r.pos <= |data| ==> f.pos <= |data|
  {
    if r.pos + 1 < |data| then Reader(r.pos + 2, r.queue + WordBits(data, r.pos)) else r
  }

  /** Words (and at the very end a lone byte) are loaded until n bits are there or the source is empty. */
  function Refilled(data: seq<byte>, r: Reader, n: nat): (f: Reader)
    ensures r.pos <= |data| ==> f.pos <= |data|
    decreases |data| - r.pos
  {
    if |r.queue| >= n then r
    else if r.pos + 1 < |data| then Refilled(data, LoadedWord(data, r), n)
    else if r.pos < |data| then Refilled(data, Reader(r.pos + 1, r.queue + BitsOf(data[r.pos], 8)), n)
    else r
  }

  /** The next n bits as a number and the reader after them; None when the source runs out. */
  function BitsRead(data: seq<byte>, r: Reader, n: nat): (Option<nat>, Reader) {
    var f := Refilled(data, r, n);
    if |f.queue| < n then (None, f)
    else (Some(NatOf(f.queue[..n])), Reader(f.pos, f.queue[n..]))
  }

  class BitStream {
    const data: seq<byte>
    var pos: nat
    var buf: nat
    var bits: nat
    ghost var queue: seq<bit>

    /** The accumulator holds the queue in its top `bits` positions and zeros below. */
    ghost predicate Valid()
      reads this
    {
      && pos <= |data|
      && bits == |queue| <= 32
      && buf == NatOf(queue) * Pow2(64 - bits)
    }

    ghost function View(): Reader
      reads this
    {
      Reader(pos, queue)
    }

    constructor (data: seq<byte>)
      ensures Valid() && this.data == data && View() == Reader(0, [])
    {
      this.data := data;
      pos, buf, bits, queue := 0, 0, 0, [];
    }

    /** buf |= w << (64 - bits - n); bits += n */
    method Push(w: nat, n: nat)
      requires Valid() && bits + n <= 32 && w < Pow2(n)
      modifies this`buf, this`bits, this`queue
      ensures Valid() && queue == old(queue) + BitsOf(w, n)
    {
      PushFits(queue, w, n, 64 - bits);
      buf := Or(buf, Shl64(w, 64 - bits - n));
      queue := queue + BitsOf(w, n);
      bits := bits + n;
    }

    /** buf <<= n; bits -= n */
    method Drop(n: nat)
      requires Valid() && n <= bits
      modifies this`buf, this`bits, this`queue
      ensures Valid() && queue == old(queue)[n..]
    {
      DropFits(queue, n, 64 - bits);
      buf := Shl64(buf, n);
      queue := queue[n..];
      bits := bits - n;
    }

    /** The top n bits of the accumulator, buf >> (64 - n). */
    method Peek(n: nat) returns (val: nat)
      requires Valid() && n <= bits
      ensures val == NatOf(queue[..n])
    {
      PeekFits(queue, n, 64 - bits);
      val := Shr64(buf, 64 - n);
    }

    method LoadWord()
      requires Valid() && bits <= 16
      modifies this`pos, this`buf, this`bits, this`queue
      ensures Valid() && View() == LoadedWord(data, old(View()))
    {
      if pos + 1 < |data| {
        var word := Word16(data, pos);
        pos := pos + 2;
        SixteenBits();
        Push(word, 16);
      }
    }

    method ReadBits(n: nat) returns (val: Option<nat>)
      requires Valid() && n <= 15 && bits < 32
      modifies this`pos, this`buf, this`bits, this`queue
      ensures Valid() && (val, View()) == BitsRead(data, old(View()), n)
      ensures bits <= old(bits) || bits < 32
    {
      if n == 0 {
        return Some(0);
      }
      while bits < n
        invariant Valid()
        invariant Refilled(data, View(), n) == Refilled(data, old(View()), n)
        invariant bits < 32
        decreases |data| - pos
      {
        SixteenBits();
        if pos + 1 < |data| {
          var word := Word16(data, pos);
          pos := pos + 2;
          Push(word, 16);
        } else if pos < |data| {
          var last := data[pos];
          pos := pos + 1;
          Push(last, 8);
        } else {
          return None;
        }
      }
      var v := Peek(n);
      Drop(n);
      val := Some(v);
    }
  }

  lemma ShiftedWordFits(w: nat, n: nat, top: nat)
    requires w < Pow2(n) && n <= top <= 64
    ensures Shl64(w, top - n) == w * Pow2(top - n) < Pow2(top)
  {
    Pow2Add(n, top - n);
    MulLess(w, Pow2(n), Pow2(top - n));
    Pow2Monotone(top, 64);
    Pow2Of64();
    if top - n < 64 {
      SmallMod(w * Pow2(top - n), U64);
    } else {
      assert n == 0 && w == 0;
    }
  }

  lemma AppendedValue(q: seq<bit>, w: nat, n: nat, top: nat)
    requires w < Pow2(n) && n <= top
    ensures NatOf(q) * Pow2(top) + w * Pow2(top - n) == NatOf(q + BitsOf(w, n)) * Pow2(top - n)
  {
    NatOfBitsOf(w, n);
    NatOfConcat(q, BitsOf(w, n));
    Pow2Add(n, top - n);
    Regroup(NatOf(q), Pow2(n), w, Pow2(top - n));
  }

  /** Appending w below the queue neither overlaps it nor leaves the 64-bit word. */
  lemma PushFits(q: seq<bit>, w: nat, n: nat, top: nat)
    requires w < Pow2(n) && n <= top <= 64
    ensures Or(NatOf(q) * Pow2(top), Shl64(w, top - n)) == NatOf(q + BitsOf(w, n)) * Pow2(top - n)
  {
    ShiftedWordFits(w, n, top);
    AppendedValue(q, w, n, top);
    OrSum(NatOf(q), top, Shl64(w, top - n), NatOf(q + BitsOf(w, n)) * Pow2(top - n));
  }

  lemma OrSum(x: nat, k: nat, y: nat, sum: nat)
    requires y < Pow2(k) && x * Pow2(k) + y == sum
    ensures Or(x * Pow2(k), y) == sum
  {
    OrDisjoint(x, k, y);
  }

  /** Shifting n bits out of the top leaves the rest of the queue at the top. */
  lemma DropFits(q: seq<bit>, n: nat, k: nat)
    requires n <= |q| && |q| + k == 64 && n < 64
    ensures Shl64(NatOf(q) * Pow2(k), n) == NatOf(q[n..]) * Pow2(k + n)
  {
    ShiftScaled(NatOf(q), k, n);
    KeptLowBits(q, n, k + n);
  }

  lemma ShiftScaled(x: nat, k: nat, n: nat)
    requires n < 64
    ensures Shl64(x * Pow2(k), n) == x * Pow2(k + n) % U64
  {
    Pow2Add(k, n);
    MulAssoc(x, Pow2(k), Pow2(n));
  }

  lemma KeptLowBits(q: seq<bit>, n: nat, m: nat)
    requires n <= |q| && |q| - n + m == 64
    ensures NatOf(q) * Pow2(m) % U64 == NatOf(q[n..]) * Pow2(m)
  {
    SplitQueue(q, n);
    Pow2Of64();
    Pow2Add(|q| - n, m);
    ScaledDivMod(NatOf(q), NatOf(q[..n]), NatOf(q[n..]), Pow2(|q| - n), Pow2(m), U64);
  }

  lemma PeekFits(q: seq<bit>, n: nat, k: nat)
    requires n <= |q| && |q| + k == 64
    ensures Shr64(NatOf(q) * Pow2(k), 64 - n) == NatOf(q[..n])
  {
    if n == 0 {
      assert q[..n] == [];
    } else {
      SplitQueue(q, n);
      Pow2Add(|q| - n, k);
      ScaledDivMod(NatOf(q), NatOf(q[..n]), NatOf(q[n..]), Pow2(|q| - n), Pow2(k), Pow2(64 - n));
    }
  }

  lemma SplitQueue(q: seq<bit>, n: nat)
    requires n <= |q|
    ensures NatOf(q) == NatOf(q[..n]) * Pow2(|q| - n) + NatOf(q[n..])
    ensures NatOf(q[n..]) < Pow2(|q| - n)
  {
    var a, b := q[..n], q[n..];
    assert q == a + b && |b| == |q| - n;
    NatOfConcat(a, b);
    NatOfBound(b);
  }

  lemma ScaledDivMod(v: nat, a: nat, b: nat, p: nat, m: nat, t: nat)
    requires v == a * p + b && b < p && m > 0 && t > 0 && p * m == t
    ensures Quotient(v * m, t) == a && v * m % t == b * m
  {
    Regroup(a, p, b, m);
    MulLess(b, p, m);
    DivUnique(v * m, t, a, b * m);
  }

  lemma Regroup(a: nat, m: nat, b: nat, k: nat)
    ensures (a * m + b) * k == a * (m * k) + b * k
  {
    Distribute(a * m, b, k);
    MulAssoc(a, m, k);
  }

  lemma MulLess(x: nat, y: nat, z: nat)
    requires x < y && z > 0
    ensures x * z < y * z
  {
    assert y * z == x * z + (y - x) * z;
    assert (y - x) * z >= z by { MulBound(y - x, z); }
  }

  lemma MulAssoc(x: nat, y: nat, z: nat)
    ensures x * y * z == x * (y * z)
  {
  }

  lemma Distribute(x: nat, y: nat, z: nat)
    ensures (x + y) * z == x * z + y * z
  {
  }

}
