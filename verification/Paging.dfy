/** x86-64 four-level paging over a dump's physical memory, and virtual reads in page-sized chunks. */
module Paging {
  import opened Bits
  import opened PhysicalDump

  /** The little-endian 64-bit number in the first eight bytes. */
  function Word64(b: seq<byte>): u64
    requires |b| >= 8
  {
    Word32(b, 0) + 0x1_0000_0000 * Word32(b, 4)
  }

  /** A present table entry at base + 8 * idx; None when it cannot be read or its present bit is clear. */
  function ReadEntry(d: Dump, base: u64, idx: nat): Option<u64>
    requires base + idx * 8 < U64
  {
    var b := ReadChunks(d, base + idx * 8, 8);
    if |b| < 8 || Word64(b) % 2 == 0 then None else Some(Word64(b))
  }

  /** The index of nine bits starting at the bit worth `unit`. */
  function TableIndex(va: u64, unit: nat): (i: nat)
    requires unit > 0
    ensures i < 512
  {
    va / unit % 512
  }

  function PageOffset(va: u64, unit: nat): nat
    requires unit > 0
  {
    va % unit
  }

  /** Bits 12, 21 or 30 up to 51 of an entry, in place: the frame of a 4 KB, 2 MB or 1 GB page. */
  function FrameBits(e: u64, unit: nat): (f: nat)
    requires unit == 0x1000 || unit == 0x20_0000 || unit == 0x4000_0000
    ensures f % unit == 0 && f + unit <= 0x10_0000_0000_0000
  {
    if unit == 0x1000 then Placed(e / 0x1000 % 0x100_0000_0000, 0x1000, 0x100_0000_0000)
    else if unit == 0x20_0000 then Placed(e / 0x20_0000 % 0x8000_0000, 0x20_0000, 0x8000_0000)
    else Placed(e / 0x4000_0000 % 0x40_0000, 0x4000_0000, 0x40_0000)
  }

  /** One of n frames of a size, as the address of its first byte. */
  function Placed(frame: nat, size: nat, n: nat): (a: nat)
    requires frame < n && size > 0
    ensures a % size == 0 && a + size <= n * size
  {
    MulBound(n - frame, size);
    assert (n - frame) * size == n * size - frame * size;
    DivUnique(frame * size, size, frame, 0);
    frame * size
  }

  /** Bit 7, the page-size bit. */
  predicate IsLargePage(e: u64) {
    e / 128 % 2 == 1
  }

  function VirtToPhys(d: Dump, cr3: u64, va: u64): (pa: Option<u64>)
    ensures pa.Some? ==> pa.value < 0x10_0000_0000_0000
  {
    var pml4e := ReadEntry(d, cr3 / 0x1000 * 0x1000, TableIndex(va, 0x80_0000_0000));
    if pml4e == None then None
    else
      var pdpte := ReadEntry(d, FrameBits(pml4e.value, 0x1000), TableIndex(va, 0x4000_0000));
      if pdpte == None then None
      else if IsLargePage(pdpte.value) then Some(FrameBits(pdpte.value, 0x4000_0000) + PageOffset(va, 0x4000_0000))
      else
        var pde := ReadEntry(d, FrameBits(pdpte.value, 0x1000), TableIndex(va, 0x20_0000));
        if pde == None then None
        else if IsLargePage(pde.value) then Some(FrameBits(pde.value, 0x20_0000) + PageOffset(va, 0x20_0000))
        else
          var pte := ReadEntry(d, FrameBits(pde.value, 0x1000), TableIndex(va, 0x1000));
          if pte == None then None
          else Some(FrameBits(pte.value, 0x1000) + PageOffset(va, 0x1000))
  }

  lemma SameIndices(va: u64, k: nat)
    requires va % 0x1000 + k < 0x1000 && va + k < U64
    ensures TableIndex(va + k, 0x1000) == TableIndex(va, 0x1000)
    ensures TableIndex(va + k, 0x20_0000) == TableIndex(va, 0x20_0000)
    ensures TableIndex(va + k, 0x4000_0000) == TableIndex(va, 0x4000_0000)
    ensures TableIndex(va + k, 0x80_0000_0000) == TableIndex(va, 0x80_0000_0000)
    ensures PageOffset(va + k, 0x1000) == PageOffset(va, 0x1000) + k
    ensures PageOffset(va + k, 0x20_0000) == PageOffset(va, 0x20_0000) + k
    ensures PageOffset(va + k, 0x4000_0000) == PageOffset(va, 0x4000_0000) + k
  {
    SameInUnit(va, k, 1);
    SameInUnit(va, k, 0x200);
    SameInUnit(va, k, 0x4_0000);
    SameInUnit(va, k, 0x800_0000);
  }

  /** A step inside a 4 KB page is one inside any unit of whole pages. */
  lemma SameInUnit(va: nat, k: nat, m: nat)
    requires va % 0x1000 + k < 0x1000 && m > 0
    ensures (va + k) / (0x1000 * m) == va / (0x1000 * m) && (va + k) % (0x1000 * m) == va % (0x1000 * m) + k
  {
    var unit := 0x1000 * m;
    var q, r := va / unit, va % unit;
    assert va == 0x1000 * (q * m) + r;
    DivUnique(va, 0x1000, q * m + r / 0x1000, r % 0x1000);
    assert r / 0x1000 < m;
    DivUnique(va + k, unit, q, r + k);
  }

  /** Inside a 4 KB page translation moves with the address, whatever the size of the page that maps it. */
  lemma TranslationIsLinear(d: Dump, cr3: u64, va: u64, k: nat)
    requires va % 0x1000 + k < 0x1000 && va + k < U64
    ensures VirtToPhys(d, cr3, va + k) ==
      var pa := VirtToPhys(d, cr3, va);
      if pa == None then None else Some(pa.value + k)
  {
    hide ReadEntry, FrameBits, TableIndex, IsLargePage, PageOffset;
    SameIndices(va, k);
  }

  function VirtByte(d: Dump, cr3: u64, va: u64): Option<byte> {
    var pa := VirtToPhys(d, cr3, va);
    if pa == None then None else PhysByte(d, pa.value)
  }

  function VirtAt(d: Dump, cr3: u64): u64 -> Option<byte> {
    (va: u64) => VirtByte(d, cr3, va)
  }

  /** The bytes read in chunks that end at 4 KB page ends. */
  function VReadFrom(d: Dump, cr3: u64, cur: u64, remaining: nat): seq<byte>
    decreases remaining
  {
    if remaining == 0 then []
    else
      var pa := VirtToPhys(d, cr3, cur);
      if pa == None then []
      else
        var room := 0x1000 - cur % 0x1000;
        var chunk := if remaining > room then room else remaining;
        var b := ReadChunks(d, pa.value, chunk);
        if |b| < chunk then b
        else b + VReadFrom(d, cr3, Wrap(cur + chunk), remaining - chunk)
  }

  /** vread: translate, read to the page end, go on; short where something is missing. */
  method VRead(d: Dump, cr3: u64, va: u64, n: int) returns (out: seq<byte>)
    ensures out == if cr3 == 0 || n <= 0 then [] else VReadFrom(d, cr3, va, n)
  {
    hide VirtToPhys, Wrap, ReadChunks;
    if cr3 == 0 || n <= 0 {
      return [];
    }
    out := [];
    var cur: u64, remaining := va, n;
    while remaining > 0
      invariant 0 <= remaining <= n
      invariant out + VReadFrom(d, cr3, cur, remaining) == VReadFrom(d, cr3, va, n)
    {
      var pa := VirtToPhys(d, cr3, cur);
      if pa == None {
        break;
      }
      var pageEnd := Wrap(cur / 0x1000 * 0x1000 + 0xFFF + 1);
      var room := Wrap(pageEnd + U64 - cur);
      PageRoom(cur);
      var chunk := if remaining > room then room else remaining;
      var b := ReadPhys(d, pa.value, chunk);
      if |b| == 0 {
        break;
      }
      out := out + b;
      if |b| < chunk {
        break;
      }
      cur := Wrap(cur + chunk);
      remaining := remaining - chunk;
    }
  }

  /** pageEnd - cur, also where the page end wraps to 0. */
  lemma PageRoom(cur: u64)
    ensures Wrap(Wrap(cur / 0x1000 * 0x1000 + 0xFFF + 1) + U64 - cur) == 0x1000 - cur % 0x1000
  {
  }

  lemma VirtByteIsPhysByte(d: Dump, cr3: u64, va: u64)
    ensures VirtAt(d, cr3)(va) ==
      var pa := VirtToPhys(d, cr3, va);
      if pa == None then None else PhysAt(d)(pa.value)
  {
    hide VirtToPhys, PhysByte;
  }

  /** Inside a page the virtual bytes are the physical bytes at the translation. */
  lemma {:induction false} PageChunk(d: Dump, cr3: u64, va: u64, n: nat)
    requires va % 0x1000 + n <= 0x1000 && va + n <= U64
    ensures VirtToPhys(d, cr3, va).Some? ==>
      Prefix(VirtAt(d, cr3), va, n) == Prefix(PhysAt(d), VirtToPhys(d, cr3, va).value, n)
    decreases n
  {
    hide VirtToPhys, VirtAt, PhysAt, Wrap;
    VirtByteIsPhysByte(d, cr3, va);
    if n > 1 && VirtToPhys(d, cr3, va).Some? {
      TranslationIsLinear(d, cr3, va, 1);
      PageChunk(d, cr3, va + 1, n - 1);
      WrapNone(va + 1);
      WrapNone(VirtToPhys(d, cr3, va).value + 1);
    }
  }

  lemma ChunkEnds(cur: u64)
    ensures cur + (0x1000 - cur % 0x1000) <= U64
  {
  }

  /** A chunked virtual read is the byte-wise one. */
  lemma {:induction false} VReadIsPrefix(d: Dump, cr3: u64, va: u64, n: nat)
    requires RunsOk(d.runs)
    ensures VReadFrom(d, cr3, va, n) == Prefix(VirtAt(d, cr3), va, n)
    decreases n
  {
    hide VirtToPhys, VirtAt, PhysAt, Wrap, RunsOk, ReadChunks;
    VirtByteIsPhysByte(d, cr3, va);
    if n > 0 && VirtToPhys(d, cr3, va).Some? {
      var room := 0x1000 - va % 0x1000;
      var chunk := if n > room then room else n;
      ChunkEnds(va);
      PageChunk(d, cr3, va, chunk);
      ReadChunksIsPrefix(d, VirtToPhys(d, cr3, va).value, chunk);
      PrefixSplits(VirtAt(d, cr3), va, chunk, n - chunk);
      VReadIsPrefix(d, cr3, Wrap(va + chunk), n - chunk);
    }
  }

  /** Each byte k of a virtual read is the physical byte at the translation of va + k, and the read
      is short only where translation or presence first fails. */
  lemma VReadTranslatesEveryByte(d: Dump, cr3: u64, va: u64, n: nat)
    requires RunsOk(d.runs)
    ensures var out := VReadFrom(d, cr3, va, n);
            && |out| <= n
            && (forall k :: 0 <= k < |out| ==> VirtByte(d, cr3, Wrap(va + k)) == Some(out[k]))
            && (|out| < n ==> VirtByte(d, cr3, Wrap(va + |out|)) == None)
  {
    hide VirtByte, VReadFrom, Wrap, RunsOk;
    VReadIsPrefix(d, cr3, va, n);
    PrefixMeaning(VirtAt(d, cr3), va, n);
  }
}
