/** Page tables as section 4.5 of the Intel SDM, volume 3A, lays them out in physical memory, and that the
    translation reads them so. */
module PageTables {
  import opened Bits
  import opened PhysicalDump
  import opened Paging

  /** The number whose bytes these are, low byte first. */
  function LittleEndian(b: seq<byte>): nat {
    if b == [] then 0 else b[0] + 256 * LittleEndian(b[1..])
  }

  ghost predicate BytesAre(d: Dump, addr: nat, b: seq<byte>) {
    addr + |b| <= U64 && forall k: nat :: k < |b| ==> PhysByte(d, addr + k) == Some(b[k])
  }

  /** Eight present bytes hold the number. */
  ghost predicate Holds(d: Dump, addr: nat, value: nat) {
    exists b: seq<byte> :: |b| == 8 && BytesAre(d, addr, b) && LittleEndian(b) == value
  }

  /** One of the eight bytes is not there, or bit 0 of the first is clear. */
  ghost predicate Absent(d: Dump, addr: nat) {
    addr + 8 <= U64 && (Clear(PhysByte(d, addr)) || exists k :: 0 <= k < 8 && Missing(d, addr, k))
  }

  predicate Clear(b: Option<byte>) {
    b.Some? && b.value % 2 == 0
  }

  predicate Missing(d: Dump, addr: nat, k: nat) {
    addr + k < U64 && PhysByte(d, addr + k) == None
  }

  /** A table entry: flags below the frame, the frame's number up to bit 51, and 12 bits that take no part. */
  datatype Entry = Entry(flags: nat, frame: nat, ignored: nat)

  /** The entry as a number, for frames of `unit` bytes. */
  function Number(e: Entry, unit: nat): nat {
    e.flags + unit * e.frame + 0x10_0000_0000_0000 * e.ignored
  }

  predicate Fits(e: Entry, unit: nat) {
    e.flags < unit && unit * (e.frame + 1) <= 0x10_0000_0000_0000 && e.ignored < 0x1000
  }

  predicate Present(e: Entry) {
    e.flags % 2 == 1
  }

  predicate Large(e: Entry) {
    e.flags / 128 % 2 == 1
  }

  /** The address with these four table indices and this offset below the last of them; what is above bit 47
      takes no part. */
  function Address(top: nat, i4: nat, i3: nat, i2: nat, i1: nat, offset: nat): nat {
    0x1_0000_0000_0000 * top + 0x80_0000_0000 * i4 + 0x4000_0000 * i3 + 0x20_0000 * i2 + 0x1000 * i1 + offset
  }

  predicate Indices(top: nat, i4: nat, i3: nat, i2: nat, i1: nat, offset: nat) {
    top < 0x1_0000 && i4 < 512 && i3 < 512 && i2 < 512 && i1 < 512 && offset < 0x1000
  }

  /** The slot of an index in the table at a frame of 4 KB. */
  function Slot(table: nat, index: nat): nat {
    0x1000 * table + 8 * index
  }

  /** The slot holds a present entry for a frame of `unit` bytes, with or without the page-size bit. */
  ghost predicate Maps(d: Dump, slot: nat, e: Entry, unit: nat) {
    Fits(e, unit) && Present(e) && Holds(d, slot, Number(e, unit))
  }

  // ---- Reading entries ---------------------------------------------------------------------------

  lemma WordOfBytes(b: seq<byte>)
    requires |b| == 8
    ensures Word64(b) == LittleEndian(b) && Word64(b) % 2 == b[0] % 2
  {
    hide Word64, LittleEndian;
    FourBytes(b[..4]);
    FourBytes(b[4..]);
    Concatenated(b[..4], b[4..]);
    assert b == b[..4] + b[4..];
    WordInHalves(b);
    LowBits(b[0], Word64(b) / 256);
  }

  lemma WordInHalves(b: seq<byte>)
    requires |b| == 8
    ensures Word64(b) == Word32(b[..4], 0) + 0x1_0000_0000 * Word32(b[4..], 0)
    ensures Word64(b) % 256 == b[0]
  {
    var m: nat := b[1] + 0x100 * Word16(b, 2) + 0x100_0000 * Word32(b, 4);
    assert Word64(b) == (b[0] as nat) + 256 * m;
    DivUnique(Word64(b), 256, m, b[0]);
  }

  lemma FourBytes(b: seq<byte>)
    requires |b| == 4
    ensures LittleEndian(b) == Word32(b, 0)
  {
    assert b[1..][1..] == b[2..] && b[2..][1..] == b[3..] && b[3..][1..] == [];
    assert LittleEndian(b[3..]) == b[3];
    assert LittleEndian(b[2..]) == (b[2] as nat) + 256 * (b[3] as nat);
    assert LittleEndian(b[1..]) == (b[1] as nat) + 256 * LittleEndian(b[2..]);
  }

  lemma Concatenated(a: seq<byte>, b: seq<byte>)
    requires |a| == 4
    ensures LittleEndian(a + b) == LittleEndian(a) + 0x1_0000_0000 * LittleEndian(b)
  {
    var s := a + b;
    assert s[1..] == a[1..] + b && a[1..][1..] == a[2..] && a[2..][1..] == a[3..] && a[3..][1..] == [];
    assert s[1..][1..] == a[2..] + b;
    assert (a[2..] + b)[1..] == a[3..] + b;
    assert (a[3..] + b)[1..] == b;
    assert LittleEndian(a[3..]) == a[3];
    assert LittleEndian(a[2..]) == (a[2] as nat) + 256 * (a[3] as nat);
    assert LittleEndian(a[1..]) == (a[1] as nat) + 256 * LittleEndian(a[2..]);
    assert LittleEndian(a[3..] + b) == (a[3] as nat) + 256 * LittleEndian(b);
    assert LittleEndian(a[2..] + b) == (a[2] as nat) + 256 * LittleEndian(a[3..] + b);
    assert LittleEndian(a[1..] + b) == (a[1] as nat) + 256 * LittleEndian(a[2..] + b);
  }

  /** What is added in multiples of 256 changes neither bit 0 nor bit 7. */
  lemma LowBits(low: nat, m: nat)
    ensures (low + 256 * m) % 2 == low % 2 && (low + 256 * m) / 128 % 2 == low / 128 % 2
  {
    DivUnique(low + 256 * m, 2, low / 2 + 128 * m, low % 2);
    DivUnique(low + 256 * m, 128, low / 128 + 2 * m, low % 128);
    DivUnique(low / 128 + 2 * m, 2, low / 128 / 2 + m, low / 128 % 2);
  }

  /** The eight bytes the translation reads are those at the addresses from the slot on. */
  lemma EntryBytes(d: Dump, addr: nat)
    requires RunsOk(d.runs) && addr + 8 <= U64
    ensures var b := ReadChunks(d, addr, 8);
            && |b| <= 8 && BytesAre(d, addr, b) && (|b| < 8 ==> Missing(d, addr, |b|))
  {
    hide RunsOk, ReadChunks, PhysByte, Wrap;
    ReadChunksIsPrefix(d, addr, 8);
    PrefixMeaning(PhysAt(d), addr, 8);
    var b := ReadChunks(d, addr, 8);
    forall k: nat | k < |b| ensures PhysByte(d, addr + k) == Some(b[k]) {
      WrapNone(addr + k);
    }
    if |b| < 8 {
      WrapNone(addr + |b|);
    }
  }

  lemma HeldEntryIsRead(d: Dump, base: nat, idx: nat, value: nat)
    requires RunsOk(d.runs) && base + idx * 8 < U64 && Holds(d, base + 8 * idx, value) && value % 2 == 1
    ensures ReadEntry(d, base, idx) == Some(value)
  {
    hide RunsOk, ReadChunks, PhysByte, Word64, LittleEndian;
    var addr := base + 8 * idx;
    var held: seq<byte> :| |held| == 8 && BytesAre(d, addr, held) && LittleEndian(held) == value;
    EntryBytes(d, addr);
    var b := ReadChunks(d, addr, 8);
    forall k | 0 <= k < 8 ensures !Missing(d, addr, k) {
      assert PhysByte(d, addr + k) == Some(held[k]);
    }
    forall k: nat | k < |b| ensures b[k] == held[k] {
      assert PhysByte(d, addr + k) == Some(b[k]);
    }
    assert b == held;
    WordOfBytes(b);
  }

  lemma AbsentEntryIsNone(d: Dump, base: nat, idx: nat)
    requires RunsOk(d.runs) && base + idx * 8 < U64 && Absent(d, base + 8 * idx)
    ensures ReadEntry(d, base, idx) == None
  {
    hide RunsOk, ReadChunks, PhysByte, Word64, LittleEndian;
    var addr := base + 8 * idx;
    EntryBytes(d, addr);
    var b := ReadChunks(d, addr, 8);
    if |b| == 8 {
      assert PhysByte(d, addr + 0) == Some(b[0]);
      forall k | 0 <= k < 8 ensures !Missing(d, addr, k) {
        assert PhysByte(d, addr + k) == Some(b[k]);
      }
      WordOfBytes(b);
    }
  }

  lemma FlagsOfEntry(e: Entry, unit: nat)
    requires Number(e, unit) < U64 && (unit == 0x1000 || unit == 0x20_0000 || unit == 0x4000_0000)
    ensures Number(e, unit) % 2 == e.flags % 2 && IsLargePage(Number(e, unit)) == Large(e)
  {
    if unit == 0x1000 {
      LowBits(e.flags, 0x10 * e.frame + 0x1000_0000_0000 * e.ignored);
    } else if unit == 0x20_0000 {
      LowBits(e.flags, 0x2000 * e.frame + 0x1000_0000_0000 * e.ignored);
    } else {
      LowBits(e.flags, 0x40_0000 * e.frame + 0x1000_0000_0000 * e.ignored);
    }
  }

  lemma FrameOfEntry(e: Entry, unit: nat)
    requires Fits(e, unit) && (unit == 0x1000 || unit == 0x20_0000 || unit == 0x4000_0000)
    ensures Number(e, unit) < U64 && FrameBits(Number(e, unit), unit) == unit * e.frame
  {
    hide Placed;
    if unit == 0x1000 {
      Digits(Number(e, unit), 0x1000, 0x100_0000_0000, e.ignored, e.frame, e.flags);
    } else if unit == 0x20_0000 {
      Digits(Number(e, unit), 0x20_0000, 0x8000_0000, e.ignored, e.frame, e.flags);
    } else {
      Digits(Number(e, unit), 0x4000_0000, 0x40_0000, e.ignored, e.frame, e.flags);
    }
    PlacedIs(e.frame, unit);
  }

  lemma PlacedIs(frame: nat, unit: nat)
    requires unit > 0
    ensures forall n :: frame < n ==> Placed(frame, unit, n) == unit * frame
  {
  }

  /** A digit of a number: the quotient by its unit, cut to the base. */
  lemma Digits(v: nat, unit: nat, base: nat, high: nat, digit: nat, low: nat)
    requires unit > 0 && v == (high * base + digit) * unit + low && low < unit && digit < base
    ensures v / unit % base == digit && v % unit == low
  {
    DivUnique(v, unit, high * base + digit, low);
    DivUnique(high * base + digit, base, high, digit);
  }

  lemma IndicesOf(top: nat, i4: nat, i3: nat, i2: nat, i1: nat, offset: nat)
    requires Indices(top, i4, i3, i2, i1, offset)
    ensures var va := Address(top, i4, i3, i2, i1, offset);
            && va < U64
            && TableIndex(va, 0x80_0000_0000) == i4 && TableIndex(va, 0x4000_0000) == i3
            && TableIndex(va, 0x20_0000) == i2 && TableIndex(va, 0x1000) == i1
            && PageOffset(va, 0x1000) == offset
            && PageOffset(va, 0x20_0000) == 0x1000 * i1 + offset
            && PageOffset(va, 0x4000_0000) == 0x20_0000 * i2 + 0x1000 * i1 + offset
  {
    var va := Address(top, i4, i3, i2, i1, offset);
    var high2 := 512 * (512 * top + i4) + i3;
    Digits(va, 0x80_0000_0000, 512, top, i4, 0x4000_0000 * i3 + 0x20_0000 * i2 + 0x1000 * i1 + offset);
    Digits(va, 0x4000_0000, 512, 512 * top + i4, i3, 0x20_0000 * i2 + 0x1000 * i1 + offset);
    Digits(va, 0x20_0000, 512, high2, i2, 0x1000 * i1 + offset);
    Digits(va, 0x1000, 512, 512 * high2 + i2, i1, offset);
  }

  // ---- The walk --------------------------------------------------------------------------------------

  /** The table base is cr3 without its low 12 bits. */
  lemma TableOfCr3(table: nat, low: nat)
    requires low < 0x1000
    ensures (0x1000 * table + low) / 0x1000 * 0x1000 == 0x1000 * table
  {
    DivUnique(0x1000 * table + low, 0x1000, table, low);
  }

  /** One level: a slot that holds an entry is read as it. */
  lemma Level(d: Dump, table: nat, index: nat, e: Entry, unit: nat)
    requires RunsOk(d.runs) && index < 512 && 0x1000 * (table + 1) <= U64 && Maps(d, Slot(table, index), e, unit)
    requires unit == 0x1000 || unit == 0x20_0000 || unit == 0x4000_0000
    ensures ReadEntry(d, 0x1000 * table, index) == Some(Number(e, unit))
    ensures IsLargePage(Number(e, unit)) == Large(e) && FrameBits(Number(e, unit), unit) == unit * e.frame
  {
    hide RunsOk, ReadEntry, Holds, IsLargePage, FrameBits;
    FrameOfEntry(e, unit);
    FlagsOfEntry(e, unit);
    HeldEntryIsRead(d, 0x1000 * table, index, Number(e, unit));
  }

  /** A 1 GB page: two tables, the entry of the second with the page-size bit. */
  lemma MapsGigabyte(d: Dump, root: nat, low: nat, top: nat, i4: nat, i3: nat, i2: nat, i1: nat, offset: nat, e4: Entry, e3: Entry)
    requires RunsOk(d.runs) && Indices(top, i4, i3, i2, i1, offset) && low < 0x1000 && 0x1000 * (root + 1) <= U64
    requires Maps(d, Slot(root, i4), e4, 0x1000)
    requires Maps(d, Slot(e4.frame, i3), e3, 0x4000_0000) && Large(e3)
    ensures Address(top, i4, i3, i2, i1, offset) < U64
    ensures VirtToPhys(d, 0x1000 * root + low, Address(top, i4, i3, i2, i1, offset)) ==
            Some(0x4000_0000 * e3.frame + 0x20_0000 * i2 + 0x1000 * i1 + offset)
  {
    hide RunsOk, ReadEntry, Maps, IsLargePage, FrameBits, TableIndex, PageOffset, Large, Slot, Address;
    IndicesOf(top, i4, i3, i2, i1, offset);
    TableOfCr3(root, low);
    Level(d, root, i4, e4, 0x1000);
    assert 0x1000 * (e4.frame + 1) <= U64 by { FrameBound(d, Slot(root, i4), e4); }
    Level(d, e4.frame, i3, e3, 0x4000_0000);
  }

  lemma FrameBound(d: Dump, slot: nat, e: Entry)
    requires Maps(d, slot, e, 0x1000)
    ensures 0x1000 * (e.frame + 1) <= 0x10_0000_0000_0000
  {
  }

  /** A 2 MB page: three tables, the page-size bit in the third. */
  lemma MapsTwoMegabytes(d: Dump, root: nat, low: nat, top: nat, i4: nat, i3: nat, i2: nat, i1: nat, offset: nat,
                         e4: Entry, e3: Entry, e2: Entry)
    requires RunsOk(d.runs) && Indices(top, i4, i3, i2, i1, offset) && low < 0x1000 && 0x1000 * (root + 1) <= U64
    requires Maps(d, Slot(root, i4), e4, 0x1000)
    requires Maps(d, Slot(e4.frame, i3), e3, 0x1000) && !Large(e3)
    requires Maps(d, Slot(e3.frame, i2), e2, 0x20_0000) && Large(e2)
    ensures Address(top, i4, i3, i2, i1, offset) < U64
    ensures VirtToPhys(d, 0x1000 * root + low, Address(top, i4, i3, i2, i1, offset)) ==
            Some(0x20_0000 * e2.frame + 0x1000 * i1 + offset)
  {
    hide RunsOk, ReadEntry, Maps, IsLargePage, FrameBits, TableIndex, PageOffset, Large, Slot, Address;
    IndicesOf(top, i4, i3, i2, i1, offset);
    TableOfCr3(root, low);
    Level(d, root, i4, e4, 0x1000);
    FrameBound(d, Slot(root, i4), e4);
    Level(d, e4.frame, i3, e3, 0x1000);
    FrameBound(d, Slot(e4.frame, i3), e3);
    Level(d, e3.frame, i2, e2, 0x20_0000);
  }

  /** A 4 KB page: four tables, and bit 7 of the last entry has another meaning. */
  lemma MapsFourKilobytes(d: Dump, root: nat, low: nat, top: nat, i4: nat, i3: nat, i2: nat, i1: nat, offset: nat,
                          e4: Entry, e3: Entry, e2: Entry, e1: Entry)
    requires RunsOk(d.runs) && Indices(top, i4, i3, i2, i1, offset) && low < 0x1000 && 0x1000 * (root + 1) <= U64
    requires Maps(d, Slot(root, i4), e4, 0x1000)
    requires Maps(d, Slot(e4.frame, i3), e3, 0x1000) && !Large(e3)
    requires Maps(d, Slot(e3.frame, i2), e2, 0x1000) && !Large(e2)
    requires Maps(d, Slot(e2.frame, i1), e1, 0x1000)
    ensures Address(top, i4, i3, i2, i1, offset) < U64
    ensures VirtToPhys(d, 0x1000 * root + low, Address(top, i4, i3, i2, i1, offset)) == Some(0x1000 * e1.frame + offset)
  {
    hide RunsOk, ReadEntry, Maps, IsLargePage, FrameBits, TableIndex, PageOffset, Large, Slot, Address;
    IndicesOf(top, i4, i3, i2, i1, offset);
    TableOfCr3(root, low);
    Level(d, root, i4, e4, 0x1000);
    FrameBound(d, Slot(root, i4), e4);
    Level(d, e4.frame, i3, e3, 0x1000);
    FrameBound(d, Slot(e4.frame, i3), e3);
    Level(d, e3.frame, i2, e2, 0x1000);
    FrameBound(d, Slot(e3.frame, i2), e2);
    Level(d, e2.frame, i1, e1, 0x1000);
  }

  /** An entry on the way that is not there, in the first, second, third or fourth table. */
  ghost predicate Unmapped(d: Dump, root: nat, i4: nat, i3: nat, i2: nat, i1: nat, e4: Entry, e3: Entry, e2: Entry) {
    || Absent(d, Slot(root, i4))
    || (Maps(d, Slot(root, i4), e4, 0x1000) &&
        (|| Absent(d, Slot(e4.frame, i3))
         || (Maps(d, Slot(e4.frame, i3), e3, 0x1000) && !Large(e3) &&
             (|| Absent(d, Slot(e3.frame, i2))
              || (Maps(d, Slot(e3.frame, i2), e2, 0x1000) && !Large(e2) && Absent(d, Slot(e2.frame, i1)))))))
  }

  lemma NoLevel(d: Dump, table: nat, index: nat)
    requires RunsOk(d.runs) && index < 512 && 0x1000 * (table + 1) <= U64 && Absent(d, Slot(table, index))
    ensures ReadEntry(d, 0x1000 * table, index) == None
  {
    hide RunsOk, ReadEntry, Absent;
    AbsentEntryIsNone(d, 0x1000 * table, index);
  }

  /** Then there is no translation. */
  lemma UnmappedIsNone(d: Dump, root: nat, low: nat, top: nat, i4: nat, i3: nat, i2: nat, i1: nat, offset: nat,
                       e4: Entry, e3: Entry, e2: Entry)
    requires RunsOk(d.runs) && Indices(top, i4, i3, i2, i1, offset) && low < 0x1000 && 0x1000 * (root + 1) <= U64
    requires Unmapped(d, root, i4, i3, i2, i1, e4, e3, e2)
    ensures Address(top, i4, i3, i2, i1, offset) < U64
    ensures VirtToPhys(d, 0x1000 * root + low, Address(top, i4, i3, i2, i1, offset)) == None
  {
    hide RunsOk, ReadEntry, Maps, IsLargePage, FrameBits, TableIndex, PageOffset, Large, Slot, Address, Absent;
    IndicesOf(top, i4, i3, i2, i1, offset);
    TableOfCr3(root, low);
    if Absent(d, Slot(root, i4)) {
      NoLevel(d, root, i4);
    } else {
      Level(d, root, i4, e4, 0x1000);
      FrameBound(d, Slot(root, i4), e4);
      if Absent(d, Slot(e4.frame, i3)) {
        NoLevel(d, e4.frame, i3);
      } else {
        Level(d, e4.frame, i3, e3, 0x1000);
        FrameBound(d, Slot(e4.frame, i3), e3);
        if Absent(d, Slot(e3.frame, i2)) {
          NoLevel(d, e3.frame, i2);
        } else {
          Level(d, e3.frame, i2, e2, 0x1000);
          FrameBound(d, Slot(e3.frame, i2), e2);
          NoLevel(d, e2.frame, i1);
        }
      }
    }
  }
}
