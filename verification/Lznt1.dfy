/** LZNT1: the decoder of section 2.5 of MS-XCA as NTFS uses it, an encoder, and their round trip. */
module Lznt1 {
  import opened Bits
  import opened Lz77

  // ---- The decoder, on what is left of the input ----------------------------------------

  /** How far the 12-bit split moves for a position in the chunk. */
  function Displacement(x: nat): (d: nat)
    ensures x < Pow2(4 + d)
    ensures d > 0 ==> x >= Pow2(3 + d)
  {
    if x < 0x10 then
      assert Pow2(4) == 16;
      0
    else
      assert Pow2(4 + (1 + Displacement(x / 2))) == 2 * Pow2(4 + Displacement(x / 2));
      1 + Displacement(x / 2)
  }

  /** uint16(x) */
  function Uint16(x: int): nat {
    x % 0x1_0000
  }

  lemma {:induction false} DisplacementBound(x: nat, n: nat)
    requires x < Pow2(4 + n)
    ensures Displacement(x) <= n
  {
    assert Pow2(4) == 16;
    if x >= 0x10 {
      DisplacementBound(x / 2, n - 1);
    }
  }

  /** The split for the next symbol when p bytes of the chunk are out. */
  function SplitAt(p: nat): (d: nat)
    ensures d <= 12
  {
    SixteenBits();
    DisplacementBound(Uint16(p - 1), 12);
    Displacement(Uint16(p - 1))
  }

  /** pointer >> (12 - d) */
  function OffsetField(pointer: nat, d: nat): nat
    requires d <= 12
  {
    Quotient(pointer, Pow2(12 - d))
  }

  /** pointer & (0xFFF >> d) */
  function LengthField(pointer: nat, d: nat): nat
    requires d <= 12
  {
    Remainder(pointer, Pow2(12 - d))
  }

  function Remainder(x: nat, p: nat): nat
    requires p > 0
  {
    x % p
  }

  /** Panic: the program would index past the end of its input. */
  datatype Outcome = Ok(out: seq<byte>) | BlockTooSmall | ShiftTooLarge(out: seq<byte>) | Panic

  /** Either go on with the rest of the input, `left` bytes of it in this chunk, or fail. */
  datatype Progress = Going(rest: seq<byte>, left: int, out: seq<byte>) | Failed(outcome: Outcome)

  /** One back reference, if its source starts inside the output. */
  function Referred(pointer: nat, out: seq<byte>, base: nat): (r: Option<seq<byte>>)
    requires base <= |out|
    ensures r.Some? ==> out <= r.value
  {
    var d := SplitAt(|out| - base);
    var symbolOffset := OffsetField(pointer, d) + 1;
    var symbolLength := LengthField(pointer, d) + 2;
    if symbolOffset > |out| then None else Some(Copied(out, symbolOffset, symbolLength + 1))
  }

  datatype Step = Moved(rest: seq<byte>, used: nat, out: seq<byte>) | StepFailed(outcome: Outcome)

  /** One symbol: a literal byte or a two-byte reference. */
  function SymbolStep(s: seq<byte>, isRef: bool, out: seq<byte>, base: nat): (r: Step)
    requires base <= |out|
    ensures r.Moved? ==> 1 <= r.used && |r.rest| == |s| - r.used && out <= r.out
  {
    if !isRef then
      if s == [] then StepFailed(Panic) else Moved(s[1..], 1, out + [s[0]])
    else if |s| < 2 then StepFailed(Panic)
    else
      match Referred(Word16(s, 0), out, base)
      case None => StepFailed(ShiftTooLarge(out))
      case Some(out') => Moved(s[2..], 2, out')
  }

  /** Up to eight symbols under one flag byte, lowest bit first. */
  function Symbols(s: seq<byte>, left: int, header: nat, maskIdx: nat, out: seq<byte>, base: nat): (r: Progress)
    requires base <= |out| && maskIdx <= 8
    ensures r.Going? ==> |r.rest| <= |s| && base <= |r.out|
    decreases 8 - maskIdx
  {
    if maskIdx == 8 || left <= 0 then Going(s, left, out)
    else
      match SymbolStep(s, header % 2 == 1, out, base)
      case StepFailed(f) => Failed(f)
      case Moved(rest, used, out') => Symbols(rest, left - used, header / 2, maskIdx + 1, out', base)
  }

  /** Flag groups until the end of the chunk. */
  function Groups(s: seq<byte>, left: int, out: seq<byte>, base: nat): (r: Progress)
    requires base <= |out|
    ensures r.Going? ==> |r.rest| <= |s|
    decreases |s|
  {
    if left <= 0 then Going(s, left, out)
    else if s == [] then Failed(Panic)
    else
      match Symbols(s[1..], left - 1, s[0], 0, out, base)
      case Failed(f) => Failed(f)
      case Going(rest, left', out') => Groups(rest, left', out', base)
  }

  /** Chunk after chunk, until the input or a header with size 0 ends it. A raw chunk that lacks only its
      last byte is sliced past the end of the input, into what its buffer has spare; that ends the input. */
  function Decoded(s: seq<byte>, spare: seq<byte>, out: seq<byte>): Outcome
    decreases |s|
  {
    if |s| < 2 then Ok(out)
    else
      var header := Word16(s, 0);
      var size := header % 0x1000;
      var body := s[2..];
      if size == 0 then Ok(out)
      else if |body| < size then BlockTooSmall
      else if header >= 0x8000 then
        match Groups(body, size + 1, out, |out|)
        case Failed(f) => f
        case Going(rest, _, out') => Decoded(rest, spare, out')
      else if |body| == size then (if spare == [] then Panic else Ok(out + body + spare[..1]))
      else Decoded(body[size + 1..], spare, out + body[..size + 1])
  }

  // ---- The encoder -----------------------------------------------------------------------

  datatype Item = Lit(b: byte) | Ref(offset: nat, length: nat)

  datatype Chunk = Raw(data: seq<byte>) | Compressed(items: seq<Item>)

  function ItemExpanded(out: seq<byte>, item: Item): (out': seq<byte>)
    ensures out <= out'
  {
    match item
    case Lit(b) => out + [b]
    case Ref(offset, length) => Copied(out, offset, length)
  }

  function ItemsExpanded(out: seq<byte>, items: seq<Item>): (out': seq<byte>)
    ensures out <= out'
    decreases |items|
  {
    if items == [] then out else ItemsExpanded(ItemExpanded(out, items[0]), items[1..])
  }

  /** Section 2.5 of MS-XCA: with p bytes of the chunk out, a reference takes the least number of bits for its
      offset, four at least, that every offset from 1 to p fits, and what is left of the word for its length. */
  function OffsetBits(p: nat): (bits: nat)
    requires p <= 0x1_0000
    ensures 4 <= bits <= 16 && p <= Pow2(bits) && (bits > 4 ==> p > Pow2(bits - 1))
  {
    SixteenBits();
    LeastBits(p, 4)
  }

  function LeastBits(p: nat, from: nat): (bits: nat)
    requires from <= 16 && p <= Pow2(16)
    ensures from <= bits <= 16 && p <= Pow2(bits) && (bits > from ==> p > Pow2(bits - 1))
    decreases 16 - from
  {
    if p <= Pow2(from) then from else LeastBits(p, from + 1)
  }

  function PackedFields(o: nat, l: nat, offsetBits: nat): nat
    requires offsetBits <= 16
  {
    o * Pow2(16 - offsetBits) + l
  }

  /** A reference into the output so far, the first symbol of a chunk excepted, whose fields hold it. */
  predicate ItemFits(item: Item, out: seq<byte>, base: nat)
    requires base <= |out|
  {
    item.Ref? ==>
      && 1 <= |out| - base <= 0x1_0000
      && 1 <= item.offset <= |out| && item.offset - 1 < Pow2(OffsetBits(|out| - base))
      && 3 <= item.length && item.length - 3 < Pow2(16 - OffsetBits(|out| - base))
  }

  predicate ItemsFit(items: seq<Item>, out: seq<byte>, base: nat)
    requires base <= |out|
    decreases |items|
  {
    items == [] ||
    (ItemFits(items[0], out, base) && ItemsFit(items[1..], ItemExpanded(out, items[0]), base))
  }

  function Low(w: nat): byte {
    w % 256
  }

  function High(w: nat): byte {
    w / 256 % 256
  }

  /** Two bytes, low byte first. */
  function LittleEndian16(w: nat): seq<byte> {
    [Low(w), High(w)]
  }

  function ItemBytes(item: Item, out: seq<byte>, base: nat): seq<byte>
    requires base <= |out|
  {
    match item
    case Lit(b) => [b]
    case Ref(offset, length) =>
      if offset < 1 || length < 3 || |out| - base > 0x1_0000 then []
      else LittleEndian16(PackedFields(offset - 1, length - 3, OffsetBits(|out| - base)))
  }

  function ItemsBytes(items: seq<Item>, out: seq<byte>, base: nat): seq<byte>
    requires base <= |out|
    decreases |items|
  {
    if items == [] then []
    else ItemBytes(items[0], out, base) + ItemsBytes(items[1..], ItemExpanded(out, items[0]), base)
  }

  function Flags(items: seq<Item>): nat {
    if items == [] then 0 else (if items[0].Ref? then 1 else 0) + 2 * Flags(items[1..])
  }

  lemma {:induction false} FlagsBound(items: seq<Item>)
    ensures Flags(items) < Pow2(|items|)
  {
    if items != [] {
      FlagsBound(items[1..]);
    }
  }

  function FlagByte(items: seq<Item>): byte
    requires |items| <= 8
  {
    FlagsBound(items);
    Pow2Monotone(|items|, 8);
    assert Pow2(8) == 256;
    Flags(items)
  }

  /** Groups of eight items, each behind its flag byte. */
  function GroupsBytes(items: seq<Item>, out: seq<byte>, base: nat): seq<byte>
    requires base <= |out|
    decreases |items|
  {
    if items == [] then []
    else
      var n := if |items| < 8 then |items| else 8;
      [FlagByte(items[..n])] + ItemsBytes(items[..n], out, base) +
      GroupsBytes(items[n..], ItemsExpanded(out, items[..n]), base)
  }

  function ChunkBody(chunk: Chunk, out: seq<byte>): seq<byte> {
    match chunk
    case Raw(data) => data
    case Compressed(items) => GroupsBytes(items, out, |out|)
  }

  function ChunkExpanded(chunk: Chunk, out: seq<byte>): seq<byte> {
    match chunk
    case Raw(data) => out + data
    case Compressed(items) => ItemsExpanded(out, items)
  }

  /** The body takes 1 to 4096 bytes: the size field holds its length less one. */
  predicate ChunkFits(chunk: Chunk, out: seq<byte>) {
    && 1 <= |ChunkBody(chunk, out)| <= 0x1000
    && (chunk.Compressed? ==> ItemsFit(chunk.items, out, |out|))
  }

  predicate ChunksFit(chunks: seq<Chunk>, out: seq<byte>)
    decreases |chunks|
  {
    chunks == [] || (ChunkFits(chunks[0], out) && ChunksFit(chunks[1..], ChunkExpanded(chunks[0], out)))
  }

  /** No body is a single byte, whose size field would be the 0 that ends a stream. */
  predicate NoneOfOneByte(chunks: seq<Chunk>, out: seq<byte>)
    decreases |chunks|
  {
    chunks == [] ||
    (|ChunkBody(chunks[0], out)| != 1 && NoneOfOneByte(chunks[1..], ChunkExpanded(chunks[0], out)))
  }

  function ChunksExpanded(chunks: seq<Chunk>, out: seq<byte>): seq<byte>
    decreases |chunks|
  {
    if chunks == [] then out else ChunksExpanded(chunks[1..], ChunkExpanded(chunks[0], out))
  }

  /** Header: size in the low 12 bits, signature 3, and the compressed bit. */
  function ChunkHeader(chunk: Chunk, size: nat): nat
    requires size < 0x1000
  {
    size + 0x3000 + (if chunk.Compressed? then 0x8000 else 0)
  }

  function ChunkBytes(chunk: Chunk, out: seq<byte>): seq<byte>
    requires 1 <= |ChunkBody(chunk, out)| <= 0x1000
  {
    var body := ChunkBody(chunk, out);
    LittleEndian16(ChunkHeader(chunk, |body| - 1)) + body
  }

  function Encoded(chunks: seq<Chunk>, out: seq<byte>): seq<byte>
    requires ChunksFit(chunks, out)
    decreases |chunks|
  {
    if chunks == [] then [] else ChunkBytes(chunks[0], out) + Encoded(chunks[1..], ChunkExpanded(chunks[0], out))
  }

  // ---- Round trip ----------------------------------------------------------------------------

  /** The split leaves the least number of bits, four at least, that every offset from 1 to p fits. */
  lemma SplitIsLeast(p: nat)
    requires 1 <= p <= 0x1_0000
    ensures p <= Pow2(4 + SplitAt(p)) && (SplitAt(p) > 0 ==> p > Pow2(3 + SplitAt(p)))
    ensures 4 + SplitAt(p) == OffsetBits(p)
  {
    hide Pow2, OffsetBits, Displacement;
    var d, bits := SplitAt(p), OffsetBits(p);
    SmallMod(p - 1, 0x1_0000);
    assert d == Displacement(p - 1);
    if 4 + d < bits {
      Pow2Monotone(4 + d, bits - 1);
    } else if bits < 4 + d {
      Pow2Monotone(bits, 3 + d);
    }
  }

  /** So every distance back to the start of the chunk fits the offset field. */
  lemma OffsetsRepresentable(p: nat, offset: nat)
    requires 1 <= offset <= p <= 0x1_0000
    ensures offset - 1 < Pow2(4 + SplitAt(p))
  {
    SplitIsLeast(p);
  }

  lemma WordBytes(w: nat, s: seq<byte>)
    requires w < 0x1_0000
    ensures Word16(LittleEndian16(w) + s, 0) == w
    ensures |LittleEndian16(w)| == 2 && (LittleEndian16(w) + s)[2..] == s
  {
  }

  /** The two fields of a reference word are read back. */
  lemma FieldsUnique(o: nat, l: nat, d: nat)
    requires d <= 12 && o < Pow2(4 + d) && l < Pow2(12 - d)
    ensures var w := PackedFields(o, l, 4 + d);
            w < 0x1_0000 && OffsetField(w, d) == o && LengthField(w, d) == l
  {
    SixteenBits();
    Pow2Add(4 + d, 12 - d);
    FieldsBound(o, l, Pow2(4 + d), Pow2(12 - d));
    FieldsOf(o, l, Pow2(12 - d));
  }

  lemma FieldsOf(o: nat, l: nat, p: nat)
    requires l < p
    ensures Quotient(o * p + l, p) == o && Remainder(o * p + l, p) == l
  {
    DivUnique(o * p + l, p, o, l);
  }

  lemma FieldsBound(o: nat, l: nat, m: nat, p: nat)
    requires o < m && l < p
    ensures o * p + l < m * p
  {
    assert m * p == o * p + (m - o) * p;
    MulBound(m - o, p);
  }

  lemma ReferenceReadBack(item: Item, out: seq<byte>, base: nat, s: seq<byte>)
    requires base <= |out| && item.Ref? && ItemFits(item, out, base)
    ensures |ItemBytes(item, out, base)| == 2
    ensures (ItemBytes(item, out, base) + s)[2..] == s
    ensures Referred(Word16(ItemBytes(item, out, base) + s, 0), out, base) == Some(ItemExpanded(out, item))
  {
    hide SplitAt, Displacement, OffsetBits, Copied, PackedFields, OffsetField, LengthField, LittleEndian16, Word16, Pow2;
    var d := SplitAt(|out| - base);
    SplitIsLeast(|out| - base);
    FieldsUnique(item.offset - 1, item.length - 3, d);
    WordBytes(PackedFields(item.offset - 1, item.length - 3, 4 + d), s);
  }

  lemma SymbolReadBack(item: Item, out: seq<byte>, base: nat, s: seq<byte>)
    requires base <= |out| && ItemFits(item, out, base)
    ensures SymbolStep(ItemBytes(item, out, base) + s, item.Ref?, out, base)
         == Moved(s, |ItemBytes(item, out, base)|, ItemExpanded(out, item))
    ensures |ItemBytes(item, out, base)| > 0
  {
    hide Referred, Copied, Word16, SplitAt, OffsetBits, LittleEndian16, PackedFields;
    if item.Ref? {
      ReferenceReadBack(item, out, base, s);
    } else {
      assert (ItemBytes(item, out, base) + s)[1..] == s;
    }
  }

  lemma FlagsHead(items: seq<Item>)
    requires items != []
    ensures (Flags(items) % 2 == 1 <==> items[0].Ref?) && Flags(items) / 2 == Flags(items[1..])
  {
  }

  /** Reading a group back: it ends with its eighth symbol or with the chunk. */
  lemma {:induction false} GroupReadBack(items: seq<Item>, s: seq<byte>, more: nat, maskIdx: nat, out: seq<byte>, base: nat)
    requires base <= |out| && maskIdx + |items| <= 8
    requires ItemsFit(items, out, base)
    requires maskIdx + |items| == 8 || more == 0
    ensures Symbols(ItemsBytes(items, out, base) + s, |ItemsBytes(items, out, base)| + more, Flags(items), maskIdx, out, base)
         == Going(s, more, ItemsExpanded(out, items))
    decreases |items|
  {
    hide SymbolStep, ItemFits, ItemBytes, ItemExpanded, ItemsBytes, Flags, Symbols;
    FirstItem(items, out, base, s);
    if items == [] {
      NoSymbols(s, more, Flags(items), maskIdx, out, base);
    } else {
      var out' := ItemExpanded(out, items[0]);
      var first, others := ItemBytes(items[0], out, base), ItemsBytes(items[1..], out', base);
      FlagsHead(items);
      SymbolReadBack(items[0], out, base, others + s);
      OneSymbolOn(first + (others + s), |first| + |others| + more, Flags(items), maskIdx, out, base,
                  others + s, |first|, out');
      GroupReadBack(items[1..], s, more, maskIdx + 1, out', base);
    }
  }

  lemma NoSymbols(s: seq<byte>, left: nat, header: nat, maskIdx: nat, out: seq<byte>, base: nat)
    requires base <= |out| && maskIdx <= 8 && (maskIdx == 8 || left == 0)
    ensures Symbols(s, left, header, maskIdx, out, base) == Going(s, left, out)
  {
  }

  lemma OneSymbolOn(s: seq<byte>, left: nat, header: nat, maskIdx: nat, out: seq<byte>, base: nat,
                    rest: seq<byte>, used: nat, out': seq<byte>)
    requires base <= |out| && maskIdx < 8 && left > 0 && base <= |out'|
    requires SymbolStep(s, header % 2 == 1, out, base) == Moved(rest, used, out')
    ensures Symbols(s, left, header, maskIdx, out, base) == Symbols(rest, left - used, header / 2, maskIdx + 1, out', base)
  {
    hide SymbolStep;
  }

  /** The bytes of the first item in front of those of the others. */
  lemma FirstItem(items: seq<Item>, out: seq<byte>, base: nat, s: seq<byte>)
    requires base <= |out| && ItemsFit(items, out, base)
    ensures items == [] ==> ItemsBytes(items, out, base) == [] && ItemsBytes(items, out, base) + s == s
    ensures items != [] ==>
      var first, others := ItemBytes(items[0], out, base), ItemsBytes(items[1..], ItemExpanded(out, items[0]), base);
      && |ItemsBytes(items, out, base)| == |first| + |others|
      && ItemsBytes(items, out, base) + s == first + (others + s)
  {
    hide ItemBytes, ItemExpanded, ItemFits;
    if items != [] {
      var first, others := ItemBytes(items[0], out, base), ItemsBytes(items[1..], ItemExpanded(out, items[0]), base);
      assert ItemsBytes(items, out, base) == first + others;
      assert first + others + s == first + (others + s);
    } else {
      assert [] + s == s;
    }
  }

  /** Reading all groups of a chunk back. */
  lemma {:induction false} GroupsReadBack(items: seq<Item>, s: seq<byte>, out: seq<byte>, base: nat)
    requires base <= |out| && ItemsFit(items, out, base)
    ensures Groups(GroupsBytes(items, out, base) + s, |GroupsBytes(items, out, base)|, out, base)
         == Going(s, 0, ItemsExpanded(out, items))
    decreases |items|
  {
    hide Symbols, ItemsBytes, ItemsFit, FlagByte, Groups, GroupsBytes, ItemsExpanded;
    FirstGroup(items, out, base, s);
    if items == [] {
      NoGroups(s, out, base);
    } else {
      var n := if |items| < 8 then |items| else 8;
      var group, rest := items[..n], items[n..];
      var bytes, out' := ItemsBytes(group, out, base), ItemsExpanded(out, group);
      var more := GroupsBytes(rest, out', base);
      assert items == group + rest;
      SplitFit(group, rest, out, base);
      FirstGroup(rest, out', base, s);
      GroupReadBackByte(group, more + s, |more|, out, base);
      OneGroupOn(FlagByte(group), bytes + (more + s), 1 + |bytes| + |more|, more + s, |more|, out, out', base);
      GroupsReadBack(rest, s, out', base);
      ExpandedInParts(group, rest, out);
    }
  }

  /** The bytes of the first group in front of those of the others. */
  lemma FirstGroup(items: seq<Item>, out: seq<byte>, base: nat, s: seq<byte>)
    requires base <= |out|
    ensures items == [] ==> ItemsExpanded(out, items) == out
    ensures items == [] ==> GroupsBytes(items, out, base) == [] && GroupsBytes(items, out, base) + s == s
    ensures items != [] ==>
      var group := items[..if |items| < 8 then |items| else 8];
      var bytes := ItemsBytes(group, out, base);
      var more := GroupsBytes(items[|group|..], ItemsExpanded(out, group), base);
      && |GroupsBytes(items, out, base)| == 1 + |bytes| + |more|
      && GroupsBytes(items, out, base) + s == [FlagByte(group)] + (bytes + (more + s))
  {
    hide ItemsBytes, FlagByte, ItemsExpanded;
    NothingExpanded(out);
    if items != [] {
      var group := items[..if |items| < 8 then |items| else 8];
      Associates([FlagByte(group)], ItemsBytes(group, out, base),
                 GroupsBytes(items[|group|..], ItemsExpanded(out, group), base), s);
    } else {
      assert [] + s == s;
    }
  }

  lemma NothingExpanded(out: seq<byte>)
    ensures ItemsExpanded(out, []) == out
  {
  }

  lemma Associates(a: seq<byte>, b: seq<byte>, c: seq<byte>, d: seq<byte>)
    ensures a + b + c + d == a + (b + (c + d))
  {
  }

  lemma NoGroups(s: seq<byte>, out: seq<byte>, base: nat)
    requires base <= |out|
    ensures Groups(s, 0, out, base) == Going(s, 0, out)
  {
  }

  lemma OneGroupOn(flag: byte, t: seq<byte>, left: nat, t': seq<byte>, left': int,
                   out: seq<byte>, out': seq<byte>, base: nat)
    requires base <= |out| && left > 0 && base <= |out'|
    requires Symbols(t, left - 1, flag, 0, out, base) == Going(t', left', out')
    ensures Groups([flag] + t, left, out, base) == Groups(t', left', out', base)
  {
    hide Symbols;
    assert ([flag] + t)[1..] == t;
  }

  lemma GroupReadBackByte(group: seq<Item>, s: seq<byte>, more: nat, out: seq<byte>, base: nat)
    requires base <= |out| && |group| <= 8 && ItemsFit(group, out, base) && (|group| == 8 || more == 0)
    ensures Symbols(ItemsBytes(group, out, base) + s, |ItemsBytes(group, out, base)| + more, FlagByte(group), 0, out, base)
         == Going(s, more, ItemsExpanded(out, group))
  {
    GroupReadBack(group, s, more, 0, out, base);
  }

  lemma {:induction false} SplitFit(a: seq<Item>, b: seq<Item>, out: seq<byte>, base: nat)
    requires base <= |out| && ItemsFit(a + b, out, base)
    ensures ItemsFit(a, out, base) && ItemsFit(b, ItemsExpanded(out, a), base)
    decreases |a|
  {
    hide ItemFits, ItemExpanded;
    if a == [] {
      assert a + b == b;
    } else {
      assert (a + b)[1..] == a[1..] + b;
      SplitFit(a[1..], b, ItemExpanded(out, a[0]), base);
    }
  }

  lemma {:induction false} ExpandedInParts(a: seq<Item>, b: seq<Item>, out: seq<byte>)
    ensures ItemsExpanded(out, a + b) == ItemsExpanded(ItemsExpanded(out, a), b)
    decreases |a|
  {
    hide ItemExpanded;
    if a == [] {
      assert a + b == b;
    } else {
      assert (a + b)[1..] == a[1..] + b;
      ExpandedInParts(a[1..], b, ItemExpanded(out, a[0]));
    }
  }

  /** Reading one chunk back. */
  lemma ChunkReadBack(chunk: Chunk, out: seq<byte>, s: seq<byte>, spare: seq<byte>)
    requires ChunkFits(chunk, out) && |ChunkBody(chunk, out)| != 1
    ensures Decoded(ChunkBytes(chunk, out) + s, spare, out) == Decoded(s, spare, ChunkExpanded(chunk, out))
  {
    hide ItemsFit, GroupsBytes, Groups, LittleEndian16, Word16;
    var body := ChunkBody(chunk, out);
    var header := ChunkHeader(chunk, |body| - 1);
    assert LittleEndian16(header) + body + s == LittleEndian16(header) + (body + s);
    WordBytes(header, body + s);
    match chunk
    case Raw(data) =>
      assert (body + s)[|data|..] == s && (body + s)[..|data|] == data;
    case Compressed(items) =>
      GroupsReadBack(items, s, out, |out|);
  }

  /** Where a stream may end: fewer than two bytes left, or a header whose size is 0. */
  predicate EndsStream(s: seq<byte>) {
    |s| < 2 || Word16(s, 0) % 0x1000 == 0
  }

  /** Decoding an encoding gives the concatenated expansion, whatever follows the end of the stream. */
  lemma {:induction false} RoundTrip(chunks: seq<Chunk>, out: seq<byte>, end: seq<byte>, spare: seq<byte>)
    requires ChunksFit(chunks, out) && NoneOfOneByte(chunks, out) && EndsStream(end)
    ensures Decoded(Encoded(chunks, out) + end, spare, out) == Ok(ChunksExpanded(chunks, out))
    decreases |chunks|
  {
    hide ChunkBody, ChunkFits, ChunkExpanded, ChunkBytes, Decoded;
    if chunks == [] {
      NothingLeft(end, spare, out);
      assert Encoded(chunks, out) + end == end;
    } else {
      FirstChunk(chunks, out, end);
      var out' := ChunkExpanded(chunks[0], out);
      ChunkReadBack(chunks[0], out, Encoded(chunks[1..], out') + end, spare);
      RoundTrip(chunks[1..], out', end, spare);
    }
  }

  lemma FirstChunk(chunks: seq<Chunk>, out: seq<byte>, end: seq<byte>)
    requires chunks != [] && ChunksFit(chunks, out)
    ensures Encoded(chunks, out) + end ==
            ChunkBytes(chunks[0], out) + (Encoded(chunks[1..], ChunkExpanded(chunks[0], out)) + end)
  {
    hide ChunkBytes, ChunkFits, ChunkExpanded;
  }

  lemma NothingLeft(end: seq<byte>, spare: seq<byte>, out: seq<byte>)
    requires EndsStream(end)
    ensures Decoded(end, spare, out) == Ok(out)
  {
  }

  /** A chunk whose body is one byte has size field 0, so it ends the stream and is lost with all that follows. */
  lemma OneByteChunkIsLost(chunk: Chunk, s: seq<byte>, spare: seq<byte>, out: seq<byte>)
    requires |ChunkBody(chunk, out)| == 1
    ensures Decoded(ChunkBytes(chunk, out) + s, spare, out) == Ok(out)
  {
    hide ChunkBody, LittleEndian16, Word16, Groups;
    var body := ChunkBody(chunk, out);
    var header := ChunkHeader(chunk, 0);
    assert LittleEndian16(header) + body + s == LittleEndian16(header) + (body + s);
    WordBytes(header, body + s);
  }

  /** A chunk whose body is cut short by two bytes or more is refused, with all that was decoded before it. */
  lemma CutChunkIsRefused(chunk: Chunk, k: nat, spare: seq<byte>, out: seq<byte>)
    requires 2 <= |ChunkBody(chunk, out)| <= 0x1000 && k + 1 < |ChunkBody(chunk, out)|
    ensures Decoded(ChunkBytes(chunk, out)[..2 + k], spare, out) == BlockTooSmall
  {
    hide ChunkBody, LittleEndian16, Word16, Groups;
    var body := ChunkBody(chunk, out);
    var header := ChunkHeader(chunk, |body| - 1);
    WordBytes(header, body[..k]);
    assert (LittleEndian16(header) + body)[..2 + k] == LittleEndian16(header) + body[..k];
  }

  /** No chunk takes anything back. */
  lemma ChunkGrows(chunk: Chunk, out: seq<byte>)
    ensures |out| <= |ChunkExpanded(chunk, out)|
  {
  }

  /** A fitting chunk with a single byte of body is raw, and adds to the output. */
  lemma OneByteAdds(chunk: Chunk, out: seq<byte>)
    requires ChunkFits(chunk, out) && |ChunkBody(chunk, out)| == 1
    ensures |ChunkExpanded(chunk, out)| == |out| + 1
  {
    if chunk.Compressed? {
      FirstGroup(chunk.items, out, |out|, []);
      FirstItemBytes(chunk.items, out);
    }
  }

  lemma FirstItemBytes(items: seq<Item>, out: seq<byte>)
    requires items != [] && ItemsFit(items, out, |out|)
    ensures var group := items[..if |items| < 8 then |items| else 8]; |ItemsBytes(group, out, |out|)| >= 1
  {
    hide PackedFields, SplitAt;
    assert ItemFits(items[0], out, |out|);
  }

  lemma {:induction false} ChunksGrow(chunks: seq<Chunk>, out: seq<byte>)
    ensures |out| <= |ChunksExpanded(chunks, out)|
    decreases |chunks|
  {
    hide ChunkExpanded;
    if chunks != [] {
      ChunkGrows(chunks[0], out);
      ChunksGrow(chunks[1..], ChunkExpanded(chunks[0], out));
    }
  }

  /** A stream of fitting chunks is read back exactly when no body is a single byte. */
  lemma {:induction false} RoundTripIff(chunks: seq<Chunk>, out: seq<byte>, end: seq<byte>, spare: seq<byte>)
    requires ChunksFit(chunks, out) && EndsStream(end)
    ensures Decoded(Encoded(chunks, out) + end, spare, out) == Ok(ChunksExpanded(chunks, out)) <==> NoneOfOneByte(chunks, out)
    decreases |chunks|
  {
    hide ChunkBody, ChunkFits, ChunkExpanded, ChunkBytes, Decoded;
    if chunks == [] {
      RoundTrip(chunks, out, end, spare);
    } else {
      FirstChunk(chunks, out, end);
      var out' := ChunkExpanded(chunks[0], out);
      var rest := Encoded(chunks[1..], out') + end;
      if |ChunkBody(chunks[0], out)| == 1 {
        OneByteChunkIsLost(chunks[0], rest, spare, out);
        OneByteAdds(chunks[0], out);
        ChunksGrow(chunks[1..], out');
      } else {
        ChunkReadBack(chunks[0], out, rest, spare);
        RoundTripIff(chunks[1..], out', end, spare);
      }
    }
  }
}
