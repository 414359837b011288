/** Registry transaction logs as Windows 10 writes them, and that exactly their dirty pages are replayed. */
module RegfLayout {
  import opened Bits
  import opened ByteWrites
  import opened RegfLog

  const U32: nat := 0x1_0000_0000

  /** x in four bytes, the low one first. */
  function Quad(x: nat): (b: seq<byte>)
    requires x < U32
    ensures |b| == 4
  {
    var high, low := x / 0x1_0000, x % 0x1_0000;
    [low % 0x100, low / 0x100, high % 0x100, high / 0x100]
  }

  /** A dirty page: where it belongs, counted from the end of the hive's base block, and its bytes. */
  datatype Page = Page(offset: nat, data: seq<byte>)

  /** An entry: flags, sequence number and what follows it, hashes, its pages, and padding. */
  datatype Entry = Entry(numbers: seq<byte>, hashes: seq<byte>, pages: seq<Page>, padding: seq<byte>)

  predicate PageFits(p: Page) {
    p.offset < U32 && |p.data| < U32
  }

  predicate PagesFit(pages: seq<Page>) {
    forall k :: 0 <= k < |pages| ==> PageFits(pages[k])
  }

  /** The table of an entry: offset and size of each page. */
  function Descriptors(pages: seq<Page>): (b: seq<byte>)
    requires PagesFit(pages)
    ensures |b| == 8 * |pages|
  {
    if pages == [] then [] else
      assert PageFits(pages[0]);
      Quad(pages[0].offset) + Quad(|pages[0].data|) + Descriptors(pages[1..])
  }

  function Contents(pages: seq<Page>): seq<byte> {
    if pages == [] then [] else pages[0].data + Contents(pages[1..])
  }

  function Size(e: Entry): nat {
    40 + 8 * |e.pages| + |Contents(e.pages)| + |e.padding|
  }

  predicate EntryFits(e: Entry) {
    |e.numbers| == 12 && |e.hashes| == 16 && PagesFit(e.pages) && |e.pages| < U32 && Size(e) < U32
  }

  /** "HvLE", the size of the entry, twelve bytes, the number of pages, sixteen bytes of hashes; then the table, the
      pages one behind the other, and padding. */
  function EntryBytes(e: Entry): (b: seq<byte>)
    requires EntryFits(e)
    ensures |b| == Size(e)
  {
    [0x48, 0x76, 0x4C, 0x45] + Quad(Size(e)) + e.numbers + Quad(|e.pages|) + e.hashes +
    Descriptors(e.pages) + Contents(e.pages) + e.padding
  }

  predicate EntriesFit(es: seq<Entry>) {
    forall k :: 0 <= k < |es| ==> EntryFits(es[k])
  }

  function EntriesBytes(es: seq<Entry>): seq<byte>
    requires EntriesFit(es)
  {
    if es == [] then [] else EntryBytes(es[0]) + EntriesBytes(es[1..])
  }

  /** The log: a base block of 512 bytes that starts with "regf", and the entries. */
  function LogBytes(base: seq<byte>, es: seq<Entry>, behind: seq<byte>): seq<byte>
    requires |base| == 508 && EntriesFit(es)
  {
    [0x72, 0x65, 0x67, 0x66] + base + EntriesBytes(es) + behind
  }

  /** Each page as a write behind the 4096 bytes of the hive's base block; a page without bytes or of more than
      4 MB ends the entry. */
  function WritesOf(pages: seq<Page>): seq<Write> {
    if pages == [] || pages[0].data == [] || |pages[0].data| > 0x40_0000 then []
    else [Write(0x1000 + pages[0].offset, pages[0].data)] + WritesOf(pages[1..])
  }

  function AllWrites(es: seq<Entry>): seq<Write> {
    if es == [] then [] else WritesOf(es[0].pages) + AllWrites(es[1..])
  }

  // ---- Reading it back -------------------------------------------------------------------------------

  lemma QuadIs(a: seq<byte>, x: nat, b: seq<byte>)
    requires x < U32
    ensures Word32(a + Quad(x) + b, |a|) == x
  {
    var s := a + Quad(x) + b;
    assert forall k :: 0 <= k < 4 ==> s[|a| + k] == Quad(x)[k];
    assert Word16(s, |a|) == x % 0x1_0000 && Word16(s, |a| + 2) == x / 0x1_0000;
  }

  /** From page i on: the table's rest is next behind `table`, and the contents' rest behind `front`. */
  lemma {:induction false} PagesReadBack(log: seq<byte>, off: nat, size: nat, count: nat, i: nat, dataOff: nat, pages: seq<Page>)
    requires off + size <= |log| && off + FIXED + count * 8 <= off + size && FIXED == 40
    requires PagesFit(pages) && count == i + |pages|
    requires log[off + 40 + 8 * i..off + 40 + 8 * count] == Descriptors(pages)
    requires dataOff + |Contents(pages)| <= off + size && log[dataOff..dataOff + |Contents(pages)|] == Contents(pages)
    ensures PageWrites(log, off, size, count, i, dataOff) == WritesOf(pages)
    decreases |pages|
  {
    hide Word32, Quad;
    if pages != [] {
      assert PageFits(pages[0]);
      FirstDescriptor(log, off, i, count, pages);
      FirstContent(log, dataOff, pages);
      PagesReadBack(log, off, size, count, i + 1, dataOff + |pages[0].data|, pages[1..]);
    }
  }

  lemma FirstDescriptor(log: seq<byte>, off: nat, i: nat, count: nat, pages: seq<Page>)
    requires PagesFit(pages) && pages != [] && count == i + |pages| && off + 40 + 8 * count <= |log|
    requires log[off + 40 + 8 * i..off + 40 + 8 * count] == Descriptors(pages)
    ensures Word32(log, off + 40 + 8 * i) == pages[0].offset && Word32(log, off + 40 + 8 * i + 4) == |pages[0].data|
    ensures log[off + 40 + 8 * (i + 1)..off + 40 + 8 * count] == Descriptors(pages[1..])
  {
    hide Word32, Quad;
    var at, end := off + 40 + 8 * i, off + 40 + 8 * count;
    assert PageFits(pages[0]);
    var table := Descriptors(pages);
    TwoQuads(log[..at], pages[0].offset, |pages[0].data|, Descriptors(pages[1..]), log[end..]);
    assert log == log[..at] + table + log[end..];
    assert log[at + 8..end] == log[at..end][8..];
  }

  lemma TwoQuads(before: seq<byte>, x: nat, y: nat, rest: seq<byte>, behind: seq<byte>)
    requires x < U32 && y < U32
    ensures var s, at := before + (Quad(x) + Quad(y) + rest) + behind, |before|;
            Word32(s, at) == x && Word32(s, at + 4) == y
    ensures (Quad(x) + Quad(y) + rest)[8..] == rest
  {
    hide Word32, Quad;
    var s := before + (Quad(x) + Quad(y) + rest) + behind;
    assert s == before + Quad(x) + (Quad(y) + rest + behind);
    QuadIs(before, x, Quad(y) + rest + behind);
    assert s == (before + Quad(x)) + Quad(y) + (rest + behind);
    QuadIs(before + Quad(x), y, rest + behind);
  }

  lemma FirstContent(log: seq<byte>, dataOff: nat, pages: seq<Page>)
    requires pages != [] && dataOff + |Contents(pages)| <= |log|
    requires log[dataOff..dataOff + |Contents(pages)|] == Contents(pages)
    ensures var n, all := |pages[0].data|, |Contents(pages)|;
            && all == n + |Contents(pages[1..])| && log[dataOff..dataOff + n] == pages[0].data
            && log[dataOff + n..dataOff + n + |Contents(pages[1..])|] == Contents(pages[1..])
  {
    assert Contents(pages) == pages[0].data + Contents(pages[1..]);
    hide Contents;
    SliceSplit(log, dataOff, pages[0].data, Contents(pages[1..]));
  }

  /** The fields of an entry, wherever it lies. */
  lemma EntryFields(before: seq<byte>, e: Entry, behind: seq<byte>)
    requires EntryFits(e)
    ensures var log, off := before + EntryBytes(e) + behind, |before|;
            && log[off..off + 4] == HVLE && Word32(log, off + 4) == Size(e) && Word32(log, off + 20) == |e.pages|
  {
    hide Word32, Quad, Descriptors, Contents, PagesFit, Size;
    var log, off := before + EntryBytes(e) + behind, |before|;
    var tail := Descriptors(e.pages) + Contents(e.pages) + e.padding + behind;
    var a := before + [0x48, 0x76, 0x4C, 0x45];
    var c := a + Quad(Size(e)) + e.numbers;
    assert log == a + Quad(Size(e)) + (e.numbers + Quad(|e.pages|) + e.hashes + tail);
    QuadIs(a, Size(e), e.numbers + Quad(|e.pages|) + e.hashes + tail);
    assert log == c + Quad(|e.pages|) + (e.hashes + tail);
    QuadIs(c, |e.pages|, e.hashes + tail);
    assert log[off..off + 4] == [0x48, 0x76, 0x4C, 0x45];
  }

  lemma EntryParts(before: seq<byte>, e: Entry, behind: seq<byte>)
    requires EntryFits(e)
    ensures var log, at := before + EntryBytes(e) + behind, |before| + 40;
            var n := 8 * |e.pages|;
            && log[at..at + n] == Descriptors(e.pages)
            && log[at + n..at + n + |Contents(e.pages)|] == Contents(e.pages)
  {
    hide Word32, Quad, Descriptors, Contents, PagesFit;
    var head := before + [0x48, 0x76, 0x4C, 0x45] + Quad(Size(e)) + e.numbers + Quad(|e.pages|) + e.hashes;
    var log := before + EntryBytes(e) + behind;
    assert log == head + Descriptors(e.pages) + Contents(e.pages) + (e.padding + behind);
  }

  /** One entry is replayed as its pages. */
  lemma EntryReadBack(before: seq<byte>, e: Entry, behind: seq<byte>)
    requires EntryFits(e)
    ensures EntryWrites(before + EntryBytes(e) + behind, |before|) ==
            WritesOf(e.pages) + EntryWrites(before + EntryBytes(e) + behind, |before| + Size(e))
  {
    hide Word32, Descriptors, Contents, PagesFit, PageWrites;
    EntryFields(before, e, behind);
    EntryParts(before, e, behind);
    var log := before + EntryBytes(e) + behind;
    PagesReadBack(log, |before|, Size(e), |e.pages|, 0, |before| + 40 + 8 * |e.pages|, e.pages);
  }

  /** What follows the last entry does not start like one. */
  predicate Ends(behind: seq<byte>) {
    |behind| < 40 || behind[..4] != [0x48, 0x76, 0x4C, 0x45]
  }

  lemma {:induction false} EntriesReadBack(before: seq<byte>, es: seq<Entry>, behind: seq<byte>)
    requires EntriesFit(es) && Ends(behind)
    ensures EntryWrites(before + EntriesBytes(es) + behind, |before|) == AllWrites(es)
    decreases |es|
  {
    hide EntryBytes, EntryFits, Size, EntryWrites, WritesOf, EntriesBytes;
    var log := before + EntriesBytes(es) + behind;
    if es == [] {
      assert EntriesBytes(es) == [] && before + [] == before by { NoEntries(); }
      NothingFollows(before, behind);
    } else {
      assert EntryFits(es[0]);
      var first, rest := EntryBytes(es[0]), EntriesBytes(es[1..]);
      FirstEntry(es);
      Regrouped(before, first, rest, behind);
      EntryReadBack(before, es[0], rest + behind);
      EntriesReadBack(before + first, es[1..], behind);
    }
  }

  lemma NoEntries()
    ensures EntriesBytes([]) == []
  {
  }

  lemma FirstEntry(es: seq<Entry>)
    requires EntriesFit(es) && es != []
    ensures EntryFits(es[0]) && EntriesBytes(es) == EntryBytes(es[0]) + EntriesBytes(es[1..])
  {
    hide EntryFits, EntryBytes;
  }

  lemma Regrouped(a: seq<byte>, b: seq<byte>, c: seq<byte>, d: seq<byte>)
    ensures a + (b + c) + d == a + b + (c + d) == a + b + c + d
  {
  }

  lemma NothingFollows(before: seq<byte>, behind: seq<byte>)
    requires Ends(behind)
    ensures EntryWrites(before + behind, |before|) == []
  {
    var log := before + behind;
    if |behind| >= 40 {
      assert log[|before|..|before| + 4] == behind[..4];
    }
  }

  /** A log holds exactly the writes of its pages, entry by entry, in order. */
  lemma LogReadBack(base: seq<byte>, es: seq<Entry>, behind: seq<byte>)
    requires |base| == 508 && EntriesFit(es) && Ends(behind)
    ensures LogWrites(LogBytes(base, es, behind)) == AllWrites(es)
  {
    hide EntryWrites, EntriesBytes;
    var front := [0x72, 0x65, 0x67, 0x66] + base;
    var log := LogBytes(base, es, behind);
    assert log == front + EntriesBytes(es) + behind;
    EntriesReadBack(front, es, behind);
    assert log[..4] == [0x72, 0x65, 0x67, 0x66];
  }
}
