/** Database files as they are opened, and what a scan makes of records that the page bound of the code
    tears apart. */
module SqliteFile {
  import opened Bits
  import opened SqliteVarint
  import opened SqliteRecord
  import opened SqliteWal
  import opened SqliteScan
  import opened SqliteTree

  // ---- Opening ---------------------------------------------------------------------------------

  /** "SQLite format 3" */
  const MAGIC: seq<byte> := [83, 81, 76, 105, 116, 101, 32, 102, 111, 114, 109, 97, 116, 32, 51]

  /** The page size of a file that is opened; None for a file that is refused. */
  function Opened(data: seq<byte>): Option<nat> {
    if |data| < 100 || data[..15] != MAGIC then None
    else
      var ps := if Be16(data, 16) == 1 then 65536 else Be16(data, 16);
      if ps < 512 then None else Some(ps)
  }

  method OpenSqliteBytes(data: seq<byte>) returns (db: Option<SqliteDb>)
    ensures db.Some? <==> Opened(data).Some?
    ensures db.Some? ==> fresh(db.value) && db.value.data == data && Some(db.value.pageSize) == Opened(data)
    ensures db.Some? ==> db.value.wal == map[]
  {
    if |data| < 100 || data[..15] != MAGIC {
      return None;
    }
    var ps := Be16(data, 16);
    if ps == 1 {
      ps := 65536;
    }
    if ps < 512 {
      return None;
    }
    var database := new SqliteDb(data, ps);
    db := Some(database);
  }

  /** A file that was opened, with pages over it as applying a log leaves them. */
  predicate IsOpen(src: Source) {
    Opened(src.data) == Some(src.pageSize) && Usable(src)
  }

  // ---- Files -----------------------------------------------------------------------------------

  /** Page 1: the file header, and a b-tree header of a kind without cells, naming a rightmost child. */
  function FirstPage(size: nat, kind: byte, child: byte): (pg: seq<byte>)
    requires 512 <= size <= 65536
    ensures |pg| == size && pg[100] == kind && Be16(pg, 103) == 0 && Be32(pg, 108) == child
  {
    MAGIC + [0, size / 256 % 256, if size == 65536 then 1 else size % 256] + Zeros(82) + [kind] + Zeros(10) + [child] + Zeros(size - 112)
  }

  lemma FirstPageOpens(size: nat, kind: byte, child: byte, rest: seq<byte>)
    requires 512 <= size <= 65536
    ensures Opened(FirstPage(size, kind, child) + rest) == Some(size)
  {
    var data := FirstPage(size, kind, child) + rest;
    assert data[..15] == MAGIC;
  }

  function Be32Bytes(x: nat): (b: seq<byte>)
    requires x < 0x1_0000_0000
    ensures |b| == 4 && Be32(b, 0) == x
  {
    var high, low := x / 0x1_0000, x % 0x1_0000;
    [high / 0x100, high % 0x100, low / 0x100, low % 0x100]
  }

  /** m overflow pages of zeros numbered from k on, each naming the next. */
  function ZeroPages(k: nat, m: nat, size: nat): seq<byte>
    requires size >= 512 && k + m <= 0x1_0000_0000
    decreases m
  {
    if m == 0 then []
    else Be32Bytes(if m == 1 then 0 else k + 1) + Zeros(size - 4) + ZeroPages(k + 1, m - 1, size)
  }

  /** From page k on the file is m such pages. */
  predicate ZeroTail(src: Source, k: nat, m: nat) {
    && src.wal == map[] && src.pageSize >= 512 && k >= 1 && k + m <= 0x1_0000_0000
    && Times(k - 1, src.pageSize) <= |src.data|
    && src.data[Times(k - 1, src.pageSize)..] == ZeroPages(k, m, src.pageSize)
  }

  function ZeroPage(next: nat, size: nat): seq<byte>
    requires size >= 512 && next < 0x1_0000_0000
  {
    Be32Bytes(next) + Zeros(size - 4)
  }

  lemma ZeroPageServed(src: Source, k: nat, m: nat)
    requires ZeroTail(src, k, m) && m > 0
    ensures Get(src, k) == Some(ZeroPage(if m == 1 then 0 else k + 1, src.pageSize)) && ZeroTail(src, k + 1, m - 1)
  {
    hide Be32Bytes, Times;
    var size, pg := src.pageSize, ZeroPage(if m == 1 then 0 else k + 1, src.pageSize);
    PageStart(k, size);
    var tail := src.data[Times(k - 1, size)..];
    assert tail == pg + ZeroPages(k + 1, m - 1, size);
    assert src.data[Times(k - 1, size)..Times(k, size)] == tail[..size] == pg;
    assert src.data[Times(k, size)..] == tail[size..] == ZeroPages(k + 1, m - 1, size);
  }

  /** Their chain holds as many zeros as there is room for. */
  lemma {:induction false} ZeroChain(src: Source, k: nat, m: nat, len: nat)
    requires Usable(src) && ZeroTail(src, k, m) && len <= Times(m, src.pageSize - 4)
    ensures ChainHolds(src, k, Zeros(len))
    decreases m
  {
    hide Be32, Be32Bytes, ZeroTail, Get, Times;
    var size := src.pageSize;
    if len > 0 {
      assert m > 0 && k > 0 && (if m == 1 then len <= size - 4 else k + 1 < 0x1_0000_0000) by { SomePages(src, k, m, len); }
      var next := if m == 1 then 0 else k + 1;
      ZeroPageServed(src, k, m);
      WordInFront(Be32Bytes(next), Zeros(size - 4));
      PageStart(m, size - 4);
      if size - 4 < len {
        ZeroChain(src, k + 1, m - 1, len - (size - 4));
        assert Zeros(len)[size - 4..] == Zeros(len - (size - 4));
      }
      assert ZeroPage(next, size)[4..] == Zeros(size - 4);
    }
  }

  lemma SomePages(src: Source, k: nat, m: nat, len: nat)
    requires ZeroTail(src, k, m) && 0 < len <= Times(m, src.pageSize - 4)
    ensures m > 0 && k > 0 && if m == 1 then len <= src.pageSize - 4 else k + 1 < 0x1_0000_0000
  {
  }

  lemma WordInFront(a: seq<byte>, b: seq<byte>)
    requires |a| == 4
    ensures Be32(a + b, 0) == Be32(a, 0)
  {
  }

  // ---- A record with one blob of zeros -----------------------------------------------------------

  /** The record's single column; its serial type takes w + 1 bytes and the header w + 2. */
  function BlobField(len: nat, w: nat): Field
    requires len >= w + 2
  {
    Field(12 + 2 * (len - (w + 2)), w, Blob(Zeros(len - (w + 2))))
  }

  predicate BlobFits(len: nat, w: nat) {
    w <= 8 && w + 2 <= len < TOP / 4 && WidthFits(12 + 2 * (len - (w + 2)), w)
  }

  function RecordHead(len: nat, w: nat): (head: seq<byte>)
    requires len >= w + 2
    ensures |head| == w + 2
  {
    VarintBytes(w + 2, 0) + VarintBytes(BlobField(len, w).t, w)
  }

  lemma BlobRecord(len: nat, w: nat)
    requires BlobFits(len, w)
    ensures var fs := [BlobField(len, w)];
            && FieldsOk(fs) && HeaderLength(fs, 0) == w + 2 && WidthFits(w + 2, 0)
            && Encoded(fs, 0) == RecordHead(len, w) + Zeros(len - (w + 2))
            && ValuesOf(fs) == [Blob(Zeros(len - (w + 2)))]
  {
    hide WidthFits, VarintBytes;
    var f := BlobField(len, w);
    assert [f][1..] == [];
    assert TypeBytes([f]) == VarintBytes(f.t, w) + [] == VarintBytes(f.t, w);
    assert DataBytes([f]) == Zeros(len - (w + 2)) + [] == Zeros(len - (w + 2));
    OneByte(w + 2);
  }

  lemma OneByte(v: nat)
    requires v < 128
    ensures WidthFits(v, 0)
  {
    SevenBits(0);
  }

  /** The record cut anywhere behind its header is a record with a shorter blob. */
  lemma CutRecord(b: seq<byte>, len: nat, w: nat)
    requires BlobFits(len, w) && w + 2 <= |b| <= len && b[..w + 2] == RecordHead(len, w)
    ensures RecordOf(b) == Values([Blob(b[w + 2..])])
  {
    hide WidthFits, VarintAt, VarintBytes;
    var t := BlobField(len, w).t;
    assert b[0..0 + 0 + 1] == b[..w + 2][..1] == VarintBytes(w + 2, 0);
    assert b[1..1 + w + 1] == b[..w + 2][1..] == VarintBytes(t, w);
    OneByte(w + 2);
    VarintRoundTrip(b, 0, w + 2, 0);
    VarintRoundTrip(b, 1, t, w);
    assert VarintAt(b, 0) == (w + 2, 1) && VarintAt(b, 1) == (t, w + 1);
    assert TypesFrom(b, w + 2, w + 2) == [];
    assert TypesFrom(b, 1, w + 2) == [t] + TypesFrom(b, w + 2, w + 2) == [t];
    assert [t as int][1..] == [];
    assert Width(t) == len - (w + 2);
    assert ValuesFrom(b, [t], w + 2) == [ValueOf(t, b[w + 2..|b|])] + ValuesFrom(b, [], |b|);
    assert b[w + 2..|b|] == b[w + 2..];
    assert ValueOf(t, b[w + 2..]) == Blob(b[w + 2..]);
  }

  // ---- A file that holds it ------------------------------------------------------------------------

  /** There are page numbers enough for a payload's overflow pages. */
  predicate Numbered(size: nat, len: nat)
    requires size >= 512
  {
    len / (size - 4) + 4 <= 0x1_0000_0000
  }

  /** The bytes of page 2 behind the cell's length and row id: what the format keeps of the record, and the
      number of the first overflow page when the record spills; zeros up to the end of the page. */
  function CellBody(src: Source, len: nat, w: nat, room: nat): (body: seq<byte>)
    requires Usable(src) && w + 2 <= FormatLocalLength(src, len) && FormatLocalLength(src, len) + 4 <= room
    ensures |body| == room && body[..w + 2] == RecordHead(len, w)
    ensures var n := FormatLocalLength(src, len);
            && (forall k :: w + 2 <= k < room && k != n + 3 ==> body[k] == 0)
            && body[n + 3] == if len > src.pageSize - 35 then 3 else 0
  {
    var n := FormatLocalLength(src, len);
    RecordHead(len, w) + Zeros(n - (w + 2)) + [0, 0, 0, if len > src.pageSize - 35 then 3 else 0] + Zeros(room - n - 4)
  }

  /** The leaf page's header, one cell pointer, and the cell with its length and row id 1. */
  function LeafHead(len: nat, lw: nat): (head: seq<byte>)
    ensures |head| == 12 + lw
  {
    [0x0d, 0, 0, 0, 1, 0, 0, 0, 0, 10] + VarintBytes(len, lw) + VarintBytes(1, 0)
  }

  /** Overflow pages enough for a payload. */
  function PagesFor(size: nat, len: nat): (m: nat)
    requires size >= 512 && Numbered(size, len)
    ensures 3 + m <= 0x1_0000_0000 && len <= Times(m, size - 4)
  {
    len / (size - 4) + 1
  }

  predicate Fitting(size: nat, len: nat, w: nat, lw: nat) {
    && 512 <= size <= 65536 && w <= 8 && lw <= 8 && Numbered(size, len)
    && BlobFits(len, w) && WidthFits(len, lw)
  }

  lemma Sizes(size: nat, len: nat, w: nat, lw: nat)
    requires Fitting(size, len, w, lw)
    ensures 512 <= size <= 65536 && Numbered(size, len) && w <= 8 && lw <= 8 && BlobFits(len, w) && WidthFits(len, lw)
  {
  }

  lemma Room(src: Source, len: nat, w: nat)
    requires Usable(src) && w <= 8 && !BoundDoesNotMatter(src, len)
    ensures w + 2 <= MinLocal(src) <= FormatLocalLength(src, len) <= src.pageSize - 35 && MaxLocal(src) < len
    ensures len <= src.pageSize - 35 ==> FormatLocalLength(src, len) == len
  {
  }

  function LeafPage(src: Source, len: nat, w: nat, lw: nat): (pg: seq<byte>)
    requires Usable(src) && w <= 8 && lw <= 8 && !BoundDoesNotMatter(src, len)
    ensures |pg| == src.pageSize
  {
    Room(src, len, w);
    LeafHead(len, lw) + CellBody(src, len, w, src.pageSize - (12 + lw))
  }

  function Bare(size: nat): Source {
    Source([], size, map[])
  }

  /** Page 1 without tables, page 2, and m overflow pages of zeros. */
  function FileOf(size: nat, page2: seq<byte>, m: nat): Source
    requires 512 <= size <= 65536 && 3 + m <= 0x1_0000_0000
  {
    Source(FirstPage(size, 0x0d, 0) + (page2 + ZeroPages(3, m, size)), size, map[])
  }

  lemma FileOpens(size: nat, page2: seq<byte>, m: nat)
    requires 512 <= size <= 65536 && 3 + m <= 0x1_0000_0000 && |page2| == size
    ensures var src := FileOf(size, page2, m);
            IsOpen(src) && Get(src, 2) == Some(page2) && Times(2, size) <= |src.data| && src.data[Times(2, size)..] == ZeroPages(3, m, size)
  {
    hide FirstPage, ZeroPages, Opened;
    var src, rest := FileOf(size, page2, m), ZeroPages(3, m, size);
    FirstPageOpens(size, 0x0d, 0, page2 + rest);
    assert src.data[size..2 * size] == page2 && src.data[2 * size..] == rest;
  }

  // ---- What the scan makes of it -----------------------------------------------------------------

  /** Where the bound matters the code takes its bound's worth of bytes, and the format another number. */
  lemma BoundTaken(src: Source, len: nat)
    requires Usable(src) && !BoundDoesNotMatter(src, len)
    ensures MaxLocal(src) < len && LocalLength(src, len) == MaxLocal(src)
    ensures var n := FormatLocalLength(src, len); n > MaxLocal(src) || n + 4 <= MaxLocal(src)
  {
    hide Spilled, MaxLocal, MinLocal, FormatLocalLength;
    FormatBySpilled(src, len);
    LocalBounds(src);
    LocalLengthIffFormat(src, len);
    if len <= src.pageSize - 35 {
      OnePageSpill(src, len);
    }
  }

  /** The four bytes behind what the code takes are zeros, so it looks for no overflow page. */
  lemma BodyTorn(src: Source, pg: seq<byte>, pos: nat, len: nat, w: nat)
    requires Usable(src) && w <= 8 && !BoundDoesNotMatter(src, len)
    requires pos + src.pageSize - 31 <= |pg|
    requires FormatLocalLength(src, len) + 4 <= |pg| - pos && w + 2 <= FormatLocalLength(src, len)
    requires pg[pos..] == CellBody(src, len, w, |pg| - pos)
    ensures MaxLocal(src) <= |pg| - pos && Needed(src, pg, pos, len) == 0
    ensures Payload(src, pg, pos, len) == pg[pos..][..MaxLocal(src)]
  {
    hide Spilled, MaxLocal, MinLocal, BoundDoesNotMatter, CellBody, LocalLength, FormatLocalLength;
    BoundTaken(src, len);
    LocalBounds(src);
    Room(src, len, w);
    var m := MaxLocal(src);
    forall k | pos + m <= k < pos + m + 4 ensures pg[k] == 0 {
      assert pg[k] == pg[pos..][k - pos];
    }
    assert Be32(pg, pos + m) == 0;
    assert pg[pos..pos + m] == pg[pos..][..m];
  }

  lemma LeafParts(src: Source, len: nat, w: nat, lw: nat)
    requires Usable(src) && w <= 8 && lw <= 8 && !BoundDoesNotMatter(src, len)
    ensures var pg := LeafPage(src, len, w, lw);
            && pg[0] == 0x0d && LeafOffsets(pg, false) == [10]
            && pg[10..12 + lw] == VarintBytes(len, lw) + VarintBytes(1, 0)
            && FormatLocalLength(src, len) + 4 <= src.pageSize - (12 + lw) && w + 2 <= FormatLocalLength(src, len)
            && pg[12 + lw..] == CellBody(src, len, w, src.pageSize - (12 + lw))
  {
    hide CellBody, MaxLocal, MinLocal, BoundDoesNotMatter, FormatLocalLength, VarintBytes;
    Room(src, len, w);
    var pg := LeafPage(src, len, w, lw);
    var head := LeafHead(len, lw);
    assert pg[10..12 + lw] == head[10..];
    assert Be16(pg, 3) == 1 && Be16(pg, 8) == 10;
    assert OffsetsFrom(pg, false, 8, 1) == [];
    assert OffsetsFrom(pg, false, 8, 0) == [10] + OffsetsFrom(pg, false, 8, 1);
  }

  /** The record of len bytes is stored on the page as the format asks. */
  lemma LeafStores(src: Source, len: nat, w: nat, lw: nat)
    requires Usable(src) && w <= 8 && lw <= 8 && !BoundDoesNotMatter(src, len) && BlobFits(len, w)
    requires var n := FormatLocalLength(src, len);
             n <= len && (len > src.pageSize - 35 ==> ChainHolds(src, 3, Zeros(len - n)))
    ensures Stored(src, LeafPage(src, len, w, lw), 12 + lw, RecordHead(len, w) + Zeros(len - (w + 2)))
  {
    hide CellBody, MaxLocal, MinLocal, BoundDoesNotMatter, FormatLocalLength, VarintBytes, LeafPage, RecordHead, ChainHolds, BlobFits;
    Room(src, len, w);
    LeafParts(src, len, w, lw);
    var pg, n, pos := LeafPage(src, len, w, lw), FormatLocalLength(src, len), 12 + lw;
    var record, body := RecordHead(len, w) + Zeros(len - (w + 2)), pg[pos..];
    assert pg[pos..pos + n] == body[..n];
    assert body[..n] == record[..n] by {
      forall k | w + 2 <= k < n ensures body[k] == record[k] == 0 {
      }
      assert body[..w + 2] == record[..w + 2];
      forall k | 0 <= k < w + 2 ensures body[k] == record[k] {
        assert body[k] == body[..w + 2][k];
      }
    }
    assert record[n..] == Zeros(len - n);
    assert forall k :: n <= k < n + 4 ==> pg[pos + k] == body[k];
  }

  lemma SameBounds(a: Source, b: Source, len: nat)
    requires Usable(a) && Usable(b) && a.pageSize == b.pageSize
    ensures MaxLocal(a) == MaxLocal(b) && BoundDoesNotMatter(a, len) == BoundDoesNotMatter(b, len)
    ensures FormatLocalLength(a, len) == FormatLocalLength(b, len)
  {
  }

  lemma SameLeafPage(a: Source, b: Source, len: nat, w: nat, lw: nat)
    requires Usable(a) && Usable(b) && a.pageSize == b.pageSize
    requires w <= 8 && lw <= 8 && !BoundDoesNotMatter(a, len) && !BoundDoesNotMatter(b, len)
    ensures LeafPage(a, len, w, lw) == LeafPage(b, len, w, lw)
  {
    hide MaxLocal, MinLocal, BoundDoesNotMatter, FormatLocalLength, LeafHead, RecordHead;
    SameBounds(a, b, len);
  }

  /** What the code takes of the record is a record with a shorter blob. */
  lemma TornPayload(src: Source, len: nat, w: nat, lw: nat)
    requires Usable(src) && BlobFits(len, w) && lw <= 8 && !BoundDoesNotMatter(src, len)
    ensures var pg, pos := LeafPage(src, len, w, lw), 12 + lw;
            && w + 2 <= MaxLocal(src) < len && pos + MaxLocal(src) <= |pg| && Needed(src, pg, pos, len) == 0
            && RecordOf(Payload(src, pg, pos, len)) == Values([Blob(pg[pos..][w + 2..MaxLocal(src)])])
  {
    hide CellBody, MaxLocal, MinLocal, BoundDoesNotMatter, FormatLocalLength, LeafPage, RecordHead;
    hide Payload, RecordOf, Needed, LeafOffsets, VarintBytes;
    var pg, pos := LeafPage(src, len, w, lw), 12 + lw;
    LeafParts(src, len, w, lw);
    Room(src, len, w);
    LocalBounds(src);
    BodyTorn(src, pg, pos, len, w);
    var torn := pg[pos..][..MaxLocal(src)];
    assert torn[..w + 2] == CellBody(src, len, w, |pg| - pos)[..w + 2] == RecordHead(len, w);
    CutRecord(torn, len, w);
    assert torn[w + 2..] == pg[pos..][w + 2..MaxLocal(src)];
  }

  /** The cell of the leaf page is scanned as that record. */
  lemma TornRow(src: Source, len: nat, w: nat, lw: nat)
    requires Usable(src) && BlobFits(len, w) && WidthFits(len, lw) && lw <= 8 && !BoundDoesNotMatter(src, len)
    ensures var pg := LeafPage(src, len, w, lw);
            && w + 2 <= MaxLocal(src) < len && 12 + lw + MaxLocal(src) <= |pg| && SaneCell(src, pg, 10)
            && CellRow(src, pg, 10) == Some([Blob(pg[12 + lw..][w + 2..MaxLocal(src)])])
  {
    hide CellBody, MaxLocal, BoundDoesNotMatter, FormatLocalLength, VarintBytes, LeafPage, VarintAt, LeafOffsets;
    hide WidthFits, Payload, RecordOf, Needed;
    var pg := LeafPage(src, len, w, lw);
    LeafParts(src, len, w, lw);
    OneByte(1);
    assert 10 + |VarintBytes(len, lw) + VarintBytes(1, 0)| == 12 + lw;
    CellHead(src, pg, 10, len, lw, 1, 0);
    TornPayload(src, len, w, lw);
  }

  lemma OneLeafScan(src: Source, off: nat, row: Row)
    requires Usable(src) && KindOf(src, 2, false).LeafPage?
    requires var pg := Get(src, 2).value;
             LeafOffsets(pg, false) == [off] && off < |pg| && SaneCell(src, pg, off) && CellRow(src, pg, off) == Some(row)
    ensures ScanOf(src, 2, false) == Returned([row], false)
  {
    hide CellRow, SaneCell, LeafOffsets, KindOf, ScanOf;
    var pg, t := Get(src, 2).value, Node(2, []);
    assert [off][1..] == [];
    assert RowsAt(src, pg, [off]) == [row] + RowsAt(src, pg, []);
    assert IsTree(src, t, false);
    var leaves := Leaves(src, t, false);
    assert leaves == [(2, false)] && leaves[1..] == [];
    ScanOfTree(src, t, false);
  }

  /** The leaf page holds a record of len bytes as the format asks. */
  lemma LeafHolds(src: Source, len: nat, w: nat, lw: nat)
    requires Usable(src) && lw <= 8 && !BoundDoesNotMatter(src, len) && BlobFits(len, w) && WidthFits(len, lw)
    requires len > src.pageSize - 35 ==> ChainHolds(src, 3, Zeros(len - FormatLocalLength(src, len)))
    ensures HoldsCell(src, LeafPage(src, len, w, lw), 10, [BlobField(len, w)], 0, lw, 1, 0)
    ensures |Encoded([BlobField(len, w)], 0)| == len
  {
    hide CellBody, MaxLocal, MinLocal, BoundDoesNotMatter, FormatLocalLength, VarintBytes, LeafPage, RecordHead, ChainHolds;
    hide WidthFits, Encoded, Stored, FieldsOk;
    LeafParts(src, len, w, lw);
    BlobRecord(len, w);
    LeafStores(src, len, w, lw);
    OneByte(1);
    assert 10 + |VarintBytes(len, lw) + VarintBytes(1, 0)| == 12 + lw;
  }

  /** The bytes the scan takes for the blob. */
  function Short(src: Source, len: nat, w: nat, lw: nat): seq<byte>
    requires Usable(src) && w <= 8 && lw <= 8 && !BoundDoesNotMatter(src, len)
  {
    var body := LeafPage(src, len, w, lw)[12 + lw..];
    if w + 2 <= MaxLocal(src) <= |body| then body[w + 2..MaxLocal(src)] else []
  }

  lemma ShortIsZeros(src: Source, len: nat, w: nat, lw: nat)
    requires Usable(src) && w <= 8 && lw <= 8 && !BoundDoesNotMatter(src, len) && len <= src.pageSize - 35
    ensures Short(src, len, w, lw) == Zeros(|Short(src, len, w, lw)|)
  {
    hide CellBody, MaxLocal, MinLocal, BoundDoesNotMatter, FormatLocalLength, LeafPage;
    LeafParts(src, len, w, lw);
    Room(src, len, w);
  }

  lemma LeafIsLeaf(src: Source, len: nat, w: nat, lw: nat)
    requires Usable(src) && w <= 8 && lw <= 8 && !BoundDoesNotMatter(src, len)
    requires Get(src, 2) == Some(LeafPage(src, len, w, lw))
    ensures KindOf(src, 2, false).LeafPage?
  {
    hide CellBody, BoundDoesNotMatter, FormatLocalLength, LeafPage, Get;
    LeafParts(src, len, w, lw);
  }

  /** The scan of the leaf page gives one row with a blob that is too short. */
  lemma TornScan(src: Source, len: nat, w: nat, lw: nat)
    requires Usable(src) && lw <= 8 && !BoundDoesNotMatter(src, len) && BlobFits(len, w) && WidthFits(len, lw)
    requires Get(src, 2) == Some(LeafPage(src, len, w, lw))
    ensures var pg, short := LeafPage(src, len, w, lw), Short(src, len, w, lw);
            && KindOf(src, 2, false).LeafPage? && LeafOffsets(pg, false) == [10] && CellRow(src, pg, 10) == Some([Blob(short)])
            && ScanOf(src, 2, false) == Returned([[Blob(short)]], false)
            && w + 2 + |short| == MaxLocal(src) < len
  {
    hide CellBody, MaxLocal, MinLocal, BoundDoesNotMatter, FormatLocalLength, LeafPage, WidthFits, CellRow, SaneCell, ScanOf;
    hide LeafOffsets;
    LeafParts(src, len, w, lw);
    TornRow(src, len, w, lw);
    LeafIsLeaf(src, len, w, lw);
    OneLeafScan(src, 10, [Blob(Short(src, len, w, lw))]);
  }

  /** A file that opens, whose page 2 holds a record of len bytes as the format asks, and whose scan gives
      a row with a blob that is too short. */
  lemma TornFile(size: nat, len: nat, w: nat, lw: nat) returns (src: Source, short: seq<byte>)
    requires Fitting(size, len, w, lw) && !BoundDoesNotMatter(Bare(size), len)
    ensures IsOpen(src) && src.pageSize == size && src.wal == map[] && KindOf(src, 2, false).LeafPage?
    ensures var pg := Get(src, 2).value;
            && LeafOffsets(pg, false) == [10] && |pg| == size
            && HoldsCell(src, pg, 10, [BlobField(len, w)], 0, lw, 1, 0) && |Encoded([BlobField(len, w)], 0)| == len
            && CellRow(src, pg, 10) == Some([Blob(short)])
    ensures ScanOf(src, 2, false) == Returned([[Blob(short)]], false)
    ensures w + 2 + |short| == MaxLocal(src) < len
    ensures len <= size - 35 ==> short == Zeros(|short|)
  {
    hide Fitting, FirstPage, LeafPage, ZeroPages, BoundDoesNotMatter, BlobFits, Numbered, PagesFor, Times, WidthFits, FormatLocalLength, Get, Opened;
    hide MaxLocal, MinLocal, Encoded, HoldsCell, CellRow, LeafOffsets, ChainHolds, ScanOf, KindOf, Short;
    Sizes(size, len, w, lw);
    var page2, m := LeafPage(Bare(size), len, w, lw), PagesFor(size, len);
    src := FileOf(size, page2, m);
    FileOpens(size, page2, m);
    SameBounds(Bare(size), src, len);
    SameLeafPage(Bare(size), src, len, w, lw);
    ZeroChain(src, 3, m, len - FormatLocalLength(src, len));
    LeafHolds(src, len, w, lw);
    TornScan(src, len, w, lw);
    short := Short(src, len, w, lw);
    if len <= size - 35 {
      ShortIsZeros(src, len, w, lw);
    }
  }

  // ---- The exact condition -----------------------------------------------------------------------

  /** A scan of an opened file meets, among the cells of a leaf page, one that holds the record. */
  predicate ScansRecord(src: Source, page: int, first: bool, off: nat, fs: seq<Field>, n: nat, lw: nat, rowId: nat, iw: nat)
  {
    && IsOpen(src) && KindOf(src, page, first).LeafPage?
    && var pg := Get(src, page).value;
    && off in LeafOffsets(pg, first) && HoldsCell(src, pg, off, fs, n, lw, rowId, iw)
  }

  /** In every opened file of a page size, whatever log lies over it, the scan hands on every stored record of
      len bytes as the values it was written from. */
  ghost predicate RowsReadBack(size: nat, len: nat) {
    forall src: Source, page: int, first: bool, off: nat, fs: seq<Field>, n: nat, lw: nat, rowId: nat, iw: nat ::
      ScansRecord(src, page, first, off, fs, n, lw, rowId, iw) && src.pageSize == size && |Encoded(fs, n)| == len ==>
        CellRow(src, Get(src, page).value, off) == Some(ValuesOf(fs))
  }

  /** Records of a length are handed on as written exactly when the code's bound does not matter to it. */
  lemma RowsReadBackIff(src: Source, len: nat)
    requires IsOpen(src) && Numbered(src.pageSize, len)
    ensures RowsReadBack(src.pageSize, len) <==> BoundDoesNotMatter(src, len)
  {
    hide Opened, Numbered, BoundDoesNotMatter, KindOf, LeafOffsets, CellRow, Encoded, FieldsOk, WidthFits, Stored, VarintBytes;
    if BoundDoesNotMatter(src, len) {
      forall s: Source, page: int, first: bool, off: nat, fs: seq<Field>, n: nat, lw: nat, rowId: nat, iw: nat |
        ScansRecord(s, page, first, off, fs, n, lw, rowId, iw) && s.pageSize == src.pageSize && |Encoded(fs, n)| == len
        ensures CellRow(s, Get(s, page).value, off) == Some(ValuesOf(fs))
      {
        SameBounds(src, s, len);
        CellReadBack(s, Get(s, page).value, off, fs, n, lw, rowId, iw);
      }
    } else {
      SameBounds(src, Bare(src.pageSize), len);
      Widest(src, len);
      var torn, short := TornFile(src.pageSize, len, 8, 8);
      var fs := [BlobField(len, 8)];
      assert ScansRecord(torn, 2, false, 10, fs, 0, 8, 1, 0);
      assert ValuesOf(fs) == [fs[0].value] + [];
      assert |Zeros(len - 10)| != |short|;
      assert ValuesOf(fs)[0] != Blob(short);
    }
  }

  /** Varints of nine bytes hold the length and the serial type of every record there are pages for. */
  lemma Widest(src: Source, len: nat)
    requires IsOpen(src) && Numbered(src.pageSize, len) && !BoundDoesNotMatter(src, len)
    ensures Fitting(src.pageSize, len, 8, 8)
  {
    hide WidthFits, BoundDoesNotMatter;
    var size := src.pageSize;
    assert size <= 65536;
    Room(src, len, 8);
    LocalBounds(src);
    LengthBound(size, len);
    WidthExists(12 + 2 * (len - 10));
    WidthExists(len);
  }

  lemma LengthBound(size: nat, len: nat)
    requires 512 <= size <= 65536 && Numbered(size, len)
    ensures len < 0x1_0000_0000 * 65536
  {
    ProductBound(Quotient(len, size - 4) + 1, 0x1_0000_0000, size - 4, 65536);
  }

  lemma ProductBound(a: nat, b: nat, c: nat, d: nat)
    requires a <= b && c <= d
    ensures a * c <= b * d
  {
    assert b * d == a * c + (b - a) * c + b * (d - c);
  }

  /** Pages of 4096 bytes, a record of 2000 bytes with one blob of 1997 zeros, all of it in page 2, and every
      varint as short as it can be: the scan gives a blob of 999. */
  lemma TornExample() returns (src: Source)
    ensures IsOpen(src) && src.pageSize == 4096 && src.wal == map[] && KindOf(src, 2, false).LeafPage?
    ensures HoldsCell(src, Get(src, 2).value, 10, [BlobField(2000, 1)], 0, 1, 1, 0)
    ensures BlobField(2000, 1).value == Blob(Zeros(1997))
    ensures ScanOf(src, 2, false) == Returned([[Blob(Zeros(999))]], false)
  {
    hide HoldsCell, KindOf, ScanOf, IsOpen, LeafOffsets, CellRow, Encoded;
    SevenBits(0);
    assert MaxLocal(Bare(4096)) == 1002;
    var short: seq<byte>;
    src, short := TornFile(4096, 2000, 1, 1);
  }

  // ---- A page that is its own child ----------------------------------------------------------------

  /** Two pages: the root of the schema with page 2 as rightmost child, and page 2 with itself. */
  function OwnChild(): Source {
    Source(FirstPage(512, 0x05, 2) + ([0x05] + Zeros(10) + [0x02] + Zeros(500)), 512, map[])
  }

  lemma RootHasOneChild()
    ensures var src := OwnChild();
            IsOpen(src) && KindOf(src, 1, true).Interior? && Children(Get(src, 1).value, true)[0] == 2
  {
    hide Opened, FirstPage, Be16, Be32, Zeros;
    var one, two := FirstPage(512, 0x05, 2), [0x05] + Zeros(10) + [0x02] + Zeros(500);
    FirstPageOpens(512, 0x05, 2, two);
    assert Get(OwnChild(), 1) == Some(one) by {
      assert OwnChild().data[0..512] == one;
    }
    assert Children(one, true) == [] + [2];
  }

  lemma PageTwoHasItself()
    ensures var src := OwnChild();
            Usable(src) && KindOf(src, 2, false).Interior? && Children(Get(src, 2).value, false)[..1] == [2]
  {
    hide FirstPage, Opened;
    var two := [0x05] + Zeros(10) + [0x02] + Zeros(500);
    assert Get(OwnChild(), 2) == Some(two) by {
      assert OwnChild().data[512..1024] == two;
    }
    assert Children(two, false) == [] + [2];
  }

  /** The file opens, and on it the scan of page 2 recurses for ever, and so does that of the schema. */
  lemma OwnChildNeverReturns()
    ensures IsOpen(OwnChild())
    ensures ScanOf(OwnChild(), 2, false) == NeverReturns && ScanOf(OwnChild(), 1, true) == NeverReturns
  {
    hide IsTree, Fails, Leaves, RowsOf, Opened, KindOf, Children, FirstPage, Get, OwnChild;
    var src := OwnChild();
    RootHasOneChild();
    PageTwoHasItself();
    forall t: Tree | t.page == 2 ensures !IsTree(src, t, false) {
      OwnChildHasNoTree(src, t);
    }
    NoTreeAbove(src, 1, true, 2);
  }

  // ---- A log that leaves a gap -----------------------------------------------------------------------

  /** A log with one frame, for page 3. */
  function GapLog(): (wal: seq<byte>)
    ensures |wal| == 568
  {
    [0x37, 0x7f, 0x06, 0x82, 0, 0, 0, 0, 0, 0, 2, 0] + Zeros(20) + [0, 0, 0, 3] + Zeros(532)
  }

  /** Applied to a file of one page it leaves page 2 unwritten, and the scans of page 2 differ. */
  lemma GapExample()
    ensures var data, wal := FirstPage(512, 0x0d, 0), GapLog();
            var a, b := Overlay(data, 512, wal), PatchedSource(data, 512, wal);
            && IsOpen(a) && IsWal(wal) && WalPageSize(wal, 512) == 512 && !NoGaps(data, 512, wal) && Usable(b)
            && ScanOf(a, 2, false) == Returned([], true) && ScanOf(b, 2, false) == Returned([], false)
  {
    hide ScanOf, Opened, FirstPage, Zeros;
    var data, wal := FirstPage(512, 0x0d, 0), GapLog();
    assert data + [] == data;
    FirstPageOpens(512, 0x0d, 0, []);
    GapFrames();
    assert Gap(data, 512, Frames(wal, 512), 2);
    GapShows(data, 512, wal, 2, false);
  }

  lemma GapFrames()
    ensures var wal := GapLog();
            && IsWal(wal) && WalPageSize(wal, 512) == 512 && |Frames(wal, 512)| == 1
            && Frames(wal, 512)[0].page == 3 && |Frames(wal, 512)[0].data| == 512
  {
    var wal := GapLog();
    assert FramesFrom(wal, 512, 568) == [];
    assert FrameMatches(wal, 32) && Be32(wal, 32) == 3;
  }
}
