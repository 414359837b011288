/** Pages and tables as section 1.6 of the SQLite database file format lays them out, and that a scan reads
    every row of a written table, in order. */
module SqlitePages {
  import opened Bits
  import opened SqliteVarint
  import opened SqliteRecord
  import opened SqliteWal
  import opened SqliteScan
  import opened SqliteTree

  // ---- Pages -------------------------------------------------------------------------------------

  /** x in two bytes, the high one first. */
  predicate PairAt(pg: seq<byte>, pos: nat, x: nat) {
    pos + 2 <= |pg| && x < 0x1_0000 && pg[pos] == x / 0x100 && pg[pos + 1] == x % 0x100
  }

  /** x in four bytes, the high one first. */
  predicate QuadAt(pg: seq<byte>, pos: nat, x: nat) {
    && pos + 4 <= |pg| && x < 0x1_0000_0000
    && pg[pos] == x / 0x100_0000 && pg[pos + 1] == x / 0x1_0000 % 0x100
    && pg[pos + 2] == x / 0x100 % 0x100 && pg[pos + 3] == x % 0x100
  }

  /** The b-tree header starts the page, on page 1 it comes behind the file header of 100 bytes. */
  function HeaderAt(first: bool): nat {
    if first then 100 else 0
  }

  /** The pointers of a page, two bytes each, right behind its header. */
  predicate PointersAt(pg: seq<byte>, base: nat, offs: seq<nat>) {
    base + 2 * |offs| <= |pg| && forall k :: 0 <= k < |offs| ==> PairAt(pg, base + 2 * k, offs[k])
  }

  /** A leaf page with these cells: kind 0x0d, the number of cells at 3, and the pointers behind 8 bytes. */
  predicate LeafLaidOut(pg: seq<byte>, first: bool, offs: seq<nat>) {
    var h := HeaderAt(first);
    |pg| >= 512 && pg[h] == 0x0d && PairAt(pg, h + 3, |offs|) && PointersAt(pg, h + 8, offs)
  }

  /** An interior page: kind 0x05, the rightmost child at 8, the pointers behind 12 bytes, and at each of them
      a cell that starts with its left child. */
  predicate InteriorLaidOut(pg: seq<byte>, first: bool, offs: seq<nat>, children: seq<nat>) {
    var h := HeaderAt(first);
    && |pg| >= 512 && pg[h] == 0x05 && PairAt(pg, h + 3, |offs|) && PointersAt(pg, h + 12, offs)
    && |children| == |offs| + 1 && QuadAt(pg, h + 8, children[|offs|])
    && forall k :: 0 <= k < |offs| ==> QuadAt(pg, offs[k], children[k])
  }

  lemma {:induction false} PointersReadBack(pg: seq<byte>, first: bool, base: nat, offs: seq<nat>, i: nat)
    requires |pg| >= 512 && PairAt(pg, HeaderAt(first) + 3, |offs|) && PointersAt(pg, base, offs) && i <= |offs|
    ensures OffsetsFrom(pg, first, base, i) == offs[i..]
    decreases |offs| - i
  {
    if i < |offs| {
      PointersReadBack(pg, first, base, offs, i + 1);
      assert PairAt(pg, base + 2 * i, offs[i]);
    }
  }

  /** A leaf page has exactly the cells laid out on it, in order. */
  lemma LeafReadBack(pg: seq<byte>, first: bool, offs: seq<nat>)
    requires LeafLaidOut(pg, first, offs)
    ensures LeafOffsets(pg, first) == offs
  {
    PointersReadBack(pg, first, HeaderAt(first) + 8, offs, 0);
  }

  lemma QuadIs(pg: seq<byte>, pos: nat, x: nat)
    requires QuadAt(pg, pos, x)
    ensures Be32(pg, pos) == x
  {
    var high := x / 0x1_0000;
    DivUnique(high, 0x100, x / 0x100_0000, x / 0x1_0000 % 0x100);
    DivUnique(x % 0x1_0000, 0x100, x / 0x100 % 0x100, x % 0x100);
  }

  lemma {:induction false} CellChildren(pg: seq<byte>, offs: seq<nat>, children: seq<nat>)
    requires |children| == |offs| && forall k :: 0 <= k < |offs| ==> QuadAt(pg, offs[k], children[k])
    ensures ChildrenAt(pg, offs) == children
  {
    hide QuadAt, Be32;
    if offs != [] {
      assert QuadAt(pg, offs[0], children[0]);
      QuadIs(pg, offs[0], children[0]);
      QuadInside(pg, offs[0], children[0]);
      CellChildren(pg, offs[1..], children[1..]);
    }
  }

  lemma QuadInside(pg: seq<byte>, pos: nat, x: nat)
    requires QuadAt(pg, pos, x)
    ensures pos + 4 <= |pg|
  {
  }

  /** An interior page has exactly the children laid out on it, the rightmost last. */
  lemma InteriorReadBack(pg: seq<byte>, first: bool, offs: seq<nat>, children: seq<nat>)
    requires InteriorLaidOut(pg, first, offs, children)
    ensures Children(pg, first) == children
  {
    hide QuadAt, Be32, PointersAt, PairAt;
    var n := |offs|;
    QuadIs(pg, HeaderAt(first) + 8, children[n]);
    PointersReadBack(pg, first, HeaderAt(first) + 12, offs, 0);
    CellChildren(pg, offs, children[..n]);
    assert children == children[..n] + [children[n]];
  }

  // ---- Overflow chains -----------------------------------------------------------------------------

  /** The overflow pages, in order, hold the data: each starts with the number of the next, 0 in the last, and what
      follows it is data up to the end of the page. */
  predicate ChainWritten(src: Source, pages: seq<nat>, data: seq<byte>)
    requires Usable(src)
    decreases |pages|
  {
    if pages == [] then data == []
    else
      && data != [] && pages[0] != 0 && Get(src, pages[0]).Some?
      && var pg := Get(src, pages[0]).value;
      && QuadAt(pg, 0, if |pages| == 1 then 0 else pages[1])
      && if |pages| == 1 then |data| + 4 <= |pg| && pg[4..4 + |data|] == data
         else |pg| - 4 < |data| && pg[4..] == data[..|pg| - 4] && ChainWritten(src, pages[1..], data[|pg| - 4..])
  }

  /** A written chain is one the payload is read from, whatever pages it takes. */
  lemma {:induction false} WrittenChainHolds(src: Source, pages: seq<nat>, data: seq<byte>)
    requires Usable(src) && ChainWritten(src, pages, data)
    ensures ChainHolds(src, if pages == [] then 0 else pages[0], data)
    decreases |pages|
  {
    hide Get, QuadAt, Be32;
    if pages != [] {
      PagesAreLarge(src, pages[0]);
      var pg := Get(src, pages[0]).value;
      QuadIs(pg, 0, if |pages| == 1 then 0 else pages[1]);
      if |pages| > 1 {
        WrittenChainHolds(src, pages[1..], data[|pg| - 4..]);
      }
    }
  }

  /** The page holds the payload at pos as the format lays it out, and these are its overflow pages. */
  predicate PayloadWritten(src: Source, pg: seq<byte>, pos: nat, payload: seq<byte>, pages: seq<nat>)
    requires Usable(src)
  {
    var n := FormatLocalLength(src, |payload|);
    && pos + n <= |pg| && pg[pos..pos + n] == payload[..n] && ChainWritten(src, pages, payload[n..])
    && (pages != [] ==> QuadAt(pg, pos + n, pages[0]))
  }

  lemma WrittenIsStored(src: Source, pg: seq<byte>, pos: nat, payload: seq<byte>, pages: seq<nat>)
    requires Usable(src) && PayloadWritten(src, pg, pos, payload, pages)
    ensures Stored(src, pg, pos, payload)
  {
    hide ChainHolds, Get, Be32, QuadAt;
    var n := FormatLocalLength(src, |payload|);
    WrittenChainHolds(src, pages, payload[n..]);
    FormatKeepsLess(src, |payload|);
    assert n == |payload| ==> payload[..n] == payload;
    if pages != [] {
      QuadIs(pg, pos + n, pages[0]);
      QuadInside(pg, pos + n, pages[0]);
    }
  }

  lemma FormatKeepsLess(src: Source, len: nat)
    requires Usable(src)
    ensures FormatLocalLength(src, len) == len <==> len <= src.pageSize - 35
  {
  }

  // ---- Tables ------------------------------------------------------------------------------------

  /** A record, its row id, the widths of the varints around it, and the overflow pages it goes on in. */
  datatype Cell = Cell(fs: seq<Field>, n: nat, lenWidth: nat, rowId: nat, idWidth: nat, overflow: seq<nat>)

  /** The cell lies at off: the length of its record, its row id and the record, which may go on in overflow pages. */
  predicate CellWritten(src: Source, pg: seq<byte>, off: nat, c: Cell)
    requires Usable(src)
  {
    && FieldsOk(c.fs) && WidthFits(HeaderLength(c.fs, c.n), c.n) && HeaderLength(c.fs, c.n) < TOP
    && var record := Encoded(c.fs, c.n);
    && |record| < TOP && WidthFits(|record|, c.lenWidth) && WidthFits(c.rowId, c.idWidth)
    && var head := VarintBytes(|record|, c.lenWidth) + VarintBytes(c.rowId, c.idWidth);
    && off + |head| <= |pg| && pg[off..off + |head|] == head
    && PayloadWritten(src, pg, off + |head|, record, c.overflow)
  }

  /** The cell is written, and the code reads it as it was written. */
  predicate CellAt(src: Source, pg: seq<byte>, off: nat, c: Cell)
    requires Usable(src)
  {
    CellWritten(src, pg, off, c) && BoundDoesNotMatter(src, |Encoded(c.fs, c.n)|) && |Encoded(c.fs, c.n)| <= MAX_ALLOC
  }

  lemma WrittenCellHolds(src: Source, pg: seq<byte>, off: nat, c: Cell)
    requires Usable(src) && CellWritten(src, pg, off, c)
    ensures HoldsCell(src, pg, off, c.fs, c.n, c.lenWidth, c.rowId, c.idWidth)
  {
    hide Stored, PayloadWritten, WidthFits, VarintBytes, FieldsOk, Encoded;
    var head := VarintBytes(|Encoded(c.fs, c.n)|, c.lenWidth) + VarintBytes(c.rowId, c.idWidth);
    WrittenIsStored(src, pg, off + |head|, Encoded(c.fs, c.n), c.overflow);
  }

  predicate CellsAt(src: Source, pg: seq<byte>, offs: seq<nat>, cells: seq<Cell>)
    requires Usable(src)
  {
    |offs| == |cells| && forall k :: 0 <= k < |offs| ==> CellAt(src, pg, offs[k], cells[k])
  }

  function RowsOfCells(cells: seq<Cell>): seq<Row> {
    if cells == [] then [] else [ValuesOf(cells[0].fs)] + RowsOfCells(cells[1..])
  }

  /** A table b-tree, page by page; offs are the places of the cells. */
  datatype Table =
    | Leaf(page: nat, offs: seq<nat>, cells: seq<Cell>)
    | Inner(page: nat, offs: seq<nat>, kids: seq<Table>)

  function Pages(ts: seq<Table>): (ns: seq<nat>)
    ensures |ns| == |ts| && forall i :: 0 <= i < |ts| ==> ns[i] == ts[i].page
  {
    seq(|ts|, i requires 0 <= i < |ts| => ts[i].page)
  }

  /** The table is what these pages hold. */
  predicate Written(src: Source, t: Table, first: bool)
    requires Usable(src)
    decreases t
  {
    Get(src, t.page).Some? &&
    var pg := Get(src, t.page).value;
    match t
    case Leaf(_, offs, cells) => LeafLaidOut(pg, first, offs) && CellsAt(src, pg, offs, cells)
    case Inner(_, offs, kids) =>
      InteriorLaidOut(pg, first, offs, Pages(kids)) && forall i :: 0 <= i < |kids| ==> Written(src, kids[i], false)
  }

  /** The rows of the table, left to right. */
  function AllRows(t: Table): seq<Row>
    decreases t, if t.Inner? then |t.kids| + 1 else 0
  {
    match t
    case Leaf(_, _, cells) => RowsOfCells(cells)
    case Inner(_, _, kids) => RowsFrom(t, 0)
  }

  function RowsFrom(t: Table, i: nat): seq<Row>
    requires t.Inner? && i <= |t.kids|
    decreases t, |t.kids| - i
  {
    if i == |t.kids| then [] else AllRows(t.kids[i]) + RowsFrom(t, i + 1)
  }

  /** A written cell is scanned as its values and does not stop the program. */
  lemma CellScanned(src: Source, pg: seq<byte>, off: nat, c: Cell)
    requires Usable(src) && CellAt(src, pg, off, c)
    ensures off < |pg| && CellRow(src, pg, off) == Some(ValuesOf(c.fs)) && SaneCell(src, pg, off)
  {
    hide WidthFits, FieldsOk, VarintAt, VarintBytes, Encoded, Stored, CellRow, BoundDoesNotMatter, LocalLength, MaxLocal;
    WrittenCellHolds(src, pg, off, c);
    CellReadBack(src, pg, off, c.fs, c.n, c.lenWidth, c.rowId, c.idWidth);
    CellHead(src, pg, off, |Encoded(c.fs, c.n)|, c.lenWidth, c.rowId, c.idWidth);
  }

  lemma {:induction false} CellsScanned(src: Source, pg: seq<byte>, offs: seq<nat>, cells: seq<Cell>)
    requires Usable(src) && CellsAt(src, pg, offs, cells)
    ensures RowsAt(src, pg, offs) == RowsOfCells(cells) && Sane(src, pg, offs)
  {
    hide CellAt, CellRow, SaneCell;
    if offs != [] {
      assert CellAt(src, pg, offs[0], cells[0]);
      CellScanned(src, pg, offs[0], cells[0]);
      forall k | 0 <= k < |offs[1..]| ensures CellAt(src, pg, offs[1..][k], cells[1..][k]) {
        assert CellAt(src, pg, offs[k + 1], cells[k + 1]);
      }
      CellsScanned(src, pg, offs[1..], cells[1..]);
    }
  }

  /** The calls of the scan of a written table. */
  function Calls(t: Table): Tree
    decreases t
  {
    match t
    case Leaf(page, _, _) => Node(page, [])
    case Inner(page, _, kids) => Node(page, seq(|kids|, i requires 0 <= i < |kids| => Calls(kids[i])))
  }

  lemma PageOfCalls(t: Table)
    ensures Calls(t).page == t.page
  {
  }

  lemma LeafScanned(src: Source, t: Table, first: bool)
    requires Usable(src) && Written(src, t, first) && t.Leaf?
    ensures IsTree(src, Calls(t), first) && !Fails(src, Calls(t), first)
    ensures RowsOf(src, Leaves(src, Calls(t), first)) == AllRows(t)
  {
    hide CellAt, RowsAt, Sane, LeafOffsets, CellsAt;
    var pg := Get(src, t.page).value;
    LeafReadBack(pg, first, t.offs);
    CellsScanned(src, pg, t.offs, t.cells);
    PageNumber(src, t.page);
    assert KindOf(src, t.page, first).LeafPage?;
    assert Leaves(src, Calls(t), first) == [(t.page as int, first)];
    assert [(t.page as int, first)][1..] == [];
  }

  lemma PageNumber(src: Source, n: nat)
    requires Get(src, n).Some?
    ensures n >= 1
  {
  }

  /** A scan of a written table calls itself on its pages, ends without an error, and delivers its rows. */
  lemma {:induction false} TableScanned(src: Source, t: Table, first: bool)
    requires Usable(src) && Written(src, t, first)
    ensures IsTree(src, Calls(t), first) && !Fails(src, Calls(t), first)
    ensures RowsOf(src, Leaves(src, Calls(t), first)) == AllRows(t)
    decreases t, if t.Inner? then |t.kids| + 1 else 0, 1
  {
    hide CellAt, RowsAt, Sane, LeafOffsets, CellsAt, Children;
    if t.Leaf? {
      LeafScanned(src, t, first);
    } else {
      InnerScanned(src, t, first);
    }
  }

  lemma InnerPage(src: Source, t: Table, first: bool)
    requires Usable(src) && Written(src, t, first) && t.Inner?
    ensures KindOf(src, t.page, first).Interior? && Children(Get(src, t.page).value, first) == Pages(t.kids)
    ensures |t.kids| > 0 && forall i :: 0 <= i < |t.kids| ==> Written(src, t.kids[i], false)
  {
    hide Children;
    InteriorReadBack(Get(src, t.page).value, first, t.offs, Pages(t.kids));
    PageNumber(src, t.page);
  }

  lemma InnerScanned(src: Source, t: Table, first: bool)
    requires Usable(src) && Written(src, t, first) && t.Inner?
    ensures IsTree(src, Calls(t), first) && !Fails(src, Calls(t), first)
    ensures RowsOf(src, Leaves(src, Calls(t), first)) == AllRows(t)
    decreases t, |t.kids| + 1, 0
  {
    hide Written, KindOf, Children, RowsOf, Fails;
    InnerPage(src, t, first);
    KidsFine(src, t);
    KidsScanned(src, t, 0);
    InnerFails(src, t, first);
  }

  lemma InnerFails(src: Source, t: Table, first: bool)
    requires Usable(src) && t.Inner? && KindOf(src, t.page, first).Interior? && |t.kids| > 0
    requires !Fails(src, Calls(t.kids[|t.kids| - 1]), false)
    ensures !Fails(src, Calls(t), first)
  {
    hide KindOf;
  }

  lemma KidsFine(src: Source, t: Table)
    requires Usable(src) && t.Inner? && forall k :: 0 <= k < |t.kids| ==> Written(src, t.kids[k], false)
    ensures |Calls(t).kids| == |t.kids| && Calls(t).page == t.page
    ensures forall i :: 0 <= i < |t.kids| ==> Calls(t).kids[i] == Calls(t.kids[i]) && Calls(t.kids[i]).page == t.kids[i].page
    ensures forall i :: 0 <= i < |t.kids| ==> IsTree(src, Calls(t.kids[i]), false) && !Fails(src, Calls(t.kids[i]), false)
    decreases t, |t.kids|, 1
  {
    hide Written, IsTree, Fails;
    forall i | 0 <= i < |t.kids|
      ensures IsTree(src, Calls(t.kids[i]), false) && !Fails(src, Calls(t.kids[i]), false)
      ensures Calls(t.kids[i]).page == t.kids[i].page
    {
      TableScanned(src, t.kids[i], false);
      PageOfCalls(t.kids[i]);
    }
  }

  lemma {:induction false} KidsScanned(src: Source, t: Table, i: nat)
    requires Usable(src) && t.Inner? && i <= |t.kids| && forall k :: 0 <= k < |t.kids| ==> Written(src, t.kids[k], false)
    ensures |Calls(t).kids| == |t.kids| && RowsOf(src, LeavesFrom(src, Calls(t), i)) == RowsFrom(t, i)
    decreases t, |t.kids| - i, 0
  {
    hide Written, Leaves, IsTree, Fails;
    if i < |t.kids| {
      TableScanned(src, t.kids[i], false);
      KidsScanned(src, t, i + 1);
      RowsOfConcat(src, Leaves(src, Calls(t.kids[i]), false), LeavesFrom(src, Calls(t), i + 1));
    }
  }

  /** The scan of a written table returns, without an error, and delivers exactly its rows, in order. */
  lemma TableReadBack(src: Source, t: Table, first: bool)
    requires Usable(src) && Written(src, t, first)
    ensures ScanOf(src, t.page, first) == Returned(AllRows(t), false)
  {
    hide IsTree, Fails, Leaves, RowsOf, ScanOf, Written, AllRows;
    TableScanned(src, t, first);
    PageOfCalls(t);
    ScanOfTree(src, Calls(t), first);
  }
}
