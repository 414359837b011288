/** Walking a SQLite table b-tree through the write-ahead-log overlay. */
module SqliteScan {
  import opened Bits
  import opened SqliteVarint
  import opened SqliteRecord
  import opened SqliteWal

  type Row = seq<Value>

  /** A database file and the overlay over it. */
  datatype Source = Source(data: seq<byte>, pageSize: nat, wal: Pages)

  function Get(src: Source, n: int): Option<seq<byte>> {
    PageOf(src.data, src.pageSize, src.wal, n)
  }

  /** Opening refuses page sizes below 512, and the overlay takes no smaller page either. */
  predicate Usable(src: Source) {
    src.pageSize >= 512 && forall n :: n in src.wal ==> |src.wal[n]| >= 512
  }

  lemma PagesAreLarge(src: Source, n: int)
    requires Usable(src)
    ensures Get(src, n).Some? ==> n >= 1 && |Get(src, n).value| >= 512
  {
  }

  function Be16(b: seq<byte>, pos: nat): nat
    requires pos + 1 < |b|
  {
    0x100 * b[pos] as nat + b[pos + 1] as nat
  }

  // ---- Cells -----------------------------------------------------------------------------------

  function MaxLocal(src: Source): int {
    (src.pageSize as int - 12) * 64 / 255 - 23
  }

  function MinLocal(src: Source): int {
    (src.pageSize as int - 12) * 32 / 255 - 23
  }

  /** need bytes from the chain of overflow pages; None when the chain names a page that is not there. */
  function Overflow(src: Source, page: nat, need: nat): (res: Option<seq<byte>>)
    requires Usable(src)
    decreases need
  {
    PagesAreLarge(src, page);
    if page == 0 || need == 0 then Some([])
    else if Get(src, page).None? then None
    else
      var pg := Get(src, page).value;
      if |pg| - 4 >= need then Some(pg[4..4 + need])
      else
        var rest := Overflow(src, Be32(pg, 0), need - (|pg| - 4));
        if rest.None? then None else Some(pg[4..] + rest.value)
  }

  /** Of a payload that spills, the bytes that leave whole overflow pages behind. */
  function Spilled(src: Source, len: nat): int
    requires Usable(src)
  {
    MinLocal(src) + (len - MinLocal(src)) % (src.pageSize - 4)
  }

  /** How many of a payload's bytes the code takes from the page itself. */
  function LocalLength(src: Source, len: nat): (n: nat)
    requires Usable(src)
    ensures n <= len
  {
    if len <= MaxLocal(src) then len else if Spilled(src, len) > MaxLocal(src) then MaxLocal(src) else Spilled(src, len)
  }

  /** How many the format keeps in a table leaf page (section 1.6 of the SQLite database file format). */
  function FormatLocalLength(src: Source, len: nat): (n: nat)
    requires Usable(src)
    ensures n <= len
  {
    var u: int := src.pageSize;
    var x, m := u - 35, (u - 12) * 32 / 255 - 23;
    var k := m + (len - m) % (u - 4);
    assert 0 <= m < x;
    if len <= x then len else if k <= x then k else m
  }

  /** The payload is short enough for either bound, or spills under both and keeps no more than the smaller. */
  predicate BoundDoesNotMatter(src: Source, len: nat)
    requires Usable(src)
  {
    len <= MaxLocal(src) || (len > src.pageSize - 35 && Spilled(src, len) <= MaxLocal(src))
  }

  /** The code applies the bound of index pages to table leaves, so the two agree exactly on payloads
      below that bound and on those that spill and keep no more than it. */
  lemma LocalLengthIffFormat(src: Source, len: nat)
    requires Usable(src)
    ensures LocalLength(src, len) == FormatLocalLength(src, len) <==> BoundDoesNotMatter(src, len)
  {
    hide Spilled, MaxLocal, MinLocal, FormatLocalLength;
    LocalBounds(src);
    FormatBySpilled(src, len);
    if MaxLocal(src) < len <= src.pageSize - 35 {
      OnePageSpill(src, len);
    }
  }

  lemma FormatBySpilled(src: Source, len: nat)
    requires Usable(src)
    ensures FormatLocalLength(src, len) ==
            if len <= src.pageSize - 35 then len else if Spilled(src, len) <= src.pageSize - 35 then Spilled(src, len) else MinLocal(src)
  {
  }

  lemma LocalBounds(src: Source)
    requires Usable(src)
    ensures 0 <= MinLocal(src) && MinLocal(src) + 4 <= MaxLocal(src) < src.pageSize - 35
  {
  }

  lemma OnePageSpill(src: Source, len: nat)
    requires Usable(src) && MinLocal(src) <= len < src.pageSize - 4
    ensures Spilled(src, len) == len
  {
    hide MinLocal;
    LocalBounds(src);
    SmallMod(len - MinLocal(src), src.pageSize - 4);
  }

  /** The payload of len bytes that starts at pos, cut at the page's end, with what overflow pages add. */
  function Payload(src: Source, pg: seq<byte>, pos: nat, len: nat): seq<byte>
    requires Usable(src) && pos <= |pg|
  {
    var end := if pos + LocalLength(src, len) > |pg| then |pg| else pos + LocalLength(src, len);
    if len <= MaxLocal(src) || end + 4 > |pg| || Be32(pg, end) == 0 then pg[pos..end]
    else
      var extra := Overflow(src, Be32(pg, end), len - (end - pos));
      if extra.None? then pg[pos..end] else pg[pos..end] + extra.value
  }

  /** Go refuses to make a slice of more bytes than its address space holds, and stops the program. */
  const MAX_ALLOC: nat := 0x1_0000_0000_0000

  /** How many bytes the code asks the overflow chain for; 0 when it does not read the chain. */
  function Needed(src: Source, pg: seq<byte>, pos: nat, len: nat): nat
    requires Usable(src) && pos <= |pg|
  {
    var end := if pos + LocalLength(src, len) > |pg| then |pg| else pos + LocalLength(src, len);
    if len <= MaxLocal(src) || end + 4 > |pg| || Be32(pg, end) == 0 then 0 else len - (end - pos)
  }

  /** The row of the cell at off; None for a cell the scan skips. */
  function CellRow(src: Source, pg: seq<byte>, off: nat): Option<Row>
    requires Usable(src)
  {
    var (len, n) := VarintAt(pg, off);
    if n == 0 then None
    else
      var k := VarintAt(pg, off + n).1;
      if k == 0 || len < 0 then None
      else
        var record := RecordOf(Payload(src, pg, off + n + k, len));
        if record.BadHeader? then None else Some(record.vals)
  }

  /** The chain of overflow pages that starts at `page` holds the data. */
  predicate ChainHolds(src: Source, page: nat, data: seq<byte>)
    requires Usable(src)
    decreases |data|
  {
    PagesAreLarge(src, page);
    data == [] || (page != 0 && Get(src, page).Some? &&
                   var pg := Get(src, page).value;
                   if |pg| - 4 >= |data| then pg[4..4 + |data|] == data
                   else pg[4..] == data[..|pg| - 4] && ChainHolds(src, Be32(pg, 0), data[|pg| - 4..]))
  }

  lemma {:induction false} ChainReadBack(src: Source, page: nat, data: seq<byte>)
    requires Usable(src) && ChainHolds(src, page, data)
    ensures Overflow(src, page, |data|) == Some(data)
    decreases |data|
  {
    hide Get, Be32;
    if data != [] {
      PagesAreLarge(src, page);
      var pg := Get(src, page).value;
      if |pg| - 4 < |data| {
        ChainReadBack(src, Be32(pg, 0), data[|pg| - 4..]);
        assert pg[4..] + data[|pg| - 4..] == data;
      }
    }
  }

  /** The page holds the payload at pos as the format lays it out: all of it, or as many bytes as the format
      keeps and behind them the number of the first overflow page. */
  predicate Stored(src: Source, pg: seq<byte>, pos: nat, payload: seq<byte>)
    requires Usable(src)
  {
    var n := FormatLocalLength(src, |payload|);
    if |payload| <= src.pageSize - 35 then pos + n <= |pg| && pg[pos..pos + n] == payload
    else
      && pos + n + 4 <= |pg| && pg[pos..pos + n] == payload[..n]
      && Be32(pg, pos + n) != 0 && ChainHolds(src, Be32(pg, pos + n), payload[n..])
  }

  lemma PayloadReadBack(src: Source, pg: seq<byte>, pos: nat, payload: seq<byte>)
    requires Usable(src) && Stored(src, pg, pos, payload) && BoundDoesNotMatter(src, |payload|)
    ensures pos <= |pg| && Payload(src, pg, pos, |payload|) == payload
  {
    hide Get, Be32, MaxLocal, MinLocal, Spilled, ChainHolds, Overflow;
    LocalBounds(src);
    LocalLengthIffFormat(src, |payload|);
    var n := LocalLength(src, |payload|);
    if |payload| > src.pageSize - 35 {
      ChainReadBack(src, Be32(pg, pos + n), payload[n..]);
      assert payload[..n] + payload[n..] == payload;
    }
  }

  /** The cell at off is a record with its length and row id in front, laid out as the format asks; n, lenWidth
      and idWidth are the widths of the varints. */
  predicate HoldsCell(src: Source, pg: seq<byte>, off: nat, fs: seq<Field>, n: nat, lenWidth: nat, rowId: nat, idWidth: nat)
    requires Usable(src)
  {
    && FieldsOk(fs) && WidthFits(HeaderLength(fs, n), n) && HeaderLength(fs, n) < TOP
    && var len := |Encoded(fs, n)|;
    && len < TOP && WidthFits(len, lenWidth) && WidthFits(rowId, idWidth)
    && var head := VarintBytes(len, lenWidth) + VarintBytes(rowId, idWidth);
    && off + |head| <= |pg| && pg[off..off + |head|] == head
    && Stored(src, pg, off + |head|, Encoded(fs, n))
  }

  /** The length and the row id are read, and the payload starts behind them. */
  lemma CellHead(src: Source, pg: seq<byte>, off: nat, len: nat, lenWidth: nat, rowId: nat, idWidth: nat)
    requires Usable(src) && len < TOP && WidthFits(len, lenWidth) && WidthFits(rowId, idWidth)
    requires var head := VarintBytes(len, lenWidth) + VarintBytes(rowId, idWidth);
             off + |head| <= |pg| && pg[off..off + |head|] == head
    ensures VarintAt(pg, off) == (len, lenWidth + 1)
    ensures VarintAt(pg, off + lenWidth + 1).1 == idWidth + 1
  {
    hide WidthFits, VarintAt, VarintBytes;
    var a, b := VarintBytes(len, lenWidth), VarintBytes(rowId, idWidth);
    var mid := off + |a|;
    assert pg[off..mid] == pg[off..off + |a + b|][..|a|] == a;
    assert pg[mid..mid + |b|] == pg[off..off + |a + b|][|a|..] == b;
    VarintRoundTrip(pg, off, len, lenWidth);
    VarintRoundTrip(pg, mid, rowId, idWidth);
  }

  /** A cell is scanned as the values of the record it holds when the bound does not matter to its length. */
  lemma CellReadBack(src: Source, pg: seq<byte>, off: nat, fs: seq<Field>, n: nat, lenWidth: nat, rowId: nat, idWidth: nat)
    requires Usable(src) && HoldsCell(src, pg, off, fs, n, lenWidth, rowId, idWidth)
    requires BoundDoesNotMatter(src, |Encoded(fs, n)|)
    ensures CellRow(src, pg, off) == Some(ValuesOf(fs))
  {
    hide WidthFits, FieldsOk, VarintAt, VarintBytes, Encoded, Stored, Payload, RecordOf, BoundDoesNotMatter;
    var record := Encoded(fs, n);
    CellHead(src, pg, off, |record|, lenWidth, rowId, idWidth);
    PayloadReadBack(src, pg, off + lenWidth + 1 + idWidth + 1, record);
    RecordRoundTrip(fs, n, []);
    assert record + [] == record;
  }

  // ---- Pages -----------------------------------------------------------------------------------

  datatype Kind = Nothing | Missing | LeafPage | Interior

  /** The b-tree header of page 1 comes after the file header. */
  function Header(first: bool): nat {
    if first then 100 else 0
  }

  /** What the scan takes a page number for. */
  function KindOf(src: Source, n: int, first: bool): (k: Kind)
    requires Usable(src)
    ensures k.LeafPage? || k.Interior? ==> Get(src, n).Some? && |Get(src, n).value| >= 512
  {
    PagesAreLarge(src, n);
    if n <= 0 then Nothing
    else if Get(src, n).None? then Missing
    else
      var pg := Get(src, n).value;
      if pg[Header(first)] == 0x0d then LeafPage else if pg[Header(first)] == 0x05 then Interior else Nothing
  }

  /** The offsets of the cells from the i-th on, while their pointers lie in the page; base is where
      the pointers start. */
  function OffsetsFrom(pg: seq<byte>, first: bool, base: nat, i: nat): (offs: seq<nat>)
    requires |pg| >= 512
    decreases |pg| - i
  {
    if i >= Be16(pg, Header(first) + 3) || base + 2 * i + 2 > |pg| then []
    else [Be16(pg, base + 2 * i)] + OffsetsFrom(pg, first, base, i + 1)
  }

  function LeafOffsets(pg: seq<byte>, first: bool): seq<nat>
    requires |pg| >= 512
  {
    OffsetsFrom(pg, first, Header(first) + 8, 0)
  }

  function RowsAt(src: Source, pg: seq<byte>, offs: seq<nat>): seq<Row>
    requires Usable(src)
  {
    if offs == [] then []
    else
      var rest := RowsAt(src, pg, offs[1..]);
      if offs[0] >= |pg| || CellRow(src, pg, offs[0]).None? then rest else [CellRow(src, pg, offs[0]).value] + rest
  }

  function LeafRows(src: Source, pg: seq<byte>, first: bool): seq<Row>
    requires Usable(src) && |pg| >= 512
  {
    RowsAt(src, pg, LeafOffsets(pg, first))
  }

  /** The cell does not state a payload length that stops the program: a negative one, which cannot be sliced
      by, or one that asks for more overflow than can be allocated. */
  predicate SaneCell(src: Source, pg: seq<byte>, off: nat)
    requires Usable(src)
  {
    var (len, n) := VarintAt(pg, off);
    n == 0 || VarintAt(pg, off + n).1 == 0 ||
    (len >= 0 && Needed(src, pg, off + n + VarintAt(pg, off + n).1, len) <= MAX_ALLOC)
  }

  predicate Sane(src: Source, pg: seq<byte>, offs: seq<nat>)
    requires Usable(src)
  {
    forall o :: o in offs && o < |pg| ==> SaneCell(src, pg, o)
  }

  function ChildrenAt(pg: seq<byte>, offs: seq<nat>): seq<nat> {
    if offs == [] then []
    else if offs[0] + 4 > |pg| then ChildrenAt(pg, offs[1..])
    else [Be32(pg, offs[0])] + ChildrenAt(pg, offs[1..])
  }

  /** The left child of every cell in order, then the rightmost child. */
  function Children(pg: seq<byte>, first: bool): seq<nat>
    requires |pg| >= 512
  {
    ChildrenAt(pg, OffsetsFrom(pg, first, Header(first) + 12, 0)) + [Be32(pg, Header(first) + 8)]
  }

  // ---- Trees of pages --------------------------------------------------------------------------

  /** The calls of a scan that returns: one node for each page number it is called on. */
  datatype Tree = Node(page: int, kids: seq<Tree>)

  /** The scan of the node ends in an error: a page that is not there stops everything above it. */
  predicate Fails(src: Source, t: Tree, first: bool)
    requires Usable(src)
    decreases t
  {
    || KindOf(src, t.page, first).Missing?
    || (t.kids != [] && Fails(src, t.kids[|t.kids| - 1], false))
  }

  /** t is what the scan calls: an interior page has a kid for every child, in order, up to one that fails. */
  predicate IsTree(src: Source, t: Tree, first: bool)
    requires Usable(src)
    decreases t
  {
    if !KindOf(src, t.page, first).Interior? then
      t.kids == [] && (KindOf(src, t.page, first).LeafPage? ==>
                         var pg := Get(src, t.page).value; Sane(src, pg, LeafOffsets(pg, first)))
    else
      var cs := Children(Get(src, t.page).value, first);
      && 0 < |t.kids| <= |cs|
      && (forall i :: 0 <= i < |t.kids| ==> t.kids[i].page == cs[i] && IsTree(src, t.kids[i], false))
      && (forall i :: 0 <= i < |t.kids| - 1 ==> !Fails(src, t.kids[i], false))
      && (|t.kids| < |cs| ==> Fails(src, t.kids[|t.kids| - 1], false))
  }

  /** The leaf pages, left to right. */
  function Leaves(src: Source, t: Tree, first: bool): seq<(int, bool)>
    requires Usable(src)
    decreases t, |t.kids| + 1
  {
    if KindOf(src, t.page, first).LeafPage? then [(t.page, first)] else LeavesFrom(src, t, 0)
  }

  function LeavesFrom(src: Source, t: Tree, i: nat): seq<(int, bool)>
    requires Usable(src) && i <= |t.kids|
    decreases t, |t.kids| - i
  {
    if i == |t.kids| then [] else Leaves(src, t.kids[i], false) + LeavesFrom(src, t, i + 1)
  }

  /** The rows of a list of leaf pages, page by page. */
  function RowsOf(src: Source, leaves: seq<(int, bool)>): seq<Row>
    requires Usable(src)
  {
    if leaves == [] then []
    else
      var (n, first) := leaves[0];
      (if KindOf(src, n, first).LeafPage? then LeafRows(src, Get(src, n).value, first) else []) + RowsOf(src, leaves[1..])
  }

  lemma {:induction false} RowsOfConcat(src: Source, a: seq<(int, bool)>, b: seq<(int, bool)>)
    requires Usable(src)
    ensures RowsOf(src, a + b) == RowsOf(src, a) + RowsOf(src, b)
  {
    hide LeafRows, KindOf;
    if a == [] {
      assert a + b == b;
    } else {
      assert (a + b)[1..] == a[1..] + b;
      RowsOfConcat(src, a[1..], b);
    }
  }

  lemma KidsAreTrees(src: Source, t: Tree, first: bool, i: nat)
    requires Usable(src) && IsTree(src, t, first) && i < |t.kids|
    ensures IsTree(src, t.kids[i], false) && KindOf(src, t.page, first).Interior?
    ensures Children(Get(src, t.page).value, first)[..i + 1][i] == t.kids[i].page
    ensures Fails(src, t.kids[i], false) <==> Fails(src, t, first) && i == |t.kids| - 1
  {
    hide Children;
  }

  // ---- Every leaf under the root is visited ----------------------------------------------------

  /** Each page is a child of the one before it. */
  predicate Linked(src: Source, ps: seq<int>, first: bool)
    requires Usable(src)
  {
    |ps| > 1 ==>
      && KindOf(src, ps[0], first).Interior?
      && ps[1] in Children(Get(src, ps[0]).value, first)
      && Linked(src, ps[1..], false)
  }

  /** A scan that does not fail gets to the end of every path of child links. */
  lemma {:induction false} Descend(src: Source, t: Tree, first: bool, ps: seq<int>) returns (sub: Tree)
    requires Usable(src) && IsTree(src, t, first) && !Fails(src, t, first)
    requires ps != [] && ps[0] == t.page && Linked(src, ps, first)
    ensures IsTree(src, sub, first && |ps| == 1) && !Fails(src, sub, first && |ps| == 1) && sub.page == ps[|ps| - 1]
    ensures if |ps| == 1 then sub == t else sub < t
    ensures forall x :: x in Leaves(src, sub, first && |ps| == 1) ==> x in Leaves(src, t, first)
    decreases |ps|
  {
    hide Children, KindOf, IsTree, Fails;
    if |ps| == 1 {
      return t;
    }
    var cs := Children(Get(src, t.page).value, first);
    var i := KidOf(src, t, first, ps[1]);
    KidsAreTrees(src, t, first, i);
    var kid := t.kids[i];
    assert kid < t;
    sub := Descend(src, kid, false, ps[1..]);
    assert sub == kid || sub < kid;
    LeavesOfKid(src, t, i, 0);
  }

  lemma KidOf(src: Source, t: Tree, first: bool, page: int) returns (i: nat)
    requires Usable(src) && IsTree(src, t, first) && !Fails(src, t, first) && KindOf(src, t.page, first).Interior?
    requires page in Children(Get(src, t.page).value, first)
    ensures i < |t.kids| && t.kids[i].page == page && !Fails(src, t.kids[i], false)
  {
    hide Children;
    var cs := Children(Get(src, t.page).value, first);
    i :| i < |cs| && cs[i] == page;
  }

  lemma {:induction false} LeavesOfKid(src: Source, t: Tree, i: nat, from: nat)
    requires Usable(src) && from <= i < |t.kids|
    ensures forall x :: x in Leaves(src, t.kids[i], false) ==> x in LeavesFrom(src, t, from)
    decreases i - from
  {
    hide Leaves;
    if from < i {
      LeavesOfKid(src, t, i, from + 1);
    }
  }

  /** Every leaf page that child links lead to from the root is visited. */
  lemma ReachedLeavesAreVisited(src: Source, t: Tree, first: bool, ps: seq<int>)
    requires Usable(src) && IsTree(src, t, first) && !Fails(src, t, first)
    requires ps != [] && ps[0] == t.page && Linked(src, ps, first)
    requires KindOf(src, ps[|ps| - 1], first && |ps| == 1).LeafPage?
    ensures (ps[|ps| - 1], first && |ps| == 1) in Leaves(src, t, first)
  {
    hide IsTree, Fails, KindOf, Linked;
    var sub := Descend(src, t, first, ps);
  }

  /** From a page that child links lead back to, the scan can only end in an error. */
  lemma {:induction false} CycleFails(src: Source, t: Tree, ps: seq<int>)
    requires Usable(src) && IsTree(src, t, false)
    requires |ps| > 1 && ps[0] == t.page == ps[|ps| - 1] && Linked(src, ps, false)
    ensures Fails(src, t, false)
    decreases t
  {
    hide IsTree, KindOf, Linked, Fails;
    if !Fails(src, t, false) {
      var sub := Descend(src, t, false, ps);
      CycleFails(src, sub, ps);
    }
  }

  // ---- On a tree-shaped graph every leaf is visited once ---------------------------------------

  function Calls(t: Tree, n: int): nat
    decreases t, |t.kids| + 1
  {
    (if t.page == n then 1 else 0) + CallsFrom(t, n, 0)
  }

  /** How often the kids from the i-th on are called on page n. */
  function CallsFrom(t: Tree, n: int, i: nat): nat
    requires i <= |t.kids|
    decreases t, |t.kids| - i
  {
    if i == |t.kids| then 0 else Calls(t.kids[i], n) + CallsFrom(t, n, i + 1)
  }

  function Visits(leaves: seq<(int, bool)>, n: int): nat {
    if leaves == [] then 0 else (if leaves[0].0 == n then 1 else 0) + Visits(leaves[1..], n)
  }

  lemma {:induction false} VisitsConcat(a: seq<(int, bool)>, b: seq<(int, bool)>, n: int)
    ensures Visits(a + b, n) == Visits(a, n) + Visits(b, n)
  {
    if a == [] {
      assert a + b == b;
    } else {
      assert (a + b)[1..] == a[1..] + b;
      VisitsConcat(a[1..], b, n);
    }
  }

  /** A leaf page is visited no more often than the scan is called on it: once where no page is shared. */
  lemma {:induction false} VisitedPerCall(src: Source, t: Tree, first: bool, n: int)
    requires Usable(src)
    ensures Visits(Leaves(src, t, first), n) <= Calls(t, n)
    decreases t, |t.kids| + 1
  {
    hide KindOf;
    VisitedPerCallFrom(src, t, n, 0);
    if KindOf(src, t.page, first).LeafPage? {
      assert [(t.page, first)][1..] == [];
    }
  }

  lemma {:induction false} VisitedPerCallFrom(src: Source, t: Tree, n: int, i: nat)
    requires Usable(src) && i <= |t.kids|
    ensures Visits(LeavesFrom(src, t, i), n) <= CallsFrom(t, n, i)
    decreases t, |t.kids| - i
  {
    hide Leaves, Calls;
    if i < |t.kids| {
      VisitedPerCall(src, t.kids[i], false, n);
      VisitedPerCallFrom(src, t, n, i + 1);
      VisitsConcat(Leaves(src, t.kids[i], false), LeavesFrom(src, t, i + 1), n);
    }
  }

  // ---- Sources that serve the same pages -------------------------------------------------------

  ghost predicate SamePages(a: Source, b: Source) {
    a.pageSize == b.pageSize && forall n: int :: Get(a, n) == Get(b, n)
  }

  lemma {:induction false} SameOverflow(a: Source, b: Source, page: nat, need: nat)
    requires Usable(a) && Usable(b) && SamePages(a, b)
    ensures Overflow(a, page, need) == Overflow(b, page, need)
    decreases need
  {
    hide Get, Be32;
    PagesAreLarge(a, page);
    if page != 0 && need != 0 && Get(a, page).Some? && |Get(a, page).value| - 4 < need {
      var pg := Get(a, page).value;
      SameOverflow(a, b, Be32(pg, 0), need - (|pg| - 4));
    }
  }

  lemma SameCell(a: Source, b: Source, pg: seq<byte>, off: nat)
    requires Usable(a) && Usable(b) && SamePages(a, b)
    ensures CellRow(a, pg, off) == CellRow(b, pg, off)
  {
    hide Get, Be32, Overflow, RecordOf, VarintAt, SamePages;
    assert a.pageSize == b.pageSize by { SameSize(a, b); }
    forall page: nat, need: nat ensures Overflow(a, page, need) == Overflow(b, page, need) {
      SameOverflow(a, b, page, need);
    }
  }

  lemma SameSize(a: Source, b: Source)
    requires SamePages(a, b)
    ensures a.pageSize == b.pageSize
  {
  }

  lemma {:induction false} SameRowsAt(a: Source, b: Source, pg: seq<byte>, offs: seq<nat>)
    requires Usable(a) && Usable(b) && SamePages(a, b)
    ensures RowsAt(a, pg, offs) == RowsAt(b, pg, offs)
  {
    hide CellRow;
    if offs != [] {
      SameCell(a, b, pg, offs[0]);
      SameRowsAt(a, b, pg, offs[1..]);
    }
  }

  lemma {:induction false} SameRowsOf(a: Source, b: Source, leaves: seq<(int, bool)>)
    requires Usable(a) && Usable(b) && SamePages(a, b)
    ensures RowsOf(a, leaves) == RowsOf(b, leaves)
  {
    hide RowsAt, LeafOffsets, Get;
    if leaves != [] {
      var (n, first) := leaves[0];
      assert KindOf(a, n, first) == KindOf(b, n, first);
      if KindOf(a, n, first).LeafPage? {
        SameRowsAt(a, b, Get(a, n).value, LeafOffsets(Get(a, n).value, first));
      }
      SameRowsOf(a, b, leaves[1..]);
    }
  }

  lemma {:induction false} SameFails(a: Source, b: Source, t: Tree, first: bool)
    requires Usable(a) && Usable(b) && SamePages(a, b)
    ensures Fails(a, t, first) == Fails(b, t, first)
    decreases t
  {
    hide Get;
    assert KindOf(a, t.page, first) == KindOf(b, t.page, first);
    if t.kids != [] {
      SameFails(a, b, t.kids[|t.kids| - 1], false);
    }
  }

  lemma SameSane(a: Source, b: Source, pg: seq<byte>, offs: seq<nat>)
    requires Usable(a) && Usable(b) && SamePages(a, b)
    ensures Sane(a, pg, offs) == Sane(b, pg, offs)
  {
    hide Get, VarintAt, Be32;
  }

  lemma {:induction false} SameTree(a: Source, b: Source, t: Tree, first: bool)
    requires Usable(a) && Usable(b) && SamePages(a, b) && IsTree(a, t, first)
    ensures IsTree(b, t, first)
    decreases t
  {
    hide Get, Fails, Children, Sane, LeafOffsets;
    assert KindOf(a, t.page, first) == KindOf(b, t.page, first) && Get(a, t.page) == Get(b, t.page);
    if KindOf(a, t.page, first).LeafPage? {
      var pg := Get(a, t.page).value;
      SameSane(a, b, pg, LeafOffsets(pg, first));
    }
    forall i | 0 <= i < |t.kids|
      ensures IsTree(a, t.kids[i], false) ==> IsTree(b, t.kids[i], false)
      ensures Fails(a, t.kids[i], false) == Fails(b, t.kids[i], false)
    {
      SameFails(a, b, t.kids[i], false);
      if IsTree(a, t.kids[i], false) {
        SameTree(a, b, t.kids[i], false);
      }
    }
  }

  lemma {:induction false} SameLeaves(a: Source, b: Source, t: Tree, first: bool)
    requires Usable(a) && Usable(b) && SamePages(a, b)
    ensures Leaves(a, t, first) == Leaves(b, t, first)
    decreases t, |t.kids| + 1
  {
    hide Get;
    assert KindOf(a, t.page, first) == KindOf(b, t.page, first);
    SameLeavesFrom(a, b, t, 0);
  }

  lemma {:induction false} SameLeavesFrom(a: Source, b: Source, t: Tree, i: nat)
    requires Usable(a) && Usable(b) && SamePages(a, b) && i <= |t.kids|
    ensures LeavesFrom(a, t, i) == LeavesFrom(b, t, i)
    decreases t, |t.kids| - i
  {
    hide Leaves, SamePages, Usable;
    if i < |t.kids| {
      SameLeaves(a, b, t.kids[i], false);
      SameLeavesFrom(a, b, t, i + 1);
    }
  }

  // ---- Scanning through the overlay ------------------------------------------------------------

  function Overlay(data: seq<byte>, pageSize: nat, walData: seq<byte>): Source {
    Source(data, pageSize, Overlaid(map[], Frames(walData, pageSize)))
  }

  /** The file every matching frame was copied into, with nothing over it. */
  function PatchedSource(data: seq<byte>, pageSize: nat, walData: seq<byte>): Source {
    Source(Patched(data, pageSize, Frames(walData, pageSize)), pageSize, map[])
  }

  /** n is a whole page between the old end of the file and the new one that no frame writes. */
  predicate Gap(data: seq<byte>, pageSize: nat, fs: seq<Frame>, n: nat) {
    n >= 1 && |data| < Times(n, pageSize) <= |Patched(data, pageSize, fs)| && LastFrame(fs, n).None?
  }

  /** The frames leave no page between the old end of the file and the new one unwritten. */
  ghost predicate NoGaps(data: seq<byte>, pageSize: nat, walData: seq<byte>) {
    forall n: nat :: !Gap(data, pageSize, Frames(walData, pageSize), n)
  }

  /** The overlay serves the patched file, page for page, exactly when the frames leave no gap. */
  lemma OverlayIsPatchedSource(data: seq<byte>, pageSize: nat, walData: seq<byte>)
    requires IsWal(walData) ==> WalPageSize(walData, pageSize) == pageSize
    ensures SamePages(Overlay(data, pageSize, walData), PatchedSource(data, pageSize, walData))
       <==> NoGaps(data, pageSize, walData)
  {
    hide Frames, Patched, Times, Overlaid, LastFrame, PageBytes;
    var fs := Frames(walData, pageSize);
    var a, b := Overlay(data, pageSize, walData), PatchedSource(data, pageSize, walData);
    FramesArePages(walData, pageSize);
    forall n: int
      ensures n < 1 ==> Get(a, n) == Get(b, n)
      ensures n >= 1 ==> (Get(a, n) == Get(b, n) <==> !Gap(data, pageSize, fs, n))
    {
      OverlayIsPatchedFile(data, pageSize, fs, n);
    }
    if SamePages(a, b) {
      forall n: nat | n >= 1 ensures !Gap(data, pageSize, fs, n) {
        assert Get(a, n) == Get(b, n);
      }
    }
  }

  lemma FramesArePages(walData: seq<byte>, pageSize: nat)
    requires IsWal(walData) ==> WalPageSize(walData, pageSize) == pageSize
    ensures PageFrames(Frames(walData, pageSize), pageSize)
  {
  }

  lemma {:induction false} OverlayUsable(m: Pages, fs: seq<Frame>, pageSize: nat)
    requires pageSize >= 512 && PageFrames(fs, pageSize) && forall n :: n in m ==> |m[n]| >= 512
    ensures forall n :: n in Overlaid(m, fs) ==> |Overlaid(m, fs)[n]| >= 512
    decreases |fs|
  {
    if fs != [] {
      OverlayUsable(m[fs[0].page := fs[0].data], fs[1..], pageSize);
    }
  }

  lemma OverlayIsUsable(data: seq<byte>, pageSize: nat, walData: seq<byte>)
    requires pageSize >= 512 && (IsWal(walData) ==> WalPageSize(walData, pageSize) == pageSize)
    ensures Usable(Overlay(data, pageSize, walData)) && Usable(PatchedSource(data, pageSize, walData))
  {
    hide Frames, Patched, Overlaid;
    FramesArePages(walData, pageSize);
    OverlayUsable(map[], Frames(walData, pageSize), pageSize);
  }
}
