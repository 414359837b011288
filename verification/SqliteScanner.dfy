/** The page scans: cells of a leaf page in pointer order, children of an interior page left to right. */
module SqliteScanner {
  import opened Bits
  import opened SqliteVarint
  import opened SqliteRecord
  import opened SqliteRecordReader
  import opened SqliteWal
  import opened SqliteScan
  import opened SqliteTree

  ghost function SourceOf(db: SqliteDb): Source
    reads db
  {
    Source(db.data, db.pageSize, db.wal)
  }

  /** What the pages up to the current one gave, followed by what the rest of the chain gives. */
  function Joined(got: seq<byte>, rest: Option<seq<byte>>): Option<seq<byte>> {
    if rest.None? then None else Some(got + rest.value)
  }

  /** stopped: the buffer for the bytes cannot be made, and the program stops. */
  method ReadOverflow(db: SqliteDb, firstOverflowPage: nat, need: nat)
    returns (result: seq<byte>, err: bool, stopped: bool)
    requires Usable(SourceOf(db))
    ensures stopped <==> need > MAX_ALLOC
    ensures !stopped ==> (err <==> Overflow(SourceOf(db), firstOverflowPage, need).None?)
    ensures !stopped && !err ==> Overflow(SourceOf(db), firstOverflowPage, need) == Some(result)
  {
    hide Be32, PageOf;
    if need > MAX_ALLOC {
      return [], false, true;
    }
    stopped := false;
    result := [];
    var pageNum: nat := firstOverflowPage;
    JoinedEnds([], Overflow(SourceOf(db), firstOverflowPage, need));
    while pageNum != 0 && |result| < need
      invariant |result| <= need
      invariant Overflow(SourceOf(db), firstOverflowPage, need) ==
                Joined(result, Overflow(SourceOf(db), pageNum, need - |result|))
      decreases need - |result|
    {
      PagesAreLarge(SourceOf(db), pageNum);
      var page := db.Page(pageNum);
      assert page == Get(SourceOf(db), pageNum);
      if page.None? {
        return result, true, false;
      }
      var pg := page.value;
      var chunk := pg[4..];
      if |chunk| > need - |result| {
        chunk := chunk[..need - |result|];
      }
      ghost var before := result;
      pageNum := Be32(pg, 0);
      result := result + chunk;
      OverflowStep(SourceOf(db), pg, chunk, need - |before|);
      JoinedStep(before, chunk, Overflow(SourceOf(db), pageNum, need - |result|));
    }
    JoinedEnds(result, Some([]));
    err := false;
  }

  /** One page of the chain. */
  lemma OverflowStep(src: Source, pg: seq<byte>, chunk: seq<byte>, need: nat)
    requires Usable(src) && |pg| >= 512 && need > 0
    requires chunk == if |pg| - 4 > need then pg[4..][..need] else pg[4..]
    ensures forall page: nat :: page != 0 && Get(src, page) == Some(pg) ==>
              Overflow(src, page, need) == Joined(chunk, Overflow(src, Be32(pg, 0), need - |chunk|))
  {
    hide Get, Be32;
    assert pg[4..4 + |chunk|] == chunk;
    assert chunk + [] == chunk;
  }

  lemma JoinedEnds(got: seq<byte>, rest: Option<seq<byte>>)
    ensures Joined([], rest) == rest && Joined(got, Some([])) == Some(got)
  {
    assert got + [] == got;
    if rest.Some? {
      assert [] + rest.value == rest.value;
    }
  }

  lemma JoinedStep(a: seq<byte>, b: seq<byte>, rest: Option<seq<byte>>)
    ensures Joined(a + b, rest) == Joined(a, Joined(b, rest))
  {
    if rest.Some? {
      assert a + b + rest.value == a + (b + rest.value);
    }
  }

  /** The bytes kept of a payload that does not fit. */
  method LocalPayload(db: SqliteDb, pLen: nat, maxLocal: int) returns (localPayload: nat)
    requires Usable(SourceOf(db)) && maxLocal == MaxLocal(SourceOf(db)) && pLen > maxLocal
    ensures localPayload == LocalLength(SourceOf(db), pLen)
  {
    LocalBounds(SourceOf(db));
    var minLocal := (db.pageSize as int - 12) * 32 / 255 - 23;
    localPayload := minLocal + (pLen - minLocal) % (db.pageSize - 4);
    if localPayload > maxLocal {
      localPayload := maxLocal;
    }
  }

  lemma ShortIsLocal(src: Source, len: nat)
    requires Usable(src)
    ensures len <= MaxLocal(src) ==> LocalLength(src, len) == len
  {
  }

  method ReadPayload(db: SqliteDb, pg: seq<byte>, pos: nat, pLen: nat) returns (payload: seq<byte>)
    requires Usable(SourceOf(db)) && pos <= |pg| && Needed(SourceOf(db), pg, pos, pLen) <= MAX_ALLOC
    ensures payload == Payload(SourceOf(db), pg, pos, pLen)
  {
    hide Be32, PageOf, Overflow, LocalLength;
    ShortIsLocal(SourceOf(db), pLen);
    var maxLocal := (db.pageSize as int - 12) * 64 / 255 - 23;
    if pLen <= maxLocal {
      return if pos + pLen > |pg| then pg[pos..] else pg[pos..pos + pLen];
    }
    var localPayload := LocalPayload(db, pLen, maxLocal);
    if pos + localPayload > |pg| {
      localPayload := |pg| - pos;
    }
    var overflowPtrPos := pos + localPayload;
    payload := pg[pos..overflowPtrPos];
    if overflowPtrPos + 4 <= |pg| {
      var overflowPage := Be32(pg, overflowPtrPos);
      if overflowPage > 0 {
        var extra, err, _ := ReadOverflow(db, overflowPage, pLen - localPayload);
        if !err {
          payload := payload + extra;
        }
      }
    }
  }

  method ReadCell(db: SqliteDb, pg: seq<byte>, cellOff: nat) returns (row: Option<Row>)
    requires Usable(SourceOf(db)) && cellOff < |pg| && SaneCell(SourceOf(db), pg, cellOff)
    ensures row == CellRow(SourceOf(db), pg, cellOff)
  {
    hide VarintAt, Payload, RecordOf, Needed;
    var payloadLen, n := ReadVarint(pg, cellOff);
    if n == 0 {
      return None;
    }
    var _, k := ReadVarint(pg, cellOff + n);
    if k == 0 {
      return None;
    }
    var payload := ReadPayload(db, pg, cellOff + n + k, payloadLen);
    var cols := ReadRecord(payload);
    if cols.BadHeader? {
      return None;
    }
    row := Some(cols.vals);
  }

  lemma RowsStep(src: Source, pg: seq<byte>, offs: seq<nat>)
    requires Usable(src)
    ensures offs == [] ==> RowsAt(src, pg, offs) == []
    ensures offs != [] && offs[0] < |pg| && CellRow(src, pg, offs[0]).Some? ==>
              RowsAt(src, pg, offs) == [CellRow(src, pg, offs[0]).value] + RowsAt(src, pg, offs[1..])
    ensures offs != [] && (offs[0] >= |pg| || CellRow(src, pg, offs[0]).None?) ==>
              RowsAt(src, pg, offs) == RowsAt(src, pg, offs[1..])
  {
    hide CellRow;
  }

  /** rows are the columns handed to the callback, in order. */
  method ScanLeafPage(db: SqliteDb, pageNum: int, isPage1: bool) returns (rows: seq<Row>, err: bool)
    requires Usable(SourceOf(db))
    requires KindOf(SourceOf(db), pageNum, isPage1).LeafPage? ==>
               var pg := Get(SourceOf(db), pageNum).value; Sane(SourceOf(db), pg, LeafOffsets(pg, isPage1))
    ensures err <==> Get(SourceOf(db), pageNum).None?
    ensures rows == if KindOf(SourceOf(db), pageNum, isPage1).LeafPage? then
                      LeafRows(SourceOf(db), Get(SourceOf(db), pageNum).value, isPage1) else []
  {
    hide PageOf, CellRow, SaneCell, Be16, RowsAt;
    PagesAreLarge(SourceOf(db), pageNum);
    rows := [];
    var page := db.Page(pageNum);
    if page.None? {
      return [], true;
    }
    err := false;
    var pg, header := page.value, if isPage1 then 100 else 0;
    if pg[header] != 0x0d {
      return;
    }
    var cellCount, base := Be16(pg, header + 3), header + 8;
    var i: nat := 0;
    while i < cellCount
      invariant i <= cellCount
      invariant rows + RowsAt(SourceOf(db), pg, OffsetsFrom(pg, isPage1, base, i)) == LeafRows(SourceOf(db), pg, isPage1)
      invariant Sane(SourceOf(db), pg, OffsetsFrom(pg, isPage1, base, i))
    {
      if base + i * 2 + 2 > |pg| {
        break;
      }
      var cellOff := Be16(pg, base + i * 2);
      var offs := OffsetsFrom(pg, isPage1, base, i);
      assert offs[0] == cellOff && offs[1..] == OffsetsFrom(pg, isPage1, base, i + 1);
      RowsStep(SourceOf(db), pg, offs);
      i := i + 1;
      if cellOff >= |pg| {
        continue;
      }
      var row := ReadCell(db, pg, cellOff);
      if row.Some? {
        rows := rows + [row.value];
      }
    }
    RowsStep(SourceOf(db), pg, OffsetsFrom(pg, isPage1, base, i));
  }

  /** Children before the k-th have been scanned without error; t is the tree of calls. */
  method ScanInteriorPage(db: SqliteDb, pageNum: int, isPage1: bool, ghost t: Tree) returns (rows: seq<Row>, err: bool)
    requires Usable(SourceOf(db)) && IsTree(SourceOf(db), t, isPage1) && t.page == pageNum
    ensures KindOf(SourceOf(db), pageNum, isPage1).Interior? ==>
              rows == RowsOf(SourceOf(db), Leaves(SourceOf(db), t, isPage1)) && err == Fails(SourceOf(db), t, isPage1)
    ensures !KindOf(SourceOf(db), pageNum, isPage1).Interior? ==> rows == [] && err == Get(SourceOf(db), pageNum).None?
    decreases t, 0
  {
    hide PageOf, Children, IsTree, Fails, LeavesFrom, LeafRows, Sane, Leaves, RowsOf, KidsDone, ChildrenAt, Be32, Be16;
    ghost var src := SourceOf(db);
    PagesAreLarge(src, pageNum);
    rows := [];
    var page := db.Page(pageNum);
    if page.None? {
      return [], true;
    }
    err := false;
    var pg, header := page.value, if isPage1 then 100 else 0;
    if pg[header] != 0x05 {
      return;
    }
    var cellCount, base := Be16(pg, header + 3), header + 12;
    var rightmostChild := Be32(pg, header + 8);
    ghost var k: nat := 0;
    var i: nat := 0;
    ChildrenSplit(pg, isPage1);
    KidsStart(src, t, isPage1);
    while i < cellCount
      invariant i <= cellCount && KidsDone(src, t, isPage1, k)
      invariant Children(pg, isPage1)[k..] == ChildrenAt(pg, OffsetsFrom(pg, isPage1, base, i)) + [rightmostChild]
      invariant rows + RowsOf(src, LeavesFrom(src, t, k)) == RowsOf(src, LeavesFrom(src, t, 0))
    {
      if base + i * 2 + 2 > |pg| {
        break;
      }
      var cellOff := Be16(pg, base + i * 2);
      ghost var offs := OffsetsFrom(pg, isPage1, base, i);
      assert offs[0] == cellOff && offs[1..] == OffsetsFrom(pg, isPage1, base, i + 1);
      ChildrenStep(pg, offs);
      i := i + 1;
      if cellOff + 4 > |pg| {
        continue;
      }
      var leftChild := Be32(pg, cellOff);
      assert Children(pg, isPage1)[k..][0] == leftChild;
      NextKid(src, t, isPage1, k);
      var more, failed := ScanTablePage(db, leftChild, false, t.kids[k]);
      rows, k := rows + more, k + 1;
      if failed {
        return rows, true;
      }
    }
    ChildrenStep(pg, OffsetsFrom(pg, isPage1, base, i));
    assert Children(pg, isPage1)[k..] == [rightmostChild];
    NextKid(src, t, isPage1, k);
    var more, failed := ScanTablePage(db, rightmostChild, false, t.kids[k]);
    rows, err := rows + more, failed;
  }

  method ScanTablePage(db: SqliteDb, pageNum: int, isPage1: bool, ghost t: Tree) returns (rows: seq<Row>, err: bool)
    requires Usable(SourceOf(db)) && IsTree(SourceOf(db), t, isPage1) && t.page == pageNum
    ensures rows == RowsOf(SourceOf(db), Leaves(SourceOf(db), t, isPage1))
    ensures err == Fails(SourceOf(db), t, isPage1)
    decreases t, 1
  {
    hide PageOf, Children, LeafRows, Sane;
    PagesAreLarge(SourceOf(db), pageNum);
    if pageNum <= 0 {
      return [], false;
    }
    var page := db.Page(pageNum);
    if page.None? {
      return [], true;
    }
    var pg, header := page.value, if isPage1 then 100 else 0;
    if pg[header] == 0x0d {
      rows, err := ScanLeafPage(db, pageNum, isPage1);
    } else if pg[header] == 0x05 {
      rows, err := ScanInteriorPage(db, pageNum, isPage1, t);
    } else {
      rows, err := [], false;
    }
  }

  /** The scan of a whole table. That it returns follows from the page graph: no child link leads back, and
      no cell stops the program. */
  method ScanTable(db: SqliteDb, rootPage: int) returns (rows: seq<Row>, err: bool)
    requires Usable(SourceOf(db))
    requires AllSane(SourceOf(db), rootPage, rootPage == 1) && Acyclic(SourceOf(db), rootPage, rootPage == 1)
    ensures ScanOf(SourceOf(db), rootPage, rootPage == 1) == Returned(rows, err)
    ensures err <==> !NoneMissing(SourceOf(db), rootPage, rootPage == 1)
  {
    hide IsTree, Fails, Leaves, RowsOf, AllSane, Acyclic, NoneMissing, ScanOf, Usable, Reaches;
    ghost var src := SourceOf(db);
    RootReached(src, rootPage, rootPage == 1);
    ghost var t := BuildTree(src, rootPage, rootPage == 1, [rootPage]);
    ScanOfTree(src, t, rootPage == 1);
    AcyclicScanReturns(src, rootPage, rootPage == 1);
    rows, err := ScanTablePage(db, rootPage, rootPage == 1, t);
  }

  lemma ChildrenSplit(pg: seq<byte>, first: bool)
    requires |pg| >= 512
    ensures Children(pg, first) == ChildrenAt(pg, OffsetsFrom(pg, first, Header(first) + 12, 0)) + [Be32(pg, Header(first) + 8)]
  {
  }

  lemma ChildrenStep(pg: seq<byte>, offs: seq<nat>)
    ensures offs == [] ==> ChildrenAt(pg, offs) == []
    ensures offs != [] && offs[0] + 4 > |pg| ==> ChildrenAt(pg, offs) == ChildrenAt(pg, offs[1..])
    ensures offs != [] && offs[0] + 4 <= |pg| ==> ChildrenAt(pg, offs) == [Be32(pg, offs[0])] + ChildrenAt(pg, offs[1..])
  {
  }

  lemma KidsStart(src: Source, t: Tree, first: bool)
    requires Usable(src) && IsTree(src, t, first) && KindOf(src, t.page, first).Interior?
    ensures KidsDone(src, t, first, 0) && Leaves(src, t, first) == LeavesFrom(src, t, 0)
  {
    hide Children;
  }

  /** The first k kids of an interior page were scanned and did not fail. */
  ghost predicate KidsDone(src: Source, t: Tree, first: bool, k: nat): (done: bool)
    requires Usable(src)
    ensures done ==> KindOf(src, t.page, first).Interior?
    ensures done ==> k <= |t.kids| && k <= |Children(Get(src, t.page).value, first)|
  {
    && IsTree(src, t, first) && KindOf(src, t.page, first).Interior?
    && k <= |t.kids| && k <= |Children(Get(src, t.page).value, first)|
    && forall j :: 0 <= j < k ==> !Fails(src, t.kids[j], false)
  }

  /** While children are left there is a kid for the next one; a kid that fails is the last. */
  lemma NextKid(src: Source, t: Tree, first: bool, k: nat)
    requires Usable(src) && KidsDone(src, t, first, k) && k < |Children(Get(src, t.page).value, first)|
    ensures k < |t.kids| && t.kids[k].page == Children(Get(src, t.page).value, first)[k] && IsTree(src, t.kids[k], false)
    ensures RowsOf(src, LeavesFrom(src, t, k)) ==
            RowsOf(src, Leaves(src, t.kids[k], false)) + RowsOf(src, LeavesFrom(src, t, k + 1))
    ensures if Fails(src, t.kids[k], false) then Fails(src, t, first) && k + 1 == |t.kids| else KidsDone(src, t, first, k + 1)
    ensures k + 1 == |t.kids| ==>
              RowsOf(src, LeavesFrom(src, t, k + 1)) == [] && Fails(src, t, first) == Fails(src, t.kids[k], false)
    ensures k + 1 == |Children(Get(src, t.page).value, first)| ==> k + 1 == |t.kids|
  {
    hide Children, Leaves, RowsAt;
    KidsAreTrees(src, t, first, k);
    RowsOfConcat(src, Leaves(src, t.kids[k], false), LeavesFrom(src, t, k + 1));
  }
}
