/** ESE database pages as a graph: what a page contributes and which pages it links to, and the
    walk that visits them. */
module EsePages {
  import opened Bits

  const HEADER_SIZE: nat := 40
  const NO_PAGE: nat := 0xFFFF_FFFF

  // ---- One page ------------------------------------------------------------------------------

  datatype Tag = Tag(size: nat, offset: nat, deleted: bool)

  datatype Database = Database(data: seq<byte>, pageSize: nat)

  /** A page has room for its header. */
  predicate DatabaseOk(db: Database) {
    db.pageSize >= HEADER_SIZE
  }

  /** Page n lies behind the file header page. */
  predicate InBounds(db: Database, pn: nat) {
    PageEnd(db, pn) <= |db.data|
  }

  function PageEnd(db: Database, pn: nat): nat {
    (pn + 2) * db.pageSize
  }

  function PageData(db: Database, pn: nat): (pg: seq<byte>)
    requires DatabaseOk(db) && InBounds(db, pn)
    ensures |pg| == db.pageSize
  {
    assert PageEnd(db, pn) - db.pageSize == (pn + 1) * db.pageSize;
    db.data[PageEnd(db, pn) - db.pageSize..PageEnd(db, pn)]
  }

  function Flags(pg: seq<byte>): nat
    requires |pg| >= HEADER_SIZE
  {
    Word32(pg, 32)
  }

  predicate IsRoot(pg: seq<byte>)
    requires |pg| >= HEADER_SIZE
  {
    Flags(pg) % 2 == 1
  }

  predicate IsLeaf(pg: seq<byte>)
    requires |pg| >= HEADER_SIZE
  {
    Flags(pg) / 2 % 2 == 1
  }

  predicate IsParent(pg: seq<byte>)
    requires |pg| >= HEADER_SIZE
  {
    Flags(pg) / 4 % 2 == 1
  }

  /** The 4-byte tag at the page's tail: 13 bits of size, two flag bits, 15 bits of offset. */
  function TagAt(pg: seq<byte>, tagOff: nat): Tag
    requires tagOff + 4 <= |pg|
  {
    var word0, word1 := Word16(pg, tagOff), Word16(pg, tagOff + 2);
    Tag(word0 % 0x2000, word1 % 0x8000, word0 / 0x4000 % 2 == 1)
  }

  /** Tags i and on, up to the stated count or the page header. */
  function TagsFrom(pg: seq<byte>, i: nat): seq<Tag>
    requires |pg| >= HEADER_SIZE
    decreases |pg| - 4 * i
  {
    if i >= Word16(pg, 30) || |pg| - (i + 1) * 4 < HEADER_SIZE then []
    else [TagAt(pg, |pg| - (i + 1) * 4)] + TagsFrom(pg, i + 1)
  }

  function Tags(pg: seq<byte>): seq<Tag>
    requires |pg| >= HEADER_SIZE
  {
    TagsFrom(pg, 0)
  }

  /** The bytes a tag points at; empty when it has none or they leave the page. */
  function TagRecord(pg: seq<byte>, t: Tag): seq<byte>
    requires |pg| >= HEADER_SIZE
  {
    if t.size == 0 || HEADER_SIZE + t.offset + t.size > |pg| then []
    else pg[HEADER_SIZE + t.offset..HEADER_SIZE + t.offset + t.size]
  }

  /** The live non-empty records of the given tags. */
  function LiveRecords(pg: seq<byte>, tags: seq<Tag>): seq<seq<byte>>
    requires |pg| >= HEADER_SIZE
  {
    if tags == [] then []
    else
      var rest := LiveRecords(pg, tags[1..]);
      if tags[0].deleted || TagRecord(pg, tags[0]) == [] then rest else [TagRecord(pg, tags[0])] + rest
  }

  predicate IsPageNumber(pn: nat) {
    pn != 0 && pn != NO_PAGE
  }

  /** The page number in the last four bytes of a record, if it has four and they name a page. */
  function ChildIn(rec: seq<byte>): Option<nat> {
    if |rec| < 4 || !IsPageNumber(Word32(rec, |rec| - 4)) then None else Some(Word32(rec, |rec| - 4))
  }

  function LiveChildren(pg: seq<byte>, tags: seq<Tag>): seq<nat>
    requires |pg| >= HEADER_SIZE
  {
    if tags == [] then []
    else
      var rest := LiveChildren(pg, tags[1..]);
      var child := ChildIn(TagRecord(pg, tags[0]));
      if tags[0].deleted || child == None then rest else [child.value] + rest
  }

  /** Tag 0 is followed last, deleted or not. */
  function FirstChild(pg: seq<byte>): seq<nat>
    requires |pg| >= HEADER_SIZE
  {
    if Tags(pg) == [] || ChildIn(TagRecord(pg, Tags(pg)[0])) == None then []
    else [ChildIn(TagRecord(pg, Tags(pg)[0])).value]
  }

  function NextLeaf(pg: seq<byte>): seq<nat>
    requires |pg| >= HEADER_SIZE
  {
    if IsPageNumber(Word32(pg, 16)) then [Word32(pg, 16)] else []
  }

  function Behind<T>(ts: seq<T>): seq<T> {
    if ts == [] then [] else ts[1..]
  }

  /** The pages the walk follows from a page, in order: the next leaf, or the children. */
  function Links(db: Database, pn: nat): seq<nat>
    requires DatabaseOk(db)
  {
    if !InBounds(db, pn) then []
    else
      var pg := PageData(db, pn);
      if IsLeaf(pg) then NextLeaf(pg)
      else if IsParent(pg) then LiveChildren(pg, Behind(Tags(pg))) + FirstChild(pg)
      else []
  }

  /** The records a page contributes: those of a leaf, or of a root that is nothing else. */
  function Records(db: Database, pn: nat): seq<seq<byte>>
    requires DatabaseOk(db)
  {
    if !InBounds(db, pn) then []
    else
      var pg := PageData(db, pn);
      if IsLeaf(pg) || (!IsParent(pg) && IsRoot(pg)) then LiveRecords(pg, Behind(Tags(pg))) else []
  }

  // ---- The walk ------------------------------------------------------------------------------

  /** Pages visited, in order, and the records collected so far. */
  datatype State = State(order: seq<nat>, records: seq<seq<byte>>)

  function Visited(st: State): set<nat> {
    set p | p in st.order
  }

  function Below(n: nat): (s: set<nat>)
    ensures forall p: nat :: p in s <==> p < n
  {
    if n == 0 then {} else Below(n - 1) + {n - 1}
  }

  function Unvisited(db: Database, st: State): set<nat> {
    Below(|db.data|) - Visited(st)
  }

  function Marked(db: Database, st: State, pn: nat): State
    requires DatabaseOk(db)
  {
    State(st.order + [pn], st.records + Records(db, pn))
  }

  lemma MarkingShrinks(db: Database, st: State, pn: nat)
    requires DatabaseOk(db) && pn !in Visited(st) && InBounds(db, pn)
    ensures |Unvisited(db, Marked(db, st, pn))| < |Unvisited(db, st)|
  {
    assert pn < |db.data| by { PageNumberSmall(pn, db.pageSize); }
    assert Visited(Marked(db, st, pn)) == Visited(st) + {pn};
    assert Unvisited(db, Marked(db, st, pn)) == Unvisited(db, st) - {pn};
  }

  lemma PageNumberSmall(pn: nat, pageSize: nat)
    requires pageSize > 0
    ensures pn < (pn + 2) * pageSize
  {
    assert (pn + 2) * pageSize == (pn + 1) * pageSize + pageSize;
    MulBound(pn + 1, pageSize);
    if pageSize > 1 {
      assert (pn + 2) * pageSize == (pn + 2) + (pn + 2) * (pageSize - 1);
    }
  }

  lemma GrowingShrinks(db: Database, st: State, st': State)
    requires st.order <= st'.order
    ensures |Unvisited(db, st')| <= |Unvisited(db, st)|
  {
    assert Unvisited(db, st') <= Unvisited(db, st);
    SubsetCard(Unvisited(db, st'), Unvisited(db, st));
  }

  lemma SubsetCard(a: set<nat>, b: set<nat>)
    requires a <= b
    ensures |a| <= |b|
  {
    assert b == a + (b - a);
  }

  /** Visit a page unless it names none or was visited, then everything it links to. */
  function Walked(db: Database, st: State, pn: nat): (st': State)
    requires DatabaseOk(db)
    ensures st.order <= st'.order
    decreases |Unvisited(db, st)|, 0
  {
    if !IsPageNumber(pn) || pn in Visited(st) then st
    else if !InBounds(db, pn) then Marked(db, st, pn)
    else
      MarkingShrinks(db, st, pn);
      WalkedAll(db, Marked(db, st, pn), Links(db, pn))
  }

  function WalkedAll(db: Database, st: State, ps: seq<nat>): (st': State)
    requires DatabaseOk(db)
    ensures st.order <= st'.order
    decreases |Unvisited(db, st)|, |ps| + 1
  {
    if ps == [] then st
    else
      var st1 := Walked(db, st, ps[0]);
      GrowingShrinks(db, st, st1);
      WalkedAll(db, st1, ps[1..])
  }

  lemma {:induction false} WalkedAllConcat(db: Database, st: State, a: seq<nat>, b: seq<nat>)
    requires DatabaseOk(db)
    ensures WalkedAll(db, st, a + b) == WalkedAll(db, WalkedAll(db, st, a), b)
    decreases |a|
  {
    hide Walked;
    if a == [] {
      assert a + b == b;
    } else {
      assert (a + b)[1..] == a[1..] + b;
      WalkedAllConcat(db, Walked(db, st, a[0]), a[1..], b);
    }
  }

  /** The records of a sequence of pages, in order. */
  function RecordsOf(db: Database, order: seq<nat>): seq<seq<byte>>
    requires DatabaseOk(db)
  {
    if order == [] then [] else RecordsOf(db, order[..|order| - 1]) + Records(db, order[|order| - 1])
  }

  predicate NoRepeats(order: seq<nat>) {
    forall i, j :: 0 <= i < j < |order| ==> order[i] != order[j]
  }

  /** Each page visited once so far, and the records are those of the visited pages in order. */
  ghost predicate StateOk(db: Database, st: State)
    requires DatabaseOk(db)
  {
    NoRepeats(st.order) && st.records == RecordsOf(db, st.order)
  }

  /** Every link out of the pages from position i on leads to a visited page. */
  ghost predicate ClosedFrom(db: Database, order: seq<nat>, i: nat)
    requires DatabaseOk(db)
  {
    forall k, q :: i <= k < |order| && q in Links(db, order[k]) ==> q in order
  }

  lemma {:induction false} LinksArePages(db: Database, pn: nat)
    requires DatabaseOk(db)
    ensures forall q :: q in Links(db, pn) ==> IsPageNumber(q)
  {
    if InBounds(db, pn) {
      ChildrenArePages(PageData(db, pn), Behind(Tags(PageData(db, pn))));
    }
  }

  lemma {:induction false} ChildrenArePages(pg: seq<byte>, tags: seq<Tag>)
    requires |pg| >= HEADER_SIZE
    ensures forall q :: q in LiveChildren(pg, tags) ==> IsPageNumber(q)
  {
    if tags != [] {
      ChildrenArePages(pg, tags[1..]);
    }
  }

  lemma {:induction false} WalkInvariant(db: Database, st: State, pn: nat)
    requires DatabaseOk(db) && StateOk(db, st)
    ensures var st' := Walked(db, st, pn);
            && StateOk(db, st')
            && (IsPageNumber(pn) ==> pn in st'.order)
            && ClosedFrom(db, st'.order, |st.order|)
    decreases |Unvisited(db, st)|, 0
  {
    hide Links, Records, Unvisited, IsPageNumber, StateOk, ClosedFrom;
    if !IsPageNumber(pn) || pn in Visited(st) {
      NothingNew(db, st, pn);
    } else if InBounds(db, pn) {
      MarkingShrinks(db, st, pn);
      MarkedOk(db, st, pn);
      WalkAllInvariant(db, Marked(db, st, pn), Links(db, pn));
      LinksArePages(db, pn);
      PageClosed(db, st, pn, WalkedAll(db, Marked(db, st, pn), Links(db, pn)));
    } else {
      MarkedOk(db, st, pn);
      NoLinksOutside(db, pn);
      PageClosed(db, st, pn, Marked(db, st, pn));
    }
  }

  lemma NothingNew(db: Database, st: State, pn: nat)
    requires DatabaseOk(db)
    ensures ClosedFrom(db, st.order, |st.order|)
    ensures pn in Visited(st) ==> pn in st.order
  {
  }

  lemma MarkedOk(db: Database, st: State, pn: nat)
    requires DatabaseOk(db) && StateOk(db, st) && IsPageNumber(pn) && pn !in Visited(st)
    ensures StateOk(db, Marked(db, st, pn)) && ClosedFrom(db, Marked(db, st, pn).order, |st.order| + 1)
  {
    hide Links, Records, IsPageNumber;
    var m := Marked(db, st, pn);
    assert m.order[..|m.order| - 1] == st.order;
  }

  /** Once the links of the page just marked are visited, nothing from it on is left open. */
  lemma PageClosed(db: Database, st: State, pn: nat, st': State)
    requires DatabaseOk(db) && Marked(db, st, pn).order <= st'.order && ClosedFrom(db, st'.order, |st.order| + 1)
    requires forall q :: q in Links(db, pn) ==> q in st'.order
    ensures pn in st'.order && ClosedFrom(db, st'.order, |st.order|)
  {
    hide Links, Records;
    assert st'.order[|st.order|] == pn;
  }

  lemma NoLinksOutside(db: Database, pn: nat)
    requires DatabaseOk(db) && !InBounds(db, pn)
    ensures Links(db, pn) == []
  {
  }

  lemma {:induction false} WalkAllInvariant(db: Database, st: State, ps: seq<nat>)
    requires DatabaseOk(db) && StateOk(db, st)
    ensures var st' := WalkedAll(db, st, ps);
            && StateOk(db, st')
            && (forall p :: p in ps && IsPageNumber(p) ==> p in st'.order)
            && ClosedFrom(db, st'.order, |st.order|)
    decreases |Unvisited(db, st)|, |ps| + 1
  {
    hide Links, Records, Unvisited, InBounds, IsPageNumber, StateOk;
    if ps != [] {
      var st1 := Walked(db, st, ps[0]);
      WalkInvariant(db, st, ps[0]);
      GrowingShrinks(db, st, st1);
      WalkAllInvariant(db, st1, ps[1..]);
      ClosedInParts(db, st1.order, WalkedAll(db, st1, ps[1..]).order, |st.order|);
    }
  }

  lemma ClosedInParts(db: Database, a: seq<nat>, b: seq<nat>, i: nat)
    requires DatabaseOk(db) && a <= b && ClosedFrom(db, a, i) && ClosedFrom(db, b, |a|)
    ensures ClosedFrom(db, b, i)
  {
    hide Links;
    forall k, q | i <= k < |b| && q in Links(db, b[k])
      ensures q in b
    {
      if k < |a| {
        assert a[k] == b[k];
        assert q in a;
      }
    }
  }

  /** Every set of pages that holds the start and is closed under the links holds all that is visited. */
  lemma {:induction false} WalkStaysInside(db: Database, st: State, pn: nat, s: iset<nat>)
    requires DatabaseOk(db)
    requires IsPageNumber(pn) ==> pn in s
    requires forall p, q :: p in s && q in Links(db, p) ==> q in s
    ensures forall k :: |st.order| <= k < |Walked(db, st, pn).order| ==> Walked(db, st, pn).order[k] in s
    decreases |Unvisited(db, st)|, 0
  {
    hide Links, Records, Unvisited, InBounds, IsPageNumber;
    if IsPageNumber(pn) && pn !in Visited(st) && InBounds(db, pn) {
      MarkingShrinks(db, st, pn);
      WalkAllStaysInside(db, Marked(db, st, pn), Links(db, pn), s);
    }
  }

  lemma {:induction false} WalkAllStaysInside(db: Database, st: State, ps: seq<nat>, s: iset<nat>)
    requires DatabaseOk(db)
    requires forall p :: p in ps ==> p in s
    requires forall p, q :: p in s && q in Links(db, p) ==> q in s
    ensures forall k :: |st.order| <= k < |WalkedAll(db, st, ps).order| ==> WalkedAll(db, st, ps).order[k] in s
    decreases |Unvisited(db, st)|, |ps| + 1
  {
    hide Links, Records, Unvisited, InBounds, IsPageNumber;
    if ps != [] {
      var st1 := Walked(db, st, ps[0]);
      WalkStaysInside(db, st, ps[0], s);
      GrowingShrinks(db, st, st1);
      WalkAllStaysInside(db, st1, ps[1..], s);
    }
  }

  const START: State := State([], [])

  ghost predicate Closed(db: Database, s: iset<nat>)
    requires DatabaseOk(db)
  {
    forall p, q :: p in s && q in Links(db, p) ==> q in s
  }

  /** On any page graph, cyclic or not: the walk visits exactly the least set of pages that holds
      the root and is closed under the links, each page once, and the records are those of the
      visited pages in visit order. */
  lemma WalkVisitsReachable(db: Database, root: nat)
    requires DatabaseOk(db) && IsPageNumber(root)
    ensures var st := Walked(db, START, root);
            && NoRepeats(st.order)
            && st.records == RecordsOf(db, st.order)
            && root in st.order
            && Closed(db, iset p | p in st.order)
            && (forall s: iset<nat> :: root in s && Closed(db, s) ==> forall p :: p in st.order ==> p in s)
  {
    hide Links, Records;
    WalkInvariant(db, START, root);
    var st := Walked(db, START, root);
    forall s: iset<nat> | root in s && Closed(db, s)
      ensures forall p :: p in st.order ==> p in s
    {
      WalkStaysInside(db, START, root, s);
    }
  }
}
