/** ESE pages as they are written, and what a walk takes from them. */
module EseLayout {
  import opened Bits
  import opened EsePages

  /** x in two bytes, the low one first. */
  predicate PairAt(pg: seq<byte>, pos: nat, x: nat) {
    pos + 2 <= |pg| && x < 0x1_0000 && pg[pos] == x % 0x100 && pg[pos + 1] == x / 0x100
  }

  /** x in four bytes, the low one first. */
  predicate QuadAt(pg: seq<byte>, pos: nat, x: nat) {
    && pos + 4 <= |pg| && x < 0x1_0000_0000
    && pg[pos] == x % 0x100 && pg[pos + 1] == x / 0x100 % 0x100
    && pg[pos + 2] == x / 0x1_0000 % 0x100 && pg[pos + 3] == x / 0x100_0000
  }

  /** A tag: where its record lies behind the header, how long it is, and its three flag bits, of which the
      second says that the record is deleted. The top bit of the offset word has no meaning here. */
  datatype Slot = Slot(offset: nat, size: nat, shared: bool, deleted: bool, compressed: bool, top: bool)

  function Bit(b: bool): nat {
    if b then 1 else 0
  }

  predicate SlotAt(pg: seq<byte>, pos: nat, s: Slot) {
    && s.size < 0x2000 && s.offset < 0x8000
    && PairAt(pg, pos, s.size + 0x2000 * Bit(s.shared) + 0x4000 * Bit(s.deleted) + 0x8000 * Bit(s.compressed))
    && PairAt(pg, pos + 2, s.offset + 0x8000 * Bit(s.top))
  }

  /** A page: the next leaf's number at 16, the number of tags at 30, the flags at 32 (1 root, 2 leaf, 4 parent),
      records behind 40 bytes of header, and the tags from the end of the page backwards. */
  datatype Page = Page(next: nat, root: bool, leaf: bool, parent: bool, other: nat, slots: seq<Slot>)

  predicate LaidOut(pg: seq<byte>, p: Page) {
    && 40 + 4 * |p.slots| <= |pg|
    && QuadAt(pg, 16, p.next) && PairAt(pg, 30, |p.slots|)
    && QuadAt(pg, 32, Bit(p.root) + 2 * Bit(p.leaf) + 4 * Bit(p.parent) + 8 * p.other)
    && forall i :: 0 <= i < |p.slots| ==> SlotAt(pg, |pg| - 4 * i - 4, p.slots[i])
  }

  /** Page n of the file lies behind one page of file header and the pages before it. */
  predicate PageOfFile(db: Database, n: nat, pg: seq<byte>) {
    |pg| == db.pageSize && Times(n + 2, db.pageSize) <= |db.data| &&
    db.data[Times(n + 1, db.pageSize)..Times(n + 2, db.pageSize)] == pg
  }

  /** The bytes of a slot's record; none when they leave the page. */
  function Bytes(pg: seq<byte>, s: Slot): seq<byte> {
    if 40 + s.offset + s.size <= |pg| then pg[40 + s.offset..40 + s.offset + s.size] else []
  }

  /** The records that are neither deleted nor empty, in the order of their tags. */
  function Alive(pg: seq<byte>, slots: seq<Slot>): seq<seq<byte>> {
    if slots == [] then []
    else
      var rest := Alive(pg, slots[1..]);
      if slots[0].deleted || Bytes(pg, slots[0]) == [] then rest else [Bytes(pg, slots[0])] + rest
  }

  /** A record ends in the number of the page it stands for; 0 and 2^32 - 1 stand for none. */
  predicate EndsIn(rec: seq<byte>, page: nat) {
    |rec| >= 4 && QuadAt(rec, |rec| - 4, page) && page != 0 && page != 0xFFFF_FFFF
  }

  // ---- Reading fields back -------------------------------------------------------------------------

  lemma PairIs(pg: seq<byte>, pos: nat, x: nat)
    requires PairAt(pg, pos, x)
    ensures Word16(pg, pos) == x
  {
  }

  lemma QuadIs(pg: seq<byte>, pos: nat, x: nat)
    requires QuadAt(pg, pos, x)
    ensures Word32(pg, pos) == x
  {
    FourDigits(x);
  }

  lemma FourDigits(x: nat)
    ensures x == x % 0x100 + 0x100 * (x / 0x100 % 0x100) + 0x1_0000 * (x / 0x1_0000 % 0x100) + 0x100_0000 * (x / 0x100_0000)
  {
    var h, l := x / 0x1_0000, x % 0x1_0000;
    DivUnique(x, 0x100, 0x100 * h + l / 0x100, l % 0x100);
    DivUnique(0x100 * h + l / 0x100, 0x100, h, l / 0x100);
    DivUnique(x, 0x100_0000, h / 0x100, h % 0x100 * 0x1_0000 + l);
  }

  lemma SlotIs(pg: seq<byte>, pos: nat, s: Slot)
    requires SlotAt(pg, pos, s)
    ensures TagAt(pg, pos) == Tag(s.size, s.offset, s.deleted)
  {
    hide Word16;
    PairIs(pg, pos, s.size + 0x2000 * Bit(s.shared) + 0x4000 * Bit(s.deleted) + 0x8000 * Bit(s.compressed));
    PairIs(pg, pos + 2, s.offset + 0x8000 * Bit(s.top));
  }

  function TagsOf(slots: seq<Slot>): (ts: seq<Tag>)
    ensures |ts| == |slots|
  {
    if slots == [] then [] else [Tag(slots[0].size, slots[0].offset, slots[0].deleted)] + TagsOf(slots[1..])
  }

  lemma {:induction false} TagsReadBack(pg: seq<byte>, p: Page, i: nat)
    requires LaidOut(pg, p) && i <= |p.slots|
    ensures TagsFrom(pg, i) == TagsOf(p.slots[i..])
    decreases |p.slots| - i
  {
    hide SlotAt, TagAt, Word16;
    PairIs(pg, 30, |p.slots|);
    if i < |p.slots| {
      assert SlotAt(pg, |pg| - 4 * i - 4, p.slots[i]);
      SlotIs(pg, |pg| - 4 * i - 4, p.slots[i]);
      assert p.slots[i..][0] == p.slots[i] && p.slots[i..][1..] == p.slots[i + 1..];
      TagsReadBack(pg, p, i + 1);
    } else {
      assert p.slots[i..] == [];
    }
  }

  lemma FlagsReadBack(pg: seq<byte>, p: Page)
    requires LaidOut(pg, p)
    ensures IsRoot(pg) == p.root && IsLeaf(pg) == p.leaf && IsParent(pg) == p.parent
  {
    hide Word32, SlotAt;
    QuadIs(pg, 32, Bit(p.root) + 2 * Bit(p.leaf) + 4 * Bit(p.parent) + 8 * p.other);
    LowFlags(Bit(p.root), Bit(p.leaf), Bit(p.parent), p.other);
  }

  lemma LowFlags(a: nat, b: nat, c: nat, more: nat)
    requires a < 2 && b < 2 && c < 2
    ensures var f := a + 2 * b + 4 * c + 8 * more; f % 2 == a && f / 2 % 2 == b && f / 4 % 2 == c
  {
    var f := a + 2 * b + 4 * c + 8 * more;
    DivUnique(f, 2, b + 2 * c + 4 * more, a);
    DivUnique(b + 2 * c + 4 * more, 2, c + 2 * more, b);
    DivUnique(f, 4, c + 2 * more, a + 2 * b);
    DivUnique(c + 2 * more, 2, more, c);
  }

  lemma RecordIs(pg: seq<byte>, s: Slot)
    requires |pg| >= 40
    ensures TagRecord(pg, Tag(s.size, s.offset, s.deleted)) == Bytes(pg, s)
  {
  }

  lemma {:induction false} AliveReadBack(pg: seq<byte>, slots: seq<Slot>)
    requires |pg| >= 40
    ensures LiveRecords(pg, TagsOf(slots)) == Alive(pg, slots)
  {
    if slots != [] {
      RecordIs(pg, slots[0]);
      AliveReadBack(pg, slots[1..]);
      assert TagsOf(slots)[1..] == TagsOf(slots[1..]);
    }
  }

  lemma ChildReadBack(rec: seq<byte>, page: nat)
    requires EndsIn(rec, page)
    ensures ChildIn(rec) == Some(page)
  {
    hide Word32;
    QuadIs(rec, |rec| - 4, page);
  }

  /** Each live slot but the first names a child, in order; deleted ones may hold anything. */
  predicate NameChildren(pg: seq<byte>, slots: seq<Slot>, children: seq<nat>) {
    if slots == [] then children == []
    else if slots[0].deleted then NameChildren(pg, slots[1..], children)
    else children != [] && EndsIn(Bytes(pg, slots[0]), children[0]) && NameChildren(pg, slots[1..], children[1..])
  }

  lemma {:induction false} ChildrenReadBack(pg: seq<byte>, slots: seq<Slot>, children: seq<nat>)
    requires |pg| >= 40 && NameChildren(pg, slots, children)
    ensures LiveChildren(pg, TagsOf(slots)) == children
    decreases |slots|
  {
    hide EndsIn;
    if slots != [] {
      RecordIs(pg, slots[0]);
      assert TagsOf(slots)[1..] == TagsOf(slots[1..]);
      if slots[0].deleted {
        ChildrenReadBack(pg, slots[1..], children);
      } else {
        ChildReadBack(Bytes(pg, slots[0]), children[0]);
        ChildrenReadBack(pg, slots[1..], children[1..]);
      }
    }
  }

  lemma PageIs(db: Database, n: nat, pg: seq<byte>)
    requires DatabaseOk(db) && PageOfFile(db, n, pg)
    ensures InBounds(db, n) && PageData(db, n) == pg
  {
    assert (n + 2) * db.pageSize == (n + 1) * db.pageSize + db.pageSize;
  }

  /** A leaf page, or the root of a table of one page, contributes its live records but for tag 0, in the order of
      their tags; a leaf links to the next one, if any. */
  lemma LeafReadBack(db: Database, n: nat, pg: seq<byte>, p: Page)
    requires DatabaseOk(db) && PageOfFile(db, n, pg) && LaidOut(pg, p) && p.slots != []
    requires p.leaf || (p.root && !p.parent)
    ensures Records(db, n) == Alive(pg, p.slots[1..])
    ensures Links(db, n) == if p.leaf && p.next != 0 && p.next != 0xFFFF_FFFF then [p.next] else []
  {
    hide Word32, SlotAt, TagsFrom, IsRoot, IsLeaf, IsParent, PageOfFile;
    PageIs(db, n, pg);
    FlagsReadBack(pg, p);
    TagsReadBack(pg, p, 0);
    assert p.slots[0..] == p.slots && TagsOf(p.slots)[1..] == TagsOf(p.slots[1..]);
    AliveReadBack(pg, p.slots[1..]);
    QuadIs(pg, 16, p.next);
  }

  /** A parent page contributes nothing and links to its children in the order of their tags, tag 0 last. */
  lemma ParentReadBack(db: Database, n: nat, pg: seq<byte>, p: Page, children: seq<nat>, first: Option<nat>)
    requires DatabaseOk(db) && PageOfFile(db, n, pg) && LaidOut(pg, p) && p.slots != []
    requires p.parent && !p.leaf
    requires NameChildren(pg, p.slots[1..], children)
    requires if first.Some? then EndsIn(Bytes(pg, p.slots[0]), first.value) else |Bytes(pg, p.slots[0])| < 4
    ensures Records(db, n) == []
    ensures Links(db, n) == children + if first.Some? then [first.value] else []
  {
    hide Word32, SlotAt, TagsFrom, IsRoot, IsLeaf, IsParent, PageOfFile, EndsIn, NameChildren;
    PageIs(db, n, pg);
    FlagsReadBack(pg, p);
    TagsReadBack(pg, p, 0);
    assert p.slots[0..] == p.slots && TagsOf(p.slots)[1..] == TagsOf(p.slots[1..]);
    ChildrenReadBack(pg, p.slots[1..], children);
    RecordIs(pg, p.slots[0]);
    if first.Some? {
      ChildReadBack(Bytes(pg, p.slots[0]), first.value);
    }
  }
}
