/** The walk as it runs: a visited set and a record list updated by recursion. */
module EseWalker {
  import opened Bits
  import opened EsePages

  method ReadTags(pg: seq<byte>) returns (tags: seq<Tag>)
    requires |pg| >= HEADER_SIZE
    ensures tags == Tags(pg)
  {
    hide TagAt;
    tags := [];
    var cpTag := Word16(pg, 30);
    for i := 0 to cpTag
      invariant tags + TagsFrom(pg, i) == Tags(pg)
    {
      if |pg| - (i + 1) * 4 < HEADER_SIZE {
        break;
      }
      tags := tags + [TagAt(pg, |pg| - (i + 1) * 4)];
    }
  }

  class Walker {
    const db: Database
    var visited: set<nat>
    var records: seq<seq<byte>>
    ghost var order: seq<nat>

    ghost predicate Valid()
      reads this
    {
      DatabaseOk(db) && visited == Visited(View())
    }

    ghost function View(): State
      reads this
    {
      State(order, records)
    }

    constructor (db: Database)
      requires DatabaseOk(db)
      ensures Valid() && this.db == db && View() == START
    {
      this.db := db;
      visited, records, order := {}, [], [];
    }

    /** Append the live non-empty records of tags 1 and on. */
    method CollectRecords(pg: seq<byte>, tags: seq<Tag>)
      requires Valid() && |pg| >= HEADER_SIZE
      modifies this`records
      ensures Valid() && records == old(records) + LiveRecords(pg, Behind(tags))
    {
      hide TagRecord;
      var i := 1;
      while i < |tags|
        invariant 1 <= i && (tags == [] || i <= |tags|)
        invariant tags == [] ==> records == old(records)
        invariant tags != [] ==> records + LiveRecords(pg, tags[i..]) == old(records) + LiveRecords(pg, tags[1..])
      {
        assert tags[i..][0] == tags[i] && tags[i..][1..] == tags[i + 1..];
        if !tags[i].deleted {
          var rec := TagRecord(pg, tags[i]);
          if |rec| > 0 {
            records := records + [rec];
          }
        }
        i := i + 1;
      }
      assert tags != [] ==> tags[i..] == [];
    }

    /** Walk every child named by a live tag from 1 on, in order. */
    method WalkChildren(pg: seq<byte>, tags: seq<Tag>)
      requires Valid() && |pg| >= HEADER_SIZE
      modifies this`visited, this`records, this`order
      ensures Valid() && View() == WalkedAll(db, old(View()), LiveChildren(pg, Behind(tags)))
      decreases |Unvisited(db, View())|, |tags| + 2
    {
      hide TagRecord, Unvisited, Walked, Visited, DatabaseOk;
      var i := 1;
      while i < |tags|
        invariant 1 <= i && (tags == [] || i <= |tags|) && Valid()
        invariant old(order) <= order && (tags == [] ==> View() == old(View()))
        invariant tags != [] ==> WalkedAll(db, View(), LiveChildren(pg, tags[i..])) ==
                                 WalkedAll(db, old(View()), LiveChildren(pg, tags[1..]))
      {
        assert tags[i..][0] == tags[i] && tags[i..][1..] == tags[i + 1..];
        if !tags[i].deleted {
          var child := ChildIn(TagRecord(pg, tags[i]));
          if child.Some? {
            GrowingShrinks(db, old(View()), View());
            Walk(child.value);
          }
        }
        i := i + 1;
      }
      assert tags != [] ==> tags[i..] == [];
    }

    /** What a leaf does: collect, then go on to the next leaf. */
    method WalkLeaf(pg: seq<byte>, tags: seq<Tag>)
      requires Valid() && |pg| >= HEADER_SIZE
      modifies this`visited, this`records, this`order
      ensures Valid()
      ensures View() == WalkedAll(db, State(old(order), old(records) + LiveRecords(pg, Behind(tags))), NextLeaf(pg))
      decreases |Unvisited(db, View())|, 1
    {
      hide Unvisited, Walked, LiveRecords;
      CollectRecords(pg, tags);
      var nextPage := Word32(pg, 16);
      if IsPageNumber(nextPage) {
        GrowingShrinks(db, old(View()), View());
        Walk(nextPage);
      }
    }

    /** What an interior page does: the children of tags 1 and on, then that of tag 0. */
    method WalkParent(pg: seq<byte>, tags: seq<Tag>)
      requires Valid() && |pg| >= HEADER_SIZE && tags == Tags(pg)
      modifies this`visited, this`records, this`order
      ensures Valid()
      ensures View() == WalkedAll(db, old(View()), LiveChildren(pg, Behind(tags)) + FirstChild(pg))
      decreases |Unvisited(db, View())|, |tags| + 3
    {
      hide Unvisited, Walked, LiveChildren, Tags, TagRecord, ChildIn, IsPageNumber;
      WalkedAllConcat(db, View(), LiveChildren(pg, Behind(tags)), FirstChild(pg));
      WalkChildren(pg, tags);
      if |tags| > 0 {
        var child := ChildIn(TagRecord(pg, tags[0]));
        if child.Some? {
          GrowingShrinks(db, old(View()), View());
          Walk(child.value);
        }
      }
    }

    /** Visit a page once, collect its records, follow its links. */
    method Walk(pn: nat)
      requires Valid()
      modifies this`visited, this`records, this`order
      ensures Valid() && View() == Walked(db, old(View()), pn)
      decreases |Unvisited(db, View())|, 0
    {
      hide Unvisited, LiveRecords, LiveChildren, NextLeaf, FirstChild, Tags, WalkedAll,
        IsLeaf, IsParent, IsRoot, InBounds, PageData;
      if !IsPageNumber(pn) || pn in visited {
        return;
      }
      visited := visited + {pn};
      order := order + [pn];
      if !InBounds(db, pn) {
        return;
      }
      MarkingShrinks(db, old(View()), pn);
      SameOrderSameUnvisited(db, Marked(db, old(View()), pn), View());
      NothingToFollow(db, Marked(db, old(View()), pn));
      var pg := PageData(db, pn);
      var tags := ReadTags(pg);
      assert records + [] == records;
      if IsLeaf(pg) {
        WalkLeaf(pg, tags);
      } else if IsParent(pg) {
        WalkParent(pg, tags);
      } else if IsRoot(pg) {
        CollectRecords(pg, tags);
      }
    }
  }

  lemma SameOrderSameUnvisited(db: Database, a: State, b: State)
    requires a.order == b.order
    ensures Unvisited(db, a) == Unvisited(db, b)
  {
  }

  lemma NothingToFollow(db: Database, st: State)
    requires DatabaseOk(db)
    ensures WalkedAll(db, st, []) == st
  {
  }

  method CollectLeafRecords(db: Database, rootPageNum: nat) returns (records: seq<seq<byte>>)
    requires DatabaseOk(db)
    ensures records == Walked(db, START, rootPageNum).records
  {
    var w := new Walker(db);
    w.Walk(rootPageNum);
    records := w.records;
  }
}
