/** When a SQLite table scan returns, and that on a tree-shaped page graph it visits every leaf once. */
module SqliteTree {
  import opened Bits
  import opened ByteWrites
  import opened SqliteWal
  import opened SqliteScan

  // ---- Paths of child links --------------------------------------------------------------------

  /** ps is a path of child links from the root. */
  predicate Reaches(src: Source, root: int, first: bool, ps: seq<int>)
    requires Usable(src)
  {
    ps != [] && ps[0] == root && Linked(src, ps, first)
  }

  /** What the scan takes the last page of a path for. */
  function EndKind(src: Source, first: bool, ps: seq<int>): (k: Kind)
    requires Usable(src) && ps != []
    ensures k.LeafPage? || k.Interior? ==> Get(src, ps[|ps| - 1]).Some? && |Get(src, ps[|ps| - 1]).value| >= 512
  {
    KindOf(src, ps[|ps| - 1], first && |ps| == 1)
  }

  function EndChildren(src: Source, first: bool, ps: seq<int>): seq<nat>
    requires Usable(src) && ps != []
  {
    if EndKind(src, first, ps).Interior? then Children(Get(src, ps[|ps| - 1]).value, first && |ps| == 1) else []
  }

  lemma {:induction false} LinkedAppend(src: Source, ps: seq<int>, first: bool, c: nat)
    requires Usable(src) && ps != [] && Linked(src, ps, first) && c in EndChildren(src, first, ps)
    ensures Linked(src, ps + [c], first)
    decreases |ps|
  {
    hide Children, KindOf;
    assert (ps + [c])[1..] == ps[1..] + [c];
    if |ps| > 1 {
      LinkedAppend(src, ps[1..], false, c);
    }
  }

  lemma {:induction false} LinkedTake(src: Source, ps: seq<int>, first: bool, n: nat)
    requires Usable(src) && 0 < n <= |ps| && Linked(src, ps, first)
    ensures Linked(src, ps[..n], first)
    ensures n < |ps| ==> ps[n] >= 0 && ps[n] as nat in EndChildren(src, first, ps[..n])
    decreases n
  {
    hide Children, KindOf;
    if |ps| > 1 {
      assert forall c :: c in Children(Get(src, ps[0]).value, first) ==> c >= 0;
    }
    if n > 1 {
      assert ps[..n][1..] == ps[1..][..n - 1];
      LinkedTake(src, ps[1..], false, n - 1);
    }
  }

  lemma {:induction false} LinkedDrop(src: Source, ps: seq<int>, first: bool, n: nat)
    requires Usable(src) && n < |ps| && Linked(src, ps, first)
    ensures Linked(src, ps[n..], first && n == 0)
    decreases n
  {
    hide Children, KindOf;
    if n > 0 {
      assert ps[n..] == ps[1..][n - 1..];
      LinkedDrop(src, ps[1..], false, n - 1);
    } else {
      assert ps[0..] == ps;
    }
  }

  // ---- The conditions ----------------------------------------------------------------------------

  ghost predicate NoneMissing(src: Source, root: int, first: bool)
    requires Usable(src)
  {
    forall ps :: Reaches(src, root, first, ps) ==> !EndKind(src, first, ps).Missing?
  }

  /** No leaf page on the way holds a cell that stops the program. */
  ghost predicate AllSane(src: Source, root: int, first: bool)
    requires Usable(src)
  {
    forall ps :: Reaches(src, root, first, ps) ==> EndSane(src, first, ps)
  }

  predicate EndSane(src: Source, first: bool, ps: seq<int>)
    requires Usable(src) && ps != []
  {
    EndKind(src, first, ps).LeafPage? ==>
      var pg := Get(src, ps[|ps| - 1]).value; Sane(src, pg, LeafOffsets(pg, first && |ps| == 1))
  }

  /** No page is met twice; page 1 as the root is read differently from page 1 met later. */
  predicate NoReturn(ps: seq<int>, first: bool) {
    forall i, j :: 0 <= i < j < |ps| && (i > 0 || !first) ==> ps[i] != ps[j]
  }

  /** No child link leads back to a page on the way to it. */
  ghost predicate Acyclic(src: Source, root: int, first: bool)
    requires Usable(src)
  {
    forall ps :: Reaches(src, root, first, ps) ==> NoReturn(ps, first)
  }

  // ---- Paths without a cycle are short -----------------------------------------------------------

  /** Every page number that is served. */
  function Served(src: Source): set<int> {
    (set n: nat | n in src.wal :: n as int) + UpTo(|src.data|)
  }

  function UpTo(n: nat): (s: set<int>)
    ensures forall k :: 0 <= k <= n ==> k in s
  {
    if n == 0 then {0} else UpTo(n - 1) + {n}
  }

  lemma ServedHolds(src: Source, n: int)
    requires Usable(src) && Get(src, n).Some?
    ensures n in Served(src)
  {
    if n !in src.wal {
      assert Times(n, src.pageSize) >= n by {
        assert n * src.pageSize == n + n * (src.pageSize - 1);
      }
    }
  }

  lemma {:induction false} DistinctFit(s: seq<int>, all: set<int>)
    requires forall i, j :: 0 <= i < j < |s| ==> s[i] != s[j]
    requires forall i :: 0 <= i < |s| ==> s[i] in all
    ensures |s| <= |all|
  {
    if s != [] {
      var last := s[|s| - 1];
      DistinctFit(s[..|s| - 1], all - {last});
    }
  }

  /** All but the last page of a path are served, so an acyclic path is no longer than the pages allow. */
  lemma PathBound(src: Source, root: int, first: bool, ps: seq<int>)
    requires Usable(src) && Reaches(src, root, first, ps) && NoReturn(ps, first)
    ensures |ps| <= |Served(src)| + 2
  {
    hide Linked, Served, Get;
    if |ps| > 1 {
      var s := ps[1..|ps| - 1];
      forall i | 0 <= i < |s| ensures s[i] in Served(src) {
        LinkedTake(src, ps, first, i + 2);
        assert ps[..i + 2][i + 1] == s[i];
        assert EndChildren(src, first, ps[..i + 2]) != [];
        ServedHolds(src, s[i]);
      }
      DistinctFit(s, Served(src));
    }
  }

  // ---- The tree of calls exists --------------------------------------------------------------------

  /** Kids for the first children, none but the last of which fails. */
  predicate KidsSoFar(src: Source, cs: seq<nat>, kids: seq<Tree>)
    requires Usable(src)
  {
    && |kids| <= |cs|
    && (forall i :: 0 <= i < |kids| ==> kids[i].page == cs[i] && IsTree(src, kids[i], false))
    && (forall i :: 0 <= i < |kids| - 1 ==> !Fails(src, kids[i], false))
  }

  predicate LastFails(src: Source, kids: seq<Tree>)
    requires Usable(src)
  {
    kids != [] && Fails(src, kids[|kids| - 1], false)
  }

  lemma OneMoreKid(src: Source, cs: seq<nat>, kids: seq<Tree>, kid: Tree)
    requires Usable(src) && KidsSoFar(src, cs, kids) && |kids| < |cs| && !LastFails(src, kids)
    requires kid.page == cs[|kids|] && IsTree(src, kid, false)
    ensures KidsSoFar(src, cs, kids + [kid])
  {
    hide IsTree, Fails;
  }

  lemma Assembled(src: Source, first: bool, ps: seq<int>, kids: seq<Tree>)
    requires Usable(src) && ps != [] && EndKind(src, first, ps).Interior?
    requires KidsSoFar(src, EndChildren(src, first, ps), kids)
    requires |kids| == |EndChildren(src, first, ps)| || LastFails(src, kids)
    ensures IsTree(src, Node(ps[|ps| - 1], kids), first && |ps| == 1)
  {
    hide KindOf, Fails;
  }

  lemma ChildlessTree(src: Source, first: bool, ps: seq<int>)
    requires Usable(src) && ps != [] && !EndKind(src, first, ps).Interior? && EndSane(src, first, ps)
    ensures IsTree(src, Node(ps[|ps| - 1], []), first && |ps| == 1)
  {
    hide KindOf, Sane, LeafOffsets;
  }

  /** The calls of the scan on the last page of a path. */
  lemma {:induction false} BuildTree(src: Source, root: int, first: bool, ps: seq<int>) returns (t: Tree)
    requires Usable(src) && AllSane(src, root, first) && Acyclic(src, root, first) && Reaches(src, root, first, ps)
    ensures IsTree(src, t, first && |ps| == 1) && t.page == ps[|ps| - 1]
    decreases |Served(src)| + 2 - |ps|
  {
    hide AllSane, Acyclic, Linked, Served, EndKind, EndChildren, EndSane, IsTree, Fails, KidsSoFar, LastFails;
    if !EndKind(src, first, ps).Interior? {
      SaneAt(src, root, first, ps);
      ChildlessTree(src, first, ps);
      return Node(ps[|ps| - 1], []);
    }
    var cs := EndChildren(src, first, ps);
    var kids: seq<Tree> := [];
    NoKids(src, cs);
    while |kids| < |cs| && !LastFails(src, kids)
      invariant |kids| <= |cs| && KidsSoFar(src, cs, kids)
    {
      var c := cs[|kids|];
      assert (ps + [c])[0] == root;
      LinkedAppend(src, ps, first, c);
      ShortAt(src, root, first, ps + [c]);
      var kid := BuildTree(src, root, first, ps + [c]);
      OneMoreKid(src, cs, kids, kid);
      kids := kids + [kid];
    }
    Assembled(src, first, ps, kids);
    t := Node(ps[|ps| - 1], kids);
  }

  lemma NoKids(src: Source, cs: seq<nat>)
    requires Usable(src)
    ensures KidsSoFar(src, cs, [])
  {
  }

  lemma SaneAt(src: Source, root: int, first: bool, ps: seq<int>)
    requires Usable(src) && AllSane(src, root, first) && Reaches(src, root, first, ps)
    ensures EndSane(src, first, ps)
  {
  }

  lemma ShortAt(src: Source, root: int, first: bool, ps: seq<int>)
    requires Usable(src) && Acyclic(src, root, first) && Reaches(src, root, first, ps)
    ensures |ps| <= |Served(src)| + 2
  {
    PathBound(src, root, first, ps);
  }

  // ---- What the scan of a tree without an error says of the page graph -----------------------------

  /** Where nothing is missing nothing fails. */
  lemma {:induction false} NothingFails(src: Source, root: int, first: bool, ps: seq<int>, t: Tree)
    requires Usable(src) && NoneMissing(src, root, first) && Reaches(src, root, first, ps)
    requires IsTree(src, t, first && |ps| == 1) && t.page == ps[|ps| - 1]
    ensures !Fails(src, t, first && |ps| == 1)
    decreases t
  {
    hide NoneMissing, Linked, IsTree, KindOf, Children;
    PresentAt(src, root, first, ps);
    if t.kids != [] {
      var kid := t.kids[|t.kids| - 1];
      KidsAreTrees(src, t, first && |ps| == 1, |t.kids| - 1);
      KidIsChild(src, t, first, ps, |t.kids| - 1);
      LinkedAppend(src, ps, first, kid.page);
      assert (ps + [kid.page])[0] == root;
      NothingFails(src, root, first, ps + [kid.page], kid);
    }
  }

  lemma PresentAt(src: Source, root: int, first: bool, ps: seq<int>)
    requires Usable(src) && NoneMissing(src, root, first) && Reaches(src, root, first, ps)
    ensures !EndKind(src, first, ps).Missing?
  {
  }

  lemma KidIsChild(src: Source, t: Tree, first: bool, ps: seq<int>, i: nat)
    requires Usable(src) && ps != [] && t.page == ps[|ps| - 1] && IsTree(src, t, first && |ps| == 1) && i < |t.kids|
    ensures t.kids[i].page >= 0 && t.kids[i].page in EndChildren(src, first, ps)
    ensures i < |EndChildren(src, first, ps)| && EndChildren(src, first, ps)[i] == t.kids[i].page
  {
    hide Children, KindOf, Fails;
  }

  /** A page with a tree that does not fail is there, sane, and on no cycle. */
  lemma TreeConditions(src: Source, root: int, first: bool, t: Tree, ps: seq<int>)
    requires Usable(src) && IsTree(src, t, first) && !Fails(src, t, first) && t.page == root
    requires Reaches(src, root, first, ps)
    ensures !EndKind(src, first, ps).Missing? && EndSane(src, first, ps) && NoReturn(ps, first)
  {
    hide Linked, Children, IsTree, Fails;
    var sub := Descend(src, t, first, ps);
    EndOfTree(src, sub, first && |ps| == 1);
    forall i, j | 0 <= i < j < |ps| && (i > 0 || !first) ensures ps[i] != ps[j] {
      NoWayBack(src, root, first, t, ps, i, j);
    }
  }

  lemma EndOfTree(src: Source, t: Tree, first: bool)
    requires Usable(src) && IsTree(src, t, first) && !Fails(src, t, first)
    ensures !KindOf(src, t.page, first).Missing?
    ensures KindOf(src, t.page, first).LeafPage? ==>
              var pg := Get(src, t.page).value; Sane(src, pg, LeafOffsets(pg, first))
  {
    hide KindOf, Sane, LeafOffsets, Children;
  }

  lemma NoWayBack(src: Source, root: int, first: bool, t: Tree, ps: seq<int>, i: nat, j: nat)
    requires Usable(src) && IsTree(src, t, first) && !Fails(src, t, first) && t.page == root
    requires Reaches(src, root, first, ps) && i < j < |ps| && (i > 0 || !first)
    ensures ps[i] != ps[j]
  {
    hide Linked, Children, IsTree, Fails, KindOf;
    if ps[i] == ps[j] {
      LinkedTake(src, ps, first, i + 1);
      LinkedTake(src, ps, first, j + 1);
      var sub := Descend(src, t, first, ps[..i + 1]);
      LinkedDrop(src, ps[..j + 1], first, i);
      CycleFails(src, sub, ps[..j + 1][i..]);
    }
  }

  /** A scan that ends without an error exists exactly when no page reached is missing, none holds a cell
      that stops the program, and no child link leads back. */
  lemma ScanSucceedsIff(src: Source, root: int, first: bool)
    requires Usable(src)
    ensures (exists t :: IsTree(src, t, first) && t.page == root && !Fails(src, t, first)) <==>
            NoneMissing(src, root, first) && AllSane(src, root, first) && Acyclic(src, root, first)
  {
    hide Linked, Children, IsTree, Fails, EndKind, EndSane, NoReturn;
    if NoneMissing(src, root, first) && AllSane(src, root, first) && Acyclic(src, root, first) {
      RootReached(src, root, first);
      var t := BuildTree(src, root, first, [root]);
      NothingFails(src, root, first, [root], t);
      assert IsTree(src, t, first) && t.page == root && !Fails(src, t, first);
    }
    if t :| IsTree(src, t, first) && t.page == root && !Fails(src, t, first) {
      forall ps | Reaches(src, root, first, ps)
        ensures !EndKind(src, first, ps).Missing? && EndSane(src, first, ps) && NoReturn(ps, first)
      {
        TreeConditions(src, root, first, t, ps);
      }
    }
  }

  lemma RootReached(src: Source, root: int, first: bool)
    requires Usable(src)
    ensures Reaches(src, root, first, [root])
  {
  }

  // ---- The result of a scan --------------------------------------------------------------------------

  /** The calls of a scan are determined by its root. */
  lemma {:induction false} OneTree(src: Source, t: Tree, u: Tree, first: bool)
    requires Usable(src) && IsTree(src, t, first) && IsTree(src, u, first) && t.page == u.page
    ensures t == u
    decreases t
  {
    hide KindOf, Children, Sane, LeafOffsets, Fails;
    forall i | 0 <= i < |t.kids| && i < |u.kids| ensures t.kids[i] == u.kids[i] {
      OneTree(src, t.kids[i], u.kids[i], false);
    }
    assert t.kids == u.kids;
  }

  /** The rows delivered and whether an error ended the scan; a scan may also recurse for ever or be stopped. */
  datatype ScanResult = Returned(rows: seq<Row>, err: bool) | NeverReturns

  ghost function ScanOf(src: Source, root: int, first: bool): ScanResult
    requires Usable(src)
  {
    if t :| IsTree(src, t, first) && t.page == root then Returned(RowsOf(src, Leaves(src, t, first)), Fails(src, t, first))
    else NeverReturns
  }

  lemma ScanOfTree(src: Source, t: Tree, first: bool)
    requires Usable(src) && IsTree(src, t, first)
    ensures ScanOf(src, t.page, first) == Returned(RowsOf(src, Leaves(src, t, first)), Fails(src, t, first))
  {
    hide IsTree, Fails, Leaves, RowsOf;
    var u :| IsTree(src, u, first) && u.page == t.page &&
      ScanOf(src, t.page, first) == Returned(RowsOf(src, Leaves(src, u, first)), Fails(src, u, first));
    OneTree(src, t, u, first);
  }

  /** On a page graph without a cycle and without a cell that stops the program the scan returns, and with
      an error exactly when a page it can reach is missing. */
  lemma AcyclicScanReturns(src: Source, root: int, first: bool)
    requires Usable(src) && AllSane(src, root, first) && Acyclic(src, root, first)
    ensures ScanOf(src, root, first).Returned?
    ensures ScanOf(src, root, first).err <==> !NoneMissing(src, root, first)
  {
    hide IsTree, Fails, Leaves, RowsOf, AllSane, Acyclic, NoneMissing, ScanOf;
    RootReached(src, root, first);
    var t := BuildTree(src, root, first, [root]);
    ScanOfTree(src, t, first);
    ScanSucceedsIff(src, root, first);
    if NoneMissing(src, root, first) {
      NothingFails(src, root, first, [root], t);
    }
  }

  /** The scan returns without an error exactly under the three conditions on the page graph. */
  lemma ScanReturnsIff(src: Source, root: int, first: bool)
    requires Usable(src)
    ensures (ScanOf(src, root, first).Returned? && !ScanOf(src, root, first).err) <==>
            NoneMissing(src, root, first) && AllSane(src, root, first) && Acyclic(src, root, first)
  {
    hide IsTree, Fails, Leaves, RowsOf, AllSane, Acyclic, NoneMissing;
    ScanSucceedsIff(src, root, first);
    if t :| IsTree(src, t, first) && t.page == root && !Fails(src, t, first) {
      ScanOfTree(src, t, first);
    }
  }

  // ---- A page that is its own child ------------------------------------------------------------------

  lemma {:induction false} OwnChildHasNoTree(src: Source, t: Tree)
    requires Usable(src) && KindOf(src, t.page, false).Interior?
    requires Children(Get(src, t.page).value, false)[..1] == [t.page]
    ensures !IsTree(src, t, false)
    decreases t
  {
    hide KindOf, Children, Fails;
    if IsTree(src, t, false) {
      assert t.kids[0].page == Children(Get(src, t.page).value, false)[..1][0];
      OwnChildHasNoTree(src, t.kids[0]);
    }
  }

  lemma FirstKid(src: Source, t: Tree, first: bool)
    requires Usable(src) && KindOf(src, t.page, first).Interior?
    ensures IsTree(src, t, first) ==>
              t.kids != [] && IsTree(src, t.kids[0], false) && t.kids[0].page == Children(Get(src, t.page).value, first)[0]
  {
    hide KindOf, Children, Fails;
  }

  /** Above it too nothing returns: a page whose first child has no tree has none. */
  lemma NoTreeAbove(src: Source, n: int, first: bool, child: int)
    requires Usable(src) && KindOf(src, n, first).Interior?
    requires Children(Get(src, n).value, first)[0] == child
    requires forall t: Tree :: t.page == child ==> !IsTree(src, t, false)
    ensures forall t: Tree :: t.page == n ==> !IsTree(src, t, first)
  {
    hide KindOf, Children, Fails, IsTree;
    forall t: Tree | t.page == n ensures !IsTree(src, t, first) {
      FirstKid(src, t, first);
    }
  }

  // ---- Tree-shaped page graphs -----------------------------------------------------------------------

  /** Every page is the child of at most one page reached, at one place, and the root is nobody's. */
  ghost predicate TreeShaped(src: Source, root: int, first: bool)
    requires Usable(src)
  {
    && (forall ps :: Reaches(src, root, first, ps) ==> root <= 0 || root !in EndChildren(src, first, ps))
    && (forall ps, qs :: Reaches(src, root, first, ps) && Reaches(src, root, first, qs) ==>
          OneParent(src, first, ps, qs))
  }

  /** A page that is a child at the ends of both paths is so at one place of one page. */
  predicate OneParent(src: Source, first: bool, ps: seq<int>, qs: seq<int>)
    requires Usable(src) && ps != [] && qs != []
  {
    forall i, j :: 0 <= i < |EndChildren(src, first, ps)| && 0 <= j < |EndChildren(src, first, qs)| &&
                   EndChildren(src, first, ps)[i] == EndChildren(src, first, qs)[j] > 0 ==>
      i == j && ps[|ps| - 1] == qs[|qs| - 1]
  }

  lemma PathFront(src: Source, root: int, first: bool, ps: seq<int>)
    requires Usable(src) && Reaches(src, root, first, ps) && |ps| > 1
    ensures Reaches(src, root, first, ps[..|ps| - 1])
    ensures ps[|ps| - 1] >= 0 && ps[|ps| - 1] as nat in EndChildren(src, first, ps[..|ps| - 1])
    ensures ps[|ps| - 2] > 0
  {
    hide Linked, EndChildren;
    LinkedTake(src, ps, first, |ps| - 1);
    InteriorIsPositive(src, first, ps[..|ps| - 1]);
  }

  lemma InteriorIsPositive(src: Source, first: bool, ps: seq<int>)
    requires Usable(src) && ps != [] && EndChildren(src, first, ps) != []
    ensures ps[|ps| - 1] > 0
  {
  }

  /** In a tree-shaped graph only one path leads to a page. */
  lemma {:induction false} OnePath(src: Source, root: int, first: bool, ps: seq<int>, qs: seq<int>)
    requires Usable(src) && TreeShaped(src, root, first)
    requires Reaches(src, root, first, ps) && Reaches(src, root, first, qs) && ps[|ps| - 1] == qs[|qs| - 1] > 0
    ensures ps == qs
    decreases |ps|
  {
    hide Linked, EndChildren, TreeShaped;
    if |ps| > 1 {
      PathFront(src, root, first, ps);
      NotTheRoot(src, root, first, ps[..|ps| - 1]);
    }
    if |qs| > 1 {
      PathFront(src, root, first, qs);
      NotTheRoot(src, root, first, qs[..|qs| - 1]);
    }
    if |ps| > 1 && |qs| > 1 {
      var p, q := ps[..|ps| - 1], qs[..|qs| - 1];
      SameParent(src, root, first, p, q, ps[|ps| - 1]);
      OnePath(src, root, first, p, q);
      assert ps == p + [ps[|ps| - 1]] && qs == q + [qs[|qs| - 1]];
    }
  }

  lemma NotTheRoot(src: Source, root: int, first: bool, ps: seq<int>)
    requires Usable(src) && TreeShaped(src, root, first) && Reaches(src, root, first, ps)
    ensures root <= 0 || root !in EndChildren(src, first, ps)
  {
  }

  lemma SameParent(src: Source, root: int, first: bool, ps: seq<int>, qs: seq<int>, page: int)
    requires Usable(src) && TreeShaped(src, root, first) && page > 0
    requires Reaches(src, root, first, ps) && Reaches(src, root, first, qs)
    requires page in EndChildren(src, first, ps) && page in EndChildren(src, first, qs)
    ensures ps[|ps| - 1] == qs[|qs| - 1]
  {
    hide Linked, EndChildren;
    assert OneParent(src, first, ps, qs);
    var i :| 0 <= i < |EndChildren(src, first, ps)| && EndChildren(src, first, ps)[i] == page;
    var j :| 0 <= j < |EndChildren(src, first, qs)| && EndChildren(src, first, qs)[j] == page;
  }

  /** A tree-shaped graph has no cycle. */
  lemma TreeShapedIsAcyclic(src: Source, root: int, first: bool)
    requires Usable(src) && TreeShaped(src, root, first)
    ensures Acyclic(src, root, first)
  {
    hide Linked, EndChildren, TreeShaped;
    forall ps | Reaches(src, root, first, ps) ensures NoReturn(ps, first) {
      forall i, j | 0 <= i < j < |ps| && (i > 0 || !first) ensures ps[i] != ps[j] {
        LinkedTake(src, ps, first, i + 1);
        LinkedTake(src, ps, first, j + 1);
        InteriorIsPositive(src, first, ps[..i + 1]);
        if ps[i] == ps[j] {
          OnePath(src, root, first, ps[..i + 1], ps[..j + 1]);
        }
      }
    }
  }

  // ---- Every leaf once -------------------------------------------------------------------------------

  lemma {:induction false} LinkedConcat(src: Source, ps: seq<int>, qs: seq<int>, first: bool)
    requires Usable(src) && ps != [] && qs != [] && Linked(src, ps, first) && Linked(src, qs, false)
    requires qs[0] >= 0 && qs[0] as nat in EndChildren(src, first, ps)
    ensures Linked(src, ps + qs, first)
    decreases |ps|
  {
    hide Children, KindOf;
    assert (ps + qs)[1..] == ps[1..] + qs;
    if |ps| > 1 {
      LinkedConcat(src, ps[1..], qs, false);
    }
  }

  /** A page the scan is called on is reached, from the page of the call on. */
  lemma {:induction false} PathTo(src: Source, t: Tree, first: bool, n: int) returns (ps: seq<int>)
    requires Usable(src) && IsTree(src, t, first) && Calls(t, n) > 0
    ensures Reaches(src, t.page, first, ps) && ps[|ps| - 1] == n && (t.page == n ==> ps == [n])
    decreases t
  {
    hide Children, KindOf, IsTree, Fails;
    if t.page == n {
      return [n];
    }
    var i := CalledKid(t, n, 0);
    var kid := t.kids[i];
    KidsAreTrees(src, t, first, i);
    var qs := PathTo(src, kid, false, n);
    KidIsChild(src, t, first, [t.page], i);
    LinkedConcat(src, [t.page], qs, first);
    ps := [t.page] + qs;
  }

  lemma {:induction false} CalledKid(t: Tree, n: int, from: nat) returns (i: nat)
    requires from <= |t.kids| && CallsFrom(t, n, from) > 0
    ensures from <= i < |t.kids| && Calls(t.kids[i], n) > 0
    decreases |t.kids| - from
  {
    hide Calls;
    if Calls(t.kids[from], n) > 0 {
      return from;
    }
    i := CalledKid(t, n, from + 1);
  }

  /** The path from the root through a kid to a page the kid is called on. */
  lemma PathThrough(src: Source, root: int, first: bool, ps: seq<int>, t: Tree, i: nat, n: int) returns (all: seq<int>)
    requires Usable(src) && Reaches(src, root, first, ps) && t.page == ps[|ps| - 1]
    requires IsTree(src, t, first && |ps| == 1) && i < |t.kids| && Calls(t.kids[i], n) > 0 && n > 0
    ensures Reaches(src, root, first, all) && all[|all| - 1] == n
    ensures ps < all && all[|ps|] == t.kids[i].page > 0
  {
    hide Linked, IsTree, Calls, EndChildren;
    KidsAreTrees(src, t, first && |ps| == 1, i);
    KidIsChild(src, t, first, ps, i);
    var qs := PathTo(src, t.kids[i], false, n);
    LinkedConcat(src, ps, qs, first);
    all := ps + qs;
    if |qs| > 1 {
      PathFront(src, t.kids[i].page, false, qs);
      LinkedTake(src, qs, false, 1);
      InteriorIsPositive(src, false, qs[..1]);
    }
  }

  /** No two kids, nor a page and one of its kids, are called on the same page. */
  lemma TwoCalls(src: Source, root: int, first: bool, ps: seq<int>, t: Tree, i: nat, n: int)
    requires Usable(src) && TreeShaped(src, root, first) && Reaches(src, root, first, ps) && t.page == ps[|ps| - 1]
    requires IsTree(src, t, first && |ps| == 1) && i < |t.kids| && Calls(t.kids[i], n) > 0 && n > 0
    ensures t.page != n && CallsFrom(t, n, i + 1) == 0
  {
    hide Linked, IsTree, Calls, CallsFrom, TreeShaped, EndChildren;
    var all := PathThrough(src, root, first, ps, t, i, n);
    if t.page == n {
      OnePath(src, root, first, ps, all);
    }
    if CallsFrom(t, n, i + 1) > 0 {
      var j := CalledKid(t, n, i + 1);
      var other := PathThrough(src, root, first, ps, t, j, n);
      OnePath(src, root, first, all, other);
      KidIsChild(src, t, first, ps, i);
      KidIsChild(src, t, first, ps, j);
      OneParentOf(src, root, first, ps);
    }
  }

  lemma OneParentOf(src: Source, root: int, first: bool, ps: seq<int>)
    requires Usable(src) && TreeShaped(src, root, first) && Reaches(src, root, first, ps)
    ensures OneParent(src, first, ps, ps)
  {
  }

  /** On a tree-shaped graph the scan is called on a page at most once. */
  lemma {:induction false} CalledOnce(src: Source, root: int, first: bool, ps: seq<int>, t: Tree, n: int)
    requires Usable(src) && TreeShaped(src, root, first) && Reaches(src, root, first, ps) && t.page == ps[|ps| - 1]
    requires IsTree(src, t, first && |ps| == 1) && n > 0
    ensures Calls(t, n) <= 1
    decreases t, |t.kids| + 1
  {
    hide Linked, IsTree, TreeShaped, CallsFrom;
    CalledOnceFrom(src, root, first, ps, t, n, 0);
  }

  lemma {:induction false} CalledOnceFrom(src: Source, root: int, first: bool, ps: seq<int>, t: Tree, n: int, i: nat)
    requires Usable(src) && TreeShaped(src, root, first) && Reaches(src, root, first, ps) && t.page == ps[|ps| - 1]
    requires IsTree(src, t, first && |ps| == 1) && n > 0 && i <= |t.kids|
    ensures CallsFrom(t, n, i) <= if t.page == n then 0 else 1
    decreases t, |t.kids| - i
  {
    hide Linked, IsTree, TreeShaped, Calls, EndChildren;
    if i < |t.kids| {
      var kid := t.kids[i];
      KidsAreTrees(src, t, first && |ps| == 1, i);
      KidIsChild(src, t, first, ps, i);
      LinkedAppend(src, ps, first, kid.page);
      CalledOnce(src, root, first, ps + [kid.page], kid, n);
      CalledOnceFrom(src, root, first, ps, t, n, i + 1);
      if Calls(kid, n) > 0 {
        TwoCalls(src, root, first, ps, t, i, n);
      }
    }
  }

  lemma {:induction false} VisitedIfIn(leaves: seq<(int, bool)>, x: (int, bool))
    requires x in leaves
    ensures Visits(leaves, x.0) > 0
  {
    if leaves[0] != x {
      VisitedIfIn(leaves[1..], x);
    }
  }

  /** On a tree-shaped graph with nothing missing and no cell that stops the program, the scan returns
      without an error, and visits exactly the leaf pages that child links lead to, each once. */
  lemma EachLeafOnce(src: Source, root: int, first: bool) returns (t: Tree)
    requires Usable(src) && TreeShaped(src, root, first) && NoneMissing(src, root, first) && AllSane(src, root, first)
    ensures IsTree(src, t, first) && t.page == root && !Fails(src, t, first)
    ensures ScanOf(src, root, first) == Returned(RowsOf(src, Leaves(src, t, first)), false)
    ensures forall ps :: Reaches(src, root, first, ps) && EndKind(src, first, ps).LeafPage? ==>
              Visits(Leaves(src, t, first), ps[|ps| - 1]) == 1
    ensures forall n :: Visits(Leaves(src, t, first), n) > 0 ==>
              exists ps :: Reaches(src, root, first, ps) && ps[|ps| - 1] == n
  {
    hide Linked, IsTree, Fails, TreeShaped, NoneMissing, AllSane, Acyclic, Leaves, RowsOf, ScanOf, Visits, Calls;
    TreeShapedIsAcyclic(src, root, first);
    RootReached(src, root, first);
    t := BuildTree(src, root, first, [root]);
    NothingFails(src, root, first, [root], t);
    ScanOfTree(src, t, first);
    forall ps | Reaches(src, root, first, ps) && EndKind(src, first, ps).LeafPage?
      ensures Visits(Leaves(src, t, first), ps[|ps| - 1]) == 1
    {
      var n := ps[|ps| - 1];
      ReachedLeavesAreVisited(src, t, first, ps);
      VisitedIfIn(Leaves(src, t, first), (n, first && |ps| == 1));
      VisitedPerCall(src, t, first, n);
      CalledOnce(src, root, first, [root], t, n);
    }
    forall n | Visits(Leaves(src, t, first), n) > 0
      ensures exists ps :: Reaches(src, root, first, ps) && ps[|ps| - 1] == n
    {
      VisitedPerCall(src, t, first, n);
      var ps := PathTo(src, t, first, n);
    }
  }

  // ---- Sources that serve the same pages -------------------------------------------------------------

  lemma SameScan(a: Source, b: Source, root: int, first: bool)
    requires Usable(a) && Usable(b) && SamePages(a, b)
    ensures ScanOf(a, root, first) == ScanOf(b, root, first)
  {
    hide IsTree, Fails, Leaves, RowsOf, SamePages, Usable, ScanOf;
    SameScanIfReturned(a, b, root, first);
    SamePagesBack(a, b);
    SameScanIfReturned(b, a, root, first);
  }

  lemma SamePagesBack(a: Source, b: Source)
    requires SamePages(a, b)
    ensures SamePages(b, a)
  {
  }

  lemma SameScanIfReturned(a: Source, b: Source, root: int, first: bool)
    requires Usable(a) && Usable(b) && SamePages(a, b)
    ensures ScanOf(a, root, first).Returned? ==> ScanOf(a, root, first) == ScanOf(b, root, first)
  {
    hide IsTree, Fails, Leaves, RowsOf, SamePages, Usable;
    if t :| IsTree(a, t, first) && t.page == root {
      SameTree(a, b, t, first);
      SameFails(a, b, t, first);
      SameLeaves(a, b, t, first);
      SameRowsOf(a, b, Leaves(a, t, first));
      ScanOfTree(a, t, first);
      ScanOfTree(b, t, first);
    }
  }

  /** Without a gap, scanning a table through the overlay and scanning the patched file have the same result:
      the same rows in the same order and the same error, or neither returns. */
  lemma ScanThroughOverlay(data: seq<byte>, pageSize: nat, walData: seq<byte>, root: int, first: bool)
    requires pageSize >= 512 && (IsWal(walData) ==> WalPageSize(walData, pageSize) == pageSize)
    requires NoGaps(data, pageSize, walData)
    ensures var a, b := Overlay(data, pageSize, walData), PatchedSource(data, pageSize, walData);
            Usable(a) && Usable(b) && ScanOf(a, root, first) == ScanOf(b, root, first)
  {
    hide ScanOf, SamePages, NoGaps;
    OverlayIsUsable(data, pageSize, walData);
    OverlayIsPatchedSource(data, pageSize, walData);
    SameScan(Overlay(data, pageSize, walData), PatchedSource(data, pageSize, walData), root, first);
  }

  lemma ChildlessScan(src: Source, n: int, first: bool)
    requires Usable(src) && (KindOf(src, n, first).Nothing? || KindOf(src, n, first).Missing?)
    ensures ScanOf(src, n, first) == Returned([], KindOf(src, n, first).Missing?)
  {
    hide KindOf, ScanOf;
    var t := Node(n, []);
    assert IsTree(src, t, first) && Leaves(src, t, first) == [];
    ScanOfTree(src, t, first);
  }

  lemma WholePages(pageSize: nat, len: nat)
    requires pageSize > 0 && len % pageSize == 0
    ensures Times(len / pageSize, pageSize) == len
  {
  }

  lemma WholePagesBefore(n: nat, pageSize: nat, len: nat)
    requires pageSize > 0 && n >= 1 && len % pageSize == 0 && len < Times(n, pageSize)
    ensures len <= Times(n - 1, pageSize)
  {
    hide Times;
    var q := len / pageSize;
    WholePages(pageSize, len);
    if n <= q {
      TimesGrows(n, q, pageSize);
    } else {
      TimesGrows(q, n - 1, pageSize);
    }
  }

  /** A scan from a number below 1 finds nothing, one from a page that is neither in the file nor over it fails. */
  lemma NoPageToScan(src: Source, n: int, first: bool)
    requires Usable(src) && (n < 1 || (n !in src.wal && Times(n, src.pageSize) > |src.data|))
    ensures ScanOf(src, n, first) == Returned([], n >= 1)
  {
    hide ScanOf, Times;
    ChildlessScan(src, n, first);
  }

  /** Behind a file of whole pages a gap starts with a zero in the patched file. */
  lemma GapIsZero(data: seq<byte>, pageSize: nat, fs: seq<Frame>, n: nat)
    requires pageSize >= 512 && PageFrames(fs, pageSize) && |data| % pageSize == 0 && Gap(data, pageSize, fs, n)
    ensures PageBytes(Patched(data, pageSize, fs), pageSize, n)[0] == 0
    ensures PageBytes(Patched(data, pageSize, fs), pageSize, n)[100] == 0
  {
    hide Times, Replayed, LastByte, FrameWrites, LastFrame;
    WholePagesBefore(n, pageSize, |data|);
    PageStart(n, pageSize);
    PageByte(fs, pageSize, n, 0);
    PageByte(fs, pageSize, n, 100);
    ReplayedAt(data, FrameWrites(fs, pageSize));
  }

  /** The scan of a gap fails through the overlay and finds nothing in the patched file. */
  lemma GapShows(data: seq<byte>, pageSize: nat, walData: seq<byte>, n: nat, first: bool)
    requires pageSize >= 512 && (IsWal(walData) ==> WalPageSize(walData, pageSize) == pageSize)
    requires |data| % pageSize == 0 && Gap(data, pageSize, Frames(walData, pageSize), n)
    ensures var a, b := Overlay(data, pageSize, walData), PatchedSource(data, pageSize, walData);
            && Usable(a) && Usable(b)
            && ScanOf(a, n, first) == Returned([], true) && ScanOf(b, n, first) == Returned([], false)
  {
    hide Times, Frames, Patched, Overlaid, LastFrame, PageBytes, ScanOf;
    var a, b := Overlay(data, pageSize, walData), PatchedSource(data, pageSize, walData);
    var fs := Frames(walData, pageSize);
    OverlayIsUsable(data, pageSize, walData);
    FramesArePages(walData, pageSize);
    OverlayIsPatchedFile(data, pageSize, fs, n);
    GapIsZero(data, pageSize, fs, n);
    assert Get(b, n) == Some(PageBytes(Patched(data, pageSize, fs), pageSize, n));
    ChildlessScan(a, n, first);
    ChildlessScan(b, n, first);
  }

  /** Over a file of whole pages all scans agree exactly when the frames leave no gap. */
  lemma ScansAgreeIff(data: seq<byte>, pageSize: nat, walData: seq<byte>)
    requires pageSize >= 512 && (IsWal(walData) ==> WalPageSize(walData, pageSize) == pageSize)
    requires |data| % pageSize == 0
    ensures var a, b := Overlay(data, pageSize, walData), PatchedSource(data, pageSize, walData);
            && Usable(a) && Usable(b)
            && ((forall root: int, first: bool :: ScanOf(a, root, first) == ScanOf(b, root, first)) <==>
                NoGaps(data, pageSize, walData))
  {
    hide Times, Frames, Patched, LastFrame, ScanOf, Overlay, PatchedSource, IsWal, WalPageSize, Usable;
    var a, b := Overlay(data, pageSize, walData), PatchedSource(data, pageSize, walData);
    OverlayIsUsable(data, pageSize, walData);
    if NoGaps(data, pageSize, walData) {
      forall root: int, first: bool ensures ScanOf(a, root, first) == ScanOf(b, root, first) {
        ScanThroughOverlay(data, pageSize, walData, root, first);
      }
    } else {
      var n: nat :| Gap(data, pageSize, Frames(walData, pageSize), n);
      GapShows(data, pageSize, walData, n, false);
      assert ScanOf(a, n, false) != ScanOf(b, n, false);
    }
  }
}
