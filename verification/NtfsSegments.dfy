/** Run lists spread over extension records: the segments are sorted by their first cluster and joined. */
module NtfsSegments {
  import opened Bits
  import opened NtfsRuns

  datatype Segment = Segment(startVcn: int, runs: seq<DataRun>, dataSize: int)

  // ---- Sorting ---------------------------------------------------------------------------------

  /** x behind everything that does not start after it. */
  function Insert(s: seq<Segment>, x: Segment): (r: seq<Segment>)
    ensures |r| == |s| + 1
  {
    if s == [] || s[|s| - 1].startVcn <= x.startVcn then s + [x]
    else Insert(s[..|s| - 1], x) + [s[|s| - 1]]
  }

  function Sorted(s: seq<Segment>): (r: seq<Segment>)
    ensures |r| == |s|
  {
    if s == [] then [] else Insert(Sorted(s[..|s| - 1]), s[|s| - 1])
  }

  /** Neighbours are swapped until the i-th segment is in its place. */
  method SortSegments(segments: array<Segment>)
    modifies segments
    ensures segments[..] == Sorted(old(segments[..]))
  {
    ghost var before := segments[..];
    var i := 1;
    SortedOne(before);
    while i < segments.Length
      invariant i <= segments.Length || segments.Length == 0
      invariant segments.Length > 0 ==> 1 <= i && segments[..i] == Sorted(before[..i])
      invariant segments.Length > 0 ==> segments[i..] == before[i..]
    {
      SiftDown(segments, i);
      assert before[..i + 1][..i] == before[..i];
      assert segments[i + 1..] == before[i..][1..];
      i := i + 1;
    }
    assert segments.Length > 0 ==> before[..i] == before && segments[..i] == segments[..];
  }

  lemma SortedOne(s: seq<Segment>)
    ensures |s| > 0 ==> Sorted(s[..1]) == s[..1]
  {
    if |s| > 0 {
      assert s[..1][..0] == [];
      assert [] + [s[0]] == s[..1];
    }
  }

  method SiftDown(segments: array<Segment>, i: nat)
    requires 0 < i < segments.Length
    modifies segments
    ensures segments[..i + 1] == Insert(old(segments[..i]), old(segments[i]))
    ensures segments[i + 1..] == old(segments[i + 1..])
  {
    hide Insert;
    ghost var p, x := segments[..i], segments[i];
    var j := i;
    InsertAt(p, x, j);
    while j > 0 && segments[j].startVcn < segments[j - 1].startVcn
      invariant 0 <= j <= i
      invariant segments[j] == x
      invariant forall k :: 0 <= k < j ==> segments[k] == p[k]
      invariant forall k :: j < k <= i ==> segments[k] == p[k - 1]
      invariant segments[i + 1..] == old(segments[i + 1..])
      invariant Insert(p, x) == Insert(p[..j], x) + p[j..]
    {
      InsertStep(p, x, j);
      segments[j], segments[j - 1] := segments[j - 1], segments[j];
      j := j - 1;
    }
    InsertAt(p, x, j);
    assert segments[..i + 1] == p[..j] + [x] + p[j..];
  }

  lemma InsertAt(p: seq<Segment>, x: Segment, j: nat)
    requires j <= |p|
    ensures p[..|p|] == p && p[|p|..] == [] && Insert(p, x) == Insert(p[..|p|], x) + p[|p|..]
    ensures j == 0 || p[j - 1].startVcn <= x.startVcn ==> Insert(p[..j], x) == p[..j] + [x]
  {
  }

  lemma InsertStep(p: seq<Segment>, x: Segment, j: nat)
    requires 0 < j <= |p| && x.startVcn < p[j - 1].startVcn
    ensures Insert(p[..j], x) + p[j..] == Insert(p[..j - 1], x) + p[j - 1..]
  {
    assert p[..j][..j - 1] == p[..j - 1];
    assert p[j - 1..] == [p[j - 1]] + p[j..];
  }

  predicate Ordered(s: seq<Segment>) {
    forall i, j :: 0 <= i < j < |s| ==> s[i].startVcn <= s[j].startVcn
  }

  lemma {:induction false} InsertKeeps(s: seq<Segment>, x: Segment)
    ensures multiset(Insert(s, x)) == multiset(s) + multiset{x}
  {
    if s != [] && s[|s| - 1].startVcn > x.startVcn {
      var front, last := s[..|s| - 1], s[|s| - 1];
      InsertKeeps(front, x);
      assert s == front + [last];
    }
  }

  lemma {:induction false} InsertOrdered(s: seq<Segment>, x: Segment)
    requires Ordered(s)
    ensures Ordered(Insert(s, x))
  {
    if s != [] && s[|s| - 1].startVcn > x.startVcn {
      var front, last := s[..|s| - 1], s[|s| - 1];
      InsertOrdered(front, x);
      var r := Insert(front, x);
      forall k | 0 <= k < |r| ensures r[k].startVcn <= last.startVcn {
        InsertKeeps(front, x);
        assert r[k] in multiset(r);
        assert r[k] == x || r[k] in front;
      }
      assert Insert(s, x) == r + [last];
    }
  }

  /** The result is in order and holds the same segments. */
  lemma {:induction false} SortedOrdered(s: seq<Segment>)
    ensures Ordered(Sorted(s)) && multiset(Sorted(s)) == multiset(s)
  {
    if s != [] {
      SortedOrdered(s[..|s| - 1]);
      InsertOrdered(Sorted(s[..|s| - 1]), s[|s| - 1]);
      InsertKeeps(Sorted(s[..|s| - 1]), s[|s| - 1]);
      assert s == s[..|s| - 1] + [s[|s| - 1]];
    }
  }

  // ---- Joining ---------------------------------------------------------------------------------

  function Joined(s: seq<Segment>): seq<DataRun> {
    if s == [] then [] else Joined(s[..|s| - 1]) + s[|s| - 1].runs
  }

  /** The size stated by the last segment that starts at cluster 0 and states one; else 0. */
  function StatedSize(s: seq<Segment>): int {
    if s == [] then 0
    else if s[|s| - 1].startVcn == 0 && s[|s| - 1].dataSize > 0 then s[|s| - 1].dataSize
    else StatedSize(s[..|s| - 1])
  }

  /** The bytes of all clusters that are not sparse. */
  function AllocatedSize(runs: seq<DataRun>, clusterSize: int): int {
    if runs == [] then 0
    else
      var run := runs[|runs| - 1];
      AllocatedSize(runs[..|runs| - 1], clusterSize) + (if run.lcn >= 0 then run.length * clusterSize else 0)
  }

  method JoinSegments(segments: array<Segment>, clusterSize: int) returns (allRuns: seq<DataRun>, totalSize: int)
    modifies segments
    ensures var sorted := Sorted(old(segments[..]));
            && allRuns == Joined(sorted)
            && totalSize == if StatedSize(sorted) == 0 then AllocatedSize(allRuns, clusterSize) else StatedSize(sorted)
  {
    hide Sorted;
    SortSegments(segments);
    allRuns, totalSize := [], 0;
    for i := 0 to segments.Length
      invariant allRuns == Joined(segments[..i])
      invariant totalSize == StatedSize(segments[..i])
    {
      assert segments[..i + 1][..i] == segments[..i];
      allRuns := allRuns + segments[i].runs;
      if segments[i].startVcn == 0 && segments[i].dataSize > 0 {
        totalSize := segments[i].dataSize;
      }
    }
    assert segments[..segments.Length] == segments[..];
    if totalSize == 0 {
      for i := 0 to |allRuns|
        invariant totalSize == AllocatedSize(allRuns[..i], clusterSize)
      {
        assert allRuns[..i + 1][..i] == allRuns[..i];
        if allRuns[i].lcn >= 0 {
          totalSize := totalSize + allRuns[i].length * clusterSize;
        }
      }
      assert allRuns[..|allRuns|] == allRuns;
    }
  }

  // ---- The order of the extension records does not matter ----------------------------------------

  predicate Ascending(s: seq<Segment>) {
    forall i, j :: 0 <= i < j < |s| ==> s[i].startVcn < s[j].startVcn
  }

  lemma SplitLast(s: seq<Segment>)
    requires s != []
    ensures multiset(s) == multiset(s[..|s| - 1]) + multiset{s[|s| - 1]}
  {
    assert s == s[..|s| - 1] + [s[|s| - 1]];
  }

  lemma SameLast(a: seq<Segment>, t: seq<Segment>)
    requires Ordered(a) && Ascending(t) && multiset(a) == multiset(t) && a != [] && t != []
    ensures a[|a| - 1] == t[|t| - 1]
  {
    var x, y := a[|a| - 1], t[|t| - 1];
    assert x in multiset(t) && y in multiset(a);
    var i: nat :| i < |t| && t[i] == x;
    var j: nat :| j < |a| && a[j] == y;
    assert x.startVcn >= y.startVcn;
  }

  lemma {:induction false} OrderedUnique(a: seq<Segment>, t: seq<Segment>)
    requires Ordered(a) && Ascending(t) && multiset(a) == multiset(t)
    ensures a == t
    decreases |a|
  {
    assert |multiset(a)| == |a| && |multiset(t)| == |t|;
    if a != [] {
      SameLast(a, t);
      SplitLast(a);
      SplitLast(t);
      var front, others := a[..|a| - 1], t[..|t| - 1];
      CancelOne(multiset(front), multiset(others), a[|a| - 1]);
      OrderedUnique(front, others);
      assert a == front + [a[|a| - 1]] && t == others + [t[|t| - 1]];
    }
  }

  function Clusters(runs: seq<DataRun>): int {
    if runs == [] then 0 else Clusters(runs[..|runs| - 1]) + runs[|runs| - 1].length
  }

  /** Each segment starts at the cluster where the one before it ends, and none is empty. */
  predicate Tiles(s: seq<Segment>, vcn: int) {
    s == [] || (s[0].startVcn == vcn && Clusters(s[0].runs) > 0 && Tiles(s[1..], vcn + Clusters(s[0].runs)))
  }

  lemma {:induction false} TilesAscend(s: seq<Segment>, vcn: int)
    requires Tiles(s, vcn)
    ensures Ascending(s) && forall i :: 0 <= i < |s| ==> s[i].startVcn >= vcn
    decreases |s|
  {
    hide Clusters;
    if s != [] {
      TilesAscend(s[1..], vcn + Clusters(s[0].runs));
      assert forall i :: 1 <= i < |s| ==> s[i] == s[1..][i - 1];
    }
  }

  /** However the attribute list orders the segments of a file, the runs are joined in file order. */
  lemma JoinedInFileOrder(listed: seq<Segment>, file: seq<Segment>)
    requires Tiles(file, 0) && multiset(listed) == multiset(file)
    ensures Sorted(listed) == file && Joined(Sorted(listed)) == Joined(file)
  {
    TilesAscend(file, 0);
    SortedOrdered(listed);
    OrderedUnique(Sorted(listed), file);
  }
}
