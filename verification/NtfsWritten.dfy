/** Files as NTFS stores them on a volume, cluster by cluster, and that the readers deliver them. */
module NtfsWritten {
  import opened Bits
  import opened NtfsRuns
  import opened NtfsStreams
  import opened NtfsCompressed

  /** Cluster lcn of the partition holds these bytes. */
  predicate ClusterHolds(v: Volume, lcn: nat, b: seq<byte>) {
    var at := v.partitionStart + Times(lcn, v.clusterSize);
    |b| == v.clusterSize && at + |b| <= |v.data| && v.data[at..at + |b|] == b
  }

  /** Every cluster of the file lies in the cluster its run list gives it; a hole stands for zeros. */
  predicate StoredOn(v: Volume, m: seq<int>, f: seq<byte>) {
    if m == [] then f == []
    else
      && |f| >= v.clusterSize
      && (if m[0] < 0 then f[..v.clusterSize] == Zeros(v.clusterSize) else ClusterHolds(v, m[0], f[..v.clusterSize]))
      && StoredOn(v, m[1..], f[v.clusterSize..])
  }

  /** The clusters that are not holes hold the bytes, one behind the other. */
  predicate PackedOn(v: Volume, m: seq<int>, b: seq<byte>) {
    if m == [] then b == []
    else if m[0] < 0 then PackedOn(v, m[1..], b)
    else |b| >= v.clusterSize && ClusterHolds(v, m[0], b[..v.clusterSize]) && PackedOn(v, m[1..], b[v.clusterSize..])
  }

  /** What a unit gathers is what its clusters hold. */
  lemma {:induction false} PackedReadBack(v: Volume, m: seq<int>, b: seq<byte>)
    requires PackedOn(v, m, b)
    ensures Clusters(v, m) == b
    decreases |m|
  {
    hide Times;
    if m != [] {
      if m[0] < 0 {
        PackedReadBack(v, m[1..], b);
      } else {
        PackedReadBack(v, m[1..], b[v.clusterSize..]);
        assert Cluster(v, m[0]) == b[..v.clusterSize];
        assert b == b[..v.clusterSize] + b[v.clusterSize..];
      }
    }
  }

  lemma StoredFirst(v: Volume, m: seq<int>, f: seq<byte>)
    requires m != []
    ensures StoredOn(v, m, f) <==>
            && |f| >= v.clusterSize
            && (if m[0] < 0 then f[..v.clusterSize] == Zeros(v.clusterSize) else ClusterHolds(v, m[0], f[..v.clusterSize]))
            && StoredOn(v, m[1..], f[v.clusterSize..])
  {
    hide ClusterHolds;
  }

  lemma {:induction false} StoredParts(v: Volume, a: seq<int>, b: seq<int>, f: seq<byte>)
    requires StoredOn(v, a + b, f)
    ensures Times(|a|, v.clusterSize) <= |f|
    ensures StoredOn(v, a, f[..Times(|a|, v.clusterSize)]) && StoredOn(v, b, f[Times(|a|, v.clusterSize)..])
    decreases |a|
  {
    if a == [] {
      assert a + b == b && f[0..] == f;
    } else {
      hide ClusterHolds, StoredOn, Times;
      var cs, n := v.clusterSize, Times(|a|, v.clusterSize);
      assert (a + b)[1..] == a[1..] + b;
      MulSteps(|a| - 1, cs);
      StoredFirst(v, a + b, f);
      StoredParts(v, a[1..], b, f[cs..]);
      SplitTwice(f, cs, n);
      StoredFirst(v, a, f[..n]);
    }
  }

  lemma SplitTwice(f: seq<byte>, i: nat, n: nat)
    requires i <= n <= |f|
    ensures f[..n][..i] == f[..i] && f[..n][i..] == f[i..][..n - i] && f[i..][n - i..] == f[n..]
  {
  }

  /** A run of clusters one behind the other holds their bytes one behind the other. */
  lemma {:induction false} RunHolds(v: Volume, lcn: nat, m: seq<int>, f: seq<byte>)
    requires StoredOn(v, m, f) && m != [] && forall i :: 0 <= i < |m| ==> m[i] == lcn + i
    ensures var at := v.partitionStart + Times(lcn, v.clusterSize);
            && |f| == Times(|m|, v.clusterSize) && at + |f| <= |v.data| && v.data[at..at + |f|] == f
    decreases |m|
  {
    hide StoredOn, Times, ClusterHolds;
    var cs, at := v.clusterSize, v.partitionStart + Times(lcn, v.clusterSize);
    MulSteps(lcn, cs);
    MulSteps(|m| - 1, cs);
    StoredFirst(v, m, f);
    assert f == f[..cs] + f[cs..];
    FirstHolds(v, lcn, f[..cs]);
    if |m| == 1 {
      assert m[1..] == [];
      NothingStored(v, f[cs..]);
      OneTimes(cs);
    } else {
      RunHolds(v, lcn + 1, m[1..], f[cs..]);
      JoinedAt(v.data, at, f[..cs], f[cs..]);
    }
  }

  lemma OneTimes(x: nat)
    ensures Times(0, x) == 0 && Times(1, x) == x
  {
  }

  lemma FirstHolds(v: Volume, lcn: nat, b: seq<byte>)
    requires ClusterHolds(v, lcn, b)
    ensures var at := v.partitionStart + Times(lcn, v.clusterSize);
            |b| == v.clusterSize && at + |b| <= |v.data| && v.data[at..at + |b|] == b
  {
  }

  lemma JoinedAt(data: seq<byte>, at: nat, a: seq<byte>, b: seq<byte>)
    requires at + |a| + |b| <= |data| && data[at..at + |a|] == a && data[at + |a|..at + |a| + |b|] == b
    ensures data[at..at + |a| + |b|] == a + b
  {
    SliceJoin(data, at, at + |a|, at + |a| + |b|);
  }

  lemma {:induction false} HoleHolds(v: Volume, m: seq<int>, f: seq<byte>)
    requires StoredOn(v, m, f) && forall i :: 0 <= i < |m| ==> m[i] < 0
    ensures f == Zeros(Times(|m|, v.clusterSize))
    decreases |m|
  {
    if m != [] {
      var cs := v.clusterSize;
      HoleHolds(v, m[1..], f[cs..]);
      MulSteps(|m| - 1, cs);
      assert f == f[..cs] + f[cs..];
    }
  }

  /** The content of the runs is the file. */
  lemma {:induction false} ContentIsFile(v: Volume, runs: seq<DataRun>, f: seq<byte>)
    requires (forall r :: r in runs ==> r.length > 0) && LengthsOk(runs) && StoredOn(v, ClusterMap(runs), f)
    ensures RunsPresent(v, runs) && Content(v, runs) == f
    decreases |runs|
  {
    hide StoredOn, Times, RunContent;
    if runs == [] {
      NothingStored(v, f);
    } else {
      var run, rest := runs[0], runs[1..];
      var m, n := RunClusters(run), Times(run.length, v.clusterSize);
      StoredParts(v, m, ClusterMap(rest), f);
      OneRun(v, run, f[..n]);
      ContentIsFile(v, rest, f[n..]);
      assert f == f[..n] + f[n..];
    }
  }

  lemma NothingStored(v: Volume, f: seq<byte>)
    requires StoredOn(v, [], f)
    ensures f == []
  {
  }

  lemma OneRun(v: Volume, run: DataRun, f: seq<byte>)
    requires run.length > 0 && StoredOn(v, RunClusters(run), f)
    ensures run.lcn >= 0 ==> RunStart(v, run) + RunBytes(v, run) <= |v.data|
    ensures RunContent(v, run) == f
  {
    hide StoredOn, Times;
    if run.lcn < 0 {
      HoleHolds(v, RunClusters(run), f);
    } else {
      RunHolds(v, run.lcn, RunClusters(run), f);
    }
  }

  /** Both readers deliver the file as it was stored, up to its size. */
  lemma FileReadBack(v: Volume, runs: seq<DataRun>, f: seq<byte>, size: nat, sizes: seq<nat>)
    requires (forall r :: r in runs ==> r.length > 0) && LengthsOk(runs) && StoredOn(v, ClusterMap(runs), f)
    requires size <= |f| && |sizes| - Empty(sizes) >= size
    ensures FilledAt(v, runs, Zeros(size), 0) == Some(f[..size])
    ensures Drained(v, runs, size, 0, sizes) == (f[..size], size)
  {
    hide FilledAt, Drained, Content, StoredOn, RunsPresent;
    ContentIsFile(v, runs, f);
    StreamEqualsWholeFile(v, runs, size, sizes);
    StreamDeliversContent(v, runs, size, 0, sizes);
  }
}
