/** Reading a compressed stream unit by unit, with the last unit kept. */
module NtfsCompressed {
  import opened Bits
  import opened NtfsRuns
  import opened NtfsStreams
  import opened Lznt1

  // ---- One unit ----------------------------------------------------------------------------

  /** What a pass over the runs collects for a window of clusters: raw bytes, and whether a hole was met.
      A buffer of negative length for a run that steps back into the window stops the program. */
  datatype Gathered = Gathered(raw: seq<byte>, hasSparse: bool) | Halted

  function Max(a: int, b: int): int {
    if a < b then b else a
  }

  function Min(a: int, b: int): int {
    if a < b then a else b
  }

  /** The runs from cluster number vcn on, restricted to clusters lo up to hi. */
  function Gather(v: Volume, runs: seq<DataRun>, vcn: int, lo: nat, hi: nat): Gathered
    requires lo <= hi
    decreases |runs|
  {
    if runs == [] then Gathered([], false)
    else
      var run := runs[0];
      var runEnd := vcn + run.length;
      if runEnd <= lo then Gather(v, runs[1..], runEnd, lo, hi)
      else if vcn >= hi then Gathered([], false)
      else
        var from, to := Max(vcn, lo), Min(runEnd, hi);
        if run.lcn < 0 then Joined([], true, Gather(v, runs[1..], runEnd, lo, hi))
        else if to < from then Halted
        else Joined(ReadClusters(v, run.lcn + (from - vcn), to - from), false, Gather(v, runs[1..], runEnd, lo, hi))
  }

  /** What was collected so far, in front of what the rest gives. */
  function Joined(raw: seq<byte>, hasSparse: bool, rest: Gathered): Gathered {
    if rest.Halted? then Halted else Gathered(raw + rest.raw, hasSparse || rest.hasSparse)
  }

  /** One run of a pass. */
  lemma GatherStep(v: Volume, runs: seq<DataRun>, vcn: int, lo: nat, hi: nat)
    requires lo <= hi
    ensures runs == [] ==> Gather(v, runs, vcn, lo, hi) == Gathered([], false)
    ensures runs != [] ==>
      var runEnd := vcn + runs[0].length;
      var from, to := Max(vcn, lo), Min(runEnd, hi);
      var rest := Gather(v, runs[1..], runEnd, lo, hi);
      Gather(v, runs, vcn, lo, hi) ==
        if runEnd <= lo then rest
        else if vcn >= hi then Gathered([], false)
        else if runs[0].lcn < 0 then Joined([], true, rest)
        else if to < from then Halted
        else Joined(ReadClusters(v, runs[0].lcn + (from - vcn), to - from), false, rest)
  {
    hide ReadClusters;
  }

  /** n clusters from a cluster number on, as one read. */
  function ReadClusters(v: Volume, lcn: nat, n: nat): seq<byte> {
    ReadAt(v, v.partitionStart + Times(lcn, v.clusterSize), Times(n, v.clusterSize))
  }

  /** The bytes of a unit, or the decoder's error with what it had decoded. */
  datatype Unit = Loaded(data: seq<byte>) | Broken(data: seq<byte>) | Crash

  /** The raw bytes are collected in a zeroed buffer of the unit's size: what is behind them is spare. */
  function Spare(raw: seq<byte>, unitBytes: nat): seq<byte> {
    Zeros(Max(unitBytes - |raw|, 0))
  }

  function UnitOf(g: Gathered, unitBytes: nat): Unit {
    if g.Halted? then Crash
    else if g.raw == [] then Loaded(Zeros(unitBytes))
    else if !g.hasSparse then Loaded(if |g.raw| > unitBytes then g.raw[..unitBytes] else g.raw)
    else
      match Decoded(g.raw, Spare(g.raw, unitBytes), [])
      case Ok(out) => Loaded(out)
      case BlockTooSmall => Broken([])
      case ShiftTooLarge(out) => Broken(out)
      case Panic => Crash
  }

  /** What the stream is made of. */
  datatype Source = Source(v: Volume, runs: seq<DataRun>, size: int, unitBytes: nat)

  predicate SourceOk(s: Source) {
    s.v.clusterSize > 0 && s.unitBytes > 0
  }

  function UnitAt(s: Source, unitIdx: nat): Unit
    requires SourceOk(s)
  {
    var unitClusters := s.unitBytes / s.v.clusterSize;
    var startVcn := Times(unitIdx, unitClusters);
    UnitOf(Gather(s.v, s.runs, 0, startVcn, startVcn + unitClusters), s.unitBytes)
  }

  // ---- Which clusters a unit gathers ---------------------------------------------------------

  /** The cluster number behind every cluster of the file, -1 for holes. */
  function ClusterMap(runs: seq<DataRun>): seq<int>
    requires LengthsOk(runs)
  {
    if runs == [] then []
    else RunClusters(runs[0]) + ClusterMap(runs[1..])
  }

  function RunClusters(run: DataRun): (m: seq<int>)
    requires run.length >= 0
    ensures |m| == run.length
  {
    seq(run.length, i requires 0 <= i < run.length => if run.lcn < 0 then -1 else run.lcn + i)
  }

  /** The part of a map between two cluster numbers of the file. */
  function Window(m: seq<int>, lo: nat, hi: int): seq<int> {
    if lo >= |m| || hi <= lo then [] else m[lo..if hi < |m| then hi else |m|]
  }

  function Cluster(v: Volume, lcn: nat): seq<byte> {
    ReadAt(v, v.partitionStart + Times(lcn, v.clusterSize), v.clusterSize)
  }

  /** The clusters of a window that are not holes, in order. */
  function Clusters(v: Volume, m: seq<int>): seq<byte> {
    if m == [] then []
    else (if m[0] < 0 then [] else Cluster(v, m[0])) + Clusters(v, m[1..])
  }

  lemma {:induction false} ClustersConcat(v: Volume, a: seq<int>, b: seq<int>)
    ensures Clusters(v, a + b) == Clusters(v, a) + Clusters(v, b)
    decreases |a|
  {
    hide Cluster;
    if a == [] {
      assert a + b == b;
    } else {
      assert (a + b)[1..] == a[1..] + b;
      ClustersConcat(v, a[1..], b);
    }
  }

  /** A read of n consecutive clusters is the clusters one by one. */
  lemma {:induction false} ConsecutiveClusters(v: Volume, lcn: nat, m: seq<int>)
    requires forall i :: 0 <= i < |m| ==> m[i] == lcn + i
    ensures ReadClusters(v, lcn, |m|) == Clusters(v, m)
    decreases |m|
  {
    hide ReadClusters, Cluster;
    if m == [] {
      NoClusters(v, lcn);
    } else {
      ConsecutiveClusters(v, lcn + 1, m[1..]);
      FirstCluster(v, lcn, |m|);
    }
  }

  lemma NoClusters(v: Volume, lcn: nat)
    ensures ReadClusters(v, lcn, 0) == []
  {
  }

  lemma FirstCluster(v: Volume, lcn: nat, n: nat)
    requires n > 0
    ensures ReadClusters(v, lcn, n) == Cluster(v, lcn) + ReadClusters(v, lcn + 1, n - 1)
  {
    hide Times;
    MulSteps(lcn, v.clusterSize);
    MulSteps(n - 1, v.clusterSize);
    var off := v.partitionStart + Times(lcn, v.clusterSize);
    ReadSplits(v, off, v.clusterSize, Times(n - 1, v.clusterSize));
  }

  lemma MulSteps(x: nat, y: nat)
    ensures Times(x + 1, y) == Times(x, y) + y
  {
  }

  /** Also where the volume ends: what is cut off the first read leaves nothing for the second. */
  lemma ReadSplits(v: Volume, off: nat, a: nat, b: nat)
    ensures ReadAt(v, off, a + b) == ReadAt(v, off, a) + ReadAt(v, off + a, b)
  {
  }

  predicate HasHole(m: seq<int>) {
    exists i :: 0 <= i < |m| && m[i] < 0
  }

  lemma HoleInConcat(a: seq<int>, b: seq<int>)
    ensures HasHole(a + b) <==> HasHole(a) || HasHole(b)
  {
    if i :| 0 <= i < |a| && a[i] < 0 {
      assert (a + b)[i] < 0;
    }
    if i :| 0 <= i < |b| && b[i] < 0 {
      assert (a + b)[|a| + i] < 0;
    }
  }

  lemma WindowPastRun(r: seq<int>, m: seq<int>, lo: nat, hi: int)
    requires |r| <= lo
    ensures Window(r + m, lo, hi) == Window(m, lo - |r|, hi - |r|)
  {
  }

  lemma WindowInRun(r: seq<int>, m: seq<int>, lo: nat, hi: nat)
    requires lo <= |r| && lo <= hi
    ensures Window(r + m, lo, hi) == r[lo..Min(hi, |r|)] + Window(m, 0, hi - |r|)
  {
  }

  /** The part of one run inside the window. */
  lemma RunPart(v: Volume, run: DataRun, a: nat, b: nat)
    requires run.length >= 0 && a < b <= run.length
    ensures HasHole(RunClusters(run)[a..b]) <==> run.lcn < 0
    ensures Clusters(v, RunClusters(run)[a..b]) == if run.lcn < 0 then [] else ReadClusters(v, run.lcn + a, b - a)
  {
    hide ReadClusters;
    var m := RunClusters(run)[a..b];
    if run.lcn < 0 {
      assert m[0] < 0;
      OnlyHoles(v, m);
    } else {
      ConsecutiveClusters(v, run.lcn + a, m);
    }
  }

  lemma {:induction false} OnlyHoles(v: Volume, m: seq<int>)
    requires forall i :: 0 <= i < |m| ==> m[i] < 0
    ensures Clusters(v, m) == []
  {
    if m != [] {
      OnlyHoles(v, m[1..]);
    }
  }

  /** Some sparse run of length 0 starts strictly inside the window: it holds no cluster. */
  predicate EmptyHole(runs: seq<DataRun>, vcn: int, lo: nat, hi: nat)
    requires LengthsOk(runs)
  {
    runs != [] && ((runs[0].length == 0 && runs[0].lcn < 0 && lo < vcn < hi) ||
                   EmptyHole(runs[1..], vcn + runs[0].length, lo, hi))
  }

  lemma {:induction false} NoEmptyHole(runs: seq<DataRun>, vcn: int, lo: nat, hi: nat)
    requires LengthsOk(runs) && (vcn >= hi || forall r :: r in runs ==> r.length > 0)
    ensures !EmptyHole(runs, vcn, lo, hi)
  {
    if runs != [] {
      NoEmptyHole(runs[1..], vcn + runs[0].length, lo, hi);
    }
  }

  /** The raw bytes fit the window, so the buffer made for a unit never grows. */
  lemma {:induction false} RawFits(v: Volume, runs: seq<DataRun>, vcn: int, lo: nat, hi: nat)
    requires LengthsOk(runs) && lo <= hi
    ensures var g := Gather(v, runs, vcn, lo, hi);
            g.Gathered? && |g.raw| <= Times(Max(hi - Max(vcn, lo), 0), v.clusterSize)
    decreases |runs|
  {
    hide Times, Gather, ReadClusters;
    GatherStep(v, runs, vcn, lo, hi);
    if runs != [] {
      var run := runs[0];
      var runEnd := vcn + run.length;
      RawFits(v, runs[1..], runEnd, lo, hi);
      if runEnd > lo && vcn < hi {
        var from, to := Max(vcn, lo), Min(runEnd, hi);
        Stretch(to - from, Max(hi - Max(runEnd, lo), 0), v.clusterSize);
        if run.lcn >= 0 {
          ReadIsShort(v, run.lcn + (from - vcn), to - from);
        }
      }
    }
  }

  lemma ReadIsShort(v: Volume, lcn: nat, n: nat)
    ensures |ReadClusters(v, lcn, n)| <= Times(n, v.clusterSize)
  {
  }

  lemma Stretch(a: nat, b: nat, c: nat)
    ensures Times(a, c) + Times(b, c) == Times(a + b, c)
  {
  }

  lemma UnitRawFits(s: Source, unitIdx: nat)
    requires SourceOk(s) && LengthsOk(s.runs)
    ensures var unitClusters := s.unitBytes / s.v.clusterSize;
            var lo := Times(unitIdx, unitClusters);
            var g := Gather(s.v, s.runs, 0, lo, lo + unitClusters);
            g.Gathered? && |g.raw| <= s.unitBytes
  {
    hide Gather;
    var lo, n := Times(unitIdx, s.unitBytes / s.v.clusterSize), s.unitBytes / s.v.clusterSize;
    RawFits(s.v, s.runs, 0, lo, lo + n);
    assert Times(n, s.v.clusterSize) <= s.unitBytes;
  }

  /** Loading gathers exactly the clusters of the window that are not holes, in order. It sees a hole exactly
      when the window has one or a sparse run without clusters starts inside it. */
  lemma {:induction false} GatherIsWindow(v: Volume, runs: seq<DataRun>, vcn: int, lo: nat, hi: nat)
    requires LengthsOk(runs) && lo < hi
    ensures var w := Window(ClusterMap(runs), Max(lo - vcn, 0), hi - vcn);
            Gather(v, runs, vcn, lo, hi) == Gathered(Clusters(v, w), HasHole(w) || EmptyHole(runs, vcn, lo, hi))
    decreases |runs|
  {
    hide ReadClusters, Window, RunClusters, HasHole, Clusters, Gather;
    GatherStep(v, runs, vcn, lo, hi);
    if runs == [] {
      NoWindow(v, [], Max(lo - vcn, 0), hi - vcn);
    } else {
      var run, rest := runs[0], runs[1..];
      var r, m := RunClusters(run), ClusterMap(rest);
      var runEnd := vcn + run.length;
      GatherIsWindow(v, rest, runEnd, lo, hi);
      if runEnd <= lo {
        WindowPastRun(r, m, lo - vcn, hi - vcn);
      } else if vcn >= hi {
        NoWindow(v, r + m, Max(lo - vcn, 0), hi - vcn);
        NoEmptyHole(runs, vcn, lo, hi);
      } else if run.length == 0 {
        EmptyRun(v, run, m);
        assert Max(vcn, lo) == vcn && Min(runEnd, hi) == vcn;
      } else {
        var a, b := Max(lo - vcn, 0), Min(hi - vcn, run.length);
        PartOfWindow(v, run, m, a, b, hi - vcn);
        assert Max(lo - runEnd, 0) == 0 && hi - runEnd == hi - vcn - run.length;
        assert Max(vcn, lo) == vcn + a && Min(runEnd, hi) == vcn + b;
      }
    }
  }

  lemma EmptyRun(v: Volume, run: DataRun, m: seq<int>)
    requires run.length == 0
    ensures RunClusters(run) + m == m && (run.lcn >= 0 ==> ReadClusters(v, run.lcn, 0) == [])
  {
  }

  lemma NoWindow(v: Volume, m: seq<int>, lo: nat, hi: int)
    requires m == [] || hi <= lo
    ensures Clusters(v, Window(m, lo, hi)) == [] && !HasHole(Window(m, lo, hi))
  {
  }

  lemma PartOfWindow(v: Volume, run: DataRun, m: seq<int>, a: nat, b: nat, hi: nat)
    requires a < hi && a < run.length && b == Min(hi, run.length)
    ensures var w, tail := Window(RunClusters(run) + m, a, hi), Window(m, 0, hi - run.length);
            && Clusters(v, w) == (if run.lcn < 0 then [] else ReadClusters(v, run.lcn + a, b - a)) + Clusters(v, tail)
            && (HasHole(w) <==> run.lcn < 0 || HasHole(tail))
  {
    hide Window, RunClusters, ReadClusters;
    var r := RunClusters(run);
    WindowInRun(r, m, a, hi);
    ClustersConcat(v, r[a..b], Window(m, 0, hi - run.length));
    HoleInConcat(r[a..b], Window(m, 0, hi - run.length));
    RunPart(v, run, a, b);
  }

  // ---- Runs of negative length ---------------------------------------------------------------

  /** The cluster number of the file at which the i-th run starts. */
  function StartOf(runs: seq<DataRun>, vcn: int, i: nat): int
    requires i <= |runs|
  {
    if i == 0 then vcn else StartOf(runs[1..], vcn + runs[0].length, i - 1)
  }

  /** Run i is the first that makes the pass stop the program: it is stored, steps back inside the window, and
      no run before it was met behind the window. */
  predicate HaltsAt(runs: seq<DataRun>, vcn: int, lo: nat, hi: nat, i: nat)
    requires i < |runs|
  {
    && runs[i].length < 0 && runs[i].lcn >= 0
    && lo < StartOf(runs, vcn, i + 1) && StartOf(runs, vcn, i) < hi
    && forall j :: 0 <= j < i && StartOf(runs, vcn, j + 1) > lo ==> StartOf(runs, vcn, j) < hi
  }

  lemma HaltsLater(runs: seq<DataRun>, vcn: int, lo: nat, hi: nat, i: nat)
    requires 0 < i < |runs|
    ensures HaltsAt(runs, vcn, lo, hi, i) <==>
            HaltsAt(runs[1..], vcn + runs[0].length, lo, hi, i - 1) && (vcn + runs[0].length > lo ==> vcn < hi)
  {
    var rest, next := runs[1..], vcn + runs[0].length;
    assert StartOf(runs, vcn, 1) == StartOf(rest, next, 0) == next;
    forall j | 0 < j <= i ensures StartOf(runs, vcn, j) == StartOf(rest, next, j - 1)
    {
    }
    if HaltsAt(runs, vcn, lo, hi, i) {
      assert StartOf(runs, vcn, 0 + 1) > lo ==> StartOf(runs, vcn, 0) < hi;
      forall j | 0 <= j < i - 1 && StartOf(rest, next, j + 1) > lo ensures StartOf(rest, next, j) < hi {
        assert StartOf(runs, vcn, j + 2) == StartOf(rest, next, j + 1) && StartOf(runs, vcn, j + 1) == StartOf(rest, next, j);
        assert StartOf(runs, vcn, (j + 1) + 1) > lo;
      }
    }
  }

  /** Loading a unit stops the program exactly when some stored run of negative length steps back inside the
      window. */
  lemma {:induction false} HaltsIff(v: Volume, runs: seq<DataRun>, vcn: int, lo: nat, hi: nat)
    requires lo <= hi
    ensures Gather(v, runs, vcn, lo, hi).Halted? <==> exists i: nat :: i < |runs| && HaltsAt(runs, vcn, lo, hi, i)
    decreases |runs|
  {
    hide Gather, HaltsAt;
    GatherStep(v, runs, vcn, lo, hi);
    if runs != [] {
      var rest, next := runs[1..], vcn + runs[0].length;
      HaltsIff(v, rest, next, lo, hi);
      HaltsFirst(runs, vcn, lo, hi);
      forall i | 0 < i < |runs|
        ensures HaltsAt(runs, vcn, lo, hi, i) <==> HaltsAt(rest, next, lo, hi, i - 1) && (next > lo ==> vcn < hi)
      {
        HaltsLater(runs, vcn, lo, hi, i);
      }
      if i: nat :| i < |rest| && HaltsAt(rest, next, lo, hi, i) {
        assert i + 1 < |runs| && (HaltsAt(runs, vcn, lo, hi, i + 1) <==> (next > lo ==> vcn < hi));
      }
    }
  }

  lemma HaltsFirst(runs: seq<DataRun>, vcn: int, lo: nat, hi: nat)
    requires runs != []
    ensures HaltsAt(runs, vcn, lo, hi, 0) <==>
            runs[0].length < 0 && runs[0].lcn >= 0 && lo < vcn + runs[0].length && vcn < hi
  {
    assert StartOf(runs, vcn, 1) == StartOf(runs[1..], vcn + runs[0].length, 0);
  }

  // ---- A hole without clusters -----------------------------------------------------------------

  /** Eight clusters, a sparse run of length 0, eight more clusters. */
  function LostUnit(): Source {
    Source(Volume(Zeros(8192), 0, 512), [DataRun(8, 0), DataRun(0, -1), DataRun(8, 8)], 8192, 8192)
  }

  /** A pair of one length byte and one offset byte, both below 128. */
  lemma ShortPair(b: seq<byte>, prevLcn: nat)
    requires |b| >= 3 && b[0] == 0x11 && b[2] < 128 && prevLcn < 128
    ensures FirstRun(b, prevLcn) == Some((DataRun(b[1], prevLcn + b[2]), prevLcn + b[2] as int, 3))
  {
    assert b[1..2] == [b[1]] && b[2..3] == [b[2]];
    assert LeValue([b[1]]) == b[1] && LeValue([b[2]]) == b[2];
    assert Pow2(7) == 128;
  }

  lemma LostUnitRuns()
    ensures DecodedRuns([0x11, 8, 0, 0x01, 0, 0x11, 8, 8, 0], 0) == LostUnit().runs
  {
    hide FirstRun;
    var b: seq<byte> := [0x11, 8, 0, 0x01, 0, 0x11, 8, 8, 0];
    ShortPair(b, 0);
    assert b[3..] == [0x01, 0, 0x11, 8, 8, 0];
    assert FirstRun([0x01, 0, 0x11, 8, 8, 0], 0) == Some((DataRun(0, -1), 0, 2)) by {
      EmptyPair();
    }
    assert b[3..][2..] == [0x11, 8, 8, 0];
    ShortPair([0x11, 8, 8, 0], 0);
    assert [0x11 as byte, 8, 8, 0][3..] == [0];
    assert FirstRun([0], 8) == None by {
      EndOfPairs();
    }
  }

  lemma EmptyPair()
    ensures FirstRun([0x01, 0, 0x11, 8, 8, 0], 0) == Some((DataRun(0, -1), 0, 2))
  {
    assert [0x01 as byte, 0, 0x11, 8, 8, 0][1..2] == [0];
    assert LeValue([0]) == 0;
  }

  lemma EndOfPairs()
    ensures FirstRun([0], 8) == None
  {
  }

  lemma LostUnitClusters()
    ensures var s := LostUnit(); var m := ClusterMap(s.runs);
            |m| == 16 && !HasHole(m) && Clusters(s.v, m) == Zeros(8192)
  {
    var s := LostUnit();
    var m := ClusterMap(s.runs);
    assert s.runs[1..] == [DataRun(0, -1), DataRun(8, 8)] && s.runs[1..][1..] == [DataRun(8, 8)];
    assert m == RunClusters(DataRun(8, 0)) + ([] + (RunClusters(DataRun(8, 8)) + []));
    ConsecutiveClusters(s.v, 0, m);
    assert s.v.data == Zeros(8192);
  }

  /** These runs come from a mapping-pair list, they have no hole, and 16 clusters of the volume are stored;
      yet the unit is taken for a compressed one, and loads as nothing. */
  lemma EmptyHoleLosesUnit()
    ensures var s := LostUnit();
            && SourceOk(s) && LengthsOk(s.runs)
            && DecodedRuns([0x11, 8, 0, 0x01, 0, 0x11, 8, 8, 0], 0) == s.runs
            && !HasHole(ClusterMap(s.runs)) && |Clusters(s.v, ClusterMap(s.runs))| == 8192
            && EmptyHole(s.runs, 0, 0, 16) && UnitAt(s, 0) == Loaded([])
  {
    hide Clusters, ClusterMap, DecodedRuns, Decoded, HasHole, Gather;
    var s := LostUnit();
    LostUnitRuns();
    LostUnitClusters();
    assert s.runs[1..][0] == DataRun(0, -1);
    var m, raw := ClusterMap(s.runs), Zeros(8192);
    assert Window(m, 0, 16) == m;
    GatherIsWindow(s.v, s.runs, 0, 0, 16);
    assert EndsStream(raw);
    NothingLeft(raw, Spare(raw, 8192), []);
  }

  // ---- Units that are stored -------------------------------------------------------------------

  /** How a unit is stored: not at all, as it is, or as LZNT1 chunks with something behind them that ends the stream. */
  datatype Layout = Hole | Plain | Packed(chunks: seq<Chunk>, pad: seq<byte>)

  /** The clusters of a unit, holes included. */
  function UnitWindow(s: Source, unitIdx: nat): seq<int>
    requires SourceOk(s) && LengthsOk(s.runs)
  {
    var unitClusters := s.unitBytes / s.v.clusterSize;
    var lo := Times(unitIdx, unitClusters);
    Window(ClusterMap(s.runs), lo, lo + unitClusters)
  }

  /** The clusters of the unit store the data. */
  ghost predicate LaidOut(s: Source, unitIdx: nat, how: Layout, data: seq<byte>)
    requires SourceOk(s) && LengthsOk(s.runs)
  {
    var w := UnitWindow(s, unitIdx);
    var lo := Times(unitIdx, s.unitBytes / s.v.clusterSize);
    match how
    case Hole => Clusters(s.v, w) == [] && data == Zeros(s.unitBytes)
    case Plain =>
      && !HasHole(w) && !EmptyHole(s.runs, 0, lo, lo + s.unitBytes / s.v.clusterSize)
      && Clusters(s.v, w) == data != []
    case Packed(chunks, pad) =>
      && HasHole(w) && ChunksFit(chunks, []) && NoneOfOneByte(chunks, []) && EndsStream(pad)
      && Clusters(s.v, w) == Encoded(chunks, []) + pad != []
      && data == ChunksExpanded(chunks, [])
  }

  /** A stored unit loads as the data it stores. */
  lemma UnitReadBack(s: Source, unitIdx: nat, how: Layout, data: seq<byte>)
    requires SourceOk(s) && LengthsOk(s.runs) && s.unitBytes >= s.v.clusterSize
    requires LaidOut(s, unitIdx, how, data)
    ensures UnitAt(s, unitIdx) == Loaded(data)
  {
    hide Gather, Window, HasHole, EmptyHole, Clusters, Decoded, Encoded, ChunksFit, NoneOfOneByte, EndsStream, ChunksExpanded;
    var unitClusters := s.unitBytes / s.v.clusterSize;
    var lo := Times(unitIdx, unitClusters);
    OneCluster(s.unitBytes, s.v.clusterSize);
    GatherIsWindow(s.v, s.runs, 0, lo, lo + unitClusters);
    UnitRawFits(s, unitIdx);
    if how.Packed? {
      var raw := Clusters(s.v, UnitWindow(s, unitIdx));
      Lznt1.RoundTrip(how.chunks, [], how.pad, Spare(raw, s.unitBytes));
    }
  }

  lemma OneCluster(unitBytes: nat, clusterSize: nat)
    requires 0 < clusterSize <= unitBytes
    ensures unitBytes / clusterSize >= 1
  {
  }
}
