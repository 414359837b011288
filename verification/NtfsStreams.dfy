/** Two readers of the same runs: the whole file at once, and a stream read piece by piece. */
module NtfsStreams {
  import opened Bits
  import opened NtfsRuns

  /** The bytes under the volume, where its partition starts and how large a cluster is. */
  datatype Volume = Volume(data: seq<byte>, partitionStart: nat, clusterSize: nat)

  const MAX_FILE: nat := 0x4_0000_0000

  /** ReadAt: up to n bytes, fewer where the volume ends. */
  function ReadAt(v: Volume, off: nat, n: nat): (b: seq<byte>)
    ensures |b| <= n
  {
    BytesAt(v.data, off, n)
  }

  predicate LengthsOk(runs: seq<DataRun>) {
    forall r :: r in runs ==> r.length >= 0
  }

  function RunBytes(v: Volume, run: DataRun): nat
    requires run.length >= 0
  {
    Times(run.length, v.clusterSize)
  }

  /** Where a run that is not sparse starts in the volume. */
  function RunStart(v: Volume, run: DataRun): nat
    requires run.lcn >= 0
  {
    v.partitionStart + Times(run.lcn, v.clusterSize)
  }

  // ---- What the runs hold ------------------------------------------------------------------

  /** The clusters of every run that is not sparse lie inside the volume. */
  ghost predicate RunsPresent(v: Volume, runs: seq<DataRun>) {
    forall r :: r in runs ==> r.length >= 0 && (r.lcn >= 0 ==> RunStart(v, r) + RunBytes(v, r) <= |v.data|)
  }

  function RunContent(v: Volume, run: DataRun): (c: seq<byte>)
    requires run.length >= 0 && (run.lcn >= 0 ==> RunStart(v, run) + RunBytes(v, run) <= |v.data|)
    ensures |c| == RunBytes(v, run)
  {
    if run.lcn < 0 then Zeros(RunBytes(v, run))
    else v.data[RunStart(v, run)..RunStart(v, run) + RunBytes(v, run)]
  }

  /** The clusters of the file in order, holes as zeros. */
  function Content(v: Volume, runs: seq<DataRun>): seq<byte>
    requires RunsPresent(v, runs)
  {
    if runs == [] then [] else RunContent(v, runs[0]) + Content(v, runs[1..])
  }

  // ---- The whole file ------------------------------------------------------------------------

  /** The n bytes whole-file reading leaves in a zeroed buffer. */
  function Filled(v: Volume, runs: seq<DataRun>, n: nat): (b: seq<byte>)
    requires LengthsOk(runs)
    ensures |b| == n
    decreases |runs|
  {
    if runs == [] || n == 0 then Zeros(n)
    else
      var want := if n > RunBytes(v, runs[0]) then RunBytes(v, runs[0]) else n;
      FilledRun(v, runs[0], want) + Filled(v, runs[1..], n - want)
  }

  function FilledRun(v: Volume, run: DataRun, want: nat): (b: seq<byte>)
    ensures |b| == want
  {
    if run.lcn < 0 then Zeros(want) else Padded(ReadAt(v, RunStart(v, run), want), want)
  }

  datatype ReadResult = Data(bytes: seq<byte>) | Nothing | TooLarge | OutOfRange

  /** The bytes a run moves the cursor by; a length field of 2^63 or more reads as a negative length. */
  function Span(v: Volume, run: DataRun): int {
    if run.length >= 0 then RunBytes(v, run) else -1 * Times(-run.length, v.clusterSize)
  }

  /** b over the bytes of out from start on. */
  function Put(out: seq<byte>, start: nat, b: seq<byte>): (r: seq<byte>)
    requires start + |b| <= |out|
    ensures |r| == |out|
  {
    out[..start] + b + out[start + |b|..]
  }

  /** The buffer after the runs, the cursor at `written`; None when a run starts or ends before it can,
      which stops the program. */
  function FilledAt(v: Volume, runs: seq<DataRun>, out: seq<byte>, written: int): Option<seq<byte>>
    decreases |runs|
  {
    if runs == [] || written >= |out| then Some(out)
    else
      var span, room := Span(v, runs[0]), |out| - written;
      var want := if room > span then span else room;
      if runs[0].lcn < 0 then FilledAt(v, runs[1..], out, written + want)
      else if written < 0 || want < 0 then None
      else FilledAt(v, runs[1..], Put(out, written, ReadAt(v, RunStart(v, runs[0]), want)), written + want)
  }

  /** Whole-file reading: the zeroed buffer with every run's bytes over it. */
  method ReadRuns(v: Volume, runs: seq<DataRun>, dataSize: int) returns (res: ReadResult)
    ensures res == if dataSize <= 0 then Nothing
                   else if dataSize > 0x4_0000_0000 then TooLarge
                   else if FilledAt(v, runs, Zeros(dataSize), 0).None? then OutOfRange
                   else Data(FilledAt(v, runs, Zeros(dataSize), 0).value)
  {
    hide Span, RunStart, Zeros, ReadAt;
    if dataSize <= 0 {
      return Nothing;
    }
    if dataSize > MAX_FILE {
      return TooLarge;
    }
    var out := Zeroed(dataSize);
    var written: int := 0;
    for i := 0 to |runs|
      invariant FilledAt(v, runs[i..], out[..], written) == FilledAt(v, runs, Zeros(dataSize), 0)
    {
      if written >= dataSize {
        return Data(out[..]);
      }
      var run := runs[i];
      assert runs[i..][0] == run && runs[i..][1..] == runs[i + 1..];
      var want := dataSize - written;
      if want > Span(v, run) {
        want := Span(v, run);
      }
      if run.lcn >= 0 {
        if written < 0 || want < 0 {
          return OutOfRange;
        }
        PutInto(out, written, ReadAt(v, RunStart(v, run), want));
      }
      written := written + want;
    }
    res := Data(out[..]);
  }

  method Zeroed(n: nat) returns (out: array<byte>)
    ensures fresh(out) && out.Length == n && out[..] == Zeros(n)
  {
    out := new byte[n](_ => 0);
  }

  method PutInto(out: array<byte>, start: nat, b: seq<byte>)
    requires start + |b| <= out.Length
    modifies out
    ensures out[..] == Put(old(out[..]), start, b)
  {
    forall k | 0 <= k < |b| {
      out[start + k] := b[k];
    }
  }

  /** With lengths that are not negative, what is written so far is followed by what the rest fills. */
  lemma {:induction false} FilledAtIsFilled(v: Volume, runs: seq<DataRun>, done: seq<byte>, n: nat)
    requires LengthsOk(runs)
    ensures FilledAt(v, runs, done + Zeros(n), |done|) == Some(done + Filled(v, runs, n))
    decreases |runs|
  {
    hide RunBytes, RunStart, Zeros, ReadAt, LengthsOk;
    LengthsTail(runs);
    if runs != [] && n > 0 {
      var run := runs[0];
      var want := if n > RunBytes(v, run) then RunBytes(v, run) else n;
      var next := done + FilledRun(v, run, want);
      FilledAtIsFilled(v, runs[1..], next, n - want);
      assert next + Filled(v, runs[1..], n - want) == done + Filled(v, runs, n);
      ZerosSplit(want, n - want);
      if run.lcn < 0 {
        assert done + Zeros(n) == next + Zeros(n - want);
      } else {
        PutOverZeros(done, ReadAt(v, RunStart(v, run), want), want, n);
        assert Put(done + Zeros(n), |done|, ReadAt(v, RunStart(v, run), want)) == next + Zeros(n - want);
      }
    }
  }

  lemma LengthsTail(runs: seq<DataRun>)
    requires LengthsOk(runs)
    ensures runs != [] ==> runs[0].length >= 0 && LengthsOk(runs[1..])
  {
  }

  lemma ZerosSplit(a: nat, b: nat)
    ensures Zeros(a) + Zeros(b) == Zeros(a + b)
  {
  }

  /** What was read over zeros; a short read leaves zeros behind it. */
  lemma PutOverZeros(done: seq<byte>, b: seq<byte>, want: nat, n: nat)
    requires |b| <= want <= n
    ensures Put(done + Zeros(n), |done|, b) == done + Padded(b, want) + Zeros(n - want)
  {
  }

  /** When the runs cover the size, the whole-file reader returns the file's content. */
  lemma {:induction false} FilledIsContent(v: Volume, runs: seq<DataRun>, n: nat)
    requires RunsPresent(v, runs) && n <= |Content(v, runs)|
    ensures LengthsOk(runs) && Filled(v, runs, n) == Content(v, runs)[..n]
    decreases |runs|
  {
    hide RunBytes, RunStart, FilledRun, RunContent;
    if runs != [] && n > 0 {
      var run := runs[0];
      var want := if n > RunBytes(v, run) then RunBytes(v, run) else n;
      FilledIsContent(v, runs[1..], n - want);
      FilledRunIsContent(v, run, want);
      TakeOfConcat(RunContent(v, run), Content(v, runs[1..]), n);
    }
  }

  lemma FilledRunIsContent(v: Volume, run: DataRun, want: nat)
    requires run.length >= 0 && (run.lcn >= 0 ==> RunStart(v, run) + RunBytes(v, run) <= |v.data|)
    requires want <= RunBytes(v, run)
    ensures FilledRun(v, run, want) == RunContent(v, run)[..want]
  {
    hide RunBytes, RunStart;
  }

  lemma TakeOfConcat(a: seq<byte>, b: seq<byte>, n: nat)
    requires n <= |a| + |b|
    ensures (a + b)[..n] == if n <= |a| then a[..n] else a + b[..n - |a|]
  {
  }

  lemma SliceOfConcat(a: seq<byte>, b: seq<byte>, off: nat, n: nat)
    requires off + n <= |a| + |b|
    ensures off + n <= |a| ==> (a + b)[off..off + n] == a[off..off + n]
    ensures |a| <= off ==> (a + b)[off..off + n] == b[off - |a|..off - |a| + n]
  {
  }

  // ---- The stream ----------------------------------------------------------------------------

  /** One ReadAt inside the run that holds the offset: the bytes and whether EOF came with them. */
  function ChunkAt(v: Volume, runs: seq<DataRun>, off: nat, n: nat): (res: (seq<byte>, bool))
    ensures |res.0| <= n
    decreases |runs|
  {
    if runs == [] then ([], true)
    else
      var span := Span(v, runs[0]);
      if off < span then
        var canRead := if n < span - off then n else span - off;
        if runs[0].lcn < 0 then (Zeros(canRead), false)
        else
          var b := ReadAt(v, RunStart(v, runs[0]) + off, canRead);
          (b, |b| < canRead)
      else ChunkAt(v, runs[1..], off - span, n)
  }

  /** A Read of n bytes at a position: the bytes delivered and whether EOF is reported. */
  function StreamRead(v: Volume, runs: seq<DataRun>, size: int, pos: nat, n: nat): (res: (seq<byte>, bool))
    ensures |res.0| <= n
  {
    if n == 0 then ([], false)
    else if pos >= size then ([], true)
    else
      var (b, eof) := ChunkAt(v, runs, pos, if n > size - pos then size - pos else n);
      (b, eof || b == [])
  }

  class RunStreamReader {
    const v: Volume
    const runs: seq<DataRun>
    const size: int
    var pos: nat

    constructor (v: Volume, runs: seq<DataRun>, size: int)
      ensures this.v == v && this.runs == runs && this.size == size && pos == 0
    {
      this.v, this.runs, this.size := v, runs, size;
      pos := 0;
    }

    method Read(p: array<byte>) returns (n: nat, eof: bool)
      modifies this`pos, p
      ensures var (b, e) := StreamRead(v, runs, size, old(pos), p.Length);
              n == |b| && eof == e && p[..n] == b && pos == old(pos) + n
      ensures p[n..] == old(p[n..])
    {
      if p.Length == 0 {
        return 0, false;
      }
      if pos >= size {
        return 0, true;
      }
      var want := p.Length;
      if pos + want > size {
        want := size - pos;
      }
      var b, e := ReadChunk(want, pos);
      n := |b|;
      forall k | 0 <= k < |b| {
        p[k] := b[k];
      }
      pos := pos + n;
      eof := e || n == 0;
    }

    method ReadChunk(n: nat, off: nat) returns (b: seq<byte>, eof: bool)
      ensures (b, eof) == ChunkAt(v, runs, off, n)
    {
      hide Span, RunStart, ReadAt;
      var runStart: int := 0;
      for i := 0 to |runs|
        invariant runStart <= off
        invariant ChunkAt(v, runs[i..], off - runStart, n) == ChunkAt(v, runs, off, n)
      {
        var run := runs[i];
        assert runs[i..][0] == run && runs[i..][1..] == runs[i + 1..];
        var runBytes := Span(v, run);
        if off < runStart + runBytes {
          var within := off - runStart;
          var canRead := runBytes - within;
          if n < canRead {
            canRead := n;
          }
          if run.lcn < 0 {
            return Zeros(canRead), false;
          }
          b := ReadAt(v, RunStart(v, run) + within, canRead);
          return b, |b| < canRead;
        }
        runStart := runStart + runBytes;
      }
      b, eof := [], true;
    }
  }

  /** Before the end, one read delivers at least one byte, the next ones of the file, without EOF. */
  lemma {:induction false} ChunkIsContent(v: Volume, runs: seq<DataRun>, off: nat, n: nat)
    requires RunsPresent(v, runs) && n > 0 && off + n <= |Content(v, runs)|
    ensures var (b, eof) := ChunkAt(v, runs, off, n);
            0 < |b| && off + |b| <= |Content(v, runs)| && !eof && b == Content(v, runs)[off..off + |b|]
    decreases |runs|
  {
    hide RunBytes, RunStart, RunContent, ReadAt;
    var a, rest := RunContent(v, runs[0]), Content(v, runs[1..]);
    if off < |a| {
      var canRead := if n < |a| - off then n else |a| - off;
      RunChunk(v, runs[0], off, canRead);
      SliceOfConcat(a, rest, off, canRead);
    } else {
      ChunkIsContent(v, runs[1..], off - |a|, n);
      SliceOfConcat(a, rest, off, |ChunkAt(v, runs, off, n).0|);
    }
  }

  lemma RunChunk(v: Volume, run: DataRun, off: nat, n: nat)
    requires run.length >= 0 && (run.lcn >= 0 ==> RunStart(v, run) + RunBytes(v, run) <= |v.data|)
    requires off + n <= RunBytes(v, run)
    ensures (if run.lcn < 0 then Zeros(n) else ReadAt(v, RunStart(v, run) + off, n)) == RunContent(v, run)[off..off + n]
  {
    hide RunBytes, RunStart;
    if run.lcn >= 0 {
      var start := RunStart(v, run);
      assert RunContent(v, run)[off..off + n] == v.data[start + off..start + off + n];
    } else {
      assert RunContent(v, run)[off..off + n] == Zeros(n);
    }
  }

  /** All that a sequence of reads delivers, and where it ends. */
  function Drained(v: Volume, runs: seq<DataRun>, size: int, pos: nat, sizes: seq<nat>): (seq<byte>, nat)
    decreases |sizes|
  {
    if sizes == [] then ([], pos)
    else
      var b := StreamRead(v, runs, size, pos, sizes[0]).0;
      var (more, end) := Drained(v, runs, size, pos + |b|, sizes[1..]);
      (b + more, end)
  }

  /** Under any split into reads the stream delivers the file's content from where it stood, every
      read with room before the end makes progress, and each read reports EOF exactly at the end. */
  lemma {:induction false} StreamDeliversContent(v: Volume, runs: seq<DataRun>, size: nat, pos: nat, sizes: seq<nat>)
    requires RunsPresent(v, runs) && pos <= size <= |Content(v, runs)|
    ensures var (b, end) := Drained(v, runs, size, pos, sizes);
            && pos <= end <= size && b == Content(v, runs)[pos..end]
            && (end < size ==> end - pos >= |sizes| - Empty(sizes))
            && (forall k :: 0 <= k < |sizes| && sizes[k] > 0 ==>
                  var (_, at) := Drained(v, runs, size, pos, sizes[..k]);
                  StreamRead(v, runs, size, at, sizes[k]).1 <==> at == size)
    decreases |sizes|
  {
    hide Content, StreamRead;
    assert Content(v, runs)[pos..pos] == [];
    if sizes != [] {
      var n := sizes[0];
      ReadIsContent(v, runs, size, pos, n);
      var b := StreamRead(v, runs, size, pos, n).0;
      StreamDeliversContent(v, runs, size, pos + |b|, sizes[1..]);
      var (more, end) := Drained(v, runs, size, pos + |b|, sizes[1..]);
      var c := Content(v, runs);
      assert Drained(v, runs, size, pos, sizes) == (b + more, end);
      SliceJoin(c, pos, pos + |b|, end);
      assert n > 0 && pos < size ==> |b| > 0;
      assert Empty(sizes) == (if n == 0 then 1 else 0) + Empty(sizes[1..]);
      forall k | 0 < k < |sizes|
        ensures sizes[k] == sizes[1..][k - 1]
        ensures Drained(v, runs, size, pos, sizes[..k]).1 == Drained(v, runs, size, pos + |b|, sizes[1..][..k - 1]).1
      {
        assert sizes[..k][1..] == sizes[1..][..k - 1];
      }
      assert sizes[..0] == [];
    }
  }

  function Empty(sizes: seq<nat>): nat {
    if sizes == [] then 0 else (if sizes[0] == 0 then 1 else 0) + Empty(sizes[1..])
  }

  lemma ReadIsContent(v: Volume, runs: seq<DataRun>, size: nat, pos: nat, n: nat)
    requires RunsPresent(v, runs) && pos <= size <= |Content(v, runs)|
    ensures var (b, eof) := StreamRead(v, runs, size, pos, n);
            && pos + |b| <= size && b == Content(v, runs)[pos..pos + |b|]
            && (n > 0 ==> (eof <==> pos == size) && (pos < size ==> 0 < |b|))
  {
    if n > 0 && pos < size {
      ChunkIsContent(v, runs, pos, if n > size - pos then size - pos else n);
    }
  }

  /** A stream read to its end and the whole-file reader give the same bytes. */
  lemma StreamEqualsWholeFile(v: Volume, runs: seq<DataRun>, size: nat, sizes: seq<nat>)
    requires RunsPresent(v, runs) && size <= |Content(v, runs)|
    requires |sizes| - Empty(sizes) >= size
    ensures FilledAt(v, runs, Zeros(size), 0) == Some(Drained(v, runs, size, 0, sizes).0)
    ensures Drained(v, runs, size, 0, sizes).1 == size
  {
    hide Filled, FilledAt, Content, Drained;
    StreamDeliversContent(v, runs, size, 0, sizes);
    FilledIsContent(v, runs, size);
    FilledAtIsFilled(v, runs, [], size);
    assert [] + Zeros(size) == Zeros(size) && [] + Filled(v, runs, size) == Filled(v, runs, size);
  }
}
