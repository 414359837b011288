/** A Windows memory dump: physical pages packed into a file run by run, and reads of physical
    ranges across runs. All addresses are 64-bit unsigned; sums wrap. */
module PhysicalDump {
  import opened Bits

  const PAGE: nat := 0x1000
  const HEADER: nat := 0x2000
  const MAX_READ: nat := 0x100_0000

  type u64 = x: nat | x < 0x1_0000_0000_0000_0000

  function Wrap(x: nat): u64 {
    x % U64
  }

  datatype Run = Run(basePage: u64, pageCount: u64, fileStart: u64)

  datatype Dump = Dump(file: seq<byte>, runs: seq<Run>)

  predicate InRun(r: Run, page: nat) {
    page >= r.basePage && page < Wrap(r.basePage + r.pageCount)
  }

  function FileOffset(r: Run, pa: u64): int
    requires InRun(r, pa / PAGE)
  {
    Int64(Wrap(r.fileStart + (pa / PAGE - r.basePage) * PAGE + pa % PAGE))
  }

  /** The first run that holds the page. */
  function RunAt(runs: seq<Run>, page: nat): (r: Option<Run>)
    ensures r.Some? ==> r.value in runs && InRun(r.value, page)
    ensures r == None ==> forall q :: q in runs ==> !InRun(q, page)
  {
    if runs == [] then None
    else if InRun(runs[0], page) then Some(runs[0])
    else RunAt(runs[1..], page)
  }

  function PhysToFile(d: Dump, pa: u64): Option<int> {
    var r := RunAt(d.runs, pa / PAGE);
    if r == None then None else Some(FileOffset(r.value, pa))
  }

  /** Up to n bytes of a file; none at a negative offset or past the end. */
  function FileRead(file: seq<byte>, off: int, n: nat): (b: seq<byte>)
    ensures |b| <= n
  {
    if off < 0 || off >= |file| then []
    else if off + n > |file| then file[off..]
    else file[off..off + n]
  }

  function PhysByte(d: Dump, pa: u64): Option<byte> {
    var off := PhysToFile(d, pa);
    if off == None || off.value < 0 || off.value >= |d.file| then None else Some(d.file[off.value])
  }

  /** The bytes from an address on, as far as they are present, n at most. */
  function Prefix(at: u64 -> Option<byte>, a: u64, n: nat): (b: seq<byte>)
    ensures |b| <= n
    decreases n
  {
    if n == 0 || at(a) == None then [] else [at(a).value] + Prefix(at, Wrap(a + 1), n - 1)
  }

  /** A prefix holds the byte at every address it covers and ends early only at the first absent one. */
  lemma {:induction false} PrefixMeaning(at: u64 -> Option<byte>, a: u64, n: nat)
    ensures var b := Prefix(at, a, n);
            && (forall k :: 0 <= k < |b| ==> at(Wrap(a + k)) == Some(b[k]))
            && (|b| < n ==> at(Wrap(a + |b|)) == None)
    decreases n
  {
    hide Wrap;
    WrapNone(a);
    if n != 0 && at(a) != None {
      PrefixMeaning(at, Wrap(a + 1), n - 1);
      var b := Prefix(at, a, n);
      forall k | 0 <= k < |b|
        ensures at(Wrap(a + k)) == Some(b[k])
      {
        if k > 0 {
          WrapSum(a, 1, k - 1);
        }
      }
      WrapSum(a, 1, |b| - 1);
    }
  }

  lemma WrapNone(a: u64)
    ensures Wrap(a) == a
  {
  }

  lemma WrapSum(a: u64, i: nat, j: nat)
    ensures Wrap(Wrap(a + i) + j) == Wrap(a + (i + j))
  {
  }

  /** Reading on where a full first part ended. */
  lemma {:induction false} PrefixSplits(at: u64 -> Option<byte>, a: u64, m: nat, n: nat)
    ensures var b := Prefix(at, a, m);
            Prefix(at, a, m + n) == if |b| < m then b else b + Prefix(at, Wrap(a + m), n)
    decreases m
  {
    hide Wrap;
    if m == 0 {
      WrapNone(a);
    } else if at(a) != None {
      PrefixSplits(at, Wrap(a + 1), m - 1, n);
      WrapSum(a, 1, m - 1);
    }
  }

  function PhysAt(d: Dump): u64 -> Option<byte> {
    (pa: u64) => PhysByte(d, pa)
  }

  // ---- Runs of a usable dump ---------------------------------------------------------

  /** No address or file offset of a run wraps. */
  ghost predicate RunFits(r: Run) {
    && (r.basePage + r.pageCount) * PAGE < U64
    && r.fileStart + r.pageCount * PAGE < 0x8000_0000_0000_0000
  }

  ghost predicate Disjoint(r: Run, q: Run) {
    r.basePage + r.pageCount <= q.basePage || q.basePage + q.pageCount <= r.basePage
  }

  ghost predicate RunsOk(runs: seq<Run>) {
    && (forall r :: r in runs ==> RunFits(r))
    && (forall i, j :: 0 <= i < j < |runs| ==> Disjoint(runs[i], runs[j]))
  }

  lemma DisjointPages(r: Run, q: Run, page: nat)
    requires RunFits(r) && RunFits(q) && Disjoint(r, q) && InRun(q, page)
    ensures !InRun(r, page)
  {
  }

  /** With disjoint runs the first run found is the only one. */
  lemma {:induction false} OwnerIsFirst(runs: seq<Run>, r: Run, page: nat)
    requires RunsOk(runs) && r in runs && InRun(r, page)
    ensures RunAt(runs, page) == Some(r)
  {
    var j :| 0 <= j < |runs| && runs[j] == r;
    if j > 0 {
      DisjointPages(runs[0], r, page);
      OwnerIsFirst(runs[1..], r, page);
    }
  }

  lemma OffsetInRun(r: Run, pa: u64)
    requires RunFits(r) && InRun(r, pa / PAGE)
    ensures r.basePage * PAGE <= pa < (r.basePage + r.pageCount) * PAGE
    ensures FileOffset(r, pa) == r.fileStart + (pa - r.basePage * PAGE)
  {
  }

  /** Inside a run the file offset moves with the address. */
  lemma LinearInRun(d: Dump, r: Run, pa: u64)
    requires RunsOk(d.runs) && r in d.runs
    requires r.basePage * PAGE <= pa < (r.basePage + r.pageCount) * PAGE
    ensures PhysToFile(d, pa) == Some(r.fileStart + (pa - r.basePage * PAGE))
  {
    OwnerIsFirst(d.runs, r, pa / PAGE);
    OffsetInRun(r, pa);
  }

  // ---- ReadPhys ------------------------------------------------------------------------

  /** How many of the wanted bytes lie before the end of the run, in uint64 arithmetic. */
  function ChunkIn(r: Run, cur: u64, wanted: nat): (chunk: nat)
    ensures chunk <= wanted
  {
    var room := Wrap(Wrap(Wrap(r.basePage + r.pageCount) * PAGE) + U64 - cur);
    if wanted > room then room else wanted
  }

  /** The bytes read chunk by chunk, a chunk ending where its run ends. */
  function ReadChunks(d: Dump, cur: u64, remaining: nat): seq<byte>
    decreases remaining
  {
    var run := RunAt(d.runs, cur / PAGE);
    if remaining == 0 || run == None then []
    else
      var chunk := ChunkIn(run.value, cur, remaining);
      var buf := FileRead(d.file, FileOffset(run.value, cur), chunk);
      if |buf| < chunk || chunk == 0 then buf
      else buf + ReadChunks(d, Wrap(cur + chunk), remaining - chunk)
  }

  function Capped(n: int): nat {
    if n <= 0 then 0 else if n > MAX_READ then MAX_READ else n
  }

  method ReadPhys(d: Dump, pa: u64, n: int) returns (out: seq<byte>)
    ensures out == ReadChunks(d, pa, Capped(n))
  {
    hide FileOffset, FileRead, ChunkIn, Wrap;
    if n <= 0 {
      return [];
    }
    var total := if n > MAX_READ then MAX_READ else n;
    out := [];
    var cur: u64, remaining := pa, total;
    while remaining > 0
      invariant 0 <= remaining <= total
      invariant out + ReadChunks(d, cur, remaining) == ReadChunks(d, pa, Capped(n))
    {
      var run := RunAt(d.runs, cur / PAGE);
      if run == None {
        break;
      }
      var off := FileOffset(run.value, cur);
      var chunk := ChunkIn(run.value, cur, remaining);
      if chunk <= 0 {
        break;
      }
      var buf := FileRead(d.file, off, chunk);
      out := out + buf;
      if |buf| < chunk {
        break;
      }
      cur := Wrap(cur + chunk);
      remaining := remaining - chunk;
    }
  }

  lemma ByteInRun(d: Dump, r: Run, pa: u64)
    requires RunsOk(d.runs) && r in d.runs
    requires r.basePage * PAGE <= pa < (r.basePage + r.pageCount) * PAGE
    ensures var off := r.fileStart + (pa - r.basePage * PAGE);
            PhysAt(d)(pa) == if off < |d.file| then Some(d.file[off]) else None
  {
    LinearInRun(d, r, pa);
  }

  /** One read inside a run is the prefix of the bytes at its addresses. */
  lemma {:induction false} RunReadIsPrefix(d: Dump, r: Run, pa: u64, n: nat)
    requires RunsOk(d.runs) && r in d.runs && n > 0
    requires r.basePage * PAGE <= pa && pa + n <= (r.basePage + r.pageCount) * PAGE < U64
    ensures FileRead(d.file, r.fileStart + (pa - r.basePage * PAGE), n) == Prefix(PhysAt(d), pa, n)
    decreases n
  {
    hide RunsOk, PhysAt, FileRead, Wrap;
    ByteInRun(d, r, pa);
    var off := r.fileStart + (pa - r.basePage * PAGE);
    FirstByteRead(d.file, off, n);
    if off < |d.file| && n > 1 {
      WrapNone(pa + 1);
      RunReadIsPrefix(d, r, pa + 1, n - 1);
    }
  }

  lemma FirstByteRead(file: seq<byte>, off: nat, n: nat)
    requires n > 0
    ensures FileRead(file, off, n) == if off < |file| then [file[off]] + FileRead(file, off + 1, n - 1) else []
  {
  }

  /** The prefix in chunks: reading on after a full chunk, stopping after a short one. */
  lemma {:induction false} ReadChunksIsPrefix(d: Dump, cur: u64, remaining: nat)
    requires RunsOk(d.runs)
    ensures ReadChunks(d, cur, remaining) == Prefix(PhysAt(d), cur, remaining)
    decreases remaining
  {
    hide RunsOk, PhysAt, RunAt, FileRead, ChunkIn, FileOffset, Wrap;
    var run := RunAt(d.runs, cur / PAGE);
    if remaining > 0 {
      if run == None {
        NoRunNoByte(d, cur);
      } else {
        var r := run.value;
        RunFacts(d.runs, r, cur, remaining);
        var chunk := ChunkIn(r, cur, remaining);
        RunReadIsPrefix(d, r, cur, chunk);
        PrefixSplits(PhysAt(d), cur, chunk, remaining - chunk);
        ReadChunksIsPrefix(d, Wrap(cur + chunk), remaining - chunk);
      }
    }
  }

  lemma NoRunNoByte(d: Dump, pa: u64)
    requires RunAt(d.runs, pa / PAGE) == None
    ensures PhysAt(d)(pa) == None
  {
  }

  lemma RunFacts(runs: seq<Run>, r: Run, cur: u64, wanted: nat)
    requires RunsOk(runs) && r in runs && InRun(r, cur / PAGE) && wanted > 0
    ensures FileOffset(r, cur) == r.fileStart + (cur - r.basePage * PAGE)
    ensures r.basePage * PAGE <= cur && 0 < ChunkIn(r, cur, wanted)
    ensures cur + ChunkIn(r, cur, wanted) <= (r.basePage + r.pageCount) * PAGE < U64
  {
    OffsetInRun(r, cur);
  }

  /** ReadPhys returns the longest present prefix of the requested range, capped at 16 MB, also
      when it spans several runs. */
  lemma ReadPhysReadsPrefix(d: Dump, pa: u64, n: int)
    requires RunsOk(d.runs)
    ensures Capped(n) == if n <= 0 then 0 else if n > 0x100_0000 then 0x100_0000 else n
    ensures var out := ReadChunks(d, pa, Capped(n));
            && (forall k :: 0 <= k < |out| ==> PhysByte(d, Wrap(pa + k)) == Some(out[k]))
            && (|out| < Capped(n) ==> PhysByte(d, Wrap(pa + |out|)) == None)
  {
    hide RunsOk, ReadChunks, PhysByte, Wrap;
    ReadChunksIsPrefix(d, pa, Capped(n));
    PrefixMeaning(PhysAt(d), pa, Capped(n));
  }

  // ---- The run table of a PAGEDUMP64 header -----------------------------------------------

  /** The (base, count) pairs of the descriptor, packed in order after the header; empty runs are skipped. */
  function RunsFrom(pairs: seq<(u64, u64)>, fileCursor: u64): seq<Run> {
    if pairs == [] then []
    else if pairs[0].1 == 0 then RunsFrom(pairs[1..], fileCursor)
    else [Run(pairs[0].0, pairs[0].1, fileCursor)] + RunsFrom(pairs[1..], Wrap(fileCursor + pairs[0].1 * PAGE))
  }

  method BuildRuns(pairs: seq<(u64, u64)>) returns (runs: seq<Run>)
    ensures runs == RunsFrom(pairs, HEADER)
  {
    runs := [];
    var fileCursor: u64 := HEADER;
    for i := 0 to |pairs|
      invariant runs + RunsFrom(pairs[i..], fileCursor) == RunsFrom(pairs, HEADER)
    {
      assert pairs[i..][1..] == pairs[i + 1..];
      var (base, count) := pairs[i];
      if count != 0 {
        runs := runs + [Run(base, count, fileCursor)];
        fileCursor := Wrap(fileCursor + count * PAGE);
      }
    }
    assert pairs[|pairs|..] == [];
  }

  function PagesBefore(runs: seq<Run>, i: nat): nat
    requires i <= |runs|
  {
    if i == 0 then 0 else PagesBefore(runs, i - 1) + runs[i - 1].pageCount
  }

  lemma {:induction false} PagesBeforeTail(runs: seq<Run>, i: nat)
    requires 0 < i <= |runs|
    ensures PagesBefore(runs, i) == runs[0].pageCount + PagesBefore(runs[1..], i - 1)
  {
    if i > 1 {
      PagesBeforeTail(runs, i - 1);
    }
  }

  /** Every run starts where the one before it ends, the first right after the header. */
  lemma {:induction false} RunsArePacked(pairs: seq<(u64, u64)>, start: u64, i: nat)
    requires i < |RunsFrom(pairs, start)|
    requires start + PagesBefore(RunsFrom(pairs, start), |RunsFrom(pairs, start)|) * PAGE < U64
    ensures RunsFrom(pairs, start)[i].fileStart == start + PagesBefore(RunsFrom(pairs, start), i) * PAGE
    decreases |pairs|
  {
    var runs := RunsFrom(pairs, start);
    if pairs[0].1 == 0 {
      RunsArePacked(pairs[1..], start, i);
    } else {
      PagesBeforeTail(runs, |runs|);
      if i > 0 {
        PagesBeforeTail(runs, i);
        assert runs[1..] == RunsFrom(pairs[1..], Wrap(start + pairs[0].1 * PAGE));
        RunsArePacked(pairs[1..], Wrap(start + pairs[0].1 * PAGE), i - 1);
      }
    }
  }

  lemma {:induction false} PagesBeforeGrows(runs: seq<Run>, i: nat, j: nat)
    requires i <= j <= |runs|
    ensures PagesBefore(runs, i) <= PagesBefore(runs, j)
  {
    if i < j {
      PagesBeforeGrows(runs, i, j - 1);
    }
  }

  /** The header's runs: pages disjoint, and everything addressable. */
  ghost predicate UsableHeader(pairs: seq<(u64, u64)>) {
    var runs := RunsFrom(pairs, HEADER);
    && HEADER + PagesBefore(runs, |runs|) * PAGE < 0x8000_0000_0000_0000
    && (forall r :: r in runs ==> (r.basePage + r.pageCount) * PAGE < U64)
    && (forall i, j :: 0 <= i < j < |runs| ==> Disjoint(runs[i], runs[j]))
  }

  /** A run's file range ends before a later run's begins. */
  lemma RunsOrderedInFile(pairs: seq<(u64, u64)>, i: nat, j: nat)
    requires UsableHeader(pairs) && i < j <= |RunsFrom(pairs, HEADER)|
    ensures var runs := RunsFrom(pairs, HEADER);
            && runs[i].fileStart + runs[i].pageCount * PAGE <= HEADER + PagesBefore(runs, j) * PAGE
            && (j < |runs| ==> runs[j].fileStart == HEADER + PagesBefore(runs, j) * PAGE)
  {
    hide RunsFrom, Disjoint;
    var runs := RunsFrom(pairs, HEADER);
    RunsArePacked(pairs, HEADER, i);
    if j < |runs| {
      RunsArePacked(pairs, HEADER, j);
    }
    PagesBeforeGrows(runs, i + 1, j);
  }

  lemma UsableRunsOk(pairs: seq<(u64, u64)>)
    requires UsableHeader(pairs)
    ensures RunsOk(RunsFrom(pairs, HEADER))
  {
    var runs := RunsFrom(pairs, HEADER);
    forall r | r in runs
      ensures RunFits(r)
    {
      var i :| 0 <= i < |runs| && runs[i] == r;
      RunsOrderedInFile(pairs, i, |runs|);
    }
  }

  lemma LaterRunLaterOffset(pairs: seq<(u64, u64)>, i: nat, j: nat, pa: u64, pb: u64)
    requires UsableHeader(pairs) && i < j < |RunsFrom(pairs, HEADER)|
    requires var runs := RunsFrom(pairs, HEADER); InRun(runs[i], pa / PAGE) && InRun(runs[j], pb / PAGE)
    ensures var runs := RunsFrom(pairs, HEADER); FileOffset(runs[i], pa) < FileOffset(runs[j], pb)
  {
    var runs := RunsFrom(pairs, HEADER);
    UsableRunsOk(pairs);
    RunsOrderedInFile(pairs, i, j);
    OffsetInRun(runs[i], pa);
    OffsetInRun(runs[j], pb);
  }

  /** Distinct present physical addresses lie at distinct file offsets. */
  lemma PhysToFileInjective(d: Dump, pairs: seq<(u64, u64)>, pa: u64, pb: u64)
    requires UsableHeader(pairs) && d.runs == RunsFrom(pairs, HEADER)
    requires PhysToFile(d, pa).Some? && PhysToFile(d, pa) == PhysToFile(d, pb)
    ensures pa == pb
  {
    hide RunsFrom, FileOffset, InRun;
    UsableRunsOk(pairs);
    var r, q := RunAt(d.runs, pa / PAGE).value, RunAt(d.runs, pb / PAGE).value;
    var i :| 0 <= i < |d.runs| && d.runs[i] == r;
    var j :| 0 <= j < |d.runs| && d.runs[j] == q;
    if i < j {
      LaterRunLaterOffset(pairs, i, j, pa, pb);
    } else if j < i {
      LaterRunLaterOffset(pairs, j, i, pb, pa);
    } else {
      OffsetInRun(r, pa);
      OffsetInRun(r, pb);
    }
  }

  // ---- A dump as it is written -----------------------------------------------------------------

  /** A run of physical pages from a page number on, with what they hold. */
  datatype Stored = Stored(base: nat, pages: seq<seq<byte>>)

  function PagesBytes(pages: seq<seq<byte>>): seq<byte> {
    if pages == [] then [] else pages[0] + PagesBytes(pages[1..])
  }

  function RunsBytes(stored: seq<Stored>): seq<byte> {
    if stored == [] then [] else PagesBytes(stored[0].pages) + RunsBytes(stored[1..])
  }

  ghost predicate Apart(a: Stored, b: Stored) {
    a.base + |a.pages| <= b.base || b.base + |b.pages| <= a.base
  }

  /** Pages of 4096 bytes at addresses below 2^64, no page in two runs. */
  ghost predicate Storable(stored: seq<Stored>) {
    && (forall r :: r in stored ==> 0x1000 * (r.base + |r.pages|) < U64)
    && (forall r, p :: r in stored && p in r.pages ==> |p| == 0x1000)
    && (forall i, j :: 0 <= i < j < |stored| ==> Apart(stored[i], stored[j]))
  }

  lemma StorableTail(stored: seq<Stored>)
    requires Storable(stored) && stored != []
    ensures Storable(stored[1..]) && 0x1000 * (stored[0].base + |stored[0].pages|) < U64
    ensures forall p :: p in stored[0].pages ==> |p| == 0x1000
    ensures forall r :: r in stored[1..] ==> Apart(stored[0], r)
  {
  }

  /** What the descriptor says of the runs. */
  function Described(stored: seq<Stored>): (pairs: seq<(u64, u64)>)
    requires forall r :: r in stored ==> 0x1000 * (r.base + |r.pages|) < U64
    ensures |pairs| == |stored|
  {
    if stored == [] then [] else [(stored[0].base, |stored[0].pages|)] + Described(stored[1..])
  }

  lemma {:induction false} PageInBytes(pages: seq<seq<byte>>, j: nat, k: nat)
    requires (forall p :: p in pages ==> |p| == 0x1000) && j < |pages| && k < 0x1000
    ensures |PagesBytes(pages)| == 0x1000 * |pages| && PagesBytes(pages)[0x1000 * j + k] == pages[j][k]
  {
    PagesLength(pages[1..]);
    assert pages[0] in pages;
    if j > 0 {
      PageInBytes(pages[1..], j - 1, k);
    }
  }

  lemma {:induction false} PagesLength(pages: seq<seq<byte>>)
    requires forall p :: p in pages ==> |p| == 0x1000
    ensures |PagesBytes(pages)| == 0x1000 * |pages|
  {
    if pages != [] {
      assert pages[0] in pages;
      PagesLength(pages[1..]);
    }
  }

  /** Where the i-th run's pages start, counted from those of the first. */
  function StartOf(stored: seq<Stored>, i: nat): nat
    requires i <= |stored|
  {
    if i == 0 then 0 else 0x1000 * |stored[0].pages| + StartOf(stored[1..], i - 1)
  }

  lemma FirstPages(stored: seq<Stored>)
    requires Storable(stored) && stored != []
    ensures RunsBytes(stored) == PagesBytes(stored[0].pages) + RunsBytes(stored[1..])
    ensures |PagesBytes(stored[0].pages)| == 0x1000 * |stored[0].pages|
  {
    hide Apart, PagesBytes;
    PagesLength(stored[0].pages);
  }

  lemma SliceBehind(a: seq<byte>, b: seq<byte>, i: nat, j: nat)
    requires i <= j <= |b|
    ensures (a + b)[|a| + i..|a| + j] == b[i..j] && (a + b)[..|a|] == a
  {
  }

  lemma StartOfNext(stored: seq<Stored>, i: nat)
    requires i < |stored|
    ensures StartOf(stored, i) == if i == 0 then 0 else 0x1000 * |stored[0].pages| + StartOf(stored[1..], i - 1)
  {
  }

  lemma {:induction false} PagesAt(stored: seq<Stored>, i: nat)
    requires Storable(stored) && i < |stored|
    ensures var at, n := StartOf(stored, i), 0x1000 * |stored[i].pages|;
            at + n <= |RunsBytes(stored)| && RunsBytes(stored)[at..at + n] == PagesBytes(stored[i].pages)
  {
    hide Storable, PagesBytes, RunsBytes, StartOf;
    StorableTail(stored);
    FirstPages(stored);
    StartOfNext(stored, i);
    var first, rest := PagesBytes(stored[0].pages), RunsBytes(stored[1..]);
    if i == 0 {
      SliceBehind(first, rest, 0, 0);
    } else {
      PagesAt(stored[1..], i - 1);
      var at, n := StartOf(stored[1..], i - 1), 0x1000 * |stored[i].pages|;
      SliceBehind(first, rest, at, at + n);
    }
  }

  lemma FirstRunOf(stored: seq<Stored>, start: u64)
    requires Storable(stored) && stored != [] && start + 0x1000 * |stored[0].pages| < U64
    ensures RunsFrom(Described(stored), start) ==
            (if stored[0].pages == [] then [] else [Run(stored[0].base, |stored[0].pages|, start)]) +
            RunsFrom(Described(stored[1..]), start + 0x1000 * |stored[0].pages|)
  {
    hide Storable, RunsFrom, Described;
    StorableTail(stored);
    assert Described(stored) == [(stored[0].base, |stored[0].pages|)] + Described(stored[1..]) by { DescribedFirst(stored); }
    OneDescribed(stored[0].base, |stored[0].pages|, Described(stored[1..]), start);
  }

  lemma DescribedFirst(stored: seq<Stored>)
    requires stored != [] && forall r :: r in stored ==> 0x1000 * (r.base + |r.pages|) < U64
    ensures Described(stored) == [(stored[0].base, |stored[0].pages|)] + Described(stored[1..])
  {
  }

  lemma OneDescribed(base: u64, count: u64, pairs: seq<(u64, u64)>, start: u64)
    requires start + 0x1000 * count < U64
    ensures RunsFrom([(base, count)] + pairs, start) ==
            (if count == 0 then [] else [Run(base, count, start)]) + RunsFrom(pairs, start + 0x1000 * count)
  {
    assert ([(base, count)] + pairs)[1..] == pairs;
    SmallMod(start + 0x1000 * count, U64);
    assert [] + RunsFrom(pairs, start) == RunsFrom(pairs, start);
  }

  lemma PagesOfRun(r: Run, page: nat)
    requires r.basePage + r.pageCount < U64
    ensures InRun(r, page) <==> r.basePage <= page < r.basePage + r.pageCount
  {
    SmallMod(r.basePage + r.pageCount, U64);
  }

  /** The first stored run decides, or it does not hold the page. */
  lemma FirstRunFound(stored: seq<Stored>, start: u64, page: nat)
    requires Storable(stored) && stored != [] && start + 0x1000 * |stored[0].pages| < U64
    ensures RunAt(RunsFrom(Described(stored), start), page) ==
            if stored[0].base <= page < stored[0].base + |stored[0].pages|
            then Some(Run(stored[0].base, |stored[0].pages|, start))
            else RunAt(RunsFrom(Described(stored[1..]), start + 0x1000 * |stored[0].pages|), page)
  {
    hide Storable, RunsFrom, Described, InRun;
    StorableTail(stored);
    FirstRunOf(stored, start);
    PagesOfRun(Run(stored[0].base, |stored[0].pages|, start), page);
    var r, rest := Run(stored[0].base, |stored[0].pages|, start),
      RunsFrom(Described(stored[1..]), start + 0x1000 * |stored[0].pages|);
    assert [] + rest == rest && ([r] + rest)[1..] == rest;
  }

  /** The run found for a stored page is the one it was stored in. */
  lemma {:induction false} StoredRunFound(stored: seq<Stored>, start: u64, i: nat, j: nat)
    requires Storable(stored) && i < |stored| && j < |stored[i].pages|
    requires start + |RunsBytes(stored)| < TOP
    ensures start + StartOf(stored, i) < U64
    ensures RunAt(RunsFrom(Described(stored), start), stored[i].base + j) ==
            Some(Run(stored[i].base, |stored[i].pages|, start + StartOf(stored, i)))
    decreases |stored|
  {
    hide Storable, PagesBytes, Apart, RunAt, RunsFrom, Described;
    StorableTail(stored);
    PagesLength(stored[0].pages);
    PagesAt(stored, i);
    FirstRunFound(stored, start, stored[i].base + j);
    if i > 0 {
      assert stored[i] == stored[1..][i - 1];
      StoredRunFound(stored[1..], start + 0x1000 * |stored[0].pages|, i - 1, j);
      ApartPages(stored[0], stored[i], j);
    }
  }

  lemma ApartPages(a: Stored, b: Stored, j: nat)
    requires Apart(a, b) && j < |b.pages|
    ensures !(a.base <= b.base + j < a.base + |a.pages|)
  {
  }

  lemma {:induction false} NoRunFound(stored: seq<Stored>, start: u64, page: nat)
    requires Storable(stored) && start + |RunsBytes(stored)| < TOP
    requires forall r :: r in stored ==> !(r.base <= page < r.base + |r.pages|)
    ensures RunAt(RunsFrom(Described(stored), start), page) == None
    decreases |stored|
  {
    hide Storable, PagesBytes, RunsBytes, RunAt, RunsFrom, Described;
    if stored == [] {
      NoRuns(start, page);
    } else {
      StorableTail(stored);
      FirstPages(stored);
      FirstRunFound(stored, start, page);
      NoRunFound(stored[1..], start + 0x1000 * |stored[0].pages|, page);
    }
  }

  lemma NoRuns(start: u64, page: nat)
    ensures RunAt(RunsFrom(Described([]), start), page) == None
  {
  }

  /** A dump of stored runs behind 0x2000 bytes of header. */
  function WrittenDump(header: seq<byte>, stored: seq<Stored>): Dump
    requires forall r :: r in stored ==> 0x1000 * (r.base + |r.pages|) < U64
  {
    Dump(header + RunsBytes(stored), RunsFrom(Described(stored), HEADER))
  }

  /** Every byte of every stored page is read back at its physical address. */
  lemma StoredByteReadBack(header: seq<byte>, stored: seq<Stored>, i: nat, j: nat, k: nat)
    requires |header| == 0x2000 && Storable(stored) && |header + RunsBytes(stored)| < TOP
    requires i < |stored| && j < |stored[i].pages| && |stored[i].pages[j]| == 0x1000 && k < 0x1000
    ensures 0x1000 * (stored[i].base + j) + k < U64
    ensures PhysByte(WrittenDump(header, stored), 0x1000 * (stored[i].base + j) + k) == Some(stored[i].pages[j][k])
  {
    hide PagesBytes, RunsFrom, Described, RunsBytes, StartOf, Apart, FileOffset, InRun, RunAt;
    var d, r := WrittenDump(header, stored), stored[i];
    assert r in stored;
    var pa := 0x1000 * (r.base + j) + k;
    var at, n := StartOf(stored, i), 0x1000 * |r.pages|;
    PagesAt(stored, i);
    PageInBytes(r.pages, j, k);
    StoredRunFound(stored, HEADER, i, j);
    assert RunsBytes(stored)[at..at + n][0x1000 * j + k] == r.pages[j][k];
    OffsetOfStored(Run(r.base, |r.pages|, HEADER + at), pa, j, k);
  }

  lemma OffsetOfStored(r: Run, pa: u64, j: nat, k: nat)
    requires pa == 0x1000 * (r.basePage + j) + k && j < r.pageCount && k < 0x1000
    requires r.basePage + r.pageCount < U64 && r.fileStart + 0x1000 * r.pageCount < TOP
    ensures pa / PAGE == r.basePage + j && InRun(r, pa / PAGE) && FileOffset(r, pa) == r.fileStart + 0x1000 * j + k
  {
    DivUnique(pa, PAGE, r.basePage + j, k);
    SmallMod(r.basePage + r.pageCount, U64);
    SmallMod(r.fileStart + 0x1000 * j + k, U64);
  }

  /** No other address holds a byte. */
  lemma NothingElseStored(header: seq<byte>, stored: seq<Stored>, pa: u64)
    requires |header| == 0x2000 && Storable(stored) && |header + RunsBytes(stored)| < TOP
    requires forall r :: r in stored ==> !(r.base <= pa / 0x1000 < r.base + |r.pages|)
    ensures PhysByte(WrittenDump(header, stored), pa) == None
  {
    hide PagesBytes, RunsFrom, Described, RunsBytes, FileOffset;
    NoRunFound(stored, HEADER, pa / PAGE);
  }
}
