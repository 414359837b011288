/** The reader object over compression units, with its one-unit cache. */
module NtfsCompressedReader {
  import opened Bits
  import opened NtfsRuns
  import opened NtfsStreams
  import opened NtfsCompressed
  import L = Lznt1
  import Lznt1Decoder

  datatype Status = Fine | Eof | Error | Crashed

  /** The bytes a load leaves to be cached: an error is reported only when nothing was decoded. */
  function UnitData(s: Source, unitIdx: nat): Option<seq<byte>>
    requires SourceOk(s)
  {
    match UnitAt(s, unitIdx)
    case Loaded(data) => Some(data)
    case Broken(data) => if data == [] then None else Some(data)
    case Crash => None
  }

  /** What a Read of n bytes at a position delivers, where it leaves the position, and its status. */
  function ReadAtPos(s: Source, pos: nat, n: nat): (seq<byte>, nat, Status)
    requires SourceOk(s)
  {
    if pos >= s.size then ([], pos, Eof)
    else if n == 0 then ([], pos, Fine)
    else
      var unitIdx, unitOff := pos / s.unitBytes, pos % s.unitBytes;
      match UnitData(s, unitIdx)
      case None => ([], pos, if UnitAt(s, unitIdx).Crash? then Crashed else Error)
      case Some(data) =>
        if |data| <= unitOff then ([], s.size, Eof)
        else
          var avail := Min(Min(|data| - unitOff, s.size - pos), n);
          (data[unitOff..unitOff + avail], pos + avail, Fine)
  }

  class CompressedReader {
    const src: Source
    var pos: nat
    var cachedUnit: int
    var cachedData: Option<seq<byte>>

    /** A kept unit is what loading its index gives. */
    ghost predicate Valid()
      reads this
    {
      SourceOk(src) && (cachedData.Some? ==> cachedUnit >= 0 && UnitData(src, cachedUnit) == cachedData)
    }

    constructor (src: Source)
      requires SourceOk(src)
      ensures Valid() && this.src == src && pos == 0
    {
      this.src := src;
      pos, cachedUnit, cachedData := 0, -1, None;
    }

    /** Load a unit unless it is the one kept. */
    method KeepUnit(unitIdx: nat) returns (status: Status)
      requires Valid()
      modifies this`cachedUnit, this`cachedData
      ensures Valid()
      ensures UnitData(src, unitIdx).Some? ==> status == Fine && cachedUnit == unitIdx && cachedData == UnitData(src, unitIdx)
      ensures UnitData(src, unitIdx) == None ==> status == if UnitAt(src, unitIdx).Crash? then Crashed else Error
    {
      hide UnitAt;
      if cachedUnit != unitIdx || cachedData == None {
        var u := LoadUnit(src, unitIdx);
        if u.Crash? {
          return Crashed;
        }
        if u.Broken? && |u.data| == 0 {
          return Error;
        }
        cachedUnit, cachedData := unitIdx, Some(u.data);
      }
      status := Fine;
    }

    /** Whatever is kept, a read delivers what the source holds at its position. */
    method Read(p: array<byte>) returns (n: nat, status: Status)
      requires Valid()
      modifies this`pos, this`cachedUnit, this`cachedData, p
      ensures Valid()
      ensures var (b, next, st) := ReadAtPos(src, old(pos), p.Length);
              n == |b| && p[..n] == b && pos == next && status == st
      ensures p[n..] == old(p[n..])
    {
      hide UnitAt, UnitData;
      if pos >= src.size {
        return 0, Eof;
      }
      if p.Length == 0 {
        return 0, Fine;
      }
      var unitIdx := pos / src.unitBytes;
      var unitOff := pos - unitIdx * src.unitBytes;
      OffsetInUnit(pos, src.unitBytes);
      status := KeepUnit(unitIdx);
      if status != Fine {
        return 0, status;
      }
      var data := cachedData.value;
      if |data| <= unitOff {
        pos := src.size;
        return 0, Eof;
      }
      var avail := |data| - unitOff;
      if avail > src.size - pos {
        avail := src.size - pos;
      }
      if avail > p.Length {
        avail := p.Length;
      }
      CopyOut(p, data[unitOff..unitOff + avail]);
      pos := pos + avail;
      n := avail;
    }
  }

  method CopyOut(p: array<byte>, b: seq<byte>)
    requires |b| <= p.Length
    modifies p
    ensures p[..|b|] == b && p[|b|..] == old(p[|b|..])
  {
    forall k | 0 <= k < |b| {
      p[k] := b[k];
    }
  }

  lemma OffsetInUnit(pos: nat, unitBytes: nat)
    requires unitBytes > 0
    ensures pos - pos / unitBytes * unitBytes == pos % unitBytes
  {
  }

  /** Gather the window's runs, then hand the bytes on as they are or to the LZNT1 decoder. */
  method LoadUnit(s: Source, unitIdx: nat) returns (u: Unit)
    requires SourceOk(s)
    ensures u == UnitAt(s, unitIdx)
  {
    hide L.Decoded;
    var unitClusters := s.unitBytes / s.v.clusterSize;
    var startVcn := Times(unitIdx, unitClusters);
    var raw, hasSparse, stopped := GatherRuns(s.v, s.runs, startVcn, startVcn + unitClusters);
    if stopped {
      return Crash;
    }
    if |raw| == 0 {
      return Loaded(Zeros(s.unitBytes));
    }
    if !hasSparse {
      return Loaded(if |raw| > s.unitBytes then raw[..s.unitBytes] else raw);
    }
    var out := Lznt1Decoder.Decompress(raw, Spare(raw, s.unitBytes));
    match out
    case Ok(data) => u := Loaded(data);
    case BlockTooSmall => u := Broken([]);
    case ShiftTooLarge(data) => u := Broken(data);
    case Panic => u := Crash;
  }

  /** stopped: a buffer of negative length was asked for, and the program stops. */
  method GatherRuns(v: Volume, runs: seq<DataRun>, startVcn: nat, endVcn: nat)
    returns (rawBuf: seq<byte>, hasSparse: bool, stopped: bool)
    requires startVcn <= endVcn
    ensures Gather(v, runs, 0, startVcn, endVcn) == if stopped then Halted else Gathered(rawBuf, hasSparse)
  {
    hide ReadClusters, Gather;
    rawBuf, hasSparse, stopped := [], false, false;
    var vcn: int := 0;
    var i := 0;
    while i < |runs|
      invariant i <= |runs|
      invariant Joined(rawBuf, hasSparse, Gather(v, runs[i..], vcn, startVcn, endVcn)) ==
                Gather(v, runs, 0, startVcn, endVcn)
    {
      var run := runs[i];
      assert runs[i..][0] == run && runs[i..][1..] == runs[i + 1..];
      GatherStep(v, runs[i..], vcn, startVcn, endVcn);
      i := i + 1;
      var runEnd := vcn + run.length;
      if runEnd <= startVcn {
        vcn := runEnd;
        continue;
      }
      if vcn >= endVcn {
        return;
      }
      var overlapStart := if vcn < startVcn then startVcn else vcn;
      var overlapEnd := if runEnd > endVcn then endVcn else runEnd;
      if run.lcn < 0 {
        hasSparse := true;
      } else if overlapEnd < overlapStart {
        return [], false, true;
      } else {
        var part := ReadClusters(v, run.lcn + (overlapStart - vcn), overlapEnd - overlapStart);
        JoinedAssoc(rawBuf, part, hasSparse, Gather(v, runs[i..], runEnd, startVcn, endVcn));
        rawBuf := rawBuf + part;
      }
      vcn := runEnd;
    }
    GatherStep(v, runs[i..], vcn, startVcn, endVcn);
  }

  lemma JoinedAssoc(raw: seq<byte>, part: seq<byte>, hasSparse: bool, rest: Gathered)
    ensures Joined(raw, hasSparse, Joined(part, false, rest)) == Joined(raw + part, hasSparse, rest)
  {
    if rest.Gathered? {
      assert raw + (part + rest.raw) == raw + part + rest.raw;
    }
  }

  // ---- The logical file ---------------------------------------------------------------------

  /** Every unit before the last decodes to its full size, the last at least to the end of the file. */
  ghost predicate UnitsFull(s: Source)
    requires SourceOk(s)
  {
    forall u: nat :: Times(u, s.unitBytes) < s.size ==>
      && UnitData(s, u).Some?
      && |UnitData(s, u).value| >= Min(s.unitBytes, s.size - Times(u, s.unitBytes))
      && (Times(u, s.unitBytes) + s.unitBytes < s.size ==> |UnitData(s, u).value| == s.unitBytes)
  }

  lemma UnitStart(o: nat, unitBytes: nat)
    requires unitBytes > 0
    ensures Times(o / unitBytes, unitBytes) + o % unitBytes == o
    ensures o % unitBytes < unitBytes
  {
  }

  ghost function LogicalByte(s: Source, o: nat): byte
    requires SourceOk(s) && UnitsFull(s) && o < s.size
  {
    UnitStart(o, s.unitBytes);
    UnitData(s, o / s.unitBytes).value[o % s.unitBytes]
  }

  /** The decoded units end to end, cut to the file's size. */
  ghost function LogicalFile(s: Source): (f: seq<byte>)
    requires SourceOk(s) && UnitsFull(s)
    ensures |f| == Max(s.size, 0)
  {
    seq(Max(s.size, 0), o requires 0 <= o < s.size => LogicalByte(s, o))
  }

  lemma NextInUnit(pos: nat, k: nat, unitBytes: nat)
    requires unitBytes > 0 && pos % unitBytes + k < unitBytes
    ensures (pos + k) / unitBytes == pos / unitBytes && (pos + k) % unitBytes == pos % unitBytes + k
  {
    UnitStart(pos, unitBytes);
    DivUnique(pos + k, unitBytes, pos / unitBytes, pos % unitBytes + k);
  }

  lemma ReadIsLogical(s: Source, pos: nat, n: nat)
    requires SourceOk(s) && UnitsFull(s) && pos < s.size && n > 0
    ensures var (b, next, status) := ReadAtPos(s, pos, n);
            && status == Fine && 0 < |b| && next == pos + |b| <= s.size
            && b == LogicalFile(s)[pos..next]
  {
    hide UnitAt, UnitData, Times;
    var u, off := pos / s.unitBytes, pos % s.unitBytes;
    UnitStart(pos, s.unitBytes);
    var data := UnitData(s, u).value;
    var (b, next, status) := ReadAtPos(s, pos, n);
    forall k | 0 <= k < |b|
      ensures b[k] == LogicalByte(s, pos + k)
    {
      NextInUnit(pos, k, s.unitBytes);
    }
  }

  /** All that a sequence of reads delivers, and where it ends. */
  function Delivered(s: Source, pos: nat, sizes: seq<nat>): (seq<byte>, nat)
    requires SourceOk(s)
    decreases |sizes|
  {
    if sizes == [] then ([], pos)
    else
      var (b, next, _) := ReadAtPos(s, pos, sizes[0]);
      var (more, end) := Delivered(s, next, sizes[1..]);
      (b + more, end)
  }

  /** For any sequence of buffer sizes the reader delivers the logical file from where it stood,
      and enough non-empty reads reach its end. */
  lemma {:induction false} DeliversLogicalFile(s: Source, pos: nat, sizes: seq<nat>)
    requires SourceOk(s) && UnitsFull(s) && pos <= s.size
    ensures var (b, end) := Delivered(s, pos, sizes);
            && pos <= end <= s.size && b == LogicalFile(s)[pos..end]
            && (end < s.size ==> end - pos >= |sizes| - Empty(sizes))
    decreases |sizes|
  {
    hide LogicalFile, UnitsFull, ReadAtPos;
    var f := LogicalFile(s);
    assert f[pos..pos] == [];
    if sizes != [] {
      OneRead(s, pos, sizes[0]);
      var (b, next, _) := ReadAtPos(s, pos, sizes[0]);
      DeliversLogicalFile(s, next, sizes[1..]);
      var (more, end) := Delivered(s, next, sizes[1..]);
      assert Delivered(s, pos, sizes) == (b + more, end);
      SliceJoin(f, pos, next, end);
      assert Empty(sizes) == (if sizes[0] == 0 then 1 else 0) + Empty(sizes[1..]);
    }
  }

  lemma OneRead(s: Source, pos: nat, n: nat)
    requires SourceOk(s) && UnitsFull(s) && pos <= s.size
    ensures var (b, next, _) := ReadAtPos(s, pos, n);
            && pos <= next <= s.size && b == LogicalFile(s)[pos..next]
            && (n > 0 && pos < s.size ==> pos < next)
  {
    hide UnitsFull, LogicalFile;
    if n > 0 && pos < s.size {
      ReadIsLogical(s, pos, n);
    }
  }

  /** On the file of LostUnit every read with room reports the end at once, although 16 clusters are stored. */
  lemma EmptyHoleEndsFile(n: nat)
    requires n > 0
    ensures SourceOk(LostUnit()) && ReadAtPos(LostUnit(), 0, n) == ([], 8192, Eof)
  {
    hide UnitAt;
    EmptyHoleLosesUnit();
  }

  // ---- The file that was compressed ----------------------------------------------------------

  /** A unit as it was stored: how, and its data. */
  datatype Stored = Stored(how: Layout, data: seq<byte>)

  /** The units store the file: all but the last hold a full unit of it, the last at least its rest. */
  ghost predicate StoresFile(s: Source, units: seq<Stored>, f: seq<byte>)
    requires SourceOk(s) && LengthsOk(s.runs)
  {
    && s.size == |f| <= Times(|units|, s.unitBytes)
    && forall u :: 0 <= u < |units| ==> LaidOut(s, u, units[u].how, units[u].data) && HoldsPart(s, units[u].data, f, u)
  }

  predicate HoldsPart(s: Source, data: seq<byte>, f: seq<byte>, u: nat) {
    var lo := Times(u, s.unitBytes);
    lo < |f| ==>
      && (lo + s.unitBytes < |f| ==> |data| == s.unitBytes)
      && var n := Min(s.unitBytes, |f| - lo); n <= |data| && data[..n] == f[lo..lo + n]
  }

  lemma UnitOfByte(s: Source, o: nat, units: nat)
    requires s.unitBytes > 0 && o < Times(units, s.unitBytes)
    ensures o / s.unitBytes < units
  {
    hide Times;
    UnitStart(o, s.unitBytes);
    if o / s.unitBytes >= units {
      TimesMonotone(units, o / s.unitBytes, s.unitBytes);
    }
  }

  lemma TimesMonotone(x: nat, y: nat, z: nat)
    requires x <= y
    ensures Times(x, z) <= Times(y, z)
  {
    assert y * z == x * z + (y - x) * z;
  }

  lemma UnitsLoad(s: Source, units: seq<Stored>, f: seq<byte>, u: nat)
    requires SourceOk(s) && LengthsOk(s.runs) && s.unitBytes >= s.v.clusterSize
    requires StoresFile(s, units, f) && Times(u, s.unitBytes) < s.size
    ensures u < |units| && UnitData(s, u) == Some(units[u].data) && HoldsPart(s, units[u].data, f, u)
  {
    hide UnitAt, LaidOut, HoldsPart, Times;
    if u >= |units| {
      TimesMonotone(|units|, u, s.unitBytes);
    } else {
      UnitReadBack(s, u, units[u].how, units[u].data);
    }
  }

  /** A file stored in units, as holes, as it is or as LZNT1 chunks, is the logical file of the reader, and
      enough reads of any sizes deliver it. */
  lemma CompressedFileReadBack(s: Source, units: seq<Stored>, f: seq<byte>, sizes: seq<nat>)
    requires SourceOk(s) && LengthsOk(s.runs) && s.unitBytes >= s.v.clusterSize
    requires StoresFile(s, units, f)
    ensures UnitsFull(s) && LogicalFile(s) == f
    ensures |sizes| - Empty(sizes) >= |f| ==> Delivered(s, 0, sizes).0 == f
  {
    hide UnitData, Times, StoresFile, ReadAtPos;
    assert s.size == |f| by { FileSize(s, units, f); }
    forall u: nat | Times(u, s.unitBytes) < s.size
      ensures UnitData(s, u).Some?
      ensures |UnitData(s, u).value| >= Min(s.unitBytes, s.size - Times(u, s.unitBytes))
      ensures Times(u, s.unitBytes) + s.unitBytes < s.size ==> |UnitData(s, u).value| == s.unitBytes
    {
      UnitsLoad(s, units, f, u);
    }
    forall o | 0 <= o < |f| ensures LogicalByte(s, o) == f[o] {
      UnitStart(o, s.unitBytes);
      var u := o / s.unitBytes;
      UnitsLoad(s, units, f, u);
      PartByte(s, units[u].data, f, u, o % s.unitBytes);
    }
    DeliversLogicalFile(s, 0, sizes);
    assert f[0..|f|] == f;
  }

  lemma FileSize(s: Source, units: seq<Stored>, f: seq<byte>)
    requires SourceOk(s) && LengthsOk(s.runs) && StoresFile(s, units, f)
    ensures s.size == |f|
  {
  }

  lemma PartByte(s: Source, data: seq<byte>, f: seq<byte>, u: nat, k: nat)
    requires HoldsPart(s, data, f, u) && k < s.unitBytes && Times(u, s.unitBytes) + k < |f|
    ensures k < |data| && data[k] == f[Times(u, s.unitBytes) + k]
  {
    hide Times;
    var lo := Times(u, s.unitBytes);
    var n := Min(s.unitBytes, |f| - lo);
    assert data[..n][k] == f[lo..lo + n][k];
  }
}
