/** Write-ahead logs as section 4.1 of the SQLite database file format lays them out, and that exactly the frames
    with the log's salts are applied. */
module SqliteLog {
  import opened Bits
  import opened SqliteWal
  import opened SqliteFile

  /** A frame as it is written: page number, size of the database after a commit, two salts, two checksums, the page. */
  datatype LogFrame = LogFrame(page: nat, commit: seq<byte>, salt1: nat, salt2: nat, checksums: seq<byte>, data: seq<byte>)

  /** What stands in front of the frames; big states the byte order of the checksums. */
  datatype Log = Log(big: bool, version: seq<byte>, pageSize: nat, sequence: seq<byte>, salt1: nat, salt2: nat,
                     checksums: seq<byte>, frames: seq<LogFrame>)

  const U32: nat := 0x1_0000_0000

  predicate FrameFits(f: LogFrame, pageSize: nat) {
    f.page < U32 && |f.commit| == 4 && f.salt1 < U32 && f.salt2 < U32 && |f.checksums| == 8 && |f.data| == pageSize
  }

  predicate LogFits(l: Log) {
    && |l.version| == 4 && 512 <= l.pageSize < U32 && |l.sequence| == 4 && l.salt1 < U32 && l.salt2 < U32
    && |l.checksums| == 8 && FramesFit(l.frames, l.pageSize)
  }

  predicate FramesFit(fs: seq<LogFrame>, pageSize: nat) {
    forall k :: 0 <= k < |fs| ==> FrameFits(fs[k], pageSize)
  }

  function FrameBytes(f: LogFrame, pageSize: nat): (b: seq<byte>)
    requires FrameFits(f, pageSize)
    ensures |b| == 24 + pageSize
  {
    Be32Bytes(f.page) + f.commit + Be32Bytes(f.salt1) + Be32Bytes(f.salt2) + f.checksums + f.data
  }

  function FramesBytes(fs: seq<LogFrame>, pageSize: nat): seq<byte>
    requires FramesFit(fs, pageSize)
  {
    if fs == [] then [] else FrameBytes(fs[0], pageSize) + FramesBytes(fs[1..], pageSize)
  }

  function HeaderBytes(l: Log): (b: seq<byte>)
    requires LogFits(l)
    ensures |b| == 32
  {
    [0x37, 0x7f, 0x06, if l.big then 0x83 else 0x82] + l.version + Be32Bytes(l.pageSize) + l.sequence +
    Be32Bytes(l.salt1) + Be32Bytes(l.salt2) + l.checksums
  }

  /** The log, and behind it what is left of a frame that was not finished. */
  function LogBytes(l: Log, rest: seq<byte>): seq<byte>
    requires LogFits(l)
  {
    HeaderBytes(l) + FramesBytes(l.frames, l.pageSize) + rest
  }

  /** The frames of this log: its salts, and a page number. */
  function OwnFrames(l: Log, fs: seq<LogFrame>): seq<Frame> {
    if fs == [] then []
    else
      var more := OwnFrames(l, fs[1..]);
      if fs[0].salt1 == l.salt1 && fs[0].salt2 == l.salt2 && fs[0].page > 0 then [Frame(fs[0].page, fs[0].data)] + more
      else more
  }

  lemma QuadInside(a: seq<byte>, x: nat, b: seq<byte>)
    requires x < U32
    ensures Be32(a + Be32Bytes(x) + b, |a|) == x
  {
    hide Be32Bytes;
    var s := a + Be32Bytes(x) + b;
    assert forall k :: 0 <= k < 4 ==> s[|a| + k] == Be32Bytes(x)[k];
  }

  lemma HeaderReadBack(l: Log, behind: seq<byte>)
    requires LogFits(l)
    ensures var wal := HeaderBytes(l) + behind;
            && IsWal(wal) && Be32(wal, 8) == l.pageSize && Be32(wal, 16) == l.salt1 && Be32(wal, 20) == l.salt2
  {
    hide Be32Bytes, Be32;
    var wal := HeaderBytes(l) + behind;
    var magic: seq<byte> := [0x37, 0x7f, 0x06, if l.big then 0x83 else 0x82];
    var a := magic + l.version;
    var c := a + Be32Bytes(l.pageSize) + l.sequence;
    var d := c + Be32Bytes(l.salt1);
    assert wal == a + Be32Bytes(l.pageSize) + (l.sequence + Be32Bytes(l.salt1) + Be32Bytes(l.salt2) + l.checksums + behind);
    QuadInside(a, l.pageSize, l.sequence + Be32Bytes(l.salt1) + Be32Bytes(l.salt2) + l.checksums + behind);
    assert wal == c + Be32Bytes(l.salt1) + (Be32Bytes(l.salt2) + l.checksums + behind);
    QuadInside(c, l.salt1, Be32Bytes(l.salt2) + l.checksums + behind);
    assert wal == d + Be32Bytes(l.salt2) + (l.checksums + behind);
    QuadInside(d, l.salt2, l.checksums + behind);
    Magic(l, behind);
  }

  lemma Magic(l: Log, behind: seq<byte>)
    requires LogFits(l)
    ensures Be32(HeaderBytes(l) + behind, 0) == if l.big then 0x377f0683 else 0x377f0682
  {
    hide Be32Bytes;
    var wal := HeaderBytes(l) + behind;
    assert wal[0] == 0x37 && wal[1] == 0x7f && wal[2] == 0x06 && wal[3] == if l.big then 0x83 else 0x82;
  }

  lemma FrameReadBack(before: seq<byte>, f: LogFrame, pageSize: nat, behind: seq<byte>)
    requires FrameFits(f, pageSize)
    ensures var wal, pos := before + FrameBytes(f, pageSize) + behind, |before|;
            && Be32(wal, pos) == f.page && Be32(wal, pos + 8) == f.salt1 && Be32(wal, pos + 12) == f.salt2
            && wal[pos + 24..pos + 24 + pageSize] == f.data
  {
    hide Be32Bytes, Be32;
    var wal := before + FrameBytes(f, pageSize) + behind;
    var c := before + Be32Bytes(f.page) + f.commit;
    var d := c + Be32Bytes(f.salt1);
    assert wal == before + Be32Bytes(f.page) + (f.commit + Be32Bytes(f.salt1) + Be32Bytes(f.salt2) + f.checksums + f.data + behind);
    QuadInside(before, f.page, f.commit + Be32Bytes(f.salt1) + Be32Bytes(f.salt2) + f.checksums + f.data + behind);
    assert wal == c + Be32Bytes(f.salt1) + (Be32Bytes(f.salt2) + f.checksums + f.data + behind);
    QuadInside(c, f.salt1, Be32Bytes(f.salt2) + f.checksums + f.data + behind);
    assert wal == d + Be32Bytes(f.salt2) + (f.checksums + f.data + behind);
    QuadInside(d, f.salt2, f.checksums + f.data + behind);
  }

  /** One frame is read and taken or passed over. */
  lemma FrameStep(l: Log, before: seq<byte>, f: LogFrame, behind: seq<byte>)
    requires LogFits(l) && FrameFits(f, l.pageSize) && HeaderBytes(l) <= before
    ensures var wal, pos := before + FrameBytes(f, l.pageSize) + behind, |before|;
            FramesFrom(wal, l.pageSize, pos) ==
            (if f.salt1 == l.salt1 && f.salt2 == l.salt2 && f.page > 0 then [Frame(f.page, f.data)] else []) +
            FramesFrom(wal, l.pageSize, pos + 24 + l.pageSize)
  {
    hide Be32, FrameBytes, HeaderBytes, FrameFits;
    var wal := before + FrameBytes(f, l.pageSize) + behind;
    FrameReadBack(before, f, l.pageSize, behind);
    HeaderReadBack(l, before[32..] + FrameBytes(f, l.pageSize) + behind);
    assert before == HeaderBytes(l) + before[32..];
    assert wal == HeaderBytes(l) + (before[32..] + FrameBytes(f, l.pageSize) + behind);
  }

  lemma FirstFrame(l: Log, fs: seq<LogFrame>)
    requires FramesFit(fs, l.pageSize) && fs != []
    ensures FrameFits(fs[0], l.pageSize) && FramesFit(fs[1..], l.pageSize)
    ensures FramesBytes(fs, l.pageSize) == FrameBytes(fs[0], l.pageSize) + FramesBytes(fs[1..], l.pageSize)
    ensures OwnFrames(l, fs) ==
            (if fs[0].salt1 == l.salt1 && fs[0].salt2 == l.salt2 && fs[0].page > 0 then [Frame(fs[0].page, fs[0].data)] else []) +
            OwnFrames(l, fs[1..])
  {
    hide FrameFits, FrameBytes;
    assert [] + OwnFrames(l, fs[1..]) == OwnFrames(l, fs[1..]);
  }

  lemma NoFrame(l: Log, before: seq<byte>, rest: seq<byte>)
    requires LogFits(l) && |rest| < 24 + l.pageSize && HeaderBytes(l) <= before
    ensures FramesFrom(before + FramesBytes([], l.pageSize) + rest, l.pageSize, |before|) == OwnFrames(l, [])
  {
  }

  lemma {:induction false} FramesReadBack(l: Log, before: seq<byte>, fs: seq<LogFrame>, rest: seq<byte>)
    requires LogFits(l) && FramesFit(fs, l.pageSize) && |rest| < 24 + l.pageSize && HeaderBytes(l) <= before
    ensures FramesFrom(before + FramesBytes(fs, l.pageSize) + rest, l.pageSize, |before|) == OwnFrames(l, fs)
    decreases |fs|
  {
    hide FrameBytes, HeaderBytes, FramesFit, FrameFits, FramesFrom, LogFits, FramesBytes, OwnFrames;
    if fs == [] {
      NoFrame(l, before, rest);
    } else {
      FirstFrame(l, fs);
      var first, more := FrameBytes(fs[0], l.pageSize), FramesBytes(fs[1..], l.pageSize);
      Regrouped(before, first, more, rest);
      FrameStep(l, before, fs[0], more + rest);
      FramesReadBack(l, before + first, fs[1..], rest);
    }
  }

  lemma Regrouped(a: seq<byte>, b: seq<byte>, c: seq<byte>, d: seq<byte>)
    ensures a + (b + c) + d == a + b + (c + d) == a + b + c + d
  {
  }

  /** A log is applied as the frames that carry its salts, in order, whatever is left behind them. */
  lemma LogReadBack(l: Log, rest: seq<byte>, databasePageSize: nat)
    requires LogFits(l) && |rest| < 24 + l.pageSize
    ensures WalPageSize(LogBytes(l, rest), databasePageSize) == l.pageSize
    ensures IsWal(LogBytes(l, rest)) && Frames(LogBytes(l, rest), databasePageSize) == OwnFrames(l, l.frames)
  {
    hide Be32, FramesFrom, HeaderBytes, FramesBytes, OwnFrames;
    var behind := FramesBytes(l.frames, l.pageSize) + rest;
    assert LogBytes(l, rest) == HeaderBytes(l) + behind;
    HeaderReadBack(l, behind);
    FramesReadBack(l, HeaderBytes(l), l.frames, rest);
  }
}
