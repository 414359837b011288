/** The write-ahead-log overlay of a SQLite file: pages served from matching frames first. */
module SqliteWal {
  import opened Bits
  import opened ByteWrites

  type Pages = map<nat, seq<byte>>

  function Be32(b: seq<byte>, pos: nat): nat
    requires pos + 3 < |b|
  {
    0x100_0000 * b[pos] as nat + 0x1_0000 * b[pos + 1] as nat + 0x100 * b[pos + 2] as nat + b[pos + 3] as nat
  }

  // ---- Frames ----------------------------------------------------------------------------------

  datatype Frame = Frame(page: nat, data: seq<byte>)

  /** The header is long enough and carries one of the two magic numbers. */
  predicate IsWal(wal: seq<byte>) {
    |wal| >= 32 && (Be32(wal, 0) == 0x377f0682 || Be32(wal, 0) == 0x377f0683)
  }

  /** The page size the header states, or the database's when that is unusable. */
  function WalPageSize(wal: seq<byte>, pageSize: nat): nat
    requires |wal| >= 32
  {
    if Be32(wal, 8) < 512 then pageSize else Be32(wal, 8)
  }

  /** Both salts of the frame are the header's, and it names a page. */
  predicate FrameMatches(wal: seq<byte>, pos: nat)
    requires |wal| >= 32 && pos + 24 <= |wal|
  {
    && Be32(wal, pos + 8) == Be32(wal, 16)
    && Be32(wal, pos + 12) == Be32(wal, 20)
    && Be32(wal, pos) > 0
  }

  /** The matching frames from a position on, in file order. */
  function FramesFrom(wal: seq<byte>, size: nat, pos: nat): (fs: seq<Frame>)
    requires |wal| >= 32
    ensures forall f :: f in fs ==> f.page > 0 && |f.data| == size
    decreases |wal| - pos
  {
    if pos + 24 + size > |wal| then []
    else
      var rest := FramesFrom(wal, size, pos + 24 + size);
      if FrameMatches(wal, pos) then [Frame(Be32(wal, pos), wal[pos + 24..pos + 24 + size])] + rest else rest
  }

  function Frames(wal: seq<byte>, pageSize: nat): seq<Frame> {
    if IsWal(wal) then FramesFrom(wal, WalPageSize(wal, pageSize), 32) else []
  }

  /** The overlay after the frames, a later frame of a page replacing an earlier one. */
  function Overlaid(m: Pages, fs: seq<Frame>): Pages
    decreases |fs|
  {
    if fs == [] then m else Overlaid(m[fs[0].page := fs[0].data], fs[1..])
  }

  /** A page through the overlay; None past the end of the file. */
  function PageOf(data: seq<byte>, pageSize: nat, m: Pages, n: int): Option<seq<byte>> {
    if n < 1 then None
    else if n in m then Some(m[n])
    else if Times(n, pageSize) > |data| then None
    else Some(PageBytes(data, pageSize, n))
  }

  function PageBytes(data: seq<byte>, pageSize: nat, n: nat): (b: seq<byte>)
    requires n >= 1 && Times(n, pageSize) <= |data|
    ensures |b| == pageSize
  {
    PageStart(n, pageSize);
    data[Times(n - 1, pageSize)..Times(n, pageSize)]
  }

  lemma PageStart(n: nat, pageSize: nat)
    requires n >= 1
    ensures Times(n - 1, pageSize) + pageSize == Times(n, pageSize)
  {
  }

  class SqliteDb {
    const data: seq<byte>
    const pageSize: nat
    var wal: Pages

    constructor (data: seq<byte>, pageSize: nat)
      ensures this.data == data && this.pageSize == pageSize && wal == map[]
    {
      this.data, this.pageSize := data, pageSize;
      wal := map[];
    }

    method Page(n: int) returns (pg: Option<seq<byte>>)
      ensures pg == PageOf(data, pageSize, wal, n)
    {
      if n < 1 {
        return None;
      }
      if n in wal {
        return Some(wal[n]);
      }
      PageStart(n, pageSize);
      if Times(n, pageSize) > |data| {
        return None;
      }
      pg := Some(data[Times(n - 1, pageSize)..Times(n, pageSize)]);
    }

    method ApplyWal(walData: seq<byte>)
      modifies this`wal
      ensures wal == Overlaid(old(wal), Frames(walData, pageSize))
    {
      hide Be32;
      if !IsWal(walData) {
        return;
      }
      var walPageSize := WalPageSize(walData, pageSize);
      var pos := 32;
      while pos + 24 + walPageSize <= |walData|
        invariant Overlaid(wal, FramesFrom(walData, walPageSize, pos)) ==
                  Overlaid(old(wal), FramesFrom(walData, walPageSize, 32))
        decreases |walData| - pos
      {
        if FrameMatches(walData, pos) {
          wal := wal[Be32(walData, pos) := walData[pos + 24..pos + 24 + walPageSize]];
        }
        pos := pos + 24 + walPageSize;
      }
    }
  }

  // ---- The file the frames would make -----------------------------------------------------------

  /** Each frame as a write of its page. */
  function FrameWrites(fs: seq<Frame>, pageSize: nat): (ws: seq<Write>)
    ensures |ws| == |fs|
  {
    if fs == [] then []
    else [Write(if fs[0].page == 0 then 0 else Times(fs[0].page - 1, pageSize), fs[0].data)] + FrameWrites(fs[1..], pageSize)
  }

  /** The frames are whole pages of the database's size. */
  predicate PageFrames(fs: seq<Frame>, pageSize: nat) {
    forall f :: f in fs ==> f.page > 0 && |f.data| == pageSize
  }

  /** The last frame of a page. */
  function LastFrame(fs: seq<Frame>, n: nat): Option<seq<byte>> {
    if fs == [] then None
    else if fs[|fs| - 1].page == n then Some(fs[|fs| - 1].data)
    else LastFrame(fs[..|fs| - 1], n)
  }

  lemma {:induction false} OverlaidConcat(m: Pages, a: seq<Frame>, b: seq<Frame>)
    ensures Overlaid(m, a + b) == Overlaid(Overlaid(m, a), b)
    decreases |a|
  {
    if a == [] {
      assert a + b == b;
    } else {
      assert (a + b)[1..] == a[1..] + b;
      OverlaidConcat(m[a[0].page := a[0].data], a[1..], b);
    }
  }

  /** The last frame of a page wins; pages without a frame keep what the overlay had. */
  lemma {:induction false} LastFrameWins(m: Pages, fs: seq<Frame>, n: nat)
    ensures n in Overlaid(m, fs) <==> LastFrame(fs, n).Some? || n in m
    ensures n in Overlaid(m, fs) ==>
      Overlaid(m, fs)[n] == if LastFrame(fs, n).Some? then LastFrame(fs, n).value else m[n]
  {
    if fs != [] {
      var front, last := fs[..|fs| - 1], fs[|fs| - 1];
      LastFrameWins(m, front, n);
      assert fs == front + [last];
      OverlaidConcat(m, front, [last]);
      assert Overlaid(Overlaid(m, front), [last]) == Overlaid(m, front)[last.page := last.data] by {
        assert [last][1..] == [];
      }
    }
  }

  lemma {:induction false} FrameWritesLast(fs: seq<Frame>, pageSize: nat)
    requires fs != [] && PageFrames(fs, pageSize)
    ensures var ws, last := FrameWrites(fs, pageSize), fs[|fs| - 1];
            && ws[|fs| - 1] == Write(Times(last.page - 1, pageSize), last.data)
            && ws[..|fs| - 1] == FrameWrites(fs[..|fs| - 1], pageSize)
    decreases |fs|
  {
    if |fs| > 1 {
      FrameWritesLast(fs[1..], pageSize);
      assert fs[..|fs| - 1][1..] == fs[1..][..|fs| - 2];
    }
  }

  /** Aligned blocks of one size cover a position exactly when they are its block. */
  lemma SameBlock(n: nat, m: nat, pageSize: nat, k: nat)
    requires n >= 1 && m >= 1 && k < pageSize
    ensures var i := Times(n - 1, pageSize) + k;
            Times(m - 1, pageSize) <= i < Times(m - 1, pageSize) + pageSize <==> n == m
  {
    if n < m {
      TimesGrows(n, m - 1, pageSize);
      PageStart(n, pageSize);
    } else if m < n {
      TimesGrows(m, n - 1, pageSize);
      PageStart(m, pageSize);
    }
  }

  lemma TimesGrows(x: nat, y: nat, z: nat)
    requires x <= y
    ensures Times(x, z) <= Times(y, z)
  {
    assert y * z == x * z + (y - x) * z;
  }

  /** Byte k of page n in the patched file comes from the last frame of page n. */
  lemma {:induction false} PageByte(fs: seq<Frame>, pageSize: nat, n: nat, k: nat)
    requires PageFrames(fs, pageSize) && n >= 1 && k < pageSize
    ensures LastByte(FrameWrites(fs, pageSize), Times(n - 1, pageSize) + k) ==
            if LastFrame(fs, n).Some? && k < |LastFrame(fs, n).value| then Some(LastFrame(fs, n).value[k]) else None
    decreases |fs|
  {
    hide Times;
    if fs != [] {
      var last := fs[|fs| - 1];
      FrameWritesLast(fs, pageSize);
      PageByte(fs[..|fs| - 1], pageSize, n, k);
      SameBlock(n, last.page, pageSize, k);
    }
  }

  lemma {:induction false} LastFrameSize(fs: seq<Frame>, pageSize: nat, n: nat)
    requires PageFrames(fs, pageSize)
    ensures LastFrame(fs, n).Some? ==> |LastFrame(fs, n).value| == pageSize
  {
    if fs != [] {
      LastFrameSize(fs[..|fs| - 1], pageSize, n);
    }
  }

  /** The patched file reaches to the end of every page that has a frame. */
  lemma {:induction false} ReachesFrames(size: nat, fs: seq<Frame>, pageSize: nat, n: nat)
    requires PageFrames(fs, pageSize) && n >= 1
    ensures LastFrame(fs, n).Some? ==> Times(n, pageSize) <= Reach(size, FrameWrites(fs, pageSize))
    decreases |fs|
  {
    hide Times;
    if fs != [] {
      FrameWritesLast(fs, pageSize);
      ReachesFrames(size, fs[..|fs| - 1], pageSize, n);
      PageStart(n, pageSize);
    }
  }

  /** The file into which every frame was copied in order. */
  function Patched(data: seq<byte>, pageSize: nat, fs: seq<Frame>): seq<byte> {
    Replayed(data, FrameWrites(fs, pageSize))
  }

  /** Through the overlay a page that has a frame or lies inside the file is the page of the patched
      file, beyond the old end of the file too; any other page is missing. */
  lemma OverlayIsPatchedFile(data: seq<byte>, pageSize: nat, fs: seq<Frame>, n: int)
    requires PageFrames(fs, pageSize)
    ensures var pg, file := PageOf(data, pageSize, Overlaid(map[], fs), n), Patched(data, pageSize, fs);
            && (pg.Some? ==> n >= 1 && Times(n, pageSize) <= |file| && pg == Some(PageBytes(file, pageSize, n)))
            && (pg.Some? <==> n >= 1 && (LastFrame(fs, n).Some? || Times(n, pageSize) <= |data|))
  {
    hide Times, Replayed, LastByte, FrameWrites, Overlaid, LastFrame;
    if n >= 1 {
      var ws, file := FrameWrites(fs, pageSize), Patched(data, pageSize, fs);
      LastFrameWins(map[], fs, n);
      LastFrameSize(fs, pageSize, n);
      ReplayedAt(data, ws);
      ReachesFrames(|data|, fs, pageSize, n);
      PageStart(n, pageSize);
      var pg := PageOf(data, pageSize, Overlaid(map[], fs), n);
      if pg.Some? {
        forall k | 0 <= k < pageSize
          ensures file[Times(n - 1, pageSize) + k] == pg.value[k]
        {
          PageByte(fs, pageSize, n, k);
        }
        assert pg.value == PageBytes(file, pageSize, n);
      }
    }
  }

  /** What ApplyWal leaves a fresh database with: every page served is that of the patched file. */
  lemma WalServesPatchedFile(data: seq<byte>, pageSize: nat, walData: seq<byte>, n: int)
    requires IsWal(walData) ==> WalPageSize(walData, pageSize) == pageSize
    ensures var fs := Frames(walData, pageSize);
            var pg, file := PageOf(data, pageSize, Overlaid(map[], fs), n), Patched(data, pageSize, fs);
            pg.Some? ==> n >= 1 && Times(n, pageSize) <= |file| && pg == Some(PageBytes(file, pageSize, n))
  {
    OverlayIsPatchedFile(data, pageSize, Frames(walData, pageSize), n);
  }
}
