/** Registry transaction logs: the dirty-page writes a log holds, and replaying them over a hive. */
module RegfLog {
  import opened Bits
  import opened ByteWrites

  // ---- The log format -----------------------------------------------------------------------

  const REGF: seq<byte> := [0x72, 0x65, 0x67, 0x66]
  const HVLE: seq<byte> := [0x48, 0x76, 0x4C, 0x45]
  const FIXED: nat := 40
  const MAX_PAGE: nat := 0x40_0000

  /** The dirty pages of one entry from descriptor i on; a bad descriptor ends the entry. */
  function PageWrites(log: seq<byte>, off: nat, entrySize: nat, count: nat, i: nat, dataOff: nat): seq<Write>
    requires off + entrySize <= |log| && off + FIXED + count * 8 <= off + entrySize
    decreases count - i
  {
    if i >= count then []
    else
      var dOff := off + FIXED + i * 8;
      var hiveOff, sz := Word32(log, dOff) + 0x1000, Word32(log, dOff + 4);
      if sz == 0 || sz > MAX_PAGE || dataOff + sz > off + entrySize then []
      else [Write(hiveOff, log[dataOff..dataOff + sz])] + PageWrites(log, off, entrySize, count, i + 1, dataOff + sz)
  }

  /** The dirty pages of all entries from an offset on. */
  function EntryWrites(log: seq<byte>, off: nat): seq<Write>
    decreases |log| - off
  {
    if off + FIXED > |log| || log[off..off + 4] != HVLE then []
    else
      var entrySize := Word32(log, off + 4);
      if entrySize < FIXED || off + entrySize > |log| then []
      else
        var count := Word32(log, off + 20);
        var descEnd := off + FIXED + count * 8;
        if descEnd > off + entrySize then EntryWrites(log, off + entrySize)
        else PageWrites(log, off, entrySize, count, 0, descEnd) + EntryWrites(log, off + entrySize)
  }

  /** All the writes of a log; none when it is not one. */
  function LogWrites(log: seq<byte>): seq<Write> {
    if |log| < 512 || log[..4] != REGF then [] else EntryWrites(log, 512)
  }

  // ---- Replaying in place -------------------------------------------------------------------

  /** Write one page, into a longer copy when the hive is too short. */
  method WritePage(hive: array<byte>, hiveOff: nat, page: seq<byte>) returns (res: array<byte>)
    modifies hive
    ensures res == hive || fresh(res)
    ensures res[..] == Written(old(hive[..]), Write(hiveOff, page))
  {
    res := hive;
    var end := hiveOff + |page|;
    if end > hive.Length {
      res := new byte[end](i requires 0 <= i reads hive => if i < hive.Length then hive[i] else 0);
      assert res[..] == hive[..] + Zeros(end - hive.Length);
    }
    ghost var long := res[..];
    forall k | 0 <= k < |page| {
      res[hiveOff + k] := page[k];
    }
    assert res[..] == long[..hiveOff] + page + long[end..];
  }

  /** Replay one entry's pages from descriptor 0. */
  method ReplayEntry(hive: array<byte>, log: seq<byte>, off: nat, entrySize: nat, count: nat) returns (res: array<byte>)
    requires off + entrySize <= |log| && off + FIXED + count * 8 <= off + entrySize
    modifies hive
    ensures res == hive || fresh(res)
    ensures res[..] == Replayed(old(hive[..]), PageWrites(log, off, entrySize, count, 0, off + FIXED + count * 8))
  {
    hide Written, Word32;
    res := hive;
    var dataOff: nat := off + FIXED + count * 8;
    var i := 0;
    while i < count
      invariant 0 <= i <= count && dataOff <= off + entrySize
      invariant res == hive || fresh(res)
      invariant Replayed(res[..], PageWrites(log, off, entrySize, count, i, dataOff)) ==
                Replayed(old(hive[..]), PageWrites(log, off, entrySize, count, 0, off + FIXED + count * 8))
    {
      var dOff := off + FIXED + i * 8;
      var hiveOff := Word32(log, dOff) + 0x1000;
      var sz := Word32(log, dOff + 4);
      if sz <= 0 || sz > MAX_PAGE || dataOff + sz > off + entrySize || dataOff + sz > |log| {
        break;
      }
      FirstWrite(res[..], log, off, entrySize, count, i, dataOff);
      res := WritePage(res, hiveOff, log[dataOff..dataOff + sz]);
      dataOff := dataOff + sz;
      i := i + 1;
    }
  }

  lemma FirstWrite(hive: seq<byte>, log: seq<byte>, off: nat, entrySize: nat, count: nat, i: nat, dataOff: nat)
    requires off + entrySize <= |log| && off + FIXED + count * 8 <= off + entrySize && i < count
    requires var sz := Word32(log, off + FIXED + i * 8 + 4);
             0 < sz <= MAX_PAGE && dataOff + sz <= off + entrySize
    ensures var hiveOff := Word32(log, off + FIXED + i * 8) + 0x1000;
            var sz := Word32(log, off + FIXED + i * 8 + 4);
            Replayed(hive, PageWrites(log, off, entrySize, count, i, dataOff)) ==
            Replayed(Written(hive, Write(hiveOff, log[dataOff..dataOff + sz])),
                     PageWrites(log, off, entrySize, count, i + 1, dataOff + sz))
  {
    hide Written, Word32;
  }

  method ApplyLog(hive: array<byte>, log: seq<byte>) returns (res: array<byte>)
    modifies hive
    ensures res == hive || fresh(res)
    ensures res[..] == Replayed(old(hive[..]), LogWrites(log))
  {
    hide PageWrites, Word32, Written;
    res := hive;
    if |log| < 512 || log[..4] != REGF {
      return;
    }
    var off := 512;
    while off + FIXED <= |log|
      invariant res == hive || fresh(res)
      invariant Replayed(res[..], EntryWrites(log, off)) == Replayed(old(hive[..]), EntryWrites(log, 512))
      decreases |log| - off
    {
      if log[off..off + 4] != HVLE {
        break;
      }
      var entrySize := Word32(log, off + 4);
      if entrySize < FIXED || off + entrySize > |log| {
        break;
      }
      var count := Word32(log, off + 20);
      if off + FIXED + count * 8 > off + entrySize {
        off := off + entrySize;
        continue;
      }
      ReplayedConcat(res[..], PageWrites(log, off, entrySize, count, 0, off + FIXED + count * 8),
                     EntryWrites(log, off + entrySize));
      res := ReplayEntry(res, log, off, entrySize, count);
      off := off + entrySize;
    }
  }

  /** Replay both logs over a copy; the caller's hive is not touched. */
  method MergeWithLogs(hive: array<byte>, log1: seq<byte>, log2: seq<byte>) returns (res: array<byte>)
    ensures fresh(res)
    ensures res[..] == Replayed(hive[..], LogWrites(log1) + LogWrites(log2))
  {
    res := new byte[hive.Length](i requires 0 <= i < hive.Length reads hive => hive[i]);
    assert res[..] == hive[..];
    ReplayedConcat(hive[..], LogWrites(log1), LogWrites(log2));
    res := ApplyLog(res, log1);
    res := ApplyLog(res, log2);
  }

  /** What the second log covers comes from it, what only the first covers from the first, and
      merging a merged hive again changes nothing. */
  lemma SecondLogOverrides(hive: seq<byte>, log1: seq<byte>, log2: seq<byte>, i: nat)
    requires i < |Replayed(hive, LogWrites(log1) + LogWrites(log2))|
    ensures var merged := Replayed(hive, LogWrites(log1) + LogWrites(log2));
            && merged[i] == (if LastByte(LogWrites(log2), i).Some? then LastByte(LogWrites(log2), i).value
                             else if LastByte(LogWrites(log1), i).Some? then LastByte(LogWrites(log1), i).value
                             else if i < |hive| then hive[i] else 0)
            && Replayed(merged, LogWrites(log1) + LogWrites(log2)) == merged
  {
    hide LogWrites, Replayed, LastByte;
    ReplayedAt(hive, LogWrites(log1) + LogWrites(log2));
    LastByteOfConcat(LogWrites(log1), LogWrites(log2), i);
    ReplayTwice(hive, LogWrites(log1) + LogWrites(log2));
  }
}
