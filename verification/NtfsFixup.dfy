/** The update sequence array of an NTFS record: applying it undoes the protection of every sector's last
    two bytes, and leaves a sector alone whose end does not carry the sequence number. */
module NtfsFixup {
  import opened Bits

  predicate Equal2(rec: seq<byte>, a: nat, b: nat)
    requires a + 2 <= |rec| && b + 2 <= |rec|
  {
    rec[a] == rec[b] && rec[a + 1] == rec[b + 1]
  }

  /** The two bytes at `from` over those at `to`. */
  function Copied2(rec: seq<byte>, to: nat, from: nat): (r: seq<byte>)
    requires to + 2 <= |rec| && from + 2 <= |rec|
    ensures |r| == |rec|
  {
    rec[to := rec[from]][to + 1 := rec[from + 1]]
  }

  /** The offset of the last two bytes of the i-th sector, counted from 1. */
  function SectorEnd(i: nat, size: nat): nat
    requires i >= 1 && size >= 2
  {
    if i == 1 then size - 2 else SectorEnd(i - 1, size) + size
  }

  lemma {:induction false} SectorEndIs(i: nat, size: nat)
    requires i >= 1 && size >= 2
    ensures SectorEnd(i, size) == i * size - 2
  {
    if i > 1 {
      SectorEndIs(i - 1, size);
    }
  }

  lemma {:induction false} EndsGrow(i: nat, j: nat, size: nat)
    requires 1 <= i <= j && size >= 2
    ensures SectorEnd(i, size) <= SectorEnd(j, size)
    ensures i < j ==> SectorEnd(i, size) + size <= SectorEnd(j, size)
    decreases j
  {
    if i < j {
      EndsGrow(i, j - 1, size);
    }
  }

  /** The record after sectors i to count - 1, as far as they lie in it. */
  function FixedFrom(rec: seq<byte>, usa: nat, count: nat, size: nat, i: nat): (r: seq<byte>)
    requires i >= 1 && size >= 2 && count >= 1 && usa + 2 * count <= |rec|
    ensures |r| == |rec|
    decreases count - i
  {
    if i >= count || SectorEnd(i, size) + 2 > |rec| then rec
    else
      var end := SectorEnd(i, size);
      FixedFrom(if Equal2(rec, end, usa) then Copied2(rec, end, usa + 2 * i) else rec, usa, count, size, i + 1)
  }

  function Usa(rec: seq<byte>): nat
    requires |rec| >= 8
  {
    Word16(rec, 4)
  }

  function UsaCount(rec: seq<byte>): nat
    requires |rec| >= 8
  {
    Word16(rec, 6)
  }

  predicate UsaOk(rec: seq<byte>) {
    |rec| >= 8 && UsaCount(rec) > 0 && Usa(rec) + 2 * UsaCount(rec) <= |rec|
  }

  /** One sector of a fixup. */
  lemma FixStep(rec: seq<byte>, usa: nat, count: nat, size: nat, i: nat)
    requires i >= 1 && size >= 2 && count >= 1 && usa + 2 * count <= |rec|
    ensures i >= count || SectorEnd(i, size) + 2 > |rec| ==> FixedFrom(rec, usa, count, size, i) == rec
    ensures i < count && SectorEnd(i, size) + 2 <= |rec| ==>
              var end := SectorEnd(i, size);
              var next := if Equal2(rec, end, usa) then Copied2(rec, end, usa + 2 * i) else rec;
              FixedFrom(rec, usa, count, size, i) == FixedFrom(next, usa, count, size, i + 1)
  {
    hide SectorEnd;
  }

  /** Crashed: a sector end before the record, which stops the program. */
  datatype Status = Applied | Refused | Crashed

  /** Sectors of fewer than two bytes have their first end before the record. */
  function FixupStatus(rec: seq<byte>, sectorSize: nat): Status {
    if !UsaOk(rec) then Refused else if sectorSize < 2 && UsaCount(rec) > 1 then Crashed else Applied
  }

  /** The record a fixup leaves behind. */
  function FixedUp(rec: seq<byte>, sectorSize: nat): seq<byte> {
    if UsaOk(rec) && sectorSize >= 2 then FixedFrom(rec, Usa(rec), UsaCount(rec), sectorSize, 1) else rec
  }

  /** Works in the record: the sequence number and its replacements are read where they stand. */
  method ApplyFixup(rec: array<byte>, sectorSize: nat) returns (status: Status)
    modifies rec
    ensures status == FixupStatus(old(rec[..]), sectorSize) && rec[..] == FixedUp(old(rec[..]), sectorSize)
  {
    hide FixedFrom, SectorEnd;
    if rec.Length < 8 {
      return Refused;
    }
    var usaOff, usaCount := Word16(rec[..], 4), Word16(rec[..], 6);
    if usaCount == 0 || usaOff + usaCount * 2 > rec.Length {
      return Refused;
    }
    ghost var fixed := FixedUp(rec[..], sectorSize);
    var i := 1;
    while i < usaCount
      invariant 1 <= i <= usaCount
      invariant sectorSize < 2 ==> i == 1 && rec[..] == fixed
      invariant sectorSize >= 2 ==> FixedFrom(rec[..], usaOff, usaCount, sectorSize, i) == fixed
    {
      if sectorSize < 2 {
        return Crashed;
      }
      SectorEndIs(i, sectorSize);
      FixStep(rec[..], usaOff, usaCount, sectorSize, i);
      var sectorEnd := i * sectorSize - 2;
      if sectorEnd + 2 > rec.Length {
        return Applied;
      }
      ghost var before := rec[..];
      if rec[sectorEnd] == rec[usaOff] && rec[sectorEnd + 1] == rec[usaOff + 1] {
        rec[sectorEnd], rec[sectorEnd + 1] := rec[usaOff + i * 2], rec[usaOff + i * 2 + 1];
        assert rec[..] == Copied2(before, sectorEnd, usaOff + 2 * i);
      }
      i := i + 1;
    }
    FixStep(rec[..], usaOff, usaCount, if sectorSize < 2 then 2 else sectorSize, i);
    status := Applied;
  }

  // ---- What fixing does, byte by byte ----------------------------------------------------------

  /** The array lies apart from every sector end it protects. */
  predicate Apart(usa: nat, count: nat, size: nat, n: nat)
    requires size >= 2
  {
    forall i :: 1 <= i < count && SectorEnd(i, size) + 2 <= n ==>
      SectorEnd(i, size) + 2 <= usa || usa + 2 * count <= SectorEnd(i, size)
  }

  /** Byte k belongs to the end of the i-th sector. */
  predicate InEnd(k: nat, i: nat, size: nat)
    requires i >= 1 && size >= 2
  {
    SectorEnd(i, size) <= k < SectorEnd(i, size) + 2
  }

  /** ... and the sector lies wholly in a record of n bytes. */
  predicate InWholeEnd(k: nat, i: nat, size: nat, n: nat)
    requires i >= 1 && size >= 2
  {
    InEnd(k, i, size) && SectorEnd(i, size) + 2 <= n
  }

  /** Byte k after the correction of sector i alone. */
  function FixedByte(rec: seq<byte>, usa: nat, size: nat, i: nat, k: nat): byte
    requires i >= 1 && size >= 2 && usa + 2 * i + 2 <= |rec| && SectorEnd(i, size) + 2 <= |rec| && k < |rec|
  {
    var end := SectorEnd(i, size);
    if InEnd(k, i, size) && Equal2(rec, end, usa) then rec[usa + 2 * i + (k - end)] else rec[k]
  }

  /** A byte in the end of a sector takes its replacement exactly when the sector carries the sequence number. */
  lemma {:induction false} EndsAreFixed(rec: seq<byte>, usa: nat, count: nat, size: nat, from: nat, i: nat, k: nat)
    requires size >= 2 && 1 <= from && 1 <= i < count && usa + 2 * count <= |rec| && Apart(usa, count, size, |rec|)
    requires InWholeEnd(k, i, size, |rec|)
    ensures FixedFrom(rec, usa, count, size, from)[k] == if from <= i then FixedByte(rec, usa, size, i, k) else rec[k]
    decreases count - from
  {
    hide SectorEnd;
    if from < count && SectorEnd(from, size) + 2 <= |rec| {
      var end := SectorEnd(from, size);
      var next := if Equal2(rec, end, usa) then Copied2(rec, end, usa + 2 * from) else rec;
      EndsAreFixed(next, usa, count, size, from + 1, i, k);
      if from != i {
        EndsApart(from, i, size);
      }
    } else if from <= i {
      EndsGrow(from, i, size);
    }
  }

  lemma EndsApart(i: nat, j: nat, size: nat)
    requires i >= 1 && j >= 1 && i != j && size >= 2
    ensures SectorEnd(i, size) + 2 <= SectorEnd(j, size) || SectorEnd(j, size) + 2 <= SectorEnd(i, size)
  {
    if i < j {
      EndsGrow(i, j, size);
    } else {
      EndsGrow(j, i, size);
    }
  }

  /** Every other byte stays as it is. */
  lemma {:induction false} OthersStay(rec: seq<byte>, usa: nat, count: nat, size: nat, from: nat, k: nat)
    requires size >= 2 && 1 <= from && count >= 1 && usa + 2 * count <= |rec| && k < |rec|
    requires forall i :: from <= i < count ==> !InWholeEnd(k, i, size, |rec|)
    ensures FixedFrom(rec, usa, count, size, from)[k] == rec[k]
    decreases count - from
  {
    hide SectorEnd;
    if from < count && SectorEnd(from, size) + 2 <= |rec| {
      assert !InWholeEnd(k, from, size, |rec|);
      var end := SectorEnd(from, size);
      OthersStay(if Equal2(rec, end, usa) then Copied2(rec, end, usa + 2 * from) else rec, usa, count, size, from + 1, k);
    }
  }

  // ---- Protecting and undoing it ---------------------------------------------------------------

  /** The record with sectors i to count - 1 protected, as a driver does before writing it; the sequence
      number stands at the front of the array. */
  function ProtectedFrom(rec: seq<byte>, usa: nat, count: nat, size: nat, i: nat): (r: seq<byte>)
    requires i >= 1 && size >= 2 && count >= 1 && usa + 2 * count <= |rec|
    ensures |r| == |rec|
    decreases count - i
  {
    if i >= count || SectorEnd(i, size) + 2 > |rec| then rec
    else
      var end := SectorEnd(i, size);
      ProtectedFrom(Copied2(Copied2(rec, usa + 2 * i, end), end, usa), usa, count, size, i + 1)
  }

  /** What the protection of later sectors does not touch. */
  lemma {:induction false} ProtectionSpares(rec: seq<byte>, usa: nat, count: nat, size: nat, from: nat, k: nat)
    requires size >= 2 && 1 <= from && count >= 1 && usa + 2 * count <= |rec| && k < |rec|
    requires !(usa + 2 * from <= k < usa + 2 * count)
    requires forall i :: from <= i < count ==> !InWholeEnd(k, i, size, |rec|)
    ensures ProtectedFrom(rec, usa, count, size, from)[k] == rec[k]
    decreases count - from
  {
    hide SectorEnd;
    if from < count && SectorEnd(from, size) + 2 <= |rec| {
      assert !InWholeEnd(k, from, size, |rec|);
      var end := SectorEnd(from, size);
      ProtectionSpares(Copied2(Copied2(rec, usa + 2 * from, end), end, usa), usa, count, size, from + 1, k);
    }
  }

  /** A byte of the array is at no sector end, one of a sector end at no other. */
  lemma NotInEnds(usa: nat, count: nat, size: nat, n: nat, k: nat, from: nat)
    requires size >= 2 && 1 <= from && usa + 2 * count <= n && Apart(usa, count, size, n) && k < n
    requires usa <= k < usa + 2 * count || exists i :: 1 <= i < from && InWholeEnd(k, i, size, n)
    ensures forall i :: from <= i < count ==> !InWholeEnd(k, i, size, n)
  {
    hide SectorEnd;
    forall i | from <= i < count ensures !InWholeEnd(k, i, size, n) {
      if !(usa <= k < usa + 2 * count) {
        var j :| 1 <= j < from && InWholeEnd(k, j, size, n);
        EndsApart(i, j, size);
      }
    }
  }

  /** One sector's protection, on its own end and on everything else but its place in the array. */
  lemma OneProtected(rec: seq<byte>, usa: nat, count: nat, size: nat, i: nat)
    requires size >= 2 && 1 <= i < count && usa + 2 * count <= |rec| && Apart(usa, count, size, |rec|)
    requires SectorEnd(i, size) + 2 <= |rec|
    ensures var end := SectorEnd(i, size);
            var next := Copied2(Copied2(rec, usa + 2 * i, end), end, usa);
            && next[end] == rec[usa] && next[end + 1] == rec[usa + 1]
            && next[usa + 2 * i] == rec[end] && next[usa + 2 * i + 1] == rec[end + 1]
            && (forall k :: 0 <= k < |rec| && !InEnd(k, i, size) && !(usa + 2 * i <= k < usa + 2 * i + 2) ==> next[k] == rec[k])
  {
    hide SectorEnd;
  }

  /** Byte k of the i-th sector's end moves into the array, and the sequence number takes its place. */
  lemma {:induction false} ProtectionMoves(rec: seq<byte>, usa: nat, count: nat, size: nat, from: nat, i: nat, k: nat)
    requires size >= 2 && 1 <= from <= i < count && usa + 2 * count <= |rec| && Apart(usa, count, size, |rec|)
    requires InWholeEnd(k, i, size, |rec|)
    ensures var prot, at := ProtectedFrom(rec, usa, count, size, from), k - SectorEnd(i, size);
            prot[k] == rec[usa + at] && prot[usa + 2 * i + at] == rec[k]
    decreases count - from
  {
    hide SectorEnd, Copied2;
    EndsGrow(from, i, size);
    OneProtected(rec, usa, count, size, from);
    var end, at := SectorEnd(from, size), k - SectorEnd(i, size);
    var next := Copied2(Copied2(rec, usa + 2 * from, end), end, usa);
    if from == i {
      assert at == 0 || at == 1;
      NotInEnds(usa, count, size, |rec|, k, from + 1);
      NotInEnds(usa, count, size, |rec|, usa + 2 * i + at, from + 1);
      ProtectionSpares(next, usa, count, size, from + 1, k);
      ProtectionSpares(next, usa, count, size, from + 1, usa + 2 * i + at);
    } else {
      EndsApart(from, i, size);
      ProtectionMoves(next, usa, count, size, from + 1, i, k);
    }
  }

  /** A protected sector carries the sequence number. */
  lemma EndCarriesNumber(rec: seq<byte>, usa: nat, count: nat, size: nat, i: nat)
    requires size >= 2 && 1 <= i < count && usa + 2 * count <= |rec| && Apart(usa, count, size, |rec|)
    requires SectorEnd(i, size) + 2 <= |rec|
    ensures Equal2(ProtectedFrom(rec, usa, count, size, 1), SectorEnd(i, size), usa)
  {
    hide SectorEnd, ProtectedFrom, Apart;
    ProtectionMoves(rec, usa, count, size, 1, i, SectorEnd(i, size));
    ProtectionMoves(rec, usa, count, size, 1, i, SectorEnd(i, size) + 1);
    SequenceNumberStays(rec, usa, count, size);
  }

  lemma EndComesBack(prot: seq<byte>, usa: nat, count: nat, size: nat, i: nat, k: nat, b: byte)
    requires size >= 2 && 1 <= i < count && usa + 2 * count <= |prot| && Apart(usa, count, size, |prot|)
    requires InWholeEnd(k, i, size, |prot|) && Equal2(prot, SectorEnd(i, size), usa)
    requires prot[usa + 2 * i + (k - SectorEnd(i, size))] == b
    ensures FixedFrom(prot, usa, count, size, 1)[k] == b
  {
    hide SectorEnd, FixedFrom, Apart, Equal2;
    EndsAreFixed(prot, usa, count, size, 1, i, k);
  }

  /** Fixing a protected record gives the record back, everywhere outside the array itself. */
  lemma FixupUndoesProtection(rec: seq<byte>, usa: nat, count: nat, size: nat, k: nat)
    requires size >= 2 && count >= 1 && usa + 2 * count <= |rec| && Apart(usa, count, size, |rec|)
    requires k < |rec| && !(usa <= k < usa + 2 * count)
    ensures FixedFrom(ProtectedFrom(rec, usa, count, size, 1), usa, count, size, 1)[k] == rec[k]
  {
    hide SectorEnd, FixedFrom, ProtectedFrom, Apart, Equal2;
    if i :| 1 <= i < count && InWholeEnd(k, i, size, |rec|) {
      var prot := ProtectedFrom(rec, usa, count, size, 1);
      ProtectionMoves(rec, usa, count, size, 1, i, k);
      EndCarriesNumber(rec, usa, count, size, i);
      EndComesBack(prot, usa, count, size, i, k, rec[k]);
    } else {
      ProtectionSpares(rec, usa, count, size, 1, k);
      OthersStay(ProtectedFrom(rec, usa, count, size, 1), usa, count, size, 1, k);
    }
  }

  lemma SequenceNumberStays(rec: seq<byte>, usa: nat, count: nat, size: nat)
    requires size >= 2 && count >= 1 && usa + 2 * count <= |rec| && Apart(usa, count, size, |rec|)
    ensures var prot := ProtectedFrom(rec, usa, count, size, 1); prot[usa] == rec[usa] && prot[usa + 1] == rec[usa + 1]
  {
    hide SectorEnd, ProtectedFrom;
    NotInEnds(usa, count, size, |rec|, usa, 1);
    NotInEnds(usa, count, size, |rec|, usa + 1, 1);
    ProtectionSpares(rec, usa, count, size, 1, usa);
    ProtectionSpares(rec, usa, count, size, 1, usa + 1);
  }

  /** A record whose header gives the place of the array at 4 and its length at 6, low bytes first, and whose
      sectors are protected, is fixed up: everything outside the array is as it was before it was protected. */
  lemma ProtectedRecordReadBack(rec: seq<byte>, usa: nat, count: nat, size: nat)
    requires size >= 10 && count >= 1 && 8 <= usa && usa + 2 * count <= |rec| && Apart(usa, count, size, |rec|)
    requires rec[4] == usa % 256 && rec[5] == usa / 256 && rec[6] == count % 256 && rec[7] == count / 256
    ensures var prot := ProtectedFrom(rec, usa, count, size, 1);
            && FixupStatus(prot, size) == Applied
            && forall k :: 0 <= k < |rec| && !(usa <= k < usa + 2 * count) ==> FixedUp(prot, size)[k] == rec[k]
  {
    hide SectorEnd, FixedFrom, ProtectedFrom, Apart, InWholeEnd;
    var prot := ProtectedFrom(rec, usa, count, size, 1);
    forall k | 4 <= k < 8 ensures prot[k] == rec[k] {
      forall i | 1 <= i < count ensures !InWholeEnd(k, i, size, |rec|) {
        HeaderIsApart(k, i, size, |rec|);
      }
      ProtectionSpares(rec, usa, count, size, 1, k);
    }
    assert Usa(prot) == usa && UsaCount(prot) == count;
    forall k | 0 <= k < |rec| && !(usa <= k < usa + 2 * count) ensures FixedUp(prot, size)[k] == rec[k] {
      FixupUndoesProtection(rec, usa, count, size, k);
    }
  }

  lemma HeaderIsApart(k: nat, i: nat, size: nat, n: nat)
    requires k < 8 && i >= 1 && size >= 10
    ensures !InWholeEnd(k, i, size, n)
  {
    EndsGrow(1, i, size);
  }
}
