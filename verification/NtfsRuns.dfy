/** NTFS mapping pairs: lengths and delta-encoded cluster numbers in 1 to 8 little-endian bytes. */
module NtfsRuns {
  import opened Bits

  /** lcn -1 marks a sparse run. Both fields are int64. */
  datatype DataRun = DataRun(length: int, lcn: int)

  // ---- Little-endian numbers ----------------------------------------------------------------

  function LeValue(b: seq<byte>): nat {
    if b == [] then 0 else b[0] as nat + 256 * LeValue(b[1..])
  }

  lemma {:induction false} LeValueBound(b: seq<byte>)
    ensures LeValue(b) < Pow2(8 * |b|)
  {
    if b != [] {
      LeValueBound(b[1..]);
      Pow2Times256(8 * (|b| - 1));
    }
  }

  lemma Pow2Times256(k: nat)
    ensures Pow2(k + 8) == 256 * Pow2(k)
  {
    assert Pow2(8) == 256;
    Pow2Add(8, k);
  }

  /** v in n bytes, low byte first. */
  function LeBytes(v: nat, n: nat): (b: seq<byte>)
    ensures |b| == n
  {
    if n == 0 then [] else [v % 256] + LeBytes(v / 256, n - 1)
  }

  lemma {:induction false} LeValueOfBytes(v: nat, n: nat)
    requires v < Pow2(8 * n)
    ensures LeValue(LeBytes(v, n)) == v
  {
    if n != 0 {
      Pow2Times256(8 * (n - 1));
      LeValueOfBytes(v / 256, n - 1);
      assert LeBytes(v, n)[1..] == LeBytes(v / 256, n - 1);
    }
  }

  function UnsignedOf(b: seq<byte>): int {
    Int64(LeValue(b))
  }

  /** Sign extension from 8 * |b| bits; more than eight bytes are shifted out entirely. */
  function SignedOf(b: seq<byte>): int {
    if b == [] || |b| > 8 then 0
    else if LeValue(b) >= Pow2(8 * |b| - 1) then LeValue(b) - Pow2(8 * |b|)
    else LeValue(b)
  }

  /** v = (v << 8) | b[i], from the last byte to the first, in 64 bits. */
  method ReadUnsigned(b: seq<byte>) returns (r: int)
    ensures r == UnsignedOf(b)
  {
    var v := 0;
    var i := |b|;
    assert b[|b|..] == [];
    while i > 0
      invariant 0 <= i <= |b|
      invariant v == LeValue(b[i..]) % U64
    {
      i := i - 1;
      assert b[i..][1..] == b[i + 1..];
      ShiftInByte(LeValue(b[i + 1..]), v, b[i]);
      v := Or(Shl64(v, 8), b[i]);
    }
    assert b[0..] == b;
    IntOfUint(LeValue(b));
    r := Int64(v);
  }

  lemma ShiftInByte(x: nat, v: nat, b: byte)
    requires v == x % U64
    ensures Or(Shl64(v, 8), b) == (b as nat + 256 * x) % U64
  {
    hide Or;
    var h := v % 0x100_0000_0000_0000;
    assert Pow2(8) == 256;
    ShiftedByte(v);
    OrDisjoint(h, 8, b);
    LowByteIn(x, b);
  }

  lemma ShiftedByte(v: nat)
    ensures Shl64(v, 8) == v % 0x100_0000_0000_0000 * 256
  {
    assert Pow2(8) == 256;
    DivUnique(v * 256, U64, v / 0x100_0000_0000_0000, v % 0x100_0000_0000_0000 * 256);
  }

  lemma LowByteIn(x: nat, b: byte)
    ensures (b as nat + 256 * x) % U64 == b as nat + x % U64 % 0x100_0000_0000_0000 * 256
  {
    var q, v := x / U64, x % U64;
    var a, h := v / 0x100_0000_0000_0000, v % 0x100_0000_0000_0000;
    DivUnique(b as nat + 256 * x, U64, 256 * q + a, b as nat + h * 256);
  }

  lemma IntOfUint(x: nat)
    ensures Int64(x % U64) == Int64(x)
  {
  }

  /** As ReadUnsigned, then shift left and arithmetically right by 64 - 8 * |b|. */
  method ReadSigned(b: seq<byte>) returns (r: int)
    ensures r == SignedOf(b)
  {
    if |b| == 0 {
      return 0;
    }
    var v := ReadUnsigned(b);
    if |b| > 8 {
      return 0;
    }
    var shift := 64 - |b| * 8;
    SignExtends(b);
    r := ShiftRight(Int64(v * Pow2(shift)), shift);
  }

  /** x >> n on int64: the quotient rounded down. */
  function ShiftRight(x: int, n: nat): int {
    x / Pow2(n)
  }

  lemma SignExtends(b: seq<byte>)
    requires 1 <= |b| <= 8
    ensures ShiftRight(Int64(UnsignedOf(b) * Pow2(64 - 8 * |b|)), 64 - 8 * |b|) == SignedOf(b)
  {
    hide LeValue;
    var u, k := LeValue(b), 64 - 8 * |b|;
    LeValueBound(b);
    Pow2Monotone(8 * |b|, 64);
    Pow2Of64();
    Pow2Add(8 * |b|, k);
    assert Pow2(8 * |b|) == 2 * Pow2(8 * |b| - 1);
    if k == 0 {
      assert Pow2(0) == 1;
    } else {
      Pow2Monotone(8 * |b|, 63);
      Scaled(u, Pow2(8 * |b| - 1), Pow2(k));
    }
  }

  /** Multiplying by m into the top of the word and dividing back extends the sign. */
  lemma Scaled(u: nat, half: nat, m: nat)
    requires 0 < half && 0 < m && u < 2 * half && 2 * half * m == U64
    ensures Int64(u * m) / m == if u >= half then u - 2 * half else u
  {
    MulCompare(u, half, m);
    var w := if u >= half then u - 2 * half else u;
    assert Int64(u * m) == w * m;
    DivExact(w, m);
  }

  lemma MulCompare(u: nat, half: nat, m: nat)
    requires 0 < m && u < 2 * half
    ensures half * m * 2 == 2 * half * m
    ensures u >= half ==> half * m <= u * m < 2 * half * m
    ensures u < half ==> u * m < half * m
    ensures (u - 2 * half) * m == u * m - 2 * half * m
  {
    assert u * m == half * m + (u - half) * m;
    assert 2 * half * m == u * m + (2 * half - u) * m;
    MulBound(u - half, m);
    MulBound(2 * half - u, m);
  }

  lemma DivExact(w: int, m: nat)
    requires m > 0
    ensures w * m / m == w
  {
    var d := w * m / m - w;
    assert d * m == -(w * m % m);
    MulBound(d, m);
  }

  // ---- Decoding ------------------------------------------------------------------------------

  /** The first pair: its run, the base for the next delta and the bytes it takes. */
  function FirstRun(b: seq<byte>, prevLcn: int): (res: Option<(DataRun, int, nat)>)
    ensures res.Some? ==> 0 < res.value.2 <= |b|
  {
    if b == [] || b[0] == 0 then None
    else
      var lenSize: nat, offSize: nat := b[0] % 16, b[0] / 16;
      if lenSize == 0 || 1 + lenSize + offSize > |b| then None
      else
        var length := UnsignedOf(b[1..1 + lenSize]);
        if offSize == 0 then Some((DataRun(length, -1), prevLcn, 1 + lenSize))
        else
          var lcn := Int64(prevLcn + SignedOf(b[1 + lenSize..1 + lenSize + offSize]));
          Some((DataRun(length, lcn), lcn, 1 + lenSize + offSize))
  }

  /** The runs of a mapping-pair list, the deltas counted from prevLcn. */
  function DecodedRuns(b: seq<byte>, prevLcn: int): seq<DataRun>
    decreases |b|
  {
    var first := FirstRun(b, prevLcn);
    if first == None then [] else [first.value.0] + DecodedRuns(b[first.value.2..], first.value.1)
  }

  method DecodeRun(b: seq<byte>, start: nat, prevLcn: int) returns (run: Option<DataRun>, i: nat, lcn: int)
    requires start <= |b|
    ensures FirstRun(b[start..], prevLcn) == if run == None then None else Some((run.value, lcn, i - start))
    ensures start <= i <= |b|
  {
    hide UnsignedOf, SignedOf, Int64;
    run, i, lcn := None, start, prevLcn;
    if start == |b| || b[start] == 0 {
      return;
    }
    var hdr: nat := b[start];
    var lenSize, offSize := hdr % 16, hdr / 16 % 16;
    if lenSize == 0 || start + 1 + lenSize + offSize > |b| {
      return;
    }
    assert b[start..][1..1 + lenSize] == b[start + 1..start + 1 + lenSize];
    assert b[start..][1 + lenSize..1 + lenSize + offSize] == b[start + 1 + lenSize..start + 1 + lenSize + offSize];
    i := start + 1;
    var length := ReadUnsigned(b[i..i + lenSize]);
    i := i + lenSize;
    if offSize == 0 {
      run := Some(DataRun(length, -1));
    } else {
      var delta := ReadSigned(b[i..i + offSize]);
      i := i + offSize;
      lcn := Int64(prevLcn + delta);
      run := Some(DataRun(length, lcn));
    }
  }

  method DecodeRuns(b: seq<byte>) returns (runs: seq<DataRun>)
    ensures runs == DecodedRuns(b, 0)
  {
    hide FirstRun;
    runs := [];
    var i, prevLcn := 0, 0;
    while i < |b|
      invariant i <= |b|
      invariant runs + DecodedRuns(b[i..], prevLcn) == DecodedRuns(b, 0)
    {
      var run, next, lcn := DecodeRun(b, i, prevLcn);
      if run == None {
        break;
      }
      assert b[i..][next - i..] == b[next..];
      runs := runs + [run.value];
      i, prevLcn := next, lcn;
    }
    EmptyRest(b[i..], prevLcn);
  }

  lemma EmptyRest(b: seq<byte>, prevLcn: int)
    ensures b == [] ==> DecodedRuns(b, prevLcn) == []
  {
  }

  // ---- Encoding and the round trip ---------------------------------------------------------

  /** A run and the field sizes its encoder chose; offSize 0 marks a sparse run. */
  datatype Pair = Pair(run: DataRun, lenSize: nat, offSize: nat)

  function LcnAfter(p: Pair, prevLcn: int): int {
    if p.offSize == 0 then prevLcn else p.run.lcn
  }

  /** The run is one NTFS can hold and the chosen fields are wide enough for it. */
  predicate PairFits(p: Pair, prevLcn: int) {
    && 1 <= p.lenSize <= 8 && p.offSize <= 8
    && 0 <= p.run.length < TOP && p.run.length < Pow2(8 * p.lenSize)
    && if p.offSize == 0 then p.run.lcn == -1
       else
         && 0 <= p.run.lcn < TOP
         && prevLcn - p.run.lcn <= Pow2(8 * p.offSize - 1)
         && p.run.lcn - prevLcn < Pow2(8 * p.offSize - 1)
  }

  predicate PairsFit(ps: seq<Pair>, prevLcn: int) {
    ps == [] || (PairFits(ps[0], prevLcn) && PairsFit(ps[1..], LcnAfter(ps[0], prevLcn)))
  }

  /** A signed number in n bytes, two's complement. */
  function SignedBytes(v: int, n: nat): (b: seq<byte>)
    ensures |b| == n
  {
    if v >= 0 then LeBytes(v, n)
    else if v + Pow2(8 * n) >= 0 then LeBytes(v + Pow2(8 * n), n)
    else LeBytes(0, n)
  }

  function PairBytes(p: Pair, prevLcn: int): (b: seq<byte>)
    requires PairFits(p, prevLcn)
    ensures |b| == 1 + p.lenSize + p.offSize
  {
    [p.lenSize + 16 * p.offSize] + LeBytes(p.run.length, p.lenSize) + SignedBytes(p.run.lcn - prevLcn, p.offSize)
  }

  function PairsBytes(ps: seq<Pair>, prevLcn: int): seq<byte>
    requires PairsFit(ps, prevLcn)
  {
    if ps == [] then [] else PairBytes(ps[0], prevLcn) + PairsBytes(ps[1..], LcnAfter(ps[0], prevLcn))
  }

  function RunsOf(ps: seq<Pair>): (runs: seq<DataRun>)
    ensures |runs| == |ps| && forall i :: 0 <= i < |ps| ==> runs[i] == ps[i].run
  {
    seq(|ps|, i requires 0 <= i < |ps| => ps[i].run)
  }

  lemma SignedReadBack(v: int, n: nat)
    requires 1 <= n <= 8 && -v <= Pow2(8 * n - 1) && v < Pow2(8 * n - 1)
    ensures SignedOf(SignedBytes(v, n)) == v
  {
    assert Pow2(8 * n) == 2 * Pow2(8 * n - 1);
    LeValueOfBytes(if v >= 0 then v else v + Pow2(8 * n), n);
  }

  lemma UnsignedReadBack(v: nat, n: nat)
    requires v < Pow2(8 * n) && v < TOP
    ensures UnsignedOf(LeBytes(v, n)) == v
  {
    LeValueOfBytes(v, n);
  }

  lemma HeaderByte(lenSize: nat, offSize: nat)
    requires lenSize < 16
    ensures (lenSize + 16 * offSize) % 16 == lenSize && (lenSize + 16 * offSize) / 16 == offSize
  {
  }

  lemma PairReadBack(p: Pair, prevLcn: int, s: seq<byte>)
    requires PairFits(p, prevLcn)
    ensures FirstRun(PairBytes(p, prevLcn) + s, prevLcn) ==
            Some((p.run, LcnAfter(p, prevLcn), |PairBytes(p, prevLcn)|))
  {
    hide UnsignedOf, SignedOf, LeBytes, SignedBytes, Pow2, Int64;
    var len, off := LeBytes(p.run.length, p.lenSize), SignedBytes(p.run.lcn - prevLcn, p.offSize);
    var b := PairBytes(p, prevLcn) + s;
    HeaderByte(p.lenSize, p.offSize);
    assert b[1..1 + p.lenSize] == len;
    assert b[1 + p.lenSize..1 + p.lenSize + p.offSize] == off;
    UnsignedReadBack(p.run.length, p.lenSize);
    if p.offSize > 0 {
      SignedReadBack(p.run.lcn - prevLcn, p.offSize);
    }
  }

  /** Decoding inverts encoding, whatever follows the terminating zero byte, or with no terminator at all. */
  lemma {:induction false} RoundTrip(ps: seq<Pair>, prevLcn: int, end: seq<byte>)
    requires PairsFit(ps, prevLcn) && (end == [] || end[0] == 0)
    ensures DecodedRuns(PairsBytes(ps, prevLcn) + end, prevLcn) == RunsOf(ps)
  {
    hide PairBytes, PairFits, FirstRun, DecodedRuns, LcnAfter, PairsBytes;
    if ps == [] {
      NoRuns(end, prevLcn);
      NothingDecoded(end, prevLcn);
      assert [] + end == end;
      assert PairsBytes(ps, prevLcn) == [] by { NoPairs(prevLcn); }
    } else {
      var first, next := PairBytes(ps[0], prevLcn), LcnAfter(ps[0], prevLcn);
      var tail := PairsBytes(ps[1..], next) + end;
      PairReadBack(ps[0], prevLcn, tail);
      RoundTrip(ps[1..], next, end);
      FirstPair(ps, prevLcn, end);
      OneDecoded(first, tail, prevLcn, ps[0].run, next);
    }
  }

  lemma NoPairs(prevLcn: int)
    ensures PairsBytes([], prevLcn) == []
  {
  }

  /** The bytes of the first pair in front of those of the others. */
  lemma FirstPair(ps: seq<Pair>, prevLcn: int, end: seq<byte>)
    requires ps != [] && PairsFit(ps, prevLcn)
    ensures PairsBytes(ps, prevLcn) + end ==
            PairBytes(ps[0], prevLcn) + (PairsBytes(ps[1..], LcnAfter(ps[0], prevLcn)) + end)
  {
    hide PairBytes, PairFits, LcnAfter;
  }

  lemma NothingDecoded(b: seq<byte>, prevLcn: int)
    requires FirstRun(b, prevLcn) == None
    ensures DecodedRuns(b, prevLcn) == []
  {
    hide FirstRun;
  }

  lemma OneDecoded(first: seq<byte>, tail: seq<byte>, prevLcn: int, run: DataRun, next: int)
    requires FirstRun(first + tail, prevLcn) == Some((run, next, |first|))
    ensures DecodedRuns(first + tail, prevLcn) == [run] + DecodedRuns(tail, next)
  {
    hide FirstRun;
    assert (first + tail)[|first|..] == tail;
  }

  /** A list cut off anywhere decodes to its first runs. */
  lemma {:induction false} TruncatedIsPrefix(ps: seq<Pair>, prevLcn: int, k: nat)
    requires PairsFit(ps, prevLcn) && k <= |PairsBytes(ps, prevLcn)|
    ensures DecodedRuns(PairsBytes(ps, prevLcn)[..k], prevLcn) <= RunsOf(ps)
  {
    hide PairFits, FirstRun, PairBytes;
    var cut := PairsBytes(ps, prevLcn)[..k];
    if ps == [] {
      NoRuns([], prevLcn);
    } else {
      var first, next := PairBytes(ps[0], prevLcn), LcnAfter(ps[0], prevLcn);
      if k >= |first| {
        var tail := PairsBytes(ps[1..], next)[..k - |first|];
        assert cut == first + tail;
        PairReadBack(ps[0], prevLcn, tail);
        TruncatedIsPrefix(ps[1..], next, k - |first|);
        assert (first + tail)[|first|..] == tail;
      } else {
        assert cut == first[..k];
        CutPair(ps[0], prevLcn, k);
      }
    }
  }

  lemma NoRuns(b: seq<byte>, prevLcn: int)
    requires b == [] || b[0] == 0
    ensures FirstRun(b, prevLcn) == None
  {
  }

  lemma CutPair(p: Pair, prevLcn: int, k: nat)
    requires PairFits(p, prevLcn) && k < |PairBytes(p, prevLcn)|
    ensures FirstRun(PairBytes(p, prevLcn)[..k], prevLcn) == None
  {
  }

  /** Eight bytes are wide enough for every length below 2^63 and every pair of cluster numbers. */
  lemma EightBytesSuffice(run: DataRun, prevLcn: int)
    requires 0 <= run.length < TOP && -1 <= run.lcn < TOP && 0 <= prevLcn < TOP
    ensures PairFits(Pair(run, 8, if run.lcn == -1 then 0 else 8), prevLcn)
  {
    Pow2Of64();
    assert Pow2(64) == 2 * Pow2(63);
  }
}
