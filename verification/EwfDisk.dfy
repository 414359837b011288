/** A virtual disk in chunks spread over segment files, with a ring cache of decoded chunks. */
module EwfDisk {
  import opened Bits

  const SLOTS: nat := 32

  datatype ChunkLoc = ChunkLoc(segment: nat, offset: nat, compressed: bool, size: int)

  /** The image as opened; inflating a zlib stream is a parameter. */
  datatype Image = Image(segments: seq<seq<byte>>, chunkSize: nat, totalSize: nat, chunkMap: seq<ChunkLoc>,
                         inflate: seq<byte> -> Option<seq<byte>>)

  predicate ImageOk(im: Image) {
    im.chunkSize > 0
  }

  /** The chunk holds a byte of the disk. */
  predicate OnDisk(im: Image, chunkIdx: nat) {
    Times(chunkIdx, im.chunkSize) < im.totalSize
  }

  /** int32(x) */
  function Int32(x: int): int {
    (x + 0x8000_0000) % 0x1_0000_0000 - 0x8000_0000
  }

  // ---- Decoding one chunk ----------------------------------------------------------------------

  /** The bytes a chunk has on the virtual disk: chunkSize, less in the last one. */
  function NominalSize(im: Image, chunkIdx: nat): nat {
    var start := Times(chunkIdx, im.chunkSize);
    if start + im.chunkSize <= im.totalSize then im.chunkSize
    else if start <= im.totalSize then im.totalSize - start
    else 0
  }

  /** Decoded bytes; None for any error. */
  function ChunkData(im: Image, chunkIdx: nat): Option<seq<byte>> {
    if chunkIdx >= |im.chunkMap| || im.chunkMap[chunkIdx].segment >= |im.segments| then None
    else
      var loc := im.chunkMap[chunkIdx];
      var f := im.segments[loc.segment];
      if !loc.compressed then
        var size := NominalSize(im, chunkIdx);
        Some(Padded(BytesAt(f, loc.offset, size), size))
      else
        var readSize := if loc.size <= 0 || loc.size > im.chunkSize * 4 + 1024 then im.chunkSize + 1024 else loc.size;
        im.inflate(BytesAt(f, loc.offset, readSize))
  }

  // ---- Reading without a cache -------------------------------------------------------------------

  datatype Status = Fine | Eof | Error | Crashed

  /** What a chunk's data gives from `within` on, room bytes at most: nothing at an error, for a chunk with
      nothing left to give, or when slicing past a chunk that is too short. */
  function Part(data: Option<seq<byte>>, within: nat, room: nat): (res: (seq<byte>, Status))
    requires room > 0
    ensures |res.0| <= room && (res.1 == Fine <==> res.0 != [])
  {
    if data == None then ([], Error)
    else if within > |data.value| then ([], Crashed)
    else if within == |data.value| then ([], Eof)
    else
      var n := if |data.value| - within < room then |data.value| - within else room;
      (data.value[within..within + n], Fine)
  }

  /** What the chunk under cur gives of the bytes up to end. */
  function PartAt(im: Image, cur: nat, end: nat): (res: (seq<byte>, Status))
    requires ImageOk(im) && cur < end
    ensures |res.0| <= end - cur && (res.1 == Fine <==> res.0 != [])
  {
    Part(ChunkData(im, cur / im.chunkSize), cur % im.chunkSize, end - cur)
  }

  /** The bytes from cur up to end, chunk by chunk, as far as they go. */
  function ReadFrom(im: Image, cur: nat, end: nat): (res: (seq<byte>, Status))
    requires ImageOk(im)
    ensures cur <= end ==> |res.0| <= end - cur
    decreases end - cur
  {
    if cur >= end then ([], Fine)
    else
      var (part, status) := PartAt(im, cur, end);
      if status != Fine then ([], status) else Ahead(part, ReadFrom(im, cur + |part|, end))
  }

  /** Where a read of n bytes at an offset stops. */
  function EndOf(im: Image, off: nat, n: nat): nat {
    if off + n > im.totalSize then im.totalSize else off + n
  }

  /** A request that passes the end is told so. */
  function Told(im: Image, off: nat, n: nat, res: (seq<byte>, Status)): (seq<byte>, Status) {
    (res.0, if res.1 == Fine && off + n > im.totalSize then Eof else res.1)
  }

  /** A read of n bytes at an offset. */
  function ReadResult(im: Image, off: int, n: nat): (seq<byte>, Status)
    requires ImageOk(im)
  {
    if off < 0 then ([], Error)
    else if off >= im.totalSize then ([], Eof)
    else Told(im, off, n, ReadFrom(im, off, EndOf(im, off, n)))
  }

  // ---- Reading through the ring --------------------------------------------------------------------

  datatype Cache = Cache(keys: seq<int>, data: seq<Option<seq<byte>>>, next: nat)

  predicate CacheShape(c: Cache) {
    |c.keys| == SLOTS && |c.data| == SLOTS
  }

  function EmptyCache(): (c: Cache)
    ensures CacheShape(c)
  {
    Cache(seq(SLOTS, _ => -1), seq(SLOTS, _ => None), 0)
  }

  /** The data of the first occupied slot from i on that has the key. */
  function Hit(c: Cache, key: int, i: nat): Option<seq<byte>>
    requires CacheShape(c) && i <= SLOTS
    decreases SLOTS - i
  {
    if i == SLOTS then None
    else if c.keys[i] == key && c.data[i].Some? then c.data[i]
    else Hit(c, key, i + 1)
  }

  /** The data in the next slot of the ring. */
  function Kept(c: Cache, key: int, data: seq<byte>): (c': Cache)
    requires CacheShape(c)
    ensures CacheShape(c')
  {
    Cache(c.keys[c.next % SLOTS := key], c.data[c.next % SLOTS := Some(data)], c.next + 1)
  }

  /** The chunk from the cache or decoded, and then kept. */
  function Loaded(im: Image, c: Cache, chunkIdx: nat): (res: (Option<seq<byte>>, Cache))
    requires CacheShape(c)
    ensures CacheShape(res.1)
  {
    var hit, data := Hit(c, Int32(chunkIdx), 0), ChunkData(im, chunkIdx);
    if hit.Some? then (hit, c)
    else if data.None? then (None, c)
    else (data, Kept(c, Int32(chunkIdx), data.value))
  }

  function ReadLoaded(im: Image, c: Cache, cur: nat, end: nat): (res: ((seq<byte>, Status), Cache))
    requires ImageOk(im) && CacheShape(c)
    ensures CacheShape(res.1)
    decreases end - cur
  {
    if cur >= end then (([], Fine), c)
    else
      var (data, c') := Loaded(im, c, cur / im.chunkSize);
      var (part, status) := Part(data, cur % im.chunkSize, end - cur);
      if status != Fine then (([], status), c')
      else
        var (more, c'') := ReadLoaded(im, c', cur + |part|, end);
        (Ahead(part, more), c'')
  }

  function ReadThrough(im: Image, c: Cache, off: int, n: nat): (res: ((seq<byte>, Status), Cache))
    requires ImageOk(im) && CacheShape(c)
    ensures CacheShape(res.1)
  {
    if off < 0 then (([], Error), c)
    else if off >= im.totalSize then (([], Eof), c)
    else
      var (res, c') := ReadLoaded(im, c, off, EndOf(im, off, n));
      (Told(im, off, n, res), c')
  }

  class Disk {
    const im: Image
    const cacheKeys: array<int>
    const cacheData: array<Option<seq<byte>>>
    var cacheNext: nat

    ghost predicate Valid() {
      ImageOk(im) && cacheKeys.Length == SLOTS && cacheData.Length == SLOTS
    }

    ghost function View(): (c: Cache)
      requires Valid()
      reads this, cacheKeys, cacheData
      ensures CacheShape(c)
    {
      Cache(cacheKeys[..], cacheData[..], cacheNext)
    }

    constructor (im: Image)
      requires ImageOk(im)
      ensures Valid() && this.im == im && View() == EmptyCache() && fresh(cacheKeys) && fresh(cacheData)
    {
      this.im := im;
      cacheKeys := new int[SLOTS](_ => -1);
      cacheData := new Option<seq<byte>>[SLOTS](_ => None);
      cacheNext := 0;
      new;
      assert cacheKeys[..] == seq(SLOTS, _ => -1);
      assert cacheData[..] == seq(SLOTS, _ => None);
    }

    method LoadChunk(chunkIdx: nat) returns (data: Option<seq<byte>>)
      requires Valid()
      modifies this`cacheNext, cacheKeys, cacheData
      ensures (data, View()) == Loaded(im, old(View()), chunkIdx)
    {
      hide ChunkData, Int32;
      for i := 0 to SLOTS
        invariant Hit(View(), Int32(chunkIdx), i) == Hit(View(), Int32(chunkIdx), 0)
      {
        if cacheKeys[i] == Int32(chunkIdx) && cacheData[i].Some? {
          return cacheData[i];
        }
      }
      data := DecodeChunk(im, chunkIdx);
      if data.Some? {
        var idx := cacheNext % SLOTS;
        cacheKeys[idx] := Int32(chunkIdx);
        cacheData[idx] := data;
        cacheNext := cacheNext + 1;
      }
    }

    method ReadPart(cur: nat, end: nat) returns (part: seq<byte>, status: Status)
      requires Valid() && cur < end
      modifies this`cacheNext, cacheKeys, cacheData
      ensures var (data, c) := Loaded(im, old(View()), cur / im.chunkSize);
              (part, status) == Part(data, cur % im.chunkSize, end - cur) && View() == c
    {
      hide Loaded;
      var within := cur % im.chunkSize;
      var chunkBytes := LoadChunk(cur / im.chunkSize);
      if chunkBytes == None {
        return [], Error;
      }
      var data := chunkBytes.value;
      if within > |data| {
        return [], Crashed;
      }
      var n := if |data| - within < end - cur then |data| - within else end - cur;
      if n == 0 {
        return [], Eof;
      }
      return data[within..within + n], Fine;
    }

    method ReadAt(p: array<byte>, off: int) returns (written: nat, status: Status)
      requires Valid() && p as object != cacheKeys && p as object != cacheData
      modifies this`cacheNext, cacheKeys, cacheData, p
      ensures written <= p.Length && ((p[..written], status), View()) == ReadThrough(im, old(View()), off, p.Length)
      ensures p[written..] == old(p[written..])
    {
      hide Loaded, Part;
      written := 0;
      if off < 0 {
        return 0, Error;
      }
      if off >= im.totalSize {
        return 0, Eof;
      }
      var end: nat := EndOf(im, off, p.Length);
      var cur: nat := off;
      ghost var whole := ReadLoaded(im, View(), off, end);
      AheadNothing([], whole.0);
      while cur < end
        invariant off <= cur <= end && written == cur - off
        invariant var rest := ReadLoaded(im, View(), cur, end); whole == (Ahead(p[..written], rest.0), rest.1)
        invariant p[written..] == old(p[..])[written..]
        decreases end - cur
      {
        ghost var c := View();
        ReadStep(im, c, cur, end);
        var part, st := ReadPart(cur, end);
        if st != Fine {
          AheadNothing(p[..written], ([], st));
          return written, st;
        }
        AheadAssoc(p[..written], part, ReadLoaded(im, View(), cur + |part|, end).0);
        DropMore(p[..], old(p[..]), written, written + |part|);
        CopyAt(p, written, part);
        written := written + |part|;
        cur := cur + |part|;
      }
      AheadNothing(p[..written], ([], Fine));
      status := if cur < off + p.Length then Eof else Fine;
    }
  }

  /** One chunk of a read. */
  lemma ReadStep(im: Image, c: Cache, cur: nat, end: nat)
    requires ImageOk(im) && CacheShape(c) && cur < end
    ensures var (data, c') := Loaded(im, c, cur / im.chunkSize);
            var (part, status) := Part(data, cur % im.chunkSize, end - cur);
            && |part| <= end - cur && (status == Fine <==> part != [])
            && (status != Fine ==> ReadLoaded(im, c, cur, end) == (([], status), c'))
            && (status == Fine ==>
                  var (more, c'') := ReadLoaded(im, c', cur + |part|, end);
                  ReadLoaded(im, c, cur, end) == (Ahead(part, more), c''))
  {
    hide Loaded, Part;
  }

  function Ahead(b: seq<byte>, rest: (seq<byte>, Status)): (seq<byte>, Status) {
    (b + rest.0, rest.1)
  }

  lemma AheadAssoc(a: seq<byte>, b: seq<byte>, rest: (seq<byte>, Status))
    ensures Ahead(a, Ahead(b, rest)) == Ahead(a + b, rest)
  {
    assert a + (b + rest.0) == a + b + rest.0;
  }

  lemma AheadNothing(b: seq<byte>, rest: (seq<byte>, Status))
    ensures Ahead([], rest) == rest
    ensures Ahead(b, ([], rest.1)) == (b, rest.1)
  {
    assert [] + rest.0 == rest.0 && b + [] == b;
  }

  lemma DropMore(a: seq<byte>, b: seq<byte>, i: nat, j: nat)
    requires i <= j <= |a| && |a| == |b| && a[i..] == b[i..]
    ensures a[j..] == b[j..]
  {
    assert a[j..] == a[i..][j - i..] && b[j..] == b[i..][j - i..];
  }

  method CopyAt(p: array<byte>, start: nat, b: seq<byte>)
    requires start + |b| <= p.Length
    modifies p
    ensures p[..start + |b|] == old(p[..start]) + b
    ensures p[start + |b|..] == old(p[start + |b|..])
  {
    forall k | 0 <= k < |b| {
      p[start + k] := b[k];
    }
  }

  method DecodeChunk(im: Image, chunkIdx: nat) returns (data: Option<seq<byte>>)
    ensures data == ChunkData(im, chunkIdx)
  {
    if chunkIdx >= |im.chunkMap| {
      return None;
    }
    var loc := im.chunkMap[chunkIdx];
    if loc.segment >= |im.segments| {
      return None;
    }
    var f := im.segments[loc.segment];
    if !loc.compressed {
      var size := NominalSize(im, chunkIdx);
      return Some(Padded(BytesAt(f, loc.offset, size), size));
    }
    var readSize := loc.size;
    if readSize <= 0 || readSize > im.chunkSize * 4 + 1024 {
      readSize := im.chunkSize + 1024;
    }
    data := im.inflate(BytesAt(f, loc.offset, readSize));
  }

  // ---- The virtual disk ------------------------------------------------------------------------

  /** Every chunk of the disk decodes to its nominal length. */
  ghost predicate WellDecoded(im: Image) {
    forall c: nat :: Times(c, im.chunkSize) < im.totalSize ==>
      ChunkData(im, c).Some? && |ChunkData(im, c).value| == NominalSize(im, c)
  }

  lemma ChunkOf(o: nat, chunkSize: nat)
    requires chunkSize > 0
    ensures Times(o / chunkSize, chunkSize) + o % chunkSize == o && o % chunkSize < chunkSize
  {
  }

  ghost function DiskByte(im: Image, o: nat): byte
    requires ImageOk(im) && WellDecoded(im) && o < im.totalSize
  {
    ChunkOf(o, im.chunkSize);
    ChunkData(im, o / im.chunkSize).value[o % im.chunkSize]
  }

  /** The decoded chunks end to end. */
  ghost function VirtualDisk(im: Image): (d: seq<byte>)
    requires ImageOk(im) && WellDecoded(im)
    ensures |d| == im.totalSize
  {
    seq(im.totalSize, o requires 0 <= o < im.totalSize => DiskByte(im, o))
  }

  lemma NextInChunk(o: nat, k: nat, chunkSize: nat)
    requires chunkSize > 0 && o % chunkSize + k < chunkSize
    ensures (o + k) / chunkSize == o / chunkSize && (o + k) % chunkSize == o % chunkSize + k
  {
    ChunkOf(o, chunkSize);
    DivUnique(o + k, chunkSize, o / chunkSize, o % chunkSize + k);
  }

  /** One chunk's part of a read is the disk's bytes there, and there is at least one. */
  lemma PartIsSlice(im: Image, cur: nat, end: nat)
    requires ImageOk(im) && WellDecoded(im) && cur < end <= im.totalSize
    ensures var (part, status) := PartAt(im, cur, end);
            status == Fine && part == VirtualDisk(im)[cur..cur + |part|]
  {
    hide ChunkData, Times;
    ChunkOf(cur, im.chunkSize);
    var (part, status) := PartAt(im, cur, end);
    forall k | 0 <= k < |part|
      ensures part[k] == VirtualDisk(im)[cur + k]
    {
      NextInChunk(cur, k, im.chunkSize);
    }
  }

  lemma {:induction false} ReadFromIsSlice(im: Image, cur: nat, end: nat)
    requires ImageOk(im) && WellDecoded(im) && cur <= end <= im.totalSize
    ensures ReadFrom(im, cur, end) == (VirtualDisk(im)[cur..end], Fine)
    decreases end - cur
  {
    hide PartAt, WellDecoded, VirtualDisk;
    assert VirtualDisk(im)[end..end] == [];
    if cur < end {
      PartIsSlice(im, cur, end);
      var part := PartAt(im, cur, end).0;
      ReadFromIsSlice(im, cur + |part|, end);
      SliceJoin(VirtualDisk(im), cur, cur + |part|, end);
    }
  }

  /** A read returns exactly the virtual disk's slice, with EOF exactly when it starts at or passes the end. */
  lemma ReadsVirtualDisk(im: Image, off: nat, n: nat)
    requires ImageOk(im) && WellDecoded(im)
    ensures var from := if off < im.totalSize then off else im.totalSize;
            var end := if off + n < im.totalSize then off + n else im.totalSize;
            ReadResult(im, off, n) ==
              (if from <= end then VirtualDisk(im)[from..end] else [],
               if off >= im.totalSize || off + n > im.totalSize then Eof else Fine)
  {
    hide WellDecoded, VirtualDisk, ReadFrom;
    if off < im.totalSize {
      ReadFromIsSlice(im, off, if off + n > im.totalSize then im.totalSize else off + n);
    } else {
      assert VirtualDisk(im)[im.totalSize..im.totalSize] == [];
    }
  }

  // ---- When the ring cannot be seen ----------------------------------------------------------------

  /** Two chunk indices share a key exactly when they lie a multiple of 2^32 apart. */
  lemma KeysCollide(x: nat, y: nat)
    ensures Int32(x) == Int32(y) <==> (x - y) % 0x1_0000_0000 == 0
  {
    var a, b := x + 0x8000_0000, y + 0x8000_0000;
    if a % 0x1_0000_0000 == b % 0x1_0000_0000 {
      MultipleApart(a, b);
    }
    if (a - b) % 0x1_0000_0000 == 0 {
      SameRemainder(a, b);
    }
  }

  lemma MultipleApart(a: int, b: int)
    requires a % 0x1_0000_0000 == b % 0x1_0000_0000
    ensures (a - b) % 0x1_0000_0000 == 0
  {
    assert a - b == 0x1_0000_0000 * (a / 0x1_0000_0000 - b / 0x1_0000_0000);
  }

  lemma SameRemainder(a: int, b: int)
    requires (a - b) % 0x1_0000_0000 == 0
    ensures a % 0x1_0000_0000 == b % 0x1_0000_0000
  {
    assert a == 0x1_0000_0000 * ((a - b) / 0x1_0000_0000 + b / 0x1_0000_0000) + b % 0x1_0000_0000;
  }

  /** Chunks of the disk that share a key decode alike. */
  ghost predicate KeysTellApart(im: Image) {
    forall x: nat, y: nat :: OnDisk(im, x) && OnDisk(im, y) && Int32(x) == Int32(y) ==> ChunkData(im, x) == ChunkData(im, y)
  }

  /** Up to 2^32 chunks no two share a key. */
  lemma SmallImagesTellApart(im: Image)
    requires ImageOk(im) && im.totalSize <= Times(0x1_0000_0000, im.chunkSize)
    ensures KeysTellApart(im)
  {
    hide ChunkData, Int32, Times;
    forall x: nat, y: nat | OnDisk(im, x) && OnDisk(im, y) && Int32(x) == Int32(y) ensures x == y {
      IndexFits(im, x);
      IndexFits(im, y);
      KeysCollide(x, y);
    }
  }

  lemma IndexFits(im: Image, x: nat)
    requires ImageOk(im) && im.totalSize <= Times(0x1_0000_0000, im.chunkSize) && OnDisk(im, x)
    ensures x < 0x1_0000_0000
  {
    hide Times;
    if x >= 0x1_0000_0000 {
      TimesMonotone(0x1_0000_0000, x, im.chunkSize);
    }
  }

  lemma TimesMonotone(x: nat, y: nat, z: nat)
    requires x <= y
    ensures Times(x, z) <= Times(y, z)
  {
    assert y * z == x * z + (y - x) * z;
  }

  /** Every occupied slot holds the data of a chunk of the disk that has its key. */
  ghost predicate CacheOk(im: Image, c: Cache) {
    CacheShape(c) && forall i :: 0 <= i < SLOTS && c.data[i].Some? ==> SlotOk(im, c.keys[i], c.data[i])
  }

  ghost predicate SlotOk(im: Image, key: int, data: Option<seq<byte>>) {
    exists x: nat :: OnDisk(im, x) && Int32(x) == key && ChunkData(im, x) == data
  }

  lemma {:induction false} HitIsOk(im: Image, c: Cache, chunkIdx: nat, i: nat)
    requires KeysTellApart(im) && CacheOk(im, c) && OnDisk(im, chunkIdx) && i <= SLOTS
    ensures Hit(c, Int32(chunkIdx), i).Some? ==> Hit(c, Int32(chunkIdx), i) == ChunkData(im, chunkIdx)
    decreases SLOTS - i
  {
    hide ChunkData, Int32, OnDisk;
    if i < SLOTS {
      HitIsOk(im, c, chunkIdx, i + 1);
    }
  }

  lemma LoadIsTransparent(im: Image, c: Cache, chunkIdx: nat)
    requires KeysTellApart(im) && CacheOk(im, c) && OnDisk(im, chunkIdx)
    ensures Loaded(im, c, chunkIdx).0 == ChunkData(im, chunkIdx) && CacheOk(im, Loaded(im, c, chunkIdx).1)
  {
    hide ChunkData, Int32, OnDisk;
    HitIsOk(im, c, chunkIdx, 0);
    assert ChunkData(im, chunkIdx).Some? ==> SlotOk(im, Int32(chunkIdx), ChunkData(im, chunkIdx));
  }

  lemma {:induction false} ReadIsTransparent(im: Image, c: Cache, cur: nat, end: nat)
    requires ImageOk(im) && KeysTellApart(im) && CacheOk(im, c) && end <= im.totalSize
    ensures ReadLoaded(im, c, cur, end).0 == ReadFrom(im, cur, end) && CacheOk(im, ReadLoaded(im, c, cur, end).1)
    decreases end - cur
  {
    hide ChunkData, Int32, KeysTellApart, CacheOk, CacheShape, Loaded, Part;
    ShapeOfOk(im, c);
    if cur < end {
      OnDiskUnder(im, cur);
      LoadIsTransparent(im, c, cur / im.chunkSize);
      var c' := Loaded(im, c, cur / im.chunkSize).1;
      ReadStep(im, c, cur, end);
      var part := PartAt(im, cur, end);
      if part.1 == Fine {
        ReadIsTransparent(im, c', cur + |part.0|, end);
      }
    }
  }

  lemma ShapeOfOk(im: Image, c: Cache)
    requires CacheOk(im, c)
    ensures CacheShape(c)
  {
  }

  lemma OnDiskUnder(im: Image, cur: nat)
    requires ImageOk(im) && cur < im.totalSize
    ensures OnDisk(im, cur / im.chunkSize)
  {
    ChunkOf(cur, im.chunkSize);
  }

  /** The results of a history of reads, from a state of the cache on. */
  function Results(im: Image, c: Cache, requests: seq<(int, nat)>): (rs: seq<(seq<byte>, Status)>)
    requires ImageOk(im) && CacheShape(c)
    ensures |rs| == |requests|
    decreases |requests|
  {
    if requests == [] then []
    else
      var (res, c') := ReadThrough(im, c, requests[0].0, requests[0].1);
      [res] + Results(im, c', requests[1..])
  }

  function Expected(im: Image, requests: seq<(int, nat)>): (rs: seq<(seq<byte>, Status)>)
    requires ImageOk(im)
    ensures |rs| == |requests|
  {
    if requests == [] then [] else [ReadResult(im, requests[0].0, requests[0].1)] + Expected(im, requests[1..])
  }

  lemma {:induction false} HistoryIsTransparent(im: Image, c: Cache, requests: seq<(int, nat)>)
    requires ImageOk(im) && KeysTellApart(im) && CacheOk(im, c)
    ensures Results(im, c, requests) == Expected(im, requests)
    decreases |requests|
  {
    hide KeysTellApart, CacheOk, CacheShape, ReadLoaded, ReadFrom;
    ShapeOfOk(im, c);
    if requests != [] {
      var (off, n) := requests[0];
      if 0 <= off < im.totalSize {
        ReadIsTransparent(im, c, off, EndOf(im, off, n));
      }
      HistoryIsTransparent(im, ReadThrough(im, c, off, n).1, requests[1..]);
    }
  }

  /** After a byte of chunk x has been read, a read of chunk y that shares its key is served x's data. */
  lemma SecondReadServesFirst(im: Image, x: nat, y: nat)
    requires ImageOk(im) && WellDecoded(im) && OnDisk(im, x) && OnDisk(im, y) && Int32(x) == Int32(y)
    requires |ChunkData(im, x).value| <= |ChunkData(im, y).value|
    ensures var a, b := ChunkData(im, x).value, ChunkData(im, y).value;
            var requests := [(Times(x, im.chunkSize), 1), (Times(y, im.chunkSize), |b|)];
            && Results(im, EmptyCache(), requests)[1..] == [(a, if |a| == |b| then Fine else Eof)]
            && Expected(im, requests)[1..] == [(b, Fine)]
  {
    hide ChunkData, Int32, WellDecoded, ReadFrom, Loaded, ReadLoaded, ReadThrough, Results, Expected, ReadResult;
    WellSized(im, x);
    WellSized(im, y);
    var a, b := ChunkData(im, x).value, ChunkData(im, y).value;
    FirstRead(im, x);
    SecondRead(im, Kept(EmptyCache(), Int32(x), a), y, a, |b|);
    ReadsOneChunk(im, y);
    TwoReads(im, (Times(x, im.chunkSize), 1), (Times(y, im.chunkSize), |b|));
  }

  lemma TwoReads(im: Image, r1: (int, nat), r2: (int, nat))
    requires ImageOk(im)
    ensures var c := ReadThrough(im, EmptyCache(), r1.0, r1.1).1;
            Results(im, EmptyCache(), [r1, r2])[1..] == [ReadThrough(im, c, r2.0, r2.1).0]
    ensures Expected(im, [r1, r2])[1..] == [ReadResult(im, r2.0, r2.1)]
  {
    hide ReadThrough, ReadResult;
    var (first, c) := ReadThrough(im, EmptyCache(), r1.0, r1.1);
    var (second, c') := ReadThrough(im, c, r2.0, r2.1);
    assert [r1, r2][1..] == [r2] && [r2][1..] == [];
    assert Results(im, c, [r2]) == [second] + Results(im, c', []);
    assert Results(im, EmptyCache(), [r1, r2]) == [first] + Results(im, c, [r2]);
    assert Expected(im, [r2]) == [ReadResult(im, r2.0, r2.1)] + Expected(im, []);
    assert Expected(im, [r1, r2]) == [ReadResult(im, r1.0, r1.1)] + Expected(im, [r2]);
  }

  lemma WellSized(im: Image, x: nat)
    requires ImageOk(im) && WellDecoded(im) && OnDisk(im, x)
    ensures ChunkData(im, x).Some?
    ensures 0 < |ChunkData(im, x).value| <= im.chunkSize
    ensures Times(x, im.chunkSize) + |ChunkData(im, x).value| <= im.totalSize
  {
    hide ChunkData;
  }

  /** Offsets inside a chunk. */
  lemma InChunk(x: nat, k: nat, chunkSize: nat)
    requires k < chunkSize
    ensures (Times(x, chunkSize) + k) / chunkSize == x && (Times(x, chunkSize) + k) % chunkSize == k
  {
    DivUnique(Times(x, chunkSize) + k, chunkSize, x, k);
  }

  lemma FirstRead(im: Image, x: nat)
    requires ImageOk(im) && WellDecoded(im) && OnDisk(im, x)
    ensures ChunkData(im, x).Some?
    ensures ReadThrough(im, EmptyCache(), Times(x, im.chunkSize), 1).1 == Kept(EmptyCache(), Int32(x), ChunkData(im, x).value)
  {
    hide ChunkData, Int32, WellDecoded, Times;
    WellSized(im, x);
    InChunk(x, 0, im.chunkSize);
    NoHit(Int32(x), 0);
    ReadStep(im, EmptyCache(), Times(x, im.chunkSize), Times(x, im.chunkSize) + 1);
  }

  lemma {:induction false} NoHit(key: int, i: nat)
    requires i <= SLOTS
    ensures Hit(EmptyCache(), key, i) == None
    decreases SLOTS - i
  {
    if i < SLOTS {
      NoHit(key, i + 1);
    }
  }

  /** With a under the key of chunk y, a read of n bytes from its start gives a and no more. */
  lemma SecondRead(im: Image, c: Cache, y: nat, a: seq<byte>, n: nat)
    requires ImageOk(im) && CacheShape(c) && Hit(c, Int32(y), 0) == Some(a)
    requires 0 < |a| <= n <= im.chunkSize && Times(y, im.chunkSize) + n <= im.totalSize
    ensures ReadThrough(im, c, Times(y, im.chunkSize), n).0 == (a, if |a| == n then Fine else Eof)
  {
    hide ChunkData, Int32, Times, Hit;
    var start := Times(y, im.chunkSize);
    InChunk(y, 0, im.chunkSize);
    ReadStep(im, c, start, start + n);
    AheadNothing(a, ([], Eof));
    AheadNothing(a, ([], Fine));
    if |a| < n {
      InChunk(y, |a|, im.chunkSize);
      ReadStep(im, c, start + |a|, start + n);
    }
  }

  lemma ReadsOneChunk(im: Image, y: nat)
    requires ImageOk(im) && WellDecoded(im) && OnDisk(im, y)
    ensures ChunkData(im, y).Some?
    ensures ReadResult(im, Times(y, im.chunkSize), |ChunkData(im, y).value|) == (ChunkData(im, y).value, Fine)
  {
    hide ChunkData, WellDecoded, Times;
    WellSized(im, y);
    InChunk(y, 0, im.chunkSize);
    var b := ChunkData(im, y).value;
    var start := Times(y, im.chunkSize);
    AheadNothing(b, ([], Fine));
    assert PartAt(im, start, start + |b|) == (b, Fine) by {
      assert b[0..|b|] == b;
    }
    assert ReadFrom(im, start + |b|, start + |b|) == ([], Fine);
  }

  /** Every history of reads through a fresh ring gives what reading without one gives. */
  ghost predicate Invisible(im: Image)
    requires ImageOk(im)
  {
    forall requests: seq<(int, nat)> :: Results(im, EmptyCache(), requests) == Expected(im, requests)
  }

  /** The ring is invisible in every history of reads exactly when chunks that share a key decode alike. */
  lemma RingIsInvisibleIff(im: Image)
    requires ImageOk(im) && WellDecoded(im)
    ensures Invisible(im) <==> KeysTellApart(im)
  {
    hide KeysTellApart, Results, Expected, EmptyCache, CacheOk, WellDecoded;
    if KeysTellApart(im) {
      EmptyIsOk(im);
      forall requests: seq<(int, nat)> ensures Results(im, EmptyCache(), requests) == Expected(im, requests) {
        HistoryIsTransparent(im, EmptyCache(), requests);
      }
    }
    if Invisible(im) {
      InvisibleTellsApart(im);
    }
  }

  lemma InvisibleTellsApart(im: Image)
    requires ImageOk(im) && WellDecoded(im) && Invisible(im)
    ensures KeysTellApart(im)
  {
    hide ChunkData, Int32, WellDecoded, OnDisk, Results, Expected, EmptyCache, Invisible;
    forall x: nat, y: nat | OnDisk(im, x) && OnDisk(im, y) && Int32(x) == Int32(y)
      ensures ChunkData(im, x) == ChunkData(im, y)
    {
      WellSized(im, x);
      WellSized(im, y);
      if |ChunkData(im, x).value| <= |ChunkData(im, y).value| {
        AgreesOn(im, x, y);
      } else {
        AgreesOn(im, y, x);
      }
    }
  }

  lemma AgreesOn(im: Image, x: nat, y: nat)
    requires ImageOk(im) && WellDecoded(im) && Invisible(im) && OnDisk(im, x) && OnDisk(im, y) && Int32(x) == Int32(y)
    requires |ChunkData(im, x).value| <= |ChunkData(im, y).value|
    ensures ChunkData(im, x) == ChunkData(im, y)
  {
    hide ChunkData, Int32, WellDecoded, OnDisk, Results, Expected, EmptyCache;
    WellSized(im, x);
    WellSized(im, y);
    SecondReadServesFirst(im, x, y);
    var a, b := ChunkData(im, x).value, ChunkData(im, y).value;
    var requests := [(Times(x, im.chunkSize), 1), (Times(y, im.chunkSize), |b|)];
    assert Results(im, EmptyCache(), requests) == Expected(im, requests);
    assert Results(im, EmptyCache(), requests)[1..][0] == Expected(im, requests)[1..][0];
  }

  lemma EmptyIsOk(im: Image)
    ensures CacheOk(im, EmptyCache())
  {
  }

  /** A disk of one more chunk than there are keys: all chunks of one byte, the first different. */
  function OneTooMany(): Image {
    Image([[0, 1]], 1, 0x1_0000_0001,
          seq(0x1_0000_0001, i => ChunkLoc(0, if i == 0 then 0 else 1, false, 0)), _ => None)
  }

  /** 2^32 chunks is the largest size at which the ring is always invisible. */
  lemma OneTooManyIsVisible()
    ensures ImageOk(OneTooMany()) && WellDecoded(OneTooMany()) && !Invisible(OneTooMany())
  {
    var im := OneTooMany();
    forall c: nat | Times(c, im.chunkSize) < im.totalSize
      ensures ChunkData(im, c) == Some([if c == 0 then 0 else 1]) && NominalSize(im, c) == 1
    {
      var b: byte := if c == 0 then 0 else 1;
      assert BytesAt([0, 1], b, 1) == [b];
      assert Padded([b], 1) == [b];
    }
    assert OnDisk(im, 0) && OnDisk(im, 0x1_0000_0000) && Int32(0) == Int32(0x1_0000_0000);
    assert ChunkData(im, 0) != ChunkData(im, 0x1_0000_0000);
    RingIsInvisibleIff(im);
  }
}
