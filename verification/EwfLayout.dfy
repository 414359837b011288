/** An image that stores a disk: every chunk where the chunk map says, raw or deflated, and that reading the image
    reads the disk. */
module EwfLayout {
  import opened Bits
  import opened EwfDisk

  /** The bytes stand in the file at an offset. */
  predicate StandsAt(f: seq<byte>, off: nat, b: seq<byte>) {
    off + |b| <= |f| && f[off..off + |b|] == b
  }

  /** Inflating z gives the part, whatever is read behind it. */
  ghost predicate Inflates(im: Image, z: seq<byte>, part: seq<byte>) {
    forall behind: seq<byte> :: im.inflate(z + behind) == Some(part)
  }

  /** How many bytes are read of a deflated chunk: its stated size, or more than a chunk when that makes no sense. */
  function ReadLimit(im: Image, size: int): int {
    if 0 < size <= 4 * im.chunkSize + 1024 then size else im.chunkSize + 1024
  }

  /** Chunk c of the disk, the last one cut where the disk ends. */
  function PartOf(im: Image, disk: seq<byte>, c: nat): seq<byte>
    requires Times(c, im.chunkSize) <= |disk|
  {
    var start := Times(c, im.chunkSize);
    if start + im.chunkSize <= |disk| then disk[start..start + im.chunkSize] else disk[start..]
  }

  /** The segment that the chunk map names holds the chunk at its offset: as it is, or deflated to z. */
  ghost predicate StoresChunk(im: Image, c: nat, part: seq<byte>, z: seq<byte>) {
    c < |im.chunkMap| && im.chunkMap[c].segment < |im.segments| &&
    var loc := im.chunkMap[c];
    var f := im.segments[loc.segment];
    if loc.compressed then StandsAt(f, loc.offset, z) && Inflates(im, z, part) && |z| <= ReadLimit(im, loc.size)
    else StandsAt(f, loc.offset, part)
  }

  /** zs gives what deflated chunks are stored as. */
  ghost predicate StoresDisk(im: Image, disk: seq<byte>, zs: nat -> seq<byte>) {
    && im.chunkSize > 0 && im.totalSize == |disk|
    && forall c: nat :: Times(c, im.chunkSize) < |disk| ==> StoresChunk(im, c, PartOf(im, disk, c), zs(c))
  }

  lemma ChunkReadBack(im: Image, c: nat, disk: seq<byte>, z: seq<byte>)
    requires im.chunkSize > 0 && im.totalSize == |disk| && Times(c, im.chunkSize) < |disk|
    requires StoresChunk(im, c, PartOf(im, disk, c), z)
    ensures ChunkData(im, c) == Some(PartOf(im, disk, c)) && |PartOf(im, disk, c)| == NominalSize(im, c)
  {
    hide Times;
    var loc := im.chunkMap[c];
    var f, part := im.segments[loc.segment], PartOf(im, disk, c);
    if loc.compressed {
      hide StandsAt, BytesAt;
      var raw := BytesAt(f, loc.offset, ReadLimit(im, loc.size));
      ReadBeyond(f, loc.offset, z, ReadLimit(im, loc.size));
      assert im.inflate(z + raw[|z|..]) == Some(part);
    } else {
      hide StandsAt, BytesAt;
      ReadBeyond(f, loc.offset, part, |part|);
      assert part + Zeros(0) == part;
    }
  }

  /** Reading at least as many bytes as stand there gives them, and perhaps more. */
  lemma ReadBeyond(f: seq<byte>, off: nat, b: seq<byte>, n: nat)
    requires StandsAt(f, off, b) && |b| <= n
    ensures var raw := BytesAt(f, off, n);
            |b| <= |raw| && raw == b + raw[|b|..] && (n == |b| ==> raw == b)
  {
    var raw := BytesAt(f, off, n);
    if b != [] {
      assert raw[..|b|] == f[off..off + |b|];
    }
  }

  /** Reading the image gives the disk's bytes, and EOF exactly when the read starts at or passes its end. */
  lemma DiskReadBack(im: Image, disk: seq<byte>, zs: nat -> seq<byte>, off: nat, n: nat)
    requires StoresDisk(im, disk, zs)
    ensures var from := if off < |disk| then off else |disk|;
            var end := if off + n < |disk| then off + n else |disk|;
            ReadResult(im, off, n) ==
              (if from <= end then disk[from..end] else [], if off >= |disk| || off + n > |disk| then Eof else Fine)
  {
    hide ChunkData, Times, NominalSize, StoresChunk, PartOf;
    forall c: nat | Times(c, im.chunkSize) < im.totalSize
      ensures ChunkData(im, c) == Some(PartOf(im, disk, c)) && |PartOf(im, disk, c)| == NominalSize(im, c)
    {
      ChunkReadBack(im, c, disk, zs(c));
    }
    assert WellDecoded(im);
    forall o | 0 <= o < |disk| ensures VirtualDisk(im)[o] == disk[o] {
      ByteReadBack(im, disk, o);
    }
    assert VirtualDisk(im) == disk;
    ReadsVirtualDisk(im, off, n);
  }

  lemma ByteReadBack(im: Image, disk: seq<byte>, o: nat)
    requires im.chunkSize > 0 && im.totalSize == |disk| && o < |disk| && WellDecoded(im)
    requires forall c: nat :: Times(c, im.chunkSize) < |disk| ==> ChunkData(im, c) == Some(PartOf(im, disk, c))
    ensures VirtualDisk(im)[o] == disk[o]
  {
    hide ChunkData, Times, NominalSize, WellDecoded;
    var c, k := o / im.chunkSize, o % im.chunkSize;
    ChunkOf(o, im.chunkSize);
    assert Times(c, im.chunkSize) + k == o;
    assert ChunkData(im, c) == Some(PartOf(im, disk, c));
    assert PartOf(im, disk, c)[k] == disk[o];
  }
}
