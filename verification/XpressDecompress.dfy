/** Blocks and the whole LZXPRESS Huffman stream: what the decompressor writes, and that it is
    the LZ77 expansion of the tokens the reference decoder reads. */
module XpressDecompress {
  import opened Bits
  import opened XpressStream
  import opened CanonicalCodes
  import opened HuffTrie
  import opened Lz77
  import opened XpressTokens

  const BLOCK: nat := 0x1_0000

  /** The 512 code lengths, two to a byte, low nibble first. */
  function LengthTable(src: seq<byte>): (lengths: seq<nat>)
    requires |src| >= 256
    ensures |lengths| == 512
    ensures forall s :: 0 <= s < 512 ==> lengths[s] <= 15
  {
    seq(512, s requires 0 <= s < 512 => if s % 2 == 0 then src[s / 2] % 16 else src[s / 2] / 16)
  }

  // ---- What the decompressor computes ------------------------------------------------------

  datatype BlockResult = BlockDone(out: seq<byte>, r: Reader) | BlockHung

  /** Decode until the output reaches `end` or the stream stops. */
  function BlockDecoded(t: Trie, data: seq<byte>, r: Reader, h: seq<byte>, end: nat): (res: BlockResult)
    requires [] in t && r.pos <= |data|
    ensures res.BlockDone? ==> res.r.pos <= |data|
    decreases end - |h|
  {
    if |h| >= end then BlockDone(h, r)
    else
      match TokenRead(t, data, r)
      case Stopped(r') => BlockDone(h, r')
      case Hung(_) => BlockHung
      case Got(token, r') =>
        var h' := EmitWithin(h, token, end);
        TokensAreNonEmpty(t, data, r);
        BlockDecoded(t, data, r', h', end)
  }

  lemma TokensAreNonEmpty(t: Trie, data: seq<byte>, r: Reader)
    requires [] in t
    ensures var res := TokenRead(t, data, r);
            res.Got? && res.token.Match? ==> res.token.length >= 3 && res.token.offset >= 1
  {
  }

  datatype Outcome = Bytes(out: seq<byte>) | Hang

  function BlockEnd(done: nat, expectedSize: nat): nat
    requires done <= expectedSize
  {
    if expectedSize - done > BLOCK then done + BLOCK else expectedSize
  }

  /** The outer loop: a table, a block, and on from where the block's reader ended. */
  function Decompressed(src: seq<byte>, h: seq<byte>, expectedSize: nat): Outcome
    decreases |src|
  {
    if |h| >= expectedSize || |src| < 256 then Bytes(h)
    else
      var t := HuffmanTrie(LengthTable(src));
      RootPresent(LengthTable(src));
      var data := src[256..];
      match BlockDecoded(t, data, Reader(0, []), h, BlockEnd(|h|, expectedSize))
      case BlockHung => Hang
      case BlockDone(out, r) =>
        Decompressed(data[PostLoaded(data, r).pos..], out, expectedSize)
  }

  lemma {:induction false} RootPresent(lengths: seq<nat>)
    ensures [] in HuffmanTrie(lengths)
  {
    TrieRootPresent(lengths, |lengths|);
  }

  lemma {:induction false} TrieRootPresent(lengths: seq<nat>, k: nat)
    requires k <= |lengths|
    ensures [] in TrieOf(lengths, k)
  {
    if k != 0 {
      TrieRootPresent(lengths, k - 1);
      if lengths[k - 1] != 0 {
        var code := CodeBits(lengths, k - 1);
        WithPathHolds(TrieOf(lengths, k - 1), code, |code|);
      }
    }
  }

  // ---- Bounds ------------------------------------------------------------------------------

  lemma {:induction false} BlockBound(t: Trie, data: seq<byte>, r: Reader, h: seq<byte>, end: nat)
    requires [] in t && |h| <= end && r.pos <= |data|
    ensures var res := BlockDecoded(t, data, r, h, end);
            res.BlockDone? ==> h <= res.out && |res.out| <= end
    decreases end - |h|
  {
    if |h| < end {
      var res := TokenRead(t, data, r);
      if res.Got? {
        TokensAreNonEmpty(t, data, r);
        BlockBound(t, data, res.r, EmitWithin(h, res.token, end), end);
      }
    }
  }

  /** The output extends what was there and is never longer than asked for, whatever the source. */
  lemma {:induction false} OutputBound(src: seq<byte>, h: seq<byte>, expectedSize: nat)
    requires |h| <= expectedSize
    ensures var res := Decompressed(src, h, expectedSize);
            res.Bytes? ==> h <= res.out && |res.out| <= expectedSize
    decreases |src|
  {
    if |h| < expectedSize && |src| >= 256 {
      var t := HuffmanTrie(LengthTable(src));
      RootPresent(LengthTable(src));
      var data := src[256..];
      var end := BlockEnd(|h|, expectedSize);
      BlockBound(t, data, Reader(0, []), h, end);
      var res := BlockDecoded(t, data, Reader(0, []), h, end);
      if res.BlockDone? {
        OutputBound(data[PostLoaded(data, res.r).pos..], res.out, expectedSize);
      }
    }
  }

  // ---- The reference ---------------------------------------------------------------------

  /** The tokens of a block whose expansion ends exactly at `end`, and the reader after them. */
  ghost function RefBlock(lengths: seq<nat>, data: seq<byte>, r: Reader, h: seq<byte>, end: nat)
    : Option<(seq<Token>, Reader)>
    decreases end - |h|
  {
    if |h| >= end then
      if |h| == end then Some(([], r)) else None
    else
      var next := RefToken(lengths, data, r);
      if next == None then None
      else
        var h' := Emit(h, next.value.0);
        if |h'| <= |h| then None
        else
          var rest := RefBlock(lengths, data, next.value.1, h', end);
          if rest == None then None else Some(([next.value.0] + rest.value.0, rest.value.1))
  }

  /** The tokens of a whole stream of expectedSize bytes; every table must satisfy Kraft's inequality. */
  ghost function RefTokens(src: seq<byte>, h: seq<byte>, expectedSize: nat): Option<seq<Token>>
    decreases |src|
  {
    if |h| >= expectedSize then Some([])
    else if |src| < 256 || !Kraft(LengthTable(src)) then None
    else
      var data := src[256..];
      var start := RefStart(data);
      if start == None then None
      else
        var block := RefBlock(LengthTable(src), data, start.value, h, BlockEnd(|h|, expectedSize));
        if block == None || block.value.1.pos > |data| then None
        else
          var rest := RefTokens(data[block.value.1.pos..], Expand(h, block.value.0), expectedSize);
          if rest == None then None else Some(block.value.0 + rest.value)
  }

  /** Within a block the lazy decoder writes the expansion of the reference's tokens and stays in step. */
  lemma {:induction false} BlockInStep(lengths: seq<nat>, data: seq<byte>, lazy: Reader, eager: Reader,
                                       h: seq<byte>, end: nat)
    requires Kraft(lengths) && MaxLen(lengths) <= 15 && |lengths| <= 512
    requires lazy.pos <= |data|
    requires InStep(data, lazy, eager) || (|h| < end && InStepOrFresh(data, lazy, eager))
    requires RefBlock(lengths, data, eager, h, end).Some?
    ensures [] in HuffmanTrie(lengths)
    ensures var (tokens, eager') := RefBlock(lengths, data, eager, h, end).value;
            var res := BlockDecoded(HuffmanTrie(lengths), data, lazy, h, end);
            && res.BlockDone? && res.out == Expand(h, tokens) && |res.out| == end
            && InStep(data, res.r, eager')
    decreases end - |h|
  {
    RootPresent(lengths);
    if |h| < end {
      TokenInStep(lengths, data, lazy, eager);
      var (token, eager') := RefToken(lengths, data, eager).value;
      var h' := Emit(h, token);
      var res := TokenRead(HuffmanTrie(lengths), data, lazy);
      TokensAreNonEmpty(HuffmanTrie(lengths), data, lazy);
      EmitWithinIsPrefix(h, token, end);
      var rest := RefBlock(lengths, data, eager', h', end);
      assert RefBlock(lengths, data, eager, h, end).value.0[1..] == rest.value.0;
      BlockInStep(lengths, data, res.r, eager', h', end);
    }
  }

  lemma NibblesFit(src: seq<byte>)
    requires |src| >= 256
    ensures MaxLen(LengthTable(src)) <= 15
  {
  }

  /** What the reference decodes, the decompressor writes: the LZ77 expansion of the reference's
      tokens over the whole history, exactly expectedSize bytes. */
  lemma {:induction false} DecompressesReferenceTokens(src: seq<byte>, h: seq<byte>, expectedSize: nat)
    requires |h| <= expectedSize && RefTokens(src, h, expectedSize).Some?
    ensures Decompressed(src, h, expectedSize) == Bytes(Expand(h, RefTokens(src, h, expectedSize).value))
    ensures |Expand(h, RefTokens(src, h, expectedSize).value)| == expectedSize
    decreases |src|
  {
    if |h| < expectedSize {
      var lengths, data := LengthTable(src), src[256..];
      var start := RefStart(data).value;
      var end := BlockEnd(|h|, expectedSize);
      NibblesFit(src);
      BlockInStep(lengths, data, Reader(0, []), start, h, end);
      var (tokens, eager) := RefBlock(lengths, data, start, h, end).value;
      var res := BlockDecoded(HuffmanTrie(lengths), data, Reader(0, []), h, end);
      BlockEndsAligned(data, res.r, eager);
      DecompressesReferenceTokens(data[eager.pos..], res.out, expectedSize);
      ExpandConcat(h, tokens, RefTokens(data[eager.pos..], res.out, expectedSize).value);
    }
  }

  // ---- The refill loop that cannot end ---------------------------------------------------

  lemma {:induction false} FilledWordsCount(data: seq<byte>, r: Reader, n: nat)
    requires r.pos <= |data|
    ensures |FilledWords(data, r, n).queue| < n <==> |r.queue| + 16 * ((|data| - r.pos) / 2) < n
    decreases |data| - r.pos
  {
    if |r.queue| < n && r.pos + 1 < |data| {
      FilledWordsCount(data, LoadedWord(data, r), n);
    }
  }

  /** Reading the operands of a match never ends exactly when a long match is reached with too
      few whole words left for its offset bits: then another load changes nothing. */
  lemma HangsIff(data: seq<byte>, r: Reader, code: nat)
    requires r.pos <= |data|
    ensures var res := MatchRead(data, r, code);
            && (res.Hung? <==> code % 16 == 15 && |r.queue| + 16 * ((|data| - r.pos) / 2) < code / 16)
            && (res.Hung? ==> |res.r.queue| < code / 16 && LoadedWord(data, res.r) == res.r)
  {
    FilledWordsCount(data, PostLoaded(data, r), code / 16);
    FilledToTheEnd(data, PostLoaded(data, r), code / 16);
  }

  lemma {:induction false} FilledToTheEnd(data: seq<byte>, r: Reader, n: nat)
    ensures var f := FilledWords(data, r, n);
            |f.queue| < n ==> LoadedWord(data, f) == f
    decreases |data| - r.pos
  {
    if |r.queue| < n && r.pos + 1 < |data| {
      FilledToTheEnd(data, LoadedWord(data, r), n);
    }
  }

  /** Decompression never ends when a block starts with the codeword of a long match and too few whole
      words follow for its offset bits. */
  lemma FirstMatchHangs(src: seq<byte>, h: seq<byte>, expectedSize: nat, s: nat)
    requires |src| >= 256 && |h| < expectedSize
    requires Kraft(LengthTable(src)) && Used(LengthTable(src), s) && s >= 256 && s % 16 == 15
    requires var (lengths, data) := (LengthTable(src), src[256..]);
             var f := Refilled(data, Reader(0, []), lengths[s]);
             && CodeBits(lengths, s) <= f.queue
             && |f.queue| - lengths[s] + 16 * ((|data| - f.pos) / 2) < (s - 256) / 16
    ensures Decompressed(src, h, expectedSize) == Hang
  {
    hide Kraft, CodeBits, MatchRead, Refilled, Walked, HuffmanTrie, LengthTable;
    var (lengths, data) := (LengthTable(src), src[256..]);
    var f := Refilled(data, Reader(0, []), lengths[s]);
    RootPresent(lengths);
    DecodesCodeword(lengths, data, Reader(0, []), s);
    HangsIff(data, Reader(f.pos, f.queue[lengths[s]..]), s - 256);
  }

  /** A table that uses symbol 511 only, with a code of one bit, and a single byte of data. */
  function HangingSource(): (src: seq<byte>)
    ensures |src| == 257
  {
    Zeros(255) + [0x10, 0x00]
  }

  lemma {:induction false} UnusedSoFar(lengths: seq<nat>, m: nat)
    requires forall s :: 0 <= s < |lengths| ==> lengths[s] == 0
    ensures MaxLen(lengths) == 0 && KraftSum(lengths, m) == 0 && CountOf(lengths, m) == 0
  {
    if lengths != [] {
      UnusedSoFar(lengths[..|lengths| - 1], m);
    }
  }

  lemma OneUsedSymbol(lengths: seq<nat>)
    requires lengths != [] && lengths[|lengths| - 1] == 1
    requires forall s :: 0 <= s < |lengths| - 1 ==> lengths[s] == 0
    ensures Kraft(lengths) && CodeBits(lengths, |lengths| - 1) == [0]
  {
    var n := |lengths| - 1;
    UnusedSoFar(lengths[..n], 1);
    assert Pow2(0) == 1 && Pow2(1) == 2;
    assert FirstCode(lengths, 1) == 2 * (FirstCode(lengths, 0) + CountOf(lengths, 0)) == 0;
    assert Code(lengths, n) == 0;
    assert BitsOf(0, 1) == BitsOf(0, 0) + [0] == [0];
  }

  /** A source on which decompression never ends, for every expected size. */
  lemma SomeSourceHangs(expectedSize: nat)
    requires expectedSize > 0
    ensures Decompressed(HangingSource(), [], expectedSize) == Hang
  {
    hide Kraft, CodeBits, BitsOf, Used, Decompressed;
    var src := HangingSource();
    var (lengths, data) := (LengthTable(src), src[256..]);
    assert data == [0x00];
    forall s | 0 <= s < 512 ensures lengths[s] == if s == 511 then 1 else 0 {
    }
    OneUsedSymbol(lengths);
    var f := Refilled(data, Reader(0, []), 1);
    ZeroByte();
    assert f == Refilled(data, Reader(1, [] + BitsOf(0, 8)), 1) == Reader(1, BitsOf(0, 8));
    IsUsed(lengths, 511);
    FirstMatchHangs(src, [], expectedSize, 511);
  }

  lemma IsUsed(lengths: seq<nat>, s: nat)
    requires s < |lengths| && lengths[s] > 0
    ensures Used(lengths, s)
  {
  }

  lemma ZeroByte()
    ensures [0] <= BitsOf(0, 8)
  {
    assert BitsOf(0, 8)[0] == 0 by {
      BitsOfAt(0, 8, 0);
    }
  }
}
