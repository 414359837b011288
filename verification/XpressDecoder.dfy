/** The decompressor's loops, over a stream object and a 64 KiB block buffer. */
module XpressDecoder {
  import opened Bits
  import opened XpressStream
  import opened CanonicalCodes
  import opened HuffTrie
  import opened TrieBuilder
  import opened Lz77
  import opened XpressTokens
  import opened XpressDecompress

  /** Continue with a token, stop the block, or never come back. */
  datatype Step = Next(token: Token) | Stop | Forever

  ghost predicate Reports(res: TokenResult, step: Step, r: Reader) {
    match res
    case Got(token, r') => step == Next(token) && r == r'
    case Stopped(r') => step == Stop && r == r'
    case Hung(r') => step == Forever && r == r'
  }

  /** `for s.bits < n { s.loadWord() }`, leaving the loop where it would spin for ever. */
  method FillWords(s: BitStream, n: nat) returns (spins: bool)
    requires s.Valid() && n <= 15 && s.bits <= 31
    modifies s`pos, s`buf, s`bits, s`queue
    ensures s.Valid() && s.bits <= 31
    ensures s.View() == FilledWords(s.data, old(s.View()), n)
    ensures spins <==> s.bits < n
  {
    while s.bits < n
      invariant s.Valid() && s.bits <= 31
      invariant FilledWords(s.data, s.View(), n) == FilledWords(s.data, old(s.View()), n)
      decreases |s.data| - s.pos
    {
      if s.pos + 1 >= |s.data| {
        return true;
      }
      s.LoadWord();
    }
    spins := false;
  }

  method PostLoad(s: BitStream)
    requires s.Valid() && s.bits <= 31
    modifies s`pos, s`buf, s`bits, s`queue
    ensures s.Valid() && s.bits <= 31
    ensures s.View() == PostLoaded(s.data, old(s.View()))
  {
    if s.bits < 16 {
      s.LoadWord();
    }
  }

  /** The length bytes that follow the peeked offset bits. */
  method ReadLongLength(s: BitStream) returns (matchLen: Option<nat>)
    requires s.Valid()
    modifies s`pos
    ensures s.Valid()
    ensures (matchLen, s.pos) == LongLength(s.data, old(s.pos))
  {
    if s.pos >= |s.data| {
      return None;
    }
    var ex: nat := s.data[s.pos];
    s.pos := s.pos + 1;
    if ex == 255 {
      if s.pos + 1 >= |s.data| {
        return None;
      }
      var w := Word16(s.data, s.pos);
      s.pos := s.pos + 2;
      return Some(w + 3);
    }
    return Some(ex + 15 + 3);
  }

  method ReadLongMatch(s: BitStream, numOffBits: nat) returns (step: Step)
    requires s.Valid() && s.bits <= 31 && numOffBits <= 15
    modifies s`pos, s`buf, s`bits, s`queue
    ensures s.Valid() && s.bits <= 31
    ensures Reports(MatchRead(s.data, old(s.View()), 16 * numOffBits + 15), step, s.View())
  {
    hide FilledWords, LoadedWord, LongLength;
    PostLoad(s);
    var spins := FillWords(s, numOffBits);
    if spins {
      return Forever;
    }
    var offsetLow := s.Peek(numOffBits);
    var matchLen := ReadLongLength(s);
    if matchLen == None {
      return Stop;
    }
    s.Drop(numOffBits);
    PostLoad(s);
    step := Next(Match(Pow2(numOffBits) + offsetLow, matchLen.value));
  }

  method ReadMatch(s: BitStream, sym: nat) returns (step: Step)
    requires s.Valid() && s.bits <= 31 && sym < 256
    modifies s`pos, s`buf, s`bits, s`queue
    ensures s.Valid() && s.bits <= 31
    ensures Reports(MatchRead(s.data, old(s.View()), sym), step, s.View())
  {
    var numOffBits, mli := sym / 16, sym % 16;
    if mli != 15 {
      var offsetLow := s.ReadBits(numOffBits);
      if offsetLow == None {
        return Stop;
      }
      step := Next(Match(Pow2(numOffBits) + offsetLow.value, mli + 3));
    } else {
      step := ReadLongMatch(s, numOffBits);
    }
  }

  /** Copy from the history `dst` followed by `chunkBuf[..chunkOut]`, stopping at the limit. */
  method CopyMatch(dst: seq<byte>, chunkBuf: array<byte>, chunkOut: nat, offset: nat, matchLen: nat, limit: nat)
    returns (n: nat)
    requires chunkOut < limit <= chunkBuf.Length && offset > 0 && matchLen > 0
    modifies chunkBuf
    ensures n <= limit
    ensures dst + chunkBuf[..n] ==
      EmitWithin(dst + old(chunkBuf[..chunkOut]), Match(offset, matchLen), |dst| + limit)
    ensures chunkBuf[n..] == old(chunkBuf[n..])
  {
    ghost var h := dst + chunkBuf[..chunkOut];
    n := chunkOut;
    var i := 0;
    while i < matchLen
      invariant i <= matchLen && n == chunkOut + i && n <= limit && (n == limit ==> i == matchLen)
      invariant dst + chunkBuf[..n] == Copied(h, offset, i)
      invariant chunkBuf[n..] == old(chunkBuf[n..])
    {
      var absPos := |dst| + n - offset;
      var b: byte := 0;
      if absPos >= 0 {
        b := if absPos < |dst| then dst[absPos] else chunkBuf[absPos - |dst|];
      }
      assert b == Back(dst + chunkBuf[..n], offset);
      ghost var before := chunkBuf[..n];
      chunkBuf[n] := b;
      n := n + 1;
      assert chunkBuf[..n] == before + [b];
      assert dst + chunkBuf[..n] == (dst + before) + [b];
      i := i + 1;
      if n >= limit {
        break;
      }
    }
  }

  /** Every symbol in the trie is one of the 512. */
  ghost predicate SymbolsBelow512(t: Trie) {
    forall p :: p in t ==> -1 <= t[p] < 512
  }

  lemma {:induction false} TrieSymbols(lengths: seq<nat>, k: nat)
    requires k <= |lengths| <= 512
    ensures [] in TrieOf(lengths, k) && SymbolsBelow512(TrieOf(lengths, k))
  {
    if k != 0 {
      TrieSymbols(lengths, k - 1);
      if lengths[k - 1] != 0 {
        var code := CodeBits(lengths, k - 1);
        WithPathHolds(TrieOf(lengths, k - 1), code, |code|);
      }
    }
  }

  lemma HuffmanSymbols(lengths: seq<nat>)
    requires |lengths| <= 512
    ensures [] in HuffmanTrie(lengths) && SymbolsBelow512(HuffmanTrie(lengths))
  {
    TrieSymbols(lengths, |lengths|);
  }

  lemma {:induction false} WalkedSymbol(t: Trie, data: seq<byte>, r: Reader, p: seq<bit>)
    requires p in t && SymbolsBelow512(t)
    ensures var sym := Walked(t, data, r, p).0; sym.Some? ==> 0 <= sym.value < 512
    decreases BitsLeft(data, r)
  {
    if t[p] == -1 {
      var (b, r') := BitsRead(data, r, 1);
      RefilledKeepsBits(data, r, 1);
      if b != None && p + [BitAsPath(b.value)] in t {
        WalkedSymbol(t, data, r', p + [BitAsPath(b.value)]);
      }
    }
  }

  method ReadToken(root: TrieNode, s: BitStream, ghost nodes: Nodes, ghost repr: set<TrieNode>, ghost t: Trie)
    returns (step: Step)
    requires Represents(root, nodes, repr, t) && SymbolsBelow512(t)
    requires s.Valid() && s.bits <= 31
    modifies s`pos, s`buf, s`bits, s`queue
    ensures s.Valid() && s.bits <= 31
    ensures [] in t && Reports(TokenRead(t, s.data, old(s.View())), step, s.View())
  {
    WalkedSymbol(t, s.data, s.View(), []);
    var sym := DecodeHuff(root, s, nodes, repr, t);
    if sym == None {
      return Stop;
    }
    if sym.value < 256 {
      return Next(Literal(sym.value));
    }
    step := ReadMatch(s, sym.value - 256);
  }

  method StoreToken(dst: seq<byte>, chunkBuf: array<byte>, chunkOut: nat, token: Token, limit: nat)
    returns (n: nat)
    requires chunkOut < limit <= chunkBuf.Length
    requires token.Match? ==> token.offset > 0 && token.length > 0
    modifies chunkBuf
    ensures n <= limit
    ensures dst + chunkBuf[..n] == EmitWithin(dst + old(chunkBuf[..chunkOut]), token, |dst| + limit)
  {
    match token
    case Literal(b) =>
      ghost var before := chunkBuf[..chunkOut];
      chunkBuf[chunkOut] := b;
      n := chunkOut + 1;
      assert chunkBuf[..n] == before + [b];
      assert dst + (before + [b]) == (dst + before) + [b];
    case Match(offset, length) =>
      n := CopyMatch(dst, chunkBuf, chunkOut, offset, length, limit);
  }

  method DecodeBlock(root: TrieNode, s: BitStream, chunkBuf: array<byte>, dst: seq<byte>, limit: nat,
                     ghost nodes: Nodes, ghost repr: set<TrieNode>, ghost t: Trie)
    returns (chunkOut: nat, hung: bool)
    requires [] in t && Represents(root, nodes, repr, t) && SymbolsBelow512(t)
    requires s.Valid() && s.bits <= 31
    requires 0 < limit <= chunkBuf.Length
    modifies s`pos, s`buf, s`bits, s`queue, chunkBuf
    ensures s.Valid() && s.bits <= 31 && chunkOut <= limit
    ensures BlockDecoded(t, s.data, old(s.View()), dst, |dst| + limit) ==
      if hung then BlockHung else BlockDone(dst + chunkBuf[..chunkOut], s.View())
  {
    hide TokenRead, BlockDecoded, Represents, SymbolsBelow512;
    chunkOut, hung := 0, false;
    ghost var end := |dst| + limit;
    ghost var whole := BlockDecoded(t, s.data, s.View(), dst, end);
    assert dst + chunkBuf[..0] == dst;
    while chunkOut < limit
      invariant s.Valid() && s.bits <= 31 && chunkOut <= limit
      invariant Represents(root, nodes, repr, t)
      invariant BlockDecoded(t, s.data, s.View(), dst + chunkBuf[..chunkOut], end) == whole
      decreases limit - chunkOut
    {
      ghost var h, r := dst + chunkBuf[..chunkOut], s.View();
      TokensAreNonEmpty(t, s.data, r);
      var step := ReadToken(root, s, nodes, repr, t);
      assert dst + chunkBuf[..chunkOut] == h;
      OneTokenOn(t, s.data, r, h, end);
      if step == Stop {
        return;
      }
      if step == Forever {
        hung := true;
        return;
      }
      chunkOut := StoreToken(dst, chunkBuf, chunkOut, step.token, limit);
    }
    BlockFull(t, s.data, s.View(), dst + chunkBuf[..chunkOut], end);
  }

  lemma BlockFull(t: Trie, data: seq<byte>, r: Reader, h: seq<byte>, end: nat)
    requires [] in t && r.pos <= |data| && |h| >= end
    ensures BlockDecoded(t, data, r, h, end) == BlockDone(h, r)
  {
  }

  lemma OneTokenOn(t: Trie, data: seq<byte>, r: Reader, h: seq<byte>, end: nat)
    requires [] in t && r.pos <= |data| && |h| < end
    ensures var res := TokenRead(t, data, r);
            BlockDecoded(t, data, r, h, end) ==
              if res.Got? then BlockDecoded(t, data, res.r, EmitWithin(h, res.token, end), end)
              else if res.Stopped? then BlockDone(h, res.r)
              else BlockHung
  {
  }

  method ReadLengthTable(src: seq<byte>) returns (lengths: seq<nat>)
    requires |src| >= 256
    ensures lengths == LengthTable(src)
  {
    lengths := [];
    for i := 0 to 256
      invariant lengths == LengthTable(src)[..2 * i]
    {
      lengths := lengths + [src[i] % 16, src[i] / 16];
    }
  }

  /** One pass of the outer loop: read the table, build the trie, decode a block. */
  method DecompressBlock(source: seq<byte>, done: seq<byte>, expectedSize: nat, chunkBuf: array<byte>)
    returns (src: seq<byte>, dst: seq<byte>, hung: bool)
    requires |source| >= 256 && |done| < expectedSize && chunkBuf.Length == BLOCK
    modifies chunkBuf
    ensures |src| <= |source| - 256 && |dst| <= expectedSize
    ensures Decompressed(source, done, expectedSize) ==
      if hung then Hang else Decompressed(src, dst, expectedSize)
  {
    hide BlockDecoded, HuffmanTrie, Decompressed, LengthTable, Represents, SymbolsBelow512, LoadedWord;
    var lengths := ReadLengthTable(source);
    src, dst := source[256..], done;
    HuffmanSymbols(lengths);
    OneBlockOn(source, done, expectedSize);
    var root, nodes, repr := BuildHuffTrie(lengths);
    var s := new BitStream(src);
    var limit := if expectedSize - |dst| > BLOCK then BLOCK else expectedSize - |dst|;
    assert |dst| + limit == BlockEnd(|dst|, expectedSize);
    var chunkOut;
    chunkOut, hung := DecodeBlock(root, s, chunkBuf, dst, limit, nodes, repr, HuffmanTrie(lengths));
    if !hung {
      PostLoad(s);
      dst := dst + chunkBuf[..chunkOut];
      src := src[s.pos..];
    }
  }

  lemma OneBlockOn(source: seq<byte>, done: seq<byte>, expectedSize: nat)
    requires |source| >= 256 && |done| < expectedSize
    ensures [] in HuffmanTrie(LengthTable(source))
    ensures var data := source[256..];
            var res := BlockDecoded(HuffmanTrie(LengthTable(source)), data, Reader(0, []), done,
                                    BlockEnd(|done|, expectedSize));
            Decompressed(source, done, expectedSize) ==
              if res.BlockHung? then Hang
              else Decompressed(data[PostLoaded(data, res.r).pos..], res.out, expectedSize)
  {
    HuffmanSymbols(LengthTable(source));
  }

  /** Decompress until expectedSize bytes are there or the source is too short for another table. */
  method XpressHuffDecompress(source: seq<byte>, expectedSize: nat) returns (res: Outcome)
    ensures res == Decompressed(source, [], expectedSize)
  {
    var src, dst := source, [];
    var chunkBuf := new byte[BLOCK];
    while |dst| < expectedSize
      invariant |dst| <= expectedSize
      invariant Decompressed(src, dst, expectedSize) == Decompressed(source, [], expectedSize)
      decreases |src|
    {
      if |src| < 256 {
        break;
      }
      var hung;
      src, dst, hung := DecompressBlock(src, dst, expectedSize, chunkBuf);
      if hung {
        return Hang;
      }
    }
    res := Bytes(dst);
  }
}
