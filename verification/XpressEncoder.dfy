/** An encoder of LZXPRESS Huffman streams down to bytes (section 2.1 of MS-XCA), and that what it writes is
    decompressed to what its tokens expand to. */
module XpressEncoder {
  import opened Bits
  import opened XpressStream
  import opened CanonicalCodes
  import opened Lz77
  import opened XpressTokens
  import opened XpressDecompress

  // ---- Tokens as bits and bytes ------------------------------------------------------------------

  /** The number of bits below the leading one of an offset. */
  function OffsetBits(offset: nat): (n: nat)
    requires offset >= 1
    ensures Pow2(n) <= offset < Pow2(n + 1)
  {
    if offset == 1 then 0 else 1 + OffsetBits(offset / 2)
  }

  /** A literal, or a match of at least 3 bytes: offset bits in the high nibble, length in the low one, 15 for a
      length that follows in bytes of its own. */
  function SymbolOf(token: Token): nat {
    match token
    case Literal(b) => b
    case Match(offset, length) =>
      if offset < 1 || length < 3 then 0
      else 256 + 16 * OffsetBits(offset) + if length < 18 then length - 3 else 15
  }

  /** The bits of an offset below its leading one, most significant first. */
  function LowBits(token: Token): seq<bit> {
    match token
    case Literal(_) => []
    case Match(offset, length) => if offset < 1 then [] else BitsOf(offset - Pow2(OffsetBits(offset)), OffsetBits(offset))
  }

  /** A long length: one byte, or 255 and two bytes, the low one first. */
  function LengthBytes(token: Token): seq<byte> {
    match token
    case Literal(_) => []
    case Match(_, length) =>
      if length < 18 then []
      else if length - 18 < 255 then [length - 18]
      else [255, (length - 3) % 256, (length - 3) / 256 % 256]
  }

  /** The table has a code for the token, and the fields hold it. */
  predicate TokenFits(lengths: seq<nat>, token: Token) {
    && (token.Match? ==> 1 <= token.offset < 0x1_0000 && 3 <= token.length < 0x1_0003)
    && Used(lengths, SymbolOf(token))
  }

  predicate TokensFit(lengths: seq<nat>, tokens: seq<Token>) {
    forall k :: 0 <= k < |tokens| ==> TokenFits(lengths, tokens[k])
  }

  function Codeword(lengths: seq<nat>, token: Token): (q: seq<bit>)
    requires TokenFits(lengths, token)
    ensures |q| == lengths[SymbolOf(token)]
  {
    CodeBits(lengths, SymbolOf(token))
  }

  function TokenBits(lengths: seq<nat>, token: Token): seq<bit>
    requires TokenFits(lengths, token)
  {
    Codeword(lengths, token) + LowBits(token)
  }

  function TokensBits(lengths: seq<nat>, tokens: seq<Token>): seq<bit>
    requires TokensFit(lengths, tokens)
  {
    if tokens == [] then [] else TokenBits(lengths, tokens[0]) + TokensBits(lengths, tokens[1..])
  }

  /** Sixteen bits as a word w: w % 256, then w / 256. */
  function WordBytes(q: seq<bit>): (b: seq<byte>)
    requires |q| == 16
    ensures |b| == 2
  {
    NatOfBound(q);
    SixteenBits();
    [NatOf(q) % 256, NatOf(q) / 256]
  }

  /** Two words are written ahead. After `done` bits the next word is written as soon as fewer than 16 bits of
      those written are left; words so far, and the bytes. */
  function Ahead(q: seq<bit>, done: nat, words: nat): (res: (nat, seq<byte>))
    requires done <= 16 * words && (16 * words + 16 <= |q| || done + 16 <= 16 * words)
    ensures done + 16 <= 16 * res.0 && (16 * words <= |q| ==> 16 * res.0 <= |q|)
  {
    if done + 16 <= 16 * words then (words, []) else (words + 1, WordBytes(q[16 * words..16 * words + 16]))
  }

  /** The bytes of a token from bit `done` on: the word that becomes due with its codeword, the length bytes of a long
      match, and the word that becomes due with its offset. The words so far come with them. */
  function TokenBytes(lengths: seq<nat>, token: Token, q: seq<bit>, done: nat, words: nat): (res: (nat, seq<byte>))
    requires TokenFits(lengths, token) && MaxLen(lengths) <= 15
    requires done + 16 <= 16 * words <= |q| && done + |TokenBits(lengths, token)| + 32 <= |q|
    ensures done + |TokenBits(lengths, token)| + 16 <= 16 * res.0 <= |q|
  {
    OffsetIsShort(lengths, token);
    var n, m := |Codeword(lengths, token)|, |LowBits(token)|;
    var (words1, b1) := Ahead(q, done + n, words);
    var (words2, b2) := Ahead(q, done + n + m, words1);
    (words2, b1 + LengthBytes(token) + b2)
  }

  /** The bytes of the tokens from bit `done` on. q holds all bits of the block. */
  function TokensBytes(lengths: seq<nat>, tokens: seq<Token>, q: seq<bit>, done: nat, words: nat): seq<byte>
    requires TokensFit(lengths, tokens) && MaxLen(lengths) <= 15
    requires done + 16 <= 16 * words <= |q| && done + |TokensBits(lengths, tokens)| + 32 <= |q|
    decreases |tokens|
  {
    if tokens == [] then []
    else
      assert TokenFits(lengths, tokens[0]);
      var (words', b) := TokenBytes(lengths, tokens[0], q, done, words);
      b + TokensBytes(lengths, tokens[1..], q, done + |TokenBits(lengths, tokens[0])|, words')
  }

  lemma {:induction false} OffsetBitsBound(offset: nat, k: nat)
    requires 1 <= offset < Pow2(k)
    ensures OffsetBits(offset) < k
  {
    if k <= OffsetBits(offset) {
      Pow2Monotone(k, OffsetBits(offset));
    }
  }

  lemma OffsetIsShort(lengths: seq<nat>, token: Token)
    requires TokenFits(lengths, token) && MaxLen(lengths) <= 15
    ensures 1 <= |Codeword(lengths, token)| <= 15 && |LowBits(token)| <= 15
  {
    if token.Match? {
      SixteenBits();
      OffsetBitsBound(token.offset, 16);
    }
  }

  // ---- Reading words back --------------------------------------------------------------------------

  /** Bit j of a loaded word is bit 7 - j of its second byte for j below 8, and of its first byte after that. */
  lemma WordBitsAt(data: seq<byte>, pos: nat, j: nat)
    requires pos + 1 < |data| && j < 16
    ensures WordBits(data, pos)[j] == if j < 8 then data[pos + 1] / Pow2(7 - j) % 2 else data[pos] / Pow2(15 - j) % 2
  {
    hide WordBits, BitsOf, Pow2;
    WordInHalves(data, pos);
    if j < 8 {
      BitsOfAt(data[pos + 1], 8, j);
    } else {
      BitsOfAt(data[pos], 8, j - 8);
    }
  }

  lemma WordInHalves(data: seq<byte>, pos: nat)
    requires pos + 1 < |data|
    ensures WordBits(data, pos) == BitsOf(data[pos + 1], 8) + BitsOf(data[pos], 8)
  {
    hide NatOf, BitsOf, Pow2;
    var high, low := BitsOf(data[pos + 1], 8), BitsOf(data[pos], 8);
    SixteenBits();
    NatOfBitsOf(data[pos + 1], 8);
    NatOfBitsOf(data[pos], 8);
    NatOfConcat(high, low);
    BitsOfNatOf(high + low);
  }

  lemma WordReadBack(q: seq<bit>, data: seq<byte>, pos: nat)
    requires |q| == 16 && pos + 2 <= |data| && data[pos..pos + 2] == WordBytes(q)
    ensures WordBits(data, pos) == q
  {
    NatOfBound(q);
    SixteenBits();
    assert data[pos] == data[pos..pos + 2][0] && data[pos + 1] == data[pos..pos + 2][1];
    BitsOfNatOf(q);
  }

  /** The reader after `done` bits of q, with `words` words of it loaded. */
  function ReaderAt(q: seq<bit>, pos: nat, done: nat, words: nat): (r: Reader)
    requires done <= 16 * words <= |q|
    ensures r.pos == pos
  {
    Reader(pos, q[done..16 * words])
  }

  /** Taking n bits takes the word that is due, which stands where the reader is. */
  lemma SkipReads(data: seq<byte>, q: seq<bit>, pos: nat, done: nat, n: nat, words: nat)
    requires done + n <= 16 * words <= |q| && done + n + 32 <= |q|
    requires var b := Ahead(q, done + n, words).1; pos + |b| <= |data| && data[pos..pos + |b|] == b
    ensures var (words', b) := Ahead(q, done + n, words);
            && done + n <= 16 * words' <= |q|
            && RefSkip(data, ReaderAt(q, pos, done, words), n) == Some(ReaderAt(q, pos + |b|, done + n, words'))
  {
    hide WordBits, WordBytes;
    assert q[done..16 * words][n..] == q[done + n..16 * words];
    if done + n + 16 > 16 * words {
      WordReadBack(q[16 * words..16 * words + 16], data, pos);
      assert q[done + n..16 * words] + q[16 * words..16 * words + 16] == q[done + n..16 * (words + 1)];
    }
  }

  lemma LengthReads(data: seq<byte>, pos: nat, token: Token)
    requires token.Match? && 18 <= token.length < 0x1_0003
    requires var b := LengthBytes(token); pos + |b| <= |data| && data[pos..pos + |b|] == b
    ensures RefLength(data, pos) == Some((token.length, pos + |LengthBytes(token)|))
  {
    var b := LengthBytes(token);
    assert forall k :: 0 <= k < |b| ==> data[pos + k] == data[pos..pos + |b|][k] == b[k];
  }

  lemma OffsetReads(token: Token, q: seq<bit>)
    requires token.Match? && 1 <= token.offset && q == LowBits(token)
    ensures |q| == OffsetBits(token.offset) && Pow2(|q|) + NatOf(q) == token.offset
  {
    var n := OffsetBits(token.offset);
    assert Pow2(n + 1) == 2 * Pow2(n);
    NatOfBitsOf(token.offset - Pow2(n), n);
  }

  /** The symbol whose codeword comes next is the only one. */
  lemma SymbolReads(lengths: seq<nat>, q: seq<bit>, s: nat)
    requires Kraft(lengths) && Used(lengths, s) && CodeBits(lengths, s) <= q
    ensures RefSymbol(lengths, q) == Some(s)
  {
    hide CodeBits, Kraft;
    KraftIsPrefixFree(lengths);
    assert NextSymbol(lengths, q, s);
    var t := RefSymbol(lengths, q).value;
    assert NextSymbol(lengths, q, t);
    Comparable(CodeBits(lengths, s), CodeBits(lengths, t), q);
  }

  lemma Comparable(a: seq<bit>, b: seq<bit>, q: seq<bit>)
    requires a <= q && b <= q
    ensures a <= b || b <= a
  {
    assert a == q[..|a|] && b == q[..|b|];
  }

  /** The operands of a match behind its symbol: length bytes, and then the offset bits. */
  lemma MatchReads(token: Token, data: seq<byte>, q: seq<bit>, pos: nat, done: nat, words: nat)
    requires token.Match? && 1 <= token.offset && 3 <= token.length < 0x1_0003 && |LowBits(token)| <= 15
    requires 16 <= 16 * words - done && 16 * words <= |q| && done + |LowBits(token)| + 32 <= |q|
    requires q[done..done + |LowBits(token)|] == LowBits(token)
    requires var (len, b) := (LengthBytes(token), Ahead(q, done + |LowBits(token)|, words).1);
             && pos + |len| + |b| <= |data| && data[pos..pos + |len|] == len
             && data[pos + |len|..pos + |len| + |b|] == b
    ensures var (len, m) := (LengthBytes(token), |LowBits(token)|);
            var (words', b) := Ahead(q, done + m, words);
            && 16 <= 16 * words' - (done + m) && 16 * words' <= |q|
            && RefMatch(data, ReaderAt(q, pos, done, words), SymbolOf(token) - 256) ==
               Some((token, ReaderAt(q, pos + |len| + |b|, done + m, words')))
  {
    hide RefSkip, RefLength, WordBytes, LowBits, LengthBytes, OffsetBits, SymbolOf, Pow2, NatOf, Ahead;
    var low, len := LowBits(token), LengthBytes(token);
    SkipReads(data, q, pos + |len|, done, |low|, words);
    assert q[done..16 * words][..|low|] == low;
    OffsetReads(token, low);
    MatchSymbol(token);
    if token.length >= 18 {
      LengthReads(data, pos, token);
    } else {
      ShortLength(token);
    }
  }

  /** One token is read back, from the words and length bytes written for it. */
  lemma TokenReads(lengths: seq<nat>, token: Token, data: seq<byte>, q: seq<bit>, pos: nat, done: nat, words: nat)
    requires Kraft(lengths) && MaxLen(lengths) <= 15 && TokenFits(lengths, token)
    requires done + 16 <= 16 * words <= |q| && done + |TokenBits(lengths, token)| + 32 <= |q|
    requires q[done..done + |TokenBits(lengths, token)|] == TokenBits(lengths, token)
    requires var b := TokenBytes(lengths, token, q, done, words).1; pos + |b| <= |data| && data[pos..pos + |b|] == b
    ensures var (words', b) := TokenBytes(lengths, token, q, done, words);
            RefToken(lengths, data, ReaderAt(q, pos, done, words)) ==
              Some((token, ReaderAt(q, pos + |b|, done + |TokenBits(lengths, token)|, words')))
  {
    hide RefSkip, RefSymbol, RefMatch, Kraft, CodeBits, WordBytes, LowBits, LengthBytes, SymbolOf, Ahead, MaxLen;
    var code, low, s := Codeword(lengths, token), LowBits(token), SymbolOf(token);
    var n, m := |code|, |low|;
    OffsetIsShort(lengths, token);
    var (words1, b1) := Ahead(q, done + n, words);
    var (words2, b2) := Ahead(q, done + n + m, words1);
    ThreeSlices(data, pos, b1, LengthBytes(token), b2);
    TwoSlices(q, done, code, low);
    assert q[done..16 * words][..n] == code;
    SymbolReads(lengths, q[done..16 * words], s);
    SkipReads(data, q, pos, done, n, words);
    SymbolKind(token);
    if token.Match? {
      MatchReads(token, data, q, pos + |b1|, done + n, words1);
    } else {
      LiteralHasNoMore(token);
      NothingDue(q, done + n, words1);
    }
  }

  lemma SymbolKind(token: Token)
    requires token.Match? ==> token.offset >= 1 && token.length >= 3
    ensures if token.Match? then SymbolOf(token) >= 256 else SymbolOf(token) == token.b < 256
  {
  }

  lemma NothingDue(q: seq<bit>, done: nat, words: nat)
    requires done + 16 <= 16 * words
    ensures Ahead(q, done, words) == (words, [])
  {
  }

  lemma LiteralHasNoMore(token: Token)
    requires token.Literal?
    ensures LowBits(token) == [] && LengthBytes(token) == []
  {
  }

  lemma ShortLength(token: Token)
    requires token.Match? && token.length < 18
    ensures LengthBytes(token) == []
  {
  }

  lemma MatchSymbol(token: Token)
    requires token.Match? && token.offset >= 1 && token.length >= 3
    ensures var code := SymbolOf(token) - 256;
            && code >= 0 && code / 16 == OffsetBits(token.offset)
            && code % 16 == if token.length < 18 then token.length - 3 else 15
  {
    DivUnique(SymbolOf(token) - 256, 16, OffsetBits(token.offset), if token.length < 18 then token.length - 3 else 15);
  }

  lemma ThreeSlices(s: seq<byte>, at: nat, a: seq<byte>, b: seq<byte>, c: seq<byte>)
    requires at + |a + b + c| <= |s| && s[at..at + |a + b + c|] == a + b + c
    ensures s[at..at + |a|] == a && s[at + |a|..at + |a| + |b|] == b
    ensures s[at + |a| + |b|..at + |a| + |b| + |c|] == c
  {
    assert a + b + c == a + (b + c);
    SliceSplit(s, at, a, b + c);
    SliceSplit(s, at + |a|, b, c);
  }

  lemma TwoSlices(s: seq<bit>, at: nat, a: seq<bit>, b: seq<bit>)
    requires at + |a + b| <= |s| && s[at..at + |a + b|] == a + b
    ensures s[at..at + |a|] == a && s[at + |a|..at + |a| + |b|] == b
  {
    assert s[at..at + |a|] == s[at..at + |a + b|][..|a|];
    assert s[at + |a|..at + |a| + |b|] == s[at..at + |a + b|][|a|..];
  }

  // ---- Blocks ----------------------------------------------------------------------------------------

  /** A block: its table of 512 lengths, its tokens, and whatever bits stand behind them, an end symbol say. */
  datatype Block = Block(lengths: seq<nat>, tokens: seq<Token>, tail: seq<bit>)

  predicate BlockFits(b: Block) {
    && |b.lengths| == 512 && (forall s :: 0 <= s < 512 ==> b.lengths[s] <= 15) && Kraft(b.lengths)
    && MaxLen(b.lengths) <= 15 && TokensFit(b.lengths, b.tokens)
  }

  /** The lengths of symbols 2i and 2i + 1 in byte i, the first in its low nibble. */
  function TableBytes(lengths: seq<nat>): (b: seq<byte>)
    requires |lengths| == 512 && forall s :: 0 <= s < 512 ==> lengths[s] <= 15
    ensures |b| == 256
  {
    seq(256, i requires 0 <= i < 256 => lengths[2 * i] + 16 * lengths[2 * i + 1])
  }

  /** The bits of the tokens, those behind them, and zeros. */
  function BlockBits(b: Block): seq<bit>
    requires BlockFits(b)
  {
    TokensBits(b.lengths, b.tokens) + b.tail + seq(32, _ => 0)
  }

  /** The table, two words, and the tokens. */
  function BlockBytes(b: Block): (s: seq<byte>)
    requires BlockFits(b)
    ensures |s| >= 260
  {
    var q := BlockBits(b);
    TableBytes(b.lengths) + WordBytes(q[0..16]) + WordBytes(q[16..32]) + TokensBytes(b.lengths, b.tokens, q, 0, 2)
  }

  function StreamBytes(blocks: seq<Block>): seq<byte>
    requires forall k :: 0 <= k < |blocks| ==> BlockFits(blocks[k])
  {
    if blocks == [] then [] else BlockBytes(blocks[0]) + StreamBytes(blocks[1..])
  }

  function StreamTokens(blocks: seq<Block>): seq<Token> {
    if blocks == [] then [] else blocks[0].tokens + StreamTokens(blocks[1..])
  }

  /** Every block but the last expands to 65536 bytes, the last to the rest. */
  predicate Covers(blocks: seq<Block>, h: seq<byte>, size: nat)
    decreases |blocks|
  {
    if |h| >= size then blocks == [] && |h| == size
    else
      && blocks != []
      && |Expand(h, blocks[0].tokens)| == (if size - |h| > 0x1_0000 then |h| + 0x1_0000 else size)
      && Covers(blocks[1..], Expand(h, blocks[0].tokens), size)
  }

  lemma TableReadBack(lengths: seq<nat>, rest: seq<byte>)
    requires |lengths| == 512 && forall s :: 0 <= s < 512 ==> lengths[s] <= 15
    ensures LengthTable(TableBytes(lengths) + rest) == lengths
  {
    var src := TableBytes(lengths) + rest;
    forall s | 0 <= s < 512 ensures LengthTable(src)[s] == lengths[s] {
      var i := s / 2;
      assert src[i] == lengths[2 * i] + 16 * lengths[2 * i + 1];
    }
  }

  lemma {:induction false} ExpandGrows(h: seq<byte>, tokens: seq<Token>)
    ensures |h| <= |Expand(h, tokens)|
    decreases |tokens|
  {
    if tokens != [] {
      ExpandGrows(Emit(h, tokens[0]), tokens[1..]);
    }
  }

  lemma EmitAdds(lengths: seq<nat>, token: Token, h: seq<byte>)
    requires TokenFits(lengths, token)
    ensures |h| < |Emit(h, token)|
  {
  }

  /** The bits of the first token, and those of the others behind them. */
  lemma FirstBits(lengths: seq<nat>, tokens: seq<Token>, q: seq<bit>, done: nat)
    requires TokensFit(lengths, tokens) && tokens != []
    requires done + |TokensBits(lengths, tokens)| <= |q|
    requires q[done..done + |TokensBits(lengths, tokens)|] == TokensBits(lengths, tokens)
    ensures TokenFits(lengths, tokens[0]) && TokensFit(lengths, tokens[1..])
    ensures var n, m := |TokenBits(lengths, tokens[0])|, |TokensBits(lengths, tokens[1..])|;
            && |TokensBits(lengths, tokens)| == n + m
            && q[done..done + n] == TokenBits(lengths, tokens[0]) && q[done + n..done + n + m] == TokensBits(lengths, tokens[1..])
  {
    hide TokenBits, TokenFits;
    assert TokenFits(lengths, tokens[0]);
    TwoSlices(q, done, TokenBits(lengths, tokens[0]), TokensBits(lengths, tokens[1..]));
  }

  /** The tokens of a block are read back, and the reader ends behind their bytes. */
  lemma {:induction false} TokensRead(lengths: seq<nat>, tokens: seq<Token>, data: seq<byte>, q: seq<bit>, pos: nat,
                                      done: nat, words: nat, h: seq<byte>)
    requires Kraft(lengths) && MaxLen(lengths) <= 15 && TokensFit(lengths, tokens)
    requires done + 16 <= 16 * words <= |q| && done + |TokensBits(lengths, tokens)| + 32 <= |q|
    requires q[done..done + |TokensBits(lengths, tokens)|] == TokensBits(lengths, tokens)
    requires var b := TokensBytes(lengths, tokens, q, done, words); pos + |b| <= |data| && data[pos..pos + |b|] == b
    ensures var res := RefBlock(lengths, data, ReaderAt(q, pos, done, words), h, |Expand(h, tokens)|);
            && res.Some? && res.value.0 == tokens
            && res.value.1.pos == pos + |TokensBytes(lengths, tokens, q, done, words)|
    decreases |tokens|
  {
    hide RefToken, Kraft, TokenBits, TokensBits, TokenFits, TokenBytes, Emit, ReaderAt;
    if tokens != [] {
      FirstBits(lengths, tokens, q, done);
      var token := tokens[0];
      var (words', b) := TokenBytes(lengths, token, q, done, words);
      var done' := done + |TokenBits(lengths, token)|;
      SliceSplit(data, pos, b, TokensBytes(lengths, tokens[1..], q, done', words'));
      TokenReads(lengths, token, data, q, pos, done, words);
      EmitAdds(lengths, token, h);
      ExpandGrows(Emit(h, token), tokens[1..]);
      TokensRead(lengths, tokens[1..], data, q, pos + |b|, done', words', Emit(h, token));
    }
  }

  /** A block is read back: its table, its first two words, and its tokens. */
  lemma BlockReads(b: Block, rest: seq<byte>, h: seq<byte>)
    requires BlockFits(b)
    ensures var src := BlockBytes(b) + rest; var data := src[256..];
            && LengthTable(src) == b.lengths && RefStart(data).Some?
            && var res := RefBlock(b.lengths, data, RefStart(data).value, h, |Expand(h, b.tokens)|);
               && res.Some? && res.value.0 == b.tokens
               && res.value.1.pos == |BlockBytes(b)| - 256 && data[res.value.1.pos..] == rest
  {
    hide TableBytes, LengthTable, WordBytes, TokensBytes, TokensBits, RefBlock, WordBits, Kraft;
    var q := BlockBits(b);
    var src := BlockBytes(b) + rest;
    var data, table := src[256..], TableBytes(b.lengths);
    var w0, w1, t := WordBytes(q[0..16]), WordBytes(q[16..32]), TokensBytes(b.lengths, b.tokens, q, 0, 2);
    assert src == table + (w0 + w1 + t + rest);
    TableReadBack(b.lengths, w0 + w1 + t + rest);
    assert data == w0 + w1 + t + rest;
    assert data[0..2] == w0 && data[2..4] == w1 && data[4..4 + |t|] == t && data[4 + |t|..] == rest;
    WordReadBack(q[0..16], data, 0);
    WordReadBack(q[16..32], data, 2);
    assert q[0..16] + q[16..32] == q[0..32];
    assert RefStart(data) == Some(ReaderAt(q, 4, 0, 2));
    assert q[0..0 + |TokensBits(b.lengths, b.tokens)|] == TokensBits(b.lengths, b.tokens);
    TokensRead(b.lengths, b.tokens, data, q, 4, 0, 2, h);
  }

  /** The reference reads back the tokens of every stream that is written, block by block. */
  lemma {:induction false} StreamReads(blocks: seq<Block>, behind: seq<byte>, h: seq<byte>, size: nat)
    requires (forall k :: 0 <= k < |blocks| ==> BlockFits(blocks[k])) && Covers(blocks, h, size)
    ensures RefTokens(StreamBytes(blocks) + behind, h, size) == Some(StreamTokens(blocks))
    decreases |blocks|
  {
    hide BlockBytes, BlockFits, LengthTable, RefStart, RefBlock, Expand;
    if |h| < size {
      var b, rest := blocks[0], StreamBytes(blocks[1..]) + behind;
      var src := StreamBytes(blocks) + behind;
      assert src == BlockBytes(b) + rest;
      assert BlockFits(b);
      BlockReads(b, rest, h);
      TableIsKraft(b);
      StreamReads(blocks[1..], behind, Expand(h, b.tokens), size);
    }
  }

  lemma TableIsKraft(b: Block)
    requires BlockFits(b)
    ensures Kraft(b.lengths)
  {
  }

  /** Every written stream is decompressed to what its tokens expand to, byte for byte. */
  lemma WrittenStreamDecompresses(blocks: seq<Block>, behind: seq<byte>, size: nat)
    requires (forall k :: 0 <= k < |blocks| ==> BlockFits(blocks[k])) && Covers(blocks, [], size)
    ensures Decompressed(StreamBytes(blocks) + behind, [], size) == Bytes(Expand([], StreamTokens(blocks)))
    ensures |Expand([], StreamTokens(blocks))| == size
  {
    hide Decompressed, RefTokens, StreamBytes, BlockFits, Covers;
    StreamReads(blocks, behind, [], size);
    DecompressesReferenceTokens(StreamBytes(blocks) + behind, [], size);
  }
}
