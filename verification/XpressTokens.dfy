/** One token of an LZXPRESS Huffman stream, read by the lazy reader and by the eager
    reference decoder of section 2.2.4 of MS-XCA, and why they agree. */
module XpressTokens {
  import opened Bits
  import opened XpressStream
  import opened CanonicalCodes
  import opened HuffTrie
  import opened Lz77

  // ---- The lazy reader ---------------------------------------------------------------

  /** Stopped: the stream ran out or left the trie. Hung: the refill loop of a long match can never end. */
  datatype TokenResult = Got(token: Token, r: Reader) | Stopped(r: Reader) | Hung(r: Reader)

  function PostLoaded(data: seq<byte>, r: Reader): Reader {
    if |r.queue| < 16 then LoadedWord(data, r) else r
  }

  /** Load words until n bits are there; short of them only when no whole word is left. */
  function FilledWords(data: seq<byte>, r: Reader, n: nat): (f: Reader)
    ensures r.pos <= |data| ==> f.pos <= |data|
    decreases |data| - r.pos
  {
    if |r.queue| < n && r.pos + 1 < |data| then FilledWords(data, LoadedWord(data, r), n) else r
  }

  /** The length bytes of a long match: one byte, or 255 and a word. None when they are cut off;
      the position is where reading stopped. */
  function LongLength(data: seq<byte>, pos: nat): (Option<nat>, nat) {
    if pos >= |data| then (None, pos)
    else if data[pos] != 255 then (Some(data[pos] as nat + 15 + 3), pos + 1)
    else if pos + 2 >= |data| then (None, pos + 1)
    else (Some(Word16(data, pos + 1) + 3), pos + 3)
  }

  function MatchRead(data: seq<byte>, r: Reader, code: nat): TokenResult {
    var numOffBits, mli := code / 16, code % 16;
    if mli != 15 then
      var (low, r2) := BitsRead(data, r, numOffBits);
      if low == None then Stopped(r2) else Got(Match(Pow2(numOffBits) + low.value, mli + 3), r2)
    else
      var f := FilledWords(data, PostLoaded(data, r), numOffBits);
      if |f.queue| < numOffBits then Hung(f)
      else
        var (length, pos) := LongLength(data, f.pos);
        if length == None then Stopped(Reader(pos, f.queue))
        else
          Got(Match(Pow2(numOffBits) + NatOf(f.queue[..numOffBits]), length.value),
              PostLoaded(data, Reader(pos, f.queue[numOffBits..])))
  }

  function TokenRead(t: Trie, data: seq<byte>, r: Reader): (res: TokenResult)
    requires [] in t
    ensures r.pos <= |data| ==> res.r.pos <= |data|
  {
    var (sym, r1) := Walked(t, data, r, []);
    TokenOfSymbol(data, sym, r1)
  }

  function TokenOfSymbol(data: seq<byte>, sym: Option<int>, r: Reader): TokenResult {
    if sym == None || sym.value < 0 then Stopped(r)
    else if sym.value < 256 then Got(Literal(sym.value), r)
    else MatchRead(data, r, sym.value - 256)
  }

  // ---- The eager reference reader ------------------------------------------------------

  /** Two words are loaded before the first symbol. */
  function RefStart(data: seq<byte>): Option<Reader> {
    if |data| < 4 then None else Some(Reader(4, WordBits(data, 0) + WordBits(data, 2)))
  }

  /** Consume n bits and load a word at once when fewer than 16 are left; None past the end of the source. */
  function RefSkip(data: seq<byte>, r: Reader, n: nat): Option<Reader>
    requires n <= |r.queue|
  {
    if |r.queue| - n >= 16 then Some(Reader(r.pos, r.queue[n..]))
    else if r.pos + 1 < |data| then Some(Reader(r.pos + 2, r.queue[n..] + WordBits(data, r.pos)))
    else None
  }

  ghost predicate NextSymbol(lengths: seq<nat>, q: seq<bit>, s: int) {
    Used(lengths, s) && CodeBits(lengths, s) <= q
  }

  /** The extra length of section 2.2.4: a byte, or 255 and a word that must be at least 15. */
  function RefLength(data: seq<byte>, pos: nat): Option<(nat, nat)> {
    if pos >= |data| then None
    else if data[pos] != 255 then Some((data[pos] as nat + 15 + 3, pos + 1))
    else if pos + 2 >= |data| || Word16(data, pos + 1) < 15 then None
    else Some((Word16(data, pos + 1) - 15 + 15 + 3, pos + 3))
  }

  ghost function RefMatch(data: seq<byte>, r: Reader, code: nat): Option<(Token, Reader)> {
    var numOffBits, mli := code / 16, code % 16;
    var long := if mli == 15 then RefLength(data, r.pos) else Some((mli + 3, r.pos));
    if long == None || |r.queue| < numOffBits then None
    else
      var low := NatOf(r.queue[..numOffBits]);
      var r2 := RefSkip(data, Reader(long.value.1, r.queue), numOffBits);
      if r2 == None then None
      else Some((Match(Pow2(numOffBits) + low, long.value.0), r2.value))
  }

  /** The symbol whose codeword comes next. */
  ghost function RefSymbol(lengths: seq<nat>, q: seq<bit>): (sym: Option<nat>)
    ensures sym.Some? ==> NextSymbol(lengths, q, sym.value)
  {
    if exists s: nat :: NextSymbol(lengths, q, s) then
      var s: nat :| NextSymbol(lengths, q, s);
      Some(s)
    else None
  }

  ghost function RefToken(lengths: seq<nat>, data: seq<byte>, r: Reader): Option<(Token, Reader)> {
    var sym := RefSymbol(lengths, r.queue);
    if sym == None then None
    else
      var r1 := RefSkip(data, r, lengths[sym.value]);
      if r1 == None then None else RefTokenOfSymbol(data, sym.value, r1.value)
  }

  ghost function RefTokenOfSymbol(data: seq<byte>, s: nat, r: Reader): Option<(Token, Reader)> {
    if s < 256 then Some((Literal(s), r)) else RefMatch(data, r, s - 256)
  }

  // ---- The simulation --------------------------------------------------------------------

  /** The lazy reader has consumed the same bits as the reference. It lags by no word when it
      holds 16 bits or more and by exactly one word otherwise. */
  ghost predicate InStep(data: seq<byte>, lazy: Reader, eager: Reader) {
    && 16 <= |eager.queue| <= 31
    && if |lazy.queue| >= 16 then eager == lazy
       else lazy.pos + 1 < |data| && eager == LoadedWord(data, lazy)
  }

  /** In step, or before the first symbol, where the reference is two words ahead. */
  ghost predicate InStepOrFresh(data: seq<byte>, lazy: Reader, eager: Reader) {
    InStep(data, lazy, eager) || (lazy == Reader(0, []) && RefStart(data) == Some(eager))
  }

  /** Taking n bits, with at least one taken, keeps the readers in step. */
  lemma TakeKeepsStep(data: seq<byte>, lazy: Reader, eager: Reader, n: nat)
    requires InStepOrFresh(data, lazy, eager) && n <= 15
    requires n > 0 || InStep(data, lazy, eager)
    requires RefSkip(data, eager, n).Some?
    ensures var f := Refilled(data, lazy, n);
            && n <= |f.queue| && f.queue[..n] == eager.queue[..n]
            && InStep(data, Reader(f.pos, f.queue[n..]), RefSkip(data, eager, n).value)
  {
    var f := Refilled(data, lazy, n);
    if |lazy.queue| >= n {
      assert f == lazy;
      if |lazy.queue| < 16 {
        assert eager.queue[n..] == lazy.queue[n..] + WordBits(data, lazy.pos);
      }
    } else {
      var l := LoadedWord(data, lazy);
      assert |l.queue| >= n && f == Refilled(data, l, n) == l;
      if !InStep(data, lazy, eager) {
        assert f.queue == WordBits(data, 0);
        assert eager.queue[n..] == f.queue[n..] + WordBits(data, 2);
      }
    }
  }

  lemma SymbolInStep(lengths: seq<nat>, data: seq<byte>, lazy: Reader, eager: Reader, s: nat)
    requires Kraft(lengths) && MaxLen(lengths) <= 15
    requires InStepOrFresh(data, lazy, eager)
    requires NextSymbol(lengths, eager.queue, s) && RefSkip(data, eager, lengths[s]).Some?
    ensures [] in HuffmanTrie(lengths)
    ensures var (sym, r1) := Walked(HuffmanTrie(lengths), data, lazy, []);
            sym == Some(s) && InStep(data, r1, RefSkip(data, eager, lengths[s]).value)
  {
    TakeKeepsStep(data, lazy, eager, lengths[s]);
    assert CodeBits(lengths, s) == Refilled(data, lazy, lengths[s]).queue[..lengths[s]];
    DecodesCodeword(lengths, data, lazy, s);
  }

  lemma MatchInStep(data: seq<byte>, lazy: Reader, eager: Reader, code: nat)
    requires InStep(data, lazy, eager) && code < 256
    requires RefMatch(data, eager, code).Some?
    ensures var res := MatchRead(data, lazy, code);
            var (token, eager') := RefMatch(data, eager, code).value;
            res.Got? && res.token == token && InStep(data, res.r, eager')
  {
    var numOffBits := code / 16;
    if code % 16 != 15 {
      TakeKeepsStep(data, lazy, eager, numOffBits);
    } else {
      assert PostLoaded(data, lazy) == eager;
      assert FilledWords(data, eager, numOffBits) == eager;
    }
  }

  /** Whatever token the reference decodes, the lazy reader decodes the same one and stays in step. */
  lemma TokenInStep(lengths: seq<nat>, data: seq<byte>, lazy: Reader, eager: Reader)
    requires Kraft(lengths) && MaxLen(lengths) <= 15 && |lengths| <= 512
    requires InStepOrFresh(data, lazy, eager)
    requires RefToken(lengths, data, eager).Some?
    ensures [] in HuffmanTrie(lengths)
    ensures var res := TokenRead(HuffmanTrie(lengths), data, lazy);
            var (token, eager') := RefToken(lengths, data, eager).value;
            res.Got? && res.token == token && InStep(data, res.r, eager')
  {
    var s := RefSymbol(lengths, eager.queue).value;
    SymbolInStep(lengths, data, lazy, eager, s);
    var (_, r1) := Walked(HuffmanTrie(lengths), data, lazy, []);
    OperandsInStep(data, r1, RefSkip(data, eager, lengths[s]).value, s);
  }

  lemma OperandsInStep(data: seq<byte>, lazy: Reader, eager: Reader, s: nat)
    requires InStep(data, lazy, eager) && s < 512
    requires RefTokenOfSymbol(data, s, eager).Some?
    ensures var res := TokenOfSymbol(data, Some(s), lazy);
            var (token, eager') := RefTokenOfSymbol(data, s, eager).value;
            res.Got? && res.token == token && InStep(data, res.r, eager')
  {
    if s >= 256 {
      MatchInStep(data, lazy, eager, s - 256);
    }
  }

  /** After the last symbol of a block, the closing load puts the lazy reader exactly where the
      reference is, so the next table is read from the same byte. */
  lemma BlockEndsAligned(data: seq<byte>, lazy: Reader, eager: Reader)
    requires InStep(data, lazy, eager)
    ensures PostLoaded(data, lazy) == eager
  {
  }
}
