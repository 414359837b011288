/** Which streams the LZXPRESS Huffman decompressor never ends on: its steps, and the states in which a
    refill loop spins. */
module XpressHang {
  import opened Bits
  import opened XpressStream
  import opened CanonicalCodes
  import opened HuffTrie
  import opened Lz77
  import opened XpressTokens
  import opened XpressDecompress

  /** In front of a table, or of a symbol of a block; h is the output so far. */
  datatype State = AtTable(src: seq<byte>, h: seq<byte>) | AtSymbol(t: Trie, data: seq<byte>, r: Reader, h: seq<byte>, end: nat)

  predicate Valid(s: State, size: nat) {
    |s.h| <= size && (s.AtSymbol? ==> [] in s.t && s.r.pos <= |s.data| && |s.h| <= s.end <= size)
  }

  predicate Ended(s: State, size: nat) {
    s.AtTable? && (|s.h| >= size || |s.src| < 256)
  }

  /** The next symbol is a long match, and the whole words left hold too few bits for its offset. */
  predicate Starved(s: State)
    requires s.AtSymbol? ==> [] in s.t
  {
    s.AtSymbol? && |s.h| < s.end &&
    var (sym, r) := Walked(s.t, s.data, s.r, []);
    sym.Some? && sym.value >= 256 && sym.value % 16 == 15 &&
    |r.queue| + 16 * ((|s.data| - r.pos) / 2) < (sym.value - 256) / 16
  }

  /** One step: a table is read, a token is decoded, or the block is left. */
  function Next(s: State, size: nat): (s': State)
    requires Valid(s, size) && !Ended(s, size) && !Starved(s)
    ensures Valid(s', size)
  {
    match s
    case AtTable(src, h) =>
      RootPresent(LengthTable(src));
      AtSymbol(HuffmanTrie(LengthTable(src)), src[256..], Reader(0, []), h, BlockEnd(|h|, size))
    case AtSymbol(t, data, r, h, end) =>
      if |h| >= end then AtTable(data[PostLoaded(data, r).pos..], h)
      else
        StarvedIffHung(s, size);
        match TokenRead(t, data, r)
        case Stopped(r') => AtTable(data[PostLoaded(data, r').pos..], h)
        case Got(token, r') =>
          AtSymbol(t, data, r', EmitWithin(h, token, end), end)
  }

  /** A symbol is starved exactly when reading its token spins. */
  lemma StarvedIffHung(s: State, size: nat)
    requires Valid(s, size) && s.AtSymbol? && |s.h| < s.end
    ensures Starved(s) <==> TokenRead(s.t, s.data, s.r).Hung?
  {
    hide MatchRead, Walked;
    var (sym, r) := Walked(s.t, s.data, s.r, []);
    if sym.Some? && sym.value >= 256 {
      HangsIff(s.data, r, sym.value - 256);
    }
  }

  // ---- What is left to compute -----------------------------------------------------------------

  function Result(s: State, size: nat): Outcome
    requires Valid(s, size)
  {
    match s
    case AtTable(src, h) => Decompressed(src, h, size)
    case AtSymbol(t, data, r, h, end) =>
      match BlockDecoded(t, data, r, h, end)
      case BlockHung => Hang
      case BlockDone(out, r') => Decompressed(data[PostLoaded(data, r').pos..], out, size)
  }

  /** Every step keeps the result; it is the output at an end and a hang where a symbol is starved. */
  lemma StepKeepsResult(s: State, size: nat)
    requires Valid(s, size)
    ensures Ended(s, size) ==> Result(s, size) == Bytes(s.h)
    ensures Starved(s) ==> Result(s, size) == Hang
    ensures !Ended(s, size) && !Starved(s) ==> Result(s, size) == Result(Next(s, size), size)
  {
    hide MatchRead, Walked, HuffmanTrie, LengthTable, TokenOfSymbol;
    if s.AtSymbol? && |s.h| < s.end {
      StarvedIffHung(s, size);
    }
  }

  // ---- Runs ------------------------------------------------------------------------------------

  /** Each state is the step after the one before it. */
  ghost predicate Run(ss: seq<State>, size: nat) {
    && ss != []
    && (forall i :: 0 <= i < |ss| ==> Valid(ss[i], size))
    && forall i :: 0 <= i < |ss| - 1 ==> Steps(ss[i], ss[i + 1], size)
  }

  ghost predicate Steps(s: State, s': State, size: nat)
    requires Valid(s, size)
  {
    !Ended(s, size) && !Starved(s) && s' == Next(s, size)
  }

  lemma {:induction false} RunKeepsResult(ss: seq<State>, size: nat)
    requires Run(ss, size)
    ensures Result(ss[0], size) == Result(ss[|ss| - 1], size)
    decreases |ss|
  {
    hide Result, Next, Valid, Starved, Ended;
    if |ss| > 1 {
      assert Steps(ss[0], ss[1], size);
      StepKeepsResult(ss[0], size);
      RunTail(ss, size);
      RunKeepsResult(ss[1..], size);
    }
  }

  lemma RunTail(ss: seq<State>, size: nat)
    requires Run(ss, size) && |ss| > 1
    ensures Run(ss[1..], size)
  {
    hide Valid, Steps;
    forall i | 0 <= i < |ss| - 2 ensures Steps(ss[1..][i], ss[1..][i + 1], size) {
      assert Steps(ss[i + 1], ss[i + 1 + 1], size);
    }
  }

  /** Source bytes still to come, and whether a block is open and how much of it. */
  function Rank(s: State): (nat, nat) {
    match s
    case AtTable(src, _) => (|src|, 0)
    case AtSymbol(_, data, _, h, end) => (|data|, if end >= |h| then end - |h| + 1 else 1)
  }

  lemma StepLowersRank(s: State, size: nat)
    requires Valid(s, size) && !Ended(s, size) && !Starved(s)
    ensures Rank(Next(s, size)).0 < Rank(s).0 ||
            (Rank(Next(s, size)).0 == Rank(s).0 && Rank(Next(s, size)).1 < Rank(s).1)
  {
    hide MatchRead, Walked, HuffmanTrie, LengthTable, TokenOfSymbol;
    if s.AtSymbol? && |s.h| < s.end {
      StarvedIffHung(s, size);
      TokensAreNonEmpty(s.t, s.data, s.r);
    }
  }

  /** From a state whose result is a hang, steps lead to a starved symbol. */
  lemma {:induction false} RunToStarved(s: State, size: nat) returns (ss: seq<State>)
    requires Valid(s, size) && Result(s, size) == Hang
    ensures Run(ss, size) && ss[0] == s && Starved(ss[|ss| - 1])
    decreases Rank(s).0, Rank(s).1
  {
    hide Result, Next, Rank, Starved, Ended;
    StepKeepsResult(s, size);
    if Starved(s) {
      return [s];
    }
    StepLowersRank(s, size);
    var s' := Next(s, size);
    var rest := RunToStarved(s', size);
    ss := [s] + rest;
    forall i | 0 <= i < |ss| - 1 ensures Steps(ss[i], ss[i + 1], size) {
      if i > 0 {
        assert Steps(rest[i - 1], rest[i - 1 + 1], size);
      }
    }
  }

  ghost predicate ReachesStarved(src: seq<byte>, size: nat, ss: seq<State>) {
    Run(ss, size) && ss[0] == AtTable(src, []) && Starved(ss[|ss| - 1])
  }

  /** Decompression never ends exactly when some sequence of steps leads to a long match with too few whole
      words left for its offset. */
  lemma HangsIffStarved(src: seq<byte>, size: nat)
    ensures Decompressed(src, [], size) == Hang <==> exists ss :: ReachesStarved(src, size, ss)
  {
    hide Decompressed, Run, Starved, Next;
    var s := AtTable(src, []);
    if Decompressed(src, [], size) == Hang {
      var ss := RunToStarved(s, size);
      assert ReachesStarved(src, size, ss);
    }
    if ss :| ReachesStarved(src, size, ss) {
      LastIsValid(ss, size);
      RunKeepsResult(ss, size);
      StepKeepsResult(ss[|ss| - 1], size);
    }
  }

  lemma LastIsValid(ss: seq<State>, size: nat)
    requires Run(ss, size)
    ensures ss != [] && Valid(ss[0], size) && Valid(ss[|ss| - 1], size)
  {
  }

  // ---- Tables without long matches ---------------------------------------------------------------

  /** Whatever the lengths, a node of the trie holds no symbol or one that the table uses. */
  lemma {:induction false} LeavesAreUsed(lengths: seq<nat>, k: nat, p: seq<bit>)
    requires k <= |lengths| && p in TrieOf(lengths, k)
    ensures TrieOf(lengths, k)[p] == -1 || Used(lengths, TrieOf(lengths, k)[p])
  {
    hide CodeBits;
    if k > 0 {
      if lengths[k - 1] == 0 {
        LeavesAreUsed(lengths, k - 1, p);
      } else {
        TrieRootPresent(lengths, k - 1);
        var t, code := TrieOf(lengths, k - 1), CodeBits(lengths, k - 1);
        WithPathHolds(t, code, |code|);
        if p != code && p in t {
          LeavesAreUsed(lengths, k - 1, p);
        }
      }
    }
  }

  lemma {:induction false} WalkedIsLeaf(t: Trie, data: seq<byte>, r: Reader, p: seq<bit>) returns (q: seq<bit>)
    requires p in t
    ensures q in t && (Walked(t, data, r, p).0.Some? ==> Walked(t, data, r, p).0.value == t[q] != -1)
    decreases BitsLeft(data, r)
  {
    q := p;
    if t[p] == -1 {
      var (b, r') := BitsRead(data, r, 1);
      RefilledKeepsBits(data, r, 1);
      if b != None && p + [BitAsPath(b.value)] in t {
        q := WalkedIsLeaf(t, data, r', p + [BitAsPath(b.value)]);
      }
    }
  }

  /** A symbol for a long match whose length follows in bytes of its own. */
  predicate LongSymbol(sym: int) {
    sym >= 256 && sym % 16 == 15
  }

  /** The table in front of a source uses such a symbol. */
  ghost predicate UsesLong(src: seq<byte>) {
    |src| >= 256 && exists sym :: Used(LengthTable(src), sym) && LongSymbol(sym)
  }

  /** The trie is that of a table found k bytes into the source, and what is left is behind it. */
  ghost predicate From(src: seq<byte>, k: nat, s: State) {
    && k <= |src|
    && match s
       case AtTable(rest, _) => rest == src[k..]
       case AtSymbol(t, data, _, _, _) =>
         |src| - k >= 256 && t == HuffmanTrie(LengthTable(src[k..])) && data == src[k..][256..]
  }

  lemma NextFrom(src: seq<byte>, k: nat, s: State, size: nat) returns (k': nat)
    requires Valid(s, size) && !Ended(s, size) && !Starved(s) && From(src, k, s)
    ensures From(src, k', Next(s, size))
  {
    hide MatchRead, Walked, HuffmanTrie, LengthTable, TokenOfSymbol;
    k' := k;
    if s.AtSymbol? {
      var n: nat;
      if |s.h| < s.end {
        StarvedIffHung(s, size);
        var res := TokenRead(s.t, s.data, s.r);
        n := if res.Stopped? then PostLoaded(s.data, res.r).pos else 0;
        if res.Got? {
          return;
        }
      } else {
        n := PostLoaded(s.data, s.r).pos;
      }
      k' := k + 256 + n;
      assert src[k..][256..][n..] == src[k'..];
    }
  }

  lemma {:induction false} RunFrom(src: seq<byte>, k: nat, ss: seq<State>, size: nat) returns (k': nat)
    requires Run(ss, size) && From(src, k, ss[0])
    ensures From(src, k', ss[|ss| - 1])
    decreases |ss|
  {
    hide Next, Valid, Starved, Ended, From;
    k' := k;
    if |ss| > 1 {
      assert Steps(ss[0], ss[1], size);
      RunTail(ss, size);
      k' := NextFrom(src, k, ss[0], size);
      k' := RunFrom(src, k', ss[1..], size);
    }
  }

  lemma StarvedUsesLong(src: seq<byte>, k: nat, s: State)
    requires s.AtSymbol? && [] in s.t && Starved(s) && From(src, k, s)
    ensures UsesLong(src[k..])
  {
    hide CodeBits, LengthTable;
    var lengths := LengthTable(src[k..]);
    var q := WalkedIsLeaf(s.t, s.data, s.r, []);
    if MaxLen(lengths) != 0 {
      LeavesAreUsed(lengths, |lengths|, q);
      assert LongSymbol(s.t[q]);
    }
  }

  /** A source on which decompression never ends has somewhere in it a table that uses a symbol for a long
      match: without one, decompression ends, whatever the source. */
  lemma HangNeedsLongSymbol(src: seq<byte>, size: nat)
    requires Decompressed(src, [], size) == Hang
    ensures exists k: nat :: k <= |src| && UsesLong(src[k..])
  {
    hide Decompressed, Run, From, UsesLong, Starved;
    var ss := RunToStarved(AtTable(src, []), size);
    LastIsValid(ss, size);
    assert From(src, 0, ss[0]) by { StartsFrom(src); }
    var k := RunFrom(src, 0, ss, size);
    var last := ss[|ss| - 1];
    assert last.AtSymbol? by { StarvedIsAtSymbol(last); }
    assert k <= |src| by { FromInside(src, k, last); }
    StarvedUsesLong(src, k, last);
  }

  lemma StartsFrom(src: seq<byte>)
    ensures From(src, 0, AtTable(src, []))
  {
  }

  lemma FromInside(src: seq<byte>, k: nat, s: State)
    requires From(src, k, s)
    ensures k <= |src|
  {
  }

  lemma StarvedIsAtSymbol(s: State)
    requires (s.AtSymbol? ==> [] in s.t) && Starved(s)
    ensures s.AtSymbol?
  {
  }
}
