/** The Huffman trie: built in place from the code lengths, walked one bit at a time. */
module HuffTrie {
  import opened Bits
  import opened XpressStream
  import opened CanonicalCodes

  /** What a trie means: the symbol stored at every path that has a node, -1 for none. */
  type Trie = map<seq<bit>, int>

  /** Nodes for the first i steps along a path. */
  function WithPath(t: Trie, code: seq<bit>, i: nat): Trie
    requires i <= |code|
  {
    if i == 0 then t
    else
      var front := WithPath(t, code, i - 1);
      if code[..i] in front then front else front[code[..i] := -1]
  }

  function Inserted(t: Trie, code: seq<bit>, sym: nat): Trie {
    WithPath(t, code, |code|)[code := sym]
  }

  /** The trie after the first k symbols. */
  function TrieOf(lengths: seq<nat>, k: nat): Trie
    requires k <= |lengths|
  {
    if k == 0 then map[[] := -1]
    else if lengths[k - 1] == 0 then TrieOf(lengths, k - 1)
    else Inserted(TrieOf(lengths, k - 1), CodeBits(lengths, k - 1), k - 1)
  }

  /** A table without a used symbol gives a trie whose root is already a leaf. */
  function HuffmanTrie(lengths: seq<nat>): Trie {
    if MaxLen(lengths) == 0 then map[[] := 0] else TrieOf(lengths, |lengths|)
  }

  // ---- What the trie holds -----------------------------------------------------------

  /** The node at the end of a path holds s and the nodes before it hold no symbol. */
  ghost predicate LeadsTo(t: Trie, code: seq<bit>, s: int) {
    forall i :: 0 <= i <= |code| ==> code[..i] in t && t[code[..i]] == if i == |code| then s else -1
  }

  ghost predicate OnSomePath(lengths: seq<nat>, k: nat, p: seq<bit>) {
    p == [] || exists s :: 0 <= s < k && Used(lengths, s) && p <= CodeBits(lengths, s)
  }

  /** Every node is on the path of one of the first k symbols, and each of those paths leads to its symbol. */
  ghost predicate HoldsExactly(t: Trie, lengths: seq<nat>, k: nat) {
    && [] in t && t[[]] == -1
    && (forall p :: p in t ==> OnSomePath(lengths, k, p))
    && (forall s :: 0 <= s < k && Used(lengths, s) ==> LeadsTo(t, CodeBits(lengths, s), s))
  }

  lemma {:induction false} WithPathHolds(t: Trie, code: seq<bit>, i: nat)
    requires i <= |code| && [] in t
    ensures forall p :: p in WithPath(t, code, i) <==> p in t || exists j :: 0 <= j <= i && p == code[..j]
    ensures forall p :: p in WithPath(t, code, i) ==> WithPath(t, code, i)[p] == if p in t then t[p] else -1
  {
    if i == 0 {
      assert code[..0] == [];
    } else {
      WithPathHolds(t, code, i - 1);
      var front := WithPath(t, code, i - 1);
      forall p
        ensures p in WithPath(t, code, i) <==> p in t || exists j :: 0 <= j <= i && p == code[..j]
      {
        if p in t || p in front {
          if p !in t {
            var j :| 0 <= j <= i - 1 && p == code[..j];
            assert 0 <= j <= i;
          }
        } else if exists j :: 0 <= j <= i && p == code[..j] {
          var j :| 0 <= j <= i && p == code[..j];
          assert j == i;
        }
      }
    }
  }

  lemma {:induction false} TrieOfHolds(lengths: seq<nat>, k: nat)
    requires k <= |lengths| && PrefixFree(lengths)
    ensures HoldsExactly(TrieOf(lengths, k), lengths, k)
  {
    if k != 0 {
      TrieOfHolds(lengths, k - 1);
      if lengths[k - 1] != 0 {
        InsertHolds(TrieOf(lengths, k - 1), lengths, k - 1);
      }
    }
  }

  lemma InsertHolds(t: Trie, lengths: seq<nat>, k: nat)
    requires Used(lengths, k) && PrefixFree(lengths)
    requires HoldsExactly(t, lengths, k)
    ensures HoldsExactly(Inserted(t, CodeBits(lengths, k), k), lengths, k + 1)
  {
    var code := CodeBits(lengths, k);
    var t' := Inserted(t, code, k);
    WithPathHolds(t, code, |code|);
    NoLeafOnPath(t, lengths, k);
    assert code[..|code|] == code;
    forall p | p in t'
      ensures OnSomePath(lengths, k + 1, p)
    {
      if p in t {
        assert OnSomePath(lengths, k, p);
      } else {
        var j :| 0 <= j <= |code| && p == code[..j];
        assert p <= CodeBits(lengths, k);
      }
    }
    forall s | 0 <= s < k + 1 && Used(lengths, s)
      ensures LeadsTo(t', CodeBits(lengths, s), s)
    {
      if s < k {
        forall i | 0 <= i <= lengths[s]
          ensures CodeBits(lengths, s)[..i] in t' && CodeBits(lengths, s)[..i] != code
        {
          assert LeadsTo(t, CodeBits(lengths, s), s);
        }
      }
    }
  }

  /** A node on the path of a used symbol is on the path of no other leaf. */
  lemma LeafOnPathIsItsEnd(t: Trie, lengths: seq<nat>, n: nat, p: seq<bit>, s: nat)
    requires HoldsExactly(t, lengths, n) && PrefixFree(lengths) && n <= |lengths|
    requires Used(lengths, s) && p in t && p <= CodeBits(lengths, s)
    ensures t[p] != -1 && p != [] ==> s < n
  {
    if p != [] && t[p] != -1 {
      var u :| 0 <= u < n && Used(lengths, u) && p <= CodeBits(lengths, u);
      assert LeadsTo(t, CodeBits(lengths, u), u);
      assert p == CodeBits(lengths, u)[..|p|];
      assert CodeBits(lengths, u)[..lengths[u]] == CodeBits(lengths, u);
    }
  }

  /** Inserting a symbol never meets a leaf: no node on its path holds a symbol, and its own
      end is not there yet, so no leaf becomes internal and no symbol is overwritten. */
  lemma NoLeafOnPath(t: Trie, lengths: seq<nat>, k: nat)
    requires Used(lengths, k) && PrefixFree(lengths)
    requires HoldsExactly(t, lengths, k)
    ensures CodeBits(lengths, k) !in t
    ensures forall i :: 0 <= i <= lengths[k] && CodeBits(lengths, k)[..i] in t ==> t[CodeBits(lengths, k)[..i]] == -1
  {
    var code := CodeBits(lengths, k);
    EndNotReached(t, lengths, k, k);
    forall i | 0 <= i <= lengths[k] && code[..i] in t
      ensures t[code[..i]] == -1
    {
      LeafOnPathIsItsEnd(t, lengths, k, code[..i], k);
    }
  }

  lemma EndNotReached(t: Trie, lengths: seq<nat>, n: nat, s: nat)
    requires HoldsExactly(t, lengths, n) && PrefixFree(lengths) && Used(lengths, s)
    ensures CodeBits(lengths, s) in t ==> s < n
  {
    if CodeBits(lengths, s) in t {
      assert OnSomePath(lengths, n, CodeBits(lengths, s));
    }
  }

  // ---- Walking -------------------------------------------------------------------------

  function BitsLeft(data: seq<byte>, r: Reader): nat {
    |r.queue| + (if r.pos <= |data| then 8 * (|data| - r.pos) else 0)
  }

  lemma {:induction false} RefilledKeepsBits(data: seq<byte>, r: Reader, n: nat)
    ensures BitsLeft(data, Refilled(data, r, n)) == BitsLeft(data, r)
    decreases |data| - r.pos
  {
    if |r.queue| >= n {
    } else if r.pos + 1 < |data| {
      RefilledKeepsBits(data, LoadedWord(data, r), n);
    } else if r.pos < |data| {
      RefilledKeepsBits(data, Reader(r.pos + 1, r.queue + BitsOf(data[r.pos], 8)), n);
    }
  }

  /** Follow one bit at a time until a node with a symbol; None when the bits run out or the path has no node. */
  function Walked(t: Trie, data: seq<byte>, r: Reader, p: seq<bit>): (res: (Option<int>, Reader))
    requires p in t
    ensures r.pos <= |data| ==> res.1.pos <= |data|
    decreases BitsLeft(data, r)
  {
    if t[p] != -1 then (Some(t[p]), r)
    else
      var (b, r') := BitsRead(data, r, 1);
      RefilledKeepsBits(data, r, 1);
      if b == None || p + [BitAsPath(b.value)] !in t then (None, r')
      else Walked(t, data, r', p + [BitAsPath(b.value)])
  }

  function BitAsPath(v: nat): bit {
    if v == 0 then 0 else 1
  }

  lemma OneBit(q: seq<bit>)
    requires |q| == 1
    ensures BitAsPath(NatOf(q)) == q[0] == NatOf(q)
  {
    assert q[..0] == [];
    assert NatOf(q[..0]) == 0;
  }

  /** Refilling for n bits and dropping one is dropping one and refilling for n - 1. */
  lemma {:induction false} RefillAfterDrop(data: seq<byte>, r: Reader, n: nat)
    requires |r.queue| >= 1 && n >= 1
    ensures var f := Refilled(data, r, n);
            |f.queue| >= 1 && Refilled(data, Reader(r.pos, r.queue[1..]), n - 1) == Reader(f.pos, f.queue[1..])
    decreases |data| - r.pos
  {
    if |r.queue| >= n {
    } else if r.pos + 1 < |data| {
      var l := LoadedWord(data, r);
      assert r.queue[1..] + WordBits(data, r.pos) == l.queue[1..];
      RefillAfterDrop(data, l, n);
    } else if r.pos < |data| {
      var l := Reader(r.pos + 1, r.queue + BitsOf(data[r.pos], 8));
      assert r.queue[1..] + BitsOf(data[r.pos], 8) == l.queue[1..];
      RefillAfterDrop(data, l, n);
    }
  }

  lemma {:induction false} RefillTwice(data: seq<byte>, r: Reader, m: nat, n: nat)
    requires m <= n
    ensures Refilled(data, Refilled(data, r, m), n) == Refilled(data, r, n)
    decreases |data| - r.pos
  {
    if |r.queue| >= m {
    } else if r.pos + 1 < |data| {
      RefillTwice(data, LoadedWord(data, r), m, n);
    } else if r.pos < |data| {
      RefillTwice(data, Reader(r.pos + 1, r.queue + BitsOf(data[r.pos], 8)), m, n);
    }
  }

  /** Walking on from step i of a path, with the rest of the path next in the stream, ends at
      its symbol and consumes exactly the rest of the path. */
  lemma {:induction false} WalkAlongPath(t: Trie, code: seq<bit>, s: int, data: seq<byte>, r: Reader, i: nat)
    requires LeadsTo(t, code, s) && s != -1 && i <= |code|
    requires code[i..] <= Refilled(data, r, |code| - i).queue
    ensures code[..i] in t
    ensures var f := Refilled(data, r, |code| - i);
            Walked(t, data, r, code[..i]) == (Some(s), Reader(f.pos, f.queue[|code| - i..]))
    decreases |code| - i
  {
    var n := |code| - i;
    var f := Refilled(data, r, n);
    if n != 0 {
      var r' := OneBitTaken(code, data, r, i);
      assert code[..i] + [code[i]] == code[..i + 1];
      WalkAlongPath(t, code, s, data, r', i + 1);
      assert f.queue[1..][n - 1..] == f.queue[n..];
    }
  }

  lemma OneBitTaken(code: seq<bit>, data: seq<byte>, r: Reader, i: nat) returns (r': Reader)
    requires i < |code| && code[i..] <= Refilled(data, r, |code| - i).queue
    ensures BitsRead(data, r, 1) == (Some(code[i]), r')
    ensures BitAsPath(code[i]) == code[i]
    ensures var f := Refilled(data, r, |code| - i);
            Refilled(data, r', |code| - i - 1) == Reader(f.pos, f.queue[1..]) && code[i + 1..] <= f.queue[1..]
  {
    var n := |code| - i;
    var f := Refilled(data, r, n);
    var g := Refilled(data, r, 1);
    RefillTwice(data, r, 1, n);
    RefilledEnough(data, r, 1, n);
    r' := Reader(g.pos, g.queue[1..]);
    RefillAfterDrop(data, g, n);
    RefillKeepsPrefix(data, g, n);
    assert f.queue[0] == code[i..][0];
    OneBit(g.queue[..1]);
    assert code[i + 1..] == code[i..][1..] == f.queue[1..][..n - 1];
  }

  lemma {:induction false} RefillKeepsPrefix(data: seq<byte>, r: Reader, n: nat)
    ensures r.queue <= Refilled(data, r, n).queue
    decreases |data| - r.pos
  {
    if |r.queue| >= n {
    } else if r.pos + 1 < |data| {
      RefillKeepsPrefix(data, LoadedWord(data, r), n);
    } else if r.pos < |data| {
      RefillKeepsPrefix(data, Reader(r.pos + 1, r.queue + BitsOf(data[r.pos], 8)), n);
    }
  }

  lemma RefilledEnough(data: seq<byte>, r: Reader, m: nat, n: nat)
    requires m <= n && |Refilled(data, r, n).queue| >= n
    ensures |Refilled(data, r, m).queue| >= m
  {
    RefillTwice(data, r, m, n);
    NothingMore(data, r, m);
  }

  /** A refill that falls short has emptied the source. */
  lemma {:induction false} NothingMore(data: seq<byte>, r: Reader, m: nat)
    ensures |Refilled(data, r, m).queue| < m ==> Refilled(data, r, m).pos >= |data|
    decreases |data| - r.pos
  {
    if |r.queue| >= m {
    } else if r.pos + 1 < |data| {
      NothingMore(data, LoadedWord(data, r), m);
    } else if r.pos < |data| {
      NothingMore(data, Reader(r.pos + 1, r.queue + BitsOf(data[r.pos], 8)), m);
    }
  }

  /** Decoding a used symbol's codeword, whatever bits follow it, gives that symbol and
      consumes exactly its length. */
  lemma DecodesCodeword(lengths: seq<nat>, data: seq<byte>, r: Reader, s: nat)
    requires Kraft(lengths) && Used(lengths, s)
    requires CodeBits(lengths, s) <= Refilled(data, r, lengths[s]).queue
    ensures [] in HuffmanTrie(lengths)
    ensures var f := Refilled(data, r, lengths[s]);
            Walked(HuffmanTrie(lengths), data, r, []) == (Some(s), Reader(f.pos, f.queue[lengths[s]..]))
  {
    KraftIsPrefixFree(lengths);
    TrieOfHolds(lengths, |lengths|);
    var code := CodeBits(lengths, s);
    assert code[0..] == code && code[..0] == [];
    WalkAlongPath(HuffmanTrie(lengths), code, s, data, r, 0);
  }
}
