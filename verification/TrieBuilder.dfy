/** The linked trie in memory: how it represents a trie, how it is built and how it is walked. */
module TrieBuilder {
  import opened Bits
  import opened XpressStream
  import opened CanonicalCodes
  import opened HuffTrie

  class TrieNode {
    ghost const path: seq<bit>
    var sym: int
    var child0: TrieNode?
    var child1: TrieNode?

    constructor (sym: int, ghost path: seq<bit>)
      ensures this.sym == sym && this.path == path && child0 == null && child1 == null
    {
      this.sym := sym;
      this.path := path;
      child0, child1 := null, null;
    }
  }

  type Nodes = map<seq<bit>, TrieNode>

  ghost function ChildOf(nodes: Nodes, p: seq<bit>, b: bit): TrieNode? {
    if p + [b] in nodes then nodes[p + [b]] else null
  }

  ghost predicate NodeOk(nodes: Nodes, repr: set<TrieNode>, p: seq<bit>, sym: int)
    requires p in nodes
    reads repr
  {
    && nodes[p] in repr
    && nodes[p].path == p
    && nodes[p].sym == sym
    && nodes[p].child0 == ChildOf(nodes, p, 0)
    && nodes[p].child1 == ChildOf(nodes, p, 1)
  }

  /** Every path with a node but the root extends another one. */
  ghost predicate Rooted(paths: set<seq<bit>>) {
    [] in paths && forall p :: p in paths && p != [] ==> p[..|p| - 1] in paths
  }

  /** The nodes reachable from root are exactly the paths of t, each carrying its symbol. */
  ghost predicate Represents(root: TrieNode, nodes: Nodes, repr: set<TrieNode>, t: Trie)
    reads repr
  {
    && nodes.Keys == t.Keys && Rooted(t.Keys)
    && nodes[[]] == root
    && forall p :: p in nodes ==> NodeOk(nodes, repr, p, t[p])
  }

  lemma ChildOfAfter(nodes: Nodes, p: seq<bit>, b: bit, child: TrieNode, q: seq<bit>, c: bit)
    ensures ChildOf(nodes[p + [b] := child], q, c) == if q == p && c == b then child else ChildOf(nodes, q, c)
  {
    if q + [c] == p + [b] {
      assert (q + [c])[..|q|] == q && (p + [b])[..|p|] == p;
      assert (q + [c])[|q|] == c && (p + [b])[|p|] == b;
    }
  }

  lemma StaysRooted(paths: set<seq<bit>>, p: seq<bit>, b: bit)
    requires Rooted(paths) && p in paths && p + [b] !in paths
    ensures Rooted(paths + {p + [b]})
    ensures forall c: bit :: p + [b] + [c] !in paths + {p + [b]}
  {
    assert (p + [b])[..|p|] == p;
    forall c: bit
      ensures p + [b] + [c] !in paths
    {
      assert (p + [b] + [c])[..|p| + 1] == p + [b];
    }
  }

  /** The child of a node for a bit, linked in fresh when it is not there yet. */
  method StepDown(root: TrieNode, node: TrieNode, b: bit,
                  ghost nodes: Nodes, ghost repr: set<TrieNode>, ghost t: Trie)
    returns (child: TrieNode, ghost nodes': Nodes, ghost repr': set<TrieNode>)
    requires Represents(root, nodes, repr, t)
    requires node.path in nodes && nodes[node.path] == node
    modifies repr
    ensures repr <= repr' && fresh(repr' - repr)
    ensures node.path + [b] in nodes' && nodes'[node.path + [b]] == child && child.path == node.path + [b]
    ensures Represents(root, nodes', repr', if child.path in t then t else t[child.path := -1])
  {
    ghost var p := node.path;
    assert NodeOk(nodes, repr, p, t[p]);
    nodes', repr' := nodes, repr;
    var next := if b == 0 then node.child0 else node.child1;
    if next != null {
      assert NodeOk(nodes, repr, p + [b], t[p + [b]]);
      child := next;
    } else {
      child := new TrieNode(-1, p + [b]);
      if b == 0 {
        node.child0 := child;
      } else {
        node.child1 := child;
      }
      nodes', repr' := nodes[p + [b] := child], repr + {child};
      ghost var t' := t[p + [b] := -1];
      StaysRooted(t.Keys, p, b);
      assert t'.Keys == t.Keys + {p + [b]} && nodes'.Keys == nodes.Keys + {p + [b]};
      forall q | q in nodes'
        ensures NodeOk(nodes', repr', q, t'[q])
      {
        ChildOfAfter(nodes, p, b, child, q, 0);
        ChildOfAfter(nodes, p, b, child, q, 1);
        if q in nodes {
          assert old(NodeOk(nodes, repr, q, t[q]));
        }
      }
    }
  }

  method StoreSymbol(root: TrieNode, node: TrieNode, sym: int,
                     ghost nodes: Nodes, ghost repr: set<TrieNode>, ghost t: Trie)
    requires Represents(root, nodes, repr, t)
    requires node.path in nodes && nodes[node.path] == node
    modifies repr
    ensures Represents(root, nodes, repr, t[node.path := sym])
  {
    assert NodeOk(nodes, repr, node.path, t[node.path]);
    node.sym := sym;
    ghost var t' := t[node.path := sym];
    assert t'.Keys == t.Keys;
    forall q | q in nodes
      ensures NodeOk(nodes, repr, q, t'[q])
    {
      assert old(NodeOk(nodes, repr, q, t[q]));
    }
  }

  lemma RootNode(root: TrieNode, nodes: Nodes, repr: set<TrieNode>, t: Trie)
    requires Represents(root, nodes, repr, t)
    ensures [] in nodes && nodes[[]] == root && root.path == []
  {
    assert NodeOk(nodes, repr, [], t[[]]);
  }

  /** Walk down the low l bits of c, most significant first, adding nodes where there are none,
      and store the symbol at the end. */
  method InsertCode(root: TrieNode, c: nat, l: nat, sym: nat,
                    ghost nodes: Nodes, ghost repr: set<TrieNode>, ghost t: Trie)
    returns (ghost nodes': Nodes, ghost repr': set<TrieNode>)
    requires Represents(root, nodes, repr, t)
    modifies repr
    ensures repr <= repr' && fresh(repr' - repr)
    ensures Represents(root, nodes', repr', Inserted(t, BitsOf(c, l), sym))
  {
    hide Represents, BitsOf, NodeOk;
    ghost var code := BitsOf(c, l);
    nodes', repr' := nodes, repr;
    var node: TrieNode := root;
    assert code[..0] == [];
    RootNode(root, nodes, repr, t);
    for bit := 0 to l
      invariant repr <= repr' && fresh(repr' - repr)
      invariant Represents(root, nodes', repr', WithPath(t, code, bit))
      invariant node.path == code[..bit] && code[..bit] in nodes' && nodes'[code[..bit]] == node
    {
      var b := BitAt(c, l, bit);
      assert code[..bit + 1] == code[..bit] + [b];
      node, nodes', repr' := StepDown(root, node, b, nodes', repr', WithPath(t, code, bit));
    }
    assert code[..l] == code;
    StoreSymbol(root, node, sym, nodes', repr', WithPath(t, code, l));
  }

  const U32: nat := 0x1_0000_0000

  /** Lengths are read from nibbles, one for each of the 512 symbols. */
  ghost predicate NibbleLengths(lengths: seq<nat>) {
    |lengths| == 512 && forall s :: 0 <= s < |lengths| ==> lengths[s] <= 15
  }

  lemma RunningCodeFitsUint32(lengths: seq<nat>, l: nat)
    requires NibbleLengths(lengths) && l <= 15
    ensures FirstCode(lengths, l) + CountOf(lengths, l) <= 512 * 0x8000
  {
    FirstCodeBound(lengths, l);
    Pow2Monotone(l, 15);
    assert Pow2(5) == 32;
    Pow2Add(5, 5);
    Pow2Add(10, 5);
  }

  method CountLengths(lengths: seq<nat>, maxLen: nat) returns (blCount: array<nat>)
    requires maxLen == MaxLen(lengths)
    ensures fresh(blCount) && blCount.Length == maxLen + 1
    ensures forall l :: 0 <= l <= maxLen ==> blCount[l] == CountOf(lengths, l)
  {
    blCount := new nat[maxLen + 1](_ => 0);
    assert lengths[..0] == [];
    for k := 0 to |lengths|
      invariant forall l :: 0 <= l <= maxLen ==> blCount[l] == CountOf(lengths[..k], l)
    {
      var l := lengths[k];
      assert lengths[..k + 1][..k] == lengths[..k];
      if l > 0 {
        blCount[l] := blCount[l] + 1;
      }
    }
    assert lengths[..|lengths|] == lengths;
  }

  /** code = (code + count) << 1, in uint32 arithmetic. */
  method Advance(lengths: seq<nat>, l: nat, code: nat, count: nat) returns (next: nat)
    requires NibbleLengths(lengths) && l <= 15
    requires code == FirstCode(lengths, l) && count == CountOf(lengths, l)
    ensures next == FirstCode(lengths, l + 1)
  {
    hide FirstCode, CountOf;
    RunningCodeFitsUint32(lengths, l);
    NextFirstCode(lengths, l);
    SmallMod(code + count, U32);
    SmallMod((code + count) * 2, U32);
    next := (code + count) % U32 * 2 % U32;
  }

  lemma NextFirstCode(lengths: seq<nat>, l: nat)
    ensures FirstCode(lengths, l + 1) == 2 * (FirstCode(lengths, l) + CountOf(lengths, l))
  {
  }

  lemma CodesFitUint32(lengths: seq<nat>, l: nat)
    requires NibbleLengths(lengths) && l <= 15
    ensures forall k :: 0 <= k <= |lengths| ==> FirstCode(lengths, l) + CountOf(lengths[..k], l) < U32
  {
    RunningCodeFitsUint32(lengths, l);
    forall k | 0 <= k <= |lengths|
      ensures FirstCode(lengths, l) + CountOf(lengths[..k], l) < U32
    {
      CountSplits(lengths, k, l);
    }
  }

  method NumberLengths(lengths: seq<nat>, maxLen: nat, blCount: array<nat>) returns (nextCode: array<nat>)
    requires NibbleLengths(lengths) && maxLen <= 15
    requires blCount.Length == maxLen + 1
    requires forall l :: 0 <= l <= maxLen ==> blCount[l] == CountOf(lengths, l)
    ensures fresh(nextCode) && nextCode.Length == maxLen + 2
    ensures forall l :: 1 <= l <= maxLen ==> nextCode[l] == FirstCode(lengths, l)
  {
    hide NibbleLengths, CountOf;
    nextCode := new nat[maxLen + 2];
    var code := 0;
    for bits := 1 to maxLen + 1
      invariant code == FirstCode(lengths, bits - 1)
      invariant forall l :: 1 <= l < bits ==> nextCode[l] == FirstCode(lengths, l)
    {
      code := Advance(lengths, bits - 1, code, blCount[bits - 1]);
      nextCode[bits] := code;
    }
  }

  /** nextCode[l]++ hands out the code numbers of a length in order. */
  method TakeCode(lengths: seq<nat>, sym: nat, nextCode: array<nat>) returns (c: nat)
    requires NibbleLengths(lengths) && Used(lengths, sym)
    requires nextCode.Length == MaxLen(lengths) + 2
    requires NextCodesAt(lengths, sym, nextCode)
    modifies nextCode
    ensures c == Code(lengths, sym)
    ensures NextCodesAt(lengths, sym + 1, nextCode)
  {
    var l := lengths[sym];
    assert lengths[..sym + 1][..sym] == lengths[..sym];
    c := nextCode[l];
    CodesFitUint32(lengths, l);
    nextCode[l] := (nextCode[l] + 1) % U32;
  }

  /** The next code number of every length, after the first k symbols. */
  ghost predicate NextCodesAt(lengths: seq<nat>, k: nat, nextCode: array<nat>)
    requires k <= |lengths| && nextCode.Length == MaxLen(lengths) + 2
    reads nextCode
  {
    forall l :: 1 <= l <= MaxLen(lengths) ==> nextCode[l] == FirstCode(lengths, l) + CountOf(lengths[..k], l)
  }

  method InsertSymbol(lengths: seq<nat>, sym: nat, nextCode: array<nat>, root: TrieNode,
                      ghost nodes: Nodes, ghost repr: set<TrieNode>)
    returns (ghost nodes': Nodes, ghost repr': set<TrieNode>)
    requires NibbleLengths(lengths) && sym < |lengths|
    requires nextCode.Length == MaxLen(lengths) + 2 && NextCodesAt(lengths, sym, nextCode)
    requires Represents(root, nodes, repr, TrieOf(lengths, sym))
    modifies repr, nextCode
    ensures repr <= repr' && fresh(repr' - repr)
    ensures NextCodesAt(lengths, sym + 1, nextCode)
    ensures Represents(root, nodes', repr', TrieOf(lengths, sym + 1))
  {
    hide Represents;
    if lengths[sym] == 0 {
      nodes', repr' := nodes, repr;
      assert lengths[..sym + 1][..sym] == lengths[..sym];
    } else {
      var c := TakeCode(lengths, sym, nextCode);
      nodes', repr' := InsertCode(root, c, lengths[sym], sym, nodes, repr, TrieOf(lengths, sym));
    }
  }

  method NewRoot(sym: int) returns (root: TrieNode, ghost nodes: Nodes, ghost repr: set<TrieNode>)
    ensures fresh(repr) && Represents(root, nodes, repr, map[[] := sym])
  {
    root := new TrieNode(sym, []);
    nodes, repr := map[[] := root], {root};
  }

  method BuildHuffTrie(lengths: seq<nat>) returns (root: TrieNode, ghost nodes: Nodes, ghost repr: set<TrieNode>)
    requires NibbleLengths(lengths)
    ensures fresh(repr) && Represents(root, nodes, repr, HuffmanTrie(lengths))
  {
    hide Represents;
    var maxLen := MaxLen(lengths);
    if maxLen == 0 {
      root, nodes, repr := NewRoot(0);
      return;
    }
    var blCount := CountLengths(lengths, maxLen);
    var nextCode := NumberLengths(lengths, maxLen, blCount);
    root, nodes, repr := NewRoot(-1);
    for sym := 0 to |lengths|
      invariant fresh(repr) && NextCodesAt(lengths, sym, nextCode)
      invariant Represents(root, nodes, repr, TrieOf(lengths, sym))
    {
      nodes, repr := InsertSymbol(lengths, sym, nextCode, root, nodes, repr);
    }
  }

  /** Walk from the root, one bit of the stream a step. */
  method DecodeHuff(root: TrieNode, s: BitStream,
                    ghost nodes: Nodes, ghost repr: set<TrieNode>, ghost t: Trie)
    returns (sym: Option<int>)
    requires Represents(root, nodes, repr, t) && s.Valid() && s.bits < 32
    modifies s`pos, s`buf, s`bits, s`queue
    ensures s.Valid() && s.bits < 32
    ensures [] in t && (sym, s.View()) == Walked(t, s.data, old(s.View()), [])
  {
    var node: TrieNode := root;
    assert NodeOk(nodes, repr, [], t[[]]);
    while node.sym == -1
      invariant s.Valid() && s.bits < 32
      invariant node.path in nodes && nodes[node.path] == node && NodeOk(nodes, repr, node.path, t[node.path])
      invariant Walked(t, s.data, s.View(), node.path) == Walked(t, s.data, old(s.View()), [])
      decreases BitsLeft(s.data, s.View())
    {
      ghost var before := s.View();
      RefilledKeepsBits(s.data, before, 1);
      var bit := s.ReadBits(1);
      if bit == None {
        return None;
      }
      var next := if bit.value == 0 then node.child0 else node.child1;
      if next == null {
        return None;
      }
      node := next;
      assert NodeOk(nodes, repr, node.path, t[node.path]);
    }
    sym := Some(node.sym);
  }
}
