/** Canonical Huffman codes: the numbering the trie builder computes from a table of
    code lengths, and when that numbering is a prefix code. */
module CanonicalCodes {
  import opened Bits

  /** A symbol takes part in the code when its length is not 0. */
  predicate Used(lengths: seq<nat>, sym: int) {
    0 <= sym < |lengths| && lengths[sym] > 0
  }

  function MaxLen(lengths: seq<nat>): (m: nat)
    ensures forall s :: 0 <= s < |lengths| ==> lengths[s] <= m
    ensures m > 0 ==> m in lengths
  {
    if lengths == [] then 0
    else
      var front := MaxLen(lengths[..|lengths| - 1]);
      var last := lengths[|lengths| - 1];
      if last > front then last else front
  }

  /** blCount[l]: how many symbols have length l (length 0 is not counted). */
  function CountOf(lengths: seq<nat>, l: nat): nat {
    if lengths == [] || l == 0 then 0
    else CountOf(lengths[..|lengths| - 1], l) + (if lengths[|lengths| - 1] == l then 1 else 0)
  }

  /** nextCode[l] before any symbol is inserted. */
  function FirstCode(lengths: seq<nat>, l: nat): nat {
    if l == 0 then 0 else 2 * (FirstCode(lengths, l - 1) + CountOf(lengths, l - 1))
  }

  /** The code number of a symbol: the first of its length plus the symbols of that length before it. */
  function Code(lengths: seq<nat>, sym: nat): nat
    requires sym < |lengths|
  {
    FirstCode(lengths, lengths[sym]) + CountOf(lengths[..sym], lengths[sym])
  }

  /** The path of a symbol: the low `length` bits of its code number. */
  function CodeBits(lengths: seq<nat>, sym: nat): (q: seq<bit>)
    requires sym < |lengths|
    ensures |q| == lengths[sym]
  {
    BitsOf(Code(lengths, sym), lengths[sym])
  }

  /** The sum over the used symbols of length at most m of 2^(m - length). */
  function KraftSum(lengths: seq<nat>, m: nat): nat {
    if lengths == [] then 0
    else
      var l := lengths[|lengths| - 1];
      KraftSum(lengths[..|lengths| - 1], m) + (if 0 < l <= m then Pow2(m - l) else 0)
  }

  /** Kraft's inequality, multiplied out by 2^MaxLen. */
  predicate Kraft(lengths: seq<nat>) {
    KraftSum(lengths, MaxLen(lengths)) <= Pow2(MaxLen(lengths))
  }

  lemma {:induction false} KraftStep(lengths: seq<nat>, m: nat)
    ensures KraftSum(lengths, m + 1) == 2 * KraftSum(lengths, m) + CountOf(lengths, m + 1)
  {
    if lengths != [] {
      KraftStep(lengths[..|lengths| - 1], m);
    }
  }

  /** The running code number is the Kraft sum so far. */
  lemma {:induction false} FirstCodeIsKraftSum(lengths: seq<nat>, m: nat)
    ensures FirstCode(lengths, m) + CountOf(lengths, m) == KraftSum(lengths, m)
  {
    if m == 0 {
      KraftSumZero(lengths);
    } else {
      FirstCodeIsKraftSum(lengths, m - 1);
      KraftStep(lengths, m - 1);
    }
  }

  lemma {:induction false} KraftSumZero(lengths: seq<nat>)
    ensures KraftSum(lengths, 0) == 0
  {
    if lengths != [] {
      KraftSumZero(lengths[..|lengths| - 1]);
    }
  }

  lemma {:induction false} KraftSumGrows(lengths: seq<nat>, l: nat, m: nat)
    requires l <= m
    ensures KraftSum(lengths, l) * Pow2(m - l) <= KraftSum(lengths, m)
  {
    if l < m {
      KraftSumGrows(lengths, l, m - 1);
      KraftStep(lengths, m - 1);
      Doubled(KraftSum(lengths, l), Pow2(m - 1 - l));
    }
  }

  lemma Doubled(x: nat, p: nat)
    ensures x * (2 * p) == 2 * (x * p)
  {
  }

  lemma {:induction false} CountSplits(lengths: seq<nat>, k: nat, l: nat)
    requires k <= |lengths|
    ensures CountOf(lengths[..k], l) <= CountOf(lengths, l)
    ensures k < |lengths| && lengths[k] == l && l > 0 ==> CountOf(lengths[..k], l) < CountOf(lengths, l)
    decreases |lengths|
  {
    if k < |lengths| {
      var front := lengths[..|lengths| - 1];
      assert front[..k] == lengths[..k];
      CountSplits(front, k, l);
    } else {
      assert lengths[..k] == lengths;
    }
  }

  lemma CodeBelowKraftSum(lengths: seq<nat>, sym: nat)
    requires Used(lengths, sym)
    ensures Code(lengths, sym) < KraftSum(lengths, lengths[sym])
  {
    CountSplits(lengths, sym, lengths[sym]);
    FirstCodeIsKraftSum(lengths, lengths[sym]);
  }

  /** Under Kraft's inequality every code number fits its length. */
  lemma CodeFits(lengths: seq<nat>, sym: nat)
    requires Used(lengths, sym) && Kraft(lengths)
    ensures Code(lengths, sym) < Pow2(lengths[sym])
  {
    var l, m := lengths[sym], MaxLen(lengths);
    CodeBelowKraftSum(lengths, sym);
    KraftSumGrows(lengths, l, m);
    Pow2Add(l, m - l);
    Cancel(KraftSum(lengths, l), Pow2(l), Pow2(m - l));
  }

  lemma Cancel(x: nat, y: nat, p: nat)
    requires p > 0 && x * p <= y * p
    ensures x <= y
  {
    MulBound(x - y, p);
    assert (x - y) * p == x * p - y * p;
  }

  lemma {:induction false} LastOfLength(lengths: seq<nat>, l: nat) returns (sym: nat)
    requires l > 0 && l in lengths
    ensures sym < |lengths| && lengths[sym] == l
    ensures CountOf(lengths[..sym], l) + 1 == CountOf(lengths, l)
  {
    var n := |lengths| - 1;
    if lengths[n] == l {
      sym := n;
    } else {
      sym := LastOfLength(lengths[..n], l);
      assert lengths[..n][..sym] == lengths[..sym];
    }
  }

  /** Every code number fits its length exactly when Kraft's inequality holds. */
  lemma CodesFitIffKraft(lengths: seq<nat>)
    ensures Kraft(lengths) <==> forall s :: Used(lengths, s) ==> Code(lengths, s) < Pow2(lengths[s])
  {
    if Kraft(lengths) {
      forall s | Used(lengths, s)
        ensures Code(lengths, s) < Pow2(lengths[s])
      {
        CodeFits(lengths, s);
      }
    } else if MaxLen(lengths) == 0 {
      KraftSumZero(lengths);
    } else {
      var s := LastOfLength(lengths, MaxLen(lengths));
      FirstCodeIsKraftSum(lengths, lengths[s]);
      assert Used(lengths, s) && !(Code(lengths, s) < Pow2(lengths[s]));
    }
  }

  /** No symbol's path is a prefix of another's. */
  ghost predicate PrefixFree(lengths: seq<nat>) {
    forall s, t :: Used(lengths, s) && Used(lengths, t) && CodeBits(lengths, s) <= CodeBits(lengths, t) ==> s == t
  }

  lemma SameLengthCodesDiffer(lengths: seq<nat>, s: nat, t: nat)
    requires Used(lengths, s) && Used(lengths, t) && lengths[s] == lengths[t] && s < t
    ensures Code(lengths, s) < Code(lengths, t)
  {
    assert lengths[..t][..s] == lengths[..s];
    CountSplits(lengths[..t], s, lengths[s]);
  }

  lemma LongerCodesStartLater(lengths: seq<nat>, s: nat, t: nat)
    requires Used(lengths, s) && Used(lengths, t) && lengths[s] < lengths[t]
    ensures (Code(lengths, s) + 1) * Pow2(lengths[t] - lengths[s]) <= Code(lengths, t)
  {
    var l, m := lengths[s], lengths[t];
    CodeBelowKraftSum(lengths, s);
    FirstCodeIsKraftSum(lengths, m - 1);
    KraftSumGrows(lengths, l, m - 1);
    Doubled(KraftSum(lengths, l), Pow2(m - 1 - l));
    MulMonotone(Code(lengths, s) + 1, KraftSum(lengths, l), Pow2(m - l));
  }

  lemma MulMonotone(x: nat, y: nat, p: nat)
    requires x <= y
    ensures x * p <= y * p
  {
    assert y * p == x * p + (y - x) * p;
  }

  /** The path of a code that fits denotes the code number. */
  lemma PathValue(lengths: seq<nat>, s: nat)
    requires Used(lengths, s) && Kraft(lengths)
    ensures NatOf(CodeBits(lengths, s)) == Code(lengths, s)
  {
    CodeFits(lengths, s);
    NatOfBitsOf(Code(lengths, s), lengths[s]);
  }

  lemma ExtensionValue(p: seq<bit>, q: seq<bit>)
    requires p <= q
    ensures NatOf(q) < (NatOf(p) + 1) * Pow2(|q| - |p|)
    ensures |p| == |q| ==> NatOf(p) == NatOf(q)
  {
    hide NatOf, Pow2;
    var b := q[|p|..];
    assert q == p + b && |b| == |q| - |p|;
    NatOfConcat(p, b);
    NatOfBound(b);
    NextBlock(NatOf(p), Pow2(|b|));
    if |p| == |q| {
      assert p == q;
    }
  }

  lemma NextBlock(x: nat, p: nat)
    ensures (x + 1) * p == x * p + p
  {
  }

  /** Kraft's inequality makes the canonical numbering a prefix code. */
  lemma KraftIsPrefixFree(lengths: seq<nat>)
    requires Kraft(lengths)
    ensures PrefixFree(lengths)
  {
    forall s, t | Used(lengths, s) && Used(lengths, t) && CodeBits(lengths, s) <= CodeBits(lengths, t)
      ensures s == t
    {
      PathValue(lengths, s);
      PathValue(lengths, t);
      ExtensionValue(CodeBits(lengths, s), CodeBits(lengths, t));
      if lengths[s] < lengths[t] {
        LongerCodesStartLater(lengths, s, t);
      } else if s < t {
        SameLengthCodesDiffer(lengths, s, t);
      } else if t < s {
        SameLengthCodesDiffer(lengths, t, s);
      }
    }
  }

  /** With code lengths up to 15 the running code number stays far inside uint32. */
  lemma {:induction false} FirstCodeBound(lengths: seq<nat>, l: nat)
    ensures FirstCode(lengths, l) + CountOf(lengths, l) <= |lengths| * Pow2(l)
  {
    FirstCodeIsKraftSum(lengths, l);
    KraftSumBound(lengths, l);
  }

  lemma {:induction false} KraftSumBound(lengths: seq<nat>, m: nat)
    ensures KraftSum(lengths, m) <= |lengths| * Pow2(m)
  {
    if lengths != [] {
      var n := |lengths| - 1;
      KraftSumBound(lengths[..n], m);
      if 0 < lengths[n] <= m {
        Pow2Monotone(m - lengths[n], m);
      }
      assert (n + 1) * Pow2(m) == n * Pow2(m) + Pow2(m);
    }
  }

  // ---- The numbering is the canonical one ----------------------------------------------------------

  /** Shorter codes come first, and codes of one length in symbol order. */
  predicate Before(lengths: seq<nat>, s: nat, t: nat)
    requires s < |lengths| && t < |lengths|
  {
    lengths[s] < lengths[t] || (lengths[s] == lengths[t] && s < t)
  }

  /** t comes next after s among the used symbols. */
  ghost predicate Follows(lengths: seq<nat>, s: nat, t: nat) {
    && Used(lengths, s) && Used(lengths, t) && Before(lengths, s, t)
    && forall u: nat :: Used(lengths, u) && Before(lengths, s, u) ==> !Before(lengths, u, t)
  }

  lemma {:induction false} NoneOfLength(lengths: seq<nat>, l: nat, a: nat, b: nat)
    requires a <= b <= |lengths| && l > 0 && forall u :: a <= u < b ==> lengths[u] != l
    ensures CountOf(lengths[..b], l) == CountOf(lengths[..a], l)
  {
    if a < b {
      NoneOfLength(lengths, l, a, b - 1);
      assert lengths[..b][..b - 1] == lengths[..b - 1];
    }
  }

  lemma OneMoreOfLength(lengths: seq<nat>, s: nat)
    requires Used(lengths, s)
    ensures CountOf(lengths[..s + 1], lengths[s]) == CountOf(lengths[..s], lengths[s]) + 1
  {
    assert lengths[..s + 1][..s] == lengths[..s];
  }

  /** Where a length has no symbol the running code number only doubles. */
  lemma {:induction false} FirstCodeDoubles(lengths: seq<nat>, l: nat, m: nat)
    requires 0 < l < m && forall u :: 0 <= u < |lengths| ==> !(l < lengths[u] < m)
    ensures FirstCode(lengths, m) == (FirstCode(lengths, l) + CountOf(lengths, l)) * Pow2(m - l)
  {
    hide CountOf;
    if m == l + 1 {
      assert Pow2(0) == 1 && Pow2(1) == 2;
    } else {
      FirstCodeDoubles(lengths, l, m - 1);
      NoneOfLength(lengths, m - 1, 0, |lengths|);
      assert lengths[..|lengths|] == lengths;
      NothingCounted(m - 1);
      assert lengths[..0] == [];
      assert Pow2(m - l) == 2 * Pow2(m - 1 - l);
      Doubled(FirstCode(lengths, l) + CountOf(lengths, l), Pow2(m - 1 - l));
    }
  }

  lemma NothingCounted(l: nat)
    ensures CountOf([], l) == 0
  {
  }

  /** The next code is one more, with zeros appended up to its length. */
  lemma CodesAreSuccessive(lengths: seq<nat>, s: nat, t: nat)
    requires Follows(lengths, s, t)
    ensures lengths[s] <= lengths[t] && Code(lengths, t) == (Code(lengths, s) + 1) * Pow2(lengths[t] - lengths[s])
  {
    hide CountOf, FirstCode;
    var l, m := lengths[s], lengths[t];
    forall u | 0 <= u < |lengths| && lengths[u] > 0
      ensures !(Before(lengths, s, u) && Before(lengths, u, t))
    {
      assert Used(lengths, u);
    }
    OneMoreOfLength(lengths, s);
    if l == m {
      NoneOfLength(lengths, l, s + 1, t);
      assert Pow2(0) == 1;
    } else {
      NoneOfLength(lengths, l, s + 1, |lengths|);
      assert lengths[..|lengths|] == lengths;
      NoneOfLength(lengths, m, 0, t);
      assert lengths[..0] == [];
      NothingCounted(m);
      FirstCodeDoubles(lengths, l, m);
    }
  }

  /** The first code is all zeros. */
  lemma FirstCodeIsZero(lengths: seq<nat>, s: nat)
    requires Used(lengths, s) && forall u: nat :: Used(lengths, u) ==> !Before(lengths, u, s)
    ensures Code(lengths, s) == 0
  {
    hide CountOf;
    var l := lengths[s];
    forall u | 0 <= u < |lengths| && lengths[u] > 0 ensures !Before(lengths, u, s) {
      assert Used(lengths, u);
    }
    NoneOfLength(lengths, l, 0, s);
    assert lengths[..0] == [];
    NothingCounted(l);
    NothingShorter(lengths, l);
  }

  lemma {:induction false} NothingShorter(lengths: seq<nat>, l: nat)
    requires forall u :: 0 <= u < |lengths| ==> !(0 < lengths[u] < l)
    ensures FirstCode(lengths, l) == 0
  {
    hide CountOf;
    if l > 0 {
      NothingShorter(lengths, l - 1);
      ZeroLength(lengths);
      if l > 1 {
        NoneOfLength(lengths, l - 1, 0, |lengths|);
        assert lengths[..|lengths|] == lengths && lengths[..0] == [];
        NothingCounted(l - 1);
      }
    }
  }

  lemma ZeroLength(lengths: seq<nat>)
    ensures CountOf(lengths, 0) == 0
  {
  }
}
