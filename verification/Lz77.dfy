/** LZ77 tokens and what they expand to over the whole output written so far. */
module Lz77 {
  import opened Bits

  datatype Token = Literal(b: byte) | Match(offset: nat, length: nat)

  /** The byte `offset` places before the end of the history; 0 before its start. */
  function Back(h: seq<byte>, offset: nat): byte {
    if 0 < offset <= |h| then h[|h| - offset] else 0
  }

  /** Copying byte by byte, so that bytes written by this copy can be copied again. */
  function Copied(h: seq<byte>, offset: nat, n: nat): (h': seq<byte>)
    ensures |h'| == |h| + n && h <= h'
  {
    if n == 0 then h else Copied(h, offset, n - 1) + [Back(Copied(h, offset, n - 1), offset)]
  }

  function Emit(h: seq<byte>, token: Token): (h': seq<byte>)
    ensures h <= h'
  {
    match token
    case Literal(b) => h + [b]
    case Match(offset, length) => Copied(h, offset, length)
  }

  function Expand(h: seq<byte>, tokens: seq<Token>): seq<byte>
    decreases |tokens|
  {
    if tokens == [] then h else Expand(Emit(h, tokens[0]), tokens[1..])
  }

  /** Stop a copy where the output must end. */
  function EmitWithin(h: seq<byte>, token: Token, end: nat): (h': seq<byte>)
    requires |h| < end
    ensures h <= h' && |h'| <= end
    ensures token.Literal? || token.length > 0 ==> |h| < |h'|
  {
    match token
    case Literal(b) => h + [b]
    case Match(offset, length) => Copied(h, offset, if length < end - |h| then length else end - |h|)
  }

  /** Each copied byte is the output byte `offset` places before it, also where that byte was
      itself written by the copy. */
  lemma {:induction false} CopiedAt(h: seq<byte>, offset: nat, n: nat, k: nat)
    requires k < n
    ensures Copied(h, offset, n)[|h| + k] == Back(Copied(h, offset, n)[..|h| + k], offset)
  {
    var front := Copied(h, offset, n - 1);
    if k < n - 1 {
      CopiedAt(h, offset, n - 1, k);
      assert Copied(h, offset, n)[..|h| + k] == front[..|h| + k];
    } else {
      assert Copied(h, offset, n)[..|h| + k] == front;
    }
  }

  /** A match longer than its offset repeats the last `offset` bytes of the history. */
  lemma {:induction false} OverlapRepeats(h: seq<byte>, offset: nat, n: nat, k: nat)
    requires 0 < offset <= |h| && k < n
    ensures Copied(h, offset, n)[|h| + k] == h[|h| - offset + k % offset]
    decreases k
  {
    hide Copied, Back;
    CopiedFromBack(h, offset, n, k);
    if k < offset {
      SmallMod(k, offset);
      assert Copied(h, offset, n)[..|h|] == h;
    } else {
      OverlapRepeats(h, offset, n, k - offset);
      ModStep(k, offset);
    }
  }

  lemma CopiedFromBack(h: seq<byte>, offset: nat, n: nat, k: nat)
    requires 0 < offset <= |h| && k < n
    ensures Copied(h, offset, n)[|h| + k] == Copied(h, offset, n)[|h| + k - offset]
  {
    hide Copied;
    CopiedAt(h, offset, n, k);
  }

  lemma ModStep(k: nat, m: nat)
    requires 0 < m <= k
    ensures k % m == (k - m) % m
  {
    DivUnique(k, m, (k - m) / m + 1, (k - m) % m);
  }

  lemma {:induction false} CopiedPrefix(h: seq<byte>, offset: nat, m: nat, n: nat)
    requires m <= n
    ensures Copied(h, offset, m) <= Copied(h, offset, n)
  {
    if m < n {
      CopiedPrefix(h, offset, m, n - 1);
    }
  }

  /** Stopping at the end of the output keeps a prefix of the full expansion of the token. */
  lemma EmitWithinIsPrefix(h: seq<byte>, token: Token, end: nat)
    requires |h| < end
    ensures EmitWithin(h, token, end) == if |Emit(h, token)| <= end then Emit(h, token) else Emit(h, token)[..end]
  {
    match token
    case Literal(b) =>
    case Match(offset, length) =>
      if length >= end - |h| {
        CopiedPrefix(h, offset, end - |h|, length);
      }
  }

  lemma {:induction false} ExpandConcat(h: seq<byte>, a: seq<Token>, b: seq<Token>)
    ensures Expand(h, a + b) == Expand(Expand(h, a), b)
    decreases |a|
  {
    if a == [] {
      assert a + b == b;
    } else {
      assert (a + b)[1..] == a[1..] + b;
      ExpandConcat(Emit(h, a[0]), a[1..], b);
    }
  }
}
