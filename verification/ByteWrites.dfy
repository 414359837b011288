/** Blocks written over a sequence of bytes in order, extending it where they reach past its end. */
module ByteWrites {
  import opened Bits

  datatype Write = Write(off: nat, data: seq<byte>)

  /** Copy one block into the content, extending it with zeros where it is too short. */
  function Written(base: seq<byte>, w: Write): (h: seq<byte>)
    ensures |h| == if w.off + |w.data| > |base| then w.off + |w.data| else |base|
  {
    var end := w.off + |w.data|;
    var long := if end > |base| then base + Zeros(end - |base|) else base;
    long[..w.off] + w.data + long[end..]
  }

  /** A fold over the writes in order. */
  function Replayed(base: seq<byte>, ws: seq<Write>): seq<byte>
    decreases |ws|
  {
    if ws == [] then base else Replayed(Written(base, ws[0]), ws[1..])
  }

  predicate Covers(w: Write, i: nat) {
    w.off <= i < w.off + |w.data|
  }

  /** The byte of the last write that covers position i. */
  function LastByte(ws: seq<Write>, i: nat): Option<byte> {
    if ws == [] then None
    else
      var w := ws[|ws| - 1];
      if Covers(w, i) then Some(w.data[i - w.off]) else LastByte(ws[..|ws| - 1], i)
  }

  /** How far the content reaches once all writes fit. */
  function Reach(n: nat, ws: seq<Write>): (m: nat)
    ensures m >= n
  {
    if ws == [] then n
    else
      var front := Reach(n, ws[..|ws| - 1]);
      var w := ws[|ws| - 1];
      if w.off + |w.data| > front then w.off + |w.data| else front
  }

  lemma WrittenAt(base: seq<byte>, w: Write, i: nat)
    requires i < |Written(base, w)|
    ensures Written(base, w)[i] == if Covers(w, i) then w.data[i - w.off] else if i < |base| then base[i] else 0
  {
  }

  lemma {:induction false} ReplayedConcat(base: seq<byte>, a: seq<Write>, b: seq<Write>)
    ensures Replayed(base, a + b) == Replayed(Replayed(base, a), b)
    decreases |a|
  {
    hide Written;
    if a == [] {
      assert a + b == b;
    } else {
      assert (a + b)[1..] == a[1..] + b;
      ReplayedConcat(Written(base, a[0]), a[1..], b);
    }
  }

  lemma ReplayedLast(base: seq<byte>, ws: seq<Write>)
    requires ws != []
    ensures Replayed(base, ws) == Written(Replayed(base, ws[..|ws| - 1]), ws[|ws| - 1])
  {
    var a, w := ws[..|ws| - 1], ws[|ws| - 1];
    assert ws == a + [w];
    ReplayedConcat(base, a, [w]);
    assert [w][1..] == [];
  }

  /** Each byte after a replay comes from the last write covering it, else from the content, else it is
      a zero of the extension; the content reaches to its own end or the furthest write. */
  lemma {:induction false} ReplayedAt(base: seq<byte>, ws: seq<Write>)
    ensures |Replayed(base, ws)| == Reach(|base|, ws)
    ensures forall i :: 0 <= i < |Replayed(base, ws)| ==>
      Replayed(base, ws)[i] ==
        if LastByte(ws, i).Some? then LastByte(ws, i).value else if i < |base| then base[i] else 0
    decreases |ws|
  {
    hide Written;
    if ws != [] {
      var front, w := ws[..|ws| - 1], ws[|ws| - 1];
      ReplayedAt(base, front);
      ReplayedLast(base, ws);
      var before := Replayed(base, front);
      forall i | 0 <= i < |Replayed(base, ws)|
        ensures Replayed(base, ws)[i] ==
          if LastByte(ws, i).Some? then LastByte(ws, i).value else if i < |base| then base[i] else 0
      {
        WrittenAt(before, w, i);
        if !Covers(w, i) && i >= |before| {
          NotCoveredPastReach(|base|, front, i);
        }
      }
    }
  }

  lemma {:induction false} NotCoveredPastReach(n: nat, ws: seq<Write>, i: nat)
    requires i >= Reach(n, ws)
    ensures LastByte(ws, i) == None && i >= n
  {
    if ws != [] {
      NotCoveredPastReach(n, ws[..|ws| - 1], i);
    }
  }

  lemma {:induction false} ReachAgain(n: nat, ws: seq<Write>, m: nat)
    requires m >= Reach(n, ws)
    ensures Reach(m, ws) == m
  {
    if ws != [] {
      ReachAgain(n, ws[..|ws| - 1], m);
    }
  }

  /** Replaying the same writes again changes nothing. */
  lemma ReplayTwice(base: seq<byte>, ws: seq<Write>)
    ensures Replayed(Replayed(base, ws), ws) == Replayed(base, ws)
  {
    hide Replayed, LastByte;
    var once := Replayed(base, ws);
    ReplayedAt(base, ws);
    ReplayedAt(once, ws);
    ReachAgain(|base|, ws, |once|);
  }

  lemma {:induction false} LastByteOfConcat(a: seq<Write>, b: seq<Write>, i: nat)
    ensures LastByte(a + b, i) == if LastByte(b, i).Some? then LastByte(b, i) else LastByte(a, i)
    decreases |b|
  {
    if b == [] {
      assert a + b == a;
    } else {
      var front := b[..|b| - 1];
      assert (a + b)[..|a + b| - 1] == a + front;
      LastByteOfConcat(a, front, i);
    }
  }
}
