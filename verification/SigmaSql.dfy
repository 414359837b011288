/** SIGMA detection conditions as SQL text: what is printed, what it means once SQL reads it
    back with NOT over AND over OR, and when that is what the condition says. */
module SigmaSql {
  import opened Bits

  /** SQL text, cut into lexemes. A field condition is one closed atom. */
  datatype Lexeme = LParen | RParen | KwAnd | KwOr | KwNot | KwTrue | Atom(id: nat)

  type Text = seq<Lexeme>

  /** A truth value for every field condition. */
  type Env = nat -> bool

  // ---- Reading SQL back --------------------------------------------------------------

  /** NOT binds tightest, then AND, then OR. Each function gives the value and the text after it. */
  function EvalOr(s: Text, env: Env): (res: Option<(bool, Text)>)
    ensures res.Some? ==> |res.value.1| < |s|
    decreases |s|, 3
  {
    match EvalAnd(s, env)
    case None => None
    case Some((v, rest)) => EvalOrTail(v, rest, env)
  }

  function EvalOrTail(v: bool, s: Text, env: Env): (res: Option<(bool, Text)>)
    ensures res.Some? ==> |res.value.1| <= |s|
    decreases |s|, 0
  {
    if s != [] && s[0] == KwOr then
      match EvalAnd(s[1..], env)
      case None => None
      case Some((w, rest)) => EvalOrTail(v || w, rest, env)
    else Some((v, s))
  }

  function EvalAnd(s: Text, env: Env): (res: Option<(bool, Text)>)
    ensures res.Some? ==> |res.value.1| < |s|
    decreases |s|, 2
  {
    match EvalNot(s, env)
    case None => None
    case Some((v, rest)) => EvalAndTail(v, rest, env)
  }

  function EvalAndTail(v: bool, s: Text, env: Env): (res: Option<(bool, Text)>)
    ensures res.Some? ==> |res.value.1| <= |s|
    decreases |s|, 0
  {
    if s != [] && s[0] == KwAnd then
      match EvalNot(s[1..], env)
      case None => None
      case Some((w, rest)) => EvalAndTail(v && w, rest, env)
    else Some((v, s))
  }

  function EvalNot(s: Text, env: Env): (res: Option<(bool, Text)>)
    ensures res.Some? ==> |res.value.1| < |s|
    decreases |s|, 1
  {
    if s == [] then None
    else
      match s[0]
      case KwNot =>
        (match EvalNot(s[1..], env)
         case None => None
         case Some((v, rest)) => Some((!v, rest)))
      case LParen =>
        (match EvalOr(s[1..], env)
         case None => None
         case Some((v, rest)) => if rest != [] && rest[0] == RParen then Some((v, rest[1..])) else None)
      case KwTrue => Some((true, s[1..]))
      case Atom(id) => Some((env(id), s[1..]))
      case _ => None
  }

  /** The value of a whole text; None when it is not one expression. */
  function SqlValue(s: Text, env: Env): Option<bool> {
    var res := EvalOr(s, env);
    if res.Some? && res.value.1 == [] then Some(res.value.0) else None
  }

  // ---- Texts and their values ----------------------------------------------------------

  /** t reads as an operand of NOT and AND with value v, whatever follows it. */
  ghost predicate IsUnit(t: Text, v: bool, env: Env) {
    forall rest: Text :: EvalNot(t + rest, env) == Some((v, rest))
  }

  /** t reads as an operand of OR with value v; an AND after it continues it. */
  ghost predicate IsConjunct(t: Text, v: bool, env: Env) {
    forall rest: Text :: EvalAnd(t + rest, env) == EvalAndTail(v, rest, env)
  }

  function Any(vs: seq<bool>): (b: bool)
    ensures b <==> true in vs
  {
    vs != [] && (vs[0] || Any(vs[1..]))
  }

  function All(vs: seq<bool>): (b: bool)
    ensures b <==> false !in vs
  {
    vs == [] || (vs[0] && All(vs[1..]))
  }

  /** strings.Join */
  function Join(parts: seq<Text>, sep: Lexeme): Text {
    if parts == [] then []
    else if |parts| == 1 then parts[0]
    else parts[0] + [sep] + Join(parts[1..], sep)
  }

  /** Each text reads as an operand of OR with its value. */
  ghost predicate Conjuncts(parts: seq<Text>, vs: seq<bool>, env: Env) {
    |parts| == |vs| > 0 && forall i :: 0 <= i < |parts| ==> IsConjunct(parts[i], vs[i], env)
  }

  lemma UnitIsConjunct(t: Text, v: bool, env: Env)
    requires IsUnit(t, v, env)
    ensures IsConjunct(t, v, env)
  {
  }

  /** Units joined by AND read as their conjunction. */
  lemma {:induction false} AndJoinReads(parts: seq<Text>, vs: seq<bool>, env: Env, rest: Text)
    requires |parts| == |vs| > 0 && forall i :: 0 <= i < |parts| ==> IsUnit(parts[i], vs[i], env)
    ensures EvalAnd(Join(parts, KwAnd) + rest, env) == EvalAndTail(All(vs), rest, env)
  {
    AndTailJoin(parts, vs, env, rest, true);
    var t := Join(parts, KwAnd);
    assert ([KwAnd] + (t + rest))[1..] == t + rest;
    assert EvalAndTail(true, [KwAnd] + (t + rest), env) == EvalAnd(t + rest, env) by {
      FirstConjunct(t + rest, env);
    }
  }

  lemma FirstConjunct(s: Text, env: Env)
    ensures EvalAndTail(true, [KwAnd] + s, env) == EvalAnd(s, env)
  {
    assert ([KwAnd] + s)[1..] == s;
  }

  lemma {:induction false} AndTailJoin(parts: seq<Text>, vs: seq<bool>, env: Env, rest: Text, v: bool)
    requires |parts| == |vs| > 0 && forall i :: 0 <= i < |parts| ==> IsUnit(parts[i], vs[i], env)
    ensures EvalAndTail(v, [KwAnd] + (Join(parts, KwAnd) + rest), env) == EvalAndTail(v && All(vs), rest, env)
    decreases |parts|
  {
    hide EvalAndTail, Join, IsUnit;
    JoinFirst(parts, KwAnd, rest);
    if |parts| == 1 {
      assert vs[1..] == [];
      AndTakes(v, parts[0], vs[0], rest, env);
    } else {
      AndTakes(v, parts[0], vs[0], [KwAnd] + (Join(parts[1..], KwAnd) + rest), env);
      AndTailJoin(parts[1..], vs[1..], env, rest, v && vs[0]);
    }
  }

  /** The first of the texts in front of the others. */
  lemma JoinFirst(parts: seq<Text>, sep: Lexeme, rest: Text)
    requires parts != []
    ensures Join(parts, sep) + rest ==
            if |parts| == 1 then parts[0] + rest else parts[0] + ([sep] + (Join(parts[1..], sep) + rest))
  {
    hide Join;
    JoinParts(parts, sep);
    if |parts| > 1 {
      Regrouped(parts[0], [sep], Join(parts[1..], sep), rest);
    }
  }

  lemma Regrouped(a: Text, b: Text, c: Text, d: Text)
    ensures a + b + c + d == a + (b + (c + d))
  {
  }

  lemma JoinParts(parts: seq<Text>, sep: Lexeme)
    requires parts != []
    ensures Join(parts, sep) == if |parts| == 1 then parts[0] else parts[0] + [sep] + Join(parts[1..], sep)
  {
  }

  /** One operand of AND taken. */
  lemma AndTakes(v: bool, t: Text, w: bool, tail: Text, env: Env)
    requires IsUnit(t, w, env)
    ensures EvalAndTail(v, [KwAnd] + (t + tail), env) == EvalAndTail(v && w, tail, env)
  {
    assert ([KwAnd] + (t + tail))[1..] == t + tail;
    assert EvalNot(t + tail, env) == Some((w, tail));
  }

  ghost predicate NoAnd(rest: Text) {
    rest == [] || rest[0] != KwAnd
  }

  /** Operands of OR joined by OR read as their disjunction, when no AND follows. */
  lemma {:induction false} OrJoinReads(parts: seq<Text>, vs: seq<bool>, env: Env, rest: Text)
    requires Conjuncts(parts, vs, env) && NoAnd(rest)
    ensures EvalOr(Join(parts, KwOr) + rest, env) == EvalOrTail(Any(vs), rest, env)
  {
    OrTailJoin(parts, vs, env, rest, false);
    var t := Join(parts, KwOr) + rest;
    assert ([KwOr] + t)[1..] == t;
  }

  /** One operand of OR taken, with whatever ANDs continue it. */
  lemma OrTakes(v: bool, t: Text, w: bool, tail: Text, env: Env)
    requires IsConjunct(t, w, env) && EvalAndTail(w, tail, env).Some?
    ensures var (x, rest) := EvalAndTail(w, tail, env).value;
            EvalOrTail(v, [KwOr] + (t + tail), env) == EvalOrTail(v || x, rest, env)
  {
    assert ([KwOr] + (t + tail))[1..] == t + tail;
    assert EvalAnd(t + tail, env) == EvalAndTail(w, tail, env);
  }

  lemma NoAndFollows(w: bool, tail: Text, env: Env)
    requires NoAnd(tail)
    ensures EvalAndTail(w, tail, env) == Some((w, tail))
  {
  }

  lemma JoinHead(parts: seq<Text>, sep: Lexeme, rest: Text)
    requires parts != []
    ensures |parts| == 1 ==> Join(parts, sep) + rest == parts[0] + rest
    ensures |parts| > 1 ==> Join(parts, sep) + rest == parts[0] + ([sep] + (Join(parts[1..], sep) + rest))
  {
  }

  lemma {:induction false} OrTailJoin(parts: seq<Text>, vs: seq<bool>, env: Env, rest: Text, v: bool)
    requires Conjuncts(parts, vs, env) && NoAnd(rest)
    ensures EvalOrTail(v, [KwOr] + (Join(parts, KwOr) + rest), env) == EvalOrTail(v || Any(vs), rest, env)
    decreases |parts|
  {
    hide Join, EvalOrTail, EvalAndTail, IsConjunct;
    JoinHead(parts, KwOr, rest);
    var after := if |parts| == 1 then rest else [KwOr] + (Join(parts[1..], KwOr) + rest);
    NoAndFollows(vs[0], after, env);
    OrTakes(v, parts[0], vs[0], after, env);
    if |parts| == 1 {
      assert vs[1..] == [];
    } else {
      OrTailJoin(parts[1..], vs[1..], env, rest, v || vs[0]);
    }
  }

  /** A parenthesised disjunction is a unit. */
  lemma ParenReads(parts: seq<Text>, vs: seq<bool>, env: Env)
    requires Conjuncts(parts, vs, env)
    ensures IsUnit([LParen] + Join(parts, KwOr) + [RParen], Any(vs), env)
  {
    hide Join, EvalAnd, Conjuncts, Any;
    forall rest: Text
      ensures EvalNot([LParen] + Join(parts, KwOr) + [RParen] + rest, env) == Some((Any(vs), rest))
    {
      var s := [LParen] + Join(parts, KwOr) + [RParen] + rest;
      assert s[1..] == Join(parts, KwOr) + ([RParen] + rest);
      OrJoinReads(parts, vs, env, [RParen] + rest);
      assert ([RParen] + rest)[1..] == rest;
    }
  }

  lemma NotReads(t: Text, v: bool, env: Env)
    requires IsUnit(t, v, env)
    ensures IsUnit([KwNot] + t, !v, env)
  {
    forall rest: Text
      ensures EvalNot([KwNot] + t + rest, env) == Some((!v, rest))
    {
      assert ([KwNot] + t + rest)[1..] == t + rest;
    }
  }

  lemma AtomReads(a: Lexeme, env: Env)
    requires a == KwTrue || a.Atom?
    ensures IsUnit([a], a == KwTrue || env(a.id), env)
  {
    forall rest: Text
      ensures EvalNot([a] + rest, env) == Some((a == KwTrue || env(a.id), rest))
    {
      assert ([a] + rest)[1..] == rest;
    }
  }
}
