/** The emitted SQL means what the condition says, except where an OR list is printed bare
    next to AND. */
module SigmaMeaning {
  import opened Bits
  import opened SigmaSql
  import opened SigmaCondition

  // ---- Every emitted text reads back as its parts ---------------------------------------

  lemma MapReads(conds: seq<Condition>, env: Env)
    ensures IsConjunct(MapText(conds), MapMeaning(conds, env), env)
  {
    if conds == [] {
      AtomReads(KwTrue, env);
      UnitIsConjunct([KwTrue], true, env);
    } else {
      var ts, vs := CondTexts(conds), CondValues(conds, env);
      forall i | 0 <= i < |ts|
        ensures IsUnit(ts[i], vs[i], env)
      {
        AtomReads(conds[i], env);
      }
      forall rest: Text
        ensures EvalAnd(Join(ts, KwAnd) + rest, env) == EvalAndTail(All(vs), rest, env)
      {
        AndJoinReads(ts, vs, env, rest);
      }
    }
  }

  /** A single text in parentheses is a unit. */
  lemma BracketReads(t: Text, v: bool, env: Env)
    requires IsConjunct(t, v, env)
    ensures IsUnit([LParen] + t + [RParen], v, env)
  {
    ParenReads([t], [v], env);
    assert Any([v]) == v;
  }

  lemma {:induction false} ItemsRead(items: seq<Item>, env: Env)
    ensures |ItemTexts(items)| == |ItemValues(items, env)|
    ensures forall i :: 0 <= i < |ItemTexts(items)| ==> IsUnit(ItemTexts(items)[i], ItemValues(items, env)[i], env)
  {
    hide IsUnit, IsConjunct, MapText, MapMeaning;
    if items != [] {
      ItemsRead(items[1..], env);
      if items[0].Fields? {
        MapReads(items[0].conds, env);
        BracketReads(MapText(items[0].conds), MapMeaning(items[0].conds, env), env);
      }
    }
  }

  lemma TrueReads(env: Env)
    ensures Conjuncts([[KwTrue]], [true], env)
  {
    AtomReads(KwTrue, env);
  }

  lemma SelectionReads(sel: Selection, env: Env)
    ensures Conjuncts(SelectionParts(sel), SelectionValues(sel, env), env)
  {
    TrueReads(env);
    match sel
    case FieldMap(conds) => MapReads(conds, env);
    case ItemList(items) => ItemsRead(items, env);
    case Scalar =>
  }

  lemma {:induction false} BracketedRead(sels: seq<Selection>, env: Env)
    ensures forall i :: 0 <= i < |sels| ==> IsUnit(Bracketed(sels)[i], Meanings(sels, env)[i], env)
    ensures forall i :: 0 <= i < |sels| ==> Meanings(sels, env)[i] == SelectionMeaning(sels[i], env)
  {
    hide IsUnit, IsConjunct, Conjuncts, Join, SelectionParts, SelectionValues;
    if sels != [] {
      BracketedRead(sels[1..], env);
      SelectionReads(sels[0], env);
      ParenReads(SelectionParts(sels[0]), SelectionValues(sels[0], env), env);
    }
  }

  lemma PatternReads(pattern: string, rule: Rule, op: Lexeme, env: Env)
    requires op == KwOr || op == KwAnd
    ensures Conjuncts(PatternParts(pattern, rule, op), PatternValues(pattern, rule, op, env), env)
  {
    TrueReads(env);
    var sels := Matching(pattern, rule);
    var ts, vs := Bracketed(sels), Meanings(sels, env);
    BracketedRead(sels, env);
    if ts != [] && op == KwAnd {
      forall rest: Text
        ensures EvalAnd(Join(ts, KwAnd) + rest, env) == EvalAndTail(All(vs), rest, env)
      {
        AndJoinReads(ts, vs, env, rest);
      }
    }
  }

  lemma NamedReads(name: string, rule: Rule, env: Env)
    ensures Conjuncts(NamedParts(name, rule), NamedValues(name, rule, env), env)
  {
    TrueReads(env);
    if name in rule.sels {
      SelectionReads(rule.sels[name], env);
    }
  }

  /** One text as a whole operand. */
  lemma SingleConjunct(t: Text, v: bool, env: Env)
    requires IsUnit(t, v, env)
    ensures Conjuncts([t], [v], env)
  {
    UnitIsConjunct(t, v, env);
  }

  lemma OrBetweenLists(left: seq<Text>, right: seq<Text>, ls: seq<bool>, rs: seq<bool>, env: Env, rest: Text)
    requires Conjuncts(left, ls, env) && Conjuncts(right, rs, env) && NoAnd(rest)
    ensures EvalOr(Join(left, KwOr) + ([KwOr] + (Join(right, KwOr) + rest)), env) ==
            EvalOrTail(Any(ls) || Any(rs), rest, env)
  {
    hide Join, EvalOr, EvalOrTail, Conjuncts;
    OrJoinReads(left, ls, env, [KwOr] + (Join(right, KwOr) + rest));
    OrTailJoin(right, rs, env, rest, Any(ls));
  }

  lemma CombinedReads(op: string, left: seq<Text>, right: seq<Text>, ls: seq<bool>, rs: seq<bool>, env: Env)
    requires Conjuncts(left, ls, env) && Conjuncts(right, rs, env)
    ensures Conjuncts(Combined(op, left, right), [CombinedValue(op, ls, rs)], env)
  {
    hide Join, EvalOr, EvalOrTail, IsUnit, AndReading, IsConjunct;
    var kw := if op == "and" then KwAnd else KwOr;
    var inner := Join(left, KwOr) + [kw] + Join(right, KwOr);
    forall rest: Text | NoAnd(rest)
      ensures EvalOr(inner + rest, env) == EvalOrTail(CombinedValue(op, ls, rs), rest, env)
    {
      assert inner + rest == Join(left, KwOr) + ([kw] + (Join(right, KwOr) + rest));
      if op == "and" {
        AndBetweenLists(left, right, ls, rs, env, rest);
      } else {
        OrBetweenLists(left, right, ls, rs, env, rest);
      }
    }
    DisjunctionInParens(inner, CombinedValue(op, ls, rs), env);
    assert Combined(op, left, right)[0] == [LParen] + inner + [RParen];
    SingleConjunct(Combined(op, left, right)[0], CombinedValue(op, ls, rs), env);
  }

  lemma DisjunctionInParens(t: Text, v: bool, env: Env)
    requires forall rest: Text :: NoAnd(rest) ==> EvalOr(t + rest, env) == EvalOrTail(v, rest, env)
    ensures IsUnit([LParen] + t + [RParen], v, env)
  {
    hide EvalOr, EvalAnd, EvalAndTail;
    forall rest: Text
      ensures EvalNot([LParen] + t + [RParen] + rest, env) == Some((v, rest))
    {
      var s := [LParen] + t + [RParen] + rest;
      assert s[1..] == t + ([RParen] + rest);
      assert NoAnd([RParen] + rest);
      assert ([RParen] + rest)[1..] == rest;
    }
  }

  /** "l1 OR .. OR ln AND r1 OR .. OR rm" reads with the AND around ln and r1 only. */
  lemma {:induction false} AndBetweenLists(left: seq<Text>, right: seq<Text>, ls: seq<bool>, rs: seq<bool>, env: Env, rest: Text)
    requires Conjuncts(left, ls, env) && Conjuncts(right, rs, env) && NoAnd(rest)
    ensures EvalOr(Join(left, KwOr) + ([KwAnd] + (Join(right, KwOr) + rest)), env) ==
            EvalOrTail(AndReading(ls, rs), rest, env)
  {
    hide Join, EvalAnd;
    var tail := [KwAnd] + (Join(right, KwOr) + rest);
    OrTailThenAnd(left, right, ls, rs, env, rest, false);
    assert ([KwOr] + (Join(left, KwOr) + tail))[1..] == Join(left, KwOr) + tail;
  }

  lemma {:induction false} OrTailThenAnd(left: seq<Text>, right: seq<Text>, ls: seq<bool>, rs: seq<bool>,
                                         env: Env, rest: Text, v: bool)
    requires Conjuncts(left, ls, env) && Conjuncts(right, rs, env) && NoAnd(rest)
    ensures EvalOrTail(v, [KwOr] + (Join(left, KwOr) + ([KwAnd] + (Join(right, KwOr) + rest))), env) ==
            EvalOrTail(v || AndReading(ls, rs), rest, env)
    decreases |left|
  {
    hide Join, EvalOrTail, EvalAndTail, IsConjunct, AndReading;
    var tail := [KwAnd] + (Join(right, KwOr) + rest);
    JoinHead(left, KwOr, tail);
    ReadingSteps(ls, rs);
    if |left| == 1 {
      AndTailThenOr(right, rs, env, rest, ls[0], v);
      OrTakes(v, left[0], ls[0], tail, env);
    } else {
      var more := [KwOr] + (Join(left[1..], KwOr) + tail);
      NoAndFollows(ls[0], more, env);
      OrTakes(v, left[0], ls[0], more, env);
      OrTailThenAnd(left[1..], right, ls[1..], rs, env, rest, v || ls[0]);
    }
  }

  lemma ReadingSteps(ls: seq<bool>, rs: seq<bool>)
    requires ls != [] && rs != []
    ensures |ls| == 1 ==> AndReading(ls, rs) == ((ls[0] && rs[0]) || Any(rs[1..]))
    ensures |ls| > 1 ==> AndReading(ls, rs) == (ls[0] || AndReading(ls[1..], rs))
  {
    if |ls| > 1 {
      assert ls[..|ls| - 1][1..] == ls[1..][..|ls| - 2];
    } else {
      assert ls[..0] == [];
    }
  }

  /** After l AND, the first part of the right list joins l and the others stand alone. */
  lemma AndTailThenOr(right: seq<Text>, rs: seq<bool>, env: Env, rest: Text, l: bool, v: bool)
    requires Conjuncts(right, rs, env) && NoAnd(rest)
    ensures var res := EvalAndTail(l, [KwAnd] + (Join(right, KwOr) + rest), env);
            res.Some? && EvalOrTail(v || res.value.0, res.value.1, env) ==
                         EvalOrTail(v || (l && rs[0]) || Any(rs[1..]), rest, env)
  {
    hide EvalAnd, EvalOrTail, EvalAndTail;
    assert Join(right, KwOr) + rest == right[0] + AfterFirst(right, rest);
    FirstTakesAnd(right[0], rs[0], AfterFirst(right, rest), env, l);
    if |right| > 1 {
      OrTailJoin(right[1..], rs[1..], env, rest, v || (l && rs[0]));
    }
  }

  function AfterFirst(parts: seq<Text>, rest: Text): (after: Text)
    requires parts != []
    ensures NoAnd(rest) ==> NoAnd(after)
  {
    if |parts| == 1 then rest else [KwOr] + (Join(parts[1..], KwOr) + rest)
  }

  lemma FirstTakesAnd(t: Text, r: bool, after: Text, env: Env, l: bool)
    requires IsConjunct(t, r, env) && NoAnd(after)
    ensures EvalAndTail(l, [KwAnd] + (t + after), env) == Some((l && r, after))
  {
    assert EvalAnd(t + after, env) == EvalAndTail(r, after, env) == Some((r, after));
    AndContinues(t + after, env, l);
  }

  /** `l AND s` reads as s with l put in front. */
  lemma AndContinues(s: Text, env: Env, l: bool)
    requires EvalAnd(s, env).Some?
    ensures var (v, rest) := EvalAnd(s, env).value;
            EvalAndTail(l, [KwAnd] + s, env) == Some((l && v, rest))
  {
    assert ([KwAnd] + s)[1..] == s;
    var (w, more) := EvalNot(s, env).value;
    AndTailScales(w, more, env, l);
  }

  lemma {:induction false} AndTailScales(v: bool, s: Text, env: Env, l: bool)
    requires EvalAndTail(v, s, env).Some?
    ensures var (w, rest) := EvalAndTail(v, s, env).value;
            EvalAndTail(l && v, s, env) == Some((l && w, rest))
    decreases |s|
  {
    if s != [] && s[0] == KwAnd {
      var (w, rest) := EvalNot(s[1..], env).value;
      AndTailScales(v && w, rest, env, l);
    }
  }

  // ---- The whole condition ----------------------------------------------------------------

  lemma {:induction false} TermReads(tokens: seq<string>, pos: nat, rule: Rule, env: Env)
    requires pos <= |tokens|
    ensures Conjuncts(TermParts(tokens, pos, rule).0, TermValues(tokens, pos, rule, env).0, env)
    decreases |tokens| - pos, 0
  {
    hide Conjuncts, Join;
    if pos >= |tokens| {
      TrueReads(env);
    } else {
      var tok := Lower(tokens[pos]);
      if tok == "not" {
        TermReads(tokens, pos + 1, rule, env);
        NegatedReads(TermParts(tokens, pos + 1, rule).0, TermValues(tokens, pos + 1, rule, env).0, env);
      } else if tok == "(" {
        ExprReads(tokens, pos + 1, rule, env);
        GroupReads(ExprParts(tokens, pos + 1, rule).0, ExprValues(tokens, pos + 1, rule, env).0, env);
      } else if (tok == "1" || tok == "all") && IsOf(tokens, pos) {
        PatternReads(tokens[pos + 2], rule, KwOr, env);
        PatternReads(tokens[pos + 2], rule, KwAnd, env);
      } else {
        NamedReads(tok, rule, env);
        NamedReads(tokens[pos], rule, env);
      }
    }
  }

  lemma GroupReads(parts: seq<Text>, vs: seq<bool>, env: Env)
    requires Conjuncts(parts, vs, env)
    ensures Conjuncts([[LParen] + Join(parts, KwOr) + [RParen]], [Any(vs)], env)
  {
    ParenReads(parts, vs, env);
    SingleConjunct([LParen] + Join(parts, KwOr) + [RParen], Any(vs), env);
  }

  lemma NegatedReads(parts: seq<Text>, vs: seq<bool>, env: Env)
    requires Conjuncts(parts, vs, env)
    ensures Conjuncts([[KwNot] + ([LParen] + Join(parts, KwOr) + [RParen])], [!Any(vs)], env)
  {
    ParenReads(parts, vs, env);
    NotReads([LParen] + Join(parts, KwOr) + [RParen], Any(vs), env);
    SingleConjunct([KwNot] + ([LParen] + Join(parts, KwOr) + [RParen]), !Any(vs), env);
  }

  lemma {:induction false} ExprReads(tokens: seq<string>, pos: nat, rule: Rule, env: Env)
    requires pos <= |tokens|
    ensures Conjuncts(ExprParts(tokens, pos, rule).0, ExprValues(tokens, pos, rule, env).0, env)
    decreases |tokens| - pos, 1
  {
    hide Conjuncts;
    TermReads(tokens, pos, rule, env);
    RestReads(tokens, TermParts(tokens, pos, rule).0, TermValues(tokens, pos, rule, env).0,
              TermEnd(tokens, pos), rule, env);
  }

  lemma {:induction false} RestReads(tokens: seq<string>, left: seq<Text>, ls: seq<bool>, pos: nat, rule: Rule, env: Env)
    requires pos <= |tokens| && left != [] && ls != []
    requires Conjuncts(left, ls, env)
    ensures Conjuncts(RestParts(tokens, left, pos, rule).0, RestValues(tokens, ls, pos, rule, env).0, env)
    decreases |tokens| - pos, 0
  {
    hide Conjuncts, Combined, CombinedValue;
    if IsOperator(tokens, pos) {
      var op := Lower(tokens[pos]);
      var right, rs := TermParts(tokens, pos + 1, rule).0, TermValues(tokens, pos + 1, rule, env).0;
      TermReads(tokens, pos + 1, rule, env);
      CombinedReads(op, left, right, ls, rs, env);
      RestReads(tokens, Combined(op, left, right), [CombinedValue(op, ls, rs)],
                TermEnd(tokens, pos + 1), rule, env);
    }
  }

  /** The emitted text is always one SQL expression, and SQL reads it as ExprValues says: term by
      term, with a bare OR list next to AND giving only its nearest part to the AND. */
  lemma ConditionReads(tokens: seq<string>, rule: Rule, env: Env)
    ensures SqlValue(ConditionText(tokens, rule), env) == Some(Any(ExprValues(tokens, 0, rule, env).0))
  {
    ExprReads(tokens, 0, rule, env);
    var parts, vs := ExprParts(tokens, 0, rule).0, ExprValues(tokens, 0, rule, env).0;
    OrJoinReads(parts, vs, env, []);
    assert Join(parts, KwOr) + [] == Join(parts, KwOr);
  }

  // ---- When that is the condition --------------------------------------------------------

  /** No operand of `and` is printed as a bare OR list of two or more parts. */
  predicate TermGuarded(tokens: seq<string>, pos: nat, rule: Rule)
    requires pos <= |tokens|
    decreases |tokens| - pos, 0
  {
    if pos >= |tokens| then true
    else if Lower(tokens[pos]) == "not" then TermGuarded(tokens, pos + 1, rule)
    else if Lower(tokens[pos]) == "(" then ExprGuarded(tokens, pos + 1, rule)
    else true
  }

  predicate ExprGuarded(tokens: seq<string>, pos: nat, rule: Rule)
    requires pos <= |tokens|
    decreases |tokens| - pos, 1
  {
    && TermGuarded(tokens, pos, rule)
    && RestGuarded(tokens, |TermParts(tokens, pos, rule).0|, TermEnd(tokens, pos), rule)
  }

  predicate RestGuarded(tokens: seq<string>, leftParts: nat, pos: nat, rule: Rule)
    requires pos <= |tokens|
    decreases |tokens| - pos, 0
  {
    IsOperator(tokens, pos) ==>
      && (Lower(tokens[pos]) == "and" ==> leftParts == 1 && |TermParts(tokens, pos + 1, rule).0| == 1)
      && TermGuarded(tokens, pos + 1, rule)
      && RestGuarded(tokens, 1, TermEnd(tokens, pos + 1), rule)
  }

  lemma {:induction false} PatternMeaning(sels: seq<Selection>, env: Env)
    ensures Any(Meanings(sels, env)) <==> exists i :: 0 <= i < |sels| && SelectionMeaning(sels[i], env)
    ensures All(Meanings(sels, env)) <==> forall i :: 0 <= i < |sels| ==> SelectionMeaning(sels[i], env)
  {
    BracketedRead(sels, env);
  }

  lemma {:induction false} TermMeans(tokens: seq<string>, pos: nat, rule: Rule, env: Env)
    requires pos <= |tokens| && TermGuarded(tokens, pos, rule)
    ensures Any(TermValues(tokens, pos, rule, env).0) == TermMeaning(tokens, pos, rule, env).0
    decreases |tokens| - pos, 0
  {
    if pos < |tokens| {
      var tok := Lower(tokens[pos]);
      if tok == "not" {
        TermMeans(tokens, pos + 1, rule, env);
      } else if tok == "(" {
        ExprMeans(tokens, pos + 1, rule, env);
      } else if (tok == "1" || tok == "all") && IsOf(tokens, pos) {
        PatternMeaning(Matching(tokens[pos + 2], rule), env);
      }
    }
  }

  lemma {:induction false} ExprMeans(tokens: seq<string>, pos: nat, rule: Rule, env: Env)
    requires pos <= |tokens| && ExprGuarded(tokens, pos, rule)
    ensures Any(ExprValues(tokens, pos, rule, env).0) == ExprMeaning(tokens, pos, rule, env).0
    decreases |tokens| - pos, 1
  {
    TermMeans(tokens, pos, rule, env);
    TermReads(tokens, pos, rule, env);
    RestMeans(tokens, TermValues(tokens, pos, rule, env).0, TermEnd(tokens, pos), rule, env);
  }

  lemma {:induction false} RestMeans(tokens: seq<string>, ls: seq<bool>, pos: nat, rule: Rule, env: Env)
    requires pos <= |tokens| && ls != [] && RestGuarded(tokens, |ls|, pos, rule)
    ensures Any(RestValues(tokens, ls, pos, rule, env).0) == RestMeaning(tokens, Any(ls), pos, rule, env).0
    decreases |tokens| - pos, 0
  {
    if IsOperator(tokens, pos) {
      var op, rs := Lower(tokens[pos]), TermValues(tokens, pos + 1, rule, env).0;
      TermMeans(tokens, pos + 1, rule, env);
      TermReads(tokens, pos + 1, rule, env);
      if op == "and" {
        AndReadingExact(1, 1);
      }
      var v := CombinedValue(op, ls, rs);
      assert Any([v]) == v;
      RestMeans(tokens, [v], TermEnd(tokens, pos + 1), rule, env);
    }
  }

  /** SQL evaluates the emitted text as the left-to-right condition under every truth assignment,
      when no bare OR list of two or more parts is a direct operand of `and`. */
  lemma ConditionMeansWhatItSays(tokens: seq<string>, rule: Rule, env: Env)
    requires ExprGuarded(tokens, 0, rule)
    ensures SqlValue(ConditionText(tokens, rule), env) == Some(ExprMeaning(tokens, 0, rule, env).0)
  {
    ConditionReads(tokens, rule, env);
    ExprMeans(tokens, 0, rule, env);
  }

  /** The guard is exact at one `and`: SQL's reading is the conjunction of the two operands for
      all values of their parts exactly when each operand has a single part. */
  lemma AndReadingExact(n: nat, m: nat)
    requires n > 0 && m > 0
    ensures (forall ls: seq<bool>, rs: seq<bool> :: |ls| == n && |rs| == m ==>
              AndReading(ls, rs) == (Any(ls) && Any(rs))) <==> n == 1 && m == 1
  {
    if n == 1 && m == 1 {
      forall ls: seq<bool>, rs: seq<bool> | |ls| == n && |rs| == m
        ensures AndReading(ls, rs) == (Any(ls) && Any(rs))
      {
        assert ls == [ls[0]] && rs == [rs[0]];
        assert ls[..0] == [] && rs[1..] == [];
      }
    } else if n > 1 {
      var ls, rs := seq(n, i => i == 0), seq(m, _ => false);
      assert ls[..n - 1][0];
      assert AndReading(ls, rs) && !Any(rs);
    } else {
      var ls, rs := seq(n, _ => false), seq(m, i => i == m - 1);
      assert rs[1..][m - 2];
      assert AndReading(ls, rs) && !Any(ls);
    }
  }

  predicate PlainName(name: string) {
    Lower(name) !in {"not", "(", "1", "all"}
  }

  /** Two named selections under `and`: what SQL makes of the text and what the condition says. */
  lemma AndOfSelections(x: string, y: string, rule: Rule, env: Env)
    requires PlainName(x) && PlainName(y) && x in rule.sels && y in rule.sels
    ensures SqlValue(ConditionText([x, "and", y], rule), env) ==
            Some(AndReading(SelectionValues(rule.sels[x], env), SelectionValues(rule.sels[y], env)))
    ensures ExprMeaning([x, "and", y], 0, rule, env).0 ==
            (SelectionMeaning(rule.sels[x], env) && SelectionMeaning(rule.sels[y], env))
  {
    var tokens := [x, "and", y];
    var ls, rs := SelectionValues(rule.sels[x], env), SelectionValues(rule.sels[y], env);
    LowerAnd();
    ConditionReads(tokens, rule, env);
    assert TermEnd(tokens, 0) == 1 && TermEnd(tokens, 2) == 3;
    assert TermValues(tokens, 0, rule, env).0 == ls;
    assert TermValues(tokens, 2, rule, env).0 == rs;
    var v := AndReading(ls, rs);
    assert RestValues(tokens, ls, 1, rule, env) == RestValues(tokens, [v], 3, rule, env) == ([v], 3);
    assert Any([v]) == v;
    var m := SelectionMeaning(rule.sels[x], env) && SelectionMeaning(rule.sels[y], env);
    assert RestMeaning(tokens, SelectionMeaning(rule.sels[x], env), 1, rule, env) ==
           RestMeaning(tokens, m, 3, rule, env) == (m, 3);
  }

  lemma LowerAnd()
    ensures Lower("and") == "and"
  {
    assert Lower("") == "";
    assert "and"[1..] == "nd" && "nd"[1..] == "d" && "d"[1..] == "";
    assert Lower("d") == "d" && Lower("nd") == "nd";
  }

  /** A list of two maps and a filter under `and`: with the first map true and the filter false
      the text holds and the condition does not. */
  lemma BareOrListUnderAnd(x: string, y: string, rule: Rule, env: Env)
    requires PlainName(x) && PlainName(y) && x in rule.sels && y in rule.sels
    requires rule.sels[x] == ItemList([Fields([Atom(0)]), Fields([Atom(1)])])
    requires rule.sels[y] == FieldMap([Atom(2)])
    requires env(0) && !env(2)
    ensures SqlValue(ConditionText([x, "and", y], rule), env) == Some(true)
    ensures !ExprMeaning([x, "and", y], 0, rule, env).0
  {
    AndOfSelections(x, y, rule, env);
    var items := [Fields([Atom(0)]), Fields([Atom(1)])];
    assert items[1..] == [Fields([Atom(1)])] && items[1..][1..] == [];
    assert CondValues([Atom(0)], env) == [env(0)] && CondValues([Atom(2)], env) == [env(2)];
    var ls, rs := SelectionValues(rule.sels[x], env), SelectionValues(rule.sels[y], env);
    assert ls == [MapMeaning([Atom(0)], env), MapMeaning([Atom(1)], env)];
    assert rs == [false];
    assert ls[..1][0];
  }

  /** Under an assignment SQL evaluates the emitted text as the left-to-right condition. */
  predicate SqlAgrees(tokens: seq<string>, rule: Rule, env: Env) {
    SqlValue(ConditionText(tokens, rule), env) == Some(ExprMeaning(tokens, 0, rule, env).0)
  }

  /** Every combination of truth values of the two selections' parts occurs. */
  ghost predicate Independent(a: Selection, b: Selection) {
    forall ls: seq<bool>, rs: seq<bool> :: |ls| == |SelectionParts(a)| && |rs| == |SelectionParts(b)| ==>
      exists env: Env :: SelectionValues(a, env) == ls && SelectionValues(b, env) == rs
  }

  lemma AsManyValues(sel: Selection, env: Env)
    ensures |SelectionValues(sel, env)| == |SelectionParts(sel)| > 0
  {
    if sel.ItemList? {
      AsManyItems(sel.items, env);
    }
  }

  lemma {:induction false} AsManyItems(items: seq<Item>, env: Env)
    ensures |ItemValues(items, env)| == |ItemTexts(items)|
  {
    if items != [] {
      AsManyItems(items[1..], env);
    }
  }

  /** For two selections whose parts vary freely, SQL agrees with the condition under every truth
      assignment exactly when neither is an OR list of two or more parts. */
  lemma AndOfSelectionsExact(x: string, y: string, rule: Rule)
    requires PlainName(x) && PlainName(y) && x in rule.sels && y in rule.sels
    requires Independent(rule.sels[x], rule.sels[y])
    ensures (forall env: Env :: SqlAgrees([x, "and", y], rule, env))
       <==> |SelectionParts(rule.sels[x])| == 1 && |SelectionParts(rule.sels[y])| == 1
  {
    hide Independent, SqlValue, ConditionText, ExprMeaning, AndReading, SelectionValues, SelectionParts,
      SelectionMeaning, PlainName, Any;
    var a, b := rule.sels[x], rule.sels[y];
    var n, m := |SelectionParts(a)|, |SelectionParts(b)|;
    forall env: Env
      ensures |SelectionValues(a, env)| == n > 0 && |SelectionValues(b, env)| == m > 0
      ensures SqlAgrees([x, "and", y], rule, env) <==>
              AndReading(SelectionValues(a, env), SelectionValues(b, env)) ==
              (Any(SelectionValues(a, env)) && Any(SelectionValues(b, env)))
    {
      AsManyValues(a, env);
      AsManyValues(b, env);
      AndOfSelections(x, y, rule, env);
      MeaningIsAny(a, env);
      MeaningIsAny(b, env);
    }
    var anyEnv: Env := _ => true;
    assert |SelectionValues(a, anyEnv)| == n > 0 && |SelectionValues(b, anyEnv)| == m > 0;
    AndReadingExact(n, m);
    if forall env: Env :: SqlAgrees([x, "and", y], rule, env) {
      forall ls: seq<bool>, rs: seq<bool> | |ls| == n && |rs| == m ensures AndReading(ls, rs) == (Any(ls) && Any(rs)) {
        var env := EnvWith(a, b, ls, rs);
      }
    }
  }

  lemma MeaningIsAny(sel: Selection, env: Env)
    ensures SelectionMeaning(sel, env) == Any(SelectionValues(sel, env))
  {
  }

  lemma EnvWith(a: Selection, b: Selection, ls: seq<bool>, rs: seq<bool>) returns (env: Env)
    requires Independent(a, b) && |ls| == |SelectionParts(a)| && |rs| == |SelectionParts(b)|
    ensures SelectionValues(a, env) == ls && SelectionValues(b, env) == rs
  {
    env :| SelectionValues(a, env) == ls && SelectionValues(b, env) == rs;
  }

  /** Dependence can hide the mistake: a list under `and` with itself reads right, so the guard of
      ConditionMeansWhatItSays is not necessary for every rule. */
  lemma ListUnderAndWithItself(x: string, rule: Rule, env: Env)
    requires PlainName(x) && x in rule.sels
    ensures SqlAgrees([x, "and", x], rule, env)
  {
    AndOfSelections(x, x, rule, env);
    AsManyValues(rule.sels[x], env);
    var vs := SelectionValues(rule.sels[x], env);
    assert vs == vs[..|vs| - 1] + [vs[|vs| - 1]] == [vs[0]] + vs[1..];
  }
}
