/** For every condition whose selections vary freely: SQL agrees with it exactly when no bare OR list of two
    or more parts is an operand of `and`. */
module SigmaExact {
  import opened Bits
  import opened SigmaSql
  import opened SigmaCondition
  import opened SigmaMeaning

  // ---- The condition as a tree -------------------------------------------------------------------

  /** Absent: a term is expected where the tokens end. */
  datatype Expr =
    | Absent
    | Named(name: string)
    | OneOf(pattern: string)
    | AllOf(pattern: string)
    | Negated(inner: Expr)
    | Group(inner: Expr)
    | Both(left: Expr, right: Expr)
    | Either(left: Expr, right: Expr)

  function TermTree(tokens: seq<string>, pos: nat): Expr
    requires pos <= |tokens|
    decreases |tokens| - pos, 0
  {
    if pos >= |tokens| then Absent
    else
      var tok := Lower(tokens[pos]);
      if tok == "not" then Negated(TermTree(tokens, pos + 1))
      else if tok == "(" then Group(ExprTree(tokens, pos + 1))
      else if tok == "1" && IsOf(tokens, pos) then OneOf(tokens[pos + 2])
      else if tok == "all" && IsOf(tokens, pos) then AllOf(tokens[pos + 2])
      else if tok == "1" || tok == "all" then Named(tok)
      else Named(tokens[pos])
  }

  function ExprTree(tokens: seq<string>, pos: nat): Expr
    requires pos <= |tokens|
    decreases |tokens| - pos, 1
  {
    RestTree(tokens, TermTree(tokens, pos), TermEnd(tokens, pos))
  }

  function RestTree(tokens: seq<string>, left: Expr, pos: nat): Expr
    requires pos <= |tokens|
    decreases |tokens| - pos, 0
  {
    if !IsOperator(tokens, pos) then left
    else
      var right := TermTree(tokens, pos + 1);
      RestTree(tokens, if Lower(tokens[pos]) == "and" then Both(left, right) else Either(left, right),
               TermEnd(tokens, pos + 1))
  }

  /** What SQL makes of the parts a subtree is printed as. */
  function Values(e: Expr, rule: Rule, env: Env): (vs: seq<bool>)
    ensures vs != []
  {
    match e
    case Absent => [true]
    case Named(name) => NamedValuesOf(name, rule, env)
    case OneOf(pattern) => PatternValues(pattern, rule, KwOr, env)
    case AllOf(pattern) => PatternValues(pattern, rule, KwAnd, env)
    case Negated(a) => [!Any(Values(a, rule, env))]
    case Group(a) => [Any(Values(a, rule, env))]
    case Both(a, b) => [AndReading(Values(a, rule, env), Values(b, rule, env))]
    case Either(a, b) => [Any(Values(a, rule, env)) || Any(Values(b, rule, env))]
  }

  function NamedValuesOf(name: string, rule: Rule, env: Env): (vs: seq<bool>)
    ensures vs != [] && vs == NamedValues(name, rule, env)
  {
    if name in rule.sels then
      AsManyValues(rule.sels[name], env);
      SelectionValues(rule.sels[name], env)
    else [true]
  }

  /** What the condition says of a subtree. */
  function Meaning(e: Expr, rule: Rule, env: Env): bool {
    match e
    case Absent => true
    case Named(name) => name in rule.sels ==> SelectionMeaning(rule.sels[name], env)
    case OneOf(pattern) =>
      var sels := Matching(pattern, rule);
      sels == [] || exists i :: 0 <= i < |sels| && SelectionMeaning(sels[i], env)
    case AllOf(pattern) =>
      var sels := Matching(pattern, rule);
      forall i :: 0 <= i < |sels| ==> SelectionMeaning(sels[i], env)
    case Negated(a) => !Meaning(a, rule, env)
    case Group(a) => Meaning(a, rule, env)
    case Both(a, b) => Meaning(a, rule, env) && Meaning(b, rule, env)
    case Either(a, b) => Meaning(a, rule, env) || Meaning(b, rule, env)
  }

  /** How many OR-separated parts a subtree is printed as. */
  function Parts(e: Expr, rule: Rule): nat {
    match e
    case Named(name) => |NamedParts(name, rule)|
    case OneOf(pattern) => |PatternParts(pattern, rule, KwOr)|
    case _ => 1
  }

  predicate Guarded(e: Expr, rule: Rule) {
    match e
    case Negated(a) => Guarded(a, rule)
    case Group(a) => Guarded(a, rule)
    case Both(a, b) => Parts(a, rule) == 1 && Parts(b, rule) == 1 && Guarded(a, rule) && Guarded(b, rule)
    case Either(a, b) => Guarded(a, rule) && Guarded(b, rule)
    case _ => true
  }

  lemma {:induction false} TermAsTree(tokens: seq<string>, pos: nat, rule: Rule, env: Env)
    requires pos <= |tokens|
    ensures var e := TermTree(tokens, pos);
            && TermValues(tokens, pos, rule, env).0 == Values(e, rule, env)
            && TermMeaning(tokens, pos, rule, env).0 == Meaning(e, rule, env)
            && |TermParts(tokens, pos, rule).0| == Parts(e, rule)
            && TermGuarded(tokens, pos, rule) == Guarded(e, rule)
    decreases |tokens| - pos, 0
  {
    hide Lower, NamedParts, PatternParts, NamedValues, PatternValues, Matching, SelectionMeaning, Any, Join, ExprParts,
      ExprValues, ExprMeaning, ExprGuarded, ExprTree;
    if pos < |tokens| {
      var tok := Lower(tokens[pos]);
      if tok == "not" {
        TermAsTree(tokens, pos + 1, rule, env);
      } else if tok == "(" {
        ExprAsTree(tokens, pos + 1, rule, env);
      } else if tok == "all" && IsOf(tokens, pos) {
        AllIsOnePart(tokens[pos + 2], rule);
      }
    }
  }

  lemma AllIsOnePart(pattern: string, rule: Rule)
    ensures |PatternParts(pattern, rule, KwAnd)| == 1
  {
  }

  lemma {:induction false} ExprAsTree(tokens: seq<string>, pos: nat, rule: Rule, env: Env)
    requires pos <= |tokens|
    ensures var e := ExprTree(tokens, pos);
            && ExprValues(tokens, pos, rule, env).0 == Values(e, rule, env)
            && ExprMeaning(tokens, pos, rule, env).0 == Meaning(e, rule, env)
            && ExprGuarded(tokens, pos, rule) == Guarded(e, rule)
    decreases |tokens| - pos, 1
  {
    hide TermValues, TermMeaning, TermParts, TermGuarded, TermTree, Values, Meaning, Parts, Guarded;
    TermAsTree(tokens, pos, rule, env);
    RestAsTree(tokens, TermTree(tokens, pos), TermEnd(tokens, pos), rule, env);
  }

  lemma JoinedTree(left: Expr, right: Expr, rule: Rule, env: Env)
    ensures var ls, rs := Values(left, rule, env), Values(right, rule, env);
            && Values(Both(left, right), rule, env) == [CombinedValue("and", ls, rs)]
            && Values(Either(left, right), rule, env) == [CombinedValue("or", ls, rs)]
    ensures Meaning(Both(left, right), rule, env) == (Meaning(left, rule, env) && Meaning(right, rule, env))
    ensures Meaning(Either(left, right), rule, env) == (Meaning(left, rule, env) || Meaning(right, rule, env))
    ensures Parts(Both(left, right), rule) == 1 == Parts(Either(left, right), rule)
    ensures Guarded(Both(left, right), rule) ==
            (Parts(left, rule) == 1 && Parts(right, rule) == 1 && Guarded(left, rule) && Guarded(right, rule))
    ensures Guarded(Either(left, right), rule) == (Guarded(left, rule) && Guarded(right, rule))
  {
    hide Values, Meaning, Parts, Guarded, CombinedValue;
    JoinedValues(left, right, rule, env);
    JoinedMeaning(left, right, rule, env);
    JoinedParts(left, right, rule);
  }

  lemma JoinedValues(left: Expr, right: Expr, rule: Rule, env: Env)
    ensures var ls, rs := Values(left, rule, env), Values(right, rule, env);
            && Values(Both(left, right), rule, env) == [CombinedValue("and", ls, rs)]
            && Values(Either(left, right), rule, env) == [CombinedValue("or", ls, rs)]
  {
    hide Values, AndReading, Any, CombinedValue;
    CombinedByName(Values(left, rule, env), Values(right, rule, env));
    BothValues(Both(left, right), rule, env);
    EitherValues(Either(left, right), rule, env);
  }

  lemma BothValues(e: Expr, rule: Rule, env: Env)
    requires e.Both?
    ensures Values(e, rule, env) == [AndReading(Values(e.left, rule, env), Values(e.right, rule, env))]
  {
    hide AndReading, Any, NamedValuesOf, PatternValues;
  }

  lemma EitherValues(e: Expr, rule: Rule, env: Env)
    requires e.Either?
    ensures Values(e, rule, env) == [Any(Values(e.left, rule, env)) || Any(Values(e.right, rule, env))]
  {
    hide AndReading, Any, NamedValuesOf, PatternValues;
  }

  lemma CombinedByName(ls: seq<bool>, rs: seq<bool>)
    requires ls != [] && rs != []
    ensures CombinedValue("and", ls, rs) == AndReading(ls, rs) && CombinedValue("or", ls, rs) == (Any(ls) || Any(rs))
  {
    hide AndReading, Any;
  }

  lemma JoinedMeaning(left: Expr, right: Expr, rule: Rule, env: Env)
    ensures Meaning(Both(left, right), rule, env) == (Meaning(left, rule, env) && Meaning(right, rule, env))
    ensures Meaning(Either(left, right), rule, env) == (Meaning(left, rule, env) || Meaning(right, rule, env))
  {
    hide SelectionMeaning, Matching;
  }

  lemma JoinedParts(left: Expr, right: Expr, rule: Rule)
    ensures Parts(Both(left, right), rule) == 1 == Parts(Either(left, right), rule)
    ensures Guarded(Both(left, right), rule) ==
            (Parts(left, rule) == 1 && Parts(right, rule) == 1 && Guarded(left, rule) && Guarded(right, rule))
    ensures Guarded(Either(left, right), rule) == (Guarded(left, rule) && Guarded(right, rule))
  {
    hide NamedParts, PatternParts;
  }

  lemma {:induction false} RestAsTree(tokens: seq<string>, left: Expr, pos: nat, rule: Rule, env: Env)
    requires pos <= |tokens|
    ensures var e := RestTree(tokens, left, pos);
            && RestValues(tokens, Values(left, rule, env), pos, rule, env).0 == Values(e, rule, env)
            && RestMeaning(tokens, Meaning(left, rule, env), pos, rule, env).0 == Meaning(e, rule, env)
            && (Guarded(left, rule) && RestGuarded(tokens, Parts(left, rule), pos, rule) <==> Guarded(e, rule))
    decreases |tokens| - pos, 0
  {
    hide TermValues, TermMeaning, TermParts, TermGuarded, TermTree, Lower, CombinedValue, Values, Meaning, Parts, Guarded;
    if IsOperator(tokens, pos) {
      var right := TermTree(tokens, pos + 1);
      TermAsTree(tokens, pos + 1, rule, env);
      var next := if Lower(tokens[pos]) == "and" then Both(left, right) else Either(left, right);
      JoinedTree(left, right, rule, env);
      RestAsTree(tokens, next, TermEnd(tokens, pos + 1), rule, env);
    }
  }

  // ---- What a condition depends on ---------------------------------------------------------------

  /** The names `1 of` and `all of` match, in order. */
  function MatchingNames(pattern: string, rule: Rule): seq<string> {
    MatchingNamesFrom(TrimStar(Lower(pattern)), rule, rule.names)
  }

  function MatchingNamesFrom(prefix: string, rule: Rule, names: seq<string>): (ns: seq<string>)
    ensures forall n :: n in ns ==> n in rule.sels
  {
    if names == [] then []
    else
      var rest := MatchingNamesFrom(prefix, rule, names[1..]);
      if prefix <= Lower(names[0]) && names[0] in rule.sels then [names[0]] + rest else rest
  }

  lemma {:induction false} MatchingByName(prefix: string, rule: Rule, names: seq<string>)
    ensures var ns := MatchingNamesFrom(prefix, rule, names);
            && |MatchingFrom(prefix, rule, names)| == |ns|
            && forall i :: 0 <= i < |ns| ==> MatchingFrom(prefix, rule, names)[i] == rule.sels[ns[i]]
  {
    hide Lower;
    if names != [] {
      MatchingByName(prefix, rule, names[1..]);
    }
  }

  /** The selections a condition names, in order and with repetitions. */
  function Uses(e: Expr, rule: Rule): seq<string> {
    match e
    case Absent => []
    case Named(name) => [name]
    case OneOf(pattern) => MatchingNames(pattern, rule)
    case AllOf(pattern) => MatchingNames(pattern, rule)
    case Negated(a) => Uses(a, rule)
    case Group(a) => Uses(a, rule)
    case Both(a, b) => Uses(a, rule) + Uses(b, rule)
    case Either(a, b) => Uses(a, rule) + Uses(b, rule)
  }

  /** No term is absent, no name unknown and no pattern without a match: nothing falls back to TRUE. */
  predicate Complete(e: Expr, rule: Rule) {
    match e
    case Absent => false
    case Named(name) => name in rule.sels
    case OneOf(pattern) => MatchingNames(pattern, rule) != []
    case AllOf(pattern) => MatchingNames(pattern, rule) != []
    case Negated(a) => Complete(a, rule)
    case Group(a) => Complete(a, rule)
    case Both(a, b) => Complete(a, rule) && Complete(b, rule)
    case Either(a, b) => Complete(a, rule) && Complete(b, rule)
  }

  /** Truth values for the parts of selections, by name. */
  type Valuation = map<string, seq<bool>>

  /** A value for every part of every selection named. */
  predicate Proper(rule: Rule, names: seq<string>, vals: Valuation) {
    forall n :: n in names ==> n in vals && n in rule.sels && |vals[n]| == |SelectionParts(rule.sels[n])| > 0
  }

  function Anys(ns: seq<string>, vals: Valuation): (vs: seq<bool>)
    requires forall n :: n in ns ==> n in vals
    ensures |vs| == |ns| && forall i :: 0 <= i < |ns| ==> vs[i] == Any(vals[ns[i]])
  {
    seq(|ns|, i requires 0 <= i < |ns| => Any(vals[ns[i]]))
  }

  /** What SQL makes of a complete condition, from the values of the selections' parts. */
  function ValuesBy(e: Expr, rule: Rule, vals: Valuation): (vs: seq<bool>)
    requires Complete(e, rule) && Proper(rule, Uses(e, rule), vals)
    ensures |vs| == Parts(e, rule) > 0
  {
    match e
    case Named(name) => vals[name]
    case OneOf(pattern) =>
      PatternCount(pattern, rule);
      Anys(MatchingNames(pattern, rule), vals)
    case AllOf(pattern) => [All(Anys(MatchingNames(pattern, rule), vals))]
    case Negated(a) => [!Any(ValuesBy(a, rule, vals))]
    case Group(a) => [Any(ValuesBy(a, rule, vals))]
    case Both(a, b) => [AndReading(ValuesBy(a, rule, vals), ValuesBy(b, rule, vals))]
    case Either(a, b) => [Any(ValuesBy(a, rule, vals)) || Any(ValuesBy(b, rule, vals))]
  }

  lemma PatternCount(pattern: string, rule: Rule)
    requires MatchingNames(pattern, rule) != []
    ensures |PatternParts(pattern, rule, KwOr)| == |MatchingNames(pattern, rule)|
  {
    hide Lower, TrimStar;
    MatchingByName(TrimStar(Lower(pattern)), rule, rule.names);
  }

  function MeaningBy(e: Expr, rule: Rule, vals: Valuation): bool
    requires Complete(e, rule) && Proper(rule, Uses(e, rule), vals)
  {
    match e
    case Named(name) => Any(vals[name])
    case OneOf(pattern) => Any(Anys(MatchingNames(pattern, rule), vals))
    case AllOf(pattern) => All(Anys(MatchingNames(pattern, rule), vals))
    case Negated(a) => !MeaningBy(a, rule, vals)
    case Group(a) => MeaningBy(a, rule, vals)
    case Both(a, b) => MeaningBy(a, rule, vals) && MeaningBy(b, rule, vals)
    case Either(a, b) => MeaningBy(a, rule, vals) || MeaningBy(b, rule, vals)
  }

  /** The assignment gives the parts of the named selections these values. */
  ghost predicate Gives(rule: Rule, names: seq<string>, env: Env, vals: Valuation) {
    forall n :: n in names && n in rule.sels && n in vals ==> SelectionValues(rule.sels[n], env) == vals[n]
  }

  lemma {:induction false} ByValues(e: Expr, rule: Rule, env: Env, vals: Valuation)
    requires Complete(e, rule) && Proper(rule, Uses(e, rule), vals) && Gives(rule, Uses(e, rule), env, vals)
    ensures Values(e, rule, env) == ValuesBy(e, rule, vals) && Meaning(e, rule, env) == MeaningBy(e, rule, vals)
  {
    hide Lower, TrimStar, AndReading, Any, All, SelectionValues, SelectionParts;
    match e
    case Named(name) => MeaningIsAny(rule.sels[name], env);
    case OneOf(pattern) => PatternByValues(pattern, rule, env, vals);
    case AllOf(pattern) => PatternByValues(pattern, rule, env, vals);
    case Negated(a) => ByValues(a, rule, env, vals);
    case Group(a) => ByValues(a, rule, env, vals);
    case Both(a, b) =>
      ByValues(a, rule, env, vals);
      ByValues(b, rule, env, vals);
    case Either(a, b) =>
      ByValues(a, rule, env, vals);
      ByValues(b, rule, env, vals);
  }

  lemma PatternByValues(pattern: string, rule: Rule, env: Env, vals: Valuation)
    requires var ns := MatchingNames(pattern, rule); ns != [] && Proper(rule, ns, vals) && Gives(rule, ns, env, vals)
    ensures var ns := MatchingNames(pattern, rule);
            && PatternValues(pattern, rule, KwOr, env) == Anys(ns, vals)
            && PatternValues(pattern, rule, KwAnd, env) == [All(Anys(ns, vals))]
            && Meaning(OneOf(pattern), rule, env) == Any(Anys(ns, vals))
            && Meaning(AllOf(pattern), rule, env) == All(Anys(ns, vals))
  {
    hide Lower, TrimStar, SelectionValues, SelectionParts, SelectionMeaning, MatchingNamesFrom, MatchingFrom;
    var ns, sels := MatchingNames(pattern, rule), Matching(pattern, rule);
    MatchingByName(TrimStar(Lower(pattern)), rule, rule.names);
    BracketedRead(sels, env);
    PatternMeaning(sels, env);
    forall i | 0 <= i < |ns| ensures Meanings(sels, env)[i] == Any(vals[ns[i]]) {
      assert ns[i] in ns;
      MeaningIsAny(sels[i], env);
    }
    assert Meanings(sels, env) == Anys(ns, vals);
  }

  // ---- Valuations that make a condition true, false, or misread ------------------------------------

  predicate NoRepeat(ns: seq<string>) {
    forall i, j :: 0 <= i < j < |ns| ==> ns[i] != ns[j]
  }

  lemma NoRepeatSplits(a: seq<string>, b: seq<string>)
    requires NoRepeat(a + b)
    ensures NoRepeat(a) && NoRepeat(b) && forall n :: n in a ==> n !in b
  {
    forall i, j | 0 <= i < j < |a| ensures a[i] != a[j] {
      assert (a + b)[i] != (a + b)[j];
    }
    forall i, j | 0 <= i < j < |b| ensures b[i] != b[j] {
      assert (a + b)[|a| + i] != (a + b)[|a| + j];
    }
    forall i, j | 0 <= i < |a| && 0 <= j < |b| ensures a[i] != b[j] {
      assert (a + b)[i] != (a + b)[|a| + j];
    }
  }

  lemma {:induction false} SameValues(e: Expr, rule: Rule, v: Valuation, w: Valuation)
    requires Complete(e, rule) && Proper(rule, Uses(e, rule), v) && Proper(rule, Uses(e, rule), w)
    requires forall n :: n in Uses(e, rule) ==> v[n] == w[n]
    ensures ValuesBy(e, rule, v) == ValuesBy(e, rule, w) && MeaningBy(e, rule, v) == MeaningBy(e, rule, w)
  {
    hide MatchingNames, AndReading, Any, All, SelectionParts;
    match e
    case Named(_) =>
    case OneOf(pattern) => SameAnys(MatchingNames(pattern, rule), v, w);
    case AllOf(pattern) => SameAnys(MatchingNames(pattern, rule), v, w);
    case Negated(a) => SameValues(a, rule, v, w);
    case Group(a) => SameValues(a, rule, v, w);
    case Both(a, b) =>
      SameValues(a, rule, v, w);
      SameValues(b, rule, v, w);
    case Either(a, b) =>
      SameValues(a, rule, v, w);
      SameValues(b, rule, v, w);
  }

  lemma SameAnys(ns: seq<string>, v: Valuation, w: Valuation)
    requires forall n :: n in ns ==> n in v && n in w && v[n] == w[n]
    ensures Anys(ns, v) == Anys(ns, w)
  {
  }

  /** The operands of a binary condition, each with the values its own valuation gives. */
  lemma Merged(a: Expr, b: Expr, rule: Rule, v: Valuation, w: Valuation) returns (u: Valuation)
    requires Complete(a, rule) && Complete(b, rule) && NoRepeat(Uses(a, rule) + Uses(b, rule))
    requires Proper(rule, Uses(a, rule), v) && Proper(rule, Uses(b, rule), w)
    ensures Proper(rule, Uses(a, rule) + Uses(b, rule), u)
    ensures Proper(rule, Uses(a, rule), u) && Proper(rule, Uses(b, rule), u)
    ensures ValuesBy(a, rule, u) == ValuesBy(a, rule, v) && MeaningBy(a, rule, u) == MeaningBy(a, rule, v)
    ensures ValuesBy(b, rule, u) == ValuesBy(b, rule, w) && MeaningBy(b, rule, u) == MeaningBy(b, rule, w)
  {
    hide Uses, Complete, ValuesBy, MeaningBy, NoRepeat, SelectionParts;
    var x, y := Uses(a, rule), Uses(b, rule);
    NoRepeatSplits(x, y);
    u := map n | n in x + y :: if n in x then v[n] else w[n];
    SameValues(a, rule, u, v);
    SameValues(b, rule, u, w);
  }

  /** One truth value for all parts of the named selections. */
  function Constant(rule: Rule, ns: seq<string>, b: bool): (vals: Valuation)
    requires forall n :: n in ns ==> n in rule.sels
    ensures Proper(rule, ns, vals) && forall n :: n in ns ==> Any(vals[n]) == b
  {
    map n | n in ns :: Row(rule.sels[n], b)
  }

  function Row(sel: Selection, b: bool): (vs: seq<bool>)
    ensures |vs| == |SelectionParts(sel)| > 0 && Any(vs) == b && forall i :: 0 <= i < |vs| ==> vs[i] == b
  {
    AsManyValues(sel, (_: nat) => true);
    var vs := seq(|SelectionParts(sel)|, _ => b);
    assert vs[0] == b;
    vs
  }

  /** Only the k-th of n values is true; none when k is n. */
  function Only(n: nat, k: nat): (vs: seq<bool>)
    ensures |vs| == n && (forall i :: 0 <= i < n ==> vs[i] == (i == k)) && Any(vs) == (k < n)
  {
    var vs := seq(n, i => i == k);
    assert k < n ==> vs[k];
    vs
  }

  /** Values with only the k-th part true, and the condition true; or, for k past the parts, all false. */
  lemma {:induction false} Attain(e: Expr, rule: Rule, k: nat) returns (vals: Valuation)
    requires Complete(e, rule) && NoRepeat(Uses(e, rule)) && k <= Parts(e, rule)
    ensures Proper(rule, Uses(e, rule), vals)
    ensures ValuesBy(e, rule, vals) == Only(Parts(e, rule), k) && MeaningBy(e, rule, vals) == (k < Parts(e, rule))
  {
    hide NoRepeat, MatchingNames, AndReading, Proper;
    match e
    case Named(name) => vals := AttainNamed(name, rule, k);
    case OneOf(pattern) =>
      PatternCount(pattern, rule);
      vals := AttainOneOf(pattern, rule, k);
    case AllOf(pattern) => vals := AttainAllOf(pattern, rule, k);
    case Negated(a) => vals := Attain(a, rule, if k == 0 then Parts(a, rule) else 0);
      assert ValuesBy(e, rule, vals) == [k == 0];
    case Group(a) => vals := Attain(a, rule, if k == 0 then 0 else Parts(a, rule));
      assert ValuesBy(e, rule, vals) == [k == 0];
    case Both(a, b) =>
      NoRepeatSplits(Uses(a, rule), Uses(b, rule));
      var n, m := Parts(a, rule), Parts(b, rule);
      var v := Attain(a, rule, if k == 0 then n - 1 else n);
      var w := Attain(b, rule, if k == 0 then 0 else m);
      vals := Merged(a, b, rule, v, w);
      ReadingOfOnly(n, if k == 0 then n - 1 else n, m, if k == 0 then 0 else m);
      assert ValuesBy(e, rule, vals) == [k == 0];
    case Either(a, b) =>
      NoRepeatSplits(Uses(a, rule), Uses(b, rule));
      var v := Attain(a, rule, if k == 0 then 0 else Parts(a, rule));
      var w := Attain(b, rule, Parts(b, rule));
      vals := Merged(a, b, rule, v, w);
      assert ValuesBy(e, rule, vals) == [k == 0];
  }

  /** How AND reads two lists of which at most one value is true each. */
  lemma ReadingOfOnly(n: nat, i: nat, m: nat, j: nat)
    requires 0 < n && i <= n && 0 < m && j <= m
    ensures AndReading(Only(n, i), Only(m, j)) == (i < n - 1 || (i == n - 1 && j == 0) || 0 < j < m)
  {
    var ls, rs := Only(n, i), Only(m, j);
    assert i < n - 1 ==> ls[..n - 1][i];
    assert 0 < j < m ==> rs[1..][j - 1];
  }

  lemma AttainNamed(name: string, rule: Rule, k: nat) returns (vals: Valuation)
    requires name in rule.sels && k <= Parts(Named(name), rule)
    ensures Proper(rule, [name], vals) && vals[name] == Only(Parts(Named(name), rule), k)
  {
    AsManyValues(rule.sels[name], (_: nat) => true);
    vals := map[name := Only(|SelectionParts(rule.sels[name])|, k)];
  }

  lemma AttainOneOf(pattern: string, rule: Rule, k: nat) returns (vals: Valuation)
    requires var ns := MatchingNames(pattern, rule); ns != [] && NoRepeat(ns) && k <= |ns|
    ensures var ns := MatchingNames(pattern, rule); Proper(rule, ns, vals) && Anys(ns, vals) == Only(|ns|, k)
    ensures Parts(OneOf(pattern), rule) == |MatchingNames(pattern, rule)|
  {
    hide MatchingNames, SelectionParts;
    PatternCount(pattern, rule);
    var ns := MatchingNames(pattern, rule);
    NamesAreSelections(pattern, rule);
    vals := Constant(rule, ns, false);
    if k < |ns| {
      vals := vals[ns[k] := Row(rule.sels[ns[k]], true)];
    }
    forall i | 0 <= i < |ns| ensures Any(vals[ns[i]]) == (i == k) {
      assert ns[i] in ns;
    }
  }

  lemma AttainAllOf(pattern: string, rule: Rule, k: nat) returns (vals: Valuation)
    requires var ns := MatchingNames(pattern, rule); ns != [] && k <= 1
    ensures var ns := MatchingNames(pattern, rule); Proper(rule, ns, vals) && All(Anys(ns, vals)) == (k == 0)
  {
    hide MatchingNames, SelectionParts;
    NamesAreSelections(pattern, rule);
    var ns := MatchingNames(pattern, rule);
    vals := Constant(rule, ns, k == 0);
    assert ns[0] in ns && Anys(ns, vals)[0] == (k == 0);
  }

  lemma NamesAreSelections(pattern: string, rule: Rule)
    ensures forall n :: n in MatchingNames(pattern, rule) ==> n in rule.sels
  {
  }

  /** An operand of `and` that is a bare OR list of two or more parts, or holds one further in, can be given
      values under which SQL's reading is not the condition's; the other operands are given neutral ones. */
  lemma {:induction false} Misread(e: Expr, rule: Rule) returns (vals: Valuation)
    requires Complete(e, rule) && NoRepeat(Uses(e, rule)) && !Guarded(e, rule)
    ensures Proper(rule, Uses(e, rule), vals)
    ensures ValuesBy(e, rule, vals) == [!MeaningBy(e, rule, vals)]
    decreases e, 1
  {
    hide NoRepeat, MatchingNames, AndReading, Proper;
    match e
    case Negated(a) =>
      vals := Misread(a, rule);
    case Group(a) =>
      vals := Misread(a, rule);
    case Both(a, b) =>
      NoRepeatSplits(Uses(a, rule), Uses(b, rule));
      vals := MisreadBoth(a, b, rule);
    case Either(a, b) =>
      NoRepeatSplits(Uses(a, rule), Uses(b, rule));
      if !Guarded(a, rule) {
        var v := Misread(a, rule);
        var w := Attain(b, rule, Parts(b, rule));
        vals := Merged(a, b, rule, v, w);
      } else {
        var v := Attain(a, rule, Parts(a, rule));
        var w := Misread(b, rule);
        vals := Merged(a, b, rule, v, w);
      }
  }

  lemma {:induction false} MisreadBoth(a: Expr, b: Expr, rule: Rule) returns (vals: Valuation)
    requires var e := Both(a, b); Complete(e, rule) && NoRepeat(Uses(e, rule)) && !Guarded(e, rule)
    ensures var e := Both(a, b); Proper(rule, Uses(e, rule), vals) && ValuesBy(e, rule, vals) == [!MeaningBy(e, rule, vals)]
    decreases Both(a, b), 0
  {
    hide NoRepeat, MatchingNames, AndReading, Proper;
    NoRepeatSplits(Uses(a, rule), Uses(b, rule));
    var n, m := Parts(a, rule), Parts(b, rule);
    CompleteHasParts(a, rule);
    CompleteHasParts(b, rule);
    var v: Valuation, w: Valuation;
    if !Guarded(a, rule) {
      v := Misread(a, rule);
      w := Attain(b, rule, 0);
      ReadingOfOne(ValuesBy(a, rule, v)[0], m);
    } else if !Guarded(b, rule) {
      v := Attain(a, rule, n - 1);
      w := Misread(b, rule);
      ReadingByOne(n, ValuesBy(b, rule, w)[0]);
    } else if n > 1 {
      v := Attain(a, rule, 0);
      w := Attain(b, rule, m);
      ReadingOfOnly(n, 0, m, m);
    } else {
      v := Attain(a, rule, n);
      w := Attain(b, rule, m - 1);
      ReadingOfOnly(n, n, m, m - 1);
    }
    vals := Merged(a, b, rule, v, w);
  }

  lemma {:induction false} CompleteHasParts(e: Expr, rule: Rule)
    requires Complete(e, rule)
    ensures Parts(e, rule) > 0
  {
    match e
    case Named(name) => AsManyValues(rule.sels[name], (_: nat) => true);
    case OneOf(pattern) => PatternCount(pattern, rule);
    case _ =>
  }

  lemma ReadingOfOne(x: bool, m: nat)
    requires m > 0
    ensures AndReading([x], Only(m, 0)) == x
  {
    hide AndReading;
    assert [x] == Only(1, if x then 0 else 1);
    ReadingOfOnly(1, if x then 0 else 1, m, 0);
  }

  lemma ReadingByOne(n: nat, y: bool)
    requires n > 0
    ensures AndReading(Only(n, n - 1), [y]) == y
  {
    hide AndReading;
    assert [y] == Only(1, if y then 0 else 1);
    ReadingOfOnly(n, n - 1, 1, if y then 0 else 1);
  }

  // ---- The exact condition ---------------------------------------------------------------------------

  /** Every combination of truth values for the parts of the named selections occurs. */
  ghost predicate FreeTogether(rule: Rule, names: seq<string>) {
    forall vals: Valuation :: Proper(rule, names, vals) ==> exists env: Env :: Gives(rule, names, env, vals)
  }

  lemma EnvFor(rule: Rule, names: seq<string>, vals: Valuation) returns (env: Env)
    requires FreeTogether(rule, names) && Proper(rule, names, vals)
    ensures Gives(rule, names, env, vals)
  {
    env :| Gives(rule, names, env, vals);
  }

  lemma AgreesAsTree(tokens: seq<string>, rule: Rule, env: Env)
    ensures var e := ExprTree(tokens, 0);
            SqlAgrees(tokens, rule, env) <==> Any(Values(e, rule, env)) == Meaning(e, rule, env)
    ensures ExprGuarded(tokens, 0, rule) == Guarded(ExprTree(tokens, 0), rule)
  {
    hide ExprValues, ExprMeaning, ExprGuarded, Values, Meaning, Guarded, ConditionText, SqlValue, ExprTree, Any;
    ConditionReads(tokens, rule, env);
    ExprAsTree(tokens, 0, rule, env);
  }

  /** When nothing falls back to TRUE, no selection is named twice and their parts vary freely together, SQL
      agrees with the condition under every truth assignment exactly when no operand of `and`, however deep,
      is printed as a bare OR list of two or more parts. */
  lemma SqlAgreesIffGuarded(tokens: seq<string>, rule: Rule)
    requires var e := ExprTree(tokens, 0);
             Complete(e, rule) && NoRepeat(Uses(e, rule)) && FreeTogether(rule, Uses(e, rule))
    ensures (forall env: Env :: SqlAgrees(tokens, rule, env)) <==> ExprGuarded(tokens, 0, rule)
  {
    hide SqlAgrees, ExprGuarded, ExprTree, Complete, NoRepeat, Uses, FreeTogether, Values, Meaning, Guarded, ValuesBy,
      MeaningBy, Proper, Gives, Any;
    var e := ExprTree(tokens, 0);
    if ExprGuarded(tokens, 0, rule) {
      forall env: Env ensures SqlAgrees(tokens, rule, env) {
        GuardedAgrees(tokens, rule, env);
      }
    } else {
      AgreesAsTree(tokens, rule, (_: nat) => true);
      var vals := Misread(e, rule);
      var env := EnvFor(rule, Uses(e, rule), vals);
      ByValues(e, rule, env, vals);
      AgreesAsTree(tokens, rule, env);
      AnyOfOne(!MeaningBy(e, rule, vals));
      assert !SqlAgrees(tokens, rule, env);
    }
  }

  lemma GuardedAgrees(tokens: seq<string>, rule: Rule, env: Env)
    requires ExprGuarded(tokens, 0, rule)
    ensures SqlAgrees(tokens, rule, env)
  {
    ConditionMeansWhatItSays(tokens, rule, env);
  }

  lemma AnyOfOne(b: bool)
    ensures Any([b]) == b
  {
  }

  // ---- When selections vary freely -------------------------------------------------------------------

  /** The field maps of a selection, one for each part it is printed as. */
  function MapsOf(sel: Selection): seq<seq<Condition>> {
    match sel
    case FieldMap(conds) => [conds]
    case ItemList(items) => ItemMaps(items)
    case Scalar => []
  }

  function ItemMaps(items: seq<Item>): seq<seq<Condition>> {
    if items == [] then []
    else if items[0].Fields? then [items[0].conds] + ItemMaps(items[1..])
    else ItemMaps(items[1..])
  }

  lemma {:induction false} ItemsByMap(items: seq<Item>, env: Env)
    ensures |ItemTexts(items)| == |ItemMaps(items)| == |ItemValues(items, env)|
    ensures forall i :: 0 <= i < |ItemMaps(items)| ==> ItemValues(items, env)[i] == MapMeaning(ItemMaps(items)[i], env)
  {
    hide MapMeaning, MapText;
    if items != [] {
      ItemsByMap(items[1..], env);
    }
  }

  lemma SelectionByMap(sel: Selection, env: Env)
    requires MapsOf(sel) != []
    ensures |SelectionParts(sel)| == |MapsOf(sel)| == |SelectionValues(sel, env)|
    ensures forall i :: 0 <= i < |MapsOf(sel)| ==> SelectionValues(sel, env)[i] == MapMeaning(MapsOf(sel)[i], env)
  {
    hide MapMeaning, MapText;
    if sel.ItemList? {
      ItemsByMap(sel.items, env);
    }
  }

  /** The field condition occurs in the i-th map of the selection. */
  predicate Owns(rule: Rule, name: string, i: nat, id: nat) {
    name in rule.sels && i < |MapsOf(rule.sels[name])| && Atom(id) in MapsOf(rule.sels[name])[i]
  }

  ghost predicate HasAtom(rule: Rule, name: string, i: nat) {
    exists id :: Owns(rule, name, i, id)
  }

  /** Every named selection has maps, every map a field condition, and no two maps share one. */
  ghost predicate AtomsDiffer(rule: Rule, names: seq<string>) {
    && (forall n :: n in names ==> n in rule.sels && MapsOf(rule.sels[n]) != [])
    && (forall n, i: nat :: n in names && i < |MapsOf(rule.sels[n])| ==> HasAtom(rule, n, i))
    && (forall n, m, i: nat, j: nat, id :: n in names && m in names && Owns(rule, n, i, id) && Owns(rule, m, j, id) ==>
          n == m && i == j)
  }

  /** The value wanted for the map that has the field condition. */
  ghost function Wanted(rule: Rule, names: seq<string>, vals: Valuation, id: nat): bool {
    if n: string, i: nat :| n in names && Owns(rule, n, i, id) && n in vals && i < |vals[n]| then vals[n][i] else true
  }

  lemma MapGetsValue(rule: Rule, names: seq<string>, vals: Valuation, env: Env, n: string, i: nat)
    requires AtomsDiffer(rule, names) && Proper(rule, names, vals) && n in names && n in rule.sels
    requires i < |MapsOf(rule.sels[n])| == |vals[n]|
    requires forall id :: env(id) == Wanted(rule, names, vals, id)
    ensures MapMeaning(MapsOf(rule.sels[n])[i], env) == vals[n][i]
  {
    hide SelectionParts, MapsOf;
    var conds := MapsOf(rule.sels[n])[i];
    forall k | 0 <= k < |conds| && conds[k].Atom? ensures env(conds[k].id) == vals[n][i] {
      assert Owns(rule, n, i, conds[k].id);
    }
    assert HasAtom(rule, n, i);
    var id :| Owns(rule, n, i, id);
    var k :| 0 <= k < |conds| && conds[k] == Atom(id);
    assert CondValues(conds, env)[k] == vals[n][i];
  }

  /** Selections of non-empty maps over distinct field conditions vary freely together. */
  lemma DistinctAtomsAreFree(rule: Rule, names: seq<string>)
    requires AtomsDiffer(rule, names)
    ensures FreeTogether(rule, names)
  {
    hide AtomsDiffer, MapMeaning, SelectionValues, SelectionParts, MapsOf;
    forall vals: Valuation | Proper(rule, names, vals) ensures exists env: Env :: Gives(rule, names, env, vals) {
      var env: Env := (id: nat) => Wanted(rule, names, vals, id);
      forall n | n in names && n in rule.sels && n in vals ensures SelectionValues(rule.sels[n], env) == vals[n] {
        HasMaps(rule, names, n);
        SelectionByMap(rule.sels[n], env);
        forall i: nat | i < |vals[n]| ensures SelectionValues(rule.sels[n], env)[i] == vals[n][i] {
          MapGetsValue(rule, names, vals, env, n, i);
        }
      }
      assert Gives(rule, names, env, vals);
    }
  }

  lemma HasMaps(rule: Rule, names: seq<string>, n: string)
    requires AtomsDiffer(rule, names) && n in names
    ensures n in rule.sels && MapsOf(rule.sels[n]) != []
  {
  }

  /** Two selections that vary freely together are independent. */
  lemma FreeIsIndependent(x: string, y: string, rule: Rule)
    requires x != y && x in rule.sels && y in rule.sels && FreeTogether(rule, [x, y])
    ensures Independent(rule.sels[x], rule.sels[y])
  {
    hide SelectionParts, SelectionValues, FreeTogether;
    var a, b := rule.sels[x], rule.sels[y];
    AsManyValues(a, (_: nat) => true);
    AsManyValues(b, (_: nat) => true);
    forall ls: seq<bool>, rs: seq<bool> | |ls| == |SelectionParts(a)| && |rs| == |SelectionParts(b)|
      ensures exists env: Env :: SelectionValues(a, env) == ls && SelectionValues(b, env) == rs
    {
      var vals: Valuation := map[x := ls, y := rs];
      var env := EnvFor(rule, [x, y], vals);
      assert x in [x, y] && y in [x, y];
    }
  }
}
