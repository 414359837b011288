/** Conditions as an author writes them, and that a written condition is translated to what it says. */
module SigmaWritten {
  import opened Bits
  import opened SigmaSql
  import opened SigmaCondition
  import opened SigmaMeaning
  import opened SigmaExact

  // ---- Words -------------------------------------------------------------------------------------

  /** The same letter up to ASCII case, or the same character. */
  predicate SameLetter(a: char, b: char) {
    || a == b
    || ('A' <= a <= 'Z' && b as int == a as int + 32)
    || ('A' <= b <= 'Z' && a as int == b as int + 32)
  }

  predicate SameWord(a: string, b: string) {
    |a| == |b| && forall k :: 0 <= k < |a| ==> SameLetter(a[k], b[k])
  }

  /** The name is at least as long as w and agrees with it letter by letter. */
  predicate StartsLike(name: string, w: string) {
    |name| >= |w| && forall k :: 0 <= k < |w| ==> SameLetter(name[k], w[k])
  }

  lemma {:induction false} LowerAt(s: string, k: nat)
    requires k < |s|
    ensures Lower(s)[k] == LowerChar(s[k])
  {
    if k > 0 {
      LowerAt(s[1..], k - 1);
    }
  }

  lemma LowerSame(a: string, b: string)
    ensures SameWord(a, b) <==> Lower(a) == Lower(b)
  {
    hide Lower;
    forall k | 0 <= k < |a| ensures Lower(a)[k] == LowerChar(a[k]) {
      LowerAt(a, k);
    }
    forall k | 0 <= k < |b| ensures Lower(b)[k] == LowerChar(b[k]) {
      LowerAt(b, k);
    }
    if SameWord(a, b) {
      assert Lower(a) == Lower(b);
    } else if |a| == |b| {
      var k :| 0 <= k < |a| && !SameLetter(a[k], b[k]);
      assert Lower(a)[k] != Lower(b)[k];
    }
  }

  lemma PrefixSame(name: string, w: string)
    ensures Lower(w) <= Lower(name) <==> StartsLike(name, w)
  {
    hide Lower, SameLetter, LowerChar;
    if |w| <= |name| {
      LowerFront(name, |w|);
      LowerSame(name[..|w|], w);
      assert StartsLike(name, w) <==> SameWord(name[..|w|], w);
    }
  }

  lemma {:induction false} LowerFront(s: string, n: nat)
    requires n <= |s|
    ensures Lower(s[..n]) == Lower(s)[..n]
  {
    if n > 0 {
      LowerFront(s[1..], n - 1);
      assert s[..n][1..] == s[1..][..n - 1];
    }
  }

  /** Words of keywords and operators, in lower case. */
  lemma Keyword(tok: string, word: string)
    requires word == "and" || word == "or" || word == "not" || word == "of" || word == "all" || word == "1" || word == "("
    ensures Lower(tok) == word <==> SameWord(tok, word)
  {
    LowerSame(tok, word);
    LowerWords();
  }

  lemma LowerWords()
    ensures Lower("and") == "and" && Lower("or") == "or" && Lower("not") == "not" && Lower("of") == "of"
    ensures Lower("all") == "all" && Lower("1") == "1" && Lower("(") == "("
  {
  }

  // ---- Patterns ----------------------------------------------------------------------------------

  /** What a pattern asks a name to start with: the pattern without a star at its end. */
  predicate AsksFor(pattern: string, w: string) {
    pattern == w + "*" || (pattern == w && (w == "" || w[|w| - 1] != '*'))
  }

  lemma PatternPrefix(pattern: string, w: string)
    requires AsksFor(pattern, w)
    ensures TrimStar(Lower(pattern)) == Lower(w)
  {
    hide Lower;
    if pattern == w + "*" {
      LowerFront(pattern, |w|);
      LowerAt(pattern, |w|);
      assert pattern[..|w|] == w;
    } else if w != "" {
      LowerAt(w, |w| - 1);
    }
  }

  /** The places in the list of names, in order, whose selection the pattern names. */
  function Places(names: seq<string>, w: string, sels: map<string, Selection>, from: nat): (ps: seq<nat>)
    requires from <= |names|
    ensures forall i :: 0 <= i < |ps| ==> from <= ps[i] < |names| && StartsLike(names[ps[i]], w) && names[ps[i]] in sels
    ensures forall i, j :: 0 <= i < j < |ps| ==> ps[i] < ps[j]
    ensures forall n :: from <= n < |names| && StartsLike(names[n], w) && names[n] in sels ==> n in ps
    decreases |names| - from
  {
    if from == |names| then []
    else
      var rest := Places(names, w, sels, from + 1);
      if StartsLike(names[from], w) && names[from] in sels then [from] + rest else rest
  }

  /** The selections at these places. */
  function SelectionsAt(rule: Rule, ps: seq<nat>): (sels: seq<Selection>)
    requires forall i :: 0 <= i < |ps| ==> ps[i] < |rule.names| && rule.names[ps[i]] in rule.sels
    ensures |sels| == |ps| && forall i :: 0 <= i < |ps| ==> sels[i] == rule.sels[rule.names[ps[i]]]
  {
    seq(|ps|, i requires 0 <= i < |ps| => rule.sels[rule.names[ps[i]]])
  }

  /** A pattern names the selections whose name starts like it, in name order, each once. */
  lemma PatternNames(pattern: string, w: string, rule: Rule)
    requires AsksFor(pattern, w)
    ensures Matching(pattern, rule) == SelectionsAt(rule, Places(rule.names, w, rule.sels, 0))
  {
    hide Lower, TrimStar, MatchingFrom, Places;
    PatternPrefix(pattern, w);
    MatchingAtPlaces(w, rule, 0);
    assert rule.names[0..] == rule.names;
  }

  lemma {:induction false} MatchingAtPlaces(w: string, rule: Rule, from: nat)
    requires from <= |rule.names|
    ensures MatchingFrom(Lower(w), rule, rule.names[from..]) == SelectionsAt(rule, Places(rule.names, w, rule.sels, from))
    decreases |rule.names| - from
  {
    hide Lower, StartsLike, SelectionsAt;
    if from < |rule.names| {
      var name, rest := rule.names[from], Places(rule.names, w, rule.sels, from + 1);
      PrefixSame(name, w);
      MatchingAtPlaces(w, rule, from + 1);
      TailOfTail(rule.names, from);
      if StartsLike(name, w) && name in rule.sels {
        OneMorePlace(rule, from, rest);
      }
    } else {
      NoPlaces(rule);
    }
  }

  lemma TailOfTail(s: seq<string>, i: nat)
    requires i < |s|
    ensures s[i..][0] == s[i] && s[i..][1..] == s[i + 1..]
  {
  }

  lemma NoPlaces(rule: Rule)
    ensures SelectionsAt(rule, []) == []
  {
  }

  lemma OneMorePlace(rule: Rule, p: nat, ps: seq<nat>)
    requires p < |rule.names| && rule.names[p] in rule.sels
    requires forall i :: 0 <= i < |ps| ==> ps[i] < |rule.names| && rule.names[ps[i]] in rule.sels
    ensures SelectionsAt(rule, [p] + ps) == [rule.sels[rule.names[p]]] + SelectionsAt(rule, ps)
  {
  }

  // ---- Conditions ----------------------------------------------------------------------------------

  /** A condition as it is written; the keywords keep their spelling. A right operand of an operator is a term. */
  datatype Cond =
    | Name(name: string)
    | AnyOf(one: string, of: string, pattern: string)
    | EveryOf(all: string, of: string, pattern: string)
    | Not(kw: string, inner: Cond)
    | Paren(inner: Cond)
    | And(left: Cond, kw: string, right: Cond)
    | Or(left: Cond, kw: string, right: Cond)

  predicate IsTerm(c: Cond) {
    !c.And? && !c.Or?
  }

  /** The keywords are what they stand for, up to case; names are not taken for keywords. */
  predicate Spelled(c: Cond) {
    match c
    case Name(n) => !SameWord(n, "not") && n != "(" && n != "1" && !SameWord(n, "all")
    case AnyOf(one, of, _) => one == "1" && SameWord(of, "of")
    case EveryOf(all, of, _) => SameWord(all, "all") && SameWord(of, "of")
    case Not(kw, inner) => SameWord(kw, "not") && IsTerm(inner) && Spelled(inner)
    case Paren(inner) => Spelled(inner)
    case And(l, kw, r) => Spelled(l) && SameWord(kw, "and") && IsTerm(r) && Spelled(r)
    case Or(l, kw, r) => Spelled(l) && SameWord(kw, "or") && IsTerm(r) && Spelled(r)
  }

  function Printed(c: Cond): (tokens: seq<string>)
    ensures tokens != []
  {
    match c
    case Name(n) => [n]
    case AnyOf(one, of, pattern) => [one, of, pattern]
    case EveryOf(all, of, pattern) => [all, of, pattern]
    case Not(kw, inner) => [kw] + Printed(inner)
    case Paren(inner) => ["("] + Printed(inner) + [")"]
    case And(l, kw, r) => Printed(l) + [kw] + Printed(r)
    case Or(l, kw, r) => Printed(l) + [kw] + Printed(r)
  }

  function TreeOf(c: Cond): Expr {
    match c
    case Name(n) => Named(n)
    case AnyOf(_, _, pattern) => OneOf(pattern)
    case EveryOf(_, _, pattern) => AllOf(pattern)
    case Not(_, inner) => Negated(TreeOf(inner))
    case Paren(inner) => Group(TreeOf(inner))
    case And(l, _, r) => Both(TreeOf(l), TreeOf(r))
    case Or(l, _, r) => Either(TreeOf(l), TreeOf(r))
  }

  /** The condition stands at a place among the tokens. */
  predicate StandsAt(tokens: seq<string>, pos: nat, c: Cond) {
    pos + |Printed(c)| <= |tokens| && tokens[pos..pos + |Printed(c)|] == Printed(c)
  }

  predicate NoOperatorAt(tokens: seq<string>, pos: nat) {
    pos < |tokens| ==> !SameWord(tokens[pos], "and") && !SameWord(tokens[pos], "or")
  }

  lemma OperatorAt(tokens: seq<string>, pos: nat)
    ensures IsOperator(tokens, pos) <==> !NoOperatorAt(tokens, pos)
  {
    hide Lower, SameWord;
    if pos < |tokens| {
      Keyword(tokens[pos], "and");
      Keyword(tokens[pos], "or");
    }
  }

  /** Part of what stands at a place stands at its own place. */
  lemma PartStands(tokens: seq<string>, pos: nat, all: seq<string>, a: nat, b: nat)
    requires pos + |all| <= |tokens| && tokens[pos..pos + |all|] == all && a <= b <= |all|
    ensures tokens[pos + a..pos + b] == all[a..b] && (a < |all| ==> tokens[pos + a] == all[a])
  {
    SliceOfSlice(tokens, pos, pos + |all|, a, b);
  }

  lemma SliceOfSlice<T>(s: seq<T>, i: nat, j: nat, a: nat, b: nat)
    requires i <= j <= |s| && a <= b <= j - i
    ensures s[i..j][a..b] == s[i + a..i + b] && (a < j - i ==> s[i..j][a] == s[i + a])
  {
    var x, y := s[i..j][a..b], s[i + a..i + b];
    forall k | 0 <= k < b - a ensures x[k] == y[k] {
      assert x[k] == s[i..j][a + k];
    }
    assert x == y;
  }

  lemma ThreeParts<T>(l: seq<T>, k: T, r: seq<T>)
    ensures var all := l + [k] + r; all[0..|l|] == l && all[|l|] == k && all[|l| + 1..|all|] == r
  {
  }

  /** A written term is read as its tree, up to its last token. */
  lemma {:induction false} TermReads(tokens: seq<string>, pos: nat, c: Cond)
    requires StandsAt(tokens, pos, c) && Spelled(c) && IsTerm(c)
    ensures TermTree(tokens, pos) == TreeOf(c) && TermEnd(tokens, pos) == pos + |Printed(c)|
    decreases c, 0
  {
    match c
    case Name(n) => NameReads(tokens, pos, c);
    case AnyOf(_, _, _) => PatternReads(tokens, pos, c);
    case EveryOf(_, _, _) => PatternReads(tokens, pos, c);
    case Not(_, _) => NotReads(tokens, pos, c);
    case Paren(_) => ParenReads(tokens, pos, c);
  }

  lemma NameReads(tokens: seq<string>, pos: nat, c: Cond)
    requires StandsAt(tokens, pos, c) && Spelled(c) && c.Name?
    ensures TermTree(tokens, pos) == TreeOf(c) && TermEnd(tokens, pos) == pos + |Printed(c)|
  {
    hide Lower, SameWord;
    PartStands(tokens, pos, Printed(c), 0, 1);
    TermWords(c.name);
  }

  lemma PatternReads(tokens: seq<string>, pos: nat, c: Cond)
    requires StandsAt(tokens, pos, c) && Spelled(c) && (c.AnyOf? || c.EveryOf?)
    ensures TermTree(tokens, pos) == TreeOf(c) && TermEnd(tokens, pos) == pos + |Printed(c)|
  {
    hide Lower, SameWord;
    PartStands(tokens, pos, Printed(c), 0, 1);
    PartStands(tokens, pos, Printed(c), 1, 2);
    PartStands(tokens, pos, Printed(c), 2, 3);
    TermWords(tokens[pos]);
    Keyword(c.of, "of");
    WordsDiffer();
  }

  lemma {:induction false} NotReads(tokens: seq<string>, pos: nat, c: Cond)
    requires StandsAt(tokens, pos, c) && Spelled(c) && c.Not?
    ensures TermTree(tokens, pos) == TreeOf(c) && TermEnd(tokens, pos) == pos + |Printed(c)|
    decreases c.inner, 1
  {
    hide Lower, SameWord;
    PartStands(tokens, pos, Printed(c), 0, 1);
    PartStands(tokens, pos, Printed(c), 1, |Printed(c)|);
    assert Printed(c)[1..] == Printed(c.inner);
    TermWords(tokens[pos]);
    TermReads(tokens, pos + 1, c.inner);
  }

  /** What the first word of a term says. */
  lemma TermWords(tok: string)
    ensures Lower(tok) == "not" <==> SameWord(tok, "not")
    ensures Lower(tok) == "(" <==> tok == "("
    ensures Lower(tok) == "1" <==> tok == "1"
    ensures Lower(tok) == "all" <==> SameWord(tok, "all")
  {
    Keyword(tok, "not");
    Keyword(tok, "(");
    Keyword(tok, "1");
    Keyword(tok, "all");
  }

  lemma WordsDiffer()
    ensures "all" != "not" && "all" != "(" && "all" != "1"
  {
  }

  lemma {:induction false} ParenReads(tokens: seq<string>, pos: nat, c: Cond)
    requires StandsAt(tokens, pos, c) && Spelled(c) && c.Paren?
    ensures TermTree(tokens, pos) == TreeOf(c) && TermEnd(tokens, pos) == pos + |Printed(c)|
    decreases c.inner, 3
  {
    hide Lower, SameWord, TermTree, TermEnd, ExprTree, ExprEnd;
    var n := |Printed(c.inner)|;
    assert Printed(c)[1..1 + n] == Printed(c.inner);
    PartStands(tokens, pos, Printed(c), 0, 1);
    PartStands(tokens, pos, Printed(c), 1, 1 + n);
    PartStands(tokens, pos, Printed(c), 1 + n, 2 + n);
    NotAnOperator();
    ConditionTree(tokens, pos + 1, c.inner);
    GroupUnfolds(tokens, pos);
  }

  lemma NotAnOperator()
    ensures !SameWord(")", "and") && !SameWord(")", "or")
  {
  }

  lemma GroupUnfolds(tokens: seq<string>, pos: nat)
    requires pos < |tokens| && tokens[pos] == "("
    ensures TermTree(tokens, pos) == Group(ExprTree(tokens, pos + 1))
    ensures TermEnd(tokens, pos) == PastParen(tokens, ExprEnd(tokens, pos + 1))
  {
    hide Lower;
    TermWords(tokens[pos]);
  }

  /** Reading an expression from where a written condition starts is reading on with its tree behind it. */
  lemma {:induction false} ChainReads(tokens: seq<string>, pos: nat, c: Cond)
    requires StandsAt(tokens, pos, c) && Spelled(c)
    ensures ExprTree(tokens, pos) == RestTree(tokens, TreeOf(c), pos + |Printed(c)|)
    ensures ExprEnd(tokens, pos) == RestEnd(tokens, pos + |Printed(c)|)
    decreases c, 1
  {
    hide Lower, SameWord, TermTree, TermEnd, RestTree, RestEnd, Printed, StandsAt;
    if IsTerm(c) {
      TermReads(tokens, pos, c);
    } else {
      var p := pos + |Printed(c.left)|;
      OperandsStand(tokens, pos, c);
      ChainReads(tokens, pos, c.left);
      TermReads(tokens, p + 1, c.right);
      OperatorUnfolds(tokens, TreeOf(c.left), p, c);
    }
  }

  lemma OperandsStand(tokens: seq<string>, pos: nat, c: Cond)
    requires StandsAt(tokens, pos, c) && !IsTerm(c)
    ensures var n := |Printed(c.left)|;
            && StandsAt(tokens, pos, c.left) && StandsAt(tokens, pos + n + 1, c.right) && tokens[pos + n] == c.kw
            && pos + |Printed(c)| == pos + n + 1 + |Printed(c.right)|
  {
    hide Printed;
    PrintedOperator(c);
    ThreeStand(tokens, pos, Printed(c.left), c.kw, Printed(c.right));
  }

  lemma ThreeStand(tokens: seq<string>, pos: nat, l: seq<string>, kw: string, r: seq<string>)
    requires var all := l + [kw] + r; pos + |all| <= |tokens| && tokens[pos..pos + |all|] == all
    ensures tokens[pos..pos + |l|] == l && tokens[pos + |l|] == kw
    ensures tokens[pos + |l| + 1..pos + |l| + 1 + |r|] == r
  {
    var all := l + [kw] + r;
    ThreeParts(l, kw, r);
    PartStands(tokens, pos, all, 0, |l|);
    PartStands(tokens, pos, all, |l|, |l| + 1);
    PartStands(tokens, pos, all, |l| + 1, |all|);
  }

  lemma PrintedOperator(c: Cond)
    requires !IsTerm(c)
    ensures Printed(c) == Printed(c.left) + [c.kw] + Printed(c.right)
  {
  }

  lemma OperatorUnfolds(tokens: seq<string>, left: Expr, p: nat, c: Cond)
    requires p < |tokens| && !IsTerm(c) && Spelled(c) && tokens[p] == c.kw
    ensures RestTree(tokens, left, p) ==
      RestTree(tokens, if c.And? then Both(left, TermTree(tokens, p + 1)) else Either(left, TermTree(tokens, p + 1)),
               TermEnd(tokens, p + 1))
    ensures RestEnd(tokens, p) == RestEnd(tokens, TermEnd(tokens, p + 1))
  {
    hide Lower, SameWord, TermTree, TermEnd;
    Keyword(c.kw, "and");
    Keyword(c.kw, "or");
    NotBoth(c.kw);
  }

  lemma NotBoth(kw: string)
    ensures !(SameWord(kw, "and") && SameWord(kw, "or"))
  {
  }

  /** A written condition is read as its tree when no operator follows it. */
  lemma ConditionTree(tokens: seq<string>, pos: nat, c: Cond)
    requires StandsAt(tokens, pos, c) && Spelled(c) && NoOperatorAt(tokens, pos + |Printed(c)|)
    ensures ExprTree(tokens, pos) == TreeOf(c) && ExprEnd(tokens, pos) == pos + |Printed(c)|
    decreases c, 2
  {
    hide Lower, SameWord, TermTree, TermEnd, ExprTree, ExprEnd;
    ChainReads(tokens, pos, c);
    OperatorAt(tokens, pos + |Printed(c)|);
  }

  // ---- What a written condition says ---------------------------------------------------------------

  /** A map of fields asks for all of them. */
  predicate AllHold(conds: seq<Condition>, env: Env) {
    forall i :: 0 <= i < |conds| ==> conds[i] == KwTrue || env(conds[i].id)
  }

  /** A list asks for one of its maps, and for nothing when it has none. */
  predicate SelectionHolds(sel: Selection, env: Env) {
    match sel
    case FieldMap(conds) => AllHold(conds, env)
    case ItemList(items) =>
      (forall i :: 0 <= i < |items| ==> items[i].Keyword?) ||
      (exists i :: 0 <= i < |items| && items[i].Fields? && AllHold(items[i].conds, env))
    case Scalar => true
  }

  /** The name has a selection, and starts like what the pattern asks for. */
  predicate NamedBy(rule: Rule, name: string, w: string) {
    name in rule.names && name in rule.sels && StartsLike(name, w)
  }

  function Asked(pattern: string): (w: string)
    ensures AsksFor(pattern, w)
  {
    if pattern != "" && pattern[|pattern| - 1] == '*' then
      assert pattern == pattern[..|pattern| - 1] + "*";
      pattern[..|pattern| - 1]
    else pattern
  }

  /** Names and patterns that name no selection ask for nothing. */
  ghost predicate Says(c: Cond, rule: Rule, env: Env) {
    match c
    case Name(n) => n in rule.sels ==> SelectionHolds(rule.sels[n], env)
    case AnyOf(_, _, pattern) =>
      (forall n :: !NamedBy(rule, n, Asked(pattern))) ||
      (exists n :: NamedBy(rule, n, Asked(pattern)) && SelectionHolds(rule.sels[n], env))
    case EveryOf(_, _, pattern) => forall n :: NamedBy(rule, n, Asked(pattern)) ==> SelectionHolds(rule.sels[n], env)
    case Not(_, inner) => !Says(inner, rule, env)
    case Paren(inner) => Says(inner, rule, env)
    case And(l, _, r) => Says(l, rule, env) && Says(r, rule, env)
    case Or(l, _, r) => Says(l, rule, env) || Says(r, rule, env)
  }

  lemma MapHolds(conds: seq<Condition>, env: Env)
    ensures MapMeaning(conds, env) <==> AllHold(conds, env)
  {
    hide All;
    var vs := CondValues(conds, env);
    if !AllHold(conds, env) {
      var i :| 0 <= i < |conds| && !(conds[i] == KwTrue || env(conds[i].id));
      assert vs[i] == false;
    }
  }

  lemma {:induction false} ItemsHold(items: seq<Item>, env: Env)
    ensures ItemValues(items, env) == [] <==> forall i :: 0 <= i < |items| ==> items[i].Keyword?
    ensures Any(ItemValues(items, env)) <==> exists i :: 0 <= i < |items| && items[i].Fields? && AllHold(items[i].conds, env)
  {
    hide MapMeaning, AllHold;
    if items != [] {
      ItemsHold(items[1..], env);
      if items[0].Fields? {
        MapHolds(items[0].conds, env);
      }
      FirstOrLater(items, env);
    }
  }

  lemma FirstOrLater(items: seq<Item>, env: Env)
    requires items != []
    ensures (exists i :: 0 <= i < |items| && items[i].Fields? && AllHold(items[i].conds, env)) <==>
            ((items[0].Fields? && AllHold(items[0].conds, env)) ||
             exists i :: 0 <= i < |items[1..]| && items[1..][i].Fields? && AllHold(items[1..][i].conds, env))
    ensures (forall i :: 0 <= i < |items| ==> items[i].Keyword?) <==>
            items[0].Keyword? && forall i :: 0 <= i < |items[1..]| ==> items[1..][i].Keyword?
  {
    hide AllHold;
    if i :| 0 <= i < |items| && items[i].Fields? && AllHold(items[i].conds, env) && i > 0 {
      assert items[1..][i - 1] == items[i];
    }
    if i :| 0 <= i < |items[1..]| && items[1..][i].Fields? && AllHold(items[1..][i].conds, env) {
      assert items[i + 1] == items[1..][i];
    }
    if forall i :: 0 <= i < |items| ==> items[i].Keyword? {
      forall i | 0 <= i < |items[1..]| ensures items[1..][i].Keyword? {
        assert items[i + 1].Keyword?;
      }
    }
    if items[0].Keyword? && forall i :: 0 <= i < |items[1..]| ==> items[1..][i].Keyword? {
      forall i | 0 <= i < |items| ensures items[i].Keyword? {
        assert i > 0 ==> items[1..][i - 1] == items[i];
      }
    }
  }

  lemma SelectionMeans(sel: Selection, env: Env)
    ensures SelectionMeaning(sel, env) <==> SelectionHolds(sel, env)
  {
    hide MapMeaning, ItemValues, AllHold;
    match sel
    case FieldMap(conds) => MapHolds(conds, env);
    case ItemList(items) => ItemsHold(items, env);
    case Scalar =>
  }

  /** A selection is among those of a pattern exactly when some name that starts like the pattern has it. */
  lemma PatternSelections(pattern: string, rule: Rule)
    ensures forall n :: NamedBy(rule, n, Asked(pattern)) ==> rule.sels[n] in Matching(pattern, rule)
    ensures forall s :: s in Matching(pattern, rule) ==> exists n :: NamedBy(rule, n, Asked(pattern)) && rule.sels[n] == s
  {
    hide StartsLike, Matching;
    var w := Asked(pattern);
    PatternNames(pattern, w, rule);
    var ps := Places(rule.names, w, rule.sels, 0);
    var sels := SelectionsAt(rule, ps);
    forall n | NamedBy(rule, n, w) ensures rule.sels[n] in sels {
      var k :| 0 <= k < |rule.names| && rule.names[k] == n;
      assert k in ps;
      var i :| 0 <= i < |ps| && ps[i] == k;
      assert sels[i] == rule.sels[n];
    }
    forall s | s in sels ensures exists n :: NamedBy(rule, n, w) && rule.sels[n] == s {
      var i :| 0 <= i < |sels| && sels[i] == s;
      assert NamedBy(rule, rule.names[ps[i]], w);
    }
  }

  /** What a condition says of a pattern, in terms of its selections. */
  lemma PatternSays(pattern: string, rule: Rule, env: Env)
    ensures Says(AnyOf("1", "of", pattern), rule, env) <==>
            Matching(pattern, rule) == [] || exists s :: s in Matching(pattern, rule) && SelectionHolds(s, env)
    ensures Says(EveryOf("all", "of", pattern), rule, env) <==>
            forall s :: s in Matching(pattern, rule) ==> SelectionHolds(s, env)
  {
    hide SelectionHolds, StartsLike, Asked, Matching;
    var sels, w := Matching(pattern, rule), Asked(pattern);
    PatternSelections(pattern, rule);
    if sels != [] {
      assert sels[0] in sels;
    }
    if s :| s in sels && SelectionHolds(s, env) {
      var n :| NamedBy(rule, n, w) && rule.sels[n] == s;
    }
  }

  lemma PatternMeaning(pattern: string, rule: Rule, env: Env)
    ensures Meaning(OneOf(pattern), rule, env) <==>
            Matching(pattern, rule) == [] || exists s :: s in Matching(pattern, rule) && SelectionHolds(s, env)
    ensures Meaning(AllOf(pattern), rule, env) <==>
            forall s :: s in Matching(pattern, rule) ==> SelectionHolds(s, env)
  {
    hide SelectionMeaning, SelectionHolds, Matching;
    var sels := Matching(pattern, rule);
    forall i | 0 <= i < |sels| ensures SelectionMeaning(sels[i], env) <==> SelectionHolds(sels[i], env) {
      SelectionMeans(sels[i], env);
    }
    if i :| 0 <= i < |sels| && SelectionMeaning(sels[i], env) {
      assert sels[i] in sels;
    }
  }

  lemma {:induction false} TreeMeans(c: Cond, rule: Rule, env: Env)
    ensures Meaning(TreeOf(c), rule, env) <==> Says(c, rule, env)
  {
    hide SelectionMeaning, SelectionHolds, NamedBy, Matching, Asked;
    match c
    case Name(n) =>
      if n in rule.sels {
        SelectionMeans(rule.sels[n], env);
      }
    case AnyOf(_, _, pattern) =>
      PatternSays(pattern, rule, env);
      PatternMeaning(pattern, rule, env);
    case EveryOf(_, _, pattern) =>
      PatternSays(pattern, rule, env);
      PatternMeaning(pattern, rule, env);
    case Not(_, inner) => TreeMeans(inner, rule, env);
    case Paren(inner) => TreeMeans(inner, rule, env);
    case And(l, _, r) =>
      TreeMeans(l, rule, env);
      TreeMeans(r, rule, env);
    case Or(l, _, r) =>
      TreeMeans(l, rule, env);
      TreeMeans(r, rule, env);
  }

  lemma WrittenTree(c: Cond)
    requires Spelled(c)
    ensures ExprTree(Printed(c), 0) == TreeOf(c) && ExprEnd(Printed(c), 0) == |Printed(c)|
  {
    hide ExprTree, ExprEnd, Printed;
    var tokens := Printed(c);
    assert tokens[0..0 + |tokens|] == tokens;
    ConditionTree(tokens, 0, c);
  }

  /** SQL evaluates the text of a written condition as what the condition says, under every truth assignment,
      when no operand of `and` is printed as a bare OR list of two or more parts. */
  lemma WrittenConditionTranslates(c: Cond, rule: Rule, env: Env)
    requires Spelled(c) && Guarded(TreeOf(c), rule)
    ensures SqlValue(ConditionText(Printed(c), rule), env) == Some(Says(c, rule, env))
  {
    hide Guarded, Meaning, Says, SqlValue, ConditionText, ExprGuarded, ExprMeaning, ExprTree;
    var tokens := Printed(c);
    WrittenTree(c);
    ExprAsTree(tokens, 0, rule, env);
    TreeMeans(c, rule, env);
    ConditionMeansWhatItSays(tokens, rule, env);
  }
}
