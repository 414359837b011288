/** From a SIGMA rule's selections and condition to SQL text. */
module SigmaCondition {
  import opened Bits
  import opened SigmaSql

  // ---- Selections --------------------------------------------------------------------

  /** One field condition: a closed comparison, or TRUE when the field is unknown. */
  type Condition = c: Lexeme | c == KwTrue || c.Atom? witness KwTrue

  /** A list item is a map of fields or a keyword string, which is skipped. */
  datatype Item = Fields(conds: seq<Condition>) | Keyword

  datatype Selection = FieldMap(conds: seq<Condition>) | ItemList(items: seq<Item>) | Scalar

  function CondValue(c: Condition, env: Env): bool {
    c == KwTrue || env(c.id)
  }

  function CondTexts(conds: seq<Condition>): (ts: seq<Text>)
    ensures |ts| == |conds| && forall i :: 0 <= i < |ts| ==> ts[i] == [conds[i]]
  {
    seq(|conds|, i requires 0 <= i < |conds| => [conds[i]])
  }

  function CondValues(conds: seq<Condition>, env: Env): (vs: seq<bool>)
    ensures |vs| == |conds| && forall i :: 0 <= i < |vs| ==> vs[i] == CondValue(conds[i], env)
  {
    seq(|conds|, i requires 0 <= i < |conds| => CondValue(conds[i], env))
  }

  /** All field conditions of a map, TRUE for an empty one. */
  function MapText(conds: seq<Condition>): Text {
    if conds == [] then [KwTrue] else Join(CondTexts(conds), KwAnd)
  }

  function MapMeaning(conds: seq<Condition>, env: Env): bool {
    All(CondValues(conds, env))
  }

  function ItemTexts(items: seq<Item>): seq<Text> {
    if items == [] then []
    else
      var rest := ItemTexts(items[1..]);
      match items[0]
      case Fields(conds) => [[LParen] + MapText(conds) + [RParen]] + rest
      case Keyword => rest
  }

  function ItemValues(items: seq<Item>, env: Env): seq<bool> {
    if items == [] then []
    else
      var rest := ItemValues(items[1..], env);
      match items[0]
      case Fields(conds) => [MapMeaning(conds, env)] + rest
      case Keyword => rest
  }

  /** The OR-separated parts of a selection's fragment. */
  function SelectionParts(sel: Selection): seq<Text> {
    match sel
    case FieldMap(conds) => [MapText(conds)]
    case ItemList(items) => if ItemTexts(items) == [] then [[KwTrue]] else ItemTexts(items)
    case Scalar => [[KwTrue]]
  }

  function SelectionText(sel: Selection): Text {
    Join(SelectionParts(sel), KwOr)
  }

  function SelectionValues(sel: Selection, env: Env): seq<bool> {
    match sel
    case FieldMap(conds) => [MapMeaning(conds, env)]
    case ItemList(items) => if ItemValues(items, env) == [] then [true] else ItemValues(items, env)
    case Scalar => [true]
  }

  /** A selection holds when one of its maps holds; without a map it holds always. */
  function SelectionMeaning(sel: Selection, env: Env): bool {
    Any(SelectionValues(sel, env))
  }

  // ---- Words ---------------------------------------------------------------------------

  function LowerChar(c: char): char {
    if 'A' <= c <= 'Z' then c - 'A' + 'a' else c
  }

  function Lower(s: string): (t: string)
    ensures |t| == |s|
  {
    if s == "" then "" else [LowerChar(s[0])] + Lower(s[1..])
  }

  function TrimStar(p: string): string {
    if p != "" && p[|p| - 1] == '*' then p[..|p| - 1] else p
  }

  datatype Rule = Rule(sels: map<string, Selection>, names: seq<string>)

  /** The selections, in name order, whose name starts with the pattern. */
  function Matching(pattern: string, rule: Rule): seq<Selection> {
    MatchingFrom(TrimStar(Lower(pattern)), rule, rule.names)
  }

  function MatchingFrom(prefix: string, rule: Rule, names: seq<string>): seq<Selection> {
    if names == [] then []
    else
      var rest := MatchingFrom(prefix, rule, names[1..]);
      if prefix <= Lower(names[0]) && names[0] in rule.sels then [rule.sels[names[0]]] + rest else rest
  }

  function Bracketed(sels: seq<Selection>): (ts: seq<Text>)
    ensures |ts| == |sels|
  {
    if sels == [] then [] else [[LParen] + SelectionText(sels[0]) + [RParen]] + Bracketed(sels[1..])
  }

  function Meanings(sels: seq<Selection>, env: Env): (vs: seq<bool>)
    ensures |vs| == |sels|
  {
    if sels == [] then [] else [SelectionMeaning(sels[0], env)] + Meanings(sels[1..], env)
  }

  /** `1 of` keeps its alternatives apart, `all of` joins them into one conjunction. */
  function PatternParts(pattern: string, rule: Rule, op: Lexeme): seq<Text> {
    var ts := Bracketed(Matching(pattern, rule));
    if ts == [] then [[KwTrue]] else if op == KwOr then ts else [Join(ts, op)]
  }

  function PatternValues(pattern: string, rule: Rule, op: Lexeme, env: Env): seq<bool> {
    var vs := Meanings(Matching(pattern, rule), env);
    if vs == [] then [true] else if op == KwOr then vs else [All(vs)]
  }

  /** The named selection, or TRUE for an unknown name. */
  function NamedParts(name: string, rule: Rule): seq<Text> {
    if name in rule.sels then SelectionParts(rule.sels[name]) else [[KwTrue]]
  }

  function NamedValues(name: string, rule: Rule, env: Env): seq<bool> {
    if name in rule.sels then SelectionValues(rule.sels[name], env) else [true]
  }

  // ---- The translation: parts of the emitted text ------------------------------------

  predicate IsOf(tokens: seq<string>, pos: nat) {
    pos + 2 < |tokens| && Lower(tokens[pos + 1]) == "of"
  }

  predicate IsOperator(tokens: seq<string>, pos: nat) {
    pos < |tokens| && (Lower(tokens[pos]) == "and" || Lower(tokens[pos]) == "or")
  }

  /** Past a closing parenthesis, if there is one. */
  function PastParen(tokens: seq<string>, pos: nat): nat {
    if pos < |tokens| && tokens[pos] == ")" then pos + 1 else pos
  }

  /** Where a term, an expression, or the rest of one ends. */
  function TermEnd(tokens: seq<string>, pos: nat): (next: nat)
    requires pos <= |tokens|
    ensures pos <= next <= |tokens| && (pos < |tokens| ==> pos < next)
    decreases |tokens| - pos, 0
  {
    if pos >= |tokens| then pos
    else
      var tok := Lower(tokens[pos]);
      if tok == "not" then TermEnd(tokens, pos + 1)
      else if tok == "(" then PastParen(tokens, ExprEnd(tokens, pos + 1))
      else if (tok == "1" || tok == "all") && IsOf(tokens, pos) then pos + 3
      else pos + 1
  }

  function ExprEnd(tokens: seq<string>, pos: nat): (next: nat)
    requires pos <= |tokens|
    ensures pos <= next <= |tokens|
    decreases |tokens| - pos, 1
  {
    RestEnd(tokens, TermEnd(tokens, pos))
  }

  function RestEnd(tokens: seq<string>, pos: nat): (next: nat)
    requires pos <= |tokens|
    ensures pos <= next <= |tokens|
    decreases |tokens| - pos, 0
  {
    if IsOperator(tokens, pos) then RestEnd(tokens, TermEnd(tokens, pos + 1)) else pos
  }

  function Combined(op: string, left: seq<Text>, right: seq<Text>): (parts: seq<Text>)
    ensures |parts| == 1
  {
    var kw := if op == "and" then KwAnd else KwOr;
    [[LParen] + Join(left, KwOr) + [kw] + Join(right, KwOr) + [RParen]]
  }

  function TermParts(tokens: seq<string>, pos: nat, rule: Rule): (res: (seq<Text>, nat))
    requires pos <= |tokens|
    ensures res.0 != [] && res.1 == TermEnd(tokens, pos)
    decreases |tokens| - pos, 0
  {
    if pos >= |tokens| then ([[KwTrue]], pos)
    else
      var tok := Lower(tokens[pos]);
      if tok == "not" then
        var (inner, next) := TermParts(tokens, pos + 1, rule);
        ([[KwNot] + ([LParen] + Join(inner, KwOr) + [RParen])], next)
      else if tok == "(" then
        var (inner, next) := ExprParts(tokens, pos + 1, rule);
        ([[LParen] + Join(inner, KwOr) + [RParen]], PastParen(tokens, next))
      else if tok == "1" && IsOf(tokens, pos) then (PatternParts(tokens[pos + 2], rule, KwOr), pos + 3)
      else if tok == "all" && IsOf(tokens, pos) then (PatternParts(tokens[pos + 2], rule, KwAnd), pos + 3)
      else if tok == "1" || tok == "all" then (NamedParts(tok, rule), pos + 1)
      else (NamedParts(tokens[pos], rule), pos + 1)
  }

  function ExprParts(tokens: seq<string>, pos: nat, rule: Rule): (res: (seq<Text>, nat))
    requires pos <= |tokens|
    ensures res.0 != [] && res.1 == ExprEnd(tokens, pos)
    decreases |tokens| - pos, 1
  {
    var (left, next) := TermParts(tokens, pos, rule);
    RestParts(tokens, left, next, rule)
  }

  function RestParts(tokens: seq<string>, left: seq<Text>, pos: nat, rule: Rule): (res: (seq<Text>, nat))
    requires pos <= |tokens| && left != []
    ensures res.0 != [] && res.1 == RestEnd(tokens, pos)
    decreases |tokens| - pos, 0
  {
    if !IsOperator(tokens, pos) then (left, pos)
    else
      var (right, next) := TermParts(tokens, pos + 1, rule);
      RestParts(tokens, Combined(Lower(tokens[pos]), left, right), next, rule)
  }

  /** The SQL text of a whole condition; tokens after the first complete expression are dropped. */
  function ConditionText(tokens: seq<string>, rule: Rule): Text {
    Join(ExprParts(tokens, 0, rule).0, KwOr)
  }

  // ---- What SQL makes of it -----------------------------------------------------------

  /** "(l1 OR .. OR ln AND r1 OR .. OR rm)": the AND takes only ln and r1. */
  function AndReading(left: seq<bool>, right: seq<bool>): bool
    requires left != [] && right != []
  {
    Any(left[..|left| - 1]) || (left[|left| - 1] && right[0]) || Any(right[1..])
  }

  function CombinedValue(op: string, left: seq<bool>, right: seq<bool>): bool
    requires left != [] && right != []
  {
    if op == "and" then AndReading(left, right) else Any(left) || Any(right)
  }

  function TermValues(tokens: seq<string>, pos: nat, rule: Rule, env: Env): (res: (seq<bool>, nat))
    requires pos <= |tokens|
    ensures res.0 != [] && res.1 == TermEnd(tokens, pos)
    decreases |tokens| - pos, 0
  {
    if pos >= |tokens| then ([true], pos)
    else
      var tok := Lower(tokens[pos]);
      if tok == "not" then
        var (inner, next) := TermValues(tokens, pos + 1, rule, env);
        ([!Any(inner)], next)
      else if tok == "(" then
        var (inner, next) := ExprValues(tokens, pos + 1, rule, env);
        ([Any(inner)], PastParen(tokens, next))
      else if tok == "1" && IsOf(tokens, pos) then (PatternValues(tokens[pos + 2], rule, KwOr, env), pos + 3)
      else if tok == "all" && IsOf(tokens, pos) then (PatternValues(tokens[pos + 2], rule, KwAnd, env), pos + 3)
      else if tok == "1" || tok == "all" then (NamedValues(tok, rule, env), pos + 1)
      else (NamedValues(tokens[pos], rule, env), pos + 1)
  }

  function ExprValues(tokens: seq<string>, pos: nat, rule: Rule, env: Env): (res: (seq<bool>, nat))
    requires pos <= |tokens|
    ensures res.0 != [] && res.1 == ExprEnd(tokens, pos)
    decreases |tokens| - pos, 1
  {
    var (left, next) := TermValues(tokens, pos, rule, env);
    RestValues(tokens, left, next, rule, env)
  }

  function RestValues(tokens: seq<string>, left: seq<bool>, pos: nat, rule: Rule, env: Env)
    : (res: (seq<bool>, nat))
    requires pos <= |tokens| && left != []
    ensures res.0 != [] && res.1 == RestEnd(tokens, pos)
    decreases |tokens| - pos, 0
  {
    if !IsOperator(tokens, pos) then (left, pos)
    else
      var (right, next) := TermValues(tokens, pos + 1, rule, env);
      RestValues(tokens, [CombinedValue(Lower(tokens[pos]), left, right)], next, rule, env)
  }

  // ---- What the condition says ---------------------------------------------------------

  /** Left to right: not, parentheses, unknown names true, `1 of` any, `all of` every. */
  function TermMeaning(tokens: seq<string>, pos: nat, rule: Rule, env: Env): (res: (bool, nat))
    requires pos <= |tokens|
    ensures res.1 == TermEnd(tokens, pos)
    decreases |tokens| - pos, 0
  {
    if pos >= |tokens| then (true, pos)
    else
      var tok := Lower(tokens[pos]);
      if tok == "not" then
        var (inner, next) := TermMeaning(tokens, pos + 1, rule, env);
        (!inner, next)
      else if tok == "(" then
        var (inner, next) := ExprMeaning(tokens, pos + 1, rule, env);
        (inner, PastParen(tokens, next))
      else if tok == "1" && IsOf(tokens, pos) then
        var sels := Matching(tokens[pos + 2], rule);
        (sels == [] || exists i :: 0 <= i < |sels| && SelectionMeaning(sels[i], env), pos + 3)
      else if tok == "all" && IsOf(tokens, pos) then
        var sels := Matching(tokens[pos + 2], rule);
        (forall i :: 0 <= i < |sels| ==> SelectionMeaning(sels[i], env), pos + 3)
      else
        var name := if tok == "1" || tok == "all" then tok else tokens[pos];
        (name in rule.sels ==> SelectionMeaning(rule.sels[name], env), pos + 1)
  }

  function ExprMeaning(tokens: seq<string>, pos: nat, rule: Rule, env: Env): (res: (bool, nat))
    requires pos <= |tokens|
    ensures res.1 == ExprEnd(tokens, pos)
    decreases |tokens| - pos, 1
  {
    var (left, next) := TermMeaning(tokens, pos, rule, env);
    RestMeaning(tokens, left, next, rule, env)
  }

  function RestMeaning(tokens: seq<string>, left: bool, pos: nat, rule: Rule, env: Env)
    : (res: (bool, nat))
    requires pos <= |tokens|
    ensures res.1 == RestEnd(tokens, pos)
    decreases |tokens| - pos, 0
  {
    if !IsOperator(tokens, pos) then (left, pos)
    else
      var (right, next) := TermMeaning(tokens, pos + 1, rule, env);
      RestMeaning(tokens, if Lower(tokens[pos]) == "and" then left && right else left || right, next, rule, env)
  }
}
