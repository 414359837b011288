/** The translator's loops and recursive descent, producing the emitted text. */
module SigmaTranslator {
  import opened Bits
  import opened SigmaSql
  import opened SigmaCondition

  method BuildMapSql(conds: seq<Condition>) returns (text: Text)
    ensures text == MapText(conds)
  {
    var parts: seq<Text> := [];
    for i := 0 to |conds|
      invariant parts == CondTexts(conds)[..i]
    {
      parts := parts + [[conds[i]]];
    }
    assert parts == CondTexts(conds);
    if |parts| == 0 {
      return [KwTrue];
    }
    text := Join(parts, KwAnd);
  }

  method BuildSelectionSql(sel: Selection) returns (text: Text)
    ensures text == SelectionText(sel)
  {
    match sel
    case FieldMap(conds) =>
      text := BuildMapSql(conds);
    case ItemList(items) =>
      var parts: seq<Text> := [];
      for i := 0 to |items|
        invariant parts + ItemTexts(items[i..]) == ItemTexts(items)
      {
        assert items[i..][1..] == items[i + 1..];
        if items[i].Fields? {
          var s := BuildMapSql(items[i].conds);
          parts := parts + [[LParen] + s + [RParen]];
        }
      }
      assert items[|items|..] == [] && parts + [] == parts;
      if |parts| == 0 {
        return [KwTrue];
      }
      text := Join(parts, KwOr);
    case Scalar =>
      text := [KwTrue];
  }

  /** The fragments of every selection of a rule, under their names. */
  ghost predicate Fragments(frags: map<string, Text>, rule: Rule) {
    frags.Keys == rule.sels.Keys && forall n :: n in frags ==> frags[n] == SelectionText(rule.sels[n])
  }

  method ExpandPattern(pattern: string, frags: map<string, Text>, op: Lexeme, ghost rule: Rule, names: seq<string>)
    returns (text: Text)
    requires Fragments(frags, rule) && names == rule.names && (op == KwOr || op == KwAnd)
    ensures text == Join(PatternParts(pattern, rule, op), KwOr)
  {
    hide Join, Lower, PatternParts, TrimStar, SelectionText;
    var prefix := TrimStar(Lower(pattern));
    var parts: seq<Text> := [];
    for i := 0 to |names|
      invariant parts + Bracketed(MatchingFrom(prefix, rule, names[i..])) == Bracketed(Matching(pattern, rule))
    {
      assert names[i..][1..] == names[i + 1..];
      if prefix <= Lower(names[i]) && names[i] in frags {
        parts := parts + [[LParen] + frags[names[i]] + [RParen]];
      }
    }
    assert names[|names|..] == [] && parts + [] == parts;
    JoinedPattern(pattern, rule, op);
    if |parts| == 0 {
      return [KwTrue];
    }
    text := Join(parts, op);
  }

  lemma JoinedPattern(pattern: string, rule: Rule, op: Lexeme)
    requires op == KwOr || op == KwAnd
    ensures var ts := Bracketed(Matching(pattern, rule));
            Join(PatternParts(pattern, rule, op), KwOr) == if ts == [] then [KwTrue] else Join(ts, op)
  {
  }

  lemma CombinedText(op: string, left: seq<Text>, right: seq<Text>)
    ensures Join(Combined(op, left, right), KwOr) ==
            [LParen] + Join(left, KwOr) + [if op == "and" then KwAnd else KwOr] + Join(right, KwOr) + [RParen]
  {
  }

  method SelOrTrue(name: string, frags: map<string, Text>, ghost rule: Rule) returns (text: Text)
    requires Fragments(frags, rule)
    ensures text == Join(NamedParts(name, rule), KwOr)
  {
    text := if name in frags then frags[name] else [KwTrue];
  }

  method ParseCondExpr(tokens: seq<string>, start: nat, frags: map<string, Text>, names: seq<string>, ghost rule: Rule)
    returns (left: Text, pos: nat)
    requires start <= |tokens| && Fragments(frags, rule) && names == rule.names
    ensures left == Join(ExprParts(tokens, start, rule).0, KwOr) && pos == ExprEnd(tokens, start)
    decreases |tokens| - start, 1
  {
    hide Join, Combined, Lower, TermParts, TermEnd;
    left, pos := ParseCondTerm(tokens, start, frags, names, rule);
    ghost var parts := TermParts(tokens, start, rule).0;
    while pos < |tokens|
      invariant start <= pos <= |tokens| && (start < |tokens| ==> start < pos)
      invariant parts != [] && left == Join(parts, KwOr)
      invariant RestParts(tokens, parts, pos, rule) == ExprParts(tokens, start, rule)
      decreases |tokens| - pos
    {
      var op := Lower(tokens[pos]);
      if op != "and" && op != "or" {
        break;
      }
      var right, newPos := ParseCondTerm(tokens, pos + 1, frags, names, rule);
      CombinedText(op, parts, TermParts(tokens, pos + 1, rule).0);
      parts := Combined(op, parts, TermParts(tokens, pos + 1, rule).0);
      if op == "and" {
        left := [LParen] + left + [KwAnd] + right + [RParen];
      } else {
        left := [LParen] + left + [KwOr] + right + [RParen];
      }
      pos := newPos;
    }
  }

  method ParseCondTerm(tokens: seq<string>, pos: nat, frags: map<string, Text>, names: seq<string>, ghost rule: Rule)
    returns (text: Text, next: nat)
    requires pos <= |tokens| && Fragments(frags, rule) && names == rule.names
    ensures text == Join(TermParts(tokens, pos, rule).0, KwOr) && next == TermEnd(tokens, pos)
    decreases |tokens| - pos, 0
  {
    if pos >= |tokens| {
      return [KwTrue], pos;
    }
    var tok := Lower(tokens[pos]);
    if tok == "not" {
      var inner, newPos := ParseCondTerm(tokens, pos + 1, frags, names, rule);
      return [KwNot] + ([LParen] + inner + [RParen]), newPos;
    }
    if tok == "(" {
      var inner, newPos := ParseCondExpr(tokens, pos + 1, frags, names, rule);
      if newPos < |tokens| && tokens[newPos] == ")" {
        newPos := newPos + 1;
      }
      return [LParen] + inner + [RParen], newPos;
    }
    if tok == "1" || tok == "all" {
      if pos + 2 < |tokens| && Lower(tokens[pos + 1]) == "of" {
        text := ExpandPattern(tokens[pos + 2], frags, if tok == "1" then KwOr else KwAnd, rule, names);
        return text, pos + 3;
      }
      text := SelOrTrue(tok, frags, rule);
      return text, pos + 1;
    }
    text := SelOrTrue(tokens[pos], frags, rule);
    next := pos + 1;
  }

  method ConditionToSql(tokens: seq<string>, frags: map<string, Text>, names: seq<string>, ghost rule: Rule)
    returns (text: Text)
    requires Fragments(frags, rule) && names == rule.names
    ensures text == ConditionText(tokens, rule)
  {
    var pos;
    text, pos := ParseCondExpr(tokens, 0, frags, names, rule);
  }
}
