/**
 The scanner as the script runs it: one object whose `index` and `nodes` its methods advance in
 place.  Each method is proved to leave exactly the state, and raise exactly when, the functions of
 `JsonScan` say; `Accepts` then states the whole contract in terms of the grammar.
 */
module JsonScanner {
  import opened Pieces
  import opened JsonGrammar
  import opened JsonScan
  import opened JsonExact

  class BudgetScanner {
    const text: string
    const budget: Budget
    var index: nat
    var nodes: nat

    constructor (text: string, maxDepth: int, maxNodes: int)
      ensures this.text == text && budget == Budget(maxDepth, maxNodes)
      ensures index == 0 && nodes == 0
    {
      this.text := text;
      this.budget := Budget(maxDepth, maxNodes);
      this.index := 0;
      this.nodes := 0;
    }

    ghost predicate Left(r: Outcome, ok: bool)
      reads this
    {
      ok == r.ok && index == r.index && nodes == r.nodes
    }

    method SkipWhitespace()
      requires index <= |text|
      modifies this`index
      ensures index == SkipBlank(text, old(index))
    {
      while index < |text| && IsBlankChar(text[index])
        invariant index <= |text|
        invariant SkipBlank(text, index) == SkipBlank(text, old(index))
      {
        index := index + 1;
      }
    }

    method ScanStringLiteral() returns (ok: bool)
      requires LooksAt(text, index, '"')
      modifies this`index
      ensures Lexed(ok, index) == ScanBody(text, old(index) + 1)
    {
      index := index + 1;
      while index < |text|
        invariant index <= |text|
        invariant ScanBody(text, index) == ScanBody(text, old(index) + 1)
        decreases |text| - index
      {
        var character := text[index];
        if character == '"' {
          index := index + 1;
          return true;
        }
        if character == '\\' {
          index := index + 1;
          if LooksAt(text, index, 'u') {
            if !FourHex(text, index + 1) { return false; }
            index := index + 5;
            continue;
          }
          if !(index < |text| && IsEscapable(text[index])) { return false; }
          index := index + 1;
          continue;
        }
        if character as int < 0x20 { return false; }
        index := index + 1;
      }
      return false;
    }

    method ScanAnyValue(depth: nat) returns (ok: bool)
      requires index <= |text|
      modifies this
      ensures Left(ScanValue(text, budget, old(index), old(nodes), depth), ok)
      decreases |text| - index, 1
    {
      nodes := nodes + 1;
      if depth > budget.maxDepth || nodes > budget.maxNodes { return false; }
      if LooksAt(text, index, '{') {
        ok := ScanObjectValue(depth);
      } else if LooksAt(text, index, '[') {
        ok := ScanArrayValue(depth);
      } else if LooksAt(text, index, '"') {
        ok := ScanStringLiteral();
      } else if Occurs(text, index, "true") {
        index := index + 4;
        ok := true;
      } else if Occurs(text, index, "false") {
        index := index + 5;
        ok := true;
      } else if Occurs(text, index, "null") {
        index := index + 4;
        ok := true;
      } else {
        var number := MatchNumber(text, index);
        if number.None? || number.value - index > MAX_JSON_NUMBER_TOKEN_LENGTH { return false; }
        index := number.value;
        ok := true;
      }
    }

    // The first half of one pass of the member loop: the key, its colon, and the blanks around it.
    method ScanObjectKey() returns (ok: bool)
      requires index <= |text|
      modifies this`index
      ensures Lexed(ok, index) == ScanKey(text, old(index))
    {
      if !LooksAt(text, index, '"') { return false; }
      ok := ScanStringLiteral();
      if !ok { return; }
      SkipWhitespace();
      if !LooksAt(text, index, ':') { return false; }
      index := index + 1;
      SkipWhitespace();
    }

    method ScanObjectValue(depth: nat) returns (ok: bool)
      requires LooksAt(text, index, '{')
      modifies this
      ensures Left(ScanObject(text, budget, old(index), old(nodes), depth), ok)
      decreases |text| - index, 0
    {
      hide ScanKey, ScanValue, SkipBlank, ScanBody, Occurs;
      index := index + 1;
      SkipWhitespace();
      if LooksAt(text, index, '}') {
        index := index + 1;
        return true;
      }
      ghost var goal := ScanMembers(text, budget, index, nodes, depth);
      while true
        invariant old(index) < index <= |text|
        invariant ScanMembers(text, budget, index, nodes, depth) == goal
        decreases |text| - index
      {
        ok := ScanObjectKey();
        if !ok { return; }
        ok := ScanAnyValue(depth + 1);
        if !ok { return; }
        SkipWhitespace();
        if LooksAt(text, index, '}') {
          index := index + 1;
          return true;
        }
        if !LooksAt(text, index, ',') { return false; }
        index := index + 1;
        SkipWhitespace();
      }
    }

    method ScanArrayValue(depth: nat) returns (ok: bool)
      requires LooksAt(text, index, '[')
      modifies this
      ensures Left(ScanArray(text, budget, old(index), old(nodes), depth), ok)
      decreases |text| - index, 0
    {
      hide ScanValue, SkipBlank, Occurs;
      index := index + 1;
      SkipWhitespace();
      if LooksAt(text, index, ']') {
        index := index + 1;
        return true;
      }
      ghost var goal := ScanItems(text, budget, index, nodes, depth);
      while true
        invariant old(index) < index <= |text|
        invariant ScanItems(text, budget, index, nodes, depth) == goal
        decreases |text| - index
      {
        ok := ScanAnyValue(depth + 1);
        if !ok { return; }
        SkipWhitespace();
        if LooksAt(text, index, ']') {
          index := index + 1;
          return true;
        }
        if !LooksAt(text, index, ',') { return false; }
        index := index + 1;
        SkipWhitespace();
      }
    }

    // scan(): accepted texts are the grammar's texts within the budget, `nodes` counts the values of
    // any tree of the text, and no more than one value beyond the budget is ever opened.
    method ScanText() returns (ok: bool)
      requires index == 0 && nodes == 0
      modifies this
      ensures Left(Scan(text, budget), ok)
      ensures ok <==> InBudgetGrammar(text, budget)
      ensures ok ==> forall d: Document :: ValidDocument(d) && DocumentText(d) == text ==> nodes == Nodes(d.root)
      ensures budget.maxNodes >= 0 ==> nodes <= budget.maxNodes + 1
    {
      AcceptsExactly(text, budget);
      if budget.maxNodes >= 0 { OpensAtMostOneValueTooMany(text, budget); }
      forall d: Document | ValidDocument(d) && DocumentText(d) == text
        ensures Scan(text, budget).ok ==> Scan(text, budget).nodes == Nodes(d.root)
      {
        GrammarTextsAreDecidedByTheBudget(d, budget);
      }
      SkipWhitespace();
      ok := ScanAnyValue(0);
      if !ok { return; }
      SkipWhitespace();
      if index != |text| { return false; }
    }
  }
}
