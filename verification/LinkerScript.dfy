/**
 The linker-script reader: comment removal, tokenising and the recursive-descent parser, each as the
 loop the script runs and as the function that loop computes.
 */
module LinkerScript {
  import opened Wrappers
  import opened Pieces
  import opened LinkerGrammar

  const MAX_SCRIPT_BYTES := 4096

  // ---- Comments ----

  // text.find(ab, i)
  function FindPair(text: string, i: nat, a: char, b: char): (r: Option<nat>)
    requires i <= |text|
    ensures r.Some? ==> i <= r.value && PairAt(text, r.value, a, b)
    decreases |text| - i
  {
    if i == |text| then None else if PairAt(text, i, a, b) then Some(i) else FindPair(text, i + 1, a, b)
  }

  // text.find(ab, i, end) >= 0
  predicate PairWithin(text: string, i: nat, end: nat, a: char, b: char) {
    exists k :: i <= k < end - 1 && PairAt(text, k, a, b)
  }

  function Before(s: string, rest: Option<string>): Option<string> {
    if rest.None? then None else Some(s + rest.value)
  }

  // The text from `i` on with every comment replaced by one space.
  function Strip(text: string, i: nat): Option<string>
    requires i <= |text|
    decreases |text| - i
  {
    if i == |text| then Some([])
    else if PairAt(text, i, '/', '*') then
      var end := FindPair(text, i + 2, '*', '/');
      if end.None? || PairWithin(text, i + 2, end.value, '/', '*') then None
      else Before(" ", Strip(text, end.value + 2))
    else if PairAt(text, i, '*', '/') then None
    else Before([text[i]], Strip(text, i + 1))
  }

  lemma {:induction false} BeforeBefore(a: string, b: string, rest: Option<string>)
    ensures Before(a, Before(b, rest)) == Before(a + b, rest)
  {
    if rest.Some? { assert a + (b + rest.value) == a + b + rest.value; }
  }

  lemma {:induction false} BeforeNothing(rest: Option<string>)
    ensures Before([], rest) == rest
  {
    if rest.Some? { assert [] + rest.value == rest.value; }
  }

  method StripComments(text: string) returns (r: Option<string>)
    ensures r == Strip(text, 0)
  {
    var uncommented := "";
    var cursor := 0;
    BeforeNothing(Strip(text, 0));
    while cursor < |text|
      invariant cursor <= |text|
      invariant Before(uncommented, Strip(text, cursor)) == Strip(text, 0)
    {
      if PairAt(text, cursor, '/', '*') {
        var end := FindPair(text, cursor + 2, '*', '/');
        if end.None? || PairWithin(text, cursor + 2, end.value, '/', '*') { return None; }
        BeforeBefore(uncommented, " ", Strip(text, end.value + 2));
        uncommented := uncommented + " ";
        cursor := end.value + 2;
        continue;
      }
      if PairAt(text, cursor, '*', '/') { return None; }
      BeforeBefore(uncommented, [text[cursor]], Strip(text, cursor + 1));
      uncommented := uncommented + [text[cursor]];
      cursor := cursor + 1;
    }
    assert uncommented + [] == uncommented;
    r := Some(uncommented);
  }

  // ---- Tokens ----

  predicate EndsToken(c: char) { IsSpace(c) || IsParen(c) }

  function TokenEnd(text: string, i: nat): (end: nat)
    requires i <= |text|
    ensures i <= end <= |text|
    ensures forall k :: i <= k < end ==> !EndsToken(text[k])
    ensures end < |text| ==> EndsToken(text[end])
    decreases |text| - i
  {
    if i < |text| && !EndsToken(text[i]) then TokenEnd(text, i + 1) else i
  }

  function Prefixed(s: seq<string>, rest: Option<seq<string>>): Option<seq<string>> {
    if rest.None? then None else Some(s + rest.value)
  }

  function Tokenize(text: string, i: nat): Option<seq<string>>
    requires i <= |text|
    decreases |text| - i
  {
    if i == |text| then Some([])
    else if IsSpace(text[i]) then Tokenize(text, i + 1)
    else if IsParen(text[i]) then Prefixed([[text[i]]], Tokenize(text, i + 1))
    else
      var end := TokenEnd(text, i + 1);
      if !IsWord(text[i..end]) then None else Prefixed([text[i..end]], Tokenize(text, end))
  }

  lemma {:induction false} PrefixedPrefixed(a: seq<string>, b: seq<string>, rest: Option<seq<string>>)
    ensures Prefixed(a, Prefixed(b, rest)) == Prefixed(a + b, rest)
  {
    if rest.Some? { assert a + (b + rest.value) == a + b + rest.value; }
  }

  lemma {:induction false} PrefixedNothing(rest: Option<seq<string>>)
    ensures Prefixed([], rest) == rest
  {
    if rest.Some? { assert [] + rest.value == rest.value; }
  }

  method SplitTokens(text: string) returns (r: Option<seq<string>>)
    ensures r == Tokenize(text, 0)
  {
    var tokens: seq<string> := [];
    var cursor := 0;
    PrefixedNothing(Tokenize(text, 0));
    while cursor < |text|
      invariant cursor <= |text|
      invariant Prefixed(tokens, Tokenize(text, cursor)) == Tokenize(text, 0)
    {
      if IsSpace(text[cursor]) {
        cursor := cursor + 1;
        continue;
      }
      if IsParen(text[cursor]) {
        PrefixedPrefixed(tokens, [[text[cursor]]], Tokenize(text, cursor + 1));
        tokens := tokens + [[text[cursor]]];
        cursor := cursor + 1;
        continue;
      }
      var end := cursor;
      while end < |text| && !IsSpace(text[end]) && !IsParen(text[end])
        invariant cursor <= end <= |text|
        invariant TokenEnd(text, end) == TokenEnd(text, cursor)
        invariant end == cursor || end <= TokenEnd(text, cursor)
      {
        end := end + 1;
      }
      var token := text[cursor..end];
      if !IsWord(token) { return None; }
      PrefixedPrefixed(tokens, [token], Tokenize(text, end));
      tokens := tokens + [token];
      cursor := end;
    }
    assert tokens + [] == tokens;
    r := Some(tokens);
  }

  // ---- Parsing ----

  datatype Parsed = Parsed(refs: seq<Linked>, position: nat)

  function After(refs: seq<Linked>, rest: Option<Parsed>): (r: Option<Parsed>)
    ensures r.Some? <==> rest.Some?
    ensures r.Some? ==> r.value.position == rest.value.position
  {
    if rest.None? then None else Some(Parsed(refs + rest.value.refs, rest.value.position))
  }

  lemma {:induction false} AfterAfter(a: seq<Linked>, b: seq<Linked>, rest: Option<Parsed>)
    ensures After(a, After(b, rest)) == After(a + b, rest)
  {
    if rest.Some? { assert a + (b + rest.value.refs) == a + b + rest.value.refs; }
  }

  // The input loop from `p`, up to a closing parenthesis or the end of the tokens.
  function ItemsFrom(tokens: seq<string>, p: nat, asNeeded: bool): (r: Option<Parsed>)
    requires p <= |tokens|
    ensures r.Some? ==> p <= r.value.position <= |tokens|
    ensures r.Some? && r.value.position < |tokens| ==> tokens[r.value.position] == ")"
    decreases |tokens| - p
  {
    if p == |tokens| || tokens[p] == ")" then Some(Parsed([], p))
    else if tokens[p] == "AS_NEEDED" then
      if asNeeded || !LooksAt(tokens, p + 1, "(") then None
      else
        var inner := ItemsFrom(tokens, p + 2, true);
        if inner.None? || inner.value.refs == [] || inner.value.position == |tokens| then None
        else After(inner.value.refs, ItemsFrom(tokens, inner.value.position + 1, asNeeded))
    else if IsReserved(tokens[p]) || tokens[p] == "(" || !ValidReference(tokens[p]) then None
    else After([(tokens[p], asNeeded)], ItemsFrom(tokens, p + 1, asNeeded))
  }

  // A parenthesised, non-empty group whose opening parenthesis should be at `p`; the position after it.
  function GroupFrom(tokens: seq<string>, p: nat): (r: Option<Parsed>)
    requires p <= |tokens|
    ensures r.Some? ==> p < r.value.position <= |tokens|
  {
    if !LooksAt(tokens, p, "(") then None
    else
      var inner := ItemsFrom(tokens, p + 1, false);
      if inner.None? || inner.value.refs == [] || inner.value.position == |tokens| then None
      else Some(Parsed(inner.value.refs, inner.value.position + 1))
  }

  function FoundThen(refs: seq<Linked>, rest: Option<seq<Linked>>): Option<seq<Linked>> {
    if rest.None? then None else Some(refs + rest.value)
  }

  lemma {:induction false} FoundFound(a: seq<Linked>, b: seq<Linked>, rest: Option<seq<Linked>>)
    ensures FoundThen(a, FoundThen(b, rest)) == FoundThen(a + b, rest)
  {
    if rest.Some? { assert a + (b + rest.value) == a + b + rest.value; }
  }

  lemma {:induction false} FoundNothing(rest: Option<seq<Linked>>)
    ensures FoundThen([], rest) == rest
  {
    if rest.Some? { assert [] + rest.value == rest.value; }
  }

  lemma {:induction false} FoundEnd(refs: seq<Linked>)
    ensures FoundThen(refs, Some([])) == Some(refs)
  {
    assert refs + [] == refs;
  }

  function DirectivesFrom(tokens: seq<string>, p: nat, inputs: nat, formatSeen: bool): Option<seq<Linked>>
    requires p <= |tokens|
    decreases |tokens| - p
  {
    if p == |tokens| then (if inputs == 1 then Some([]) else None)
    else if tokens[p] == "OUTPUT_FORMAT" then
      if formatSeen || !LooksAt(tokens, p + 1, "(") || !LooksAt(tokens, p + 2, "elf64-littleaarch64")
        || !LooksAt(tokens, p + 3, ")") then None
      else DirectivesFrom(tokens, p + 4, inputs, true)
    else if tokens[p] != "GROUP" && tokens[p] != "INPUT" then None
    else if inputs + 1 != 1 then None
    else
      var group := GroupFrom(tokens, p + 1);
      if group.None? then None
      else
        FoundThen(group.value.refs, DirectivesFrom(tokens, group.value.position, inputs + 1, formatSeen))
  }

  function Read(data: string): Option<seq<Linked>> {
    if data == [] || |data| > MAX_SCRIPT_BYTES || !IsAscii(data) then None
    else
      var stripped := Strip(data, 0);
      if stripped.None? then None
      else
        var tokens := Tokenize(stripped.value, 0);
        if tokens.None? then None else DirectivesFrom(tokens.value, 0, 0, false)
  }

  // The parser's closure variables: the tokens, the position in them, the references found so far.
  class Parser {
    const tokens: seq<string>
    var position: nat
    var references: seq<Linked>

    constructor (tokens: seq<string>)
      ensures this.tokens == tokens && position == 0 && references == []
    {
      this.tokens := tokens;
      this.position := 0;
      this.references := [];
    }

    method Take() returns (r: Option<string>)
      requires position <= |tokens|
      modifies this`position
      ensures r.None? <==> old(position) == |tokens|
      ensures r.Some? ==> position == old(position) + 1 && r.value == tokens[old(position)]
    {
      if position >= |tokens| { return None; }
      r := Some(tokens[position]);
      position := position + 1;
    }

    method Expect(expected: string) returns (ok: bool)
      requires position <= |tokens|
      modifies this`position
      ensures ok <==> LooksAt(tokens, old(position), expected)
      ensures ok ==> position == old(position) + 1
    {
      var token := Take();
      ok := token.Some? && token.value == expected;
    }

    // One pass of the input loop: a reference, or a whole AS_NEEDED group.
    method ParseInput(asNeeded: bool) returns (ok: bool)
      requires position < |tokens| && tokens[position] != ")"
      modifies this
      ensures !ok ==> ItemsFrom(tokens, old(position), asNeeded).None?
      ensures ok ==> old(position) < position <= |tokens| && old(references) < references
      ensures ok ==> (
        ItemsFrom(tokens, old(position), asNeeded)
        == After(references[|old(references)|..], ItemsFrom(tokens, position, asNeeded)))
      decreases |tokens| - position, 0
    {
      hide ValidReference, After;
      var token := Take();
      if token.value == "AS_NEEDED" {
        if asNeeded { return false; }
        ok := Expect("(");
        if !ok { return; }
        ghost var seen, inner := references, ItemsFrom(tokens, position, true);
        ok := ParseInputs(true);
        if !ok { return; }
        assert references[|seen|..] == inner.value.refs;
        ok := Expect(")");
        return;
      }
      if token.value == "GROUP" || token.value == "INPUT" || token.value == "OUTPUT_FORMAT"
        || token.value == "(" {
        return false;
      }
      if !ValidReference(token.value) { return false; }
      references := references + [(token.value, asNeeded)];
      assert references[|old(references)|..] == [(token.value, asNeeded)];
      ok := true;
    }

    method ParseInputs(asNeeded: bool) returns (ok: bool)
      requires position <= |tokens|
      modifies this
      ensures var r := ItemsFrom(tokens, old(position), asNeeded);
        && (ok <==> r.Some? && r.value.refs != [])
        && (ok ==> position == r.value.position && references == old(references) + r.value.refs)
      decreases |tokens| - position, 1
    {
      hide ValidReference;
      var start := |references|;
      ghost var before := references;
      ghost var goal := ItemsFrom(tokens, position, asNeeded);
      while position < |tokens| && tokens[position] != ")"
        invariant old(position) <= position <= |tokens|
        invariant start <= |references| && references[..start] == before
        invariant After(references, ItemsFrom(tokens, position, asNeeded)) == After(before, goal)
        decreases |tokens| - position
      {
        ghost var seen, p := references, position;
        ok := ParseInput(asNeeded);
        if !ok { return; }
        assert references == seen + references[|seen|..];
        AfterAfter(seen, references[|seen|..], ItemsFrom(tokens, position, asNeeded));
      }
      assert references == before + references[start..];
      ok := |references| != start;
    }

    method ParseScript() returns (ok: bool)
      requires position == 0 && references == []
      modifies this
      ensures var r := DirectivesFrom(tokens, 0, 0, false);
        && (ok <==> r.Some?) && (ok ==> references == r.value)
    {
      var inputDirectives := 0;
      var outputFormatSeen := false;
      ghost var goal := DirectivesFrom(tokens, 0, 0, false);
      FoundNothing(goal);
      while position < |tokens|
        invariant position <= |tokens|
        invariant goal == FoundThen(references, DirectivesFrom(tokens, position, inputDirectives, outputFormatSeen))
        decreases |tokens| - position
      {
        hide ItemsFrom;
        var directive := Take();
        if directive.value == "OUTPUT_FORMAT" {
          if outputFormatSeen { return false; }
          outputFormatSeen := true;
          ok := Expect("(");
          if !ok { return; }
          var name := Take();
          if name.None? || name.value != "elf64-littleaarch64" { return false; }
          ok := Expect(")");
          if !ok { return; }
          continue;
        }
        if directive.value != "GROUP" && directive.value != "INPUT" { return false; }
        inputDirectives := inputDirectives + 1;
        if inputDirectives != 1 { return false; }
        ghost var seen, group := references, GroupFrom(tokens, position);
        ok := Expect("(");
        if !ok { return; }
        ok := ParseInputs(false);
        if !ok { return; }
        ok := Expect(")");
        if !ok { return; }
        FoundFound(seen, group.value.refs, DirectivesFrom(tokens, position, inputDirectives, outputFormatSeen));
      }
      FoundEnd(references);
      ok := inputDirectives == 1;
    }
  }

  method ParseGnuLinkerScript(data: string) returns (r: Option<seq<Linked>>)
    ensures r == Read(data)
  {
    if data == [] || |data| > MAX_SCRIPT_BYTES || !IsAscii(data) { return None; }
    var text := StripComments(data);
    if text.None? { return None; }
    var tokens := SplitTokens(text.value);
    if tokens.None? { return None; }
    var parser := new Parser(tokens.value);
    var ok := parser.ParseScript();
    r := if ok then Some(parser.references) else None;
  }
}
