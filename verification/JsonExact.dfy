/**
 The scan accepts exactly the grammar within the budget.  Completeness comes first, then soundness,
 then the two theorems about whole documents.
 */
module JsonExact {
  import opened Wrappers
  import opened Pieces
  import opened JsonGrammar
  import opened JsonScan

  // ---- Completeness: lexical level ----

  predicate Stops(text: string, i: nat, p: char -> bool) { i < |text| ==> !p(text[i]) }

  lemma {:induction false} SkipBlankOver(text: string, i: nat, s: string)
    requires Occurs(text, i, s) && IsBlank(s) && Stops(text, i + |s|, IsBlankChar)
    ensures SkipBlank(text, i) == i + |s|
    decreases |s|
  {
    if s == [] {
    } else {
      assert s == [s[0]] + s[1..];
      First(text, i, s[0], s[1..]);
      SkipBlankOver(text, i + 1, s[1..]);
    }
  }

  lemma {:induction false} SkipDigitsOver(text: string, i: nat, s: string)
    requires Occurs(text, i, s) && IsDigits(s) && Stops(text, i + |s|, IsDigit)
    ensures SkipDigits(text, i) == i + |s|
    decreases |s|
  {
    if s == [] {
    } else {
      assert s == [s[0]] + s[1..];
      First(text, i, s[0], s[1..]);
      SkipDigitsOver(text, i + 1, s[1..]);
    }
  }

  // What may follow a value: the end, a blank, or a bracket or comma.
  predicate Follows(text: string, j: nat) {
    j < |text| ==> IsBlankChar(text[j]) || text[j] == ',' || text[j] == ']' || text[j] == '}'
  }

  lemma {:induction false} WholeOver(text: string, i: nat, minus: bool, whole: string)
    requires ValidWhole(whole)
    requires Occurs(text, i, (if minus then ['-'] else []) + whole)
    requires Stops(text, i + |(if minus then ['-'] else []) + whole|, IsDigit)
    ensures MatchWhole(text, i) == Some(i + |(if minus then ['-'] else []) + whole|)
  {
    hide Occurs;
    var sign := if minus then ['-'] else [];
    Split(text, i, sign, whole);
    if minus { Single(text, i, '-'); }
    var j := i + |sign|;
    FirstOf(text, j, whole);
    if whole[0] != '0' { SkipDigitsOver(text, j + 1, whole[1..]); }
  }

  lemma {:induction false} FractionOver(text: string, i: nat, f: Option<string>)
    requires f.Some? ==> f.value != [] && IsDigits(f.value)
    requires Occurs(text, i, FractionText(f))
    requires Stops(text, i + |FractionText(f)|, IsDigit)
    requires f.None? ==> !LooksAt(text, i, '.')
    ensures MatchFraction(text, i) == i + |FractionText(f)|
  {
    hide Occurs;
    if f.Some? {
      First(text, i, '.', f.value);
      SkipDigitsOver(text, i + 1, f.value);
    }
  }

  lemma {:induction false} ExponentOver(text: string, i: nat, e: Option<Exponent>)
    requires e.Some? ==> ValidExponent(e.value)
    requires Occurs(text, i, ExponentText(e))
    requires Follows(text, i + |ExponentText(e)|)
    ensures MatchExponent(text, i) == i + |ExponentText(e)|
  {
    hide Occurs;
    if e.Some? {
      var x := e.value;
      assert ExponentText(e) == [x.letter] + (x.sign + x.digits);
      First(text, i, x.letter, x.sign + x.digits);
      Split(text, i + 1, x.sign, x.digits);
      if x.sign != "" { FirstOf(text, i + 1, x.sign); }
      FirstOf(text, i + 1 + |x.sign|, x.digits);
      SkipDigitsOver(text, i + 1 + |x.sign|, x.digits);
    }
  }

  lemma {:induction false} NumberParts(n: Number)
    ensures NumberText(n)
      == ((if n.minus then ['-'] else []) + n.whole) + (FractionText(n.fraction) + ExponentText(n.exponent))
  {
  }

  // The longest match at a number followed by a delimiter is that whole number.
  lemma {:induction false} NumberOver(text: string, i: nat, n: Number)
    requires ValidNumber(n) && Occurs(text, i, NumberText(n)) && Follows(text, i + |NumberText(n)|)
    ensures MatchNumber(text, i) == Some(i + |NumberText(n)|)
  {
    hide Occurs, MatchWhole, MatchFraction, MatchExponent, ValidWhole, IsDigits, NumberText;
    var head := (if n.minus then ['-'] else []) + n.whole;
    var f, e := FractionText(n.fraction), ExponentText(n.exponent);
    NumberParts(n);
    Split(text, i, head, f + e);
    Split(text, i + |head|, f, e);
    if e != [] { FirstOf(text, i + |head| + |f|, e); }
    if f != [] { FirstOf(text, i + |head|, f); }
    WholeOver(text, i, n.minus, n.whole);
    FractionOver(text, i + |head|, n.fraction);
    ExponentOver(text, i + |head| + |f|, n.exponent);
  }

  lemma {:induction false} HexAt(text: string, i: nat, hex: string)
    requires Occurs(text, i, hex) && |hex| == 4 && forall k :: 0 <= k < 4 ==> IsHex(hex[k])
    ensures FourHex(text, i)
  {
    forall k | i <= k < i + 4 ensures IsHex(text[k]) { assert text[i + (k - i)] == hex[k - i]; }
  }

  lemma {:induction false} BodyOver(text: string, i: nat, cs: seq<Char>)
    requires ValidChars(cs) && Occurs(text, i, BodyText(cs))
    ensures ScanBody(text, i) == Lexed(true, i + |BodyText(cs)|)
    decreases |cs|
  {
    hide Occurs, FourHex;
    if cs == [] {
      Single(text, i, '"');
    } else {
      var c := CharText(cs[0]);
      Split(text, i, c, BodyText(cs[1..]));
      BodyOver(text, i + |c|, cs[1..]);
      assert ValidChar(cs[0]);
      FirstOf(text, i, c);
      match cs[0] {
        case Plain(_) =>
        case Escaped(_) => FirstOf(text, i + 1, c[1..]);
        case Unicode(hex) =>
          assert c == ['\\'] + (['u'] + hex);
          First(text, i, '\\', ['u'] + hex);
          First(text, i + 1, 'u', hex);
          HexAt(text, i + 2, hex);
      }
    }
  }

  // ---- Completeness: values ----

  predicate Fits(v: Value, b: Budget, n: nat, depth: nat) {
    && n + Nodes(v) <= b.maxNodes && depth + Height(v) <= b.maxDepth
    && ShortNumbers(v, MAX_JSON_NUMBER_TOKEN_LENGTH)
  }

  predicate FitItems(items: Items, b: Budget, n: nat, depth: nat) {
    && n + ItemsNodes(items) <= b.maxNodes && depth + 1 + ItemsHeight(items) <= b.maxDepth
    && ShortItems(items, MAX_JSON_NUMBER_TOKEN_LENGTH)
  }

  predicate FitMembers(ms: Members, b: Budget, n: nat, depth: nat) {
    && n + MembersNodes(ms) <= b.maxNodes && depth + 1 + MembersHeight(ms) <= b.maxDepth
    && ShortMembers(ms, MAX_JSON_NUMBER_TOKEN_LENGTH)
  }

  ghost predicate Agrees(r: Outcome, fits: bool, end: nat, nodes: nat) {
    && (r.ok <==> fits)
    && (r.ok ==> r.index == end && r.nodes == nodes)
  }

  // First characters, so that the scanner's tests pick the tree's own branch.
  lemma {:induction false} ValueStart(v: Value)
    requires ValidValue(v)
    ensures ValueText(v) != []
    ensures Starts(v, ValueText(v)[0])
  {
    if v.Num? {
      var sign := if v.number.minus then ['-'] else [];
      assert NumberText(v.number)[0] == (sign + v.number.whole)[0];
    }
  }

  predicate Starts(v: Value, c: char) {
    && !IsBlankChar(c) && c != ']' && c != '}'
    && (c == '{' <==> v.EmptyObject? || v.Object?)
    && (c == '[' <==> v.EmptyArray? || v.Array?)
    && (c == '"' <==> v.Str?)
    && (c == '-' || IsDigit(c) <==> v.Num?)
    && (v.Word? ==> v.text != [] && c == v.text[0])
  }

  lemma {:induction false} ValueOver(text: string, b: Budget, i: nat, v: Value, n: nat, depth: nat)
    requires ValidValue(v) && Occurs(text, i, ValueText(v)) && Follows(text, i + |ValueText(v)|)
    ensures Agrees(ScanValue(text, b, i, n, depth), Fits(v, b, n, depth), i + |ValueText(v)|, n + Nodes(v))
    decreases v, 1
  {
    hide Occurs, Follows, IsBlank, SkipBlank, ItemsText, MembersText, ScanItems, ScanMembers, ScanBody;
    hide MatchNumber, NumberText, ValidNumber, ItemsNodes, MembersNodes, ItemsHeight, MembersHeight;
    ValueStart(v);
    FirstOf(text, i, ValueText(v));
    match v {
      case Word(w) =>
        OtherWords(text, i, w[0]);
      case Num(number) =>
        NumberOver(text, i, number);
        OtherWords(text, i, text[i]);
      case Str(chars) =>
        assert StringText(chars) == ['"'] + BodyText(chars);
        First(text, i, '"', BodyText(chars));
        BodyOver(text, i + 1, chars);
      case EmptyArray(open) =>
        BracketOver(text, i, '[', open, [']']);
      case Array(open, items) =>
        ItemsStart(items);
        BracketOver(text, i, '[', open, ItemsText(items));
        ItemsOver(text, b, i + 1 + |open|, items, n + 1, depth);
      case EmptyObject(open) =>
        BracketOver(text, i, '{', open, ['}']);
      case Object(open, members) =>
        MembersStart(members);
        BracketOver(text, i, '{', open, MembersText(members));
        MembersOver(text, b, i + 1 + |open|, members, n + 1, depth);
    }
  }

  // Only the word with the right first letter can occur.
  lemma {:induction false} OtherWords(text: string, i: nat, c: char)
    requires LooksAt(text, i, c)
    ensures c != 't' ==> !Occurs(text, i, "true")
    ensures c != 'f' ==> !Occurs(text, i, "false")
    ensures c != 'n' ==> !Occurs(text, i, "null")
  {
    if c != 't' { assert text[i + 0] != "true"[0]; }
    if c != 'f' { assert text[i + 0] != "false"[0]; }
    if c != 'n' { assert text[i + 0] != "null"[0]; }
  }

  // An opening bracket, blanks, and something that is not blank.
  lemma {:induction false} BracketOver(text: string, i: nat, bracket: char, open: string, rest: string)
    requires IsBlank(open) && rest != [] && !IsBlankChar(rest[0])
    requires Occurs(text, i, [bracket] + open + rest)
    ensures LooksAt(text, i, bracket) && SkipBlank(text, i + 1) == i + 1 + |open|
    ensures Occurs(text, i + 1 + |open|, rest) && LooksAt(text, i + 1 + |open|, rest[0])
  {
    hide Occurs;
    assert [bracket] + open + rest == [bracket] + (open + rest);
    First(text, i, bracket, open + rest);
    BlankThen(text, i + 1, open, rest);
  }

  lemma {:induction false} BlankThen(text: string, i: nat, blank: string, rest: string)
    requires IsBlank(blank) && rest != [] && !IsBlankChar(rest[0])
    requires Occurs(text, i, blank + rest)
    ensures Occurs(text, i, blank) && SkipBlank(text, i) == i + |blank|
    ensures Occurs(text, i + |blank|, rest) && LooksAt(text, i + |blank|, rest[0])
  {
    hide Occurs;
    Split(text, i, blank, rest);
    FirstOf(text, i + |blank|, rest);
    SkipBlankOver(text, i, blank);
  }

  // The character after a value inside a bracket.
  lemma {:induction false} AfterValue(text: string, j: nat, after: string, rest: string)
    requires IsBlank(after) && rest != [] && (rest[0] == ',' || rest[0] == ']' || rest[0] == '}')
    requires Occurs(text, j, after + rest)
    ensures Follows(text, j) && SkipBlank(text, j) == j + |after|
    ensures Occurs(text, j + |after|, rest) && LooksAt(text, j + |after|, rest[0])
  {
    hide Occurs;
    BlankThen(text, j, after, rest);
    if after != [] { FirstOf(text, j, after); }
  }

  lemma {:induction false} ItemsStart(items: Items)
    requires ValidItems(items)
    ensures var s := ItemsText(items); s != [] && !IsBlankChar(s[0]) && s[0] != ']' && s[0] != '}'
  {
    ValueStart(items.value);
    assert ItemsText(items)[0] == ValueText(items.value)[0];
  }

  lemma {:induction false} MembersStart(ms: Members)
    ensures MembersText(ms) != [] && MembersText(ms)[0] == '"'
  {
  }

  lemma {:induction false} ItemsOver(text: string, b: Budget, i: nat, items: Items, n: nat, depth: nat)
    requires ValidItems(items) && Occurs(text, i, ItemsText(items))
    ensures Agrees(ScanItems(text, b, i, n, depth), FitItems(items, b, n, depth), i + |ItemsText(items)|,
                   n + ItemsNodes(items))
    decreases items, 0
  {
    hide Occurs, Follows, IsBlank, ScanValue, SkipBlank, ValueText, Nodes, Height, ShortNumbers, IsBlankChar;
    var v, after := items.value, items.after;
    var close := if items.LastItem? then [']'] else [','] + (items.next + ItemsText(items.rest));
    Split(text, i, ValueText(v), after + close);
    var j := i + |ValueText(v)|;
    AfterValue(text, j, after, close);
    ValueOver(text, b, i, v, n, depth + 1);
    if items.MoreItems? {
      First(text, j + |after|, ',', items.next + ItemsText(items.rest));
      ItemsStart(items.rest);
      BlankThen(text, j + |after| + 1, items.next, ItemsText(items.rest));
      ItemsOver(text, b, j + |after| + 1 + |items.next|, items.rest, n + Nodes(v), depth);
    }
  }

  lemma {:induction false} KeyOver(text: string, i: nat, ms: Members, rest: string)
    requires ValidChars(ms.key) && IsBlank(ms.beforeColon) && IsBlank(ms.afterColon)
    requires rest != [] && !IsBlankChar(rest[0])
    requires Occurs(text, i, StringText(ms.key) + (ms.beforeColon + ([':'] + (ms.afterColon + rest))))
    ensures ScanKey(text, i)
      == Lexed(true, i + |StringText(ms.key)| + |ms.beforeColon| + 1 + |ms.afterColon|)
    ensures Occurs(text, i + |StringText(ms.key)| + |ms.beforeColon| + 1 + |ms.afterColon|, rest)
  {
    hide Occurs;
    var tail := ms.afterColon + rest;
    Split(text, i, StringText(ms.key), ms.beforeColon + ([':'] + tail));
    First(text, i, '"', BodyText(ms.key));
    BodyOver(text, i + 1, ms.key);
    var j := i + |StringText(ms.key)|;
    BlankThen(text, j, ms.beforeColon, [':'] + tail);
    First(text, j + |ms.beforeColon|, ':', tail);
    BlankThen(text, j + |ms.beforeColon| + 1, ms.afterColon, rest);
  }

  lemma {:induction false} MembersOver(text: string, b: Budget, i: nat, ms: Members, n: nat, depth: nat)
    requires ValidMembers(ms) && Occurs(text, i, MembersText(ms))
    ensures Agrees(ScanMembers(text, b, i, n, depth), FitMembers(ms, b, n, depth),
                   i + |MembersText(ms)|, n + MembersNodes(ms))
    decreases ms, 0
  {
    hide Occurs, ScanKey, Follows, IsBlank, ScanValue, SkipBlank, ValueText, Nodes, Height, ShortNumbers, StringText;
    var v, after := ms.value, ms.after;
    ValueStart(v);
    var close := if ms.LastMember? then ['}'] else [','] + (ms.next + MembersText(ms.rest));
    KeyOver(text, i, ms, ValueText(v) + (after + close));
    var k := ScanKey(text, i).index;
    Split(text, k, ValueText(v), after + close);
    var j := k + |ValueText(v)|;
    AfterValue(text, j, after, close);
    ValueOver(text, b, k, v, n, depth + 1);
    if ms.MoreMembers? {
      First(text, j + |after|, ',', ms.next + MembersText(ms.rest));
      MembersStart(ms.rest);
      BlankThen(text, j + |after| + 1, ms.next, MembersText(ms.rest));
      MembersOver(text, b, j + |after| + 1 + |ms.next|, ms.rest, n + Nodes(v), depth);
    }
  }

  // ---- Soundness: what was accepted is a piece of the grammar ----

  lemma {:induction false} SkippedBlank(text: string, i: nat) returns (s: string)
    requires i <= |text|
    ensures IsBlank(s) && Spans(text, i, SkipBlank(text, i), s)
    decreases |text| - i
  {
    s := [];
    if i < |text| && IsBlankChar(text[i]) {
      var rest := SkippedBlank(text, i + 1);
      s := [text[i]] + rest;
      JoinOne(text, i, SkipBlank(text, i), text[i], rest);
    }
  }

  lemma {:induction false} SkippedDigits(text: string, i: nat) returns (s: string)
    requires i <= |text|
    ensures IsDigits(s) && Spans(text, i, SkipDigits(text, i), s)
    decreases |text| - i
  {
    s := [];
    if i < |text| && IsDigit(text[i]) {
      var rest := SkippedDigits(text, i + 1);
      s := [text[i]] + rest;
      JoinOne(text, i, SkipDigits(text, i), text[i], rest);
    }
  }

  lemma {:induction false} WholeMatched(text: string, i: nat) returns (minus: bool, whole: string)
    requires i <= |text| && MatchWhole(text, i).Some?
    ensures ValidWhole(whole)
    ensures Spans(text, i, MatchWhole(text, i).value, (if minus then ['-'] else []) + whole)
  {
    hide Occurs;
    minus := LooksAt(text, i, '-');
    var j := if minus then i + 1 else i;
    var end := MatchWhole(text, i).value;
    if LooksAt(text, j, '0') {
      whole := ['0'];
      One(text, j, '0');
    } else {
      var rest := SkippedDigits(text, j + 1);
      whole := [text[j]] + rest;
      JoinOne(text, j, end, text[j], rest);
    }
    if minus { JoinOne(text, i, end, '-', whole); } else { assert [] + whole == whole; }
  }

  lemma {:induction false} FractionMatched(text: string, i: nat) returns (f: Option<string>)
    requires i <= |text|
    ensures f.Some? ==> f.value != [] && IsDigits(f.value)
    ensures Spans(text, i, MatchFraction(text, i), FractionText(f))
  {
    f := None;
    if MatchFraction(text, i) > i {
      var digits := SkippedDigits(text, i + 1);
      f := Some(digits);
      JoinOne(text, i, MatchFraction(text, i), '.', digits);
    }
  }

  lemma {:induction false} ExponentMatched(text: string, i: nat) returns (e: Option<Exponent>)
    requires i <= |text|
    ensures e.Some? ==> ValidExponent(e.value)
    ensures Spans(text, i, MatchExponent(text, i), ExponentText(e))
  {
    var end := MatchExponent(text, i);
    if end == i { return None; }
    hide Occurs, SkipDigits, IsDigits, ExponentText;
    var signed := LooksAt(text, i + 1, '+') || LooksAt(text, i + 1, '-');
    var d := if signed then i + 2 else i + 1;
    var digits := SkippedDigits(text, d);
    var sign := if signed then [text[i + 1]] else [];
    if signed { JoinOne(text, i + 1, end, text[i + 1], digits); } else { assert sign + digits == digits; }
    JoinOne(text, i, end, text[i], sign + digits);
    e := Some(Exponent(text[i], sign, digits));
    ExponentParts(e.value);
  }

  lemma {:induction false} ExponentParts(e: Exponent)
    ensures ExponentText(Some(e)) == [e.letter] + (e.sign + e.digits)
  {
  }

  lemma {:induction false} NumberMatched(text: string, i: nat) returns (n: Number)
    requires i <= |text| && MatchNumber(text, i).Some?
    ensures ValidNumber(n) && Spans(text, i, MatchNumber(text, i).value, NumberText(n))
  {
    hide Occurs;
    var minus, whole := WholeMatched(text, i);
    var j := MatchWhole(text, i).value;
    var f := FractionMatched(text, j);
    var k := MatchFraction(text, j);
    var e := ExponentMatched(text, k);
    n := Number(minus, whole, f, e);
    var head := (if minus then ['-'] else []) + whole;
    Join(text, i, j, k, head, FractionText(f));
    Join(text, i, k, MatchExponent(text, k), head + FractionText(f), ExponentText(e));
  }

  lemma {:induction false} BodyScanned(text: string, i: nat) returns (cs: seq<Char>)
    requires i <= |text| && ScanBody(text, i).ok
    ensures ValidChars(cs) && Spans(text, i, ScanBody(text, i).index, BodyText(cs))
    decreases |text| - i
  {
    if text[i] == '"' { One(text, i, '"'); return []; }
    var c, j;
    if text[i] != '\\' {
      c, j := Plain(text[i]), i + 1;
    } else if LooksAt(text, i + 1, 'u') {
      c, j := Unicode(text[i + 2..i + 6]), i + 6;
    } else {
      c, j := Escaped(text[i + 1]), i + 2;
    }
    assert Spans(text, i, j, CharText(c));
    var rest := BodyScanned(text, j);
    cs := [c] + rest;
    assert cs[1..] == rest;
    Join(text, i, j, ScanBody(text, i).index, CharText(c), BodyText(rest));
  }

  lemma {:induction false} StringScanned(text: string, i: nat) returns (cs: seq<Char>)
    requires LooksAt(text, i, '"') && ScanBody(text, i + 1).ok
    ensures ValidChars(cs) && Spans(text, i, ScanBody(text, i + 1).index, StringText(cs))
  {
    cs := BodyScanned(text, i + 1);
    JoinOne(text, i, ScanBody(text, i + 1).index, '"', BodyText(cs));
  }

  lemma {:induction false} ValueScanned(text: string, b: Budget, i: nat, n: nat, depth: nat)
    returns (v: Value)
    requires i <= |text| && ScanValue(text, b, i, n, depth).ok
    ensures ValidValue(v) && Spans(text, i, ScanValue(text, b, i, n, depth).index, ValueText(v))
    decreases |text| - i, 1
  {
    hide Occurs, Spans, SkipBlank, ScanItems, ScanMembers, ScanBody, MatchNumber, IsBlank, ItemsText, MembersText;
    hide NumberText, StringText, ValidNumber, ValidChars;
    var end := ScanValue(text, b, i, n, depth).index;
    if LooksAt(text, i, '{') {
      var j := SkipBlank(text, i + 1);
      var open := SkippedBlank(text, i + 1);
      JoinOne(text, i, j, '{', open);
      if LooksAt(text, j, '}') {
        v := EmptyObject(open);
        One(text, j, '}');
        Join(text, i, j, end, ['{'] + open, ['}']);
      } else {
        var ms := MembersScanned(text, b, j, n + 1, depth);
        v := Object(open, ms);
        Join(text, i, j, end, ['{'] + open, MembersText(ms));
      }
    } else if LooksAt(text, i, '[') {
      var j := SkipBlank(text, i + 1);
      var open := SkippedBlank(text, i + 1);
      JoinOne(text, i, j, '[', open);
      if LooksAt(text, j, ']') {
        v := EmptyArray(open);
        One(text, j, ']');
        Join(text, i, j, end, ['['] + open, [']']);
      } else {
        var items := ItemsScanned(text, b, j, n + 1, depth);
        v := Array(open, items);
        Join(text, i, j, end, ['['] + open, ItemsText(items));
      }
    } else if LooksAt(text, i, '"') {
      var cs := StringScanned(text, i);
      v := Str(cs);
    } else if Occurs(text, i, "true") || Occurs(text, i, "false") || Occurs(text, i, "null") {
      var w := if Occurs(text, i, "true") then "true" else if Occurs(text, i, "false") then "false" else "null";
      v := Word(w);
      SpansOccurs(text, i, w);
    } else {
      var number := NumberMatched(text, i);
      v := Num(number);
    }
  }

  lemma {:induction false} ItemsScanned(text: string, b: Budget, i: nat, n: nat, depth: nat)
    returns (items: Items)
    requires i <= |text| && ScanItems(text, b, i, n, depth).ok
    ensures ValidItems(items) && Spans(text, i, ScanItems(text, b, i, n, depth).index, ItemsText(items))
    decreases |text| - i, 2
  {
    hide Occurs, Spans;
    var v := ValueScanned(text, b, i, n, depth + 1);
    var r := ScanValue(text, b, i, n, depth + 1);
    var j := SkipBlank(text, r.index);
    var after := SkippedBlank(text, r.index);
    var end := ScanItems(text, b, i, n, depth).index;
    var close;
    if LooksAt(text, j, ']') {
      One(text, j, ']');
      close := [']'];
      items := LastItem(v, after);
    } else {
      var k := SkipBlank(text, j + 1);
      var next := SkippedBlank(text, j + 1);
      var rest := ItemsScanned(text, b, k, r.nodes, depth);
      Join(text, j + 1, k, end, next, ItemsText(rest));
      JoinOne(text, j, end, ',', next + ItemsText(rest));
      close := [','] + (next + ItemsText(rest));
      items := MoreItems(v, after, next, rest);
    }
    Join(text, r.index, j, end, after, close);
    Join(text, i, r.index, end, ValueText(v), after + close);
  }

  lemma {:induction false} KeyScanned(text: string, i: nat, end: nat, rest: string)
    returns (key: seq<Char>, before: string, after: string)
    requires i <= |text| && ScanKey(text, i).ok && Spans(text, ScanKey(text, i).index, end, rest)
    ensures ValidChars(key) && IsBlank(before) && IsBlank(after)
    ensures Spans(text, i, end, StringText(key) + (before + ([':'] + (after + rest))))
  {
    hide Occurs, Spans;
    key := StringScanned(text, i);
    var q := ScanBody(text, i + 1).index;
    before := SkippedBlank(text, q);
    var c := SkipBlank(text, q);
    after := SkippedBlank(text, c + 1);
    var s := SkipBlank(text, c + 1);
    Join(text, c + 1, s, end, after, rest);
    JoinOne(text, c, end, ':', after + rest);
    Join(text, q, c, end, before, [':'] + (after + rest));
    Join(text, i, q, end, StringText(key), before + ([':'] + (after + rest)));
  }

  lemma {:induction false} MembersScanned(text: string, b: Budget, i: nat, n: nat, depth: nat)
    returns (ms: Members)
    requires i <= |text| && ScanMembers(text, b, i, n, depth).ok
    ensures ValidMembers(ms) && Spans(text, i, ScanMembers(text, b, i, n, depth).index, MembersText(ms))
    decreases |text| - i, 2
  {
    hide Occurs, Spans, ScanKey, SkipBlank, IsBlank, ValidChars, StringText;
    var s := ScanKey(text, i).index;
    var v := ValueScanned(text, b, s, n, depth + 1);
    var r := ScanValue(text, b, s, n, depth + 1);
    var j := SkipBlank(text, r.index);
    var after := SkippedBlank(text, r.index);
    var end := ScanMembers(text, b, i, n, depth).index;
    if LooksAt(text, j, '}') {
      One(text, j, '}');
      Join(text, r.index, j, end, after, ['}']);
      Join(text, s, r.index, end, ValueText(v), after + ['}']);
      var key, before, afterColon := KeyScanned(text, i, end, ValueText(v) + (after + ['}']));
      ms := LastMember(key, before, afterColon, v, after);
    } else {
      var k := SkipBlank(text, j + 1);
      var next := SkippedBlank(text, j + 1);
      var rest := MembersScanned(text, b, k, r.nodes, depth);
      Join(text, j + 1, k, end, next, MembersText(rest));
      JoinOne(text, j, end, ',', next + MembersText(rest));
      var close := [','] + (next + MembersText(rest));
      Join(text, r.index, j, end, after, close);
      Join(text, s, r.index, end, ValueText(v), after + close);
      var key, before, afterColon := KeyScanned(text, i, end, ValueText(v) + (after + close));
      ms := MoreMembers(key, before, afterColon, v, after, next, rest);
    }
  }

  // ---- The theorems ----

  // For a text of the grammar, acceptance is the budget test, and the count is the tree's.
  lemma {:induction false} GrammarTextsAreDecidedByTheBudget(d: Document, b: Budget)
    requires ValidDocument(d)
    ensures Agrees(Scan(DocumentText(d), b), Fits(d.root, b, 0, 0), |DocumentText(d)|, Nodes(d.root))
  {
    hide Occurs, ScanValue, Fits, ValidValue, ValueText, Starts, SkipBlank;
    var text := DocumentText(d);
    var i, j := |d.before|, |d.before| + |ValueText(d.root)|;
    ValueStart(d.root);
    AllOf(text);
    BlankThen(text, 0, d.before, ValueText(d.root) + d.after);
    Split(text, i, ValueText(d.root), d.after);
    if d.after != [] { FirstOf(text, j, d.after); }
    ValueOver(text, b, i, d.root, 0, 0);
    SkipBlankOver(text, j, d.after);
  }

  // A text the scan accepts is a text of the grammar.
  lemma {:induction false} AcceptedTextIsInTheGrammar(text: string, b: Budget) returns (d: Document)
    requires Scan(text, b).ok
    ensures ValidDocument(d) && text == DocumentText(d)
  {
    var i := SkipBlank(text, 0);
    var before := SkippedBlank(text, 0);
    var v := ValueScanned(text, b, i, 0, 0);
    var j := ScanValue(text, b, i, 0, 0).index;
    var after := SkippedBlank(text, j);
    d := Document(before, v, after);
    Join(text, i, j, |text|, ValueText(v), after);
    Join(text, 0, i, |text|, before, ValueText(v) + after);
    SpansAll(text, DocumentText(d));
  }

  // At most so many values, levels of nesting and characters of a number.
  predicate WithinBudget(v: Value, b: Budget) {
    Nodes(v) <= b.maxNodes && Height(v) <= b.maxDepth && ShortNumbers(v, 128)
  }

  ghost predicate InBudgetGrammar(text: string, b: Budget) {
    exists d: Document :: ValidDocument(d) && text == DocumentText(d) && WithinBudget(d.root, b)
  }

  // Acceptance is membership in the grammar intersected with the three budgets.
  lemma {:induction false} AcceptsExactly(text: string, b: Budget)
    ensures Scan(text, b).ok <==> InBudgetGrammar(text, b)
  {
    if Scan(text, b).ok {
      var d := AcceptedTextIsInTheGrammar(text, b);
      GrammarTextsAreDecidedByTheBudget(d, b);
    }
    if InBudgetGrammar(text, b) {
      var d: Document :| ValidDocument(d) && text == DocumentText(d) && WithinBudget(d.root, b);
      GrammarTextsAreDecidedByTheBudget(d, b);
    }
  }

  // Two trees of one text agree on every measure the budget uses.
  lemma {:induction false} MeasuresAreOfTheText(d: Document, e: Document)
    requires ValidDocument(d) && ValidDocument(e) && DocumentText(d) == DocumentText(e)
    ensures Nodes(d.root) == Nodes(e.root) || !ShortNumbers(d.root, MAX_JSON_NUMBER_TOKEN_LENGTH)
    ensures ShortNumbers(d.root, MAX_JSON_NUMBER_TOKEN_LENGTH)
      ==> Height(d.root) == Height(e.root) && ShortNumbers(e.root, MAX_JSON_NUMBER_TOKEN_LENGTH)
  {
    var wide := Budget(Height(d.root) + Height(e.root), Nodes(d.root) + Nodes(e.root));
    GrammarTextsAreDecidedByTheBudget(d, wide);
    GrammarTextsAreDecidedByTheBudget(e, wide);
    GrammarTextsAreDecidedByTheBudget(d, wide.(maxDepth := Height(d.root)));
    GrammarTextsAreDecidedByTheBudget(e, wide.(maxDepth := Height(d.root)));
    GrammarTextsAreDecidedByTheBudget(d, wide.(maxDepth := Height(e.root)));
    GrammarTextsAreDecidedByTheBudget(e, wide.(maxDepth := Height(e.root)));
  }

  // ---- The node bound holds on every input, accepted or not ----

  predicate Bounded(r: Outcome, b: Budget, n: nat) {
    && n <= r.nodes && r.nodes <= Max(n, if b.maxNodes < 0 then 1 else b.maxNodes + 1)
    && (r.ok && r.nodes > n ==> r.nodes <= b.maxNodes)
  }

  lemma {:induction false} ValueNodesBounded(text: string, b: Budget, i: nat, n: nat, depth: nat)
    requires i <= |text| && (n <= b.maxNodes || n == 0)
    ensures Bounded(ScanValue(text, b, i, n, depth), b, n)
    decreases |text| - i, 1
  {
    if depth > b.maxDepth || n + 1 > b.maxNodes {
    } else if LooksAt(text, i, '{') {
      MembersNodesBounded(text, b, SkipBlank(text, i + 1), n + 1, depth);
    } else if LooksAt(text, i, '[') {
      ItemsNodesBounded(text, b, SkipBlank(text, i + 1), n + 1, depth);
    }
  }

  lemma {:induction false} ItemsNodesBounded(text: string, b: Budget, i: nat, n: nat, depth: nat)
    requires i <= |text| && n <= b.maxNodes
    ensures Bounded(ScanItems(text, b, i, n, depth), b, n)
    decreases |text| - i, 2
  {
    ValueNodesBounded(text, b, i, n, depth + 1);
    var item := ScanValue(text, b, i, n, depth + 1);
    if item.ok {
      var j := SkipBlank(text, item.index);
      if LooksAt(text, j, ',') { ItemsNodesBounded(text, b, SkipBlank(text, j + 1), item.nodes, depth); }
    }
  }

  lemma {:induction false} MembersNodesBounded(text: string, b: Budget, i: nat, n: nat, depth: nat)
    requires i <= |text| && n <= b.maxNodes
    ensures Bounded(ScanMembers(text, b, i, n, depth), b, n)
    decreases |text| - i, 2
  {
    var key := ScanKey(text, i);
    if key.ok {
      ValueNodesBounded(text, b, key.index, n, depth + 1);
      var value := ScanValue(text, b, key.index, n, depth + 1);
      if value.ok {
        var j := SkipBlank(text, value.index);
        if LooksAt(text, j, ',') {
          MembersNodesBounded(text, b, SkipBlank(text, j + 1), value.nodes, depth);
        }
      }
    }
  }

  lemma {:induction false} OpensAtMostOneValueTooMany(text: string, b: Budget)
    requires b.maxNodes >= 0
    ensures Scan(text, b).nodes <= b.maxNodes + 1
  {
    ValueNodesBounded(text, b, SkipBlank(text, 0), 0, 0);
  }
}
