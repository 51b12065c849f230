/**
 The reader accepts exactly the laid-out scripts, and returns their references in order with their
 flags.  Each of the three stages is inverted in turn, then the stages are put together.
 */
module LinkerExact {
  import opened Wrappers
  import opened Pieces
  import opened LinkerGrammar
  import opened LinkerScript

  // ---- Tokens to script: completeness ----

  // What ends an input group: a closing parenthesis or nothing.
  predicate EndsGroup(tokens: seq<string>, p: nat) { p == |tokens| || LooksAt(tokens, p, ")") }

  lemma {:induction false} NameIsNoMark(name: string)
    requires ValidName(name)
    ensures name != ")" && name != "(" && !IsReserved(name)
  {
    assert name == ")" || name == "(" ==> !IsWordChar(name[0]);
  }

  lemma {:induction false} NamesOver(tokens: seq<string>, p: nat, names: seq<string>)
    requires Occurs(tokens, p, names) && EndsGroup(tokens, p + |names|)
    requires forall i :: 0 <= i < |names| ==> ValidName(names[i])
    ensures ItemsFrom(tokens, p, true) == Some(Parsed(Marked(names), p + |names|))
    decreases |names|
  {
    hide Occurs, ValidName;
    if names != [] {
      FirstOf(tokens, p, names);
      NameIsNoMark(names[0]);
      NamesOver(tokens, p + 1, names[1..]);
      assert ValidReference(names[0]) by { ReferenceOfName(names[0]); }
    }
  }

  lemma {:induction false} ReferenceOfName(name: string)
    requires ValidName(name)
    ensures ValidReference(name)
  {
  }

  lemma {:induction false} GroupEnd(tokens: seq<string>, p: nat, asNeeded: bool)
    requires EndsGroup(tokens, p)
    ensures ItemsFrom(tokens, p, asNeeded) == Some(Parsed([], p))
  {
  }

  lemma {:induction false} AsNeededOver(tokens: seq<string>, p: nat, names: seq<string>)
    requires ValidItem(AsNeeded(names)) && Occurs(tokens, p, ItemTokens(AsNeeded(names)))
    ensures ItemsFrom(tokens, p, false)
      == After(Marked(names), ItemsFrom(tokens, p + |ItemTokens(AsNeeded(names))|, false))
  {
    hide Occurs, ValidName, After;
    First(tokens, p, "AS_NEEDED", ["("] + (names + [")"]));
    First(tokens, p + 1, "(", names + [")"]);
    Split(tokens, p + 2, names, [")"]);
    Single(tokens, p + 2 + |names|, ")");
    NamesOver(tokens, p + 2, names);
  }

  lemma {:induction false} ItemOver(tokens: seq<string>, p: nat, item: Item)
    requires ValidItem(item) && Occurs(tokens, p, ItemTokens(item))
    ensures ItemsFrom(tokens, p, false) == After(FlattenItem(item), ItemsFrom(tokens, p + |ItemTokens(item)|, false))
  {
    hide Occurs, ValidName, ValidReference, After;
    match item {
      case Reference(name) =>
        Single(tokens, p, name);
        NameIsNoMark(name);
        ReferenceOfName(name);
      case AsNeeded(names) =>
        AsNeededOver(tokens, p, names);
    }
  }

  lemma {:induction false} ItemsOver(tokens: seq<string>, p: nat, items: seq<Item>)
    requires ValidItems(items)
    requires Occurs(tokens, p, ItemsTokens(items)) && EndsGroup(tokens, p + |ItemsTokens(items)|)
    ensures ItemsFrom(tokens, p, false) == Some(Parsed(FlattenItems(items), p + |ItemsTokens(items)|))
    decreases |items|
  {
    hide Occurs, ValidItem, EndsGroup, ItemsFrom, ItemTokens, FlattenItem;
    if items == [] {
      GroupEnd(tokens, p, false);
    } else {
      Split(tokens, p, ItemTokens(items[0]), ItemsTokens(items[1..]));
      ItemOver(tokens, p, items[0]);
      ItemsOver(tokens, p + |ItemTokens(items[0])|, items[1..]);
    }
  }

  lemma {:induction false} FlattenNonempty(items: seq<Item>)
    requires items != [] && ValidItems(items)
    ensures FlattenItems(items) != []
  {
    assert ValidItem(items[0]);
  }

  lemma {:induction false} FormatOver(tokens: seq<string>, p: nat, inputs: nat)
    requires Occurs(tokens, p, DirectiveTokens(OutputFormat))
    ensures |DirectiveTokens(OutputFormat)| == 4
    ensures DirectivesFrom(tokens, p, inputs, false) == DirectivesFrom(tokens, p + 4, inputs, true)
  {
    hide Occurs, GroupFrom;
    First(tokens, p, "OUTPUT_FORMAT", ["("] + (["elf64-littleaarch64"] + [")"]));
    First(tokens, p + 1, "(", ["elf64-littleaarch64"] + [")"]);
    First(tokens, p + 2, "elf64-littleaarch64", [")"]);
    Single(tokens, p + 3, ")");
  }

  lemma {:induction false} GroupOver(tokens: seq<string>, p: nat, items: seq<Item>)
    requires items != [] && ValidItems(items) && Occurs(tokens, p, ["("] + (ItemsTokens(items) + [")"]))
    ensures GroupFrom(tokens, p) == Some(Parsed(FlattenItems(items), p + |ItemsTokens(items)| + 2))
  {
    hide Occurs, ItemsFrom, ValidItems, ItemsTokens, FlattenItems;
    First(tokens, p, "(", ItemsTokens(items) + [")"]);
    Split(tokens, p + 1, ItemsTokens(items), [")"]);
    Single(tokens, p + 1 + |ItemsTokens(items)|, ")");
    ItemsOver(tokens, p + 1, items);
    FlattenNonempty(items);
  }

  lemma {:induction false} InputsOver(tokens: seq<string>, p: nat, keyword: string, items: seq<Item>, formatSeen: bool)
    requires ValidDirective(Inputs(keyword, items)) && Occurs(tokens, p, DirectiveTokens(Inputs(keyword, items)))
    ensures DirectivesFrom(tokens, p, 0, formatSeen) == FoundThen(FlattenItems(items),
      DirectivesFrom(tokens, p + |DirectiveTokens(Inputs(keyword, items))|, 1, formatSeen))
  {
    hide Occurs, FoundThen, GroupFrom, ValidItems, ItemsTokens, FlattenItems;
    First(tokens, p, keyword, ["("] + (ItemsTokens(items) + [")"]));
    GroupOver(tokens, p + 1, items);
  }

  lemma {:induction false} ScriptOver(tokens: seq<string>, p: nat, ds: seq<Directive>, inputs: nat, formatSeen: bool)
    requires ValidDirectives(ds) && Spans(tokens, p, |tokens|, ScriptTokens(ds))
    requires inputs + CountInputs(ds) == 1
    requires (if formatSeen then 1 else 0) + CountFormats(ds) <= 1
    ensures DirectivesFrom(tokens, p, inputs, formatSeen) == Some(Flatten(ds))
    decreases |ds|
  {
    hide Occurs, ValidDirective, DirectivesFrom, DirectiveTokens, FlattenItems;
    assert Occurs(tokens, p, ScriptTokens(ds));
    if ds == [] {
      ScriptEnd(tokens, formatSeen);
    } else {
      var d, tail := ds[0], ds[1..];
      Split(tokens, p, DirectiveTokens(d), ScriptTokens(tail));
      var q := p + |DirectiveTokens(d)|;
      if d.OutputFormat? {
        FormatOver(tokens, p, inputs);
        ScriptOver(tokens, q, tail, inputs, true);
        assert Flatten(ds) == [] + Flatten(tail) == Flatten(tail);
      } else {
        InputsOver(tokens, p, d.keyword, d.items, formatSeen);
        ScriptOver(tokens, q, tail, inputs + 1, formatSeen);
      }
    }
  }

  lemma {:induction false} ScriptEnd(tokens: seq<string>, formatSeen: bool)
    ensures DirectivesFrom(tokens, |tokens|, 1, formatSeen) == Some([])
  {
  }

  // ---- Tokens to script: soundness ----

  predicate AllWords(tokens: seq<string>) {
    forall i :: 0 <= i < |tokens| ==> IsParenToken(tokens[i]) || IsWord(tokens[i])
  }

  lemma {:induction false} NamesParsed(tokens: seq<string>, p: nat) returns (names: seq<string>)
    requires AllWords(tokens) && p <= |tokens| && ItemsFrom(tokens, p, true).Some?
    ensures Spans(tokens, p, ItemsFrom(tokens, p, true).value.position, names)
    ensures forall i :: 0 <= i < |names| ==> ValidName(names[i])
    ensures ItemsFrom(tokens, p, true).value.refs == Marked(names)
    decreases |tokens| - p
  {
    hide Occurs, ValidReference;
    names := [];
    if p < |tokens| && tokens[p] != ")" {
      var rest := NamesParsed(tokens, p + 1);
      names := [tokens[p]] + rest;
      assert names[1..] == rest;
      JoinOne(tokens, p, ItemsFrom(tokens, p, true).value.position, tokens[p], rest);
    } else {
      assert Spans(tokens, p, p, []) by { Nothing(tokens, p); }
    }
  }

  lemma {:induction false} Nothing<T>(text: seq<T>, p: nat)
    requires p <= |text|
    ensures Spans(text, p, p, [])
  {
  }

  lemma {:induction false} ItemsParsed(tokens: seq<string>, p: nat) returns (items: seq<Item>)
    requires AllWords(tokens) && p <= |tokens| && ItemsFrom(tokens, p, false).Some?
    ensures ValidItems(items)
    ensures Spans(tokens, p, ItemsFrom(tokens, p, false).value.position, ItemsTokens(items))
    ensures ItemsFrom(tokens, p, false).value.refs == FlattenItems(items)
    decreases |tokens| - p
  {
    hide Occurs, Spans, ValidReference, ItemTokens, ValidItem;
    var end := ItemsFrom(tokens, p, false).value.position;
    if p == |tokens| || tokens[p] == ")" {
      Nothing(tokens, p);
      return [];
    }
    var item, q;
    if tokens[p] == "AS_NEEDED" {
      item, q := AsNeededParsed(tokens, p);
    } else {
      item, q := Reference(tokens[p]), p + 1;
      ReferenceParsed(tokens, p);
    }
    var rest := ItemsParsed(tokens, q);
    items := [item] + rest;
    assert items[1..] == rest;
    Join(tokens, p, q, end, ItemTokens(item), ItemsTokens(rest));
  }

  lemma {:induction false} ReferenceParsed(tokens: seq<string>, p: nat)
    requires AllWords(tokens) && p < |tokens| && !IsReserved(tokens[p]) && !IsParenToken(tokens[p])
    requires ValidReference(tokens[p])
    ensures ValidItem(Reference(tokens[p])) && Spans(tokens, p, p + 1, ItemTokens(Reference(tokens[p])))
  {
    One(tokens, p, tokens[p]);
  }

  lemma {:induction false} AsNeededParsed(tokens: seq<string>, p: nat) returns (item: Item, q: nat)
    requires AllWords(tokens) && p < |tokens| && tokens[p] == "AS_NEEDED" && ItemsFrom(tokens, p, false).Some?
    ensures p < q <= |tokens| && item.AsNeeded? && ValidItem(item) && Spans(tokens, p, q, ItemTokens(item))
    ensures ItemsFrom(tokens, p, false) == After(FlattenItem(item), ItemsFrom(tokens, q, false))
  {
    hide Occurs, Spans, ValidReference, After, AllWords;
    var names := NamesParsed(tokens, p + 2);
    var close := ItemsFrom(tokens, p + 2, true).value.position;
    item, q := AsNeeded(names), close + 1;
    One(tokens, close, ")");
    Join(tokens, p + 2, close, q, names, [")"]);
    JoinOne(tokens, p + 1, q, "(", names + [")"]);
    JoinOne(tokens, p, q, "AS_NEEDED", ["("] + (names + [")"]));
  }

  lemma {:induction false} ScriptParsed(tokens: seq<string>, p: nat, inputs: nat, formatSeen: bool)
    returns (ds: seq<Directive>)
    requires AllWords(tokens) && p <= |tokens| && inputs <= 1
    requires DirectivesFrom(tokens, p, inputs, formatSeen).Some?
    ensures ValidDirectives(ds) && inputs + CountInputs(ds) == 1
    ensures (if formatSeen then 1 else 0) + CountFormats(ds) <= 1
    ensures Spans(tokens, p, |tokens|, ScriptTokens(ds))
    ensures DirectivesFrom(tokens, p, inputs, formatSeen).value == Flatten(ds)
    decreases |tokens| - p
  {
    hide Occurs, Spans, ItemsFrom, ValidDirective, GroupFrom, DirectiveTokens, FlattenItems;
    if p == |tokens| {
      Nothing(tokens, p);
      return [];
    }
    var d, q, rest;
    if tokens[p] == "OUTPUT_FORMAT" {
      d, q := OutputFormat, p + 4;
      FormatParsed(tokens, p);
      rest := ScriptParsed(tokens, q, inputs, true);
      assert Flatten([d] + rest) == [] + Flatten(rest) by { assert ([d] + rest)[1..] == rest; }
    } else {
      d := InputsParsed(tokens, p);
      q := GroupFrom(tokens, p + 1).value.position;
      rest := ScriptParsed(tokens, q, inputs + 1, formatSeen);
    }
    ds := [d] + rest;
    assert ds[1..] == rest;
    Join(tokens, p, q, |tokens|, DirectiveTokens(d), ScriptTokens(rest));
  }

  lemma {:induction false} FormatParsed(tokens: seq<string>, p: nat)
    requires LooksAt(tokens, p, "OUTPUT_FORMAT") && LooksAt(tokens, p + 1, "(")
    requires LooksAt(tokens, p + 2, "elf64-littleaarch64") && LooksAt(tokens, p + 3, ")")
    ensures ValidDirective(OutputFormat) && Spans(tokens, p, p + 4, DirectiveTokens(OutputFormat))
  {
    hide Occurs, Spans;
    One(tokens, p + 3, ")");
    JoinOne(tokens, p + 2, p + 4, "elf64-littleaarch64", [")"]);
    JoinOne(tokens, p + 1, p + 4, "(", ["elf64-littleaarch64"] + [")"]);
    JoinOne(tokens, p, p + 4, "OUTPUT_FORMAT", ["("] + (["elf64-littleaarch64"] + [")"]));
  }

  lemma {:induction false} InputsParsed(tokens: seq<string>, p: nat) returns (d: Directive)
    requires AllWords(tokens) && p < |tokens| && (tokens[p] == "GROUP" || tokens[p] == "INPUT")
    requires GroupFrom(tokens, p + 1).Some?
    ensures d.Inputs? && ValidDirective(d) && GroupFrom(tokens, p + 1).value.refs == FlattenItems(d.items)
    ensures Spans(tokens, p, GroupFrom(tokens, p + 1).value.position, DirectiveTokens(d))
  {
    hide Occurs, Spans, ItemsFrom, ValidItems, AllWords;
    var items := ItemsParsed(tokens, p + 2);
    var close := ItemsFrom(tokens, p + 2, false).value.position;
    var q := close + 1;
    d := Inputs(tokens[p], items);
    One(tokens, close, ")");
    Join(tokens, p + 2, close, q, ItemsTokens(items), [")"]);
    JoinOne(tokens, p + 1, q, "(", ItemsTokens(items) + [")"]);
    JoinOne(tokens, p, q, tokens[p], ["("] + (ItemsTokens(items) + [")"]));
  }

  // The parser accepts a token sequence exactly when it is a valid script's, and flattens that script.
  lemma {:induction false} ParserIsExact(tokens: seq<string>, refs: seq<Linked>)
    requires AllWords(tokens)
    ensures DirectivesFrom(tokens, 0, 0, false) == Some(refs)
      <==> exists ds :: ValidScript(ds) && ScriptTokens(ds) == tokens && Flatten(ds) == refs
  {
    if DirectivesFrom(tokens, 0, 0, false) == Some(refs) {
      var ds := ScriptParsed(tokens, 0, 0, false);
      SpansAll(tokens, ScriptTokens(ds));
      assert ValidScript(ds);
    }
    if exists ds :: ValidScript(ds) && ScriptTokens(ds) == tokens && Flatten(ds) == refs {
      var ds :| ValidScript(ds) && ScriptTokens(ds) == tokens && Flatten(ds) == refs;
      AllOf(tokens);
      ScriptOver(tokens, 0, ds, 0, false);
    }
  }

  // ---- Text to tokens: a layout without comments ----

  predicate NoComments(atoms: seq<Atom>) { forall i :: 0 <= i < |atoms| ==> !atoms[i].Comment? }

  lemma {:induction false} TailLayout(atoms: seq<Atom>)
    requires ValidLayout(atoms) && atoms != []
    ensures ValidLayout(atoms[1..]) && ValidAtom(atoms[0])
    ensures |atoms| > 1 && IsWordAtom(atoms[0]) ==> !IsWordAtom(atoms[1])
  {
    forall i | 0 < i < |atoms[1..]| ensures !(IsWordAtom(atoms[1..][i - 1]) && IsWordAtom(atoms[1..][i])) {
      assert !(IsWordAtom(atoms[i]) && IsWordAtom(atoms[i + 1]));
    }
    assert |atoms| > 1 ==> !(IsWordAtom(atoms[1 - 1]) && IsWordAtom(atoms[1]));
  }

  // The first character of a layout says what its first atom is.
  predicate LayoutStart(a: Atom, c: char) {
    match a
    case Blank(_) => IsSpace(c)
    case Comment(_) => c == '/'
    case Token(t) => if IsParenToken(t) then IsParen(c) && t == [c] else IsWordChar(c)
  }

  lemma {:induction false} StartOfLayout(atoms: seq<Atom>)
    requires atoms != [] && ValidAtom(atoms[0])
    ensures LayoutText(atoms) != [] && LayoutStart(atoms[0], LayoutText(atoms)[0])
    ensures LayoutText(atoms)[0] != '*'
  {
    assert LayoutText(atoms)[0] == AtomText(atoms[0])[0];
  }

  lemma {:induction false} WordOver(text: string, i: nat, word: string)
    requires Occurs(text, i, word) && forall k :: 0 <= k < |word| ==> IsWordChar(word[k])
    requires i + |word| < |text| ==> EndsToken(text[i + |word|])
    ensures TokenEnd(text, i) == i + |word|
    decreases |word|
  {
    if word != [] {
      FirstOf(text, i, word);
      WordOver(text, i + 1, word[1..]);
    }
  }

  lemma {:induction false} TokenizeOver(text: string, i: nat, atoms: seq<Atom>)
    requires ValidLayout(atoms) && NoComments(atoms) && Spans(text, i, |text|, LayoutText(atoms))
    ensures Tokenize(text, i) == Some(LayoutTokens(atoms))
    decreases |atoms|
  {
    hide Occurs, TokenEnd;
    assert Occurs(text, i, LayoutText(atoms));
    if atoms != [] {
      TailLayout(atoms);
      var a, rest := atoms[0], LayoutText(atoms[1..]);
      Split(text, i, AtomText(a), rest);
      var j := i + |AtomText(a)|;
      TokenizeOver(text, j, atoms[1..]);
      StartOfLayout(atoms);
      FirstOf(text, i, LayoutText(atoms));
      if IsWordAtom(a) {
        if |atoms| > 1 {
          StartOfLayout(atoms[1..]);
          FirstOf(text, j, rest);
          assert !IsWordAtom(atoms[1]) && !atoms[1].Comment?;
        }
        WordTokenOver(text, i, a.text);
      } else if a.Blank? {
        assert LayoutTokens(atoms) == [] + LayoutTokens(atoms[1..]) == LayoutTokens(atoms[1..]);
      }
    }
  }

  lemma {:induction false} WordTokenOver(text: string, i: nat, word: string)
    requires IsWord(word) && Occurs(text, i, word)
    requires i + |word| < |text| ==> EndsToken(text[i + |word|])
    ensures Tokenize(text, i) == Prefixed([word], Tokenize(text, i + |word|))
  {
    hide Occurs;
    FirstOf(text, i, word);
    WordOver(text, i + 1, word[1..]);
    SliceIs(text, i, word);
  }

  lemma {:induction false} SliceIs(text: string, i: nat, s: string)
    requires Occurs(text, i, s)
    ensures text[i..i + |s|] == s
  {
  }

  lemma {:induction false} Tokenized(text: string, i: nat) returns (atoms: seq<Atom>)
    requires i <= |text| && Tokenize(text, i).Some?
    ensures ValidLayout(atoms) && NoComments(atoms)
    ensures Spans(text, i, |text|, LayoutText(atoms)) && LayoutTokens(atoms) == Tokenize(text, i).value
    ensures i < |text| && EndsToken(text[i]) && atoms != [] ==> !IsWordAtom(atoms[0])
    decreases |text| - i
  {
    hide Occurs, Spans;
    if i == |text| {
      Nothing(text, i);
      return [];
    }
    var a, j;
    if IsSpace(text[i]) {
      a, j := Blank(text[i]), i + 1;
      One(text, i, text[i]);
    } else if IsParen(text[i]) {
      a, j := Token([text[i]]), i + 1;
      One(text, i, text[i]);
    } else {
      j := TokenEnd(text, i + 1);
      a := Token(text[i..j]);
      SliceSpans(text, i, j);
    }
    var rest := Tokenized(text, j);
    atoms := [a] + rest;
    assert atoms[1..] == rest;
    Join(text, i, j, |text|, AtomText(a), LayoutText(rest));
    if rest != [] && IsWordAtom(a) {
      if j == |text| { EmptySpan(text, LayoutText(rest)); StartOfLayout(rest); }
      assert !IsWordAtom(rest[0]);
    }
    forall k | 0 < k < |atoms| ensures !(IsWordAtom(atoms[k - 1]) && IsWordAtom(atoms[k])) {
      if k > 1 { assert !(IsWordAtom(rest[k - 1 - 1]) && IsWordAtom(rest[k - 1])); }
    }
  }

  lemma {:induction false} SliceSpans(text: string, i: nat, j: nat)
    requires i <= j <= |text|
    ensures Spans(text, i, j, text[i..j])
  {
  }

  lemma {:induction false} EmptySpan(text: string, s: string)
    requires Spans(text, |text|, |text|, s)
    ensures s == []
  {
  }

  // ---- Comments away: forward ----

  function Bare(atoms: seq<Atom>): (r: seq<Atom>)
    ensures |r| == |atoms|
    ensures forall i :: 0 <= i < |r| ==> r[i] == if atoms[i].Comment? then Blank(' ') else atoms[i]
  {
    if atoms == [] then []
    else [if atoms[0].Comment? then Blank(' ') else atoms[0]] + Bare(atoms[1..])
  }

  lemma {:induction false} BareIsValid(atoms: seq<Atom>)
    requires ValidLayout(atoms)
    ensures ValidLayout(Bare(atoms)) && NoComments(Bare(atoms))
  {
    forall i | 0 < i < |atoms| ensures !(IsWordAtom(Bare(atoms)[i - 1]) && IsWordAtom(Bare(atoms)[i])) {
      assert !(IsWordAtom(atoms[i - 1]) && IsWordAtom(atoms[i]));
    }
  }

  lemma {:induction false} BareTokens(atoms: seq<Atom>)
    ensures LayoutTokens(Bare(atoms)) == LayoutTokens(atoms)
  {
    if atoms != [] {
      BareTokens(atoms[1..]);
      assert Bare(atoms)[1..] == Bare(atoms[1..]);
    }
  }

  // No comment mark starts inside `s`.
  predicate Plain(text: string, i: nat, n: nat) {
    forall k :: i <= k < i + n ==> !PairAt(text, k, '/', '*') && !PairAt(text, k, '*', '/')
  }

  lemma {:induction false} PlainOver(text: string, i: nat, s: string)
    requires Occurs(text, i, s) && Plain(text, i, |s|)
    ensures Strip(text, i) == Before(s, Strip(text, i + |s|))
    decreases |s|
  {
    if s == [] {
      BeforeNothing(Strip(text, i));
    } else {
      FirstOf(text, i, s);
      PlainOver(text, i + 1, s[1..]);
      assert !PairAt(text, i, '/', '*');
      BeforeBefore([s[0]], s[1..], Strip(text, i + |s|));
      assert [s[0]] + s[1..] == s;
    }
  }

  lemma {:induction false} FindsFirst(text: string, i: nat, end: nat, a: char, b: char)
    requires i <= end && PairAt(text, end, a, b)
    requires forall k :: i <= k < end ==> !PairAt(text, k, a, b)
    ensures FindPair(text, i, a, b) == Some(end)
    decreases end - i
  {
    if i < end { FindsFirst(text, i + 1, end, a, b); }
  }

  lemma {:induction false} CommentOver(text: string, i: nat, body: string)
    requires ValidComment(body) && Occurs(text, i, AtomText(Comment(body)))
    ensures Strip(text, i) == Before(" ", Strip(text, i + |body| + 4))
  {
    var end := i + 2 + |body|;
    First(text, i, '/', ['*'] + (body + (['*'] + ['/'])));
    First(text, i + 1, '*', body + (['*'] + ['/']));
    Split(text, i + 2, body, ['*'] + ['/']);
    First(text, end, '*', ['/']);
    Single(text, end + 1, '/');
    forall k | i + 2 <= k < end
      ensures !PairAt(text, k, '*', '/') && (k + 1 < end ==> !PairAt(text, k, '/', '*'))
    {
      assert text[i + 2 + (k - i - 2)] == body[k - i - 2];
      assert !PairAt(body, k - i - 2, '*', '/') && !PairAt(body, k - i - 2, '/', '*');
      if k + 1 < end { assert text[i + 2 + (k + 1 - i - 2)] == body[k + 1 - i - 2]; }
    }
    FindsFirst(text, i + 2, end, '*', '/');
  }

  lemma {:induction false} StripOver(text: string, i: nat, atoms: seq<Atom>)
    requires ValidLayout(atoms) && Spans(text, i, |text|, LayoutText(atoms))
    ensures Strip(text, i) == Some(LayoutText(Bare(atoms)))
    decreases |atoms|
  {
    hide Occurs, Strip, ValidComment;
    assert Occurs(text, i, LayoutText(atoms));
    if atoms == [] {
      StripEnd(text);
    } else {
      TailLayout(atoms);
      var a, rest := atoms[0], LayoutText(atoms[1..]);
      Split(text, i, AtomText(a), rest);
      var j := i + |AtomText(a)|;
      StripOver(text, j, atoms[1..]);
      assert Bare(atoms)[1..] == Bare(atoms[1..]);
      if a.Comment? {
        CommentOver(text, i, a.body);
      } else {
        if |atoms| > 1 {
          TailLayout(atoms[1..]);
          StartOfLayout(atoms[1..]);
          FirstOf(text, j, rest);
        }
        AtomIsPlain(text, i, a);
        PlainOver(text, i, AtomText(a));
      }
    }
  }

  lemma {:induction false} StripEnd(text: string)
    ensures Strip(text, |text|) == Some([])
  {
  }

  lemma {:induction false} AtomIsPlain(text: string, i: nat, a: Atom)
    requires ValidAtom(a) && !a.Comment? && Occurs(text, i, AtomText(a))
    requires i + |AtomText(a)| < |text| ==> text[i + |AtomText(a)|] != '*'
    ensures Plain(text, i, |AtomText(a)|)
  {
    var s := AtomText(a);
    forall k | i <= k < i + |s| ensures !PairAt(text, k, '/', '*') && !PairAt(text, k, '*', '/') {
      assert text[i + (k - i)] == s[k - i];
      if k + 1 < i + |s| { assert text[i + (k + 1 - i)] == s[k + 1 - i]; }
    }
  }

  // ---- Comments away: backward ----

  datatype Piece = Kept(c: char) | Dropped(body: string)

  function PiecesText(ps: seq<Piece>): string {
    if ps == [] then []
    else (if ps[0].Kept? then [ps[0].c] else AtomText(Comment(ps[0].body))) + PiecesText(ps[1..])
  }

  function PiecesLeft(ps: seq<Piece>): (r: string)
    ensures |r| == |ps|
    ensures forall i :: 0 <= i < |r| ==> r[i] == if ps[i].Kept? then ps[i].c else ' '
  {
    if ps == [] then [] else [if ps[0].Kept? then ps[0].c else ' '] + PiecesLeft(ps[1..])
  }

  predicate ValidPieces(ps: seq<Piece>) {
    forall i :: 0 <= i < |ps| ==> ps[i].Dropped? ==> ValidComment(ps[i].body)
  }

  lemma {:induction false} FindIsFirst(text: string, i: nat, a: char, b: char)
    requires i <= |text| && FindPair(text, i, a, b).Some?
    ensures forall k :: i <= k < FindPair(text, i, a, b).value ==> !PairAt(text, k, a, b)
    decreases |text| - i
  {
    if !PairAt(text, i, a, b) { FindIsFirst(text, i + 1, a, b); }
  }

  lemma {:induction false} CommentStripped(text: string, i: nat) returns (body: string)
    requires IsAscii(text) && PairAt(text, i, '/', '*') && Strip(text, i).Some?
    ensures ValidComment(body)
    ensures FindPair(text, i + 2, '*', '/') == Some(i + 2 + |body|)
    ensures Spans(text, i, i + |body| + 4, AtomText(Comment(body)))
  {
    var end := FindPair(text, i + 2, '*', '/').value;
    FindIsFirst(text, i + 2, '*', '/');
    body := text[i + 2..end];
    forall k | 0 <= k < |body| ensures !PairAt(body, k, '*', '/') && !PairAt(body, k, '/', '*') {
      assert !PairAt(text, i + 2 + k, '*', '/');
      assert i + 2 + k < end - 1 ==> !PairAt(text, i + 2 + k, '/', '*');
    }
    SliceSpans(text, i + 2, end);
    One(text, end + 1, '/');
    JoinOne(text, end, end + 2, '*', ['/']);
    Join(text, i + 2, end, end + 2, body, ['*'] + ['/']);
    JoinOne(text, i + 1, end + 2, '*', body + (['*'] + ['/']));
    JoinOne(text, i, end + 2, '/', ['*'] + (body + (['*'] + ['/'])));
  }

  lemma {:induction false} Stripped(text: string, i: nat) returns (ps: seq<Piece>)
    requires IsAscii(text) && i <= |text| && Strip(text, i).Some?
    ensures ValidPieces(ps) && Spans(text, i, |text|, PiecesText(ps)) && PiecesLeft(ps) == Strip(text, i).value
    decreases |text| - i
  {
    hide Occurs, Spans, ValidComment, AtomText, IsAscii;
    if i == |text| {
      Nothing(text, i);
      return [];
    }
    if PairAt(text, i, '/', '*') {
      var body := CommentStripped(text, i);
      var j := i + |body| + 4;
      var rest := Stripped(text, j);
      ps := [Dropped(body)] + rest;
      assert ps[1..] == rest;
      Join(text, i, j, |text|, AtomText(Comment(body)), PiecesText(rest));
    } else {
      var rest := Stripped(text, i + 1);
      ps := [Kept(text[i])] + rest;
      assert ps[1..] == rest;
      JoinOne(text, i, |text|, text[i], PiecesText(rest));
    }
  }

  lemma {:induction false} LeftDrop(ps: seq<Piece>, n: nat)
    requires n <= |ps|
    ensures PiecesLeft(ps[n..]) == PiecesLeft(ps)[n..]
  {
  }

  lemma {:induction false} KeptRun(ps: seq<Piece>, t: string)
    requires |t| <= |ps| && forall i :: 0 <= i < |t| ==> ps[i] == Kept(t[i])
    ensures PiecesText(ps) == t + PiecesText(ps[|t|..])
    decreases |t|
  {
    hide AtomText;
    if t == [] {
      assert ps[0..] == ps;
    } else {
      KeptRun(ps[1..], t[1..]);
      assert ps[1..][|t| - 1..] == ps[|t|..];
      assert [t[0]] + (t[1..] + PiecesText(ps[|t|..])) == t + PiecesText(ps[|t|..]);
    }
  }

  // The pieces behind one atom of the stripped text, as an atom of the text.
  lemma {:induction false} LiftAtom(a: Atom, ps: seq<Piece>) returns (lifted: Atom)
    requires ValidAtom(a) && !a.Comment? && ValidPieces(ps) && |AtomText(a)| <= |ps|
    requires PiecesLeft(ps)[..|AtomText(a)|] == AtomText(a)
    ensures ValidAtom(lifted) && (a.Token? ==> lifted == a) && (a.Blank? ==> !lifted.Token?)
    ensures PiecesText(ps) == AtomText(lifted) + PiecesText(ps[|AtomText(a)|..])
  {
    hide ValidComment;
    lifted := a;
    if a.Token? {
      forall i | 0 <= i < |a.text| ensures ps[i] == Kept(a.text[i]) {
        assert PiecesLeft(ps)[..|a.text|][i] == a.text[i] != ' ';
      }
      KeptRun(ps, a.text);
    } else {
      assert PiecesLeft(ps)[0] == a.c;
      if ps[0].Dropped? { lifted := Comment(ps[0].body); }
    }
  }

  lemma {:induction false} Lift(bare: seq<Atom>, ps: seq<Piece>) returns (atoms: seq<Atom>)
    requires ValidLayout(bare) && NoComments(bare) && ValidPieces(ps)
    requires LayoutText(bare) == PiecesLeft(ps)
    ensures ValidLayout(atoms) && LayoutText(atoms) == PiecesText(ps)
    ensures LayoutTokens(atoms) == LayoutTokens(bare)
    ensures |atoms| == |bare| && forall i :: 0 <= i < |atoms| ==> IsWordAtom(atoms[i]) == IsWordAtom(bare[i])
    decreases |bare|
  {
    hide ValidComment, AtomText, ValidAtom;
    if bare == [] {
      assert PiecesLeft(ps) == [];
      return [];
    }
    TailLayout(bare);
    var a, n := bare[0], |AtomText(bare[0])|;
    assert LayoutText(bare)[..n] == AtomText(a);
    assert LayoutText(bare)[n..] == LayoutText(bare[1..]);
    var lifted := LiftAtom(a, ps);
    LeftDrop(ps, n);
    var rest := Lift(bare[1..], ps[n..]);
    atoms := [lifted] + rest;
    Prepended(lifted, rest, bare);
  }

  lemma {:induction false} Prepended(a: Atom, rest: seq<Atom>, bare: seq<Atom>)
    requires bare != [] && ValidLayout(bare) && ValidAtom(a) && ValidLayout(rest) && |rest| == |bare| - 1
    requires IsWordAtom(a) == IsWordAtom(bare[0])
    requires forall i :: 0 <= i < |rest| ==> IsWordAtom(rest[i]) == IsWordAtom(bare[1..][i])
    ensures ValidLayout([a] + rest) && ([a] + rest)[1..] == rest
    ensures forall i :: 0 <= i < |bare| ==> IsWordAtom(([a] + rest)[i]) == IsWordAtom(bare[i])
  {
    var atoms := [a] + rest;
    forall i | 0 <= i < |bare| ensures IsWordAtom(atoms[i]) == IsWordAtom(bare[i]) {
      if i > 0 { assert IsWordAtom(rest[i - 1]) == IsWordAtom(bare[1..][i - 1]); }
    }
    forall k | 0 < k < |atoms| ensures !(IsWordAtom(atoms[k - 1]) && IsWordAtom(atoms[k])) {
      assert !(IsWordAtom(bare[k - 1]) && IsWordAtom(bare[k]));
    }
  }

  // ---- The theorem ----

  lemma {:induction false} LayoutIsAscii(atoms: seq<Atom>)
    requires forall i :: 0 <= i < |atoms| ==> ValidAtom(atoms[i])
    ensures IsAscii(LayoutText(atoms))
  {
    if atoms != [] {
      assert ValidAtom(atoms[0]);
      LayoutIsAscii(atoms[1..]);
    }
  }

  lemma {:induction false} LayoutTokensAreWords(atoms: seq<Atom>)
    requires forall i :: 0 <= i < |atoms| ==> ValidAtom(atoms[i])
    ensures AllWords(LayoutTokens(atoms))
  {
    if atoms != [] {
      assert ValidAtom(atoms[0]);
      LayoutTokensAreWords(atoms[1..]);
    }
  }

  // `data` is some layout of a valid script whose flattened references are `refs`.
  ghost predicate LaysOut(data: string, atoms: seq<Atom>, ds: seq<Directive>, refs: seq<Linked>) {
    && ValidLayout(atoms) && data == LayoutText(atoms)
    && ValidScript(ds) && LayoutTokens(atoms) == ScriptTokens(ds) && Flatten(ds) == refs
  }

  // Printing then reading: any layout of a script reads back as its flattened references.
  lemma {:induction false} ReadsWhatIsLaidOut(data: string, atoms: seq<Atom>, ds: seq<Directive>, refs: seq<Linked>)
    requires LaysOut(data, atoms, ds, refs) && 0 < |data| <= MAX_SCRIPT_BYTES
    ensures Read(data) == Some(refs)
  {
    hide Strip, Tokenize, DirectivesFrom, IsAscii;
    LayoutIsAscii(atoms);
    AllOf(data);
    StripOver(data, 0, atoms);
    BareIsValid(atoms);
    BareTokens(atoms);
    AllOf(LayoutText(Bare(atoms)));
    TokenizeOver(LayoutText(Bare(atoms)), 0, Bare(atoms));
    LayoutTokensAreWords(atoms);
    ParserIsExact(LayoutTokens(atoms), refs);
  }

  // Reading then printing: whatever is accepted is a layout of a valid script.
  lemma {:induction false} WhatIsReadIsLaidOut(data: string) returns (atoms: seq<Atom>, ds: seq<Directive>)
    requires Read(data).Some?
    ensures LaysOut(data, atoms, ds, Read(data).value)
  {
    hide Strip, Tokenize, DirectivesFrom, IsAscii;
    var ps := Stripped(data, 0);
    SpansAll(data, PiecesText(ps));
    var left := PiecesLeft(ps);
    var bare := Tokenized(left, 0);
    SpansAll(left, LayoutText(bare));
    atoms := Lift(bare, ps);
    LayoutTokensAreWords(atoms);
    ParserIsExact(LayoutTokens(atoms), Read(data).value);
    ds :| ValidScript(ds) && ScriptTokens(ds) == LayoutTokens(atoms) && Flatten(ds) == Read(data).value;
  }

  lemma {:induction false} ReadsExactly(data: string, refs: seq<Linked>)
    ensures Read(data) == Some(refs)
      <==> 0 < |data| <= 4096 && exists atoms, ds :: LaysOut(data, atoms, ds, refs)
  {
    if Read(data) == Some(refs) {
      var atoms, ds := WhatIsReadIsLaidOut(data);
    }
    if 0 < |data| <= 4096 && exists atoms, ds :: LaysOut(data, atoms, ds, refs) {
      var atoms, ds :| LaysOut(data, atoms, ds, refs);
      ReadsWhatIsLaidOut(data, atoms, ds, refs);
    }
  }
}
