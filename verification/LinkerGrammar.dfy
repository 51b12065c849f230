/**
 GNU linker scripts as the native build admits them: the scripts, the tokens a script stands for, and
 the texts a token sequence can be laid out as, with white space and comments between the tokens.
 */
module LinkerGrammar {
  // ---- Characters ----

  predicate IsAscii(s: string) { forall i :: 0 <= i < |s| ==> s[i] as int < 128 }

  // str.isspace on ASCII: the file, group, record and unit separators are white space too.
  predicate IsSpace(c: char) { c == ' ' || 9 <= c as int <= 13 || 28 <= c as int <= 31 }

  predicate IsParen(c: char) { c == '(' || c == ')' }

  predicate IsAlnum(c: char) { 'A' <= c <= 'Z' || 'a' <= c <= 'z' || '0' <= c <= '9' }

  // [A-Za-z0-9_+.-]
  predicate IsNameChar(c: char) { IsAlnum(c) || c == '_' || c == '+' || c == '.' || c == '-' }

  // [A-Za-z0-9_+./=-]
  predicate IsWordChar(c: char) { IsNameChar(c) || c == '/' || c == '=' }

  predicate IsName(s: string) { s != [] && forall i :: 0 <= i < |s| ==> IsNameChar(s[i]) }

  predicate IsWord(s: string) { s != [] && forall i :: 0 <= i < |s| ==> IsWordChar(s[i]) }

  // The classes by their ASCII codes.
  lemma {:induction false} CharacterClasses(c: char)
    ensures IsSpace(c) <==> c as int in {9, 10, 11, 12, 13, 28, 29, 30, 31, 32}
    ensures IsParen(c) <==> c as int in {40, 41}
    ensures IsAlnum(c) <==> 48 <= c as int <= 57 || 65 <= c as int <= 90 || 97 <= c as int <= 122
    ensures IsNameChar(c) <==> IsAlnum(c) || c as int in {43, 45, 46, 95}
    ensures IsWordChar(c) <==> IsNameChar(c) || c as int in {47, 61}
  {
  }

  lemma {:induction false} WordsByTheirCharacters(s: string)
    ensures IsName(s) <==> |s| > 0 && forall c :: c in s ==> IsNameChar(c)
    ensures IsWord(s) <==> |s| > 0 && forall c :: c in s ==> IsWordChar(c)
    ensures IsAscii(s) <==> forall c :: c in s ==> c as int <= 127
  {
    if IsName(s) || IsWord(s) || IsAscii(s) {
      forall c | c in s ensures exists i :: 0 <= i < |s| && s[i] == c {}
    }
    assert forall i :: 0 <= i < |s| ==> s[i] in s;
  }

  // ---- References ----

  predicate IsReserved(t: string) {
    t == "AS_NEEDED" || t == "GROUP" || t == "INPUT" || t == "OUTPUT_FORMAT"
  }

  // str.split("/")
  function SplitSlash(s: string): (parts: seq<string>)
    ensures parts != []
  {
    if s == [] then [[]]
    else
      var rest := SplitSlash(s[1..]);
      if s[0] == '/' then [[]] + rest else [[s[0]] + rest[0]] + rest[1..]
  }

  predicate IsPath(s: string) {
    && s != [] && s[0] == '/'
    && forall part :: part in SplitSlash(s[1..]) ==> part != "" && part != "." && part != ".."
  }

  function JoinSlash(parts: seq<string>): string
    requires parts != []
  {
    if |parts| == 1 then parts[0] else parts[0] + (['/'] + JoinSlash(parts[1..]))
  }

  lemma {:induction false} JoinFirst(s: string, parts: seq<string>)
    requires parts != []
    ensures JoinSlash([s + parts[0]] + parts[1..]) == s + JoinSlash(parts)
  {
    var longer := [s + parts[0]] + parts[1..];
    if |parts| > 1 {
      assert longer[1..] == parts[1..];
      assert (s + parts[0]) + (['/'] + JoinSlash(parts[1..])) == s + (parts[0] + (['/'] + JoinSlash(parts[1..])));
    }
  }

  // The parts are the text between the slashes.
  lemma {:induction false} PartsBetweenSlashes(s: string)
    ensures JoinSlash(SplitSlash(s)) == s
    ensures forall i :: 0 <= i < |SplitSlash(s)| ==> '/' !in SplitSlash(s)[i]
  {
    hide JoinSlash;
    if s == [] {
      assert JoinSlash([[]]) == [] by { JoinAlone([]); }
    } else {
      PartsBetweenSlashes(s[1..]);
      var rest := SplitSlash(s[1..]);
      assert [s[0]] + s[1..] == s;
      if s[0] == '/' { JoinEmpty(rest); } else { JoinFirst([s[0]], rest); }
    }
  }

  lemma {:induction false} JoinAlone(s: string)
    ensures JoinSlash([s]) == s
  {
  }

  lemma {:induction false} JoinEmpty(parts: seq<string>)
    requires parts != []
    ensures JoinSlash([[]] + parts) == ['/'] + JoinSlash(parts)
  {
    assert ([[]] + parts)[1..] == parts;
    assert JoinSlash([[]] + parts) == [] + (['/'] + JoinSlash(parts));
  }

  predicate StartsLibrary(t: string) { |t| >= 2 && t[0] == '-' && t[1] == 'l' }

  predicate ValidReference(t: string) {
    if StartsLibrary(t) then IsName(t[2..])
    else if t != [] && t[0] == '/' then IsPath(t)
    else IsName(t)
  }

  // No part of an absolute path is empty, a dot or two dots: one slash between any two parts.
  ghost predicate AbsoluteAndPlain(t: string) {
    exists parts: seq<string> ::
      parts != [] && t == "/" + JoinSlash(parts) && forall i :: 0 <= i < |parts| ==> PlainPart(parts[i])
  }

  predicate PlainPart(part: string) { '/' !in part && part != "" && part != "." && part != ".." }

  lemma {:induction false} PartsAreUnique(parts: seq<string>)
    requires parts != [] && forall i :: 0 <= i < |parts| ==> '/' !in parts[i]
    ensures SplitSlash(JoinSlash(parts)) == parts
  {
    if |parts| == 1 {
      NoSlash(parts[0]);
      assert parts == [parts[0]];
    } else {
      PartsAreUnique(parts[1..]);
      SplitFirst(parts[0], JoinSlash(parts[1..]));
      assert parts == [parts[0]] + parts[1..];
    }
  }

  lemma {:induction false} NoSlash(s: string)
    requires '/' !in s
    ensures SplitSlash(s) == [s]
  {
    if s != [] {
      NoSlash(s[1..]);
      assert [s[0]] + s[1..] == s;
    }
  }

  lemma {:induction false} SplitFirst(s: string, rest: string)
    requires '/' !in s
    ensures SplitSlash(s + (['/'] + rest)) == [s] + SplitSlash(rest)
  {
    var t := s + (['/'] + rest);
    if s == [] {
      assert t[1..] == rest;
    } else {
      assert t[1..] == s[1..] + (['/'] + rest) && t[0] == s[0] && s[0] in s;
      SplitFirst(s[1..], rest);
      assert [s[0]] + s[1..] == s;
    }
  }

  lemma {:induction false} ReservedWords(t: string)
    ensures IsReserved(t) <==> t in {"INPUT", "GROUP", "AS_NEEDED", "OUTPUT_FORMAT"}
  {
  }

  // A reference is -l and a name, an absolute plain path, or a name that does not start with -l.
  lemma {:induction false} ReferenceForms(t: string)
    ensures ValidReference(t) <==>
      (if "-l" <= t then IsName(t[2..]) else if "/" <= t then AbsoluteAndPlain(t) else IsName(t))
  {
    hide SplitSlash, JoinSlash;
    assert StartsLibrary(t) <==> "-l" <= t;
    assert (t != [] && t[0] == '/') <==> "/" <= t;
    if "/" <= t {
      assert t == "/" + t[1..];
      PartsBetweenSlashes(t[1..]);
      if IsPath(t) {
        var parts := SplitSlash(t[1..]);
        forall i | 0 <= i < |parts| ensures PlainPart(parts[i]) { assert parts[i] in parts; }
      }
      if AbsoluteAndPlain(t) {
        var parts: seq<string> :|
          parts != [] && t == "/" + JoinSlash(parts) && forall i :: 0 <= i < |parts| ==> PlainPart(parts[i]);
        assert t[1..] == JoinSlash(parts);
        PartsAreUnique(parts);
      }
    }
  }

  // ---- Scripts ----

  datatype Item = Reference(name: string) | AsNeeded(names: seq<string>)

  datatype Directive = OutputFormat | Inputs(keyword: string, items: seq<Item>)

  predicate ValidName(t: string) { IsWord(t) && !IsReserved(t) && ValidReference(t) }

  predicate ValidItem(item: Item) {
    match item
    case Reference(name) => ValidName(name)
    case AsNeeded(names) => names != [] && forall i :: 0 <= i < |names| ==> ValidName(names[i])
  }

  predicate ValidItems(items: seq<Item>) { forall i :: 0 <= i < |items| ==> ValidItem(items[i]) }

  predicate ValidDirective(d: Directive) {
    d.Inputs? ==> (d.keyword == "GROUP" || d.keyword == "INPUT") && d.items != [] && ValidItems(d.items)
  }

  predicate ValidDirectives(ds: seq<Directive>) { forall i :: 0 <= i < |ds| ==> ValidDirective(ds[i]) }

  function CountInputs(ds: seq<Directive>): nat {
    if ds == [] then 0 else (if ds[0].Inputs? then 1 else 0) + CountInputs(ds[1..])
  }

  function CountFormats(ds: seq<Directive>): nat {
    if ds == [] then 0 else (if ds[0].OutputFormat? then 1 else 0) + CountFormats(ds[1..])
  }

  // One GROUP or INPUT, at most one OUTPUT_FORMAT, and nothing empty or nested.
  predicate ValidScript(ds: seq<Directive>) {
    ValidDirectives(ds) && CountInputs(ds) == 1 && CountFormats(ds) <= 1
  }

  // ---- What a script stands for ----

  function ItemTokens(item: Item): seq<string> {
    match item
    case Reference(name) => [name]
    case AsNeeded(names) => ["AS_NEEDED"] + (["("] + (names + [")"]))
  }

  function ItemsTokens(items: seq<Item>): seq<string> {
    if items == [] then [] else ItemTokens(items[0]) + ItemsTokens(items[1..])
  }

  function DirectiveTokens(d: Directive): seq<string> {
    match d
    case OutputFormat => ["OUTPUT_FORMAT"] + (["("] + (["elf64-littleaarch64"] + [")"]))
    case Inputs(keyword, items) => [keyword] + (["("] + (ItemsTokens(items) + [")"]))
  }

  function ScriptTokens(ds: seq<Directive>): seq<string> {
    if ds == [] then [] else DirectiveTokens(ds[0]) + ScriptTokens(ds[1..])
  }

  type Linked = (string, bool)

  function Marked(names: seq<string>): (r: seq<Linked>)
    ensures |r| == |names|
  {
    if names == [] then [] else [(names[0], true)] + Marked(names[1..])
  }

  function FlattenItem(item: Item): seq<Linked> {
    match item
    case Reference(name) => [(name, false)]
    case AsNeeded(names) => Marked(names)
  }

  // The references in order, each with its as-needed flag.
  function FlattenItems(items: seq<Item>): seq<Linked> {
    if items == [] then [] else FlattenItem(items[0]) + FlattenItems(items[1..])
  }

  function Flatten(ds: seq<Directive>): seq<Linked> {
    if ds == [] then []
    else (if ds[0].Inputs? then FlattenItems(ds[0].items) else []) + Flatten(ds[1..])
  }

  // ---- Layouts ----

  datatype Atom = Blank(c: char) | Comment(body: string) | Token(text: string)

  predicate PairAt(s: string, i: nat, a: char, b: char) { i + 1 < |s| && s[i] == a && s[i + 1] == b }

  // No comment mark of either kind inside.
  predicate ValidComment(body: string) {
    IsAscii(body) && forall i :: 0 <= i < |body| ==> !PairAt(body, i, '*', '/') && !PairAt(body, i, '/', '*')
  }

  predicate IsParenToken(t: string) { t == "(" || t == ")" }

  predicate ValidAtom(a: Atom) {
    match a
    case Blank(c) => IsSpace(c)
    case Comment(body) => ValidComment(body)
    case Token(text) => IsParenToken(text) || IsWord(text)
  }

  predicate IsWordAtom(a: Atom) { a.Token? && !IsParenToken(a.text) }

  // Two words in a row need something between them.
  predicate ValidLayout(atoms: seq<Atom>) {
    && (forall i :: 0 <= i < |atoms| ==> ValidAtom(atoms[i]))
    && (forall i :: 0 < i < |atoms| ==> !(IsWordAtom(atoms[i - 1]) && IsWordAtom(atoms[i])))
  }

  function AtomText(a: Atom): string {
    match a
    case Blank(c) => [c]
    case Comment(body) => ['/'] + (['*'] + (body + (['*'] + ['/'])))
    case Token(text) => text
  }

  function LayoutText(atoms: seq<Atom>): string {
    if atoms == [] then [] else AtomText(atoms[0]) + LayoutText(atoms[1..])
  }

  function LayoutTokens(atoms: seq<Atom>): seq<string> {
    if atoms == [] then []
    else (if atoms[0].Token? then [atoms[0].text] else []) + LayoutTokens(atoms[1..])
  }
}
