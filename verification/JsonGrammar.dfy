/**
 The grammar of RFC 8259, sections 2 to 7, as concrete syntax trees and the text each tree stands
 for.  Nothing here mentions the scanner: this is the definition the scanner is measured against.
 */
module JsonGrammar {
  import opened Wrappers

  // ---- Characters ----

  predicate IsBlankChar(c: char) { c == ' ' || c == '\t' || c == '\r' || c == '\n' }

  predicate IsBlank(s: string) { forall i :: 0 <= i < |s| ==> IsBlankChar(s[i]) }

  predicate IsDigit(c: char) { '0' <= c <= '9' }

  predicate IsDigits(s: string) { forall i :: 0 <= i < |s| ==> IsDigit(s[i]) }

  predicate IsHex(c: char) { IsDigit(c) || 'a' <= c <= 'f' || 'A' <= c <= 'F' }

  predicate IsEscapable(c: char) {
    c == '"' || c == '\\' || c == '/' || c == 'b' || c == 'f' || c == 'n' || c == 'r' || c == 't'
  }

  // The classes by the code points RFC 8259 gives: ws in section 2, DIGIT in section 6, escapes in section 7.
  lemma {:induction false} CharacterClasses(c: char)
    ensures IsBlankChar(c) <==> c as int in {0x20, 0x09, 0x0A, 0x0D}
    ensures IsDigit(c) <==> 0x30 <= c as int <= 0x39
    ensures IsHex(c) <==> 0x30 <= c as int <= 0x39 || 0x41 <= c as int <= 0x46 || 0x61 <= c as int <= 0x66
    ensures IsEscapable(c) <==> c as int in {0x22, 0x5C, 0x2F, 0x62, 0x66, 0x6E, 0x72, 0x74}
  {
  }

  // ---- Section 6: numbers ----

  datatype Exponent = Exponent(letter: char, sign: string, digits: string)

  datatype Number =
    Number(minus: bool, whole: string, fraction: Option<string>, exponent: Option<Exponent>)

  predicate ValidWhole(s: string) {
    s != [] && IsDigits(s) && (s[0] == '0' ==> |s| == 1)
  }

  predicate ValidExponent(e: Exponent) {
    && (e.letter == 'e' || e.letter == 'E')
    && (e.sign == "" || e.sign == "+" || e.sign == "-")
    && e.digits != [] && IsDigits(e.digits)
  }

  predicate ValidNumber(n: Number) {
    && ValidWhole(n.whole)
    && (n.fraction.Some? ==> n.fraction.value != [] && IsDigits(n.fraction.value))
    && (n.exponent.Some? ==> ValidExponent(n.exponent.value))
  }

  function FractionText(f: Option<string>): string {
    if f.None? then [] else ['.'] + f.value
  }

  function ExponentText(e: Option<Exponent>): string {
    if e.None? then [] else [e.value.letter] + e.value.sign + e.value.digits
  }

  function NumberText(n: Number): string {
    (if n.minus then ['-'] else []) + n.whole + FractionText(n.fraction) + ExponentText(n.exponent)
  }

  // ---- Section 7: strings ----

  datatype Char = Plain(c: char) | Escaped(c: char) | Unicode(hex: string)

  predicate ValidChar(c: Char) {
    match c
    case Plain(c) => c != '"' && c != '\\' && c as int >= 0x20
    case Escaped(c) => IsEscapable(c)
    case Unicode(hex) => |hex| == 4 && forall i :: 0 <= i < 4 ==> IsHex(hex[i])
  }

  function CharText(c: Char): string {
    match c
    case Plain(c) => [c]
    case Escaped(c) => ['\\', c]
    case Unicode(hex) => ['\\', 'u'] + hex
  }

  predicate ValidChars(cs: seq<Char>) { forall i :: 0 <= i < |cs| ==> ValidChar(cs[i]) }

  // The characters of a string literal and its closing quote.
  function BodyText(cs: seq<Char>): string {
    if cs == [] then ['"'] else CharText(cs[0]) + BodyText(cs[1..])
  }

  function StringText(cs: seq<Char>): string { ['"'] + BodyText(cs) }

  // ---- Sections 3 to 5: values, objects, arrays ----

  // Blanks are part of the tree: `open` follows the opening bracket, `after` follows a value,
  // `next` follows a comma.
  datatype Value =
    | Word(text: string)
    | Num(number: Number)
    | Str(chars: seq<Char>)
    | EmptyArray(open: string)
    | Array(open: string, items: Items)
    | EmptyObject(open: string)
    | Object(open: string, members: Members)

  datatype Items =
    | LastItem(value: Value, after: string)
    | MoreItems(value: Value, after: string, next: string, rest: Items)

  datatype Members =
    | LastMember(key: seq<Char>, beforeColon: string, afterColon: string, value: Value, after: string)
    | MoreMembers(key: seq<Char>, beforeColon: string, afterColon: string, value: Value, after: string,
                  next: string, rest: Members)

  predicate ValidValue(v: Value) {
    match v
    case Word(text) => text == "true" || text == "false" || text == "null"
    case Num(number) => ValidNumber(number)
    case Str(chars) => ValidChars(chars)
    case EmptyArray(open) => IsBlank(open)
    case Array(open, items) => IsBlank(open) && ValidItems(items)
    case EmptyObject(open) => IsBlank(open)
    case Object(open, members) => IsBlank(open) && ValidMembers(members)
  }

  predicate ValidItems(items: Items) {
    && ValidValue(items.value) && IsBlank(items.after)
    && (items.MoreItems? ==> IsBlank(items.next) && ValidItems(items.rest))
  }

  predicate ValidMembers(ms: Members) {
    && ValidChars(ms.key) && IsBlank(ms.beforeColon) && IsBlank(ms.afterColon)
    && ValidValue(ms.value) && IsBlank(ms.after)
    && (ms.MoreMembers? ==> IsBlank(ms.next) && ValidMembers(ms.rest))
  }

  function ValueText(v: Value): string {
    match v
    case Word(text) => text
    case Num(number) => NumberText(number)
    case Str(chars) => StringText(chars)
    case EmptyArray(open) => ['['] + open + [']']
    case Array(open, items) => ['['] + open + ItemsText(items)
    case EmptyObject(open) => ['{'] + open + ['}']
    case Object(open, members) => ['{'] + open + MembersText(members)
  }

  function ItemsText(items: Items): string {
    match items
    case LastItem(value, after) => ValueText(value) + (after + [']'])
    case MoreItems(value, after, next, rest) =>
      ValueText(value) + (after + ([','] + (next + ItemsText(rest))))
  }

  function MembersText(ms: Members): string {
    match ms
    case LastMember(key, before, afterColon, value, after) =>
      StringText(key) + (before + ([':'] + (afterColon + (ValueText(value) + (after + ['}'])))))
    case MoreMembers(key, before, afterColon, value, after, next, rest) =>
      StringText(key) + (before + ([':'] + (afterColon + (ValueText(value)
        + (after + ([','] + (next + MembersText(rest))))))))
  }

  // ---- Section 2: a JSON text ----

  datatype Document = Document(before: string, root: Value, after: string)

  predicate ValidDocument(d: Document) { IsBlank(d.before) && ValidValue(d.root) && IsBlank(d.after) }

  function DocumentText(d: Document): string { d.before + (ValueText(d.root) + d.after) }

  // ---- Measures the budget is stated in ----

  // Number of values; object keys are grammar, not values.
  function Nodes(v: Value): (n: nat)
    ensures n >= 1
  {
    match v
    case Array(_, items) => 1 + ItemsNodes(items)
    case Object(_, members) => 1 + MembersNodes(members)
    case _ => 1
  }

  function ItemsNodes(items: Items): nat {
    Nodes(items.value) + if items.MoreItems? then ItemsNodes(items.rest) else 0
  }

  function MembersNodes(ms: Members): nat {
    Nodes(ms.value) + if ms.MoreMembers? then MembersNodes(ms.rest) else 0
  }

  function Max(a: nat, b: nat): nat { if a < b then b else a }

  // Levels of nesting below a value; a value without children has height 0.
  function Height(v: Value): nat {
    match v
    case Array(_, items) => 1 + ItemsHeight(items)
    case Object(_, members) => 1 + MembersHeight(members)
    case _ => 0
  }

  function ItemsHeight(items: Items): nat {
    Max(Height(items.value), if items.MoreItems? then ItemsHeight(items.rest) else 0)
  }

  function MembersHeight(ms: Members): nat {
    Max(Height(ms.value), if ms.MoreMembers? then MembersHeight(ms.rest) else 0)
  }

  // Every number token has at most `limit` characters.
  predicate ShortNumbers(v: Value, limit: nat) {
    match v
    case Num(number) => |NumberText(number)| <= limit
    case Array(_, items) => ShortItems(items, limit)
    case Object(_, members) => ShortMembers(members, limit)
    case _ => true
  }

  predicate ShortItems(items: Items, limit: nat) {
    ShortNumbers(items.value, limit) && (items.MoreItems? ==> ShortItems(items.rest, limit))
  }

  predicate ShortMembers(ms: Members, limit: nat) {
    ShortNumbers(ms.value, limit) && (ms.MoreMembers? ==> ShortMembers(ms.rest, limit))
  }
}
