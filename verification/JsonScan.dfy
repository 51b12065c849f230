/**
 What one scan does, as functions of the text, the position and the node count: the value the
 scanner's methods compute, failures included.
 */
module JsonScan {
  import opened Wrappers
  import opened Pieces
  import opened JsonGrammar

  const MAX_JSON_NUMBER_TOKEN_LENGTH := 128

  datatype Budget = Budget(maxDepth: int, maxNodes: int)

  // The scanner's fields when a method returns (ok) or raises (not ok).
  datatype Outcome = Outcome(ok: bool, index: nat, nodes: nat)

  // Where a lexical scan stopped, and whether it raised.
  datatype Lexed = Lexed(ok: bool, index: nat)

  function SkipBlank(text: string, i: nat): (j: nat)
    requires i <= |text|
    ensures i <= j <= |text|
    decreases |text| - i
  {
    if i < |text| && IsBlankChar(text[i]) then SkipBlank(text, i + 1) else i
  }

  function SkipDigits(text: string, i: nat): (j: nat)
    requires i <= |text|
    ensures i <= j <= |text|
    decreases |text| - i
  {
    if i < |text| && IsDigit(text[i]) then SkipDigits(text, i + 1) else i
  }

  // -?(?:0|[1-9][0-9]*)
  function MatchWhole(text: string, i: nat): (r: Option<nat>)
    requires i <= |text|
    ensures r.Some? ==> i < r.value <= |text|
  {
    var j := if LooksAt(text, i, '-') then i + 1 else i;
    if LooksAt(text, j, '0') then Some(j + 1)
    else if j < |text| && IsDigit(text[j]) then Some(SkipDigits(text, j + 1))
    else None
  }

  // (?:\.[0-9]+)?
  function MatchFraction(text: string, i: nat): (j: nat)
    requires i <= |text|
    ensures i <= j <= |text|
  {
    if LooksAt(text, i, '.') && SkipDigits(text, i + 1) > i + 1 then SkipDigits(text, i + 1) else i
  }

  // (?:[eE][+-]?[0-9]+)?
  function MatchExponent(text: string, i: nat): (j: nat)
    requires i <= |text|
    ensures i <= j <= |text|
  {
    if LooksAt(text, i, 'e') || LooksAt(text, i, 'E') then
      var d := if LooksAt(text, i + 1, '+') || LooksAt(text, i + 1, '-') then i + 2 else i + 1;
      if SkipDigits(text, d) > d then SkipDigits(text, d) else i
    else i
  }

  // The end of the longest number token at `i`, if there is one.
  function MatchNumber(text: string, i: nat): (r: Option<nat>)
    requires i <= |text|
    ensures r.Some? ==> i < r.value <= |text|
  {
    var whole := MatchWhole(text, i);
    if whole.None? then None else Some(MatchExponent(text, MatchFraction(text, whole.value)))
  }

  predicate FourHex(text: string, i: nat) {
    i + 4 <= |text| && forall k :: i <= k < i + 4 ==> IsHex(text[k])
  }

  // The rest of a string literal whose opening quote is already consumed.
  function ScanBody(text: string, i: nat): (r: Lexed)
    requires i <= |text|
    ensures i <= r.index <= |text|
    ensures r.ok ==> i < r.index
    decreases |text| - i
  {
    if i == |text| then Lexed(false, i)
    else if text[i] == '"' then Lexed(true, i + 1)
    else if text[i] == '\\' then
      if LooksAt(text, i + 1, 'u') then
        if FourHex(text, i + 2) then ScanBody(text, i + 6) else Lexed(false, i + 1)
      else if i + 1 < |text| && IsEscapable(text[i + 1]) then ScanBody(text, i + 2)
      else Lexed(false, i + 1)
    else if text[i] as int < 0x20 then Lexed(false, i)
    else ScanBody(text, i + 1)
  }

  function ScanValue(text: string, b: Budget, i: nat, n: nat, depth: nat): (r: Outcome)
    requires i <= |text|
    ensures i <= r.index <= |text|
    ensures r.ok ==> i < r.index
    decreases |text| - i, 1
  {
    var n := n + 1;
    if depth > b.maxDepth || n > b.maxNodes then Outcome(false, i, n)
    else if LooksAt(text, i, '{') then ScanObject(text, b, i, n, depth)
    else if LooksAt(text, i, '[') then ScanArray(text, b, i, n, depth)
    else if LooksAt(text, i, '"') then
      var body := ScanBody(text, i + 1); Outcome(body.ok, body.index, n)
    else if Occurs(text, i, "true") then Outcome(true, i + 4, n)
    else if Occurs(text, i, "false") then Outcome(true, i + 5, n)
    else if Occurs(text, i, "null") then Outcome(true, i + 4, n)
    else
      var number := MatchNumber(text, i);
      if number.None? || number.value - i > MAX_JSON_NUMBER_TOKEN_LENGTH then Outcome(false, i, n)
      else Outcome(true, number.value, n)
  }

  function ScanArray(text: string, b: Budget, i: nat, n: nat, depth: nat): (r: Outcome)
    requires LooksAt(text, i, '[')
    ensures i <= r.index <= |text|
    ensures r.ok ==> i < r.index
    decreases |text| - i, 0
  {
    var j := SkipBlank(text, i + 1);
    if LooksAt(text, j, ']') then Outcome(true, j + 1, n) else ScanItems(text, b, j, n, depth)
  }

  // One pass of the item loop and the passes after it.
  function ScanItems(text: string, b: Budget, i: nat, n: nat, depth: nat): (r: Outcome)
    requires i <= |text|
    ensures i <= r.index <= |text|
    ensures r.ok ==> i < r.index
    decreases |text| - i, 2
  {
    var item := ScanValue(text, b, i, n, depth + 1);
    if !item.ok then item else
    var j := SkipBlank(text, item.index);
    if LooksAt(text, j, ']') then Outcome(true, j + 1, item.nodes)
    else if LooksAt(text, j, ',') then ScanItems(text, b, SkipBlank(text, j + 1), item.nodes, depth)
    else Outcome(false, j, item.nodes)
  }

  function ScanObject(text: string, b: Budget, i: nat, n: nat, depth: nat): (r: Outcome)
    requires LooksAt(text, i, '{')
    ensures i <= r.index <= |text|
    ensures r.ok ==> i < r.index
    decreases |text| - i, 0
  {
    var j := SkipBlank(text, i + 1);
    if LooksAt(text, j, '}') then Outcome(true, j + 1, n) else ScanMembers(text, b, j, n, depth)
  }

  // From a key up to and including the blanks after its colon.
  function ScanKey(text: string, i: nat): (r: Lexed)
    requires i <= |text|
    ensures i <= r.index <= |text|
    ensures r.ok ==> i < r.index
  {
    if !LooksAt(text, i, '"') then Lexed(false, i) else
    var key := ScanBody(text, i + 1);
    if !key.ok then key else
    var j := SkipBlank(text, key.index);
    if LooksAt(text, j, ':') then Lexed(true, SkipBlank(text, j + 1)) else Lexed(false, j)
  }

  // One pass of the member loop and the passes after it.
  function ScanMembers(text: string, b: Budget, i: nat, n: nat, depth: nat): (r: Outcome)
    requires i <= |text|
    ensures i <= r.index <= |text|
    ensures r.ok ==> i < r.index
    decreases |text| - i, 2
  {
    var key := ScanKey(text, i);
    if !key.ok then Outcome(false, key.index, n) else
    var value := ScanValue(text, b, key.index, n, depth + 1);
    if !value.ok then value else
    var j := SkipBlank(text, value.index);
    if LooksAt(text, j, '}') then Outcome(true, j + 1, value.nodes)
    else if LooksAt(text, j, ',') then ScanMembers(text, b, SkipBlank(text, j + 1), value.nodes, depth)
    else Outcome(false, j, value.nodes)
  }

  function Scan(text: string, b: Budget): (r: Outcome)
    ensures r.index <= |text|
  {
    var root := ScanValue(text, b, SkipBlank(text, 0), 0, 0);
    if !root.ok then root else
    var j := SkipBlank(text, root.index);
    Outcome(j == |text|, j, root.nodes)
  }
}
