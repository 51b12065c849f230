/**
 The comma-separated rows of a wheel's RECORD: the writer's minimal quoting and the reader's state machine, and
 that reading what was written gives the rows back (RFC 4180 section 2).
 */
module Csv {
  import opened Wrappers

  type Row = seq<string>

  // ---- Writing ----

  predicate NeedsQuotes(field: string) { ',' in field || '"' in field || '\n' in field }

  function Doubled(field: string): string {
    if field == "" then "" else (if field[0] == '"' then "\"\"" else [field[0]]) + Doubled(field[1..])
  }

  function WriteField(field: string): string {
    if NeedsQuotes(field) then "\"" + (Doubled(field) + "\"") else field
  }

  function WriteFields(row: Row): string
    requires row != []
  {
    if |row| == 1 then WriteField(row[0]) else WriteField(row[0]) + ("," + WriteFields(row[1..]))
  }

  // A row of one empty field is quoted, or it would read as a row of none.
  function WriteRow(row: Row): string {
    (if row == [] then "" else if row == [""] then "\"\"" else WriteFields(row)) + "\n"
  }

  // Fields as they are written: plain ones as they are, the others in quotes, with their own quotes doubled.
  lemma {:induction false} FieldsAsWritten(a: string, b: string, c: string)
    requires forall i :: 0 <= i < |a| ==> a[i] != ',' && a[i] != '"' && a[i] != '\n'
    requires forall i :: 0 <= i < |b| ==> b[i] != '"'
    ensures WriteField(a) == a && WriteField(b + ",") == ['"'] + b + [',', '"']
    ensures Doubled(b + (['"'] + c)) == b + (['"', '"'] + Doubled(c))
    ensures WriteRow([a, a]) == a + [','] + a + ['\n'] && WriteRow([""]) == ['"', '"', '\n']
  {
    hide Doubled;
    assert (b + ",")[|b|] == ',';
    DoubledPlain(b, ",");
    assert Doubled(",") == "," by {
      DoubledPlain(",", "");
      assert "," + "" == ",";
    }
    DoubledPlain(b, ['"'] + c);
    DoubledQuote(c);
    var twice: Row := [a, a];
    assert |twice| == 2 && twice[1..] == [a] && twice[0] == a;
    assert WriteFields(twice) == a + ("," + WriteFields([a])) && WriteFields([a]) == a;
    assert a + ("," + a) + "\n" == a + [','] + a + ['\n'];
  }

  lemma {:induction false} DoubledPlain(b: string, rest: string)
    requires forall i :: 0 <= i < |b| ==> b[i] != '"'
    ensures Doubled(b + rest) == b + Doubled(rest) && Doubled("") == ""
  {
    if b == "" {
      assert "" + rest == rest;
    } else {
      DoubledPlain(b[1..], rest);
      assert (b + rest)[1..] == b[1..] + rest;
      assert [b[0]] + (b[1..] + Doubled(rest)) == b + Doubled(rest);
    }
  }

  lemma {:induction false} DoubledQuote(rest: string)
    ensures Doubled(['"'] + rest) == ['"', '"'] + Doubled(rest)
  {
    assert (['"'] + rest)[1..] == rest;
  }

  function Render(rows: seq<Row>): string {
    if rows == [] then "" else WriteRow(rows[0]) + Render(rows[1..])
  }

  // ---- Reading ----

  datatype State = StartRecord | StartField | InField | InQuoted | QuoteInQuoted | EatNewline

  // The row as it stands once its last field is saved.
  function Saved(state: State, field: string, row: Row): Row {
    if state in {StartRecord, EatNewline} then row else row + [field]
  }

  // The reader's state after one character: what is being read, the field so far, the row so far.
  datatype Cursor = Cursor(state: State, field: string, row: Row)

  // One character other than a line feed; None is the reader's complaint about a bare carriage return.
  function Feed(c: char, at: Cursor): Option<Cursor>
    requires c != '\n'
  {
    match at.state
    case StartRecord | StartField =>
      if c == '\r' then Some(Cursor(EatNewline, "", Saved(at.state, at.field, at.row)))
      else if c == '"' then Some(Cursor(InQuoted, at.field, at.row))
      else if c == ',' then Some(Cursor(StartField, "", at.row + [at.field]))
      else Some(Cursor(InField, at.field + [c], at.row))
    case InField =>
      if c == '\r' then Some(Cursor(EatNewline, "", at.row + [at.field]))
      else if c == ',' then Some(Cursor(StartField, "", at.row + [at.field]))
      else Some(Cursor(InField, at.field + [c], at.row))
    case InQuoted =>
      if c == '"' then Some(Cursor(QuoteInQuoted, at.field, at.row)) else Some(Cursor(InQuoted, at.field + [c], at.row))
    case QuoteInQuoted =>
      if c == '"' then Some(Cursor(InQuoted, at.field + [c], at.row))
      else if c == ',' then Some(Cursor(StartField, "", at.row + [at.field]))
      else if c == '\r' then Some(Cursor(EatNewline, "", at.row + [at.field]))
      else Some(Cursor(InField, at.field + [c], at.row))
    case EatNewline => if c == '\r' then Some(at) else None
  }

  const FRESH: Cursor := Cursor(StartRecord, "", [])

  // The rows of the rest of the text.
  function Rows(text: string, at: Cursor): Option<seq<Row>> {
    if text == "" then Some(if at == FRESH then [] else [Saved(at.state, at.field, at.row)])
    else if text[0] == '\n' then
      if at.state == InQuoted then Rows(text[1..], at.(field := at.field + "\n"))
      else
        var rest := Rows(text[1..], FRESH);
        if rest.None? then None else Some([Saved(at.state, at.field, at.row)] + rest.value)
    else
      var next := Feed(text[0], at);
      if next.None? then None else Rows(text[1..], next.value)
  }

  function Read(text: string): Option<seq<Row>> { Rows(text, FRESH) }

  // Rows already read, in front of the rest.
  function Following(rows: seq<Row>, rest: Option<seq<Row>>): Option<seq<Row>> {
    if rest.None? then None else Some(rows + rest.value)
  }

  // The reader as it runs.
  method ReadRows(text: string) returns (r: Option<seq<Row>>)
    ensures r == Read(text)
  {
    var at := FRESH;
    var rows: seq<Row> := [];
    assert text[0..] == text;
    assert Read(text).Some? ==> [] + Read(text).value == Read(text).value;
    for i := 0 to |text|
      invariant Following(rows, Rows(text[i..], at)) == Read(text)
    {
      assert text[i..][0] == text[i] && text[i..][1..] == text[i + 1..];
      if text[i] != '\n' {
        var next := Feed(text[i], at);
        if next.None? { return None; }
        at := next.value;
      } else if at.state == InQuoted {
        at := at.(field := at.field + "\n");
      } else {
        OneMore(rows, Saved(at.state, at.field, at.row), Rows(text[i + 1..], FRESH));
        rows := rows + [Saved(at.state, at.field, at.row)];
        at := FRESH;
      }
    }
    assert text[|text|..] == "" && rows + [] == rows;
    return Some(if at == FRESH then rows else rows + [Saved(at.state, at.field, at.row)]);
  }

  lemma {:induction false} OneMore(rows: seq<Row>, row: Row, rest: Option<seq<Row>>)
    ensures Following(rows, Following([row], rest)) == Following(rows + [row], rest)
  {
    if rest.Some? { assert rows + ([row] + rest.value) == rows + [row] + rest.value; }
  }

  // ---- Reading back ----

  predicate NoReturn(row: Row) { forall i :: 0 <= i < |row| ==> '\r' !in row[i] }

  lemma {:induction false} OneChar(c: char, rest: string, at: Cursor)
    requires c != '\n'
    ensures Rows([c] + rest, at) == (var next := Feed(c, at); if next.None? then None else Rows(rest, next.value))
  {
    assert ([c] + rest)[0] == c && ([c] + rest)[1..] == rest;
  }

  lemma {:induction false} LineFeed(rest: string, at: Cursor)
    ensures at.state == InQuoted ==> Rows("\n" + rest, at) == Rows(rest, at.(field := at.field + "\n"))
    ensures at.state != InQuoted
      ==> Rows("\n" + rest, at) == Following([Saved(at.state, at.field, at.row)], Rows(rest, FRESH))
  {
    assert ("\n" + rest)[0] == '\n' && ("\n" + rest)[1..] == rest;
  }

  lemma {:induction false} Cons(f: string, rest: string)
    requires f != ""
    ensures f + rest == [f[0]] + (f[1..] + rest) && [f[0]] + f[1..] == f
  {
  }

  lemma {:induction false} PlainReads(f: string, rest: string, field: string, row: Row)
    requires !NeedsQuotes(f) && '\r' !in f
    ensures Rows(f + rest, Cursor(InField, field, row)) == Rows(rest, Cursor(InField, field + f, row))
  {
    hide Rows;
    if f == "" {
      assert f + rest == rest && field + f == field;
    } else {
      Cons(f, rest);
      OneChar(f[0], f[1..] + rest, Cursor(InField, field, row));
      PlainReads(f[1..], rest, field + [f[0]], row);
      assert field + [f[0]] + f[1..] == field + f;
    }
  }

  lemma {:induction false} DoubledCons(f: string, rest: string)
    requires f != ""
    ensures f[0] == '"' ==> Doubled(f) + rest == "\"" + ("\"" + (Doubled(f[1..]) + rest))
    ensures f[0] != '"' ==> Doubled(f) + rest == [f[0]] + (Doubled(f[1..]) + rest)
  {
    var more := Doubled(f[1..]);
    if f[0] == '"' { Pair(more, rest); } else { Prefixed(f[0], more, rest); }
  }

  lemma {:induction false} Prefixed(c: char, more: string, rest: string)
    ensures [c] + more + rest == [c] + (more + rest)
  {
  }

  lemma {:induction false} Pair(more: string, rest: string)
    ensures "\"\"" + more + rest == "\"" + ("\"" + (more + rest))
  {
  }

  // Between quotes every character stands for itself, a quote being written twice.
  lemma {:induction false} InsideQuotes(c: char, rest: string, field: string, row: Row)
    ensures c == '"' ==>
      Rows("\"" + ("\"" + rest), Cursor(InQuoted, field, row)) == Rows(rest, Cursor(InQuoted, field + [c], row))
    ensures c != '"' ==>
      Rows([c] + rest, Cursor(InQuoted, field, row)) == Rows(rest, Cursor(InQuoted, field + [c], row))
  {
    hide Rows;
    if c == '"' {
      OneChar('"', "\"" + rest, Cursor(InQuoted, field, row));
      OneChar('"', rest, Cursor(QuoteInQuoted, field, row));
    } else if c == '\n' {
      LineFeed(rest, Cursor(InQuoted, field, row));
    } else {
      OneChar(c, rest, Cursor(InQuoted, field, row));
    }
  }

  lemma {:induction false} EndQuote(rest: string, field: string, row: Row)
    ensures Rows("\"" + rest, Cursor(InQuoted, field, row)) == Rows(rest, Cursor(QuoteInQuoted, field, row))
  {
    hide Rows;
    OneChar('"', rest, Cursor(InQuoted, field, row));
  }

  lemma {:induction false} QuotedReads(f: string, rest: string, field: string, row: Row)
    ensures Rows(Doubled(f) + ("\"" + rest), Cursor(InQuoted, field, row))
      == Rows(rest, Cursor(QuoteInQuoted, field + f, row))
  {
    hide Rows, Feed;
    var tail := "\"" + rest;
    if f == "" {
      assert Doubled(f) + tail == tail && field + f == field;
      EndQuote(rest, field, row);
    } else {
      var more := Doubled(f[1..]) + tail;
      DoubledCons(f, tail);
      QuotedReads(f[1..], rest, field + [f[0]], row);
      assert field + [f[0]] + f[1..] == field + f;
      InsideQuotes(f[0], more, field, row);
    }
  }

  ghost predicate ReadTo(f: string, rest: string, at: Cursor, state: State) {
    && (state == at.state || state !in {StartRecord, InQuoted, EatNewline}) && (f != "" ==> state != at.state)
    && Rows(WriteField(f) + rest, at) == Rows(rest, Cursor(state, f, at.row))
  }

  // A written field leaves the reader at the separator, ready to save it.
  lemma {:induction false} FieldReads(f: string, rest: string, at: Cursor)
    requires '\r' !in f && at.field == "" && at.state in {StartRecord, StartField}
    ensures exists state :: ReadTo(f, rest, at, state)
  {
    hide Rows;
    if NeedsQuotes(f) {
      var inner := Doubled(f) + ("\"" + rest);
      Quoted(f, rest);
      OneChar('"', inner, at);
      QuotedReads(f, rest, "", at.row);
      assert "" + f == f;
      assert ReadTo(f, rest, at, QuoteInQuoted);
    } else if f == "" {
      assert WriteField(f) + rest == rest;
      assert ReadTo(f, rest, at, at.state);
    } else {
      Cons(f, rest);
      assert f[0] in f && !NeedsQuotes(f[1..]) && "" + [f[0]] == [f[0]];
      OneChar(f[0], f[1..] + rest, at);
      PlainReads(f[1..], rest, [f[0]], at.row);
      assert ReadTo(f, rest, at, InField);
    }
  }

  lemma {:induction false} Quoted(f: string, rest: string)
    requires NeedsQuotes(f)
    ensures WriteField(f) + rest == "\"" + (Doubled(f) + ("\"" + rest))
  {
  }

  lemma {:induction false} FieldThenComma(f: string, rest: string, at: Cursor)
    requires '\r' !in f && at.field == "" && at.state in {StartRecord, StartField}
    ensures Rows(WriteField(f) + ("," + rest), at) == Rows(rest, Cursor(StartField, "", at.row + [f]))
  {
    hide Rows;
    FieldReads(f, "," + rest, at);
    var state :| ReadTo(f, "," + rest, at, state);
    OneChar(',', rest, Cursor(state, f, at.row));
  }

  lemma {:induction false} FieldThenEnd(f: string, rest: string, at: Cursor)
    requires '\r' !in f && at.field == "" && at.state in {StartRecord, StartField}
    requires at.state == StartRecord ==> f != ""
    ensures Rows(WriteField(f) + ("\n" + rest), at) == Following([at.row + [f]], Rows(rest, FRESH))
  {
    hide Rows, Following;
    FieldReads(f, "\n" + rest, at);
    var state :| ReadTo(f, "\n" + rest, at, state);
    LineFeed(rest, Cursor(state, f, at.row));
  }

  lemma {:induction false} FieldsRead(row: Row, rest: string, at: Cursor)
    requires row != [] && NoReturn(row) && at.field == "" && at.state in {StartRecord, StartField}
    requires at.state == StartRecord ==> row != [""]
    ensures Rows(WriteFields(row) + ("\n" + rest), at) == Following([at.row + row], Rows(rest, FRESH))
    decreases |row|
  {
    hide Rows, Following;
    var end := "\n" + rest;
    if |row| == 1 {
      assert row == [row[0]];
      FieldThenEnd(row[0], rest, at);
    } else {
      var tail := WriteFields(row[1..]) + end;
      assert WriteFields(row) + end == WriteField(row[0]) + ("," + tail);
      FieldThenComma(row[0], tail, at);
      FieldsRead(row[1..], rest, Cursor(StartField, "", at.row + [row[0]]));
      assert at.row + [row[0]] + row[1..] == at.row + row;
    }
  }

  lemma {:induction false} RowReads(row: Row, rest: string)
    requires NoReturn(row)
    ensures Rows(WriteRow(row) + rest, FRESH) == Following([row], Rows(rest, FRESH))
  {
    hide Rows, Following;
    var end := "\n" + rest;
    if row == [] {
      assert WriteRow(row) + rest == end;
      LineFeed(rest, FRESH);
    } else if row == [""] {
      assert WriteRow(row) + rest == "\"" + ("\"" + end);
      OneChar('"', "\"" + end, FRESH);
      OneChar('"', end, Cursor(InQuoted, "", []));
      LineFeed(rest, Cursor(QuoteInQuoted, "", []));
      assert [] + [""] == row;
    } else {
      assert WriteRow(row) + rest == WriteFields(row) + end;
      FieldsRead(row, rest, FRESH);
      assert [] + row == row;
    }
  }

  // Reading what was written gives the rows back, for every rows without a carriage return.
  lemma {:induction false} ReadsBack(rows: seq<Row>)
    requires forall i :: 0 <= i < |rows| ==> NoReturn(rows[i])
    ensures Read(Render(rows)) == Some(rows)
  {
    if rows == [] {
    } else {
      RowReads(rows[0], Render(rows[1..]));
      ReadsBack(rows[1..]);
      assert [rows[0]] + rows[1..] == rows;
    }
  }
}
