/**
  The CSV parser of common/csv.ts and the printer of query/producer-export.ts, on UTF-16
  code units as JavaScript strings have them.
*/
module Csv {
  import opened Wrappers

  type Unit = c: nat | c < 0x10000
  type Text = seq<Unit>
  type Row = seq<Text>

  const QUOTE: Unit := 34
  const COMMA: Unit := 44
  const LF: Unit := 10
  const CR: Unit := 13
  const BOM: Unit := 0xFEFF

  /** A line the parser drops: no cell, or a single empty one. */
  predicate Blank(row: Row) {
    row == [] || row == [[]]
  }

  // ---------------------------------------------------------------- parser

  /** endRow: the finished row, unless it is blank. */
  function Emit(row: Row, field: Text): (rows: seq<Row>)
    ensures forall r :: r in rows ==> !Blank(r)
  {
    if Blank(row + [field]) then [] else [row + [field]]
  }

  /** The rows still to come from `rest`, given the unfinished field and row. */
  function Scan(rest: Text, field: Text, row: Row, inQuotes: bool): (rows: seq<Row>)
    ensures forall r :: r in rows ==> !Blank(r)
    decreases |rest|
  {
    if rest == [] then
      if field != [] || row != [] then Emit(row, field) else []
    else
      var c := rest[0];
      if inQuotes then
        if c == QUOTE then
          if |rest| > 1 && rest[1] == QUOTE then Scan(rest[2..], field + [QUOTE], row, true)
          else Scan(rest[1..], field, row, false)
        else Scan(rest[1..], field + [c], row, true)
      else if c == QUOTE && field == [] then Scan(rest[1..], field, row, true)
      else if c == COMMA then Scan(rest[1..], [], row + [field], false)
      else if c == CR then
        Emit(row, field) + Scan(if |rest| > 1 && rest[1] == LF then rest[2..] else rest[1..], [], [], false)
      else if c == LF then Emit(row, field) + Scan(rest[1..], [], [], false)
      else Scan(rest[1..], field + [c], row, false)
  }

  function WithoutBom(text: Text): Text {
    if text != [] && text[0] == BOM then text[1..] else text
  }

  function Parsed(text: Text): (rows: seq<Row>)
    ensures forall r :: r in rows ==> !Blank(r)
  {
    Scan(WithoutBom(text), [], [], false)
  }

  /** The loop's invariant: the rows so far and those still to come are all the rows. */
  ghost predicate Reading(all: seq<Row>, rows: seq<Row>, t: Text, i: nat, field: Text, row: Row, inQuotes: bool) {
    i <= |t| && rows + Scan(t[i..], field, row, inQuotes) == all
  }

  lemma QuotedStep(all: seq<Row>, rows: seq<Row>, t: Text, i: nat, field: Text, row: Row)
    requires i < |t| && Reading(all, rows, t, i, field, row, true)
    ensures if t[i] != QUOTE then Reading(all, rows, t, i + 1, field + [t[i]], row, true)
            else if i + 1 < |t| && t[i + 1] == QUOTE then Reading(all, rows, t, i + 2, field + [QUOTE], row, true)
            else Reading(all, rows, t, i + 1, field, row, false)
  {
    hide Emit;
    var rest := t[i..];
    assert rest[1..] == t[i + 1..] && (|rest| > 1 ==> rest[2..] == t[i + 2..]);
  }

  lemma PlainStep(all: seq<Row>, rows: seq<Row>, t: Text, i: nat, field: Text, row: Row)
    requires i < |t| && Reading(all, rows, t, i, field, row, false) && t[i] != CR && t[i] != LF
    ensures if t[i] == QUOTE && field == [] then Reading(all, rows, t, i + 1, field, row, true)
            else if t[i] == COMMA then Reading(all, rows, t, i + 1, [], row + [field], false)
            else Reading(all, rows, t, i + 1, field + [t[i]], row, false)
  {
    hide Emit;
    assert t[i..][1..] == t[i + 1..];
  }

  lemma BreakStep(all: seq<Row>, rows: seq<Row>, t: Text, i: nat, field: Text, row: Row)
    requires i < |t| && Reading(all, rows, t, i, field, row, false) && (t[i] == CR || t[i] == LF)
    ensures var next := if t[i] == CR && i + 1 < |t| && t[i + 1] == LF then i + 2 else i + 1;
            Reading(all, rows + Emit(row, field), t, next, [], [], false)
  {
    hide Emit;
    var rest := t[i..];
    assert rest[1..] == t[i + 1..] && (|rest| > 1 ==> rest[2..] == t[i + 2..]);
    var next := if t[i] == CR && i + 1 < |t| && t[i + 1] == LF then i + 2 else i + 1;
    assert Scan(rest, field, row, false) == Emit(row, field) + Scan(t[next..], [], [], false);
  }

  lemma EndStep(all: seq<Row>, rows: seq<Row>, t: Text, field: Text, row: Row, inQuotes: bool)
    requires Reading(all, rows, t, |t|, field, row, inQuotes)
    ensures all == if field != [] || row != [] then rows + Emit(row, field) else rows
  {
    hide Emit;
    assert t[|t|..] == [];
  }

  method ParseCsv(text: Text) returns (rows: seq<Row>)
    ensures rows == Parsed(text)
  {
    var t := if text != [] && text[0] == BOM then text[1..] else text;
    rows := [];
    var row: Row, field: Text, inQuotes, i := [], [], false, 0;
    ghost var all := Parsed(text);
    assert t[0..] == t == WithoutBom(text);
    hide Emit, Parsed, WithoutBom;
    assert Reading(all, rows, t, i, field, row, inQuotes);
    hide Reading, Scan;
    while i < |t|
      invariant i <= |t| && Reading(all, rows, t, i, field, row, inQuotes)
    {
      var c := t[i];
      if inQuotes {
        QuotedStep(all, rows, t, i, field, row);
        if c == QUOTE {
          if i + 1 < |t| && t[i + 1] == QUOTE {
            field := field + [QUOTE];
            i := i + 2;
            continue;
          }
          inQuotes := false;
          i := i + 1;
          continue;
        }
        field := field + [c];
        i := i + 1;
        continue;
      }
      if c == CR || c == LF {
        BreakStep(all, rows, t, i, field, row);
      } else {
        PlainStep(all, rows, t, i, field, row);
      }
      if c == QUOTE && field == [] {
        inQuotes := true;
        i := i + 1;
        continue;
      }
      if c == COMMA {
        row, field := row + [field], [];
        i := i + 1;
        continue;
      }
      if c == CR {
        if i + 1 < |t| && t[i + 1] == LF {
          i := i + 1;
        }
        rows := rows + Emit(row, field);
        row, field := [], [];
        i := i + 1;
        continue;
      }
      if c == LF {
        rows := rows + Emit(row, field);
        row, field := [], [];
        i := i + 1;
        continue;
      }
      field := field + [c];
      i := i + 1;
    }
    EndStep(all, rows, t, field, row, inQuotes);
    if field != [] || row != [] {
      rows := rows + Emit(row, field);
    }
  }

  // ---------------------------------------------------------------- printer

  /** A cell value; `Shown` carries what String(v) gives. */
  datatype Value = Null | Undefined | Shown(text: Text)

  function TextOf(v: Value): Text {
    if v.Shown? then v.text else []
  }

  predicate Special(c: Unit) {
    c == QUOTE || c == COMMA || c == LF || c == CR
  }

  predicate NeedsQuotes(s: Text) {
    exists i :: 0 <= i < |s| && Special(s[i])
  }

  function Escaped(s: Text): Text {
    if s == [] then [] else (if s[0] == QUOTE then [QUOTE, QUOTE] else [s[0]]) + Escaped(s[1..])
  }

  function CellText(s: Text): Text {
    if NeedsQuotes(s) then [QUOTE] + Escaped(s) + [QUOTE] else s
  }

  function Join(parts: seq<Text>, sep: Text): Text {
    if parts == [] then [] else if |parts| == 1 then parts[0] else parts[0] + sep + Join(parts[1..], sep)
  }

  function Cells(row: Row): seq<Text> {
    seq(|row|, i requires 0 <= i < |row| => CellText(row[i]))
  }

  function Line(row: Row): Text {
    Join(Cells(row), [COMMA])
  }

  function Texts(row: seq<Value>): Row {
    seq(|row|, i requires 0 <= i < |row| => TextOf(row[i]))
  }

  function Table(headers: Row, rows: seq<seq<Value>>): seq<Row> {
    [headers] + seq(|rows|, i requires 0 <= i < |rows| => Texts(rows[i]))
  }

  function Lines(rows: seq<Row>): seq<Text> {
    seq(|rows|, i requires 0 <= i < |rows| => Line(rows[i]))
  }

  function ToCsv(headers: Row, rows: seq<seq<Value>>): Text {
    [BOM] + Join(Lines(Table(headers, rows)), [CR, LF]) + [CR, LF]
  }

  // ---------------------------------------------------------------- round trip

  lemma {:induction false} ScanPlain(s: Text, rest: Text, field: Text, row: Row)
    requires !NeedsQuotes(s)
    ensures Scan(s + rest, field, row, false) == Scan(rest, field + s, row, false)
    decreases |s|
  {
    if s == [] {
      assert s + rest == rest && field + s == field;
    } else {
      assert !Special(s[0]);
      assert (s + rest)[1..] == s[1..] + rest;
      assert field + [s[0]] + s[1..] == field + s;
      ScanPlain(s[1..], rest, field + [s[0]], row);
    }
  }

  lemma {:induction false} ScanQuoted(s: Text, rest: Text, field: Text, row: Row)
    requires rest != [] && rest[0] != QUOTE
    ensures Scan(Escaped(s) + ([QUOTE] + rest), field, row, true) == Scan(rest, field + s, row, false)
    decreases |s|
  {
    var text := Escaped(s) + ([QUOTE] + rest);
    if s == [] {
      assert text == [QUOTE] + rest && text[1..] == rest && field + s == field;
    } else {
      var tail := Escaped(s[1..]) + ([QUOTE] + rest);
      assert field + [s[0]] + s[1..] == field + s;
      if s[0] == QUOTE {
        assert text == [QUOTE, QUOTE] + tail && text[2..] == tail;
      } else {
        assert text == [s[0]] + tail && text[1..] == tail;
      }
      ScanQuoted(s[1..], rest, field + [s[0]], row);
    }
  }

  /** A printed cell followed by a separator is read back whole. */
  lemma ScanCell(s: Text, rest: Text, row: Row)
    requires rest != [] && rest[0] != QUOTE
    ensures Scan(CellText(s) + rest, [], row, false) == Scan(rest, s, row, false)
  {
    hide NeedsQuotes, Escaped, Emit;
    assert [] + s == s;
    if NeedsQuotes(s) {
      var text := CellText(s) + rest;
      assert text[0] == QUOTE;
      assert text[1..] == Escaped(s) + ([QUOTE] + rest);
      ScanQuoted(s, rest, [], row);
    } else {
      ScanPlain(s, rest, [], row);
    }
  }

  function Kept(row: Row): seq<Row> {
    if Blank(row) then [] else [row]
  }

  lemma ScanBreak(field: Text, rest: Text, row: Row)
    ensures Scan([CR, LF] + rest, field, row, false) == Emit(row, field) + Scan(rest, [], [], false)
  {
    hide Emit;
    assert ([CR, LF] + rest)[2..] == rest;
  }

  lemma ScanComma(field: Text, rest: Text, row: Row)
    ensures Scan([COMMA] + rest, field, row, false) == Scan(rest, [], row + [field], false)
  {
    hide Emit;
    assert ([COMMA] + rest)[1..] == rest;
  }

  lemma LineOf(cells: Row)
    requires |cells| > 1
    ensures Line(cells) == CellText(cells[0]) + ([COMMA] + Line(cells[1..]))
  {
    hide CellText;
    assert Cells(cells)[1..] == Cells(cells[1..]);
  }

  /** A printed line is read back as its row, or dropped if the row is blank. */
  lemma {:induction false} ScanLine(cells: Row, rest: Text, row: Row)
    requires cells != [] || row == []
    ensures Scan(Line(cells) + ([CR, LF] + rest), [], row, false) == Kept(row + cells) + Scan(rest, [], [], false)
    decreases |cells|
  {
    hide CellText, Scan;
    var eol := [CR, LF] + rest;
    if cells == [] {
      assert Line(cells) + eol == eol;
      ScanBreak([], rest, row);
    } else if |cells| == 1 {
      ScanCell(cells[0], eol, row);
      ScanBreak(cells[0], rest, row);
      assert row + [cells[0]] == row + cells;
    } else {
      hide Line, Emit, Kept;
      var tail := Line(cells[1..]) + eol;
      LineOf(cells);
      assert Line(cells) + eol == CellText(cells[0]) + ([COMMA] + tail);
      ScanCell(cells[0], [COMMA] + tail, row);
      ScanComma(cells[0], tail, row);
      ScanLine(cells[1..], rest, row + [cells[0]]);
      assert row + [cells[0]] + cells[1..] == row + cells;
    }
  }

  /** The rows that survive printing and parsing. */
  function Keep(rows: seq<Row>): seq<Row> {
    if rows == [] then [] else Kept(rows[0]) + Keep(rows[1..])
  }

  lemma {:induction false} ScanLines(rows: seq<Row>)
    requires rows != []
    ensures Scan(Join(Lines(rows), [CR, LF]) + [CR, LF], [], [], false) == Keep(rows)
    decreases |rows|
  {
    var eol: Text := [CR, LF];
    if |rows| == 1 {
      ScanLine(rows[0], [], []);
      assert eol + [] == eol && [] + rows[0] == rows[0];
    } else {
      assert Lines(rows)[1..] == Lines(rows[1..]);
      var rest := Join(Lines(rows[1..]), eol) + eol;
      assert Join(Lines(rows), eol) + eol == Line(rows[0]) + (eol + rest);
      ScanLine(rows[0], rest, []);
      assert [] + rows[0] == rows[0];
      ScanLines(rows[1..]);
    }
  }

  /** Printing any table and parsing it gives its rows back, except for the blank ones. */
  lemma PrintParse(headers: Row, rows: seq<seq<Value>>)
    ensures Parsed(ToCsv(headers, rows)) == Keep(Table(headers, rows))
  {
    var text := ToCsv(headers, rows);
    assert text[1..] == Join(Lines(Table(headers, rows)), [CR, LF]) + [CR, LF];
    ScanLines(Table(headers, rows));
  }

  lemma {:induction false} KeepAll(rows: seq<Row>)
    ensures |Keep(rows)| <= |rows|
    ensures Keep(rows) == rows <==> forall r :: r in rows ==> !Blank(r)
    decreases |rows|
  {
    if rows != [] {
      KeepAll(rows[1..]);
      assert forall r :: r in rows <==> r == rows[0] || r in rows[1..];
      if !Blank(rows[0]) {
        assert Keep(rows)[1..] == Keep(rows[1..]);
        assert rows == [rows[0]] + rows[1..];
      } else {
        assert |Keep(rows)| < |rows|;
      }
    }
  }

  /** So the round trip is exact precisely on the tables without a blank row. */
  lemma RoundTripExact(headers: Row, rows: seq<seq<Value>>)
    ensures Parsed(ToCsv(headers, rows)) == Table(headers, rows) <==>
            forall r :: r in Table(headers, rows) ==> !Blank(r)
  {
    PrintParse(headers, rows);
    KeepAll(Table(headers, rows));
  }

  /** A header "a" over a single null cell: the row does not come back. */
  lemma BlankRowIsLost()
    ensures Table([[97]], [[Null]]) == [[[97]], [[]]] && Parsed(ToCsv([[97]], [[Null]])) == [[[97]]]
  {
    var table: seq<Row> := Table([[97]], [[Null]]);
    var tail := table[1..];
    var nulls: seq<Value> := [Null];
    var empty: Text := [];
    assert Texts(nulls) == [empty];
    assert table == [[[97]], Texts(nulls)];
    PrintParse([[97]], [[Null]]);
    assert |tail| == 1 && Blank(tail[0]) && Keep(tail) == Kept(tail[0]) + Keep(tail[1..]);
  }

  function Values(rows: seq<Row>): seq<seq<Value>> {
    seq(|rows|, i requires 0 <= i < |rows| => seq(|rows[i]|, k requires 0 <= k < |rows[i]| => Shown(rows[i][k])))
  }

  /** Whatever the parser made of a text, printing it and parsing again returns it unchanged. */
  lemma ParsePrintParse(text: Text)
    requires Parsed(text) != []
    ensures Parsed(ToCsv(Parsed(text)[0], Values(Parsed(text)[1..]))) == Parsed(text)
  {
    var rows := Parsed(text);
    var table := Table(rows[0], Values(rows[1..]));
    forall i | 0 <= i < |rows| ensures table[i] == rows[i] {
      if i > 0 { assert Texts(Values(rows[1..])[i - 1]) == rows[i]; }
    }
    assert table == rows;
    RoundTripExact(rows[0], Values(rows[1..]));
  }

  // ---------------------------------------------------------------- what is printed

  lemma {:induction false} EscapedConcat(a: Text, b: Text)
    ensures Escaped(a + b) == Escaped(a) + Escaped(b)
    decreases |a|
  {
    if a == [] {
      assert a + b == b;
    } else {
      assert (a + b)[1..] == a[1..] + b;
      EscapedConcat(a[1..], b);
    }
  }

  /** A cell is printed as it is unless it has a quote, a comma or a line break; then between quotes, its own
      doubled. */
  lemma CellTextExactly(s: Text, a: Text, b: Text, c: Unit)
    ensures (forall u :: u in s ==> u != 34 && u != 44 && u != 10 && u != 13) ==> CellText(s) == s
    ensures (exists u :: u in s && (u == 34 || u == 44 || u == 10 || u == 13)) ==>
              CellText(s) == [34] + Escaped(s) + [34]
    ensures Escaped([]) == [] && Escaped([c]) == (if c == 34 then [34, 34] else [c])
    ensures Escaped(a + b) == Escaped(a) + Escaped(b)
  {
    EscapedConcat(a, b);
    if NeedsQuotes(s) {
      var i :| 0 <= i < |s| && Special(s[i]);
      assert s[i] in s;
    }
    if u :| u in s && (u == 34 || u == 44 || u == 10 || u == 13) {
      var i :| 0 <= i < |s| && s[i] == u;
      assert Special(s[i]);
    }
    assert Escaped([c][1..]) == [];
  }

  /** A line is its cells with commas between them. */
  lemma LineExactly(c: Text, cells: Row)
    ensures Line([]) == [] && Line([c]) == CellText(c)
    ensures cells != [] ==> Line([c] + cells) == CellText(c) + [44] + Line(cells)
  {
    hide CellText;
    assert Cells([]) == [] && Cells([c]) == [CellText(c)];
    if cells != [] {
      LineOf([c] + cells);
      assert ([c] + cells)[1..] == cells;
    }
  }

  lemma {:induction false} JoinLast(parts: seq<Text>, last: Text, sep: Text)
    requires parts != []
    ensures Join(parts + [last], sep) == Join(parts, sep) + sep + last
    decreases |parts|
  {
    if |parts| == 1 {
      assert (parts + [last])[1..] == [last];
    } else {
      assert (parts + [last])[1..] == parts[1..] + [last];
      JoinLast(parts[1..], last, sep);
    }
  }

  /** A printed table is a byte order mark, the header's line and one line for each row, each ended by CR and LF; a null
      or undefined value is an empty cell. */
  lemma ToCsvExactly(headers: Row, rows: seq<seq<Value>>, row: seq<Value>)
    ensures ToCsv(headers, []) == [0xFEFF] + Line(headers) + [13, 10]
    ensures ToCsv(headers, rows + [row]) == ToCsv(headers, rows) + Line(Texts(row)) + [13, 10]
    ensures |Texts(row)| == |row| &&
            forall i :: 0 <= i < |row| ==>
              Texts(row)[i] == match row[i] case Null => [] case Undefined => [] case Shown(t) => t
  {
    hide Line;
    var lines := Lines(Table(headers, rows));
    assert Lines(Table(headers, [])) == [Line(headers)];
    assert Lines(Table(headers, rows + [row])) == lines + [Line(Texts(row))];
    JoinLast(lines, Line(Texts(row)), [CR, LF]);
  }

  // ---------------------------------------------------------------- any file

  /** How a cell may be written: bare, between quotes with something after the closing one, or with its closing quote
      missing at the end of the file. */
  datatype Form = Plain(text: Text) | Quoted(inside: Text, tail: Text) | Unclosed(inside: Text)

  datatype Break = Lf | Cr | CrLf

  predicate NoSeparator(s: Text) {
    forall i :: 0 <= i < |s| ==> s[i] != COMMA && s[i] != LF && s[i] != CR
  }

  predicate Closed(f: Form) {
    match f
    case Plain(s) => NoSeparator(s) && (s == [] || s[0] != QUOTE)
    case Quoted(_, tail) => NoSeparator(tail) && (tail == [] || tail[0] != QUOTE)
    case Unclosed(_) => false
  }

  function FormText(f: Form): Text {
    match f
    case Plain(s) => s
    case Quoted(s, tail) => [QUOTE] + Escaped(s) + [QUOTE] + tail
    case Unclosed(s) => [QUOTE] + Escaped(s)
  }

  function FormValue(f: Form): Text {
    match f
    case Plain(s) => s
    case Quoted(s, tail) => s + tail
    case Unclosed(s) => s
  }

  function BreakText(b: Break): Text {
    match b
    case Lf => [10]
    case Cr => [13]
    case CrLf => [13, 10]
  }

  function RowText(cells: seq<Form>): Text {
    if cells == [] then [] else if |cells| == 1 then FormText(cells[0])
    else FormText(cells[0]) + [COMMA] + RowText(cells[1..])
  }

  function RowValues(cells: seq<Form>): Row {
    seq(|cells|, i requires 0 <= i < |cells| => FormValue(cells[i]))
  }

  /** Lines with their breaks, and a last line without one. */
  datatype File = File(lines: seq<(seq<Form>, Break)>, last: seq<Form>)

  function FileText(f: File): Text
    decreases |f.lines|
  {
    if f.lines == [] then RowText(f.last)
    else RowText(f.lines[0].0) + BreakText(f.lines[0].1) + FileText(File(f.lines[1..], f.last))
  }

  function FileRows(f: File): seq<Row>
    decreases |f.lines|
  {
    if f.lines == [] then [RowValues(f.last)] else [RowValues(f.lines[0].0)] + FileRows(File(f.lines[1..], f.last))
  }

  predicate ClosedRow(cells: seq<Form>) {
    cells != [] && forall k :: 0 <= k < |cells| ==> Closed(cells[k])
  }

  predicate WellFormed(f: File) {
    && (forall i :: 0 <= i < |f.lines| ==> ClosedRow(f.lines[i].0))
    && f.last != []
    && (forall k :: 0 <= k < |f.last| ==> Closed(f.last[k]) || (k == |f.last| - 1 && f.last[k].Unclosed?))
  }

  lemma {:induction false} ScanBare(s: Text, rest: Text, field: Text, row: Row)
    requires NoSeparator(s) && (field != [] || s == [] || s[0] != QUOTE)
    ensures Scan(s + rest, field, row, false) == Scan(rest, field + s, row, false)
    decreases |s|
  {
    if s == [] {
      assert s + rest == rest && field + s == field;
    } else {
      hide Emit;
      assert (s + rest)[1..] == s[1..] + rest;
      assert field + [s[0]] + s[1..] == field + s;
      ScanBare(s[1..], rest, field + [s[0]], row);
    }
  }

  lemma {:induction false} ScanInside(s: Text, rest: Text, field: Text, row: Row)
    requires rest == [] || (rest[0] == QUOTE && (|rest| == 1 || rest[1] != QUOTE))
    ensures Scan(Escaped(s) + rest, field, row, true) == Scan(rest, field + s, row, true)
    decreases |s|
  {
    var text := Escaped(s) + rest;
    if s == [] {
      assert text == rest && field + s == field;
    } else {
      hide Emit;
      var tail := Escaped(s[1..]) + rest;
      assert field + [s[0]] + s[1..] == field + s;
      if s[0] == QUOTE {
        assert text == [QUOTE, QUOTE] + tail && text[2..] == tail;
      } else {
        assert text == [s[0]] + tail && text[1..] == tail;
      }
      ScanInside(s[1..], rest, field + [s[0]], row);
    }
  }

  /** A closed cell before a separator or the end of the file is read as its value. */
  lemma ScanClosed(f: Form, rest: Text, row: Row)
    requires Closed(f) && (rest == [] || rest[0] == COMMA || rest[0] == LF || rest[0] == CR)
    ensures Scan(FormText(f) + rest, [], row, false) == Scan(rest, FormValue(f), row, false)
  {
    if f.Plain? {
      ScanBare(f.text, rest, [], row);
      assert [] + f.text == f.text;
    } else {
      hide Scan;
      QuotedText(f.inside, f.tail, rest);
      ScanQuotedForm(f.inside, f.tail, rest, row);
    }
  }

  lemma QuotedText(s: Text, tail: Text, rest: Text)
    ensures FormText(Quoted(s, tail)) + rest == [QUOTE] + (Escaped(s) + ([QUOTE] + (tail + rest)))
  {
    var inside, quote: Text := Escaped(s), [QUOTE];
    hide Escaped;
    Regroup(quote, inside, quote, tail, rest);
  }

  lemma Regroup(a: Text, b: Text, c: Text, d: Text, e: Text)
    ensures a + b + c + d + e == a + (b + (c + (d + e)))
  {
    assert c + d + e == c + (d + e);
    assert a + b + c + d + e == a + b + (c + d + e);
  }

  lemma ScanQuotedForm(s: Text, tail: Text, rest: Text, row: Row)
    requires Closed(Quoted(s, tail)) && (rest == [] || rest[0] == COMMA || rest[0] == LF || rest[0] == CR)
    ensures Scan([QUOTE] + (Escaped(s) + ([QUOTE] + (tail + rest))), [], row, false) == Scan(rest, s + tail, row, false)
  {
    hide Scan, Escaped;
    var after := [QUOTE] + (tail + rest);
    OpenQuote(Escaped(s) + after, row);
    ScanInside(s, after, [], row);
    assert [] + s == s;
    CloseQuote(tail + rest, s, row);
    ScanTail(tail, rest, s, row);
  }

  lemma OpenQuote(rest: Text, row: Row)
    ensures Scan([QUOTE] + rest, [], row, false) == Scan(rest, [], row, true)
  {
    assert ([QUOTE] + rest)[1..] == rest;
  }

  lemma CloseQuote(rest: Text, field: Text, row: Row)
    requires rest == [] || rest[0] != QUOTE
    ensures Scan([QUOTE] + rest, field, row, true) == Scan(rest, field, row, false)
  {
    assert ([QUOTE] + rest)[1..] == rest;
  }

  lemma ScanTail(tail: Text, rest: Text, field: Text, row: Row)
    requires NoSeparator(tail) && (tail == [] || tail[0] != QUOTE)
    ensures Scan(tail + rest, field, row, false) == Scan(rest, field + tail, row, false)
  {
    ScanBare(tail, rest, field, row);
  }

  lemma ScanUnclosed(s: Text, row: Row)
    ensures Scan([QUOTE] + Escaped(s), [], row, false) == Kept(row + [s])
  {
    OpenQuote(Escaped(s), row);
    assert Escaped(s) + [] == Escaped(s) && [] + s == s;
    ScanInside(s, [], [], row);
  }

  lemma ScanEnd(field: Text, row: Row)
    ensures Scan([], field, row, false) == Kept(row + [field])
  {
  }

  /** Any break ends the row: CR, LF, or both. A CR before an LF that ends an empty line is the same as a CR LF. */
  lemma ScanAnyBreak(b: Break, rest: Text, field: Text, row: Row)
    ensures Scan(BreakText(b) + rest, field, row, false) == Kept(row + [field]) + Scan(rest, [], [], false)
  {
    var text := BreakText(b) + rest;
    match b {
      case CrLf => ScanBreak(field, rest, row);
      case Lf => assert text[1..] == rest;
      case Cr =>
        assert text[1..] == rest;
        if rest != [] && rest[0] == LF {
          assert text[2..] == rest[1..];
          assert Scan(rest, [], [], false) == Emit([], []) + Scan(rest[1..], [], [], false);
        }
    }
  }

  lemma RowValuesSplit(cells: seq<Form>)
    requires |cells| > 1
    ensures RowValues(cells) == [FormValue(cells[0])] + RowValues(cells[1..])
  {
  }

  lemma {:induction false} ScanRow(cells: seq<Form>, b: Break, rest: Text, row: Row)
    requires ClosedRow(cells)
    ensures Scan(RowText(cells) + (BreakText(b) + rest), [], row, false)
            == Kept(row + RowValues(cells)) + Scan(rest, [], [], false)
    decreases |cells|
  {
    hide Scan, Kept, FormText, FormValue, Closed;
    var eol := BreakText(b) + rest;
    if |cells| == 1 {
      ScanClosed(cells[0], eol, row);
      ScanAnyBreak(b, rest, FormValue(cells[0]), row);
      assert RowValues(cells) == [FormValue(cells[0])];
    } else {
      var tail := RowText(cells[1..]) + eol;
      assert RowText(cells) + eol == FormText(cells[0]) + ([COMMA] + tail);
      ScanClosed(cells[0], [COMMA] + tail, row);
      hide RowText, RowValues, BreakText;
      ScanComma(FormValue(cells[0]), tail, row);
      ScanRow(cells[1..], b, rest, row + [FormValue(cells[0])]);
      RowValuesSplit(cells);
      assert row + [FormValue(cells[0])] + RowValues(cells[1..]) == row + RowValues(cells);
    }
  }

  lemma {:induction false} ScanLastRow(cells: seq<Form>, row: Row)
    requires cells != []
    requires forall k :: 0 <= k < |cells| ==> Closed(cells[k]) || (k == |cells| - 1 && cells[k].Unclosed?)
    ensures Scan(RowText(cells), [], row, false) == Kept(row + RowValues(cells))
    decreases |cells|
  {
    hide Scan, Kept;
    if |cells| == 1 {
      assert RowValues(cells) == [FormValue(cells[0])];
      if cells[0].Unclosed? {
        ScanUnclosed(cells[0].inside, row);
      } else {
        assert FormText(cells[0]) + [] == FormText(cells[0]);
        ScanClosed(cells[0], [], row);
        ScanEnd(FormValue(cells[0]), row);
      }
    } else {
      var tail := RowText(cells[1..]);
      assert RowText(cells) == FormText(cells[0]) + ([COMMA] + tail);
      ScanClosed(cells[0], [COMMA] + tail, row);
      ScanComma(FormValue(cells[0]), tail, row);
      ScanLastRow(cells[1..], row + [FormValue(cells[0])]);
      RowValuesSplit(cells);
      assert row + [FormValue(cells[0])] + RowValues(cells[1..]) == row + RowValues(cells);
    }
  }

  lemma {:induction false} ScanFile(f: File)
    requires WellFormed(f)
    ensures Scan(FileText(f), [], [], false) == Keep(FileRows(f))
    decreases |f.lines|
  {
    hide Scan, Kept;
    if f.lines == [] {
      ScanLastRow(f.last, []);
      assert [] + RowValues(f.last) == RowValues(f.last);
      assert FileRows(f)[1..] == [] && Kept(RowValues(f.last)) + [] == Kept(RowValues(f.last));
    } else {
      var (cells, b) := f.lines[0];
      var g := File(f.lines[1..], f.last);
      assert FileText(f) == RowText(cells) + (BreakText(b) + FileText(g));
      ScanRow(cells, b, FileText(g), []);
      assert [] + RowValues(cells) == RowValues(cells);
      ScanFile(g);
      assert FileRows(f)[1..] == FileRows(g);
    }
  }

  /** Any file of quoted and bare cells, with any line breaks, is read as its rows without the blank ones, with or
      without a byte order mark before it. */
  lemma ParseExactly(f: File)
    requires WellFormed(f)
    ensures Parsed([0xFEFF] + FileText(f)) == Keep(FileRows(f))
    ensures FileText(f) == [] || FileText(f)[0] != 0xFEFF ==> Parsed(FileText(f)) == Keep(FileRows(f))
  {
    ScanFile(f);
    assert ([BOM] + FileText(f))[1..] == FileText(f);
  }

  /** A byte order mark makes no difference, and nothing else is taken off the text. */
  lemma BomMakesNoDifference(text: Text)
    requires text == [] || text[0] != 0xFEFF
    ensures Parsed([0xFEFF] + text) == Parsed(text) == Scan(text, [], [], false)
  {
    assert ([BOM] + text)[1..] == text;
  }

  /** What toCsv prints, without its byte order mark, is read back just the same. */
  lemma RoundTripWithoutBom(headers: Row, rows: seq<seq<Value>>)
    requires var text := ToCsv(headers, rows)[1..]; text[0] != 0xFEFF
    ensures Parsed(ToCsv(headers, rows)[1..]) == Keep(Table(headers, rows))
  {
    var text := ToCsv(headers, rows)[1..];
    PrintParse(headers, rows);
    BomMakesNoDifference(text);
    assert [BOM] + text == ToCsv(headers, rows);
  }

  // ---------------------------------------------------------------- rows to objects

  function HeaderOf(rows: seq<Row>, norm: Text -> Text): Row {
    if rows == [] then [] else seq(|rows[0]|, i requires 0 <= i < |rows[0]| => norm(rows[0][i]))
  }

  /** The header names are the first row's cells, each normalised; without rows there are none. */
  lemma HeaderExactly(rows: seq<Row>, norm: Text -> Text, col: Text)
    ensures |HeaderOf(rows, norm)| == (if rows == [] then 0 else |rows[0]|)
    ensures forall i :: 0 <= i < |HeaderOf(rows, norm)| ==> HeaderOf(rows, norm)[i] == norm(rows[0][i])
    ensures col in HeaderOf(rows, norm) <==> rows != [] && exists i :: 0 <= i < |rows[0]| && norm(rows[0][i]) == col
  {
    if col in HeaderOf(rows, norm) {
      var i :| 0 <= i < |HeaderOf(rows, norm)| && HeaderOf(rows, norm)[i] == col;
      assert norm(rows[0][i]) == col;
    }
    if rows != [] && exists i :: 0 <= i < |rows[0]| && norm(rows[0][i]) == col {
      var i :| 0 <= i < |rows[0]| && norm(rows[0][i]) == col;
      assert HeaderOf(rows, norm)[i] == col;
    }
  }

  function CellAt(cells: Row, i: nat): Text {
    if i < |cells| then cells[i] else []
  }

  /** One key per header name; a repeated name takes its last column. */
  ghost predicate IsObjectOf(obj: map<Text, Text>, header: Row, cells: Row, trim: Text -> Text) {
    && (forall h :: h in obj <==> h in header)
    && (forall i :: 0 <= i < |header| && header[i] !in header[i + 1..] ==>
          header[i] in obj && obj[header[i]] == trim(if i < |cells| then cells[i] else []))
  }

  /** A column is the last of its name among the first i + 1: so it was among the first i, or it is column i. */
  lemma LastColumn(header: Row, i: nat, k: nat)
    requires i < |header| && k <= i
    ensures header[..i + 1][k] !in header[..i + 1][k + 1..] <==>
          k == i
          || (header[k] !in header[..i][k + 1..] && header[k] != header[i])
  {
    if k < i { assert header[..i + 1][k + 1..] == header[..i][k + 1..] + [header[i]]; }
  }

  method CellsToObject(header: Row, cells: Row, trim: Text -> Text) returns (obj: map<Text, Text>)
    ensures IsObjectOf(obj, header, cells, trim)
  {
    obj := map[];
    for i := 0 to |header|
      invariant IsObjectOf(obj, header[..i], cells, trim)
    {
      obj := obj[header[i] := trim(CellAt(cells, i))];
      assert header[..i + 1] == header[..i] + [header[i]];
      forall k: nat | k <= i { LastColumn(header, i, k); }
    }
    assert header[..|header|] == header;
  }

  /** None: a required column is missing. `norm` is trim, lower case and NFC; `trim` is String.trim. */
  method CsvRowsToObjects(rows: seq<Row>, required: seq<Text>, norm: Text -> Text, trim: Text -> Text)
    returns (res: Option<(Row, seq<map<Text, Text>>)>)
    ensures res.None? <==> exists col :: col in required && col !in HeaderOf(rows, norm)
    ensures res.Some? ==>
              var (header, objects) := res.value;
              && header == HeaderOf(rows, norm)
              && |objects| == (if rows == [] then 0 else |rows| - 1)
              && forall i :: 0 <= i < |objects| ==> IsObjectOf(objects[i], header, rows[i + 1], trim)
  {
    hide IsObjectOf;
    var header := HeaderOf(rows, norm);
    for c := 0 to |required|
      invariant forall k :: 0 <= k < c ==> required[k] in header
    {
      if required[c] !in header {
        return None;
      }
    }
    var objects := [];
    if rows != [] {
      for r := 1 to |rows|
        invariant |objects| == r - 1
        invariant forall i :: 0 <= i < |objects| ==> IsObjectOf(objects[i], header, rows[i + 1], trim)
      {
        var obj := CellsToObject(header, rows[r], trim);
        objects := objects + [obj];
      }
    }
    return Some((header, objects));
  }
}
