/**
 dashboard/server.ts: `csvEscape` and `toCsv`, read back by the grammar in section 2 of RFC 4180.
 */
module Csv {
  import opened Strings
  import opened Wrappers

  /** A cell: null or undefined, or any other value as `String(value)` shows it. */
  datatype Value = Missing | Text(text: string)

  function Shown(value: Value): string { if value.Missing? then "" else value.text }

  function Cells(row: seq<Value>): seq<string> { seq(|row|, i requires 0 <= i < |row| => Shown(row[i])) }

  // ---------- writing ----------

  predicate Special(c: char) { c in {'"', ',', '\r', '\n'} }

  /** Every quotation mark written twice. */
  function DoubleQuotes(s: string): string {
    if s == "" then "" else (if s[0] == '"' then "\"\"" else s[..1]) + DoubleQuotes(s[1..])
  }

  function CsvEscape(value: Value): string {
    var str := Shown(value);
    if exists i :: 0 <= i < |str| && Special(str[i]) then "\"" + DoubleQuotes(str) + "\"" else str
  }

  function Line(row: seq<Value>): string {
    Join(seq(|row|, i requires 0 <= i < |row| => CsvEscape(row[i])), ",")
  }

  const CRLF := "\r\n"

  // ---------- reading: section 2 of RFC 4180, every record ended by CRLF ----------

  /** escaped = DQUOTE *(TEXTDATA / COMMA / CR / LF / 2DQUOTE) DQUOTE, after the opening quote. */
  function ReadEscaped(s: string): (r: Reading<string>)
    ensures r.Read? ==> |r.rest| < |s|
  {
    if s == "" then Malformed
    else if s[0] != '"' then
      var r := ReadEscaped(s[1..]);
      if r.Read? then Read(s[..1] + r.value, r.rest) else Malformed
    else if |s| >= 2 && s[1] == '"' then
      var r := ReadEscaped(s[2..]);
      if r.Read? then Read("\"" + r.value, r.rest) else Malformed
    else Read("", s[1..])
  }

  /** non-escaped = *TEXTDATA, where TEXTDATA is any character that is not special. */
  function ReadPlain(s: string): (r: Reading<string>)
    ensures r.Read? && |r.rest| <= |s|
  {
    if s == "" || Special(s[0]) then Read("", s)
    else
      var r := ReadPlain(s[1..]);
      Read(s[..1] + r.value, r.rest)
  }

  /** field = escaped / non-escaped */
  function ReadField(s: string): (r: Reading<string>)
    ensures r.Read? ==> |r.rest| <= |s|
  {
    if s != "" && s[0] == '"' then ReadEscaped(s[1..]) else ReadPlain(s)
  }

  /** record = field *(COMMA field), then CRLF. */
  function ReadRecord(s: string): (r: Reading<seq<string>>)
    ensures r.Read? ==> |r.rest| < |s|
    decreases |s|
  {
    var field := ReadField(s);
    if field.Malformed? then Malformed
    else if |field.rest| >= 1 && field.rest[0] == ',' then
      var others := ReadRecord(field.rest[1..]);
      if others.Read? then Read([field.value] + others.value, others.rest) else Malformed
    else if |field.rest| >= 2 && field.rest[..2] == CRLF then Read([field.value], field.rest[2..])
    else Malformed
  }

  function ReadTable(s: string): Option<seq<seq<string>>>
    decreases |s|
  {
    if s == "" then Some([])
    else
      var record := ReadRecord(s);
      if record.Malformed? then None
      else
        var others := ReadTable(record.rest);
        if others.Some? then Some([record.value] + others.value) else None
  }

  // ---------- one field ----------

  lemma ReadEscapedStep(unit: string, c: char, tail: string)
    requires if c == '"' then unit == "\"\"" else unit == [c]
    ensures ReadEscaped(unit + tail)
            == if ReadEscaped(tail).Read? then Read([c] + ReadEscaped(tail).value, ReadEscaped(tail).rest)
                else Malformed
  {
    var text := unit + tail;
    assert text[|unit|..] == tail;
    assert c != '"' ==> text[..1] == [c];
  }

  lemma {:induction false} EscapedReadsBack(s: string, rest: string)
    requires rest != "" && rest[0] != '"'
    ensures ReadEscaped(DoubleQuotes(s) + "\"" + rest) == Read(s, rest)
  {
    if s == "" {
      assert DoubleQuotes(s) + "\"" + rest == "\"" + rest;
    } else {
      hide ReadEscaped;
      var unit := if s[0] == '"' then "\"\"" else s[..1];
      var tail := DoubleQuotes(s[1..]) + "\"" + rest;
      EscapedReadsBack(s[1..], rest);
      ReadEscapedStep(unit, s[0], tail);
      assert DoubleQuotes(s) + "\"" + rest == unit + tail;
      assert s == [s[0]] + s[1..];
    }
  }

  lemma {:induction false} PlainReadsBack(s: string, rest: string)
    requires forall i :: 0 <= i < |s| ==> !Special(s[i])
    requires rest != "" && Special(rest[0])
    ensures ReadPlain(s + rest) == Read(s, rest)
  {
    if s == "" {
      assert s + rest == rest;
    } else {
      PlainReadsBack(s[1..], rest);
      assert (s + rest)[1..] == s[1..] + rest && (s + rest)[..1] == s[..1];
      assert s == s[..1] + s[1..];
    }
  }

  /** Where a field may end. */
  predicate EndsField(rest: string) { rest != "" && (rest[0] == ',' || rest[0] == '\r') }

  lemma FieldReadsBack(value: Value, rest: string)
    requires EndsField(rest)
    ensures ReadField(CsvEscape(value) + rest)
            == Read(match value case Missing => "" case Text(text) => text, rest)
  {
    hide ReadEscaped, ReadPlain, DoubleQuotes;
    var str := Shown(value);
    if exists i :: 0 <= i < |str| && Special(str[i]) {
      EscapedReadsBack(str, rest);
      var text := "\"" + DoubleQuotes(str) + "\"" + rest;
      assert text[1..] == DoubleQuotes(str) + "\"" + rest;
    } else {
      PlainReadsBack(str, rest);
      assert (str + rest)[0] != '"';
    }
  }

  // ---------- one record ----------

  lemma LineFront(row: seq<Value>)
    requires |row| >= 2
    ensures Line(row) == CsvEscape(row[0]) + "," + Line(row[1..])
  {
    var parts := seq(|row|, i requires 0 <= i < |row| => CsvEscape(row[i]));
    JoinFront(parts, ",");
    assert parts[1..] == seq(|row| - 1, i requires 0 <= i < |row| - 1 => CsvEscape(row[1..][i]));
  }

  /** The cells a written row reads back as: a row without cells is indistinguishable from a row
      with one empty cell. */
  function ReadAs(row: seq<Value>): seq<string> { if row == [] then [""] else Cells(row) }

  lemma {:induction false} RecordReadsBack(row: seq<Value>, rest: string)
    ensures ReadRecord(Line(row) + CRLF + rest) == Read(ReadAs(row), rest)
    decreases |row|
  {
    hide ReadField, CsvEscape;
    var text := Line(row) + CRLF + rest;
    if |row| >= 2 {
      var tail := "," + Line(row[1..]) + CRLF + rest;
      LineFront(row);
      assert text == CsvEscape(row[0]) + tail;
      FieldReadsBack(row[0], tail);
      assert tail[1..] == Line(row[1..]) + CRLF + rest;
      RecordReadsBack(row[1..], rest);
      assert [Shown(row[0])] + Cells(row[1..]) == Cells(row);
    } else {
      var only := if row == [] then Missing else row[0];
      var tail := CRLF + rest;
      SingleCell(row, only);
      assert text == CsvEscape(only) + tail;
      FieldReadsBack(only, tail);
      assert tail[..2] == CRLF && tail[2..] == rest;
    }
  }

  lemma SingleCell(row: seq<Value>, only: Value)
    requires row == [only] || (row == [] && only == Missing)
    ensures Line(row) == CsvEscape(only) && ReadAs(row) == [Shown(only)]
  {
  }

  // ---------- the table ----------

  /** The rows' lines, each ended by CRLF. */
  function Terminated(rows: seq<seq<Value>>): string {
    if rows == [] then "" else Terminated(rows[..|rows| - 1]) + Line(rows[|rows| - 1]) + CRLF
  }

  function ReadAsAll(rows: seq<seq<Value>>): (records: seq<seq<string>>)
    ensures |records| == |rows| && forall i :: 0 <= i < |rows| ==> records[i] == ReadAs(rows[i])
  {
    seq(|rows|, i requires 0 <= i < |rows| => ReadAs(rows[i]))
  }

  lemma Regroup(a: string, b: string, c: string, d: string, e: string)
    ensures ((a + b + c) + d) + e == a + b + (c + d + e)
  {
  }

  lemma {:induction false} TerminatedFront(rows: seq<seq<Value>>)
    requires rows != []
    ensures Terminated(rows) == Line(rows[0]) + CRLF + Terminated(rows[1..])
  {
    hide Line;
    var n := |rows| - 1;
    if n > 0 {
      TerminatedFront(rows[..n]);
      assert rows[..n][1..] == rows[1..][..n - 1];
      Regroup(Line(rows[0]), CRLF, Terminated(rows[..n][1..]), Line(rows[n]), CRLF);
    } else {
      assert Terminated(rows[..0]) == "" && Terminated(rows[1..]) == "";
      assert "" + Line(rows[0]) + CRLF == Line(rows[0]) + CRLF + "";
    }
  }

  lemma {:induction false} TableReadsBack(rows: seq<seq<Value>>)
    ensures ReadTable(Terminated(rows)) == Some(ReadAsAll(rows))
  {
    if rows == [] {
      assert Terminated(rows) == "" && ReadAsAll(rows) == [];
    } else {
      hide ReadRecord, Line, ReadAs, Terminated, ReadTable;
      TerminatedFront(rows);
      RecordReadsBack(rows[0], Terminated(rows[1..]));
      TableReadsBack(rows[1..]);
      assert [ReadAs(rows[0])] + ReadAsAll(rows[1..]) == ReadAsAll(rows);
    }
  }

  function HeaderRow(headers: seq<string>): seq<Value> {
    seq(|headers|, i requires 0 <= i < |headers| => Text(headers[i]))
  }

  /** The texts the caller passed, row by row. */
  function CellsOf(headers: seq<string>, rows: seq<seq<Value>>): seq<seq<string>> {
    [headers] + seq(|rows|, i requires 0 <= i < |rows| => Cells(rows[i]))
  }

  lemma ReadAsCells(headers: seq<string>, rows: seq<seq<Value>>)
    ensures ReadAsAll([HeaderRow(headers)] + rows) == CellsOf(headers, rows)
            <==> headers != [] && forall i :: 0 <= i < |rows| ==> rows[i] != []
  {
    var all, cells := [HeaderRow(headers)] + rows, CellsOf(headers, rows);
    assert Cells(all[0]) == headers && |all| == |cells|;
    forall i | 0 <= i < |all| ensures ReadAsAll(all)[i] == cells[i] <==> all[i] != [] {
      assert i > 0 ==> all[i] == rows[i - 1];
    }
    hide ReadAs, Cells, ReadAsAll, CellsOf;
    if headers != [] && forall i :: 0 <= i < |rows| ==> rows[i] != [] {
      assert forall i :: 0 < i < |all| ==> all[i] == rows[i - 1];
      assert ReadAsAll(all) == cells;
    } else if headers == [] {
      assert ReadAsAll(all)[0] != cells[0];
    } else {
      var i :| 0 <= i < |rows| && rows[i] == [];
      assert all[i + 1] == rows[i];
      assert ReadAsAll(all)[i + 1] != cells[i + 1];
    }
  }

  /** The text written is read back as the headers followed by the rows, cell for cell, exactly
      when no row is without cells; with such rows they come back as one empty cell. */
  method ToCsv(headers: seq<string>, rows: seq<seq<Value>>) returns (csv: string)
    ensures ReadTable(csv) == Some(ReadAsAll([HeaderRow(headers)] + rows))
    ensures ReadTable(csv) == Some(CellsOf(headers, rows))
            <==> headers != [] && forall i :: 0 <= i < |rows| ==> rows[i] != []
    ensures csv == Terminated([HeaderRow(headers)] + rows)
  {
    hide ReadTable, Line;
    ghost var all := [HeaderRow(headers)] + rows;
    var lines := [Line(HeaderRow(headers))];
    for i := 0 to |rows|
      invariant |lines| == i + 1
      invariant forall j :: 0 <= j <= i ==> lines[j] == Line(all[j])
    {
      lines := lines + [Line(rows[i])];
    }
    csv := Join(lines, CRLF) + CRLF;
    JoinTerminates(lines, all);
    TableReadsBack(all);
    ReadAsCells(headers, rows);
  }

  lemma {:induction false} JoinTerminates(lines: seq<string>, rows: seq<seq<Value>>)
    requires |lines| == |rows| > 0 && forall j :: 0 <= j < |lines| ==> lines[j] == Line(rows[j])
    ensures Join(lines, CRLF) + CRLF == Terminated(rows)
  {
    hide Line;
    var n := |lines| - 1;
    if n > 0 {
      JoinTerminates(lines[..n], rows[..n]);
    } else {
      assert Terminated(rows[..0]) == "";
    }
  }

  /** Different tables are written differently. */
  lemma WritingIsInjective(a: seq<seq<Value>>, b: seq<seq<Value>>)
    requires Terminated(a) == Terminated(b)
    ensures ReadAsAll(a) == ReadAsAll(b)
  {
    TableReadsBack(a);
    TableReadsBack(b);
  }

  // ---------- no shorter text reads as the same table ----------

  function AsTexts(cells: seq<string>): seq<Value> { seq(|cells|, i requires 0 <= i < |cells| => Text(cells[i])) }

  function AllTexts(cells: seq<seq<string>>): (rows: seq<seq<Value>>)
    ensures |rows| == |cells| && forall i :: 0 <= i < |cells| ==> rows[i] == AsTexts(cells[i])
  {
    seq(|cells|, i requires 0 <= i < |cells| => AsTexts(cells[i]))
  }

  lemma {:induction false} EscapedTakes(s: string)
    requires ReadEscaped(s).Read?
    ensures |s| >= |ReadEscaped(s).rest| + |DoubleQuotes(ReadEscaped(s).value)| + 1
  {
    if s[0] != '"' {
      EscapedTakes(s[1..]);
      assert ReadEscaped(s).value[1..] == ReadEscaped(s[1..]).value;
    } else if |s| >= 2 && s[1] == '"' {
      EscapedTakes(s[2..]);
      assert ReadEscaped(s).value[1..] == ReadEscaped(s[2..]).value;
    }
  }

  lemma {:induction false} PlainTakes(s: string)
    ensures |s| == |ReadPlain(s).rest| + |ReadPlain(s).value|
    ensures forall i :: 0 <= i < |ReadPlain(s).value| ==> !Special(ReadPlain(s).value[i])
  {
    if s != "" && !Special(s[0]) { PlainTakes(s[1..]); }
  }

  lemma FieldTakes(s: string)
    requires ReadField(s).Read?
    ensures |s| >= |ReadField(s).rest| + |CsvEscape(Text(ReadField(s).value))|
  {
    hide ReadEscaped, ReadPlain, DoubleQuotes;
    if s != "" && s[0] == '"' {
      EscapedTakes(s[1..]);
      DoubledIsLonger(ReadField(s).value);
    } else {
      PlainTakes(s);
    }
  }

  lemma {:induction false} DoubledIsLonger(s: string)
    ensures |DoubleQuotes(s)| >= |s|
  {
    if s != "" { DoubledIsLonger(s[1..]); }
  }

  lemma {:induction false} RecordTakes(s: string)
    requires ReadRecord(s).Read?
    ensures ReadRecord(s).value != []
    ensures |s| >= |ReadRecord(s).rest| + |Line(AsTexts(ReadRecord(s).value))| + 2
    decreases |s|
  {
    hide ReadField, CsvEscape;
    FieldTakes(s);
    var Read(cell, after) := ReadField(s);
    var cells := ReadRecord(s).value;
    if after[0] == ',' {
      RecordTakes(after[1..]);
      assert cells[1..] == ReadRecord(after[1..]).value;
      LineFront(AsTexts(cells));
      assert AsTexts(cells)[1..] == AsTexts(cells[1..]);
    } else {
      SingleCell(AsTexts(cells), Text(cell));
    }
  }

  lemma {:induction false} TableTakes(s: string)
    requires ReadTable(s).Some?
    ensures |s| >= |Terminated(AllTexts(ReadTable(s).value))|
    decreases |s|
  {
    hide ReadRecord, Line, AsTexts, Terminated, AllTexts;
    if s == "" {
      NothingTerminated();
      assert AllTexts([]) == [];
    } else {
      RecordTakes(s);
      var record := ReadRecord(s);
      var all := ReadTable(s).value;
      TableTakes(record.rest);
      assert all[1..] == ReadTable(record.rest).value;
      TerminatedFront(AllTexts(all));
      assert AllTexts(all)[1..] == AllTexts(all[1..]);
    }
  }

  lemma NothingTerminated()
    ensures Terminated([]) == ""
  {
  }

  lemma {:induction false} SameLines(rows: seq<seq<Value>>, others: seq<seq<Value>>)
    requires |rows| == |others| && forall i :: 0 <= i < |rows| ==> Line(rows[i]) == Line(others[i])
    ensures Terminated(rows) == Terminated(others)
  {
    hide Line;
    if rows != [] { SameLines(rows[..|rows| - 1], others[..|others| - 1]); }
  }

  lemma TextsShowAlike(row: seq<Value>)
    ensures Line(AsTexts(ReadAs(row))) == Line(row)
  {
    var texts := AsTexts(ReadAs(row));
    if row == [] {
      SingleCell(texts, Text(""));
      SingleCell(row, Missing);
    } else {
      assert forall i :: 0 <= i < |row| ==> CsvEscape(texts[i]) == CsvEscape(row[i]);
      assert seq(|texts|, i requires 0 <= i < |texts| => CsvEscape(texts[i]))
          == seq(|row|, i requires 0 <= i < |row| => CsvEscape(row[i]));
    }
  }

  /** No text that reads as the same table is shorter: a cell is quoted only if it has to be. */
  lemma TableIsShortest(rows: seq<seq<Value>>, t: string)
    requires ReadTable(t) == Some(ReadAsAll(rows))
    ensures |Terminated(rows)| <= |t|
  {
    hide ReadTable, Line, ReadAs, Terminated;
    var texts := AllTexts(ReadAsAll(rows));
    TableTakes(t);
    forall i | 0 <= i < |rows| ensures Line(texts[i]) == Line(rows[i]) { TextsShowAlike(rows[i]); }
    SameLines(texts, rows);
  }
}
