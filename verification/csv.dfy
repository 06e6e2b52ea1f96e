/**
 * The serialiser (`formatAsCSV`): the relevant rows rendered as comma-separated text for the
 * completion prompt, quoting as items 6 and 7 of section 2 of RFC 4180 describe.
 */
module Csv {
  import opened Wrappers
  import opened Text
  import opened Records
  import opened Rfc4180

  /** A field is quoted when it holds a comma or a double quote; line breaks do not trigger
      quoting. */
  predicate NeedsQuoting(s: string) {
    ',' in s || '"' in s
  }

  /** `value.replace(/"/g, '""')`. */
  function EscapeQuotes(s: string): string
    decreases |s|
  {
    if s == [] then [] else (if s[0] == '"' then "\"\"" else [s[0]]) + EscapeQuotes(s[1..])
  }

  /** One cell: `null`/`undefined` becomes the empty field, a value needing quotes is wrapped in
      quotes with its quotes doubled, anything else is written as it is. */
  function EncodeField(v: Option<string>): string {
    match v
    case None => ""
    case Some(s) => if NeedsQuoting(s) then "\"" + EscapeQuotes(s) + "\"" else s
  }

  /** The text a cell reads back as: `null` and a missing key both read back as the empty field. */
  function CellText(v: Option<string>): string {
    match v
    case None => ""
    case Some(s) => s
  }

  /** A cell the serialiser writes so that it reads back as one field: it holds no line feed,
      or it holds a comma or a quote as well and is therefore quoted. */
  predicate ReadsBackWhole(v: Option<string>) {
    '\n' in CellText(v) ==> NeedsQuoting(CellText(v))
  }

  /** `headers.map(h => row[h])`. */
  function RowCells(headers: seq<string>, rec: Record): (cells: seq<Option<string>>)
    ensures |cells| == |headers|
  {
    seq(|headers|, i requires 0 <= i < |headers| => Get(rec, headers[i]))
  }

  function Encoded(cells: seq<Option<string>>): (fields: seq<string>)
    ensures |fields| == |cells|
  {
    seq(|cells|, i requires 0 <= i < |cells| => EncodeField(cells[i]))
  }

  function Texts(cells: seq<Option<string>>): (fields: seq<string>)
    ensures |fields| == |cells|
  {
    seq(|cells|, i requires 0 <= i < |cells| => CellText(cells[i]))
  }

  /** The data lines, one per record, each terminated by a line feed. */
  function Lines(headers: seq<string>, rows: seq<Record>): (text: string)
    ensures rows != [] ==> |text| > 0 && text[|text| - 1] == '\n'
    decreases |rows|
  {
    if rows == [] then ""
    else Join(Encoded(RowCells(headers, rows[0])), ",") + "\n" + Lines(headers, rows[1..])
  }

  /** `formatAsCSV(headers, rows)`: nothing at all for no rows, otherwise the header line (the
      header names joined as they are) followed by the data lines. */
  function FormatCsv(headers: seq<string>, rows: seq<Record>): (csv: string)
    ensures csv == "" <==> rows == []
    ensures csv != "" ==> csv[|csv| - 1] == '\n'
  {
    if rows == [] then "" else Join(headers, ",") + "\n" + Lines(headers, rows)
  }

  // ---------------------------------------------------------------------------------------
  // Round trip through the RFC 4180 reader

  lemma {:induction false} QuotedFieldReadsBack(v: string, acc: string, tail: string)
    requires tail == [] || tail[0] != '"'
    ensures ParseQuoted(EscapeQuotes(v) + "\"" + tail, acc) == Some((acc + v, tail))
    decreases |v|
  {
    if v == [] {
      ParseQuotedClose(acc, tail);
      assert EscapeQuotes(v) + "\"" + tail == "\"" + tail;
      assert acc + v == acc;
    } else {
      var rest := EscapeQuotes(v[1..]) + "\"" + tail;
      QuotedFieldReadsBack(v[1..], acc + [v[0]], tail);
      EscapeCons(v, acc, tail);
      if v[0] == '"' {
        ParseQuotedPair(acc, rest);
      } else {
        ParseQuotedChar(acc, v[0], rest);
      }
    }
  }

  /** The first character of `v`, escaped, starts the escaped text. */
  lemma EscapeCons(v: string, acc: string, tail: string)
    requires v != []
    ensures EscapeQuotes(v) + "\"" + tail
         == (if v[0] == '"' then "\"\"" else [v[0]]) + (EscapeQuotes(v[1..]) + "\"" + tail)
    ensures acc + [v[0]] + v[1..] == acc + v
  {
    var h := if v[0] == '"' then "\"\"" else [v[0]];
    assert EscapeQuotes(v) == h + EscapeQuotes(v[1..]);
    AssocLeft(h, EscapeQuotes(v[1..]), "\"", tail);
    assert v == [v[0]] + v[1..];
    AssocPair(acc, [v[0]], v[1..]);
  }

  lemma AssocLeft(a: string, b: string, c: string, d: string)
    ensures a + b + c + d == a + (b + c + d)
  {
  }

  lemma AssocPair(a: string, b: string, c: string)
    ensures a + b + c == a + (b + c)
  {
  }

  lemma ParseQuotedClose(acc: string, tail: string)
    requires tail == [] || tail[0] != '"'
    ensures ParseQuoted("\"" + tail, acc) == Some((acc, tail))
  {
    assert ("\"" + tail)[1..] == tail;
  }

  lemma ParseQuotedPair(acc: string, rest: string)
    ensures ParseQuoted("\"\"" + rest, acc) == ParseQuoted(rest, acc + ['"'])
  {
    assert ("\"\"" + rest)[2..] == rest;
  }

  lemma ParseQuotedChar(acc: string, c: char, rest: string)
    requires c != '"'
    ensures ParseQuoted([c] + rest, acc) == ParseQuoted(rest, acc + [c])
  {
    assert ([c] + rest)[1..] == rest;
  }

  lemma {:induction false} PlainFieldReadsBack(v: string, acc: string, tail: string)
    requires ',' !in v && '"' !in v && '\n' !in v
    requires AtFieldEnd(tail)
    ensures ParseUnquoted(v + tail, acc) == Some((acc + v, tail))
    decreases |v|
  {
    if v == [] {
      assert v + tail == tail;
      assert acc + v == acc;
    } else {
      assert (v + tail)[0] == v[0];
      assert (v + tail)[1..] == v[1..] + tail;
      PlainFieldReadsBack(v[1..], acc + [v[0]], tail);
      assert acc + [v[0]] + v[1..] == acc + v;
    }
  }

  /** One encoded cell reads back as its text, provided a line feed in it is quoted. */
  lemma FieldReadsBack(v: Option<string>, tail: string)
    requires ReadsBackWhole(v)
    requires AtFieldEnd(tail)
    ensures ParseField(EncodeField(v) + tail) == Some((CellText(v), tail))
  {
    match v
    case None =>
      PlainFieldReadsBack("", "", tail);
    case Some(s) =>
      if NeedsQuoting(s) {
        var t := EncodeField(v) + tail;
        assert t == "\"" + (EscapeQuotes(s) + "\"" + tail);
        assert t[1..] == EscapeQuotes(s) + "\"" + tail;
        QuotedFieldReadsBack(s, "", tail);
        assert "" + s == s;
      } else {
        PlainFieldReadsBack(s, "", tail);
        assert "" + s == s;
      }
  }

  lemma ParseRecordLast(s: string, field: string, tail: string)
    requires ParseField(s) == Some((field, tail))
    requires tail == [] || tail[0] == '\n'
    ensures ParseRecord(s) == Some(([field], tail))
  {
  }

  lemma ParseRecordNext(s: string, field: string, line: string, fields: seq<string>, tail: string)
    requires ParseField(s) == Some((field, "," + line))
    requires ParseRecord(line) == Some((fields, tail))
    ensures ParseRecord(s) == Some(([field] + fields, tail))
  {
    assert ("," + line)[1..] == line;
  }

  /** A line of encoded cells reads back as the cells' texts. */
  lemma {:induction false} LineReadsBack(cells: seq<Option<string>>, tail: string)
    requires |cells| > 0
    requires forall i :: 0 <= i < |cells| ==> ReadsBackWhole(cells[i])
    requires tail == [] || tail[0] == '\n'
    ensures ParseRecord(Join(Encoded(cells), ",") + tail) == Some((Texts(cells), tail))
    decreases |cells|
  {
    if |cells| == 1 {
      assert Join(Encoded(cells), ",") == EncodeField(cells[0]);
      FieldReadsBack(cells[0], tail);
      ParseRecordLast(Join(Encoded(cells), ",") + tail, CellText(cells[0]), tail);
      assert Texts(cells) == [CellText(cells[0])];
    } else {
      var rest := cells[1..];
      var line := Join(Encoded(rest), ",") + tail;
      CellsCons(cells, tail);
      FieldReadsBack(cells[0], "," + line);
      LineReadsBack(rest, tail);
      ParseRecordNext(Join(Encoded(cells), ",") + tail, CellText(cells[0]), line, Texts(rest), tail);
    }
  }

  /** How a line of two or more cells splits at its first comma. */
  lemma CellsCons(cells: seq<Option<string>>, tail: string)
    requires |cells| > 1
    ensures Join(Encoded(cells), ",") + tail == EncodeField(cells[0]) + ("," + (Join(Encoded(cells[1..]), ",") + tail))
    ensures Texts(cells) == [CellText(cells[0])] + Texts(cells[1..])
    ensures forall i :: 0 <= i < |cells| - 1 ==> cells[1..][i] == cells[i + 1]
  {
    var f := Encoded(cells);
    assert f[1..] == Encoded(cells[1..]);
    assert Join(f, ",") == f[0] + "," + Join(f[1..], ",");
    Assoc3(f[0], ",", Join(f[1..], ","), tail);
  }

  lemma Assoc3(a: string, b: string, c: string, d: string)
    ensures a + b + c + d == a + (b + (c + d))
  {
  }

  lemma ParseDocumentNext(s: string, fields: seq<string>, rest: string, more: seq<seq<string>>)
    requires ParseRecord(s) == Some((fields, "\n" + rest))
    requires ParseDocument(rest) == Some(more)
    ensures ParseDocument(s) == Some([fields] + more)
  {
    assert ("\n" + rest)[1..] == rest;
  }

  /** The cells of one record as read back. */
  function DecodedRow(headers: seq<string>, rec: Record): seq<string> {
    Texts(RowCells(headers, rec))
  }

  /** The records as read back, in order. */
  function DecodedRows(headers: seq<string>, rows: seq<Record>): (decoded: seq<seq<string>>)
    ensures |decoded| == |rows|
    ensures forall i :: 0 <= i < |rows| ==> decoded[i] == DecodedRow(headers, rows[i])
    decreases |rows|
  {
    if rows == [] then [] else [DecodedRow(headers, rows[0])] + DecodedRows(headers, rows[1..])
  }

  /** Every cell the serialiser writes for these rows that holds a line feed is quoted. */
  ghost predicate QuotedLineBreaks(headers: seq<string>, rows: seq<Record>) {
    forall r, h :: r in rows && h in headers ==> ReadsBackWhole(Get(r, h))
  }

  lemma {:induction false} LinesReadBack(headers: seq<string>, rows: seq<Record>)
    requires |headers| > 0
    requires QuotedLineBreaks(headers, rows)
    ensures ParseDocument(Lines(headers, rows)) == Some(DecodedRows(headers, rows))
    decreases |rows|
  {
    if rows != [] {
      var rest := Lines(headers, rows[1..]);
      var cells := RowCells(headers, rows[0]);
      QuotedLineBreaksParts(headers, rows);
      LinesReadBack(headers, rows[1..]);
      LineReadsBack(cells, "\n" + rest);
      LinesCons(headers, rows);
      ParseDocumentNext(Lines(headers, rows), DecodedRow(headers, rows[0]), rest, DecodedRows(headers, rows[1..]));
    }
  }

  lemma LinesCons(headers: seq<string>, rows: seq<Record>)
    requires rows != []
    ensures Lines(headers, rows)
         == Join(Encoded(RowCells(headers, rows[0])), ",") + ("\n" + Lines(headers, rows[1..]))
  {
  }

  lemma QuotedLineBreaksParts(headers: seq<string>, rows: seq<Record>)
    requires rows != [] && QuotedLineBreaks(headers, rows)
    ensures QuotedLineBreaks(headers, rows[1..])
    ensures forall i :: 0 <= i < |headers| ==> ReadsBackWhole(RowCells(headers, rows[0])[i])
  {
    forall r, h | r in rows[1..] && h in headers
      ensures ReadsBackWhole(Get(r, h))
    {
      assert r in rows;
    }
    forall i | 0 <= i < |headers|
      ensures ReadsBackWhole(RowCells(headers, rows[0])[i])
    {
      assert headers[i] in headers;
    }
  }

  /** A header name the serialiser can write unquoted: it is joined as it is. */
  predicate PlainHeader(h: string) {
    ',' !in h && '"' !in h && '\n' !in h
  }

  /** Round trip: reading the serialiser's output with the RFC 4180 reader gives back the header
      line and, per record, every cell's text, for header names that need no quoting and cells
      whose line feeds, if any, are quoted. */
  lemma CsvRoundTrip(headers: seq<string>, rows: seq<Record>)
    requires |headers| > 0
    requires forall h :: h in headers ==> PlainHeader(h)
    requires QuotedLineBreaks(headers, rows)
    ensures ParseDocument(FormatCsv(headers, rows))
         == Some(if rows == [] then [] else [headers] + DecodedRows(headers, rows))
  {
    if rows != [] {
      var rest := Lines(headers, rows);
      HeaderLineReadsBack(headers, "\n" + rest);
      LinesReadBack(headers, rows);
      assert FormatCsv(headers, rows) == Join(headers, ",") + ("\n" + rest);
      ParseDocumentNext(FormatCsv(headers, rows), headers, rest, DecodedRows(headers, rows));
    }
  }

  /** The header line, written unquoted, reads back as the header names. */
  lemma HeaderLineReadsBack(headers: seq<string>, tail: string)
    requires |headers| > 0
    requires forall h :: h in headers ==> PlainHeader(h)
    requires tail == [] || tail[0] == '\n'
    ensures ParseRecord(Join(headers, ",") + tail) == Some((headers, tail))
  {
    var headerCells := seq(|headers|, i requires 0 <= i < |headers| => Some(headers[i]));
    assert Encoded(headerCells) == headers by {
      forall i | 0 <= i < |headers| ensures Encoded(headerCells)[i] == headers[i] {
        assert PlainHeader(headers[i]);
      }
    }
    assert Texts(headerCells) == headers;
    forall i | 0 <= i < |headerCells| ensures ReadsBackWhole(headerCells[i]) {
      assert PlainHeader(headers[i]);
    }
    LineReadsBack(headerCells, tail);
  }

  /** A single plain field followed by the end of a record reads back as a one-field record. */
  lemma PlainRecordReadsBack(v: string, tail: string)
    requires ',' !in v && '"' !in v && '\n' !in v
    requires tail == [] || tail[0] == '\n'
    ensures ParseRecord(v + tail) == Some(([v], tail))
  {
    FieldReadsBack(Some(v), tail);
    ParseRecordLast(v + tail, v, tail);
  }

  /** The round trip needs its line-break condition: a cell holding a line feed is written
      unquoted, so it reads back as two records. */
  lemma LineBreakCellSplitsRecord()
    ensures var rec: Record := map[Instructor := Some("x\ny")];
            ParseDocument(FormatCsv([Instructor], [rec])) == Some([[Instructor], ["x"], ["y"]])
  {
    var rec: Record := map[Instructor := Some("x\ny")];
    var text := FormatCsv([Instructor], [rec]);
    LineBreakCellText();
    assert ParseDocument("") == Some([]);
    PlainRecordReadsBack("y", "\n" + "");
    ParseDocumentNext("y" + ("\n" + ""), ["y"], "", []);
    assert [["y"]] + [] == [["y"]];
    PlainRecordReadsBack("x", "\n" + ("y" + ("\n" + "")));
    ParseDocumentNext("x" + ("\n" + ("y" + ("\n" + ""))), ["x"], "y" + ("\n" + ""), [["y"]]);
    assert [["x"]] + [["y"]] == [["x"], ["y"]];
    PlainRecordReadsBack(Instructor, "\n" + ("x" + ("\n" + ("y" + ("\n" + "")))));
    ParseDocumentNext(text, [Instructor], "x" + ("\n" + ("y" + ("\n" + ""))), [["x"], ["y"]]);
    assert [[Instructor]] + [["x"], ["y"]] == [[Instructor], ["x"], ["y"]];
  }

  lemma LineBreakCellText()
    ensures var rec: Record := map[Instructor := Some("x\ny")];
            FormatCsv([Instructor], [rec]) == Instructor + ("\n" + ("x" + ("\n" + ("y" + ("\n" + "")))))
  {
    var rec: Record := map[Instructor := Some("x\ny")];
    assert RowCells([Instructor], rec) == [Some("x\ny")];
    assert Encoded([Some("x\ny")]) == ["x\ny"];
    assert Lines([Instructor], [rec]) == "x\ny" + "\n" + Lines([Instructor], []);
  }

  /** The round trip needs its header condition: header names are joined without quoting, so a
      name holding a comma reads back as two header fields over a one-field record. */
  lemma CommaInHeaderSplitsHeader()
    ensures var rec: Record := map["a,b" := Some("1")];
            ParseDocument(FormatCsv(["a,b"], [rec])) == Some([["a", "b"], ["1"]])
  {
    var rec: Record := map["a,b" := Some("1")];
    assert RowCells(["a,b"], rec) == [Some("1")];
    assert Encoded([Some("1")]) == ["1"];
    assert Lines(["a,b"], [rec]) == "1" + "\n" + Lines(["a,b"], []);
    var text := FormatCsv(["a,b"], [rec]);
    assert text == "a" + ("," + ("b" + ("\n" + ("1" + ("\n" + "")))));
    assert ParseDocument("") == Some([]);
    PlainRecordReadsBack("1", "\n" + "");
    ParseDocumentNext("1" + ("\n" + ""), ["1"], "", []);
    assert [["1"]] + [] == [["1"]];
    PlainRecordReadsBack("b", "\n" + ("1" + ("\n" + "")));
    FieldReadsBack(Some("a"), "," + ("b" + ("\n" + ("1" + ("\n" + "")))));
    ParseRecordNext(text, "a", "b" + ("\n" + ("1" + ("\n" + ""))), ["b"], "\n" + ("1" + ("\n" + "")));
    assert ["a"] + ["b"] == ["a", "b"];
    ParseDocumentNext(text, ["a", "b"], "1" + ("\n" + ""), [["1"]]);
    assert [["a", "b"]] + [["1"]] == [["a", "b"], ["1"]];
  }
}
