/** The text that exportCSV in frontend/src/utils/format.js builds, against a reader of RFC 4180, section 2. */
module Csv {
  import opened Options

  type Record = seq<string>

  datatype Column = Column(title: string, dataIndex: string)

  /** A table row after String(): keys whose value is null or undefined are absent. */
  type Row = map<string, string>

  // ----- The printer -----

  function Join(parts: seq<string>, sep: string): string {
    if |parts| == 0 then ""
    else if |parts| == 1 then parts[0]
    else parts[0] + sep + Join(parts[1..], sep)
  }

  function Doubled(cell: string): string {
    if cell == "" then ""
    else (if cell[0] == '"' then "\"\"" else [cell[0]]) + Doubled(cell[1..])
  }

  function Quote(cell: string): string {
    "\"" + Doubled(cell) + "\""
  }

  function Cell(row: Row, column: Column): string {
    if column.dataIndex in row then row[column.dataIndex] else ""
  }

  function Cells(row: Row, columns: seq<Column>): (r: Record)
    ensures |r| == |columns|
  {
    seq(|columns|, i requires 0 <= i < |columns| => Cell(row, columns[i]))
  }

  function Titles(columns: seq<Column>): (r: Record)
    ensures |r| == |columns|
  {
    seq(|columns|, i requires 0 <= i < |columns| => columns[i].title)
  }

  function Table(rows: seq<Row>, columns: seq<Column>): (r: seq<Record>)
    ensures |r| == |rows| && forall i :: 0 <= i < |r| ==> |r[i]| == |columns|
  {
    seq(|rows|, i requires 0 <= i < |rows| => Cells(rows[i], columns))
  }

  function Quoted(cells: Record): (r: seq<string>)
    ensures |r| == |cells|
  {
    seq(|cells|, i requires 0 <= i < |cells| => Quote(cells[i]))
  }

  function Line(cells: Record): string {
    Join(Quoted(cells), ",")
  }

  function Lines(table: seq<Record>): (r: seq<string>)
    ensures |r| == |table|
  {
    seq(|table|, i requires 0 <= i < |table| => Line(table[i]))
  }

  function ExportText(rows: seq<Row>, columns: seq<Column>): string {
    Join([Join(Titles(columns), ",")] + Lines(Table(rows, columns)), "\n")
  }

  /** Each row of `table` holds the row's value for each column in turn, and "" where it has none. */
  ghost predicate Shows(table: seq<Record>, rows: seq<Row>, columns: seq<Column>) {
    && |table| == |rows|
    && forall i :: 0 <= i < |rows| ==> ShowsRow(table[i], rows[i], columns)
  }

  ghost predicate ShowsRow(cells: Record, row: Row, columns: seq<Column>) {
    && |cells| == |columns|
    && forall j :: 0 <= j < |columns| ==>
         (if columns[j].dataIndex in row then cells[j] == row[columns[j].dataIndex] else cells[j] == "")
  }

  /** A quote inside a cell is doubled, a missing value is an empty cell, and the titles stand bare. */
  lemma PrintedSample()
    ensures ExportText([map["a" := "x\"y"]], [Column("A", "a"), Column("B", "b")]) == "A,B\n\"x\"\"y\",\"\""
  {
    var columns, row := [Column("A", "a"), Column("B", "b")], map["a" := "x\"y"];
    var cells := ["x\"y", ""];
    assert Titles(columns) == ["A", "B"];
    assert Cells(row, columns) == cells;
    assert Table([row], columns) == [cells];
    assert "x\"y"[1..] == "\"y" && "\"y"[1..] == "y" && "y"[1..] == "";
    assert Quote(cells[0]) == "\"x\"\"y\"" && Quote(cells[1]) == "\"\"";
    assert Quoted(cells) == ["\"x\"\"y\"", "\"\""];
    assert Lines([cells]) == [Line(cells)];
    assert Line(cells) == "\"x\"\"y\",\"\"";
    ExportedTail([row], columns);
    assert Join(["A", "B"], ",") == "A,B";
  }

  // ----- The reader -----

  datatype State = Start | Bare | InQuotes | QuoteSeen

  /** Reads on in state `st`, with the field, record and records so far; None where the text breaks the grammar.
      Lines end in CRLF or LF, and the end of the last one may be missing. */
  function Parse(s: string, st: State, field: string, rec: Record, recs: seq<Record>): Option<seq<Record>>
    decreases |s|
  {
    if s == "" then
      if st == InQuotes then None
      else if st == Start && rec == [] && recs != [] then Some(recs)
      else Some(recs + [rec + [field]])
    else
      var c, rest := s[0], s[1..];
      if st == InQuotes then
        if c == '"' then Parse(rest, QuoteSeen, field, rec, recs) else Parse(rest, InQuotes, field + [c], rec, recs)
      else if c == '"' then
        match st
        case Start => Parse(rest, InQuotes, field, rec, recs)
        case QuoteSeen => Parse(rest, InQuotes, field + [c], rec, recs)
        case Bare => None
      else if c == ',' then Parse(rest, Start, "", rec + [field], recs)
      else if c == '\n' then Parse(rest, Start, "", [], recs + [rec + [field]])
      else if c == '\r' then
        if rest != "" && rest[0] == '\n' then Parse(rest[1..], Start, "", [], recs + [rec + [field]]) else None
      else if st == QuoteSeen then None
      else Parse(rest, Bare, field + [c], rec, recs)
  }

  function Read(text: string): Option<seq<Record>> {
    Parse(text, Start, "", [], [])
  }

  // ----- Quoted cells come back -----

  lemma {:induction false} ReadQuoted(cell: string, rest: string, field: string, rec: Record, recs: seq<Record>)
    ensures Parse(Doubled(cell) + "\"" + rest, InQuotes, field, rec, recs) == Parse(rest, QuoteSeen, field + cell, rec, recs)
  {
    var text := Doubled(cell) + "\"" + rest;
    if cell == "" {
      assert text[1..] == rest && field + cell == field;
    } else {
      var tail := Doubled(cell[1..]) + "\"" + rest;
      ReadQuoted(cell[1..], rest, field + [cell[0]], rec, recs);
      assert field + [cell[0]] + cell[1..] == field + cell;
      if cell[0] == '"' {
        assert text[1..] == "\"" + tail && text[1..][1..] == tail;
      } else {
        assert text[1..] == tail;
      }
    }
  }

  lemma ReadQuote(cell: string, rest: string, rec: Record, recs: seq<Record>)
    ensures Parse(Quote(cell) + rest, Start, "", rec, recs) == Parse(rest, QuoteSeen, cell, rec, recs)
  {
    var text := Quote(cell) + rest;
    assert text[1..] == Doubled(cell) + "\"" + rest;
    ReadQuoted(cell, rest, "", rec, recs);
    assert "" + cell == cell;
  }

  /** One printed line is one record; what follows it is read after a closed quote. */
  lemma {:induction false} ReadLine(cells: Record, rest: string, rec: Record, recs: seq<Record>)
    requires cells != []
    ensures var last := |cells| - 1;
            Parse(Line(cells) + rest, Start, "", rec, recs) == Parse(rest, QuoteSeen, cells[last], rec + cells[..last], recs)
    decreases |cells|
  {
    if |cells| == 1 {
      assert Line(cells) == Quote(cells[0]);
      assert rec + cells[..0] == rec;
      ReadQuote(cells[0], rest, rec, recs);
    } else {
      assert Quoted(cells)[1..] == Quoted(cells[1..]);
      var after := "," + (Line(cells[1..]) + rest);
      assert Line(cells) + rest == Quote(cells[0]) + after;
      ReadQuote(cells[0], after, rec, recs);
      assert after[1..] == Line(cells[1..]) + rest;
      ReadLine(cells[1..], rest, rec + [cells[0]], recs);
      assert rec + [cells[0]] + cells[1..][..|cells| - 2] == rec + cells[..|cells| - 1];
    }
  }

  lemma {:induction false} ReadLines(table: seq<Record>, recs: seq<Record>)
    requires table != [] && forall i :: 0 <= i < |table| ==> table[i] != []
    ensures Parse(Join(Lines(table), "\n"), Start, "", [], recs) == Some(recs + table)
    decreases |table|
  {
    var cells := table[0];
    var last := |cells| - 1;
    assert [] + cells[..last] + [cells[last]] == cells;
    if |table| == 1 {
      assert Line(cells) + "" == Line(cells);
      ReadLine(cells, "", [], recs);
      assert table == [cells];
    } else {
      assert Lines(table)[1..] == Lines(table[1..]);
      var after := "\n" + Join(Lines(table[1..]), "\n");
      assert Join(Lines(table), "\n") == Line(cells) + after;
      ReadLine(cells, after, [], recs);
      assert after[1..] == Join(Lines(table[1..]), "\n");
      ReadLines(table[1..], recs + [cells]);
      assert recs + [cells] + table[1..] == recs + table;
    }
  }

  /** The data lines read back as exactly the cells, whatever quotes, commas and line breaks they hold. */
  lemma DataLinesReadBack(rows: seq<Row>, columns: seq<Column>)
    requires rows != [] && columns != []
    ensures Read(Join(Lines(Table(rows, columns)), "\n")) == Some(Table(rows, columns))
    ensures Shows(Table(rows, columns), rows, columns)
  {
    var table := Table(rows, columns);
    ReadLines(table, []);
    assert [] + table == table;
  }

  // ----- The header line is not quoted -----

  predicate Special(c: char) {
    c == '"' || c == ',' || c == '\n' || c == '\r'
  }

  predicate Plain(title: string) {
    forall i :: 0 <= i < |title| ==> !Special(title[i])
  }

  function AfterBare(field: string): State {
    if field == "" then Start else Bare
  }

  lemma {:induction false} ReadPlain(done: string, title: string, rest: string, rec: Record, recs: seq<Record>)
    requires Plain(title)
    ensures Parse(title + rest, AfterBare(done), done, rec, recs) == Parse(rest, AfterBare(done + title), done + title, rec, recs)
    decreases |title|
  {
    if title == "" {
      assert title + rest == rest && done + title == done;
    } else {
      assert (title + rest)[1..] == title[1..] + rest;
      assert !Special(title[0]);
      ReadPlain(done + [title[0]], title[1..], rest, rec, recs);
      assert done + [title[0]] + title[1..] == done + title;
    }
  }

  /** What may follow the header: nothing, or a line break and the data lines. */
  predicate Tail(rest: string) {
    rest == "" || rest[0] == '\n'
  }

  lemma {:induction false} ReadTitles(titles: Record, rest: string, rec: Record)
    requires titles != [] && Tail(rest)
    requires forall i :: 0 <= i < |titles| ==> Plain(titles[i])
    ensures Parse(Join(titles, ",") + rest, Start, "", rec, [])
         == if rest == "" then Some([rec + titles]) else Parse(rest[1..], Start, "", [], [rec + titles])
    decreases |titles|
  {
    if |titles| == 1 {
      ReadPlain("", titles[0], rest, rec, []);
      assert "" + titles[0] == titles[0] && titles == [titles[0]];
      assert [] + [rec + [titles[0]]] == [rec + titles];
    } else {
      var after := "," + (Join(titles[1..], ",") + rest);
      assert Join(titles, ",") + rest == titles[0] + after;
      ReadPlain("", titles[0], after, rec, []);
      assert "" + titles[0] == titles[0];
      assert after[1..] == Join(titles[1..], ",") + rest;
      ReadTitles(titles[1..], rest, rec + [titles[0]]);
      assert rec + [titles[0]] + titles[1..] == rec + titles;
    }
  }

  /** What was read stays read. */
  lemma {:induction false} ReadKeeps(s: string, st: State, field: string, rec: Record, recs: seq<Record>, out: seq<Record>)
    requires Parse(s, st, field, rec, recs) == Some(out)
    ensures recs <= out
    ensures rec != [] ==> |recs| < |out| && rec <= out[|recs|]
    decreases |s|
  {
    if s != "" {
      var c, rest := s[0], s[1..];
      var ended := recs + [rec + [field]];
      if st == InQuotes {
        ReadKeeps(rest, if c == '"' then QuoteSeen else InQuotes, if c == '"' then field else field + [c], rec, recs, out);
      } else if c == '"' {
        ReadKeeps(rest, InQuotes, if st == Start then field else field + [c], rec, recs, out);
      } else if c == ',' {
        ReadKeeps(rest, Start, "", rec + [field], recs, out);
      } else if c == '\n' {
        ReadKeeps(rest, Start, "", [], ended, out);
        assert out[|recs|] == ended[|recs|];
      } else if c == '\r' {
        ReadKeeps(rest[1..], Start, "", [], ended, out);
        assert out[|recs|] == ended[|recs|];
      } else {
        ReadKeeps(rest, Bare, field + [c], rec, recs, out);
      }
    }
  }

  /** The first of `f`'s quotes. */
  function LeadingQuotes(f: string): nat {
    if f != "" && f[0] == '"' then 1 + LeadingQuotes(f[1..]) else 0
  }

  lemma {:induction false} QuotesDouble(f: string, rest: string)
    ensures LeadingQuotes(Doubled(f) + rest) >= 2 * LeadingQuotes(f)
  {
    if f != "" && f[0] == '"' {
      QuotesDouble(f[1..], rest);
      var text := Doubled(f) + rest;
      assert text[1..][1..] == Doubled(f[1..]) + rest;
    }
  }

  lemma {:induction false} QuotesEnd(f: string, rest: string)
    requires rest == "" || rest[0] != '"'
    ensures LeadingQuotes(f + rest) == LeadingQuotes(f)
  {
    if f == "" {
      assert f + rest == rest;
    } else {
      assert (f + rest)[1..] == f[1..] + rest;
      QuotesEnd(f[1..], rest);
    }
  }

  lemma SeparatorEnds(s: string, st: State, field: string, rec: Record, out: seq<Record>)
    requires s != "" && st != InQuotes && (s[0] == ',' || s[0] == '\n' || s[0] == '\r')
    requires Parse(s, st, field, rec, []) == Some(out)
    ensures out != [] && |rec| < |out[0]| && out[0][|rec|] == field
  {
    var rest := s[1..];
    if s[0] == ',' {
      ReadKeeps(rest, Start, "", rec + [field], [], out);
    } else {
      var ended: seq<Record> := [rec + [field]];
      assert [] + ended == ended;
      ReadKeeps(if s[0] == '\n' then rest else rest[1..], Start, "", [], ended, out);
      assert out[0] == ended[0];
    }
  }

  /** A field read inside quotes was printed as its doubling. */
  lemma {:induction false} QuotedSource(s: string, st: State, field: string, rec: Record, out: seq<Record>)
    requires (st == InQuotes || st == QuoteSeen) && Parse(s, st, field, rec, []) == Some(out)
    ensures out != [] && |rec| < |out[0]| && field <= out[0][|rec|]
    ensures st == InQuotes ==> Doubled(out[0][|rec|][|field|..]) <= s
    ensures st == QuoteSeen ==> Doubled(out[0][|rec|][|field|..]) <= "\"" + s
    decreases |s|
  {
    if s == "" {
      assert Doubled("") == "";
      return;
    }
    var c, rest := s[0], s[1..];
    if st == InQuotes && c == '"' {
      QuotedSource(rest, QuoteSeen, field, rec, out);
      assert "\"" + rest == s;
    } else if st == InQuotes || c == '"' {
      QuotedSource(rest, InQuotes, field + [c], rec, out);
      var suffix := out[0][|rec|][|field|..];
      assert suffix[0] == c && suffix[1..] == out[0][|rec|][|field| + 1..];
    } else {
      SeparatorEnds(s, st, field, rec, out);
      assert Doubled("") == "";
    }
  }

  lemma DoublingIsLonger(f: string, text: string)
    requires Doubled(f) <= text
    ensures LeadingQuotes(text) >= 2 * LeadingQuotes(f)
  {
    var more := text[|Doubled(f)|..];
    assert text == Doubled(f) + more;
    QuotesDouble(f, more);
  }

  /** A title that starts with quotes would have to start with twice as many and one more. */
  lemma LeadingQuoteIsLost(title: string, rest: string, rec: Record, out: seq<Record>)
    requires title != "" && title[0] == '"' && (rest == "" || rest[0] != '"')
    requires Parse(title[1..] + rest, InQuotes, "", rec, []) == Some(out)
    ensures out != [] && |rec| < |out[0]| && out[0][|rec|] != title
  {
    var inside := title[1..] + rest;
    QuotedSource(inside, InQuotes, "", rec, out);
    var f := out[0][|rec|];
    assert f[0..] == f;
    DoublingIsLonger(f, inside);
    QuotesEnd(title[1..], rest);
  }

  /** A title with a special character never comes back as itself. */
  lemma {:induction false} SpecialIsLost(done: string, title: string, rest: string, rec: Record, out: seq<Record>)
    requires !Plain(title) && (rest == "" || rest[0] == ',' || rest[0] == '\n')
    requires Parse(title + rest, AfterBare(done), done, rec, []) == Some(out)
    ensures out != [] && |rec| < |out[0]| && out[0][|rec|] != done + title
    decreases |title|
  {
    var s := title + rest;
    var c := title[0];
    assert s[1..] == title[1..] + rest;
    if !Special(c) {
      assert done + [c] + title[1..] == done + title;
      assert AfterBare(done + [c]) == Bare;
      SpecialIsLost(done + [c], title[1..], rest, rec, out);
    } else if c == '"' {
      LeadingQuoteIsLost(title, rest, rec, out);
      assert done + title == title;
    } else {
      SeparatorEnds(s, AfterBare(done), done, rec, out);
    }
  }

  lemma {:induction false} TitlesPlain(titles: Record, rest: string, rec: Record, out: seq<Record>)
    requires titles != [] && Tail(rest)
    requires Parse(Join(titles, ",") + rest, Start, "", rec, []) == Some(out) && out != [] && out[0] == rec + titles
    ensures forall i :: 0 <= i < |titles| ==> Plain(titles[i])
    decreases |titles|
  {
    var after := if |titles| == 1 then rest else "," + (Join(titles[1..], ",") + rest);
    assert Join(titles, ",") + rest == titles[0] + after;
    assert "" + titles[0] == titles[0];
    if !Plain(titles[0]) {
      assert out[0][|rec|] == titles[0];
      SpecialIsLost("", titles[0], after, rec, out);
    } else if |titles| > 1 {
      ReadPlain("", titles[0], after, rec, []);
      assert after[1..] == Join(titles[1..], ",") + rest;
      assert rec + titles == rec + [titles[0]] + titles[1..];
      TitlesPlain(titles[1..], rest, rec + [titles[0]], out);
    }
  }

  lemma ExportedTail(rows: seq<Row>, columns: seq<Column>)
    ensures var lines := Lines(Table(rows, columns));
            var rest := if rows == [] then "" else "\n" + Join(lines, "\n");
            ExportText(rows, columns) == Join(Titles(columns), ",") + rest
  {
    var header := Join(Titles(columns), ",");
    var lines := Lines(Table(rows, columns));
    assert ([header] + lines)[1..] == lines;
    if rows == [] {
      assert [header] + lines == [header];
    }
  }

  /** The whole file, header included, reads back exactly when no title holds a quote, comma or line break. */
  lemma ExportReadsBackIff(rows: seq<Row>, columns: seq<Column>)
    requires columns != []
    ensures Read(ExportText(rows, columns)) == Some([Titles(columns)] + Table(rows, columns))
       <==> forall i :: 0 <= i < |columns| ==> Plain(columns[i].title)
    ensures forall i :: 0 <= i < |columns| ==> Titles(columns)[i] == columns[i].title
    ensures Shows(Table(rows, columns), rows, columns)
  {
    var titles, table := Titles(columns), Table(rows, columns);
    var rest := if rows == [] then "" else "\n" + Join(Lines(table), "\n");
    ExportedTail(rows, columns);
    assert [] + titles == titles;
    if forall i :: 0 <= i < |columns| ==> Plain(columns[i].title) {
      ReadTitles(titles, rest, []);
      if rows == [] {
        assert [titles] + table == [titles];
      } else {
        assert rest[1..] == Join(Lines(table), "\n");
        ReadLines(table, [titles]);
      }
    }
    if Read(ExportText(rows, columns)) == Some([titles] + table) {
      TitlesPlain(titles, rest, [], [titles] + table);
      forall i | 0 <= i < |columns|
        ensures Plain(columns[i].title)
      {
        assert titles[i] == columns[i].title;
      }
    }
  }
}
