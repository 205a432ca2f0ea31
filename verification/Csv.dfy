/** The CSV rendering of an export page, and a reader that undoes it. */
module Csv {
  import opened Wrappers
  import opened Utf8

  type Cell = Option<string>

  datatype Value = Null | Text(s: string) | Bool(b: bool) | Number(spelling: string) | Compound(json: string)

  // ----- Rendering

  // `"` doubled.
  function Doubled(s: string): string {
    if s == "" then ""
    else (if s[0] == '"' then "\"\"" else [s[0]]) + Doubled(s[1..])
  }

  function Field(c: Cell): string {
    match c
    case None => ""
    case Some(s) => "\"" + (Doubled(s) + "\"")
  }

  // Fields joined by commas, ended by a line feed.
  function Line(cells: seq<Cell>): string {
    if cells == [] then "\n"
    else if |cells| == 1 then Field(cells[0]) + "\n"
    else Field(cells[0]) + ("," + Line(cells[1..]))
  }

  function Lines(matrix: seq<seq<Cell>>): string {
    if matrix == [] then "" else Line(matrix[0]) + Lines(matrix[1..])
  }

  function CellText(v: Value): Cell {
    match v
    case Null => None
    case Text(s) => Some(s)
    case Bool(b) => Some(if b then "true" else "false")
    case Number(spelling) => Some(spelling)
    case Compound(json) => Some(json)
  }

  function CellOf(row: map<string, Value>, column: string): Cell {
    if column in row then CellText(row[column]) else None
  }

  function RowCells(columns: seq<string>, row: map<string, Value>): (cells: seq<Cell>)
    ensures |cells| == |columns|
  {
    seq(|columns|, i requires 0 <= i < |columns| => CellOf(row, columns[i]))
  }

  function HeaderCells(columns: seq<string>): (cells: seq<Cell>)
    ensures |cells| == |columns|
  {
    seq(|columns|, i requires 0 <= i < |columns| => Some(columns[i]))
  }

  function Matrix(columns: seq<string>, rows: seq<map<string, Value>>): (cells: seq<seq<Cell>>)
    ensures |cells| == |rows| && forall i :: 0 <= i < |rows| ==> cells[i] == RowCells(columns, rows[i])
  {
    seq(|rows|, i requires 0 <= i < |rows| => RowCells(columns, rows[i]))
  }

  lemma {:induction false} LinesSnoc(matrix: seq<seq<Cell>>, cells: seq<Cell>)
    ensures Lines(matrix + [cells]) == Lines(matrix) + Line(cells)
  {
    if matrix == [] {
      assert matrix + [cells] == [cells];
      assert [cells][1..] == [];
      assert Lines([]) == "";
    } else {
      assert (matrix + [cells])[1..] == matrix[1..] + [cells];
      LinesSnoc(matrix[1..], cells);
    }
  }

  /** One page: the header line, then one line per row. */
  method RenderPage(columns: seq<string>, rows: seq<map<string, Value>>) returns (bytes: Bytes)
    ensures bytes == Encode(Lines([HeaderCells(columns)] + Matrix(columns, rows)))
    ensures columns != [] ==> exists text :: bytes == Encode(text) && ReadsAs(text, columns, rows)
  {
    var out := Line(HeaderCells(columns));
    ghost var m := Matrix(columns, rows);
    LinesSnoc([], HeaderCells(columns));
    assert [HeaderCells(columns)] + m[..0] == [] + [HeaderCells(columns)];
    for i := 0 to |rows|
      invariant out == Lines([HeaderCells(columns)] + m[..i])
    {
      LinesSnoc([HeaderCells(columns)] + m[..i], RowCells(columns, rows[i]));
      assert [HeaderCells(columns)] + m[..i + 1] == ([HeaderCells(columns)] + m[..i]) + [m[i]];
      out := out + Line(RowCells(columns, rows[i]));
    }
    assert m[..|rows|] == m;
    bytes := Encode(out);
    if columns != [] {
      PageReadsBack(columns, rows);
    }
  }

  // ----- Reading, by the quoting rules of section 2 of RFC 4180 with LF line ends

  // The text of a quoted field after its opening quote, and what follows its closing one.
  function ReadQuoted(s: string): (r: Option<(string, string)>)
    ensures r.Some? ==> |r.value.1| < |s|
  {
    if s == "" then None
    else if s[0] == '"' then
      if |s| > 1 && s[1] == '"' then
        match ReadQuoted(s[2..])
        case None => None
        case Some((text, rest)) => Some((['"'] + text, rest))
      else Some(("", s[1..]))
    else
      match ReadQuoted(s[1..])
      case None => None
      case Some((text, rest)) => Some(([s[0]] + text, rest))
  }

  // An unquoted field runs to the next comma or line feed and holds no quote.
  function ReadBare(s: string): (r: Option<(string, string)>)
    ensures r.Some? ==> |r.value.1| <= |s|
  {
    if s == "" || s[0] == '"' then None
    else if s[0] == ',' || s[0] == '\n' then Some(("", s))
    else
      match ReadBare(s[1..])
      case None => None
      case Some((text, rest)) => Some(([s[0]] + text, rest))
  }

  // An empty unquoted field is NULL.
  function ReadField(s: string): (r: Option<(Cell, string)>)
    ensures r.Some? ==> |r.value.1| <= |s|
  {
    if s != "" && s[0] == '"' then
      match ReadQuoted(s[1..])
      case None => None
      case Some((text, rest)) => Some((Some(text), rest))
    else
      match ReadBare(s)
      case None => None
      case Some((text, rest)) => Some((if text == "" then None else Some(text), rest))
  }

  function ReadRecord(s: string): (r: Option<(seq<Cell>, string)>)
    ensures r.Some? ==> |r.value.1| < |s|
    decreases |s|
  {
    match ReadField(s)
    case None => None
    case Some((cell, rest)) =>
      if rest == "" then None
      else if rest[0] == '\n' then Some(([cell], rest[1..]))
      else if rest[0] == ',' then
        match ReadRecord(rest[1..])
        case None => None
        case Some((cells, after)) => Some(([cell] + cells, after))
      else None
  }

  function ReadCsv(s: string): Option<seq<seq<Cell>>>
    decreases |s|
  {
    if s == "" then Some([])
    else
      match ReadRecord(s)
      case None => None
      case Some((cells, rest)) =>
        match ReadCsv(rest)
        case None => None
        case Some(more) => Some([cells] + more)
  }

  // ----- Reading undoes rendering

  lemma {:induction false} ReadQuotedDoubled(t: string, rest: string)
    requires rest == "" || rest[0] != '"'
    ensures ReadQuoted(Doubled(t) + ("\"" + rest)) == Some((t, rest))
  {
    var s := Doubled(t) + ("\"" + rest);
    if t == "" {
      assert s == "\"" + rest;
      assert s[1..] == rest;
    } else {
      ReadQuotedDoubled(t[1..], rest);
      var tail := Doubled(t[1..]) + ("\"" + rest);
      assert t == [t[0]] + t[1..];
      if t[0] == '"' {
        assert s[0] == '"' && s[1] == '"' && s[2..] == tail;
      } else {
        assert s[0] == t[0] && s[1..] == tail;
      }
    }
  }

  lemma ReadFieldRendered(c: Cell, rest: string)
    requires rest != "" && (rest[0] == ',' || rest[0] == '\n')
    ensures ReadField(Field(c) + rest) == Some((c, rest))
  {
    match c
    case None =>
      assert Field(c) + rest == rest;
    case Some(t) =>
      ReadQuotedDoubled(t, rest);
      var s := Field(c) + rest;
      assert s[0] == '"';
      assert s[1..] == Doubled(t) + ("\"" + rest);
  }

  lemma LastFieldRead(s: string, cell: Cell, rest: string)
    requires ReadField(s) == Some((cell, "\n" + rest))
    ensures ReadRecord(s) == Some(([cell], rest))
  {
    assert ("\n" + rest)[1..] == rest;
  }

  lemma InnerFieldRead(s: string, cell: Cell, tail: string, cells: seq<Cell>, rest: string)
    requires ReadField(s) == Some((cell, "," + tail)) && ReadRecord(tail) == Some((cells, rest))
    ensures ReadRecord(s) == Some(([cell] + cells, rest))
  {
    assert ("," + tail)[1..] == tail;
  }

  lemma RecordOfOne(c: Cell, rest: string)
    ensures ReadRecord(Line([c]) + rest) == Some(([c], rest))
  {
    hide ReadRecord, ReadField, Field;
    assert Line([c]) + rest == Field(c) + ("\n" + rest);
    ReadFieldRendered(c, "\n" + rest);
    LastFieldRead(Line([c]) + rest, c, rest);
  }

  lemma LineOfMore(c: Cell, cells: seq<Cell>)
    requires cells != []
    ensures Line([c] + cells) == Field(c) + ("," + Line(cells))
  {
    assert ([c] + cells)[1..] == cells;
  }

  lemma RecordOfMore(c: Cell, cells: seq<Cell>, rest: string)
    requires cells != [] && ReadRecord(Line(cells) + rest) == Some((cells, rest))
    ensures ReadRecord(Line([c] + cells) + rest) == Some(([c] + cells, rest))
  {
    hide ReadRecord, ReadField, Field, Line;
    var tail := Line(cells) + rest;
    LineOfMore(c, cells);
    assert Line([c] + cells) + rest == Field(c) + ("," + tail);
    ReadFieldRendered(c, "," + tail);
    InnerFieldRead(Line([c] + cells) + rest, c, tail, cells, rest);
  }

  lemma {:induction false} ReadRecordRendered(cells: seq<Cell>, rest: string)
    requires cells != []
    ensures ReadRecord(Line(cells) + rest) == Some((cells, rest))
    decreases |cells|
  {
    if |cells| == 1 {
      RecordOfOne(cells[0], rest);
      assert cells == [cells[0]];
    } else {
      ReadRecordRendered(cells[1..], rest);
      RecordOfMore(cells[0], cells[1..], rest);
      assert cells == [cells[0]] + cells[1..];
    }
  }

  /** The reader recovers every line, whatever the cells hold. */
  lemma {:induction false} ReadLinesRendered(matrix: seq<seq<Cell>>)
    requires forall i :: 0 <= i < |matrix| ==> matrix[i] != []
    ensures ReadCsv(Lines(matrix)) == Some(matrix)
  {
    hide Line, ReadRecord;
    if matrix != [] {
      ReadRecordRendered(matrix[0], Lines(matrix[1..]));
      ReadLinesRendered(matrix[1..]);
      assert Lines(matrix) != "" by {
        LineNotEmpty(matrix[0]);
      }
      assert matrix == [matrix[0]] + matrix[1..];
    }
  }

  lemma LineNotEmpty(cells: seq<Cell>)
    ensures Line(cells) != ""
  {
  }

  /** A rendered page determines its header and every nullable cell: pages with
      equal bytes carry equal contents, and NULL differs from the empty string. */
  lemma PageIsInvertible(columns: seq<string>, rows: seq<map<string, Value>>)
    requires columns != []
    ensures ReadCsv(Lines([HeaderCells(columns)] + Matrix(columns, rows)))
            == Some([HeaderCells(columns)] + Matrix(columns, rows))
  {
    ReadLinesRendered([HeaderCells(columns)] + Matrix(columns, rows));
  }

  lemma EqualBytesEqualCells(
    columns: seq<string>, rows: seq<map<string, Value>>, columns': seq<string>, rows': seq<map<string, Value>>)
    requires columns != [] && columns' != []
    requires Encode(Lines([HeaderCells(columns)] + Matrix(columns, rows)))
             == Encode(Lines([HeaderCells(columns')] + Matrix(columns', rows')))
    ensures columns == columns' && Matrix(columns, rows) == Matrix(columns', rows')
  {
    var a, b := [HeaderCells(columns)] + Matrix(columns, rows), [HeaderCells(columns')] + Matrix(columns', rows');
    EncodeInjective(Lines(a), Lines(b));
    PageIsInvertible(columns, rows);
    PageIsInvertible(columns', rows');
    assert a[0] == b[0] && a[1..] == b[1..];
    assert HeaderCells(columns) == HeaderCells(columns');
    forall i | 0 <= i < |columns| ensures columns[i] == columns'[i] {
      assert HeaderCells(columns)[i] == Some(columns[i]);
      assert HeaderCells(columns')[i] == Some(columns'[i]);
    }
  }

  // ----- What a page says about the rows it was given

  /** NULL for a missing or null value, otherwise the value's own spelling. */
  predicate CellIs(row: map<string, Value>, column: string, cell: Cell) {
    if column !in row || row[column].Null? then cell == None
    else
      match row[column]
      case Text(s) => cell == Some(s)
      case Bool(b) => cell == Some(if b then "true" else "false")
      case Number(spelling) => cell == Some(spelling)
      case Compound(json) => cell == Some(json)
  }

  /** Reading the text gives the column names, then one record per row with that
      row's value in every column. */
  ghost predicate ReadsAs(text: string, columns: seq<string>, rows: seq<map<string, Value>>) {
    && ReadCsv(text).Some?
    && var records := ReadCsv(text).value;
       && |records| == |rows| + 1
       && |records[0]| == |columns| && (forall j :: 0 <= j < |columns| ==> records[0][j] == Some(columns[j]))
       && (forall i :: 0 <= i < |rows| ==> RecordIs(records[i + 1], columns, rows[i]))
  }

  ghost predicate RecordIs(record: seq<Cell>, columns: seq<string>, row: map<string, Value>) {
    |record| == |columns| && forall j :: 0 <= j < |columns| ==> CellIs(row, columns[j], record[j])
  }

  lemma RowIsRecord(columns: seq<string>, row: map<string, Value>)
    ensures RecordIs(RowCells(columns, row), columns, row)
  {
  }

  /** A reader of the page recovers every value of every row, with NULL apart from
      the empty string. */
  lemma PageReadsBack(columns: seq<string>, rows: seq<map<string, Value>>)
    requires columns != []
    ensures ReadsAs(Lines([HeaderCells(columns)] + Matrix(columns, rows)), columns, rows)
  {
    hide ReadCsv, Lines, RecordIs, RowCells;
    PageIsInvertible(columns, rows);
    var records := [HeaderCells(columns)] + Matrix(columns, rows);
    assert records[0] == HeaderCells(columns);
    forall i | 0 <= i < |rows| ensures RecordIs(records[i + 1], columns, rows[i]) {
      assert records[i + 1] == RowCells(columns, rows[i]);
      RowIsRecord(columns, rows[i]);
    }
  }

  lemma TwoFields(a: Cell, b: Cell)
    ensures Line([a, b]) == Field(a) + ("," + (Field(b) + "\n"))
  {
    assert [a, b][1..] == [b];
  }

  lemma TwoLines(a: seq<Cell>, b: seq<Cell>)
    ensures Lines([a, b]) == Line(a) + Line(b)
  {
    hide Line;
    assert [a, b][1..] == [b] && [b][1..] == [];
    assert Lines([b]) == Line(b) + "";
  }

  lemma FieldExample()
    ensures Field(Some("a")) == "\"a\"" && Field(Some("x\"")) == "\"x\"\"\""
  {
    assert Doubled("\"") == "\"\"" + Doubled("");
    assert Doubled("x\"") == "x" + Doubled("\"") by {
      assert "x\""[1..] == "\"";
    }
    assert Doubled("a") == "a" + Doubled("");
  }

  lemma LinesExample()
    ensures Line([Some("a"), Some("a")]) == "\"a\",\"a\"\n" && Line([Some("x\""), None]) == "\"x\"\"\",\n"
  {
    hide Line, Doubled;
    FieldExample();
    TwoFields(Some("a"), Some("a"));
    TwoFields(Some("x\""), None);
  }

  /** The bytes of a small page: quotes doubled, commas between, a line feed after
      each line, nothing for a missing value. */
  lemma PageExample()
    ensures Lines([[Some("a"), Some("a")], [Some("x\""), None]]) == "\"a\",\"a\"\n\"x\"\"\",\n"
  {
    hide Line, Lines;
    LinesExample();
    TwoLines([Some("a"), Some("a")], [Some("x\""), None]);
  }
}
