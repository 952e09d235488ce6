/** The fixed-width Markdown table of the report: result_table with its
    helpers fmt and format_row (hometask3.py:145-171). */
module Table {
  import opened Results
  import opened Text

  /** A value in a result row: the case and algorithm names, the size and the
      median time. */
  datatype Cell = Str(s: string) | Int(i: int) | Float(x: real)

  /** result_table fails with IndexError when a line has more cells than
      there are columns. */
  datatype TableError = IndexError

  /** fmt: a float with six decimals, anything else as `str` prints it. */
  function Fmt(c: Cell): string {
    match c
    case Str(s) => s
    case Int(i) => IntToString(i)
    case Float(x) => Fixed6(x)
  }

  /** An int cell reads back as the same int; a float cell has six decimals. */
  lemma FmtReadsBack(c: Cell)
    ensures c.Int? ==> ParseInt(Fmt(c)) == Some(c.i)
    ensures c.Float? ==> |Fmt(c)| >= 8 && Fmt(c)[|Fmt(c)| - 7] == '.'
  {
    if c.Int? {
      ParseIntOfIntToString(c.i);
    }
  }

  /** A row's cells through fmt. */
  function FmtRow(row: seq<Cell>): (r: seq<string>)
    ensures |r| == |row|
    ensures forall i :: 0 <= i < |row| ==> r[i] == Fmt(row[i])
  {
    seq(|row|, i requires 0 <= i < |row| => Fmt(row[i]))
  }

  /** What `zip(*...)` reads column by column: the headers, then each row's
      formatted cells. */
  function Grid(rows: seq<seq<Cell>>, headers: seq<string>): (g: seq<seq<string>>)
    ensures |g| == |rows| + 1 && g[0] == headers
    ensures forall i :: 0 <= i < |rows| ==> g[i + 1] == FmtRow(rows[i])
  {
    [headers] + seq(|rows|, i requires 0 <= i < |rows| => FmtRow(rows[i]))
  }

  /** The index of a shortest line of `g`. */
  function ShortestLine(g: seq<seq<string>>): (i: nat)
    requires |g| > 0
    ensures i < |g|
    ensures forall j :: 0 <= j < |g| ==> |g[i]| <= |g[j]|
  {
    if |g| == 1 then 0
    else
      var k := ShortestLine(g[1..]) + 1;
      if |g[0]| <= |g[k]| then 0 else k
  }

  /** How many columns `zip(*g)` yields: as many as the shortest line has cells. */
  function ColumnCount(g: seq<seq<string>>): nat
    requires |g| > 0
  {
    |g[ShortestLine(g)]|
  }

  /** The index of a line whose cell in column `c` is the longest. */
  function WidestCell(g: seq<seq<string>>, c: nat): (i: nat)
    requires |g| > 0
    requires forall j :: 0 <= j < |g| ==> c < |g[j]|
    ensures i < |g|
    ensures forall j :: 0 <= j < |g| ==> |g[j][c]| <= |g[i][c]|
  {
    if |g| == 1 then 0
    else
      var k := WidestCell(g[1..], c) + 1;
      if |g[0][c]| >= |g[k][c]| then 0 else k
  }

  /** `widths`: for each column, the length of its longest cell. */
  function Widths(g: seq<seq<string>>): (ws: seq<nat>)
    requires |g| > 0
    ensures |ws| == ColumnCount(g)
    ensures forall c, j :: 0 <= c < |ws| && 0 <= j < |g| ==> |g[j][c]| <= ws[c]
    ensures forall c :: 0 <= c < |ws| ==> ws[c] == |g[WidestCell(g, c)][c]|
  {
    seq(ColumnCount(g), c requires 0 <= c < ColumnCount(g) => |g[WidestCell(g, c)][c]|)
  }

  /** `open + sep.join(parts) + close`: the shape of every line of the table. */
  function Framed(open: string, sep: string, close: string, parts: seq<string>): string {
    open + Join(sep, parts) + close
  }

  /** Each cell left-justified to its column's width. */
  function Padded(row: seq<string>, widths: seq<nat>): (r: seq<string>)
    requires |row| <= |widths|
    ensures |r| == |row|
    ensures forall i :: 0 <= i < |row| ==> r[i] == Ljust(row[i], widths[i])
    ensures forall i :: 0 <= i < |row| && |row[i]| <= widths[i] ==> |r[i]| == widths[i] && r[i][..|row[i]|] == row[i]
  {
    seq(|row|, i requires 0 <= i < |row| => Ljust(row[i], widths[i]))
  }

  /** format_row: `"| " + " | ".join(cell.ljust(widths[i]) ...) + " |"`. */
  function FormatRow(row: seq<string>, widths: seq<nat>): string
    requires |row| <= |widths|
  {
    Framed("| ", " | ", " |", Padded(row, widths))
  }

  /** The dashed line under the header: `"|-" + "-|-".join("-" * w ...) + "-|"`. */
  function SeparatorLine(widths: seq<nat>): string {
    Framed("|-", "-|-", "-|", seq(|widths|, i requires 0 <= i < |widths| => Repeat('-', widths[i])))
  }

  /** Whether some row has more cells than there are columns. */
  predicate TooLong(rows: seq<seq<Cell>>, k: nat) {
    exists i :: 0 <= i < |rows| && |rows[i]| > k
  }

  /** The list `lines` of result_table: the header line, the dashes, then one
      line per row. format_row indexes `widths` by cell position, so a header
      or row with more cells than the shortest line raises IndexError. */
  function TableLines(rows: seq<seq<Cell>>, headers: seq<string>): Result<seq<string>, TableError> {
    var g := Grid(rows, headers);
    var widths := Widths(g);
    if |headers| > |widths| then Failure(IndexError)
    else if TooLong(rows, |widths|) then Failure(IndexError)
    else
      Success([FormatRow(headers, widths), SeparatorLine(widths)] + RowLines(rows, widths))
  }

  /** The lines of the data rows, in order. */
  function RowLines(rows: seq<seq<Cell>>, widths: seq<nat>): (lines: seq<string>)
    requires forall i :: 0 <= i < |rows| ==> |rows[i]| <= |widths|
    ensures |lines| == |rows|
    ensures forall i :: 0 <= i < |rows| ==> lines[i] == FormatRow(FmtRow(rows[i]), widths)
  {
    seq(|rows|, i requires 0 <= i < |rows| => FormatRow(FmtRow(rows[i]), widths))
  }

  /** result_table: the lines joined by newlines. */
  function ResultTable(rows: seq<seq<Cell>>, headers: seq<string>): Result<string, TableError> {
    match TableLines(rows, headers)
    case Success(lines) => Success(Join("\n", lines))
    case Failure(e) => Failure(e)
  }

  // ---------------------------------------------------------------------------
  // Layout of a line
  // ---------------------------------------------------------------------------

  function Sum(ws: seq<nat>): nat {
    if ws == [] then 0 else ws[0] + Sum(ws[1..])
  }

  lemma {:induction false} SumSnoc(ws: seq<nat>, c: nat)
    requires c < |ws|
    ensures Sum(ws[..c + 1]) == Sum(ws[..c]) + ws[c]
  {
    if c > 0 {
      SumSnoc(ws[1..], c - 1);
      assert ws[..c + 1][1..] == ws[1..][..c];
      assert ws[..c][1..] == ws[1..][..c - 1];
    } else {
      assert ws[..1][1..] == [];
    }
  }

  /** `parts` has one string per width, each exactly that long. */
  predicate Fits(parts: seq<string>, ws: seq<nat>) {
    |parts| == |ws| && forall i :: 0 <= i < |ws| ==> |parts[i]| == ws[i]
  }

  /** Where the `c`-th part starts in `Join(sep, parts)`. */
  function PartStart(ws: seq<nat>, sepLen: nat, c: nat): nat
    requires c <= |ws|
  {
    Sum(ws[..c]) + sepLen * c
  }

  lemma PartStartNext(ws: seq<nat>, sepLen: nat, c: nat)
    requires c < |ws|
    ensures PartStart(ws, sepLen, c + 1) == PartStart(ws, sepLen, c) + ws[c] + sepLen
  {
    SumSnoc(ws, c);
  }

  lemma PartStartShift(ws: seq<nat>, sepLen: nat, c: nat)
    requires 1 <= c <= |ws|
    ensures PartStart(ws, sepLen, c) == ws[0] + sepLen + PartStart(ws[1..], sepLen, c - 1)
  {
    assert ws[..c][1..] == ws[1..][..c - 1];
  }

  /** The length of a join of parts of the given widths. */
  lemma {:induction false} JoinLength(sep: string, parts: seq<string>, ws: seq<nat>)
    requires Fits(parts, ws) && |ws| >= 1
    ensures |Join(sep, parts)| == Sum(ws) + |sep| * (|ws| - 1)
  {
    if |ws| > 1 {
      JoinLength(sep, parts[1..], ws[1..]);
    } else {
      assert ws[1..] == [];
    }
  }

  /** Part `c` of a join sits at PartStart(c). */
  lemma {:induction false} JoinPartAt(sep: string, parts: seq<string>, ws: seq<nat>, c: nat)
    requires Fits(parts, ws) && c < |ws|
    ensures PartStart(ws, |sep|, c) + ws[c] <= |Join(sep, parts)|
    ensures Join(sep, parts)[PartStart(ws, |sep|, c)..PartStart(ws, |sep|, c) + ws[c]] == parts[c]
  {
    JoinLength(sep, parts, ws);
    var j := Join(sep, parts);
    if c == 0 {
      assert ws[..0] == [];
      assert |ws| > 1 ==> j == parts[0] + (sep + Join(sep, parts[1..]));
    } else {
      var head := parts[0] + sep;
      var rest := Join(sep, parts[1..]);
      assert j == head + rest;
      JoinPartAt(sep, parts[1..], ws[1..], c - 1);
      PartStartShift(ws, |sep|, c);
      var s := PartStart(ws[1..], |sep|, c - 1);
      SliceAfter(head, rest, s, s + ws[c]);
    }
  }

  /** A slice of `rest` found again in `head + rest`, `|head|` further on. */
  lemma SliceAfter(head: string, rest: string, s: nat, t: nat)
    requires s <= t <= |rest|
    ensures (head + rest)[|head| + s..|head| + t] == rest[s..t]
  {
  }

  /** Between parts `c` and `c + 1` of a join stands the separator. */
  lemma {:induction false} JoinSepAt(sep: string, parts: seq<string>, ws: seq<nat>, c: nat)
    requires Fits(parts, ws) && c + 1 < |ws|
    ensures PartStart(ws, |sep|, c + 1) == PartStart(ws, |sep|, c) + ws[c] + |sep|
    ensures PartStart(ws, |sep|, c + 1) <= |Join(sep, parts)|
    ensures Join(sep, parts)[PartStart(ws, |sep|, c) + ws[c]..PartStart(ws, |sep|, c + 1)] == sep
  {
    JoinLength(sep, parts, ws);
    PartStartNext(ws, |sep|, c);
    var j := Join(sep, parts);
    var head := parts[0] + sep;
    var rest := Join(sep, parts[1..]);
    assert j == head + rest;
    if c == 0 {
      assert ws[..0] == [];
    } else {
      JoinSepAt(sep, parts[1..], ws[1..], c - 1);
      PartStartShift(ws, |sep|, c);
      PartStartShift(ws, |sep|, c + 1);
      var s := PartStart(ws[1..], |sep|, c - 1) + ws[c];
      var t := PartStart(ws[1..], |sep|, c);
      SliceAfter(head, rest, s, t);
    }
  }

  /** The width every line of a table with these column widths has:
      `4 + sum(widths) + 3 * (k - 1)` for `k >= 1` columns, 4 for none. */
  function LineWidth(ws: seq<nat>): nat {
    if ws == [] then 4 else Sum(ws) + 3 * |ws| + 1
  }

  /** The position of the `|` in front of column `c`. */
  function Bar(ws: seq<nat>, c: nat): nat
    requires c <= |ws|
  {
    PartStart(ws, 3, c)
  }

  /** The frame characters every line shares. */
  predicate Frame(open: string, sep: string, close: string) {
    && |open| == 2 && |sep| == 3 && |close| == 2
    && open[0] == '|' && sep[1] == '|' && close[1] == '|'
  }

  /** A framed line is LineWidth wide and ends with `|`. */
  lemma FramedWidth(open: string, sep: string, close: string, parts: seq<string>, ws: seq<nat>)
    requires Frame(open, sep, close) && Fits(parts, ws)
    ensures |Framed(open, sep, close, parts)| == LineWidth(ws)
    ensures Framed(open, sep, close, parts)[LineWidth(ws) - 1] == '|'
  {
    if ws != [] {
      JoinLength(sep, parts, ws);
    }
  }

  /** Column `c` of a framed line: a `|` at Bar(c), then a blank or dash, then
      the part. */
  lemma FramedColumn(open: string, sep: string, close: string, parts: seq<string>, ws: seq<nat>, c: nat)
    requires Frame(open, sep, close) && Fits(parts, ws) && c < |ws|
    ensures |Framed(open, sep, close, parts)| == LineWidth(ws)
    ensures Bar(ws, c) + 2 + ws[c] <= LineWidth(ws)
    ensures Framed(open, sep, close, parts)[Bar(ws, c)] == '|'
    ensures Framed(open, sep, close, parts)[Bar(ws, c) + 2..Bar(ws, c) + 2 + ws[c]] == parts[c]
  {
    FramedWidth(open, sep, close, parts, ws);
    FramedPart(open, sep, close, parts, ws, c);
    FramedBar(open, sep, close, parts, ws, c);
  }

  /** Part `c` of a framed line starts two characters after Bar(c). */
  lemma FramedPart(open: string, sep: string, close: string, parts: seq<string>, ws: seq<nat>, c: nat)
    requires Frame(open, sep, close) && Fits(parts, ws) && c < |ws|
    ensures Bar(ws, c) + 2 + ws[c] <= |Framed(open, sep, close, parts)|
    ensures Framed(open, sep, close, parts)[Bar(ws, c) + 2..Bar(ws, c) + 2 + ws[c]] == parts[c]
  {
    JoinPartAt(sep, parts, ws, c);
    InsideFrame(open, Join(sep, parts), close, PartStart(ws, 3, c), ws[c]);
  }

  /** A framed line has a `|` at Bar(c): the opening's for the first column,
      the middle of a separator for the others. */
  lemma FramedBar(open: string, sep: string, close: string, parts: seq<string>, ws: seq<nat>, c: nat)
    requires Frame(open, sep, close) && Fits(parts, ws) && c < |ws|
    ensures Bar(ws, c) < |Framed(open, sep, close, parts)|
    ensures Framed(open, sep, close, parts)[Bar(ws, c)] == '|'
  {
    var j := Join(sep, parts);
    if c == 0 {
      assert ws[..0] == [];
    } else {
      JoinSepAt(sep, parts, ws, c - 1);
      var p := PartStart(ws, 3, c - 1);
      var s := PartStart(ws, 3, c);
      assert j[p + ws[c - 1]..s] == sep;
      assert j[s - 2] == sep[1];
      InsideFrame(open, j, close, s - 2, 1);
    }
  }

  /** A slice of the joined parts, seen through the two-character opening. */
  lemma InsideFrame(open: string, j: string, close: string, s: nat, w: nat)
    requires |open| == 2 && s + w <= |j|
    ensures (open + j + close)[s + 2..s + 2 + w] == j[s..s + w]
    ensures w > 0 ==> (open + j + close)[s + 2] == j[s]
  {
  }

  /** Every line has the same width and a `|` at the same places. */
  ghost predicate Aligned(lines: seq<string>, ws: seq<nat>) {
    && (forall l :: 0 <= l < |lines| ==> |lines[l]| == LineWidth(ws) && lines[l][LineWidth(ws) - 1] == '|')
    && (forall l, c :: 0 <= l < |lines| && 0 <= c < |ws| ==> Bar(ws, c) < |lines[l]| && lines[l][Bar(ws, c)] == '|')
  }

  /** The text of column `c` in a line of an aligned table. */
  function CellText(line: string, ws: seq<nat>, c: nat): string
    requires c < |ws| && |line| == LineWidth(ws)
  {
    FramedBound(ws, c);
    line[Bar(ws, c) + 2..Bar(ws, c) + 2 + ws[c]]
  }

  lemma FramedBound(ws: seq<nat>, c: nat)
    requires c < |ws|
    ensures Bar(ws, c) + 2 + ws[c] <= LineWidth(ws)
  {
    var parts := seq(|ws|, i requires 0 <= i < |ws| => Repeat(' ', ws[i]));
    FramedColumn("| ", " | ", " |", parts, ws, c);
  }

  /** result_table succeeds exactly when every row has one cell per header. */
  lemma TableLinesSucceeds(rows: seq<seq<Cell>>, headers: seq<string>)
    ensures TableLines(rows, headers).Success? <==> forall i :: 0 <= i < |rows| ==> |rows[i]| == |headers|
  {
    var g := Grid(rows, headers);
    var k := ColumnCount(g);
    assert k <= |g[0]| == |headers|;
    if forall i :: 0 <= i < |rows| ==> |rows[i]| == |headers| {
      assert forall j :: 0 <= j < |g| ==> |g[j]| == |headers|;
      assert !TooLong(rows, k);
    }
    if TableLines(rows, headers).Success? {
      forall i | 0 <= i < |rows| ensures |rows[i]| == |headers| {
        assert |g[i + 1]| == |rows[i]|;
      }
    }
  }

  /** Column widths of a rectangular table: column `c` is exactly as wide as
      the longest of its header and its formatted cells. */
  function ColumnWidths(rows: seq<seq<Cell>>, headers: seq<string>): (ws: seq<nat>)
    requires forall i :: 0 <= i < |rows| ==> |rows[i]| == |headers|
    ensures |ws| == |headers|
    ensures forall c :: 0 <= c < |ws| ==> |headers[c]| <= ws[c]
    ensures forall i, c :: 0 <= i < |rows| && 0 <= c < |ws| ==> |Fmt(rows[i][c])| <= ws[c]
    ensures forall c :: 0 <= c < |ws| ==>
      ws[c] == |headers[c]| || exists i :: 0 <= i < |rows| && ws[c] == |Fmt(rows[i][c])|
  {
    GridWidths(rows, headers);
    Widths(Grid(rows, headers))
  }

  /** The widths of the grid of a rectangular table: one per header, each at
      least as wide as every text of its column. */
  lemma GridWidths(rows: seq<seq<Cell>>, headers: seq<string>)
    requires forall i :: 0 <= i < |rows| ==> |rows[i]| == |headers|
    ensures |Widths(Grid(rows, headers))| == |headers|
    ensures var ws := Widths(Grid(rows, headers));
      forall c :: 0 <= c < |ws| ==> |headers[c]| <= ws[c]
    ensures var ws := Widths(Grid(rows, headers));
      forall i, c :: 0 <= i < |rows| && 0 <= c < |ws| ==> |Fmt(rows[i][c])| <= ws[c]
    ensures var ws := Widths(Grid(rows, headers));
      forall c :: 0 <= c < |ws| ==>
        ws[c] == |headers[c]| || exists i :: 0 <= i < |rows| && ws[c] == |Fmt(rows[i][c])|
  {
    var g := Grid(rows, headers);
    assert forall j :: 0 <= j < |g| ==> |g[j]| == |headers|;
    var ws := Widths(g);
    forall i, c | 0 <= i < |rows| && 0 <= c < |ws| ensures |Fmt(rows[i][c])| <= ws[c] {
      assert g[i + 1][c] == Fmt(rows[i][c]);
    }
    forall c | 0 <= c < |ws|
      ensures ws[c] == |headers[c]| || exists i :: 0 <= i < |rows| && ws[c] == |Fmt(rows[i][c])|
    {
      GridWidthAttained(rows, headers, c);
    }
  }

  /** Column `c`'s width is the width of its header or of one of its cells. */
  lemma GridWidthAttained(rows: seq<seq<Cell>>, headers: seq<string>, c: nat)
    requires forall i :: 0 <= i < |rows| ==> |rows[i]| == |headers|
    requires c < |headers|
    ensures forall j :: 0 <= j < |Grid(rows, headers)| ==> c < |Grid(rows, headers)[j]|
    ensures var g := Grid(rows, headers);
      var w := |g[WidestCell(g, c)][c]|;
      w == |headers[c]| || exists i :: 0 <= i < |rows| && w == |Fmt(rows[i][c])|
  {
    var g := Grid(rows, headers);
    assert forall j :: 0 <= j < |g| ==> |g[j]| == |headers|;
    var w := WidestCell(g, c);
    if w > 0 {
      assert g[w][c] == Fmt(rows[w - 1][c]);
    }
  }

  /** What line `l` of the table frames: the padded headers, the dashes, or
      the padded cells of row `l - 2`. */
  function LineParts(rows: seq<seq<Cell>>, headers: seq<string>, l: nat): (parts: seq<string>)
    requires forall i :: 0 <= i < |rows| ==> |rows[i]| == |headers|
    requires l < |rows| + 2
    ensures Fits(parts, ColumnWidths(rows, headers))
  {
    var ws := ColumnWidths(rows, headers);
    if l == 0 then
      Padded(headers, ws)
    else if l == 1 then seq(|ws|, i requires 0 <= i < |ws| => Repeat('-', ws[i]))
    else
      RowFits(rows, headers, l - 2);
      Padded(FmtRow(rows[l - 2]), ws)
  }

  /** The padded texts of a row fill the table's columns exactly. */
  lemma RowFits(rows: seq<seq<Cell>>, headers: seq<string>, i: nat)
    requires forall i :: 0 <= i < |rows| ==> |rows[i]| == |headers|
    requires i < |rows|
    ensures Fits(Padded(FmtRow(rows[i]), ColumnWidths(rows, headers)), ColumnWidths(rows, headers))
  {
    var ws := ColumnWidths(rows, headers);
    var texts := FmtRow(rows[i]);
    forall c | 0 <= c < |ws|
      ensures |texts[c]| <= ws[c]
    {
      assert texts[c] == Fmt(rows[i][c]);
    }
  }

  /** For a rectangular input the widths are ColumnWidths and no line is too long. */
  lemma TableLinesValue(rows: seq<seq<Cell>>, headers: seq<string>)
    requires forall i :: 0 <= i < |rows| ==> |rows[i]| == |headers|
    ensures TableLines(rows, headers) == Success(
      [FormatRow(headers, ColumnWidths(rows, headers)), SeparatorLine(ColumnWidths(rows, headers))]
        + RowLines(rows, ColumnWidths(rows, headers)))
  {
    TableLinesSucceeds(rows, headers);
    var g := Grid(rows, headers);
    assert forall j :: 0 <= j < |g| ==> |g[j]| == |headers|;
    assert ColumnWidths(rows, headers) == Widths(g);
  }

  lemma TableLine(rows: seq<seq<Cell>>, headers: seq<string>, l: nat)
    requires forall i :: 0 <= i < |rows| ==> |rows[i]| == |headers|
    requires l < |rows| + 2
    ensures TableLines(rows, headers).Success?
    ensures |TableLines(rows, headers).value| == |rows| + 2
    ensures TableLines(rows, headers).value[l] ==
      if l == 1 then Framed("|-", "-|-", "-|", LineParts(rows, headers, l))
      else Framed("| ", " | ", " |", LineParts(rows, headers, l))
  {
    TableLinesValue(rows, headers);
    var ws := ColumnWidths(rows, headers);
    var lines := TableLines(rows, headers).value;
    if l == 0 {
      assert lines[0] == FormatRow(headers, ws);
    } else if l == 1 {
      assert lines[1] == SeparatorLine(ws);
    } else {
      assert lines[l] == RowLines(rows, ws)[l - 2];
    }
  }

  /** A framed line, column by column. */
  lemma FramedCells(line: string, open: string, sep: string, close: string, parts: seq<string>, ws: seq<nat>)
    requires Frame(open, sep, close) && Fits(parts, ws)
    requires line == Framed(open, sep, close, parts)
    ensures |line| == LineWidth(ws) && line[LineWidth(ws) - 1] == '|'
    ensures forall c :: 0 <= c < |ws| ==> Bar(ws, c) < |line| && line[Bar(ws, c)] == '|'
    ensures forall c :: 0 <= c < |ws| ==> CellText(line, ws, c) == parts[c]
  {
    FramedWidth(open, sep, close, parts, ws);
    forall c | 0 <= c < |ws|
      ensures Bar(ws, c) < |line| && line[Bar(ws, c)] == '|'
      ensures CellText(line, ws, c) == parts[c]
    {
      FramedColumn(open, sep, close, parts, ws, c);
    }
  }

  /** The shape of result_table's output for a rectangular input: `len(rows) + 2`
      lines of equal width with their `|` aligned; the header, dashes and
      each formatted cell left-justified in its column. */
  lemma TableLayout(rows: seq<seq<Cell>>, headers: seq<string>)
    requires forall i :: 0 <= i < |rows| ==> |rows[i]| == |headers|
    ensures TableLines(rows, headers).Success?
    ensures |TableLines(rows, headers).value| == |rows| + 2
    ensures Aligned(TableLines(rows, headers).value, ColumnWidths(rows, headers))
    ensures forall l, c :: 0 <= l < |rows| + 2 && 0 <= c < |headers| ==>
      CellText(TableLines(rows, headers).value[l], ColumnWidths(rows, headers), c)
        == LineParts(rows, headers, l)[c]
  {
    TableLinesSucceeds(rows, headers);
    var lines := TableLines(rows, headers).value;
    var ws := ColumnWidths(rows, headers);
    forall l | 0 <= l < |lines|
      ensures |lines[l]| == LineWidth(ws) && lines[l][LineWidth(ws) - 1] == '|'
      ensures forall c :: 0 <= c < |ws| ==> Bar(ws, c) < |lines[l]| && lines[l][Bar(ws, c)] == '|'
      ensures forall c :: 0 <= c < |ws| ==> CellText(lines[l], ws, c) == LineParts(rows, headers, l)[c]
    {
      TableLineFramed(rows, headers, l);
    }
  }

  /** Line `l` of the table: its width, its bars and its cells. */
  lemma TableLineFramed(rows: seq<seq<Cell>>, headers: seq<string>, l: nat)
    requires forall i :: 0 <= i < |rows| ==> |rows[i]| == |headers|
    requires l < |rows| + 2
    ensures TableLines(rows, headers).Success?
    ensures |TableLines(rows, headers).value| == |rows| + 2
    ensures var line, ws := TableLines(rows, headers).value[l], ColumnWidths(rows, headers);
      && |line| == LineWidth(ws) && line[LineWidth(ws) - 1] == '|'
      && (forall c :: 0 <= c < |ws| ==> Bar(ws, c) < |line| && line[Bar(ws, c)] == '|')
      && (forall c :: 0 <= c < |ws| ==> CellText(line, ws, c) == LineParts(rows, headers, l)[c])
  {
    TableLine(rows, headers, l);
    var line := TableLines(rows, headers).value[l];
    var ws := ColumnWidths(rows, headers);
    if l == 1 {
      FramedCells(line, "|-", "-|-", "-|", LineParts(rows, headers, l), ws);
    } else {
      FramedCells(line, "| ", " | ", " |", LineParts(rows, headers, l), ws);
    }
  }

  /** Column `c` of the line of row `i` (line `i + 2`, below the header
      and the dashes) is that row's formatted cell, left-justified. */
  lemma RowCell(rows: seq<seq<Cell>>, headers: seq<string>, i: nat, c: nat)
    requires forall j :: 0 <= j < |rows| ==> |rows[j]| == |headers|
    requires i < |rows| && c < |headers|
    ensures TableLines(rows, headers).Success?
    ensures |TableLines(rows, headers).value| == |rows| + 2
    ensures |TableLines(rows, headers).value[i + 2]| == LineWidth(ColumnWidths(rows, headers))
    ensures CellText(TableLines(rows, headers).value[i + 2], ColumnWidths(rows, headers), c)
      == Ljust(Fmt(rows[i][c]), ColumnWidths(rows, headers)[c])
  {
    TableLayout(rows, headers);
    assert LineParts(rows, headers, i + 2) == Padded(FmtRow(rows[i]), ColumnWidths(rows, headers));
  }
}
