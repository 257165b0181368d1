/**
 * The bulk import: reading a CSV text into activity entries (`parseCSV`) and the
 * downloadable template (`downloadTemplate`).
 */
module BulkImport {
  import opened Wrappers
  import opened Types
  import opened Text
  import opened Seqs

  /** Why a parse fails; `row` is the number the message shows (index among data rows + 2). */
  datatype CsvError =
    | EmptyOrMissingData
    | MissingFields(row: int)
    | InvalidBoard(row: int, value: string)
    | InvalidStatus(row: int, value: string)

  /** One parsed row: an activity without id, with its date cells kept as text. */
  datatype ImportEntry = ImportEntry(
    activityName: string,
    startDate: string,
    endDate: string,
    board: Board,
    status: Status,
    isLocked: bool)

  /** The fields a row has filled before validation; None is a field left undefined. */
  datatype RowFields = RowFields(
    name: Option<string>,
    start: Option<string>,
    end: Option<string>,
    board: Option<string>,
    status: Option<string>)

  /** The header line's cells, trimmed and lower-cased. */
  function HeaderCells(line: string): (r: seq<string>)
    ensures |r| == |Split(line, ',')|
    ensures forall k :: 0 <= k < |r| ==> r[k] == ToLower(Trim(Split(line, ',')[k]))
  {
    var cells := Split(line, ',');
    seq(|cells|, k requires 0 <= k < |cells| => ToLower(Trim(cells[k])))
  }

  /** A data line's cells, trimmed. */
  function Cells(line: string): (r: seq<string>)
    ensures |r| == |Split(line, ',')|
    ensures forall k :: 0 <= k < |r| ==> r[k] == Trim(Split(line, ',')[k])
  {
    var cells := Split(line, ',');
    seq(|cells|, k requires 0 <= k < |cells| => Trim(cells[k]))
  }

  /** `values[i]`: undefined past the end of the row. */
  function Cell(values: seq<string>, i: nat): Option<string>
  {
    if i < |values| then Some(values[i]) else None
  }

  /**
   * The value the header loop leaves in the field for `key`: every header containing the
   * key overwrites the field with its cell, so the last such header decides, and its cell
   * may be missing; with no such header the field stays undefined.
   */
  function Field(headers: seq<string>, values: seq<string>, key: string): (r: Option<string>)
    ensures (forall i :: 0 <= i < |headers| ==> !Contains(headers[i], key)) ==> r == None
    ensures forall i :: (0 <= i < |headers| && Contains(headers[i], key)
              && (forall j :: i < j < |headers| ==> !Contains(headers[j], key))) ==> r == Cell(values, i)
  {
    if headers == [] then None
    else if Contains(headers[|headers| - 1], key) then Cell(values, |headers| - 1)
    else
      var r := Field(headers[..|headers| - 1], values, key);
      assert forall i :: 0 <= i < |headers| - 1 ==> headers[..|headers| - 1][i] == headers[i];
      r
  }

  /** What the header loop fills in for one row. */
  function Fill(headers: seq<string>, values: seq<string>): RowFields
  {
    RowFields(Field(headers, values, "name"), Field(headers, values, "start"), Field(headers, values, "end"),
              Field(headers, values, "board"), Field(headers, values, "status"))
  }

  /** The header loop (`headers.forEach`) over one row's cells. */
  method FillRow(headers: seq<string>, values: seq<string>) returns (f: RowFields)
    ensures f == Fill(headers, values)
  {
    f := RowFields(None, None, None, None, None);
    for i := 0 to |headers|
      invariant f == Fill(headers[..i], values)
    {
      assert headers[..i + 1][..i] == headers[..i];
      var val := Cell(values, i);
      var header := headers[i];
      if Contains(header, "name") { f := f.(name := val); }
      if Contains(header, "start") { f := f.(start := val); }
      if Contains(header, "end") { f := f.(end := val); }
      if Contains(header, "board") { f := f.(board := val); }
      if Contains(header, "status") { f := f.(status := val); }
    }
    assert headers[..|headers|] == headers;
  }

  /** A field is filled with a non-empty text (JavaScript truthiness of a string). */
  predicate Present(o: Option<string>)
  {
    o.Some? && o.value != ""
  }

  /** The override: a board chosen in the dialog replaces whatever the row says. */
  function Override(f: RowFields, selected: Option<Board>): RowFields
  {
    if selected.Some? then f.(board := Some(BoardName(selected.value))) else f
  }

  /** Validation of one row's fields, then the SECRETARIAT rule. */
  function Check(f: RowFields, row: int): (r: Result<ImportEntry, CsvError>)
    ensures !(Present(f.name) && Present(f.start) && Present(f.end) && Present(f.board) && Present(f.status))
            ==> r == Err(MissingFields(row))
    ensures r.Ok? <==> Present(f.name) && Present(f.start) && Present(f.end) && Present(f.board)
                       && Present(f.status) && ParseBoard(f.board.value).Some? && ParseStatus(f.status.value).Some?
    ensures r.Ok? ==> && r.value.activityName == f.name.value
                      && r.value.startDate == f.start.value && r.value.endDate == f.end.value
                      && BoardName(r.value.board) == f.board.value
                      && (r.value.board == Secretariat ==> r.value.status == Statutory)
                      && (r.value.board != Secretariat ==> StatusName(r.value.status) == f.status.value)
                      && (r.value.isLocked <==> r.value.board == Secretariat)
    ensures r.Err? ==> r.error != EmptyOrMissingData && r.error.row == row
  {
    if !(Present(f.name) && Present(f.start) && Present(f.end) && Present(f.board) && Present(f.status)) then
      Err(MissingFields(row))
    else
      match ParseBoard(f.board.value)
      case None => Err(InvalidBoard(row, f.board.value))
      case Some(b) =>
        match ParseStatus(f.status.value)
        case None => Err(InvalidStatus(row, f.status.value))
        case Some(s) =>
          if b == Secretariat then Ok(ImportEntry(f.name.value, f.start.value, f.end.value, b, Statutory, true))
          else Ok(ImportEntry(f.name.value, f.start.value, f.end.value, b, s, false))
  }

  /** One data line, the idx-th non-blank one, parsed against the header cells. */
  function ParseRow(headers: seq<string>, line: string, idx: nat, selected: Option<Board>): Result<ImportEntry, CsvError>
  {
    Check(Override(Fill(headers, Cells(line)), selected), idx + 2)
  }

  /** `method` form of the row step: fill, override, validate. */
  method ParseRowEntry(headers: seq<string>, line: string, idx: nat, selected: Option<Board>)
    returns (r: Result<ImportEntry, CsvError>)
    ensures r == ParseRow(headers, line, idx, selected)
  {
    var entry := FillRow(headers, Cells(line));
    if selected.Some? {
      entry := entry.(board := Some(BoardName(selected.value)));
    }
    if !(Present(entry.name) && Present(entry.start) && Present(entry.end) && Present(entry.board) && Present(entry.status)) {
      return Err(MissingFields(idx + 2));
    }
    var board := ParseBoard(entry.board.value);
    if board.None? {
      return Err(InvalidBoard(idx + 2, entry.board.value));
    }
    var status := ParseStatus(entry.status.value);
    if status.None? {
      return Err(InvalidStatus(idx + 2, entry.status.value));
    }
    var locked := false;
    var s := status.value;
    if board.value == Secretariat {
      s := Statutory;
      locked := true;
    }
    r := Ok(ImportEntry(entry.name.value, entry.start.value, entry.end.value, board.value, s, locked));
  }

  /** `filter(line => line.trim() !== '')`: the non-blank lines, in order. */
  function DataRows(lines: seq<string>): (r: seq<string>)
    ensures |r| <= |lines|
    ensures forall k :: 0 <= k < |r| ==> !Blank(r[k])
    ensures forall x :: x in r <==> x in lines && !Blank(x)
  {
    if lines == [] then []
    else (if Blank(lines[0]) then [] else [lines[0]]) + DataRows(lines[1..])
  }

  /** The data rows of two runs of lines are those of the first run followed by those of the second. */
  lemma {:induction false} DataRowsAppend(a: seq<string>, b: seq<string>)
    ensures DataRows(a + b) == DataRows(a) + DataRows(b)
    decreases |a|
  {
    if a == [] {
      assert a + b == b;
    } else {
      ConsAppend(a, b);
      DataRowsAppend(a[1..], b);
      var keep := if Blank(a[0]) then [] else [a[0]];
      assert DataRows(a + b) == keep + DataRows(a[1..] + b);
      AppendAssoc(keep, DataRows(a[1..]), DataRows(b));
    }
  }

  /** A non-blank line is kept as often as it occurs, and a blank one never. */
  lemma {:induction false} DataRowsCount(lines: seq<string>, x: string)
    ensures multiset(DataRows(lines))[x] == if Blank(x) then 0 else multiset(lines)[x]
  {
    if lines != [] {
      HeadTail(lines);
      DataRowsCount(lines[1..], x);
    }
  }

  /** Lines none of which is blank are all data rows, as they stand. */
  lemma {:induction false} DataRowsNoBlank(lines: seq<string>)
    requires forall k :: 0 <= k < |lines| ==> !Blank(lines[k])
    ensures DataRows(lines) == lines
  {
    if lines != [] {
      HeadTail(lines);
      DataRowsNoBlank(lines[1..]);
    }
  }

  /** `dataRows.map(...)` without the throw: each row's outcome, rows numbered from 0. */
  function RowResults(headers: seq<string>, rows: seq<string>, selected: Option<Board>)
    : (r: seq<Result<ImportEntry, CsvError>>)
    ensures |r| == |rows|
    ensures forall k :: 0 <= k < |rows| ==> r[k] == ParseRow(headers, rows[k], k, selected)
  {
    seq(|rows|, k requires 0 <= k < |rows| => ParseRow(headers, rows[k], k, selected))
  }

  /** A `map` whose callback may throw: all the values, or the first error met. */
  function FirstError<T, E>(rs: seq<Result<T, E>>): Result<seq<T>, E>
  {
    if rs == [] then Ok([])
    else if rs[0].Err? then Err(rs[0].error)
    else
      var rest := FirstError(rs[1..]);
      if rest.Err? then rest else Ok([rs[0].value] + rest.value)
  }

  /** `parseCSV` on the file's text, with the board chosen in the dialog (None for AUTO). */
  function ParseCsv(text: string, selected: Option<Board>): Result<seq<ImportEntry>, CsvError>
  {
    var lines := SplitLines(text);
    if |lines| < 2 then Err(EmptyOrMissingData)
    else FirstError(RowResults(HeaderCells(lines[0]), DataRows(lines[1..]), selected))
  }

  /**
   * A throwing `map` succeeds exactly when every callback does, and then yields their
   * values in order; otherwise it fails with the error of the first failing callback.
   */
  lemma {:induction false} FirstErrorResult<T, E>(rs: seq<Result<T, E>>)
    ensures var r := FirstError(rs);
      && (r.Ok? <==> forall k :: 0 <= k < |rs| ==> rs[k].Ok?)
      && (r.Ok? ==> |r.value| == |rs| && forall k :: 0 <= k < |rs| ==> r.value[k] == rs[k].value)
      && (r.Err? ==> exists k :: 0 <= k < |rs| && rs[k] == Err(r.error) && forall j :: 0 <= j < k ==> rs[j].Ok?)
  {
    if rs != [] {
      FirstErrorResult(rs[1..]);
      var r := FirstError(rs);
      if r.Err? && rs[0].Ok? {
        var k :| 0 <= k < |rs| - 1 && rs[1..][k] == Err(r.error) && forall j :: 0 <= j < k ==> rs[1..][j].Ok?;
        assert rs[k + 1] == Err(r.error);
        assert forall j :: 0 <= j < k + 1 ==> rs[j].Ok? by {
          assert forall j :: 1 <= j < k + 1 ==> rs[j] == rs[1..][j - 1];
        }
      }
    }
  }

  /** A text is rejected as empty exactly when it has no line feed, i.e. fewer than two lines. */
  lemma {:induction false} ParseCsvTooShort(text: string, selected: Option<Board>)
    ensures ParseCsv(text, selected) == Err(EmptyOrMissingData) <==> '\n' !in text
  {
    CountZero(text, '\n');
    if '\n' in text {
      var r := ParseCsv(text, selected);
      if r.Err? {
        ParseCsvFails(text, selected);
      }
    }
  }

  lemma {:induction false} CountZero(s: string, c: char)
    ensures Count(s, c) == 0 <==> c !in s
  {
    if s != [] {
      CountZero(s[1..], c);
      assert s == [s[0]] + s[1..];
    }
  }

  /** The header cells of a text with at least two lines. */
  function Headers(text: string): seq<string>
    requires '\n' in text
  {
    CountZero(text, '\n');
    HeaderCells(SplitLines(text)[0])
  }

  /** The data rows of a text with at least two lines: its non-blank lines after the header line. */
  function Rows(text: string): seq<string>
    requires '\n' in text
  {
    CountZero(text, '\n');
    DataRows(SplitLines(text)[1..])
  }

  /**
   * A successful parse has one entry per non-blank data line, in order, each the parse of
   * that line; a failed one is the failure of the first bad data line, whose number in the
   * message is its index among the data rows + 2.
   */
  lemma {:induction false} ParseCsvRows(text: string, selected: Option<Board>)
    requires '\n' in text
    ensures var r := ParseCsv(text, selected);
      && (r.Ok? ==> |r.value| == |Rows(text)|
                    && forall k :: 0 <= k < |Rows(text)| ==> ParseRow(Headers(text), Rows(text)[k], k, selected) == Ok(r.value[k]))
      && (r.Err? ==> exists k :: 0 <= k < |Rows(text)| && r.error != EmptyOrMissingData && r.error.row == k + 2
                      && ParseRow(Headers(text), Rows(text)[k], k, selected) == Err(r.error)
                      && forall j :: 0 <= j < k ==> ParseRow(Headers(text), Rows(text)[j], j, selected).Ok?)
  {
    if ParseCsv(text, selected).Ok? {
      ParseCsvSucceeds(text, selected);
    } else {
      ParseCsvFails(text, selected);
    }
  }

  /** With two lines or more, the parse is the throwing map over the data rows. */
  lemma {:induction false} ParseCsvMap(text: string, selected: Option<Board>)
    requires '\n' in text
    ensures ParseCsv(text, selected) == FirstError(RowResults(Headers(text), Rows(text), selected))
  {
    CountZero(text, '\n');
  }

  /** The success half of `ParseCsvRows`. */
  lemma {:induction false} ParseCsvSucceeds(text: string, selected: Option<Board>)
    requires '\n' in text
    requires ParseCsv(text, selected).Ok?
    ensures var v := ParseCsv(text, selected).value;
      && |v| == |Rows(text)|
      && forall k :: 0 <= k < |Rows(text)| ==> ParseRow(Headers(text), Rows(text)[k], k, selected) == Ok(v[k])
  {
    ParseCsvMap(text, selected);
    AllRowsGood(Headers(text), Rows(text), selected);
  }

  /** The failure half of `ParseCsvRows`. */
  lemma {:induction false} ParseCsvFails(text: string, selected: Option<Board>)
    requires '\n' in text
    requires ParseCsv(text, selected).Err?
    ensures var e := ParseCsv(text, selected).error;
      exists k :: 0 <= k < |Rows(text)| && e != EmptyOrMissingData && e.row == k + 2
                  && ParseRow(Headers(text), Rows(text)[k], k, selected) == Err(e)
                  && forall j :: 0 <= j < k ==> ParseRow(Headers(text), Rows(text)[j], j, selected).Ok?
  {
    ParseCsvMap(text, selected);
    FirstBadRow(Headers(text), Rows(text), selected);
  }

  /** When every row parses, the entries are the rows' parses in order. */
  lemma {:induction false} AllRowsGood(hs: seq<string>, rows: seq<string>, selected: Option<Board>)
    requires FirstError(RowResults(hs, rows, selected)).Ok?
    ensures var v := FirstError(RowResults(hs, rows, selected)).value;
      && |v| == |rows|
      && forall k :: 0 <= k < |rows| ==> ParseRow(hs, rows[k], k, selected) == Ok(v[k])
  {
    FirstErrorResult(RowResults(hs, rows, selected));
  }

  /** When some row fails, the error is that of the first failing row, numbered by its index + 2. */
  lemma {:induction false} FirstBadRow(hs: seq<string>, rows: seq<string>, selected: Option<Board>)
    requires FirstError(RowResults(hs, rows, selected)).Err?
    ensures var e := FirstError(RowResults(hs, rows, selected)).error;
      exists k :: 0 <= k < |rows| && e != EmptyOrMissingData && e.row == k + 2
                  && ParseRow(hs, rows[k], k, selected) == Err(e)
                  && forall j :: 0 <= j < k ==> ParseRow(hs, rows[j], j, selected).Ok?
  {
    var rs := RowResults(hs, rows, selected);
    var e := FirstError(rs).error;
    FirstErrorResult(rs);
    var k :| 0 <= k < |rs| && rs[k] == Err(e) && forall j :: 0 <= j < k ==> rs[j].Ok?;
    assert ParseRow(hs, rows[k], k, selected) == Err(e);
    RowNumber(hs, rows[k], k, selected);
    assert forall j :: 0 <= j < k ==> ParseRow(hs, rows[j], j, selected).Ok? by {
      forall j | 0 <= j < k ensures ParseRow(hs, rows[j], j, selected).Ok? {
        assert rs[j] == ParseRow(hs, rows[j], j, selected);
      }
    }
  }

  /** A failing row names itself by its index among the data rows + 2. */
  lemma {:induction false} RowNumber(headers: seq<string>, line: string, idx: nat, selected: Option<Board>)
    ensures var x := ParseRow(headers, line, idx, selected);
      x.Err? ==> x.error != EmptyOrMissingData && x.error.row == idx + 2
  {
  }

  /** With a board chosen in the dialog, a row that parses is on that board. */
  lemma {:induction false} RowSelected(headers: seq<string>, line: string, idx: nat, b: Board)
    ensures var x := ParseRow(headers, line, idx, Some(b));
      x.Ok? ==> x.value.board == b
  {
    ParseBoardName(b);
  }

  /** With a board chosen in the dialog, every imported entry is on that board. */
  lemma {:induction false} SelectedBoardWins(text: string, b: Board)
    ensures var r := ParseCsv(text, Some(b));
      r.Ok? ==> forall k :: 0 <= k < |r.value| ==> r.value[k].board == b
  {
    var r := ParseCsv(text, Some(b));
    if '\n' in text && r.Ok? {
      ParseCsvRows(text, Some(b));
      forall k | 0 <= k < |r.value| ensures r.value[k].board == b {
        RowSelected(Headers(text), Rows(text)[k], k, b);
      }
    } else {
      ParseCsvTooShort(text, Some(b));
    }
  }

  /** Every imported SECRETARIAT entry is STATUTORY and locked, and only those are locked. */
  lemma {:induction false} SecretariatLocked(text: string, selected: Option<Board>)
    ensures var r := ParseCsv(text, selected);
      r.Ok? ==> forall k :: 0 <= k < |r.value| ==>
        && (r.value[k].board == Secretariat ==> r.value[k].status == Statutory)
        && (r.value[k].isLocked <==> r.value[k].board == Secretariat)
  {
    var r := ParseCsv(text, selected);
    if '\n' in text && r.Ok? {
      ParseCsvRows(text, selected);
      forall k | 0 <= k < |r.value|
        ensures r.value[k].board == Secretariat ==> r.value[k].status == Statutory
        ensures r.value[k].isLocked <==> r.value[k].board == Secretariat
      {
        var x := ParseRow(Headers(text), Rows(text)[k], k, selected);
        assert x == Ok(r.value[k]);
      }
    } else {
      ParseCsvTooShort(text, selected);
    }
  }

  /** The status is validated before the SECRETARIAT rule, so a bad status fails even on that board. */
  lemma {:induction false} StatusCheckedFirst(f: RowFields, row: int)
    requires Present(f.name) && Present(f.start) && Present(f.end) && Present(f.status)
    requires f.board == Some(BoardName(Secretariat)) && ParseStatus(f.status.value).None?
    ensures Check(f, row) == Err(InvalidStatus(row, f.status.value))
  {
  }

  /** The template's header cells. */
  function TemplateHeaders(): seq<string>
  {
    ["Activity Name", "Start Date", "End Date", "Board", "Status"]
  }

  /** The template's sample row. */
  function TemplateSample(): seq<string>
  {
    ["Medical Outreach", "2024-12-01", "2024-12-03", "WHOLENESS MISSIONS", "HOUSE"]
  }

  /** `downloadTemplate`'s file content: the header line and the sample line. */
  function TemplateCsv(): string
  {
    Join([Join(TemplateHeaders(), ','), Join(TemplateSample(), ',')], '\n')
  }

  /** Cells that survive splitting and trimming as they are: non-empty, no comma or line feed, no white space at either end. */
  predicate CleanCells(cells: seq<string>)
  {
    forall k :: 0 <= k < |cells| ==> CleanCell(cells[k])
  }

  /** One clean cell: non-empty, no comma or line feed, no white space at either end. */
  predicate CleanCell(s: string)
  {
    s != [] && ',' !in s && '\n' !in s && !IsSpace(s[0]) && !IsSpace(s[|s| - 1])
  }

  /** A line of clean cells has no line feed, does not end in white space and is not blank. */
  lemma {:induction false} CleanLine(cells: seq<string>)
    requires |cells| >= 1 && CleanCells(cells)
    ensures '\n' !in Join(cells, ',')
    ensures Join(cells, ',') != [] && !IsSpace(Join(cells, ',')[|Join(cells, ',')| - 1])
    ensures !Blank(Join(cells, ','))
  {
    var line := Join(cells, ',');
    JoinFree(cells, ',', '\n');
    JoinStarts(cells, ',');
    JoinEnds(cells, ',');
    TrimBlank(line);
    assert !IsSpace(line[0]);
  }

  /** A line of clean cells splits and trims back into those cells. */
  lemma {:induction false} CleanCellsBack(cells: seq<string>)
    requires |cells| >= 1 && CleanCells(cells)
    ensures Cells(Join(cells, ',')) == cells
  {
    SplitJoin(cells, ',');
    forall k | 0 <= k < |cells| ensures Trim(cells[k]) == cells[k] {
      TrimClean(cells[k]);
    }
  }

  /** A join ends with its last piece's last character. */
  lemma {:induction false} JoinEnds(parts: seq<string>, sep: char)
    requires |parts| >= 1 && parts[|parts| - 1] != []
    ensures Join(parts, sep) != [] && Join(parts, sep)[|Join(parts, sep)| - 1] == parts[|parts| - 1][|parts[|parts| - 1]| - 1]
  {
    if |parts| > 1 {
      JoinEnds(parts[1..], sep);
    }
  }

  /**
   * A CSV of one header line and one data line, both made of clean cells, parses to the
   * outcome of that single row, against the lower-cased headers.
   */
  lemma {:induction false} TwoLineCsv(hs: seq<string>, vs: seq<string>, selected: Option<Board>)
    requires |hs| >= 1 && |vs| >= 1 && CleanCells(hs) && CleanCells(vs)
    ensures var x := Check(Override(Fill(seq(|hs|, k requires 0 <= k < |hs| => ToLower(hs[k])), vs), selected), 2);
      && (x.Ok? ==> ParseCsv(Join([Join(hs, ','), Join(vs, ',')], '\n'), selected) == Ok([x.value]))
      && (x.Err? ==> ParseCsv(Join([Join(hs, ','), Join(vs, ',')], '\n'), selected) == Err(x.error))
  {
    var text := Join([Join(hs, ','), Join(vs, ',')], '\n');
    var lowered := seq(|hs|, k requires 0 <= k < |hs| => ToLower(hs[k]));
    TwoLines(hs, vs);
    CleanHeaders(hs);
    CleanCellsBack(vs);
    var rs := RowResults(lowered, [Join(vs, ',')], selected);
    assert ParseCsv(text, selected) == FirstError(rs);
    assert rs[0] == Check(Override(Fill(lowered, vs), selected), 2);
    SingleResult(rs);
  }

  /** The two-line CSV splits into its header line and a single data row. */
  lemma {:induction false} TwoLines(hs: seq<string>, vs: seq<string>)
    requires |hs| >= 1 && |vs| >= 1 && CleanCells(hs) && CleanCells(vs)
    ensures var lines := SplitLines(Join([Join(hs, ','), Join(vs, ',')], '\n'));
      |lines| == 2 && lines[0] == Join(hs, ',') && DataRows(lines[1..]) == [Join(vs, ',')]
  {
    var hl, vl := Join(hs, ','), Join(vs, ',');
    CleanLine(hs);
    CleanLine(vs);
    SplitJoin([hl, vl], '\n');
    var lines := SplitLines(Join([hl, vl], '\n'));
    assert lines[0] == DropCR(hl) == hl;
    assert lines[1..] == [vl];
  }

  /** Clean header cells come out of the header line lower-cased and otherwise as they are. */
  lemma {:induction false} CleanHeaders(hs: seq<string>)
    requires |hs| >= 1 && CleanCells(hs)
    ensures HeaderCells(Join(hs, ',')) == seq(|hs|, k requires 0 <= k < |hs| => ToLower(hs[k]))
  {
    SplitJoin(hs, ',');
    forall k | 0 <= k < |hs| ensures Trim(hs[k]) == hs[k] {
      TrimClean(hs[k]);
    }
  }

  /** A throwing `map` over one element yields that element's value or error. */
  lemma {:induction false} SingleResult<T, E>(rs: seq<Result<T, E>>)
    requires |rs| == 1
    ensures rs[0].Ok? ==> FirstError(rs) == Ok([rs[0].value])
    ensures rs[0].Err? ==> FirstError(rs) == Err(rs[0].error)
  {
    assert FirstError(rs[1..]) == Ok([]);
    if rs[0].Ok? {
      assert [rs[0].value] + [] == [rs[0].value];
    }
  }

  /** The template's cells are clean. */
  lemma {:induction false} TemplateClean()
    ensures CleanCells(TemplateHeaders()) && CleanCells(TemplateSample())
  {
    TemplateHeadersClean();
    TemplateSampleClean();
  }

  lemma {:induction false} TemplateHeadersClean()
    ensures CleanCells(TemplateHeaders())
  {
    assert CleanCell("Activity Name");
    assert CleanCell("Start Date");
    assert CleanCell("End Date");
    assert CleanCell("Board");
    assert CleanCell("Status");
  }

  lemma {:induction false} TemplateSampleClean()
    ensures CleanCells(TemplateSample())
  {
    assert CleanCell("Medical Outreach");
    assert CleanCell("2024-12-01");
    assert CleanCell("2024-12-03");
    assert CleanCell("WHOLENESS MISSIONS");
    assert CleanCell("HOUSE");
  }

  /** The template's headers lower-case to the five field names. */
  lemma {:induction false} TemplateLowered(hs: seq<string>)
    requires hs == TemplateHeaders()
    ensures seq(|hs|, k requires 0 <= k < |hs| => ToLower(hs[k]))
            == ["activity name", "start date", "end date", "board", "status"]
  {
    assert ToLower(hs[0]) == "activity name";
    assert ToLower(hs[1]) == "start date";
    assert ToLower(hs[2]) == "end date";
    assert ToLower(hs[3]) == "board";
    assert ToLower(hs[4]) == "status";
  }

  /** The template's lower-cased headers. */
  function TemplateKeys(): seq<string>
  {
    ["activity name", "start date", "end date", "board", "status"]
  }

  /** The template's header cells fill each field from its own column. */
  lemma {:induction false} TemplateFill(vs: seq<string>)
    requires |vs| == 5
    ensures Fill(TemplateKeys(), vs) == RowFields(Some(vs[0]), Some(vs[1]), Some(vs[2]), Some(vs[3]), Some(vs[4]))
  {
    TemplateName(vs);
    TemplateStart(vs);
    TemplateEnd(vs);
    TemplateBoard(vs);
    TemplateStatus(vs);
  }

  lemma {:induction false} TemplateName(vs: seq<string>)
    requires |vs| == 5
    ensures Field(TemplateKeys(), vs, "name") == Some(vs[0])
  {
    var hs := TemplateKeys();
    assert OccursAt(hs[0], "name", 9);
    forall j | 0 < j < 5 ensures !Contains(hs[j], "name") {
      TemplateKeyOnly(j, 0, "name");
    }
    FieldAt(hs, vs, "name", 0);
  }

  lemma {:induction false} TemplateStart(vs: seq<string>)
    requires |vs| == 5
    ensures Field(TemplateKeys(), vs, "start") == Some(vs[1])
  {
    var hs := TemplateKeys();
    assert OccursAt(hs[1], "start", 0);
    forall j | 1 < j < 5 ensures !Contains(hs[j], "start") {
      TemplateKeyOnly(j, 1, "start");
    }
    FieldAt(hs, vs, "start", 1);
  }

  lemma {:induction false} TemplateEnd(vs: seq<string>)
    requires |vs| == 5
    ensures Field(TemplateKeys(), vs, "end") == Some(vs[2])
  {
    var hs := TemplateKeys();
    assert OccursAt(hs[2], "end", 0);
    forall j | 2 < j < 5 ensures !Contains(hs[j], "end") {
      TemplateKeyOnly(j, 2, "end");
    }
    FieldAt(hs, vs, "end", 2);
  }

  lemma {:induction false} TemplateBoard(vs: seq<string>)
    requires |vs| == 5
    ensures Field(TemplateKeys(), vs, "board") == Some(vs[3])
  {
    var hs := TemplateKeys();
    assert OccursAt(hs[3], "board", 0);
    TemplateKeyOnly(4, 3, "board");
    FieldAt(hs, vs, "board", 3);
  }

  lemma {:induction false} TemplateStatus(vs: seq<string>)
    requires |vs| == 5
    ensures Field(TemplateKeys(), vs, "status") == Some(vs[4])
  {
    var hs := TemplateKeys();
    assert OccursAt(hs[4], "status", 0);
    FieldAt(hs, vs, "status", 4);
  }

  /** A later template header never includes an earlier column's key. */
  lemma {:induction false} TemplateKeyOnly(j: nat, i: nat, key: string)
    requires i < j < 5 && key == ["name", "start", "end", "board", "status"][i]
    ensures !Contains(TemplateKeys()[j], key)
  {
    var h := TemplateKeys()[j];
    if i == 0 {
      if j == 2 { Lacks(h, key, 'm'); } else { Lacks(h, key, 'n'); }
    } else if i == 1 {
      if j == 4 { Lacks(h, key, 'r'); } else { Lacks(h, key, 's'); }
    } else if i == 2 {
      Lacks(h, key, 'e');
    } else {
      Lacks(h, key, 'b');
    }
  }

  /** The last header that includes the key decides the field. */
  lemma {:induction false} FieldAt(headers: seq<string>, values: seq<string>, key: string, i: nat)
    requires i < |headers| && Contains(headers[i], key)
    requires forall j :: i < j < |headers| ==> !Contains(headers[j], key)
    ensures Field(headers, values, key) == Cell(values, i)
  {
  }

  /** s cannot include sub when a character of sub is missing from s. */
  lemma {:induction false} Lacks(s: string, sub: string, c: char)
    requires c in sub && c !in s
    ensures !Contains(s, sub)
  {
    if Contains(s, sub) {
      ContainsChars(s, sub, c);
    }
  }

  /** The sample row's fields pass validation unchanged. */
  lemma {:induction false} TemplateCheck(vs: seq<string>)
    requires vs == TemplateSample()
    ensures Check(RowFields(Some(vs[0]), Some(vs[1]), Some(vs[2]), Some(vs[3]), Some(vs[4])), 2)
            == Ok(ImportEntry("Medical Outreach", "2024-12-01", "2024-12-03", WholenessMissions, House, false))
  {
    assert ParseBoard(vs[3]) == Some(WholenessMissions);
    assert ParseStatus(vs[4]) == Some(House);
  }

  /** The template parses, with the dialog on AUTO, to exactly one entry carrying the sample values. */
  lemma {:induction false} TemplateRoundTrip(text: string)
    requires text == TemplateCsv()
    ensures ParseCsv(text, None)
            == Ok([ImportEntry("Medical Outreach", "2024-12-01", "2024-12-03", WholenessMissions, House, false)])
  {
    var hs, vs := TemplateHeaders(), TemplateSample();
    TemplateClean();
    TwoLineCsv(hs, vs, None);
    TemplateLowered(hs);
    TemplateFill(vs);
    TemplateCheck(vs);
    var f := Fill(TemplateKeys(), vs);
    assert Override(f, None) == f;
  }
}
