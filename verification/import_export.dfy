/** `DataManager` (data_manager.py): CSV import in its two dialects, the
    selection of records to export, and the cells each exported record
    becomes in CSV and in JSON. File dialogs, message boxes and file I/O are
    abstracted away: the import reads the file's first line and the rows
    `csv.DictReader` yields, the export selection reads the mode the dialogs
    returned, and the cells are what `csv.writer` / `json.dump` receive. */
module ImportExport {
  import opened Common
  import opened Text
  import opened Strptime
  import opened RecordStore

  /** The header line of the import template. */
  const TemplateHeader: string := "D,S,W,R,P,C,N"

  /** The two layouts the importer accepts. */
  datatype Dialect = Template | FullExport

  predicate StartsWith(s: string, p: string) {
    |p| <= |s| && s[..|p|] == p
  }

  /** The template layout is chosen exactly when the stripped first line
      contains the template header anywhere. */
  function DetectDialect(firstLine: string): (d: Dialect)
    ensures d == Template <==> Occurs(TemplateHeader, Strip(firstLine))
  {
    var t := Strip(firstLine);
    if StartsWith(t, TemplateHeader) then
      assert OccursAt(TemplateHeader, t, 0);
      Template
    else if Contains(t, TemplateHeader) then Template
    else FullExport
  }

  /** The column names each layout reads. */
  datatype ColumnNames = ColumnNames(date: string, sleep: string, weight: string, rating: string,
                                     steps: string, calories: string, note: string)

  function ColumnNamesOf(d: Dialect): ColumnNames {
    match d
    case Template => ColumnNames("D", "S", "W", "R", "P", "C", "N")
    case FullExport => ColumnNames("日期", "入睡时间", "体重(kg)", "评分", "步数", "卡路里摄入", "备注")
  }

  /** A row as `csv.DictReader` yields it: header name to cell, None for a
      header past the end of a short row. */
  type CsvRow = map<string, Option<string>>

  /** `row.get(key, '')`. */
  function Cell(row: CsvRow, key: string): Option<string> {
    if key in row then row[key] else Some("")
  }

  /** `dict(zip(header, cells))` with the cells of a short row read as None:
      the row `csv.DictReader` builds; a repeated header keeps its last cell. */
  function DictRow(header: seq<string>, cells: seq<string>): CsvRow
    decreases |header|
  {
    if header == [] then map[]
    else
      var i := |header| - 1;
      DictRow(header[..i], cells)[header[i] := if i < |cells| then Some(cells[i]) else None]
  }

  lemma {:induction false} DictRowLookup(header: seq<string>, cells: seq<string>, i: int)
    requires 0 <= i < |header|
    requires forall j :: i < j < |header| ==> header[j] != header[i]
    ensures header[i] in DictRow(header, cells)
    ensures DictRow(header, cells)[header[i]] == if i < |cells| then Some(cells[i]) else None
    decreases |header|
  {
    var n := |header| - 1;
    if i < n {
      DictRowLookup(header[..n], cells, i);
    }
  }

  /** The sleep column: blank is None; otherwise `%H:%M:%S`, then `%H:%M`,
      and text neither accepts is dropped to None without failing the row. */
  function ParseSleepTime(s: string): (r: Option<TimeOfDay>)
    ensures r.Some? ==> ValidTime(r.value)
    ensures Strip(s) == "" ==> r == None
  {
    var t := Strip(s);
    if t == "" then None
    else if ParseTimeHMS(t).Some? then ParseTimeHMS(t)
    else ParseTimeHM(t)
  }

  /** `_parse_float`: blank, malformed and missing (None) cells all give None. */
  function ParseOptionalFloat(cell: Option<string>): (r: Option<real>)
    ensures cell.None? ==> r == None
  {
    match cell
    case None => None
    case Some(v) => if Strip(v) == "" then None else ParseFloat(Strip(v))
  }

  /** `_parse_int`: `int(float(text))`, truncating toward zero; failures give None. */
  function ParseOptionalInt(cell: Option<string>): (r: Option<int>)
    ensures r.Some? <==> ParseOptionalFloat(cell).Some?
    ensures r.Some? ==> r.value == Truncate(ParseOptionalFloat(cell).value)
  {
    match ParseOptionalFloat(cell)
    case None => None
    case Some(x) => Some(Truncate(x))
  }

  /** What happens to one row: skipped (blank date), counted as an error
      (an exception in the row's `try`), or stored with these values. */
  datatype RowOutcome = Skipped | Failed | Parsed(date: Date, fields: Fields)

  /** The body of the importer's per-row `try`. A cell of a short row is None,
      so `.strip()` on it raises for the date, sleep and note columns and the
      row fails; the numeric columns catch that and read None. */
  function ParseRow(d: Dialect, row: CsvRow): (o: RowOutcome)
    ensures o.Parsed? ==> ValidDate(o.date)
    ensures o.Parsed? ==> Cell(row, ColumnNamesOf(d).date).Some?
                          && ParseDate(Strip(Cell(row, ColumnNamesOf(d).date).value)) == Some(o.date)
  {
    var k := ColumnNamesOf(d);
    match Cell(row, k.date)
    case None => Failed
    case Some(dateText) =>
      if Strip(dateText) == "" then Skipped
      else
        match ParseDate(Strip(dateText))
        case None => Failed
        case Some(date) =>
          match Cell(row, k.sleep)
          case None => Failed
          case Some(sleepText) =>
            match Cell(row, k.note)
            case None => Failed
            case Some(noteText) => Parsed(date, CellFields(k, row, sleepText, noteText))
  }

  /** The columns of a row that is stored: the sleep cell as parsed, the
      numbers through `_parse_float` / `_parse_int`, the note stripped and
      None when blank. */
  function CellFields(k: ColumnNames, row: CsvRow, sleepText: string, noteText: string): Fields {
    var note := Strip(noteText);
    Fields(ParseSleepTime(sleepText), ParseOptionalFloat(Cell(row, k.weight)),
           ParseOptionalInt(Cell(row, k.rating)), ParseOptionalInt(Cell(row, k.steps)),
           ParseOptionalInt(Cell(row, k.calories)), if note == "" then None else Some(note))
  }

  /** The stored note is None exactly when the note cell is blank, and
      otherwise the cell stripped; a numeric column the header lacks is
      stored as None. */
  lemma StoredFields(k: ColumnNames, row: CsvRow, sleepText: string, noteText: string)
    ensures var f := CellFields(k, row, sleepText, noteText);
      && (f.note.None? <==> IsBlank(noteText))
      && (f.note.Some? ==> f.note.value == Strip(noteText))
      && (Cell(row, k.weight).None? ==> f.weight.None?)
      && (Cell(row, k.rating).None? ==> f.rating.None?)
      && (Cell(row, k.steps).None? ==> f.steps.None?)
      && (Cell(row, k.calories).None? ==> f.caloriesIntake.None?)
  {
    StripEmptyIffBlank(noteText);
  }

  /** A row is skipped exactly when its date cell is present and blank. */
  lemma BlankDateSkipped(d: Dialect, row: CsvRow)
    ensures ParseRow(d, row) == Skipped <==>
      Cell(row, ColumnNamesOf(d).date).Some? && IsBlank(Cell(row, ColumnNamesOf(d).date).value)
  {
    var c := Cell(row, ColumnNamesOf(d).date);
    SkippedIffStrippedBlank(d, row);
    if c.Some? {
      StripEmptyIffBlank(c.value);
    }
  }

  lemma SkippedIffStrippedBlank(d: Dialect, row: CsvRow)
    ensures ParseRow(d, row) == Skipped <==>
      Cell(row, ColumnNamesOf(d).date).Some? && Strip(Cell(row, ColumnNamesOf(d).date).value) == ""
  {
    var c := Cell(row, ColumnNamesOf(d).date);
    if c.None? {
      assert ParseRow(d, row) == Failed;
    } else if Strip(c.value) != "" {
      assert ParseRow(d, row) != Skipped;
    }
  }

  /** Malformed or missing numbers never fail a row: once the date parses and
      the sleep and note cells are present, the row is stored, whatever the
      weight, rating, steps and calories cells hold. */
  lemma NumbersNeverFailRow(d: Dialect, row: CsvRow)
    requires var k := ColumnNamesOf(d);
      Cell(row, k.date).Some? && ParseDate(Strip(Cell(row, k.date).value)).Some?
      && Cell(row, k.sleep).Some? && Cell(row, k.note).Some?
    ensures ParseRow(d, row).Parsed?
  {
  }

  /** What a row with a valid date, and sleep and note cells, is stored as. */
  lemma ParseRowStores(d: Dialect, row: CsvRow)
    requires var k := ColumnNamesOf(d);
      Cell(row, k.date).Some? && ParseDate(Strip(Cell(row, k.date).value)).Some?
      && Cell(row, k.sleep).Some? && Cell(row, k.note).Some?
    ensures var k := ColumnNamesOf(d);
      ParseRow(d, row) == Parsed(ParseDate(Strip(Cell(row, k.date).value)).value,
                                 CellFields(k, row, Cell(row, k.sleep).value, Cell(row, k.note).value))
  {
    var k := ColumnNamesOf(d);
    ParsedDateNotBlank(Strip(Cell(row, k.date).value));
  }

  lemma ParsedDateNotBlank(t: string)
    requires ParseDate(t).Some?
    ensures t != ""
  {
  }

  /** A date cell that is not blank and not a valid `%Y-%m-%d` date fails the row. */
  lemma BadDateFails(d: Dialect, row: CsvRow)
    requires var k := ColumnNamesOf(d);
      Cell(row, k.date).Some? && Strip(Cell(row, k.date).value) != "" && ParseDate(Strip(Cell(row, k.date).value)).None?
    ensures ParseRow(d, row) == Failed
  {
  }

  function Outcomes(d: Dialect, rows: seq<CsvRow>): (outs: seq<RowOutcome>)
    ensures |outs| == |rows| && forall i :: 0 <= i < |rows| ==> outs[i] == ParseRow(d, rows[i])
  {
    seq(|rows|, i requires 0 <= i < |rows| => ParseRow(d, rows[i]))
  }

  /** Rows stored: parsed rows whose `insert_record` returned True. */
  function Stored(outs: seq<RowOutcome>, reach: seq<bool>): nat
    requires |outs| == |reach|
  {
    if outs == [] then 0
    else
      var i := |outs| - 1;
      Stored(outs[..i], reach[..i]) + (if outs[i].Parsed? && reach[i] then 1 else 0)
  }

  /** Rows counted as errors: failed rows and parsed rows whose insert returned False. */
  function Failures(outs: seq<RowOutcome>, reach: seq<bool>): nat
    requires |outs| == |reach|
  {
    if outs == [] then 0
    else
      var i := |outs| - 1;
      Failures(outs[..i], reach[..i]) + (if outs[i].Failed? || (outs[i].Parsed? && !reach[i]) then 1 else 0)
  }

  /** Rows not skipped. */
  function Dated(outs: seq<RowOutcome>): nat {
    if outs == [] then 0
    else Dated(outs[..|outs| - 1]) + (if outs[|outs| - 1].Skipped? then 0 else 1)
  }

  /** Every row with a date is counted exactly once, as a success or as an error. */
  lemma {:induction false} EveryDatedRowCounted(outs: seq<RowOutcome>, reach: seq<bool>)
    requires |outs| == |reach|
    ensures Stored(outs, reach) + Failures(outs, reach) == Dated(outs)
  {
    if outs != [] {
      var i := |outs| - 1;
      EveryDatedRowCounted(outs[..i], reach[..i]);
    }
  }

  lemma CountStep(outs: seq<RowOutcome>, reach: seq<bool>, i: int)
    requires |outs| == |reach| && 0 <= i < |outs|
    ensures Stored(outs[..i + 1], reach[..i + 1]) == Stored(outs[..i], reach[..i]) + (if outs[i].Parsed? && reach[i] then 1 else 0)
    ensures Failures(outs[..i + 1], reach[..i + 1]) == Failures(outs[..i], reach[..i]) + (if outs[i].Failed? || (outs[i].Parsed? && !reach[i]) then 1 else 0)
  {
    assert outs[..i + 1][..i] == outs[..i] && reach[..i + 1][..i] == reach[..i];
  }

  /** The table and AUTO_INCREMENT counter after one row: a stored row is
      upserted and the counter advances by the value drawn for it. */
  function ImportStep(t: (map<Date, Row>, nat), o: RowOutcome, stored: bool): (map<Date, Row>, nat) {
    if o.Parsed? && stored then
      (Upsert(t.0, t.1, o.date, o.fields), t.1 + 1)
    else t
  }

  /** The table after the import: the rows' steps applied in file order. */
  function ReplayImport(rows: map<Date, Row>, nextId: nat, outs: seq<RowOutcome>, reach: seq<bool>): (map<Date, Row>, nat)
    requires |outs| == |reach|
  {
    if outs == [] then (rows, nextId)
    else
      var i := |outs| - 1;
      ImportStep(ReplayImport(rows, nextId, outs[..i], reach[..i]), outs[i], reach[i])
  }

  lemma ReplayStep(rows: map<Date, Row>, nextId: nat, outs: seq<RowOutcome>, reach: seq<bool>, i: int)
    requires |outs| == |reach| && 0 <= i < |outs|
    ensures ReplayImport(rows, nextId, outs[..i + 1], reach[..i + 1]) ==
      ImportStep(ReplayImport(rows, nextId, outs[..i], reach[..i]), outs[i], reach[i])
  {
    assert outs[..i + 1][..i] == outs[..i] && reach[..i + 1][..i] == reach[..i];
  }

  /** The dates the import stores. */
  function StoredDates(outs: seq<RowOutcome>, reach: seq<bool>): set<Date>
    requires |outs| == |reach|
  {
    set i | 0 <= i < |outs| && outs[i].Parsed? && reach[i] :: outs[i].date
  }

  lemma StoredDatesStep(outs: seq<RowOutcome>, reach: seq<bool>)
    requires |outs| == |reach| && outs != []
    ensures var i := |outs| - 1;
      StoredDates(outs, reach) == StoredDates(outs[..i], reach[..i]) + (if outs[i].Parsed? && reach[i] then {outs[i].date} else {})
  {
    var i := |outs| - 1;
    var p := StoredDates(outs[..i], reach[..i]);
    forall e | e in StoredDates(outs, reach)
      ensures e in p + (if outs[i].Parsed? && reach[i] then {outs[i].date} else {})
    {
      var j :| 0 <= j < |outs| && outs[j].Parsed? && reach[j] && outs[j].date == e;
      if j < i {
        assert outs[..i][j] == outs[j] && reach[..i][j] == reach[j];
      }
    }
    forall e | e in p ensures e in StoredDates(outs, reach) {
      var j :| 0 <= j < i && outs[..i][j].Parsed? && reach[..i][j] && outs[..i][j].date == e;
      assert outs[j] == outs[..i][j] && reach[j] == reach[..i][j];
    }
  }

  /** The import adds exactly the stored dates, and every other row is left as it was. */
  lemma {:induction false} ImportTouchesOnlyStoredDates(rows: map<Date, Row>, nextId: nat, outs: seq<RowOutcome>, reach: seq<bool>)
    requires |outs| == |reach|
    ensures ReplayImport(rows, nextId, outs, reach).0.Keys == rows.Keys + StoredDates(outs, reach)
    ensures forall e :: e in rows && e !in StoredDates(outs, reach) ==> ReplayImport(rows, nextId, outs, reach).0[e] == rows[e]
  {
    if outs != [] {
      var i := |outs| - 1;
      ImportTouchesOnlyStoredDates(rows, nextId, outs[..i], reach[..i]);
      StoredDatesStep(outs, reach);
    }
  }

  /** Within one file the last stored row for a date wins: its values are
      what the table holds for that date after the import. */
  lemma {:induction false} ImportLastRowWins(rows: map<Date, Row>, nextId: nat, outs: seq<RowOutcome>, reach: seq<bool>, i: int)
    requires |outs| == |reach| && 0 <= i < |outs| && outs[i].Parsed? && reach[i]
    requires forall j :: i < j < |outs| && outs[j].Parsed? && reach[j] ==> outs[j].date != outs[i].date
    ensures outs[i].date in ReplayImport(rows, nextId, outs, reach).0
    ensures ReplayImport(rows, nextId, outs, reach).0[outs[i].date].fields == outs[i].fields
  {
    var n := |outs| - 1;
    if i < n {
      assert outs[..n][i] == outs[i] && reach[..n][i] == reach[i];
      ImportLastRowWins(rows, nextId, outs[..n], reach[..n], i);
    }
  }

  /** The template is read in the template layout. */
  lemma TemplateHeaderDetected()
    ensures DetectDialect(TemplateHeader) == Template
  {
    assert Strip(TemplateHeader) == TemplateHeader by { StripTrimmed(TemplateHeader); }
    assert OccursAt(TemplateHeader, TemplateHeader, 0);
  }

  /** The column names the template's header line splits into. */
  const TemplateColumns: seq<string> := ["D", "S", "W", "R", "P", "C", "N"]

  /** The three example lines the template holds below its header, cell by
      cell. */
  const TemplateExamples: seq<seq<string>> := [
    ["2024-01-01", "23:30", "65.5", "8", "8000", "2000", "今天感觉不错"],
    ["2024-01-02", "", "66.0", "7", "7500", "1800", "体重有所增加"],
    ["2024-01-03", "22:45", "64.8", "9", "9000", "1900", "早睡早起身体好"]]

  /** The date and the values each example line stands for. */
  const TemplateExampleValues: seq<(Date, Fields)> := [
    (Date(2024, 1, 1), Fields(Some(TimeOfDay(23, 30, 0)), Some(65.5), Some(8), Some(8000), Some(2000), Some("今天感觉不错"))),
    (Date(2024, 1, 2), Fields(None, Some(66.0), Some(7), Some(7500), Some(1800), Some("体重有所增加"))),
    (Date(2024, 1, 3), Fields(Some(TimeOfDay(22, 45, 0)), Some(64.8), Some(9), Some(9000), Some(1900), Some("早睡早起身体好")))]

  /** Every cell of a seven-cell line is found under its template column. */
  lemma TemplateLineCells(line: seq<string>)
    requires |line| == 7
    ensures var row := DictRow(TemplateColumns, line);
      && Cell(row, "D") == Some(line[0]) && Cell(row, "S") == Some(line[1]) && Cell(row, "W") == Some(line[2])
      && Cell(row, "R") == Some(line[3]) && Cell(row, "P") == Some(line[4]) && Cell(row, "C") == Some(line[5])
      && Cell(row, "N") == Some(line[6])
  {
    DictRowLookup(TemplateColumns, line, 0);
    DictRowLookup(TemplateColumns, line, 1);
    DictRowLookup(TemplateColumns, line, 2);
    DictRowLookup(TemplateColumns, line, 3);
    DictRowLookup(TemplateColumns, line, 4);
    DictRowLookup(TemplateColumns, line, 5);
    DictRowLookup(TemplateColumns, line, 6);
  }

  /** A template line with a valid date, a weight with one decimal, positive
      whole rating, steps and calories and a non-blank trimmed note is
      stored with exactly those values and the sleep cell as parsed. */
  lemma ExampleLineImport(line: seq<string>, d: Date, w: nat, tenth: nat, weight: real, r: nat, p: nat, c: nat)
    requires |line| == 7
    requires ValidDate(d) && d.year >= 1000 && line[0] == FormatDate(d)
    requires tenth <= 9 && weight * 10.0 == (10 * w + tenth) as real && line[2] == NatToString(w) + "." + NatToString(tenth)
    requires r > 0 && p > 0 && c > 0
    requires line[3] == NatToString(r) && line[4] == NatToString(p) && line[5] == NatToString(c)
    requires |line[6]| > 0 && !IsSpace(line[6][0]) && !IsSpace(line[6][|line[6]| - 1])
    ensures ParseRow(Template, DictRow(TemplateColumns, line))
      == Parsed(d, Fields(ParseSleepTime(line[1]), Some(weight), Some(r), Some(p), Some(c), Some(line[6])))
  {
    StripTrimmed(line[6]);
    TemplateLineCells(line);
    TemplateRowImport(DictRow(TemplateColumns, line), d, line[1], w, tenth, weight, r, p, c, line[6]);
  }

  /** The same, for any row whose template cells hold that line. */
  lemma TemplateRowImport(row: CsvRow, d: Date, sleepText: string, w: nat, tenth: nat, weight: real,
                          r: nat, p: nat, c: nat, note: string)
    requires ValidDate(d) && d.year >= 1000
    requires tenth <= 9 && weight * 10.0 == (10 * w + tenth) as real
    requires r > 0 && p > 0 && c > 0
    requires note != "" && Strip(note) == note
    requires Cell(row, "D") == Some(FormatDate(d)) && Cell(row, "S") == Some(sleepText)
    requires Cell(row, "W") == Some(NatToString(w) + "." + NatToString(tenth))
    requires Cell(row, "R") == Some(NatToString(r)) && Cell(row, "P") == Some(NatToString(p))
    requires Cell(row, "C") == Some(NatToString(c)) && Cell(row, "N") == Some(note)
    ensures ParseRow(Template, row)
      == Parsed(d, Fields(ParseSleepTime(sleepText), Some(weight), Some(r), Some(p), Some(c), Some(note)))
  {
    DateCellReadBack(d);
    ParseRowStores(Template, row);
    TenthsAsFloat(w, tenth, weight);
    NatCell(r);
    NatCell(p);
    NatCell(c);
  }

  /** A positive whole number written out reads back as itself. */
  lemma NatCell(n: nat)
    requires n > 0
    ensures ParseOptionalInt(Some(NatToString(n))) == Some(n)
  {
    IntCellReadBack(Some(n));
  }

  /** `w.t`, one decimal written out, reads as that number. */
  lemma TenthsAsFloat(w: nat, tenth: nat, weight: real)
    requires tenth <= 9 && weight * 10.0 == (10 * w + tenth) as real
    ensures ParseOptionalFloat(Some(NatToString(w) + "." + NatToString(tenth))) == Some(weight)
  {
    var ip, fp := NatToString(w), NatToString(tenth);
    var u, v := ip + "." + fp, w as real + tenth as real / 10.0;
    NatToStringDigits(w);
    NatToStringDigits(tenth);
    PointAsDecimal(ip, fp);
    PointTextEnds(ip, fp);
    assert DecimalValue(ip, fp) == v by {
      assert Shift(tenth, 1) == Shift(tenth, 0) / 10.0;
    }
    TrimmedDecimalCell(u, v);
    assert v == weight by {
      assert v * 10.0 == weight * 10.0;
    }
  }

  /** A trimmed unsigned decimal literal in a cell reads as its value. */
  lemma TrimmedDecimalCell(u: string, v: real)
    requires |u| > 0 && IsDigit(u[0]) && IsDigit(u[|u| - 1])
    requires ParseUnsignedDecimal(u) == Some(v)
    ensures ParseOptionalFloat(Some(u)) == Some(v)
  {
    SignedAsFloat("", u, v);
    assert "" + u == u;
    OptionalFloatOfTrimmed(u);
  }

  /** The template columns are the names the template layout reads. */
  lemma TemplateColumnsRead()
    ensures var k := ColumnNamesOf(Template);
      TemplateColumns == [k.date, k.sleep, k.weight, k.rating, k.steps, k.calories, k.note]
  {
  }

  /** The template's example lines import as the values they spell out;
      the second line's empty sleep cell is stored as no sleep time. */
  lemma TemplateExamplesImport(i: nat)
    requires i < |TemplateExamples|
    ensures ParseRow(Template, DictRow(TemplateColumns, TemplateExamples[i]))
      == Parsed(TemplateExampleValues[i].0, TemplateExampleValues[i].1)
  {
    var line := TemplateExamples[i];
    ExampleDates();
    ExampleClocksAndWeights();
    ExampleRatingsAndSteps();
    ExampleCalories();
    ExampleNotes();
    if i == 0 {
      ExampleLineImport(line, Date(2024, 1, 1), 65, 5, 65.5, 8, 8000, 2000);
      ClockCellParses(23, 30);
    } else if i == 1 {
      ExampleLineImport(line, Date(2024, 1, 2), 66, 0, 66.0, 7, 7500, 1800);
      assert Strip("") == "";
    } else {
      ExampleLineImport(line, Date(2024, 1, 3), 64, 8, 64.8, 9, 9000, 1900);
      ClockCellParses(22, 45);
    }
  }

  /** The date cells of the example lines, as `FormatDate` writes them. */
  lemma ExampleDates()
    ensures TemplateExamples[0][0] == FormatDate(Date(2024, 1, 1))
    ensures TemplateExamples[1][0] == FormatDate(Date(2024, 1, 2))
    ensures TemplateExamples[2][0] == FormatDate(Date(2024, 1, 3))
  {
  }

  /** The sleep and weight cells of the example lines. */
  lemma ExampleClocksAndWeights()
    ensures TemplateExamples[0][1] == Pad2(23) + ":" + Pad2(30)
    ensures TemplateExamples[1][1] == ""
    ensures TemplateExamples[2][1] == Pad2(22) + ":" + Pad2(45)
    ensures TemplateExamples[0][2] == NatToString(65) + "." + NatToString(5)
    ensures TemplateExamples[1][2] == NatToString(66) + "." + NatToString(0)
    ensures TemplateExamples[2][2] == NatToString(64) + "." + NatToString(8)
  {
  }

  /** The rating and step cells of the example lines. */
  lemma ExampleRatingsAndSteps()
    ensures TemplateExamples[0][3] == NatToString(8) && TemplateExamples[0][4] == NatToString(8000)
    ensures TemplateExamples[1][3] == NatToString(7) && TemplateExamples[1][4] == NatToString(7500)
    ensures TemplateExamples[2][3] == NatToString(9) && TemplateExamples[2][4] == NatToString(9000)
  {
  }

  /** The calorie cells of the example lines. */
  lemma ExampleCalories()
    ensures TemplateExamples[0][5] == NatToString(2000)
    ensures TemplateExamples[1][5] == NatToString(1800)
    ensures TemplateExamples[2][5] == NatToString(1900)
  {
  }

  /** The note cells of the example lines are non-empty and start and end
      with a non-space character. */
  lemma ExampleNotes()
    ensures var n := TemplateExamples[0][6]; |n| > 0 && !IsSpace(n[0]) && !IsSpace(n[|n| - 1])
    ensures var n := TemplateExamples[1][6]; |n| > 0 && !IsSpace(n[0]) && !IsSpace(n[|n| - 1])
    ensures var n := TemplateExamples[2][6]; |n| > 0 && !IsSpace(n[0]) && !IsSpace(n[|n| - 1])
  {
  }

  /** An `HH:MM` sleep cell is read by the second format, `%H:%M`. */
  lemma ClockCellParses(h: int, m: int)
    requires 10 <= h <= 23 && 10 <= m <= 59
    ensures ParseSleepTime(Pad2(h) + ":" + Pad2(m)) == Some(TimeOfDay(h, m, 0))
  {
    var t := Pad2(h) + ":" + Pad2(m);
    Pad2Field(h);
    Pad2Field(m);
    StripTrimmed(t);
    TakeFieldOf(Pad2(h), Pad2(m));
    assert TakeField(Pad2(m)) == None;
    ClockRoundTrip(h, m);
  }

  /** Which export the user chose, with what the follow-up dialog returned
      (None where it was cancelled). */
  datatype ExportMode = AllRecords | ByYear(year: Option<int>) | ByRange(range: Option<(Date, Date)>) | NoMode

  /** The outcome of choosing what to export: cancelled (the export returns
      False), `date(year, 1, 1)` raising `ValueError` for a year outside
      1..9999, nothing found (False), or the records to write. */
  datatype Selection = Cancelled | YearOutOfRange | NothingFound | Selected(records: seq<Record>)

  /** A truthy year accepted by `date(year, 1, 1)`. */
  predicate YearAccepted(year: Option<int>) {
    year.Some? && year.value != 0 && 1 <= year.value <= 9999
  }

  /** The dates an export mode asks for: everything, `[y-01-01, y-12-31]`
      (`_get_records_by_year`), or the chosen inclusive range. */
  function ExportKeys(mode: ExportMode, rows: map<Date, Row>): set<Date> {
    match mode
    case AllRecords => rows.Keys
    case ByYear(y) => if YearAccepted(y) then RangeKeys(rows, Date(y.value, 1, 1), Date(y.value, 12, 31)) else {}
    case ByRange(r) => if r.Some? then RangeKeys(rows, r.value.0, r.value.1) else {}
    case NoMode => {}
  }

  /** The year export selects exactly the rows of that year, the same rows as
      the year-only `get_records_by_year_month` query. */
  lemma YearExportSelectsYear(rows: map<Date, Row>, y: int)
    requires forall d :: d in rows ==> ValidDate(d)
    ensures RangeKeys(rows, Date(y, 1, 1), Date(y, 12, 31)) == set d | d in rows && d.year == y
    ensures RangeKeys(rows, Date(y, 1, 1), Date(y, 12, 31)) == HalfOpenKeys(rows, YearMonthBounds(y, None).0, YearMonthBounds(y, None).1)
  {
    forall d | d in rows
      ensures (DateLe(Date(y, 1, 1), d) && DateLe(d, Date(y, 12, 31))) <==> d.year == y
    {
      YearBoundsSelectYear(y, None, d);
    }
  }

  /** A cell as the exporter writes it: blank for a falsy value. */
  datatype JsonScalar = JsonNull | JsonInt(i: int) | JsonFloat(f: real) | JsonText(s: string)

  /** `str(n)` for any integer. */
  function IntText(n: int): (s: string)
    ensures |s| >= 1
  {
    if n < 0 then "-" + NatToString(-n) else NatToString(n)
  }

  /** A weight is a `DECIMAL(5,2)` value: a whole number of hundredths. */
  predicate IsHundredths(w: real) {
    (w * 100.0).Floor as real == w * 100.0
  }

  /** `str(Decimal)` of a two-place decimal given in hundredths: sign, whole
      part, '.', two fraction digits. */
  function HundredthsText(c: int): string {
    (if c < 0 then "-" else "") + UnsignedHundredthsText(if c < 0 then -c else c)
  }

  function UnsignedHundredthsText(a: nat): string {
    NatToString(a / 100) + "." + Pad2(a % 100)
  }

  /** The falsy values the exporter blanks: None, 0, 0.0, "", and a zero `timedelta`. */
  predicate TruthyTime(v: Option<TimeOfDay>) { v.Some? && SecondsOfDay(v.value) != 0 }
  predicate TruthyReal(v: Option<real>) { v.Some? && v.value != 0.0 }
  predicate TruthyInt(v: Option<int>) { v.Some? && v.value != 0 }
  predicate TruthyText(v: Option<string>) { v.Some? && v.value != "" }

  /** The first eight cells of `export_to_csv`'s row for a record (id, date,
      sleep time, weight, rating, steps, calories, note). */
  function CsvCells(r: Record): (cells: seq<string>)
    requires ValidDate(r.date)
    requires r.fields.weight.Some? ==> IsHundredths(r.fields.weight.value)
    requires r.fields.sleepTime.Some? ==> SecondsOfDay(r.fields.sleepTime.value) >= 0
    ensures |cells| == 8
    ensures cells[2] == "" <==> !TruthyTime(r.fields.sleepTime)
    ensures cells[3] == "" <==> !TruthyReal(r.fields.weight)
    ensures cells[4] == "" <==> !TruthyInt(r.fields.rating)
    ensures cells[5] == "" <==> !TruthyInt(r.fields.steps)
    ensures cells[6] == "" <==> !TruthyInt(r.fields.caloriesIntake)
    ensures cells[7] == "" <==> !TruthyText(r.fields.note)
  {
    var f := r.fields;
    [IntText(r.id), FormatDate(r.date), SleepCell(f.sleepTime), WeightCell(f.weight),
     IntCell(f.rating), IntCell(f.steps), IntCell(f.caloriesIntake), NoteCell(f.note)]
  }

  /** `str(sleep_time) if sleep_time else ''`: the `H:MM:SS` text of a
      time other than midnight. */
  function SleepCell(v: Option<TimeOfDay>): (s: string)
    requires v.Some? ==> SecondsOfDay(v.value) >= 0
    ensures s == "" <==> !TruthyTime(v)
  {
    if TruthyTime(v) then TimedeltaText(SecondsOfDay(v.value)) else ""
  }

  /** `weight if weight else ''`, with the weight written with its two
      decimals. */
  function WeightCell(v: Option<real>): (s: string)
    requires v.Some? ==> IsHundredths(v.value)
    ensures s == "" <==> !TruthyReal(v)
  {
    if TruthyReal(v) then HundredthsText((v.value * 100.0).Floor) else ""
  }

  /** `n if n else ''` for rating, steps and calories. */
  function IntCell(v: Option<int>): (s: string)
    ensures s == "" <==> !TruthyInt(v)
  {
    if TruthyInt(v) then IntText(v.value) else ""
  }

  /** `note if note else ''`. */
  function NoteCell(v: Option<string>): (s: string)
    ensures s == "" <==> !TruthyText(v)
    ensures s != "" ==> v == Some(s)
  {
    if TruthyText(v) then v.value else ""
  }

  /** The header row `export_to_csv` writes. */
  const ExportHeader: seq<string> := ["ID", "日期", "入睡时间", "体重(kg)", "评分", "步数", "卡路里摄入", "备注", "创建时间", "更新时间"]

  /** `export_to_json`'s object for a record (the two timestamps aside). */
  function JsonObject(r: Record): (obj: map<string, JsonScalar>)
    requires ValidDate(r.date)
    requires r.fields.sleepTime.Some? ==> SecondsOfDay(r.fields.sleepTime.value) >= 0
    ensures obj.Keys == {"id", "date", "sleep_time", "weight", "rating", "steps", "calories_intake", "note"}
    ensures obj["sleep_time"] == JsonNull <==> !TruthyTime(r.fields.sleepTime)
    ensures obj["weight"] == JsonNull <==> !TruthyReal(r.fields.weight)
    ensures obj["rating"] == JsonNull <==> !TruthyInt(r.fields.rating)
    ensures obj["steps"] == JsonNull <==> !TruthyInt(r.fields.steps)
    ensures obj["calories_intake"] == JsonNull <==> !TruthyInt(r.fields.caloriesIntake)
    ensures obj["note"] == JsonNull <==> !TruthyText(r.fields.note)
  {
    var f := r.fields;
    map["id" := JsonInt(r.id),
        "date" := JsonText(FormatDate(r.date)),
        "sleep_time" := if TruthyTime(f.sleepTime) then JsonText(TimedeltaText(SecondsOfDay(f.sleepTime.value))) else JsonNull,
        "weight" := if TruthyReal(f.weight) then JsonFloat(f.weight.value) else JsonNull,
        "rating" := if TruthyInt(f.rating) then JsonInt(f.rating.value) else JsonNull,
        "steps" := if TruthyInt(f.steps) then JsonInt(f.steps.value) else JsonNull,
        "calories_intake" := if TruthyInt(f.caloriesIntake) then JsonInt(f.caloriesIntake.value) else JsonNull,
        "note" := if TruthyText(f.note) then JsonText(f.note.value) else JsonNull]
  }

  /** The CSV and JSON exports blank the same fields: a CSV cell is empty
      exactly where the JSON value is null. */
  lemma CsvAndJsonBlankAlike(r: Record)
    requires ValidDate(r.date)
    requires r.fields.weight.Some? ==> IsHundredths(r.fields.weight.value)
    requires r.fields.sleepTime.Some? ==> SecondsOfDay(r.fields.sleepTime.value) >= 0
    ensures var cells, obj := CsvCells(r), JsonObject(r);
      && (cells[2] == "" <==> obj["sleep_time"] == JsonNull)
      && (cells[3] == "" <==> obj["weight"] == JsonNull)
      && (cells[4] == "" <==> obj["rating"] == JsonNull)
      && (cells[5] == "" <==> obj["steps"] == JsonNull)
      && (cells[6] == "" <==> obj["calories_intake"] == JsonNull)
      && (cells[7] == "" <==> obj["note"] == JsonNull)
  {
  }

  /** The JSON export's id, date and note are the record's own: the date as
      the same text as the CSV date cell, which the importer reads back as
      the record's date (for four-digit years), and the note unchanged. */
  lemma JsonTextsAgree(r: Record)
    requires ValidDate(r.date) && r.date.year >= 1000
    requires r.fields.weight.Some? ==> IsHundredths(r.fields.weight.value)
    requires r.fields.sleepTime.Some? ==> SecondsOfDay(r.fields.sleepTime.value) >= 0
    ensures var f, cells, obj := r.fields, CsvCells(r), JsonObject(r);
      && obj["id"] == JsonInt(r.id)
      && obj["date"] == JsonText(cells[1]) && ParseDate(obj["date"].s) == Some(r.date)
      && (TruthyText(f.note) ==> obj["note"] == JsonText(cells[7]) && obj["note"].s == f.note.value)
  {
    var f, cells, obj := r.fields, CsvCells(r), JsonObject(r);
    assert obj["date"] == JsonText(cells[1]) && ParseDate(obj["date"].s) == Some(r.date) by {
      assert cells[1] == FormatDate(r.date) && obj["date"] == JsonText(FormatDate(r.date));
      DateCellReadBack(r.date);
    }
    assert TruthyText(f.note) ==> obj["note"] == JsonText(cells[7]) by {
      assert cells[7] == NoteCell(f.note);
    }
  }

  /** A truthy sleep time is exported to JSON as the same text as the CSV
      sleep cell, which the importer reads back as that time. */
  lemma JsonSleepAgrees(r: Record)
    requires ValidDate(r.date)
    requires r.fields.weight.Some? ==> IsHundredths(r.fields.weight.value)
    requires r.fields.sleepTime.Some? ==> ValidTime(r.fields.sleepTime.value)
    ensures var f, cells, obj := r.fields, CsvCells(r), JsonObject(r);
      TruthyTime(f.sleepTime) ==>
        obj["sleep_time"] == JsonText(cells[2]) && ParseSleepTime(obj["sleep_time"].s) == f.sleepTime
  {
    var f, cells, obj := r.fields, CsvCells(r), JsonObject(r);
    assert cells[2] == SleepCell(f.sleepTime);
    assert obj["sleep_time"] == if TruthyTime(f.sleepTime) then JsonText(SleepCell(f.sleepTime)) else JsonNull;
    SleepCellReadBack(f.sleepTime);
  }

  /** The JSON export's weight and counts are the numbers the CSV export's
      cells read back as. */
  lemma JsonNumbersAgree(r: Record)
    requires ValidDate(r.date)
    requires r.fields.weight.Some? ==> IsHundredths(r.fields.weight.value)
    requires r.fields.sleepTime.Some? ==> SecondsOfDay(r.fields.sleepTime.value) >= 0
    ensures var f, cells, obj := r.fields, CsvCells(r), JsonObject(r);
      && (TruthyReal(f.weight) ==>
            obj["weight"] == JsonFloat(f.weight.value) && ParseOptionalFloat(Some(cells[3])) == Some(obj["weight"].f))
      && (TruthyInt(f.rating) ==>
            obj["rating"] == JsonInt(f.rating.value) && ParseOptionalInt(Some(cells[4])) == Some(obj["rating"].i))
      && (TruthyInt(f.steps) ==>
            obj["steps"] == JsonInt(f.steps.value) && ParseOptionalInt(Some(cells[5])) == Some(obj["steps"].i))
      && (TruthyInt(f.caloriesIntake) ==>
            obj["calories_intake"] == JsonInt(f.caloriesIntake.value)
            && ParseOptionalInt(Some(cells[6])) == Some(obj["calories_intake"].i))
  {
    var f, cells, obj := r.fields, CsvCells(r), JsonObject(r);
    assert TruthyReal(f.weight) ==>
      obj["weight"] == JsonFloat(f.weight.value) && ParseOptionalFloat(Some(cells[3])) == Some(obj["weight"].f)
    by {
      assert cells[3] == WeightCell(f.weight);
      assert obj["weight"] == if TruthyReal(f.weight) then JsonFloat(f.weight.value) else JsonNull;
      WeightCellReadBack(f.weight);
    }
    assert TruthyInt(f.rating) ==>
      obj["rating"] == JsonInt(f.rating.value) && ParseOptionalInt(Some(cells[4])) == Some(obj["rating"].i)
    by {
      assert cells[4] == IntCell(f.rating);
      assert obj["rating"] == if TruthyInt(f.rating) then JsonInt(f.rating.value) else JsonNull;
      IntCellReadBack(f.rating);
    }
    assert TruthyInt(f.steps) ==>
      obj["steps"] == JsonInt(f.steps.value) && ParseOptionalInt(Some(cells[5])) == Some(obj["steps"].i)
    by {
      assert cells[5] == IntCell(f.steps);
      assert obj["steps"] == if TruthyInt(f.steps) then JsonInt(f.steps.value) else JsonNull;
      IntCellReadBack(f.steps);
    }
    assert TruthyInt(f.caloriesIntake) ==>
      obj["calories_intake"] == JsonInt(f.caloriesIntake.value)
      && ParseOptionalInt(Some(cells[6])) == Some(obj["calories_intake"].i)
    by {
      assert cells[6] == IntCell(f.caloriesIntake);
      assert obj["calories_intake"] == if TruthyInt(f.caloriesIntake) then JsonInt(f.caloriesIntake.value) else JsonNull;
      IntCellReadBack(f.caloriesIntake);
    }
  }

  /** The values an exported record comes back with when its CSV is imported:
      falsy values come back as None and the note is stripped. */
  function Reimported(f: Fields): Fields {
    Fields(if TruthyTime(f.sleepTime) then f.sleepTime else None,
           if TruthyReal(f.weight) then f.weight else None,
           if TruthyInt(f.rating) then f.rating else None,
           if TruthyInt(f.steps) then f.steps else None,
           if TruthyInt(f.caloriesIntake) then f.caloriesIntake else None,
           if f.note.Some? && Strip(f.note.value) != "" then Some(Strip(f.note.value)) else None)
  }

  /** A digit string with no '.' is read by `float()` as its value. */
  lemma DigitsAsDecimal(d: string)
    requires |d| > 0 && AllDigits(d)
    ensures ParseUnsignedDecimal(d) == Some(DigitsValue(d) as real)
  {
    var k := DotIndex(d);
    assert k == |d| by {
      assert forall i :: 0 <= i < |d| ==> d[i] != '.' by {
        forall i | 0 <= i < |d| ensures d[i] != '.' { assert IsDigit(d[i]); }
      }
    }
    assert d[..k] == d;
    assert DecimalValue(d, "") == DigitsValue(d) as real by {
      assert DigitsValue("") == 0 && Shift(0, 0) == 0.0;
    }
  }

  /** A leading sign is applied to what follows it. */
  lemma SignedAsFloat(sign: string, u: string, v: real)
    requires sign == "-" || sign == ""
    requires |u| > 0 && IsDigit(u[0]) && IsDigit(u[|u| - 1])
    requires ParseUnsignedDecimal(u) == Some(v)
    ensures Strip(sign + u) == sign + u
    ensures ParseFloat(sign + u) == Some(if sign == "-" then -v else v)
  {
    var s := sign + u;
    StripTrimmed(s);
    SignedDecimalOf(sign, u, v);
  }

  lemma SignedDecimalOf(sign: string, u: string, v: real)
    requires sign == "-" || sign == ""
    requires |u| > 0 && IsDigit(u[0])
    requires ParseUnsignedDecimal(u) == Some(v)
    ensures ParseSignedDecimal(sign + u) == Some(if sign == "-" then -v else v)
  {
    var s := sign + u;
    if sign == "-" {
      assert s[0] == '-' && s[1..] == u;
    } else {
      assert s == u && s[0] != '-' && s[0] != '+';
    }
  }

  /** `float(str(n)) == n` for an integer. */
  lemma IntTextAsFloat(n: int)
    ensures Strip(IntText(n)) == IntText(n)
    ensures ParseFloat(IntText(n)) == Some(n as real)
  {
    var m: nat := if n < 0 then -n else n;
    var sign := if n < 0 then "-" else "";
    NatTextAsDecimal(m);
    SignedAsFloat(sign, NatToString(m), m as real);
    assert IntText(n) == sign + NatToString(m);
  }

  /** `str(m)` for a natural number is an unsigned decimal literal of value `m`. */
  lemma NatTextAsDecimal(m: nat)
    ensures var d := NatToString(m);
      |d| > 0 && IsDigit(d[0]) && IsDigit(d[|d| - 1]) && ParseUnsignedDecimal(d) == Some(m as real)
  {
    var d := NatToString(m);
    NatToStringDigits(m);
    DigitsAsDecimal(d);
    assert IsDigit(d[0]) && IsDigit(d[|d| - 1]);
  }

  /** `ip.fp` with digit strings on both sides is read as `ip + fp / 10^|fp|`. */
  lemma PointAsDecimal(ip: string, fp: string)
    requires AllDigits(ip) && AllDigits(fp) && |ip| > 0
    ensures ParseUnsignedDecimal(ip + "." + fp) == Some(DecimalValue(ip, fp))
  {
    var u := ip + "." + fp;
    var k := DotIndex(u);
    assert forall i :: 0 <= i < |ip| ==> u[i] != '.' by {
      forall i | 0 <= i < |ip| ensures u[i] != '.' { assert u[i] == ip[i] && IsDigit(ip[i]); }
    }
    assert u[|ip|] == '.';
    assert k == |ip|;
    assert u[..k] == ip && u[k + 1..] == fp;
  }

  /** `float(str(Decimal))` gives back the two-place decimal. */
  lemma HundredthsTextAsFloat(c: int)
    ensures Strip(HundredthsText(c)) == HundredthsText(c)
    ensures ParseFloat(HundredthsText(c)).Some? && ParseFloat(HundredthsText(c)).value * 100.0 == c as real
  {
    var a: nat := if c < 0 then -c else c;
    var u := UnsignedHundredthsText(a);
    UnsignedHundredthsAsDecimal(a);
    var v := ParseUnsignedDecimal(u).value;
    var sign := if c < 0 then "-" else "";
    SignedAsFloat(sign, u, v);
    assert HundredthsText(c) == sign + u;
  }

  lemma UnsignedHundredthsAsDecimal(a: nat)
    ensures var u := UnsignedHundredthsText(a);
      && |u| > 0 && IsDigit(u[0]) && IsDigit(u[|u| - 1])
      && ParseUnsignedDecimal(u).Some? && ParseUnsignedDecimal(u).value * 100.0 == a as real
  {
    var q, r := a / 100, a % 100;
    var ip := NatToString(q);
    NatToStringDigits(q);
    var fp := Pad2(r);
    Pad2Field(r);
    PointAsDecimal(ip, fp);
    PointTextEnds(ip, fp);
    assert DecimalValue(ip, fp) == q as real + r as real / 100.0 by {
      assert |fp| == 2 && Shift(r, 2) == Shift(r, 1) / 10.0 && Shift(r, 1) == r as real / 10.0;
    }
    HundredthsSum(q, r);
  }

  lemma PointTextEnds(ip: string, fp: string)
    requires |ip| > 0 && AllDigits(ip) && |fp| > 0 && AllDigits(fp)
    ensures var u := ip + "." + fp; |u| > 0 && IsDigit(u[0]) && IsDigit(u[|u| - 1])
  {
    var u := ip + "." + fp;
    assert u[0] == ip[0];
    assert u[|u| - 1] == fp[|fp| - 1];
  }

  lemma HundredthsSum(q: int, r: int)
    ensures (q as real + r as real / 100.0) * 100.0 == (q * 100 + r) as real
  {
  }

  /** The exported date cell reads back as the date. */
  lemma DateCellReadBack(d: Date)
    requires ValidDate(d) && d.year >= 1000
    ensures Strip(FormatDate(d)) == FormatDate(d) && FormatDate(d) != "" && ParseDate(FormatDate(d)) == Some(d)
  {
    DateRoundTrip(d);
    NatToStringDigits(d.year);
    Pad2Digits(d.day);
    var s := FormatDate(d);
    assert s[0] == NatToString(d.year)[0];
    assert s[|s| - 1] == Pad2(d.day)[1];
    StripTrimmed(s);
  }

  /** The exported sleep cell reads back as the sleep time, a falsy one as None. */
  lemma SleepCellReadBack(v: Option<TimeOfDay>)
    requires v.Some? ==> ValidTime(v.value)
    ensures ParseSleepTime(SleepCell(v)) == if TruthyTime(v) then v else None
  {
    if TruthyTime(v) {
      TimedeltaTextReadBack(v.value);
    } else {
      assert SleepCell(v) == "" && Strip("") == "";
    }
  }

  /** `str(timedelta)` of a time of day is read back by the sleep column parser. */
  lemma TimedeltaTextReadBack(t: TimeOfDay)
    requires ValidTime(t)
    ensures ParseSleepTime(TimedeltaText(SecondsOfDay(t))) == Some(t)
  {
    TimedeltaRoundTrip(t);
    FirstSleepFormat(TimedeltaText(SecondsOfDay(t)), t);
  }

  /** A cell that `%H:%M:%S` accepts and that starts and ends with a digit is read with that format. */
  lemma FirstSleepFormat(s: string, t: TimeOfDay)
    requires |s| > 0 && IsDigit(s[0]) && IsDigit(s[|s| - 1]) && ParseTimeHMS(s) == Some(t)
    ensures ParseSleepTime(s) == Some(t)
  {
    StripTrimmed(s);
  }

  /** `_parse_float` on a cell with no surrounding white space is `float()` of it. */
  lemma OptionalFloatOfTrimmed(s: string)
    requires Strip(s) == s && ParseFloat(s).Some?
    ensures ParseOptionalFloat(Some(s)) == ParseFloat(s)
  {
  }

  /** The exported weight cell reads back as the weight, a falsy one as None. */
  lemma WeightCellReadBack(v: Option<real>)
    requires v.Some? ==> IsHundredths(v.value)
    ensures ParseOptionalFloat(Some(WeightCell(v))) == if TruthyReal(v) then v else None
  {
    if TruthyReal(v) {
      var c := (v.value * 100.0).Floor;
      var s := HundredthsText(c);
      assert WeightCell(v) == s;
      HundredthsTextAsFloat(c);
      OptionalFloatOfTrimmed(s);
    }
  }

  /** An exported integer cell reads back as the integer, a falsy one as None. */
  lemma IntCellReadBack(v: Option<int>)
    ensures ParseOptionalInt(Some(IntCell(v))) == if TruthyInt(v) then v else None
  {
    if TruthyInt(v) {
      var s := IntText(v.value);
      assert IntCell(v) == s;
      assert ParseOptionalFloat(Some(s)) == Some(v.value as real) by {
        IntTextAsFloat(v.value);
        OptionalFloatOfTrimmed(s);
      }
      assert Truncate(v.value as real) == v.value;
    } else {
      assert IntCell(v) == "" && Strip("") == "";
    }
  }

  /** The cells the importer looks up in a row `csv.DictReader` builds from
      an exported line. */
  lemma ExportedRowCells(r: Record)
    requires ValidDate(r.date)
    requires r.fields.weight.Some? ==> IsHundredths(r.fields.weight.value)
    requires r.fields.sleepTime.Some? ==> SecondsOfDay(r.fields.sleepTime.value) >= 0
    ensures var cells, row, k := CsvCells(r), DictRow(ExportHeader, CsvCells(r)), ColumnNamesOf(FullExport);
      && Cell(row, k.date) == Some(cells[1]) && Cell(row, k.sleep) == Some(cells[2])
      && Cell(row, k.weight) == Some(cells[3]) && Cell(row, k.rating) == Some(cells[4])
      && Cell(row, k.steps) == Some(cells[5]) && Cell(row, k.calories) == Some(cells[6])
      && Cell(row, k.note) == Some(cells[7])
  {
    var cells := CsvCells(r);
    forall i | 1 <= i <= 7
      ensures ExportHeader[i] in DictRow(ExportHeader, cells) && DictRow(ExportHeader, cells)[ExportHeader[i]] == Some(cells[i])
    {
      DictRowLookup(ExportHeader, cells, i);
    }
  }

  /** A row holding an exported record's cells is stored as the record's
      date with its values read back. */
  lemma ImportOfExportedCells(r: Record, row: CsvRow)
    requires ValidDate(r.date) && r.date.year >= 1000
    requires r.fields.weight.Some? ==> IsHundredths(r.fields.weight.value)
    requires r.fields.sleepTime.Some? ==> ValidTime(r.fields.sleepTime.value)
    requires var f, k := r.fields, ColumnNamesOf(FullExport);
      && Cell(row, k.date) == Some(FormatDate(r.date)) && Cell(row, k.sleep) == Some(SleepCell(f.sleepTime))
      && Cell(row, k.weight) == Some(WeightCell(f.weight)) && Cell(row, k.rating) == Some(IntCell(f.rating))
      && Cell(row, k.steps) == Some(IntCell(f.steps)) && Cell(row, k.calories) == Some(IntCell(f.caloriesIntake))
      && Cell(row, k.note) == Some(NoteCell(f.note))
    ensures ParseRow(FullExport, row) == Parsed(r.date, Reimported(r.fields))
  {
    var f := r.fields;
    DateCellReadBack(r.date);
    SleepCellReadBack(f.sleepTime);
    WeightCellReadBack(f.weight);
    IntCellReadBack(f.rating);
    IntCellReadBack(f.steps);
    IntCellReadBack(f.caloriesIntake);
    ParseRowStores(FullExport, row);
    var note := Strip(NoteCell(f.note));
    assert (if note == "" then None else Some(note)) == Reimported(f).note by {
      assert Strip("") == "";
    }
  }

  /** A CSV written by the exporter, read back by the importer, stores each
      record's date with its truthy values unchanged and its falsy values as
      None (for four-digit years). */
  lemma ExportThenImport(r: Record)
    requires ValidDate(r.date) && r.date.year >= 1000
    requires r.fields.weight.Some? ==> IsHundredths(r.fields.weight.value)
    requires r.fields.sleepTime.Some? ==> ValidTime(r.fields.sleepTime.value)
    ensures ParseRow(FullExport, DictRow(ExportHeader, CsvCells(r))) == Parsed(r.date, Reimported(r.fields))
  {
    ExportedRowCells(r);
    ImportOfExportedCells(r, DictRow(ExportHeader, CsvCells(r)));
  }

  class DataManager {
    const db: Store

    constructor (db: Store)
      ensures this.db == db
    {
      this.db := db;
    }

    /** `import_from_csv` once the file is open: the layout is chosen from the
        first line, each row is parsed and upserted in order, and the result is
        whether at least one row was stored. `reach[i]` is what
        `insert_record` returns for row `i`. */
    method ImportFromCsv(firstLine: string, rows: seq<CsvRow>, reach: seq<bool>) returns (imported: bool, success: nat, errors: nat)
      requires db.Valid() && |reach| == |rows|
      modifies db
      ensures db.Valid()
      ensures var outs := Outcomes(DetectDialect(firstLine), rows);
        && success == Stored(outs, reach) && errors == Failures(outs, reach)
        && (db.rows, db.nextId) == ReplayImport(old(db.rows), old(db.nextId), outs, reach)
      ensures imported == (success > 0)
    {
      var dialect := DetectDialect(firstLine);
      ghost var outs := Outcomes(dialect, rows);
      success, errors := 0, 0;
      var i := 0;
      assert outs[..0] == [] && reach[..0] == [];
      while i < |rows|
        invariant 0 <= i <= |rows|
        invariant db.Valid()
        invariant success == Stored(outs[..i], reach[..i]) && errors == Failures(outs[..i], reach[..i])
        invariant (db.rows, db.nextId) == ReplayImport(old(db.rows), old(db.nextId), outs[..i], reach[..i])
      {
        success, errors := ImportRow(dialect, rows, reach, i, old(db.rows), old(db.nextId), success, errors);
        i := i + 1;
      }
      assert outs[..i] == outs && reach[..i] == reach;
      imported := success > 0;
    }

    /** One pass of the import loop: parse row `i`, store it, count it. */
    method ImportRow(dialect: Dialect, rows: seq<CsvRow>, reach: seq<bool>, i: int, ghost rows0: map<Date, Row>, ghost next0: nat,
                     success: nat, errors: nat) returns (success': nat, errors': nat)
      requires db.Valid() && |reach| == |rows| && 0 <= i < |rows|
      requires var outs := Outcomes(dialect, rows);
        && success == Stored(outs[..i], reach[..i]) && errors == Failures(outs[..i], reach[..i])
        && (db.rows, db.nextId) == ReplayImport(rows0, next0, outs[..i], reach[..i])
      modifies db
      ensures db.Valid()
      ensures var outs := Outcomes(dialect, rows);
        && success' == Stored(outs[..i + 1], reach[..i + 1]) && errors' == Failures(outs[..i + 1], reach[..i + 1])
        && (db.rows, db.nextId) == ReplayImport(rows0, next0, outs[..i + 1], reach[..i + 1])
    {
      ghost var outs := Outcomes(dialect, rows);
      var o := ParseRow(dialect, rows[i]);
      assert o == outs[i];
      CountStep(outs, reach, i);
      ReplayStep(rows0, next0, outs, reach, i);
      var stored, failed := StoreRow(o, reach[i]);
      success', errors' := success, errors;
      if stored {
        success' := success' + 1;
      }
      if failed {
        errors' := errors' + 1;
      }
    }

    /** One row of the import: a parsed row is upserted, and the row counts
        as a success if `insert_record` returned True and as an error if it
        returned False or the row failed to parse. */
    method StoreRow(o: RowOutcome, reachable: bool) returns (stored: bool, failed: bool)
      requires db.Valid() && (o.Parsed? ==> ValidDate(o.date))
      modifies db
      ensures db.Valid()
      ensures stored == (o.Parsed? && reachable)
      ensures failed == (o.Failed? || (o.Parsed? && !reachable))
      ensures (db.rows, db.nextId) == ImportStep((old(db.rows), old(db.nextId)), o, reachable)
    {
      match o {
        case Skipped =>
          return false, false;
        case Failed =>
          return false, true;
        case Parsed(date, f) =>
          var ok := db.InsertRecord(reachable, date, f);
          return ok, !ok;
      }
    }

    /** `_get_records_by_year`. */
    method GetRecordsByYear(reachable: bool, year: int) returns (rs: seq<Record>)
      requires 1 <= year <= 9999
      ensures !reachable ==> rs == []
      ensures reachable ==> Lists(rs, db.rows, RangeKeys(db.rows, Date(year, 1, 1), Date(year, 12, 31)), true)
    {
      rs := db.GetRecordsByDateRange(reachable, Date(year, 1, 1), Date(year, 12, 31));
    }

    /** The part `export_to_csv` and `export_to_json` share: from the chosen
        mode to the records to write. */
    method SelectForExport(mode: ExportMode, reachable: bool) returns (sel: Selection)
      ensures mode == NoMode ==> sel == Cancelled
      ensures mode.ByYear? && (mode.year == None || mode.year == Some(0)) ==> sel == Cancelled
      ensures mode.ByYear? && mode.year.Some? && mode.year.value != 0 && !YearAccepted(mode.year) ==> sel == YearOutOfRange
      ensures mode.ByRange? && mode.range == None ==> sel == Cancelled
      ensures sel.Selected? ==> reachable && sel.records != [] && Lists(sel.records, db.rows, ExportKeys(mode, db.rows), true)
      ensures sel == NothingFound ==> !reachable || ExportKeys(mode, db.rows) == {}
      ensures (mode == AllRecords || (mode.ByYear? && YearAccepted(mode.year)) || (mode.ByRange? && mode.range.Some?)) ==>
                (sel.Selected? || sel == NothingFound)
    {
      var rs: seq<Record>;
      match mode {
        case NoMode =>
          return Cancelled;
        case AllRecords =>
          rs := db.GetAllRecords(reachable, "ASC");
          assert IsAscending("ASC");
        case ByYear(year) =>
          if year == None || year.value == 0 {
            return Cancelled;
          }
          if !(1 <= year.value <= 9999) {
            return YearOutOfRange;
          }
          rs := GetRecordsByYear(reachable, year.value);
        case ByRange(range) =>
          if range == None {
            return Cancelled;
          }
          rs := db.GetRecordsByDateRange(reachable, range.value.0, range.value.1);
      }
      if rs == [] {
        return NothingFound;
      }
      return Selected(rs);
    }
  }
}
