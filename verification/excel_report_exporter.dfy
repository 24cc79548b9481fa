/** The Excel report: two sheets built from the payload's overall results,
    each holding a header row, one row per discipline and, when there is
    at least one discipline, a bar chart over that data. Styling, number
    formats and the file written by PhpSpreadsheet are not modelled. */
module ExcelReportExporter {
  import opened Wrappers
  import opened Text
  import opened PhpValue
  import opened ReportDataValidator

  const DefaultValue := "-"
  const DisciplineHeader := "Дисциплина"
  const QualityHeader := "Качество знаний"
  const AverageHeader := "Средний балл"

  const QualitySheetTitle := "QualityResults"
  const QualityChartTitle := "Качество знаний"
  const QualityDataRange := "$B$2:$B$"
  const AverageSheetTitle := "AverageScoreResults"
  const AverageChartTitle := "Средний балл"
  const AverageDataRange := "$C$2:$C$"
  const CategoryRange := "$A$2:$A$"
  const ChartFromRow: nat := 2
  const ChartToRow: nat := 30

  /** The sheet a new workbook starts with. */
  const InitialSheetTitle := "Worksheet"

  const NotArrayMessage := "prepareSheetData(): Argument #1 ($overallResults) must be of type array"
  const UnsupportedDivisionMessage := "Unsupported operand types: array / int"
  const NonNumericMessage := "Unsupported operand types: string / int"

  /** The header row of every sheet. */
  function HeaderRow(): seq<Php> {
    [PStr(DisciplineHeader), PStr(QualityHeader), PStr(AverageHeader)]
  }

  /** `$x / 100` on an integer: PHP gives an integer when the division is
      exact and a float otherwise. */
  function IntPercent(i: int): (r: Php)
    ensures r.PInt? ==> r.i * 100 == i
    ensures r.PFloat? ==> r.f * 100.0 == i as real
    ensures r.PInt? || r.PFloat?
  {
    if i % 100 == 0 then PInt(i / 100) else PFloat(i as real / 100.0)
  }

  /** A non-empty string of ASCII digits, the numeric strings this model
      divides. */
  predicate DigitString(s: string) {
    |s| > 0 && forall k :: 0 <= k < |s| ==> IsDigit(s[k])
  }

  /** The quality cell: `$row['avgQuality'] / 100`, or '-' when it is null
      or missing. Arrays and non-numeric strings cannot be divided. */
  function QualityCell(row: Php): (r: Result<Php, Throwable>)
    ensures Index(row, StrKey("avgQuality")).PNull? <==> r == Ok(PStr(DefaultValue))
    ensures r.Err? ==> r.error.kind == TypeError
  {
    match Index(row, StrKey("avgQuality"))
    case PNull => Ok(PStr(DefaultValue))
    case PBool(b) => Ok(if b then PFloat(0.01) else PInt(0))
    case PInt(i) => Ok(IntPercent(i))
    case PFloat(f) => Ok(PFloat(f / 100.0))
    case PStr(s) =>
      if DigitString(s) then Ok(IntPercent(DigitsValue(s)))
      else Err(Throwable(TypeError, NonNumericMessage))
    case PArr(_) => Err(Throwable(TypeError, UnsupportedDivisionMessage))
  }

  /** The number a cell holds, if it holds one. */
  function NumberOf(v: Php): Option<real> {
    match v
    case PInt(i) => Some(i as real)
    case PFloat(f) => Some(f)
    case _ => None
  }

  /** The quality cell holds the percentage as a fraction: multiplied back
      by 100 it is the row's numeric avgQuality. */
  lemma QualityReadBack(row: Php)
    requires Index(row, StrKey("avgQuality")).PInt? || Index(row, StrKey("avgQuality")).PFloat?
    ensures QualityCell(row).Ok?
    ensures NumberOf(QualityCell(row).value).Some?
    ensures NumberOf(QualityCell(row).value).value * 100.0 == NumberOf(Index(row, StrKey("avgQuality"))).value
  {
    var q := Index(row, StrKey("avgQuality"));
    if q.PFloat? {
      Hundredth(q.f);
    }
  }

  /** A hundredth of x, times 100, is x. */
  lemma Hundredth(x: real)
    ensures (x / 100.0) * 100.0 == x
  {
  }

  /** The average-score cell: `$row['avgAverageScore'] ?? '-'`. */
  function AverageCell(row: Php): (r: Php)
    ensures Index(row, StrKey("avgAverageScore")).PNull? ==> r == PStr(DefaultValue)
    ensures !Index(row, StrKey("avgAverageScore")).PNull? ==> r == Index(row, StrKey("avgAverageScore"))
  {
    Coalesce(Index(row, StrKey("avgAverageScore")), PStr(DefaultValue))
  }

  /** The data rows for the results, in order; the first quality cell that
      cannot be computed stops the loop. */
  function DataRows(rows: seq<(Key, Php)>): (r: Result<seq<seq<Php>>, Throwable>)
    ensures r.Ok? <==> forall i :: 0 <= i < |rows| ==> QualityCell(rows[i].1).Ok?
    ensures r.Ok? ==> |r.value| == |rows|
    ensures r.Ok? ==> forall i :: 0 <= i < |rows| ==>
      r.value[i] == [Index(rows[i].1, StrKey("discipline")), QualityCell(rows[i].1).value, AverageCell(rows[i].1)]
    ensures r.Err? ==> FirstFailure(rows, r.error)
    decreases |rows|
  {
    if |rows| == 0 then Ok([])
    else
      var row := rows[|rows| - 1].1;
      match DataRows(rows[..|rows| - 1])
      case Err(e) => FirstFailurePrefix(rows, e); Err(e)
      case Ok(init) =>
        match QualityCell(row)
        case Err(e) => FirstFailureLast(rows, rows[..|rows| - 1], e); Err(e)
        case Ok(q) => Ok(init + [[Index(row, StrKey("discipline")), q, AverageCell(row)]])
  }

  /** Row `i` is the first whose quality cell fails, with error `e`. */
  predicate FirstFailure(rows: seq<(Key, Php)>, e: Throwable) {
    exists i :: 0 <= i < |rows| && QualityCell(rows[i].1) == Err(e)
                && forall j :: 0 <= j < i ==> QualityCell(rows[j].1).Ok?
  }

  /** The first failure of all rows but the last is the first failure of
      all rows. */
  lemma FirstFailurePrefix(rows: seq<(Key, Php)>, e: Throwable)
    requires |rows| > 0 && FirstFailure(rows[..|rows| - 1], e)
    ensures FirstFailure(rows, e)
  {
    var init := rows[..|rows| - 1];
    var i :| 0 <= i < |init| && QualityCell(init[i].1) == Err(e)
             && forall j :: 0 <= j < i ==> QualityCell(init[j].1).Ok?;
    assert rows[i] == init[i];
    forall j | 0 <= j < i ensures QualityCell(rows[j].1).Ok? {
      assert rows[j] == init[j];
    }
  }

  /** A failing last row behind rows that all succeed is the first
      failure. */
  lemma FirstFailureLast(rows: seq<(Key, Php)>, init: seq<(Key, Php)>, e: Throwable)
    requires |rows| > 0 && init == rows[..|rows| - 1] && QualityCell(rows[|rows| - 1].1) == Err(e)
    requires forall i :: 0 <= i < |init| ==> QualityCell(init[i].1).Ok?
    ensures FirstFailure(rows, e)
  {
    forall j | 0 <= j < |init| ensures QualityCell(rows[j].1).Ok? {
      assert rows[j] == init[j];
    }
  }

  /** `prepareSheetData`: the header row, then one row per result. Its
      parameter is typed `array`, so anything else is a TypeError. */
  function PrepareSheetData(overallResults: Php): (r: Result<seq<seq<Php>>, Throwable>)
    ensures !overallResults.PArr? ==> r.Err? && r.error.kind == TypeError
    ensures r.Ok? ==> overallResults.PArr? && |r.value| == |overallResults.entries| + 1 && r.value[0] == HeaderRow()
    ensures overallResults.PArr? ==> (r.Ok? <==> NumericQualities(overallResults))
  {
    if !overallResults.PArr? then Err(Throwable(TypeError, NotArrayMessage))
    else
      match DataRows(overallResults.entries)
      case Err(e) => Err(e)
      case Ok(rows) => Ok([HeaderRow()] + rows)
  }

  /** The sheet lists the disciplines in input order, with '-' exactly for
      the missing or null quality values. */
  lemma SheetRows(overallResults: Php, i: nat)
    requires PrepareSheetData(overallResults).Ok?
    requires i < |overallResults.entries|
    ensures var sheet := PrepareSheetData(overallResults).value;
      var row := overallResults.entries[i].1;
      && sheet[i + 1][0] == Index(row, StrKey("discipline"))
      && (sheet[i + 1][1] == PStr(DefaultValue) <==> Index(row, StrKey("avgQuality")).PNull?)
      && sheet[i + 1][2] == AverageCell(row)
  {
    var row := overallResults.entries[i].1;
    var q := QualityCell(row).value;
    if q == PStr(DefaultValue) {
      assert Index(row, StrKey("avgQuality")).PNull?;
    }
  }

  /** A bar chart over a sheet: category and value ranges ending at row n
      (the row count including the header), n - 1 points, anchored at
      E<x> to N<y>. */
  datatype Chart = Chart(title: string, categories: string, values: string, points: nat,
                         topLeft: string, bottomRight: string)

  /** A worksheet: its title, its cells row by row and its chart. */
  datatype Sheet = Sheet(title: string, data: seq<seq<Php>>, chart: Option<Chart>)

  /** The chart `createChartResultsSheet` adds for a sheet with n rows:
      only when there is a row besides the header. */
  function ChartFor(sheetTitle: string, chartTitle: string, dataRange: string, categoryRange: string,
                    x: nat, y: nat, n: nat): (c: Option<Chart>)
    ensures c.Some? <==> n > 1
  {
    if n > 1 then
      Some(Chart(chartTitle,
                 sheetTitle + "!" + categoryRange + NatToString(n),
                 sheetTitle + "!" + dataRange + NatToString(n),
                 n - 1,
                 "E" + NatToString(x), "N" + NatToString(y)))
    else None
  }

  /** The chart's ranges end at the sheet's last row: reading the row
      number back from the range gives the row count, and the points are
      the rows below the header. */
  lemma ChartCoversRows(sheetTitle: string, chartTitle: string, dataRange: string, categoryRange: string,
                        x: nat, y: nat, n: nat)
    requires n > 1
    ensures var c := ChartFor(sheetTitle, chartTitle, dataRange, categoryRange, x, y, n).value;
      var prefix := sheetTitle + "!" + dataRange;
      && |c.values| > |prefix|
      && c.values[..|prefix|] == prefix
      && (forall k :: |prefix| <= k < |c.values| ==> IsDigit(c.values[k]))
      && DigitsValue(c.values[|prefix|..]) == n
      && c.points == n - 1
  {
    var prefix := sheetTitle + "!" + dataRange;
    var c := ChartFor(sheetTitle, chartTitle, dataRange, categoryRange, x, y, n).value;
    assert c.values == prefix + NatToString(n);
    assert c.values[|prefix|..] == NatToString(n);
    NatToStringRoundTrip(n);
  }

  /** `createChartResultsSheet`: the sheet's data and its chart. It fails
      exactly when the data cannot be prepared; a sheet it makes carries
      the prepared rows under its title, and a chart exactly when there is
      a discipline, whose ranges end at the sheet's last row. */
  function ChartResultsSheet(overallResults: Php, sheetTitle: string, chartTitle: string,
                             dataRange: string, categoryRange: string, x: nat, y: nat)
    : (s: Result<Sheet, Throwable>)
    ensures s.Err? <==> PrepareSheetData(overallResults).Err?
    ensures s.Err? ==> s.error == PrepareSheetData(overallResults).error
    ensures s.Ok? ==> s.value.title == sheetTitle && s.value.data == PrepareSheetData(overallResults).value
    ensures s.Ok? ==> (s.value.chart.Some? <==> |overallResults.entries| >= 1)
    ensures s.Ok? && s.value.chart.Some? ==>
      s.value.chart.value.values == sheetTitle + "!" + dataRange + NatToString(|s.value.data|)
      && s.value.chart.value.categories == sheetTitle + "!" + categoryRange + NatToString(|s.value.data|)
  {
    match PrepareSheetData(overallResults)
    case Err(e) => Err(e)
    case Ok(data) => Ok(Sheet(sheetTitle, data, ChartFor(sheetTitle, chartTitle, dataRange, categoryRange, x, y, |data|)))
  }

  /** The workbook after `removeSheetByIndex(0)`. */
  function RemoveFirst(sheets: seq<Sheet>): seq<Sheet>
    requires |sheets| > 0
  {
    sheets[1..]
  }

  /** `export` up to saving, on the overall results it reads: the quality
      sheet, then the average-score sheet, then the initial sheet is
      removed. It fails exactly when the sheet data cannot be prepared,
      with that error. The finished workbook is QualityResults then
      AverageScoreResults, both with the same cells, a chart on each
      exactly when there is a discipline, and ranges over columns B and C
      respectively. */
  function SheetsFor(overallResults: Php): (w: Result<seq<Sheet>, Throwable>)
    ensures w.Err? <==> PrepareSheetData(overallResults).Err?
    ensures w.Err? ==> w.error == PrepareSheetData(overallResults).error
    ensures w.Ok? ==> Workbook(w.value, overallResults)
  {
    var initial := Sheet(InitialSheetTitle, [], None);
    match ChartResultsSheet(overallResults, QualitySheetTitle, QualityChartTitle, QualityDataRange, CategoryRange,
                            ChartFromRow, ChartToRow)
    case Err(e) => Err(e)
    case Ok(quality) =>
      match ChartResultsSheet(overallResults, AverageSheetTitle, AverageChartTitle, AverageDataRange, CategoryRange,
                              ChartFromRow, ChartToRow)
      case Err(e) => Err(e)
      case Ok(average) => Ok(RemoveFirst([initial, quality, average]))
  }

  /** The two sheets of a finished workbook for these overall results. */
  predicate Workbook(ss: seq<Sheet>, overallResults: Php) {
    && |ss| == 2
    && ss[0].title == QualitySheetTitle && ss[1].title == AverageSheetTitle
    && PrepareSheetData(overallResults).Ok?
    && ss[0].data == PrepareSheetData(overallResults).value && ss[1].data == ss[0].data
    && (ss[0].chart.Some? <==> |overallResults.entries| >= 1)
    && (ss[1].chart.Some? <==> |overallResults.entries| >= 1)
    && (ss[0].chart.Some? ==>
          ss[0].chart.value.values == QualitySheetTitle + "!" + QualityDataRange + NatToString(|ss[0].data|)
          && ss[0].chart.value.categories == QualitySheetTitle + "!" + CategoryRange + NatToString(|ss[0].data|))
    && (ss[1].chart.Some? ==>
          ss[1].chart.value.values == AverageSheetTitle + "!" + AverageDataRange + NatToString(|ss[1].data|)
          && ss[1].chart.value.categories == AverageSheetTitle + "!" + CategoryRange + NatToString(|ss[1].data|))
  }

  /** `export` as written: `$reportData['data']['overallResults']` is
      passed on as it is, null when missing. Anything but an array there
      is a TypeError; an array gives the two sheets exactly when every
      quality value can be divided. */
  function ExcelExport(r: seq<(Key, Php)>): (w: Result<seq<Sheet>, Throwable>)
    ensures !OverallResults(r).PArr? ==> w.Err? && w.error.kind == TypeError
    ensures OverallResults(r).PArr? ==> (w.Ok? <==> NumericQualities(OverallResults(r)))
    ensures w.Ok? ==> Workbook(w.value, OverallResults(r))
  {
    SheetsFor(OverallResults(r))
  }

  /** Payloads without overall results that the validator accepts: the
      exporter still passes null to `prepareSheetData` and fails with a
      TypeError. */
  lemma MissingOverallResultsFails(avgTable: seq<(Key, Php)>, qualityTable: seq<(Key, Php)>, user: seq<(Key, Php)>)
    requires |avgTable| > 0 && |qualityTable| > 0 && |user| > 0
    ensures ValidateReportData(UserOnlyPayload(avgTable, qualityTable, user)) == Pass
    ensures ExcelExport(UserOnlyPayload(avgTable, qualityTable, user)).Err?
    ensures ExcelExport(UserOnlyPayload(avgTable, qualityTable, user)).error.kind == TypeError
  {
    UserWithoutOverallResultsPasses(avgTable, qualityTable, user);
  }

  /** The intended reading: overall results that the validator lets be
      empty (missing, null or another empty value) stand for no rows. */
  function ExcelExportChecked(r: seq<(Key, Php)>): Result<seq<Sheet>, Throwable> {
    var overall := OverallResults(r);
    SheetsFor(if Empty(overall) then PArr([]) else overall)
  }

  /** Every quality value of the rows can be divided. */
  predicate NumericQualities(overallResults: Php) {
    overallResults.PArr? ==>
      forall i :: 0 <= i < |overallResults.entries| ==> QualityCell(overallResults.entries[i].1).Ok?
  }

  /** With the check, every payload the validator accepts whose quality
      values are numeric or null yields the two sheets; without overall
      results they hold only the header row and no chart. */
  lemma CheckedExportSucceeds(r: seq<(Key, Php)>)
    requires ValidateReportData(r).Pass?
    requires NumericQualities(OverallResults(r))
    ensures ExcelExportChecked(r).Ok?
    ensures Empty(OverallResults(r)) ==>
      var ss := ExcelExportChecked(r).value;
      |ss| == 2 && ss[0].data == [HeaderRow()] && ss[0].chart.None? && ss[1].data == [HeaderRow()] && ss[1].chart.None?
  {
    var overall := OverallResults(r);
    if Empty(overall) {
      assert DataRows([]) == Ok([]);
    }
  }

  /** The check changes nothing for payloads that have overall results. */
  lemma CheckedAgreesWithOverallResults(r: seq<(Key, Php)>)
    requires !Empty(OverallResults(r))
    ensures ExcelExportChecked(r) == ExcelExport(r)
  {
  }
}
