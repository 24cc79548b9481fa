/** The Word report: the payload is validated first, then the document is
    built as a fixed sequence of blocks around two generic tables. Styling,
    fonts and the file written by PhpWord are not modelled; a document is
    the sequence of its blocks with their texts and table contents. */
module WordReportExporter {
  import opened Wrappers
  import opened Text
  import opened PhpValue
  import opened Seqs
  import opened ReportDataValidator

  const DefaultCell := "-"
  const FallbackTeacher := "Шинакова С.В."
  const TitleText := "Результаты промежуточной аттестации"
  const TeacherPrefix := "Преподаватель "
  const DescriptionText := "Результаты освоения обучающимися образовательных программ по итогам мониторингов, проводимых организацией (качество знаний с учетом статуса образовательной организации)"
  const AverageScoreText := "По результатам промежуточной аттестации за межаттестационный период средний балл обучающихся составил:"
  const QualityText := "По результатам промежуточной аттестации за межаттестационный период качество знаний обучающихся составило:"
  const AverageTableHeader := "Средний бал"
  const QualityTableHeader := "Уровень качества знаний, %"
  const DisciplineKey := "discipline"
  const AverageTableKey := "averageScoreTable"
  const QualityTableKey := "qualityTable"

  /** Line heights of the spacer paragraphs. */
  const DefaultHeight: real := 1.15
  const TableSpacer: real := 1.0

  /** Table geometry: total width and the discipline column, in twips. */
  const TableWidth: int := 9800
  const DisciplineWidth: int := 4000

  const ArrayKeysTypeError := "array_keys(): Argument #1 ($array) must be of type array"
  const DivisionByZeroMessage := "Division by zero"

  /** A generated table: its header text, the value columns (one per year
      key), the width of each value column, and one row of cells per data
      row. */
  datatype Table = Table(header: string, yearKeys: seq<Key>, valueWidth: real, rows: seq<seq<Php>>)

  /** The blocks of the document, in the order they are added. */
  datatype Block =
    | Title(text: string)
    | TeacherLine(text: string)
    | EmptyLine(height: real)
    | ListItem(text: string)
    | Paragraph(text: string)
    | TableBlock(table: Table)

  /** The first character of a string (`mb_substr($s, 0, 1)`). */
  function Initial(s: string): (r: string)
    ensures |s| > 0 ==> r == [s[0]]
    ensures |s| == 0 ==> r == ""
  {
    if |s| == 0 then "" else s[..1]
  }

  /** `isset($user[$key])`. */
  predicate IsSet(user: Php, key: string) {
    !Index(user, StrKey(key)).PNull?
  }

  /** The three name parts are set on a non-empty user. */
  predicate HasFullName(user: Php) {
    !Empty(user) && IsSet(user, "last_name") && IsSet(user, "name") && IsSet(user, "surname")
  }

  /** `formatTeacherName`: "Last N.S." from the payload's user, or the
      fixed fallback. */
  function FormatTeacherName(reportData: seq<(Key, Php)>): (name: string)
    ensures !HasFullName(User(reportData)) ==> name == FallbackTeacher
  {
    var user := User(reportData);
    if HasFullName(user) then
      match (StrVal(Index(user, StrKey("last_name"))), StrVal(Index(user, StrKey("name"))),
             StrVal(Index(user, StrKey("surname"))))
      case (Some(last), Some(first), Some(middle)) => last + " " + Initial(first) + "." + Initial(middle) + "."
      case _ => FallbackTeacher
    else FallbackTeacher
  }

  /** With all three parts given as non-empty strings, the name reads
      back as: the last name, a space, the first letter of the name, '.',
      the first letter of the patronymic, '.'. */
  lemma TeacherNameParts(reportData: seq<(Key, Php)>, last: string, first: string, middle: string)
    requires !Empty(User(reportData))
    requires Index(User(reportData), StrKey("last_name")) == PStr(last)
    requires Index(User(reportData), StrKey("name")) == PStr(first)
    requires Index(User(reportData), StrKey("surname")) == PStr(middle)
    requires |first| > 0 && |middle| > 0
    ensures var n := FormatTeacherName(reportData);
      && |n| == |last| + 5
      && n[..|last|] == last
      && n[|last|] == ' ' && n[|last| + 1] == first[0] && n[|last| + 2] == '.'
      && n[|last| + 3] == middle[0] && n[|last| + 4] == '.'
  {
  }

  /** The value columns: the first row's keys except 'discipline', in
      order (`array_filter` with `!==`, so integer keys always stay). */
  function YearKeys(keys: seq<Key>): (ys: seq<Key>)
    ensures |ys| <= |keys|
    ensures forall k :: k in ys <==> k in keys && k != StrKey(DisciplineKey)
    decreases |keys|
  {
    if |keys| == 0 then []
    else if keys[0] == StrKey(DisciplineKey) then YearKeys(keys[1..])
    else [keys[0]] + YearKeys(keys[1..])
  }

  /** The filter keeps the relative order of the keys. */
  lemma {:induction false} YearKeysConcat(a: seq<Key>, b: seq<Key>)
    ensures YearKeys(a + b) == YearKeys(a) + YearKeys(b)
    decreases |a|
  {
    if |a| == 0 {
      assert a + b == b;
    } else {
      assert (a + b)[1..] == a[1..] + b;
      YearKeysConcat(a[1..], b);
    }
  }

  /** `$value ?? '-'`. */
  function OrDefault(v: Php): (r: Php)
    ensures v.PNull? ==> r == PStr(DefaultCell)
    ensures !v.PNull? ==> r == v
  {
    Coalesce(v, PStr(DefaultCell))
  }

  /** The cells of one data row: the discipline, then one value per year
      key, each read with `?? '-'`. */
  function RowCells(row: Php, yearKeys: seq<Key>): (cells: seq<Php>)
    ensures |cells| == 1 + |yearKeys|
    ensures Index(row, StrKey(DisciplineKey)).PNull? ==> cells[0] == PStr(DefaultCell)
    ensures !Index(row, StrKey(DisciplineKey)).PNull? ==> cells[0] == Index(row, StrKey(DisciplineKey))
    ensures forall j :: 0 <= j < |yearKeys| ==>
      (Index(row, yearKeys[j]).PNull? ==> cells[j + 1] == PStr(DefaultCell))
      && (!Index(row, yearKeys[j]).PNull? ==> cells[j + 1] == Index(row, yearKeys[j]))
  {
    [OrDefault(Index(row, StrKey(DisciplineKey)))]
      + seq(|yearKeys|, j requires 0 <= j < |yearKeys| => OrDefault(Index(row, yearKeys[j])))
  }

  /** One row of cells per entry of the data, in order. */
  function Rows(data: seq<(Key, Php)>, yearKeys: seq<Key>): (rows: seq<seq<Php>>)
    ensures |rows| == |data|
    ensures forall i :: 0 <= i < |data| ==> rows[i] == RowCells(data[i].1, yearKeys)
  {
    seq(|data|, i requires 0 <= i < |data| => RowCells(data[i].1, yearKeys))
  }

  /** `addGenericTable`: nothing for empty data; otherwise the first row
      (key 0) fixes the columns. A first row that is not an array makes
      `array_keys` throw a TypeError; a first row with no key besides
      'discipline' makes the column-width division throw. A table built
      has the first row's value columns only, in `array_keys` order, one
      row of cells per data row read under those columns, and value
      columns that share the width left beside the discipline column. */
  function GenericTable(data: seq<(Key, Php)>, header: string): (r: Result<Option<Table>, Throwable>)
    ensures |data| == 0 <==> r == Ok(None)
    ensures r.Err? <==>
      |data| > 0 && (!Index(PArr(data), IntKey(0)).PArr?
                     || forall k :: k in Keys(Index(PArr(data), IntKey(0)).entries) ==> k == StrKey(DisciplineKey))
    ensures r.Err? ==> r.error.kind == TypeError || r.error.kind == DivisionByZeroError
    ensures r.Ok? && r.value.Some? ==> Shaped(r.value.value, data, header)
    ensures r.Ok? && r.value.Some? ==>
      && r.value.value.yearKeys == YearKeys(Keys(Index(PArr(data), IntKey(0)).entries))
      && r.value.value.rows == Rows(data, r.value.value.yearKeys)
  {
    if |data| == 0 then Ok(None)
    else
      var first := Index(PArr(data), IntKey(0));
      if !first.PArr? then Err(Throwable(TypeError, ArrayKeysTypeError))
      else
        var yearKeys := YearKeys(Keys(first.entries));
        NoColumns(Keys(first.entries));
        if |yearKeys| == 0 then Err(Throwable(DivisionByZeroError, DivisionByZeroMessage))
        else
          var t := Table(header, yearKeys, (TableWidth - DisciplineWidth) as real / |yearKeys| as real,
                         Rows(data, yearKeys));
          BuiltTableShaped(data, header, yearKeys);
          Ok(Some(t))
  }

  /** The table built from `data`: columns from the first row only (every
      key but 'discipline'), one row of 1 + yearCount cells per data row,
      and value columns that share the width left beside the discipline
      column. */
  ghost predicate Shaped(t: Table, data: seq<(Key, Php)>, header: string) {
    var first := Index(PArr(data), IntKey(0));
    && first.PArr?
    && t.header == header
    && (forall k :: k in t.yearKeys <==> k in Keys(first.entries) && k != StrKey(DisciplineKey))
    && |t.rows| == |data|
    && (forall i :: 0 <= i < |t.rows| ==> |t.rows[i]| == 1 + |t.yearKeys|)
    && t.valueWidth * |t.yearKeys| as real == (TableWidth - DisciplineWidth) as real
  }

  /** The table `addGenericTable` assembles from the first row's columns
      has that shape. */
  lemma BuiltTableShaped(data: seq<(Key, Php)>, header: string, yearKeys: seq<Key>)
    requires |data| > 0 && Index(PArr(data), IntKey(0)).PArr?
    requires yearKeys == YearKeys(Keys(Index(PArr(data), IntKey(0)).entries)) && |yearKeys| > 0
    ensures Shaped(Table(header, yearKeys, (TableWidth - DisciplineWidth) as real / |yearKeys| as real,
                         Rows(data, yearKeys)), data, header)
  {
    ShareWidth((TableWidth - DisciplineWidth) as real, |yearKeys| as real);
  }

  /** The filter leaves no column exactly when every key is 'discipline'. */
  lemma NoColumns(keys: seq<Key>)
    ensures |YearKeys(keys)| == 0 <==> forall k :: k in keys ==> k == StrKey(DisciplineKey)
  {
    var ys := YearKeys(keys);
    if |ys| > 0 {
      assert ys[0] in ys;
    }
  }

  /** Dividing a width into n equal parts. */
  lemma ShareWidth(w: real, n: real)
    requires n > 0.0
    ensures (w / n) * n == w
  {
  }

  /** A key that only later rows have gets no column: values under it
      never reach the table. */
  lemma LaterKeysIgnored(data: seq<(Key, Php)>, header: string, k: Key)
    requires GenericTable(data, header).Ok? && GenericTable(data, header).value.Some?
    requires k !in Keys(Index(PArr(data), IntKey(0)).entries)
    ensures k !in GenericTable(data, header).value.value.yearKeys
  {
  }

  /** The tables are blocks only when there is one. */
  function TableBlocks(t: Option<Table>): seq<Block> {
    match t
    case None => []
    case Some(table) => [TableBlock(table)]
  }

  /** The blocks before the average-score table. */
  function Opening(teacher: string): seq<Block> {
    [Title(TitleText), TeacherLine(TeacherPrefix + teacher), EmptyLine(DefaultHeight),
     ListItem(DescriptionText), EmptyLine(DefaultHeight), Paragraph(AverageScoreText), EmptyLine(TableSpacer)]
  }

  /** The blocks between the two tables. */
  function Middle(): seq<Block> {
    [EmptyLine(DefaultHeight), Paragraph(QualityText), EmptyLine(TableSpacer)]
  }

  /** `generateReport`: title, teacher, spacer, description, spacer,
      average-score text, spacer, average-score table, spacer, quality
      text, spacer, quality table. The first table's error stops the
      document before the second. With two non-empty tables the document
      has twelve blocks: the teacher line second, the table built from
      the average-score data at position 7, the one built from the
      quality data last, and no other tables. */
  function GenerateReport(teacher: string, avgTable: seq<(Key, Php)>, qualityTable: seq<(Key, Php)>)
    : (d: Result<seq<Block>, Throwable>)
    ensures d.Ok? <==> GenericTable(avgTable, AverageTableHeader).Ok? && GenericTable(qualityTable, QualityTableHeader).Ok?
    ensures d.Err? && GenericTable(avgTable, AverageTableHeader).Err? ==>
      d.error == GenericTable(avgTable, AverageTableHeader).error
    ensures d.Ok? && |avgTable| > 0 && |qualityTable| > 0 ==>
      var avg := GenericTable(avgTable, AverageTableHeader);
      var quality := GenericTable(qualityTable, QualityTableHeader);
      && avg.Ok? && avg.value.Some? && quality.Ok? && quality.value.Some?
      && Layout(d.value, teacher, avg.value.value, quality.value.value)
  {
    match GenericTable(avgTable, AverageTableHeader)
    case Err(e) => Err(e)
    case Ok(t1) =>
      match GenericTable(qualityTable, QualityTableHeader)
      case Err(e) => Err(e)
      case Ok(t2) =>
        TwoTableLayout(teacher, t1, t2);
        Ok(Opening(teacher) + TableBlocks(t1) + Middle() + TableBlocks(t2))
  }

  /** The document of two tables: twelve blocks, the teacher line second,
      the average-score table at position 7, the quality table last, and
      no other tables. */
  predicate Layout(b: seq<Block>, teacher: string, avg: Table, quality: Table) {
    && |b| == 12
    && b[1] == TeacherLine(TeacherPrefix + teacher)
    && b[7] == TableBlock(avg)
    && b[11] == TableBlock(quality)
    && (forall i :: 0 <= i < 12 && i != 7 && i != 11 ==> !b[i].TableBlock?)
  }

  /** The blocks around two tables have that layout. */
  lemma TwoTableLayout(teacher: string, t1: Option<Table>, t2: Option<Table>)
    ensures t1.Some? && t2.Some? ==>
      Layout(Opening(teacher) + TableBlocks(t1) + Middle() + TableBlocks(t2), teacher, t1.value, t2.value)
  {
  }

  /** A payload that passes validation has both tables as non-empty
      arrays. */
  lemma ValidTables(r: seq<(Key, Php)>)
    requires ValidateReportData(r).Pass?
    ensures FinalTable(r, AverageTableKey).PArr? && |FinalTable(r, AverageTableKey).entries| > 0
    ensures FinalTable(r, QualityTableKey).PArr? && |FinalTable(r, QualityTableKey).entries| > 0
  {
    assert AverageTableKey in RequiredFinalResultKeys && QualityTableKey in RequiredFinalResultKeys;
  }

  /** `export` up to saving: validation first (an InvalidArgumentException
      with the validator's message), then the document blocks. A rejected
      payload yields the validator's first error and no document; every
      document comes from a valid payload and has the layout of
      `generateReport`, its two tables being the ones built from the
      payload's average-score and quality tables. The only failures are validation, type and
      division errors, and a valid payload whose tables start with an
      array row holding some key besides 'discipline' always yields a
      document. */
  function WordExport(r: seq<(Key, Php)>): (d: Result<seq<Block>, Throwable>)
    ensures ValidateReportData(r).Fail? ==> d == Err(Throwable(InvalidArgument, Message(ValidateReportData(r).error)))
    ensures d.Ok? ==> Valid(r)
    ensures d.Err? ==> d.error.kind in {InvalidArgument, TypeError, DivisionByZeroError}
    ensures d.Err? && d.error.kind == InvalidArgument ==> !Valid(r)
    ensures ValidateReportData(r).Pass?
      && ColumnsDefined(FinalTable(r, AverageTableKey))
      && ColumnsDefined(FinalTable(r, QualityTableKey))
      ==> d.Ok?
    ensures d.Ok? ==>
      && FinalTable(r, AverageTableKey).PArr? && FinalTable(r, QualityTableKey).PArr?
      && var avg := GenericTable(FinalTable(r, AverageTableKey).entries, AverageTableHeader);
         var quality := GenericTable(FinalTable(r, QualityTableKey).entries, QualityTableHeader);
         && avg.Ok? && avg.value.Some? && quality.Ok? && quality.value.Some?
         && Layout(d.value, FormatTeacherName(r), avg.value.value, quality.value.value)
  {
    match ValidateReportData(r)
    case Fail(e) => Err(Throwable(InvalidArgument, Message(e)))
    case Pass =>
      ValidTables(r);
      GenerateReport(FormatTeacherName(r), FinalTable(r, AverageTableKey).entries,
                     FinalTable(r, QualityTableKey).entries)
  }

  /** The table's first row (key 0) is an array with a key other than
      'discipline'. */
  predicate ColumnsDefined(table: Php) {
    var first := Index(table, IntKey(0));
    first.PArr? && exists k :: k in Keys(first.entries) && k != StrKey(DisciplineKey)
  }
}
