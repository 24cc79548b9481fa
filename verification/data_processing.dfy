/** Helpers around the results pipeline: the recursive payload sanitiser,
    the empty semester row, tab generation, row enhancement and the
    normalisation of the report configuration. */
module DataProcessing {
  import opened Wrappers
  import opened Text
  import opened Json
  import opened Calculations
  import opened ResultsCalculations

  /** `sanitizeData`: undefined and whitespace-only strings become null,
      arrays and objects are sanitised element by element, and every other
      value is returned as it is. The result is clean at every depth. */
  function Sanitize(j: Json): (r: Json)
    ensures Clean(r)
    decreases j
  {
    match j
    case JUndefined => JNull
    case JStr(s) => if IsBlank(s) then JNull else j
    case JArr(items) => JArr(seq(|items|, i requires 0 <= i < |items| => Sanitize(items[i])))
    case JObj(fields) =>
      JObj(seq(|fields|, i requires 0 <= i < |fields| => (fields[i].0, Sanitize(fields[i].1))))
    case _ => j
  }

  /** A value without undefined and without whitespace-only strings
      anywhere inside it. */
  predicate Clean(j: Json)
    decreases j
  {
    match j
    case JUndefined => false
    case JStr(s) => !IsBlank(s)
    case JArr(items) => forall i :: 0 <= i < |items| ==> Clean(items[i])
    case JObj(fields) => forall i :: 0 <= i < |fields| ==> Clean(fields[i].1)
    case _ => true
  }

  /** Sanitising keeps the shape: the same kind of value, arrays of the
      same length and objects with the same keys in the same order; null,
      booleans, numbers and non-blank strings are kept as they are. */
  lemma SanitizeShape(j: Json)
    ensures j.JArr? <==> Sanitize(j).JArr?
    ensures j.JArr? ==> |Sanitize(j).items| == |j.items|
    ensures j.JObj? <==> Sanitize(j).JObj?
    ensures j.JObj? ==> |Sanitize(j).fields| == |j.fields|
    ensures j.JObj? ==> forall i :: 0 <= i < |j.fields| ==> Sanitize(j).fields[i].0 == j.fields[i].0
    ensures (j.JNull? || j.JBool? || j.JNum? || (j.JStr? && !IsBlank(j.s))) ==> Sanitize(j) == j
    ensures (j.JUndefined? || (j.JStr? && IsBlank(j.s))) ==> Sanitize(j) == JNull
  {
  }

  /** A clean value is left unchanged. */
  lemma {:induction false} SanitizeKeepsClean(j: Json)
    requires Clean(j)
    ensures Sanitize(j) == j
    decreases j
  {
    match j
    case JArr(items) =>
      forall i | 0 <= i < |items| ensures Sanitize(items[i]) == items[i] {
        SanitizeKeepsClean(items[i]);
      }
      assert Sanitize(j).items == items;
    case JObj(fields) =>
      forall i | 0 <= i < |fields| ensures Sanitize(fields[i].1) == fields[i].1 {
        SanitizeKeepsClean(fields[i].1);
      }
      assert Sanitize(j).fields == fields;
    case _ =>
  }

  /** Sanitising twice is sanitising once. */
  lemma SanitizeIdempotent(j: Json)
    ensures Sanitize(Sanitize(j)) == Sanitize(j)
  {
    SanitizeKeepsClean(Sanitize(j));
  }

  /** `createEmptyRow`: no discipline, an empty group and zero counts. */
  function EmptyRow(): (row: GradeRow)
    ensures TotalGrades(row).None? && Performance(row).None? && Quality(row).None?
    ensures RowKey(row).None?
  {
    GradeRow(NoDiscipline, "", 0, 0, 0, 0)
  }

  /** The label of the tab for the academic year starting in `year`. */
  function YearLabel(year: int): string {
    IntToString(year) + "-" + IntToString(year + 1)
  }

  /** The number of tabs `generateTabs` creates: at most 5, and none for a
      non-positive count (an array of negative length is empty). */
  function TabCount(yearsOfWork: int): (n: nat)
    ensures n <= 5
    ensures n == yearsOfWork || (yearsOfWork > 5 && n == 5) || (yearsOfWork < 0 && n == 0)
  {
    if yearsOfWork <= 0 then 0 else if yearsOfWork < 5 then yearsOfWork else 5
  }

  /** `generateTabs`: one tab per year of work, up to 5, each with one
      empty row per semester. */
  function GenerateTabs(yearsOfWork: int, startYear: int): (tabs: seq<Tab>)
    ensures |tabs| == TabCount(yearsOfWork)
    ensures forall i :: 0 <= i < |tabs| ==>
              tabs[i].tabLabel == YearLabel(startYear + i)
              && tabs[i].autumnWinter == [EmptyRow()] && tabs[i].springSummer == [EmptyRow()]
  {
    seq(TabCount(yearsOfWork), i requires 0 <= i < TabCount(yearsOfWork) =>
      Tab(YearLabel(startYear + i), [EmptyRow()], [EmptyRow()]))
  }

  /** A label for a year from 0 on is the year's digits, a '-', and more. */
  lemma YearLabelShape(a: nat)
    ensures |YearLabel(a)| > |NatToString(a)|
    ensures YearLabel(a)[..|NatToString(a)|] == NatToString(a)
    ensures YearLabel(a)[|NatToString(a)|] == '-'
    ensures forall i :: 0 <= i < |NatToString(a)| ==> IsDigit(YearLabel(a)[i])
  {
  }

  /** Labels of different years differ (for years from 0 on). */
  lemma YearLabelInjective(a: nat, b: nat)
    requires YearLabel(a) == YearLabel(b)
    ensures a == b
  {
    YearLabelShape(a);
    YearLabelShape(b);
    assert |NatToString(a)| == |NatToString(b)|;
    NatToStringInjective(a, b);
  }

  /** Generated tabs have pairwise distinct labels when the start year is
      not negative. */
  lemma GeneratedLabelsDistinct(yearsOfWork: int, startYear: nat)
    ensures var tabs := GenerateTabs(yearsOfWork, startYear);
      forall i, j :: 0 <= i < j < |tabs| ==> tabs[i].tabLabel != tabs[j].tabLabel
  {
    var tabs := GenerateTabs(yearsOfWork, startYear);
    forall i, j | 0 <= i < j < |tabs| ensures tabs[i].tabLabel != tabs[j].tabLabel {
      if tabs[i].tabLabel == tabs[j].tabLabel {
        YearLabelInjective(startYear + i, startYear + j);
      }
    }
  }

  /** Freshly generated tabs produce no results at all: every tab's
      intermediate list, the three tables and the overall results are
      empty. */
  lemma GeneratedTabsHaveNoResults(h: Helpers, yearsOfWork: int, startYear: int)
    ensures var tabs := GenerateTabs(yearsOfWork, startYear);
      && (forall t :: 0 <= t < |tabs| ==> Intermediate(h, tabs)[t] == [])
      && Final(tabs, Intermediate(h, tabs)) == FinalResults([], [], [])
      && Overall(h, Intermediate(h, tabs)) == []
  {
    var tabs := GenerateTabs(yearsOfWork, startYear);
    forall t | 0 <= t < |tabs| ensures KeyedCodes(tabs[t].autumnWinter + tabs[t].springSummer) == [] {
      var rows := tabs[t].autumnWinter + tabs[t].springSummer;
      assert rows == [EmptyRow(), EmptyRow()];
      assert rows[..1] == [EmptyRow()];
      assert rows[..1][..0] == [];
    }
    NoKeyedRows(h, tabs);
  }

  /** A row with the computed fields `enhanceRow` adds. */
  datatype EnhancedRow = EnhancedRow(
    row: GradeRow,
    totalGrades: Option<string>,
    performance: Option<real>,
    quality: Option<real>,
    averageScore: Option<real>)

  /** A tab whose semester rows are enhanced. */
  datatype EnhancedTab = EnhancedTab(tabLabel: string, autumnWinter: seq<EnhancedRow>, springSummer: seq<EnhancedRow>)

  /** `enhanceRow`: the row's own fields plus the total (as a decimal
      string), performance, quality and average score. */
  function EnhanceRow(h: Helpers, row: GradeRow): (e: EnhancedRow)
    ensures e.row == row
    ensures e.totalGrades.None? <==> TotalGrades(row).None?
    ensures e.totalGrades.Some? ==>
              (forall i :: 0 <= i < |e.totalGrades.value| ==> IsDigit(e.totalGrades.value[i]))
              && DigitsValue(e.totalGrades.value) == TotalGrades(row).value
  {
    EnhancedRow(row, TotalText(TotalGrades(row)), Performance(row), Quality(row), h.averageScore(row))
  }

  /** `totalGrades.toString()` for a present total, null otherwise. */
  function TotalText(total: Option<nat>): (t: Option<string>)
    ensures t.None? <==> total.None?
    ensures t.Some? ==>
              (forall i :: 0 <= i < |t.value| ==> IsDigit(t.value[i]))
              && DigitsValue(t.value) == total.value
  {
    match total
    case None => None
    case Some(n) => NatToStringRoundTrip(n); Some(NatToString(n))
  }

  /** Enhances every row of a semester. */
  function EnhanceRows(h: Helpers, rows: seq<GradeRow>): (es: seq<EnhancedRow>)
    ensures |es| == |rows|
    ensures forall i :: 0 <= i < |rows| ==> es[i] == EnhanceRow(h, rows[i])
  {
    seq(|rows|, i requires 0 <= i < |rows| => EnhanceRow(h, rows[i]))
  }

  /** `getEnhancedTabsData`: the same tabs with enhanced rows. */
  function EnhanceTabs(h: Helpers, tabs: seq<Tab>): (r: seq<EnhancedTab>)
    ensures |r| == |tabs|
    ensures forall i :: 0 <= i < |tabs| ==>
              && r[i].tabLabel == tabs[i].tabLabel
              && |r[i].autumnWinter| == |tabs[i].autumnWinter|
              && |r[i].springSummer| == |tabs[i].springSummer|
  {
    seq(|tabs|, i requires 0 <= i < |tabs| =>
      EnhancedTab(tabs[i].tabLabel, EnhanceRows(h, tabs[i].autumnWinter), EnhanceRows(h, tabs[i].springSummer)))
  }

  /** Drops the added fields again. */
  function StripTabs(r: seq<EnhancedTab>): seq<Tab> {
    seq(|r|, i requires 0 <= i < |r| =>
      Tab(r[i].tabLabel,
          seq(|r[i].autumnWinter|, k requires 0 <= k < |r[i].autumnWinter| => r[i].autumnWinter[k].row),
          seq(|r[i].springSummer|, k requires 0 <= k < |r[i].springSummer| => r[i].springSummer[k].row)))
  }

  /** Enhancement only adds fields: dropping them gives back the tabs. */
  lemma EnhanceThenStrip(h: Helpers, tabs: seq<Tab>)
    ensures StripTabs(EnhanceTabs(h, tabs)) == tabs
  {
    var r := EnhanceTabs(h, tabs);
    forall i | 0 <= i < |tabs| ensures StripTabs(r)[i] == tabs[i] {
      assert StripTabs(r)[i].autumnWinter == tabs[i].autumnWinter;
      assert StripTabs(r)[i].springSummer == tabs[i].springSummer;
    }
  }

  /** The report configuration: category and the two numbers, each possibly
      missing. */
  datatype Config = Config(category: Option<string>, yearsOfWork: Option<int>, startYear: Option<int>)

  /** The `configuration` part of `collectReportData`: an empty or missing
      category becomes null, and so does a count or year that is not
      positive. */
  function NormalizeConfig(c: Config): (r: Config)
    ensures r.category.Some? <==> c.category.Some? && c.category.value != ""
    ensures r.category.Some? ==> r.category == c.category
    ensures r.yearsOfWork.Some? <==> c.yearsOfWork.Some? && c.yearsOfWork.value > 0
    ensures r.yearsOfWork.Some? ==> r.yearsOfWork == c.yearsOfWork
    ensures r.startYear.Some? <==> c.startYear.Some? && c.startYear.value > 0
    ensures r.startYear.Some? ==> r.startYear == c.startYear
  {
    Config(
      if c.category.Some? && c.category.value != "" then c.category else None,
      if c.yearsOfWork.Some? && c.yearsOfWork.value > 0 then c.yearsOfWork else None,
      if c.startYear.Some? && c.startYear.value > 0 then c.startYear else None)
  }

  /** Normalising a normalised configuration changes nothing. */
  lemma NormalizeConfigIdempotent(c: Config)
    ensures NormalizeConfig(NormalizeConfig(c)) == NormalizeConfig(c)
  {
  }
}
