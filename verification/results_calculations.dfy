/** The results pipeline of the grade tables: per-tab grouping by
    discipline code with averaged metrics (intermediate results), the pivot
    into three discipline-by-tab tables (final results), and the average of
    each discipline across tabs (overall results). */
module ResultsCalculations {
  import opened Wrappers
  import opened Text
  import opened JsObject
  import opened Seqs
  import opened Json
  import opened Calculations

  /** One academic-year tab: its label and the rows of both semesters. */
  datatype Tab = Tab(tabLabel: string, autumnWinter: seq<GradeRow>, springSummer: seq<GradeRow>)

  /** The three metrics a row contributes. */
  datatype Metric = PerformanceMetric | QualityMetric | AverageScoreMetric

  /** The metric values collected for one discipline of a tab. */
  datatype Bucket = Bucket(performance: seq<real>, quality: seq<real>, averageScore: seq<real>)
  {
    function Values(m: Metric): seq<real> {
      match m
      case PerformanceMetric => performance
      case QualityMetric => quality
      case AverageScoreMetric => averageScore
    }
  }

  /** One discipline of one tab, with each metric averaged (None: null). */
  datatype IntermediateResult = IntermediateResult(
    discipline: string,
    performance: Option<real>,
    quality: Option<real>,
    averageScore: Option<real>)
  {
    function Value(m: Metric): Option<real> {
      match m
      case PerformanceMetric => performance
      case QualityMetric => quality
      case AverageScoreMetric => averageScore
    }
  }

  /** One discipline averaged over all tabs. */
  datatype OverallResult = OverallResult(
    discipline: string,
    avgPerformance: Option<real>,
    avgQuality: Option<real>,
    avgAverageScore: Option<real>)
  {
    function Avg(m: Metric): Option<real> {
      match m
      case PerformanceMetric => avgPerformance
      case QualityMetric => avgQuality
      case AverageScoreMetric => avgAverageScore
    }
  }

  /** The three pivot tables; each row is an object with the key
      `discipline` and one key per tab label. */
  datatype FinalResults = FinalResults(
    performanceTable: seq<Entries<Json>>,
    qualityTable: seq<Entries<Json>>,
    averageScoreTable: seq<Entries<Json>>)

  /** The grouping key of a row: the subject's `code_name` when the row has
      a subject and the code is non-empty; rows without one are skipped. */
  function RowKey(row: GradeRow): Option<string> {
    if row.discipline.Subject? && row.discipline.codeName != "" then Some(row.discipline.codeName)
    else None
  }

  /** A row's value of one metric; None where `parseFloat` gives NaN. */
  function RowMetric(h: Helpers, row: GradeRow, m: Metric): Option<real> {
    match m
    case PerformanceMetric => Performance(row)
    case QualityMetric => Quality(row)
    case AverageScoreMetric => h.averageScore(row)
  }

  /** Appends a present value; an absent one is skipped. */
  function Push(vals: seq<real>, x: Option<real>): seq<real> {
    if x.Some? then vals + [x.value] else vals
  }

  /** One step of the `forEach` over the rows of a tab. */
  function AddRow(h: Helpers, groups: Entries<Bucket>, row: GradeRow): Entries<Bucket> {
    match RowKey(row)
    case None => groups
    case Some(k) =>
      var b := Get(groups, k).GetOr(Bucket([], [], []));
      Put(groups, k, Bucket(
        Push(b.performance, RowMetric(h, row, PerformanceMetric)),
        Push(b.quality, RowMetric(h, row, QualityMetric)),
        Push(b.averageScore, RowMetric(h, row, AverageScoreMetric))))
  }

  /** The discipline map after all rows, in JavaScript property order. */
  function Group(h: Helpers, rows: seq<GradeRow>): (g: Entries<Bucket>)
    ensures WellOrdered(g)
    ensures |g| <= |KeyedCodes(rows)|
  {
    if |rows| == 0 then []
    else
      var g := Group(h, rows[..|rows| - 1]);
      AddRowOrder(h, g, rows[|rows| - 1]);
      AddRow(h, g, rows[|rows| - 1])
  }

  /** The grouping keys of the rows that have one, in row order. */
  function KeyedCodes(rows: seq<GradeRow>): (ks: seq<string>)
    ensures forall k :: k in ks <==> exists i :: 0 <= i < |rows| && RowKey(rows[i]) == Some(k)
  {
    if |rows| == 0 then []
    else
      var init := rows[..|rows| - 1];
      var last := rows[|rows| - 1];
      var ks := KeyedCodes(init) + (if RowKey(last).Some? then [RowKey(last).value] else []);
      assert forall k :: k in ks <==> exists i :: 0 <= i < |rows| && RowKey(rows[i]) == Some(k) by {
        forall k | k in ks ensures exists i :: 0 <= i < |rows| && RowKey(rows[i]) == Some(k) {
          if k in KeyedCodes(init) {
            var i :| 0 <= i < |init| && RowKey(init[i]) == Some(k);
            assert rows[i] == init[i];
          } else {
            assert RowKey(rows[|rows| - 1]) == Some(k);
          }
        }
        forall k, i | 0 <= i < |rows| && RowKey(rows[i]) == Some(k) ensures k in ks {
          if i < |rows| - 1 {
            assert init[i] == rows[i];
          }
        }
      }
      ks
  }

  /** The values of metric `m` contributed by the rows keyed `d`, in row
      order, skipping absent values. */
  function Collect(h: Helpers, rows: seq<GradeRow>, d: string, m: Metric): seq<real> {
    if |rows| == 0 then []
    else
      var last := rows[|rows| - 1];
      var prev := Collect(h, rows[..|rows| - 1], d, m);
      if RowKey(last) == Some(d) then Push(prev, RowMetric(h, last, m)) else prev
  }

  /** The bucket a discipline's rows produce. */
  function CollectBucket(h: Helpers, rows: seq<GradeRow>, d: string): Bucket {
    Bucket(Collect(h, rows, d, PerformanceMetric), Collect(h, rows, d, QualityMetric),
           Collect(h, rows, d, AverageScoreMetric))
  }

  /** The discipline map holds exactly the keyed disciplines, each with the
      values of its own rows and no others. */
  lemma {:induction false} GroupContents(h: Helpers, rows: seq<GradeRow>, d: string)
    ensures Get(Group(h, rows), d) == if d in KeyedCodes(rows) then Some(CollectBucket(h, rows, d)) else None
    decreases |rows|
  {
    if |rows| > 0 {
      var init := rows[..|rows| - 1];
      var last := rows[|rows| - 1];
      var g := Group(h, init);
      assert Group(h, rows) == AddRow(h, g, last);
      assert KeyedCodes(rows) == KeyedCodes(init) + (if RowKey(last).Some? then [RowKey(last).value] else []);
      GroupContents(h, init, d);
      match RowKey(last)
      case None =>
        assert CollectBucket(h, rows, d) == CollectBucket(h, init, d);
      case Some(k) =>
        if d == k {
          var b := Get(g, k).GetOr(Bucket([], [], []));
          if d !in KeyedCodes(init) {
            CollectAbsent(h, init, d, PerformanceMetric);
            CollectAbsent(h, init, d, QualityMetric);
            CollectAbsent(h, init, d, AverageScoreMetric);
          }
          assert b == CollectBucket(h, init, d);
        } else {
          assert CollectBucket(h, rows, d) == CollectBucket(h, init, d);
        }
    }
  }

  /** A discipline without rows collects nothing. */
  lemma {:induction false} CollectAbsent(h: Helpers, rows: seq<GradeRow>, d: string, m: Metric)
    requires d !in KeyedCodes(rows)
    ensures Collect(h, rows, d, m) == []
    decreases |rows|
  {
    if |rows| > 0 {
      var init := rows[..|rows| - 1];
      assert KeyedCodes(rows) == KeyedCodes(init) + (if RowKey(rows[|rows| - 1]).Some? then [RowKey(rows[|rows| - 1]).value] else []);
      CollectAbsent(h, init, d, m);
    }
  }

  /** The non-index keys of the discipline map are in first-seen order. */
  lemma {:induction false} GroupOrder(h: Helpers, rows: seq<GradeRow>)
    ensures NonIndexKeys(Keys(Group(h, rows))) == FirstSeen(NonIndexKeys(KeyedCodes(rows)))
    decreases |rows|
  {
    if |rows| > 0 {
      var init := rows[..|rows| - 1];
      var last := rows[|rows| - 1];
      assert Group(h, rows) == AddRow(h, Group(h, init), last);
      GroupOrder(h, init);
      AddRowKeys(h, Group(h, init), last);
      if RowKey(last).None? {
        assert KeyedCodes(rows) == KeyedCodes(init);
      } else {
        var k := RowKey(last).value;
        assert KeyedCodes(rows) == KeyedCodes(init) + [k];
        GroupContents(h, init, k);
        GroupOrderStep(Keys(Group(h, init)), KeyedCodes(init), k);
      }
    }
  }

  /** The step of `GroupOrder` for a keyed row, on key lists alone. */
  lemma GroupOrderStep(keys: seq<string>, codes: seq<string>, k: string)
    requires NonIndexKeys(keys) == FirstSeen(NonIndexKeys(codes))
    requires k in keys <==> k in codes
    ensures (if k in keys || IsIndexKey(k) then NonIndexKeys(keys) else NonIndexKeys(keys) + [k])
              == FirstSeen(NonIndexKeys(codes + [k]))
  {
    var a := NonIndexKeys(codes);
    NonIndexKeysConcat(codes, [k]);
    if IsIndexKey(k) {
      NonIndexKeysOfIndexKey(k);
      assert a + [] == a;
    } else {
      assert NonIndexKeys([k]) == [k];
      FirstSeenSnoc(a, k);
    }
  }

  /** How one row changes the non-index keys of the discipline map. */
  lemma AddRowKeys(h: Helpers, g: Entries<Bucket>, row: GradeRow)
    ensures NonIndexKeys(Keys(AddRow(h, g, row))) ==
              if RowKey(row).None? || RowKey(row).value in Keys(g) || IsIndexKey(RowKey(row).value)
              then NonIndexKeys(Keys(g))
              else NonIndexKeys(Keys(g)) + [RowKey(row).value]
  {
    AddRowOrder(h, g, row);
  }

  /** One row keeps the discipline map in property order. */
  lemma AddRowOrder(h: Helpers, g: Entries<Bucket>, row: GradeRow)
    ensures WellOrdered(g) ==> WellOrdered(AddRow(h, g, row))
    ensures NonIndexKeys(Keys(AddRow(h, g, row))) ==
              if RowKey(row).None? || RowKey(row).value in Keys(g) || IsIndexKey(RowKey(row).value)
              then NonIndexKeys(Keys(g))
              else NonIndexKeys(Keys(g)) + [RowKey(row).value]
  {
    match RowKey(row)
    case None =>
    case Some(k) =>
      var b := Get(g, k).GetOr(Bucket([], [], []));
      PutOrder(g, k, Bucket(
        Push(b.performance, RowMetric(h, row, PerformanceMetric)),
        Push(b.quality, RowMetric(h, row, QualityMetric)),
        Push(b.averageScore, RowMetric(h, row, AverageScoreMetric))));
  }

  lemma NonIndexKeysOfIndexKey(k: string)
    requires IsIndexKey(k)
    ensures NonIndexKeys([k]) == []
  {
    assert [k][1..] == [];
  }

  /** The mean of a list of values, rounded by `roundToDecimal` to two
      decimals; null for an empty list. */
  function MeanOrNull(h: Helpers, vals: seq<real>): (r: Option<real>)
    ensures r.None? <==> |vals| == 0
  {
    if |vals| == 0 then None else Some(h.roundToDecimal(Sum(vals) / |vals| as real, 2))
  }

  /** The sum of a list of values. */
  function Sum(vals: seq<real>): real {
    if |vals| == 0 then 0.0 else Sum(vals[..|vals| - 1]) + vals[|vals| - 1]
  }

  /** The disciplines of a list of intermediate results, in order. */
  function Disciplines(rs: seq<IntermediateResult>): (ds: seq<string>)
    ensures |ds| == |rs|
    ensures forall i :: 0 <= i < |rs| ==> ds[i] == rs[i].discipline
  {
    seq(|rs|, i requires 0 <= i < |rs| => rs[i].discipline)
  }

  /** The intermediate results of one tab: one entry per discipline code
      of its rows (autumn-winter first), in JavaScript property order, each
      metric the rounded mean of the discipline's present values. */
  function TabResults(h: Helpers, tab: Tab): (r: seq<IntermediateResult>)
    ensures forall i, j :: 0 <= i < j < |r| ==> r[i].discipline != r[j].discipline
    ensures forall d :: d in Disciplines(r) <==> d in KeyedCodes(tab.autumnWinter + tab.springSummer)
    ensures forall i, m :: 0 <= i < |r| ==>
              r[i].Value(m) == MeanOrNull(h, Collect(h, tab.autumnWinter + tab.springSummer, r[i].discipline, m))
    ensures NonIndexKeys(Disciplines(r)) == FirstSeen(NonIndexKeys(KeyedCodes(tab.autumnWinter + tab.springSummer)))
    ensures InPropertyOrder(Disciplines(r))
    ensures |r| <= |KeyedCodes(tab.autumnWinter + tab.springSummer)|
  {
    var rows := tab.autumnWinter + tab.springSummer;
    var r := Summarise(h, Group(h, rows));
    GroupOrder(h, rows);
    GroupKeys(h, rows);
    SummariseValues(h, rows);
    r
  }

  /** The `Object.entries(...).map(...)` step: each bucket's metrics
      averaged, in map order. */
  function Summarise(h: Helpers, g: Entries<Bucket>): (r: seq<IntermediateResult>)
    ensures |r| == |g|
    ensures Disciplines(r) == Keys(g)
    ensures forall i, m :: 0 <= i < |r| ==> r[i].Value(m) == MeanOrNull(h, g[i].1.Values(m))
  {
    seq(|g|, i requires 0 <= i < |g| =>
      IntermediateResult(g[i].0, MeanOrNull(h, g[i].1.performance), MeanOrNull(h, g[i].1.quality),
                         MeanOrNull(h, g[i].1.averageScore)))
  }

  /** The keys of the discipline map are the keyed codes. */
  lemma GroupKeys(h: Helpers, rows: seq<GradeRow>)
    ensures forall d :: d in Keys(Group(h, rows)) <==> d in KeyedCodes(rows)
  {
    forall d ensures d in Keys(Group(h, rows)) <==> d in KeyedCodes(rows) {
      GroupContents(h, rows, d);
    }
  }

  /** Every summarised discipline carries the averages of its own rows. */
  lemma SummariseValues(h: Helpers, rows: seq<GradeRow>)
    ensures var r := Summarise(h, Group(h, rows));
      forall i, m :: 0 <= i < |r| ==> r[i].Value(m) == MeanOrNull(h, Collect(h, rows, r[i].discipline, m))
  {
    var g := Group(h, rows);
    var r := Summarise(h, g);
    forall i, m | 0 <= i < |r|
      ensures r[i].Value(m) == MeanOrNull(h, Collect(h, rows, r[i].discipline, m))
    {
      var d := g[i].0;
      assert r[i].discipline == d by {
        assert Disciplines(r)[i] == Keys(g)[i];
      }
      BucketAt(h, rows, g, i);
      assert g[i].1.Values(m) == Collect(h, rows, d, m) by {
        BucketValues(h, rows, d, m);
      }
    }
  }

  lemma BucketValues(h: Helpers, rows: seq<GradeRow>, d: string, m: Metric)
    ensures CollectBucket(h, rows, d).Values(m) == Collect(h, rows, d, m)
  {
  }

  /** The bucket at position i of the discipline map is its code's rows. */
  lemma BucketAt(h: Helpers, rows: seq<GradeRow>, g: Entries<Bucket>, i: nat)
    requires g == Group(h, rows) && i < |g|
    ensures g[i].1 == CollectBucket(h, rows, g[i].0)
  {
    GroupContents(h, rows, g[i].0);
    FirstEntry(g, i);
  }

  /** In an object without repeated keys, the entry at position i is what
      reading its key gives. */
  lemma FirstEntry<V>(o: Entries<V>, i: nat)
    requires WellOrdered(o) && i < |o|
    ensures Get(o, o[i].0) == Some(o[i].1)
  {
    assert o[i].0 in Keys(o);
    var j := FirstIndex(o, o[i].0);
    assert Keys(o)[j] == Keys(o)[i];
    GetAtFirstIndex(o, o[i].0);
  }

  lemma {:induction false} GetAtFirstIndex<V>(o: Entries<V>, k: string)
    requires k in Keys(o)
    ensures Get(o, k) == Some(o[FirstIndex(o, k)].1)
    decreases |o|
  {
    assert Keys(o) == [o[0].0] + Keys(o[1..]);
    if o[0].0 != k {
      GetAtFirstIndex(o[1..], k);
    }
  }

  /** `calculateIntermediateResults`: one list per tab, in tab order. */
  function Intermediate(h: Helpers, tabs: seq<Tab>): (r: seq<seq<IntermediateResult>>)
    ensures |r| == |tabs|
    ensures forall i :: 0 <= i < |tabs| ==> r[i] == TabResults(h, tabs[i])
  {
    seq(|tabs|, i requires 0 <= i < |tabs| => TabResults(h, tabs[i]))
  }

  /** A row without a grouping key changes nothing, wherever it stands. */
  lemma {:induction false} UnkeyedRowIgnored(h: Helpers, a: seq<GradeRow>, u: GradeRow, b: seq<GradeRow>)
    requires RowKey(u).None?
    ensures Group(h, a + [u] + b) == Group(h, a + b)
    decreases |b|
  {
    var s := a + [u] + b;
    if |b| == 0 {
      assert s == a + [u] && s[..|s| - 1] == a && s[|s| - 1] == u;
      assert a + b == a;
      GroupLast(h, s);
    } else {
      var b', last := b[..|b| - 1], b[|b| - 1];
      var t := a + b;
      assert s[..|s| - 1] == a + [u] + b' && s[|s| - 1] == last;
      assert t[..|t| - 1] == a + b' && t[|t| - 1] == last;
      calc {
        Group(h, s);
        == { GroupLast(h, s); }
        AddRow(h, Group(h, a + [u] + b'), last);
        == { UnkeyedRowIgnored(h, a, u, b'); }
        AddRow(h, Group(h, a + b'), last);
        == { GroupLast(h, t); }
        Group(h, t);
      }
    }
  }

  /** The last row is added to the map of the rows before it. */
  lemma GroupLast(h: Helpers, rows: seq<GradeRow>)
    requires |rows| > 0
    ensures Group(h, rows) == AddRow(h, Group(h, rows[..|rows| - 1]), rows[|rows| - 1])
  {
  }

  /** The first result of a tab for a discipline, as `find` returns it. */
  function Find(rs: seq<IntermediateResult>, d: string): (r: Option<IntermediateResult>)
    ensures r.None? <==> d !in Disciplines(rs)
    ensures r.Some? ==> r.value in rs && r.value.discipline == d
    ensures r.Some? ==> exists k :: 0 <= k < |rs| && r.value == rs[k]
                                 && forall j :: 0 <= j < k ==> rs[j].discipline != d
  {
    if |rs| == 0 then None
    else if rs[0].discipline == d then Some(rs[0])
    else
      assert Disciplines(rs) == [rs[0].discipline] + Disciplines(rs[1..]);
      var t := Find(rs[1..], d);
      if t.Some? then FirstMatchShift(rs, d, t.value); t else t
  }

  /** A first match of the tail, behind a head that does not match, is
      a first match of the whole. */
  lemma FirstMatchShift(rs: seq<IntermediateResult>, d: string, x: IntermediateResult)
    requires |rs| > 0 && rs[0].discipline != d
    requires exists k :: 0 <= k < |rs| - 1 && x == rs[1..][k]
                         && forall j :: 0 <= j < k ==> rs[1..][j].discipline != d
    ensures exists k :: 0 <= k < |rs| && x == rs[k]
                        && forall j :: 0 <= j < k ==> rs[j].discipline != d
  {
    var k :| 0 <= k < |rs| - 1 && x == rs[1..][k] && forall j :: 0 <= j < k ==> rs[1..][j].discipline != d;
    assert rs[k + 1] == x;
    forall j | 0 <= j < k + 1 ensures rs[j].discipline != d {
      if j > 0 {
        assert rs[j] == rs[1..][j - 1];
      }
    }
  }

  /** The disciplines of every tab, tab after tab: the order in which
      both `forEach` loops `add` them to the `Set`. */
  function AllDisciplines(inter: seq<seq<IntermediateResult>>): (all: seq<string>)
    ensures forall d :: d in all <==> exists t :: 0 <= t < |inter| && d in Disciplines(inter[t])
    ensures |all| == 0 <==> forall t :: 0 <= t < |inter| ==> inter[t] == []
  {
    var perTab := seq(|inter|, t requires 0 <= t < |inter| => Disciplines(inter[t]));
    assert forall d :: d in Flatten(perTab) <==> exists t :: 0 <= t < |inter| && d in Disciplines(inter[t]) by {
      forall d | d in Flatten(perTab) ensures exists t :: 0 <= t < |inter| && d in Disciplines(inter[t]) {
        var t :| 0 <= t < |perTab| && d in perTab[t];
      }
      forall d, t | 0 <= t < |inter| && d in Disciplines(inter[t]) ensures d in Flatten(perTab) {
        assert d in perTab[t];
      }
    }
    assert (forall t :: 0 <= t < |inter| ==> inter[t] == []) <==> (forall t :: 0 <= t < |perTab| ==> |perTab[t]| == 0) by {
      forall t | 0 <= t < |inter| ensures |perTab[t]| == |inter[t]| {
      }
    }
    Flatten(perTab)
  }

  /** The disciplines of every tab, in first-seen order: the `Set` both
      `calculateFinalResults` and `calculateOverallResults` build. */
  function Universe(inter: seq<seq<IntermediateResult>>): (u: seq<string>)
    ensures forall i, j :: 0 <= i < j < |u| ==> u[i] != u[j]
    ensures forall d :: d in u <==> exists t :: 0 <= t < |inter| && d in Disciplines(inter[t])
    ensures |u| == 0 <==> forall t :: 0 <= t < |inter| ==> inter[t] == []
  {
    FirstSeen(AllDisciplines(inter))
  }

  /** The disciplines stand in the order in which they first appear,
      scanning the tabs in order and each tab's results in order. */
  lemma UniverseOrder(inter: seq<seq<IntermediateResult>>)
    ensures forall d :: d in Universe(inter) ==> d in AllDisciplines(inter)
    ensures OrderedByFirst(AllDisciplines(inter), Universe(inter))
  {
    FirstSeenOrder(AllDisciplines(inter));
  }

  /** A table cell: the tab's metric for the discipline, null when the
      discipline has no result in that tab or the metric is null. */
  function Cell(rs: seq<IntermediateResult>, d: string, m: Metric): Json {
    match Find(rs, d)
    case None => JNull
    case Some(r) => if r.Value(m).Some? then JNum(r.Value(m).value) else JNull
  }

  /** The labels of the tabs, in order. */
  function Labels(tabs: seq<Tab>): (ls: seq<string>)
    ensures |ls| == |tabs|
    ensures forall j :: 0 <= j < |tabs| ==> ls[j] == tabs[j].tabLabel
  {
    seq(|tabs|, j requires 0 <= j < |tabs| => tabs[j].tabLabel)
  }

  /** The cells a discipline gets, one per tab, in tab order. */
  function Cells(tabs: seq<Tab>, inter: seq<seq<IntermediateResult>>, d: string, m: Metric): (cs: seq<Json>)
    requires |tabs| <= |inter|
    ensures |cs| == |tabs|
    ensures forall j :: 0 <= j < |tabs| ==> cs[j] == Cell(inter[j], d, m)
  {
    seq(|tabs|, j requires 0 <= j < |tabs| => Cell(inter[j], d, m))
  }

  /** The row `{ discipline }` after every tab wrote its cell under its
      label (`row[tab.label] = ...`): the key `discipline` and one key per
      tab label, present even where the cell is null, and no other key. */
  function TableRow(tabs: seq<Tab>, inter: seq<seq<IntermediateResult>>, d: string, m: Metric): (row: Entries<Json>)
    requires |tabs| <= |inter|
    ensures forall k :: k in Keys(row) <==> k == "discipline" || k in Labels(tabs)
    ensures WellOrdered(row)
    ensures NonIndexKeys(Keys(row)) == FirstSeen(NonIndexKeys(["discipline"] + Labels(tabs)))
  {
    var start := [("discipline", JStr(d))];
    assert Keys(start) == ["discipline"];
    assert !IsIndexKey("discipline") by { assert !IsDigit('d'); }
    assert NonIndexKeys(["discipline"]) == ["discipline"];
    PutAllNonIndexOrder(start, Labels(tabs), Cells(tabs, inter, d, m));
    PutAllOrder(start, Labels(tabs), Cells(tabs, inter, d, m));
    PutAllKeys(start, Labels(tabs), Cells(tabs, inter, d, m));
    PutAll(start, Labels(tabs), Cells(tabs, inter, d, m))
  }

  /** One pivot table: a row per discipline of the universe, in order. */
  function Table(tabs: seq<Tab>, inter: seq<seq<IntermediateResult>>, m: Metric): (t: seq<Entries<Json>>)
    requires |tabs| <= |inter| || |Universe(inter)| == 0
    ensures |t| == |Universe(inter)|
    ensures forall i :: 0 <= i < |t| ==> t[i] == TableRow(tabs, inter, Universe(inter)[i], m)
  {
    var u := Universe(inter);
    seq(|u|, i requires 0 <= i < |u| => TableRow(tabs, inter, u[i], m))
  }

  /** `calculateFinalResults`: the three pivot tables, one per metric. All
      three list the disciplines of the universe in the same order, one
      row each, every row keyed by `discipline` and the tab labels only;
      unless a tab is labelled `discipline`, row i names the i-th
      discipline. */
  function Final(tabs: seq<Tab>, inter: seq<seq<IntermediateResult>>): (f: FinalResults)
    requires |tabs| <= |inter| || |Universe(inter)| == 0
    ensures Pivot(f.performanceTable, tabs, inter)
    ensures Pivot(f.qualityTable, tabs, inter)
    ensures Pivot(f.averageScoreTable, tabs, inter)
  {
    TablePivot(tabs, inter, PerformanceMetric);
    TablePivot(tabs, inter, QualityMetric);
    TablePivot(tabs, inter, AverageScoreMetric);
    FinalResults(Table(tabs, inter, PerformanceMetric), Table(tabs, inter, QualityMetric),
                 Table(tabs, inter, AverageScoreMetric))
  }

  /** A pivot table over the tabs: a row per discipline of the universe,
      keyed by `discipline` and the tab labels, naming its discipline
      when no tab is labelled `discipline`. */
  ghost predicate Pivot(t: seq<Entries<Json>>, tabs: seq<Tab>, inter: seq<seq<IntermediateResult>>) {
    && |t| == |Universe(inter)|
    && (forall i, k :: 0 <= i < |t| ==> (k in Keys(t[i]) <==> k == "discipline" || k in Labels(tabs)))
    && ((forall j :: 0 <= j < |tabs| ==> tabs[j].tabLabel != "discipline") ==>
          forall i :: 0 <= i < |t| ==> Get(t[i], "discipline") == Some(JStr(Universe(inter)[i])))
  }

  /** Every metric's table is such a pivot table. */
  lemma TablePivot(tabs: seq<Tab>, inter: seq<seq<IntermediateResult>>, m: Metric)
    requires |tabs| <= |inter| || |Universe(inter)| == 0
    ensures Pivot(Table(tabs, inter, m), tabs, inter)
  {
    var t := Table(tabs, inter, m);
    if forall j :: 0 <= j < |tabs| ==> tabs[j].tabLabel != "discipline" {
      forall i | 0 <= i < |t| ensures Get(t[i], "discipline") == Some(JStr(Universe(inter)[i])) {
        TableRowDiscipline(tabs, inter, Universe(inter)[i], m);
      }
    }
  }

  /** Each tab label holds the cell of the last tab with that label: with
      distinct labels, every tab's own cell. */
  lemma TableRowCell(tabs: seq<Tab>, inter: seq<seq<IntermediateResult>>, d: string, m: Metric, j: nat)
    requires |tabs| <= |inter| && j < |tabs|
    requires forall j' :: j < j' < |tabs| ==> tabs[j'].tabLabel != tabs[j].tabLabel
    ensures Get(TableRow(tabs, inter, d, m), tabs[j].tabLabel) == Some(Cell(inter[j], d, m))
  {
    PutAllLastWins([("discipline", JStr(d))], Labels(tabs), Cells(tabs, inter, d, m), j);
  }

  /** The `discipline` key keeps the discipline unless a tab is labelled
      `discipline`. */
  lemma TableRowDiscipline(tabs: seq<Tab>, inter: seq<seq<IntermediateResult>>, d: string, m: Metric)
    requires |tabs| <= |inter|
    requires forall j :: 0 <= j < |tabs| ==> tabs[j].tabLabel != "discipline"
    ensures Get(TableRow(tabs, inter, d, m), "discipline") == Some(JStr(d))
  {
    var start := [("discipline", JStr(d))];
    PutAllUnwritten(start, Labels(tabs), Cells(tabs, inter, d, m), "discipline");
    GetFirst(start);
  }

  /** The first entry is what reading its key gives. */
  lemma GetFirst(o: Entries<Json>)
    requires |o| > 0
    ensures Get(o, o[0].0) == Some(o[0].1)
  {
  }

  /** The present values of a discipline's metric over the tabs, in tab
      order: what `calculateOverallResults` pushes. */
  function Present(inter: seq<seq<IntermediateResult>>, d: string, m: Metric): seq<real> {
    if |inter| == 0 then []
    else
      var prev := Present(inter[..|inter| - 1], d, m);
      match Find(inter[|inter| - 1], d)
      case None => prev
      case Some(r) => Push(prev, r.Value(m))
  }

  /** `calculateOverallResults`: per discipline of the universe, each
      metric's rounded mean over the tabs where it is present. */
  function Overall(h: Helpers, inter: seq<seq<IntermediateResult>>): (r: seq<OverallResult>)
    ensures |r| == |Universe(inter)|
    ensures forall i :: 0 <= i < |r| ==> r[i].discipline == Universe(inter)[i]
    ensures forall i, m :: 0 <= i < |r| ==> r[i].Avg(m) == MeanOrNull(h, Present(inter, r[i].discipline, m))
  {
    var u := Universe(inter);
    seq(|u|, i requires 0 <= i < |u| => OverallRow(h, inter, u[i]))
  }

  /** One overall row: the discipline and each metric's rounded mean. */
  function OverallRow(h: Helpers, inter: seq<seq<IntermediateResult>>, d: string): (r: OverallResult)
    ensures r.discipline == d
    ensures forall m :: r.Avg(m) == MeanOrNull(h, Present(inter, d, m))
  {
    OverallResult(d, MeanOrNull(h, Present(inter, d, PerformanceMetric)),
                  MeanOrNull(h, Present(inter, d, QualityMetric)),
                  MeanOrNull(h, Present(inter, d, AverageScoreMetric)))
  }

  /** The numbers among a list of cells, in order; nulls are skipped. */
  function Numbers(cells: seq<Json>): seq<real> {
    if |cells| == 0 then []
    else
      var prev := Numbers(cells[..|cells| - 1]);
      if cells[|cells| - 1].JNum? then prev + [cells[|cells| - 1].n] else prev
  }

  /** The cells of a final-table row, one per tab, in tab order. */
  function RowCells(tabs: seq<Tab>, row: Entries<Json>): seq<Json> {
    seq(|tabs|, j requires 0 <= j < |tabs| => Get(row, tabs[j].tabLabel).GetOr(JUndefined))
  }

  /** The overall results agree with the final tables: with distinct tab
      labels other than `discipline`, the i-th overall row and the i-th row
      of each table name the same discipline, and each overall average is
      the rounded mean of the non-null cells of that table row. */
  lemma OverallMatchesTables(h: Helpers, tabs: seq<Tab>, inter: seq<seq<IntermediateResult>>, m: Metric, i: nat)
    requires |tabs| == |inter|
    requires forall j, j' :: 0 <= j < j' < |tabs| ==> tabs[j].tabLabel != tabs[j'].tabLabel
    requires forall j :: 0 <= j < |tabs| ==> tabs[j].tabLabel != "discipline"
    requires i < |Universe(inter)|
    ensures var row := Table(tabs, inter, m)[i];
      && Get(row, "discipline") == Some(JStr(Overall(h, inter)[i].discipline))
      && Overall(h, inter)[i].Avg(m) == MeanOrNull(h, Numbers(RowCells(tabs, row)))
  {
    var d := Universe(inter)[i];
    var row := Table(tabs, inter, m)[i];
    assert row == TableRow(tabs, inter, d, m);
    TableRowDiscipline(tabs, inter, d, m);
    calc {
      Overall(h, inter)[i].Avg(m);
      MeanOrNull(h, Present(inter, d, m));
      == { PresentIsNumbers(inter, d, m, |inter|); assert inter[..|inter|] == inter; }
      MeanOrNull(h, Numbers(seq(|inter|, j requires 0 <= j < |inter| => Cell(inter[j], d, m))));
      == { RowCellsAre(tabs, inter, d, m); }
      MeanOrNull(h, Numbers(RowCells(tabs, row)));
    }
  }

  /** With distinct tab labels, the cells of a table row are the tabs'
      cells for its discipline. */
  lemma RowCellsAre(tabs: seq<Tab>, inter: seq<seq<IntermediateResult>>, d: string, m: Metric)
    requires |tabs| == |inter|
    requires forall j, j' :: 0 <= j < j' < |tabs| ==> tabs[j].tabLabel != tabs[j'].tabLabel
    ensures RowCells(tabs, TableRow(tabs, inter, d, m)) == seq(|inter|, j requires 0 <= j < |inter| => Cell(inter[j], d, m))
  {
    var cells := RowCells(tabs, TableRow(tabs, inter, d, m));
    forall j | 0 <= j < |tabs| ensures cells[j] == Cell(inter[j], d, m) {
      TableRowCell(tabs, inter, d, m, j);
    }
  }

  /** The present values over the first n tabs are the numbers among their
      cells. */
  lemma {:induction false} PresentIsNumbers(inter: seq<seq<IntermediateResult>>, d: string, m: Metric, n: nat)
    requires n <= |inter|
    ensures Present(inter[..n], d, m) == Numbers(seq(n, j requires 0 <= j < n => Cell(inter[j], d, m)))
    decreases n
  {
    if n > 0 {
      PresentIsNumbers(inter, d, m, n - 1);
      assert inter[..n][..n - 1] == inter[..n - 1];
      var cells := seq(n, j requires 0 <= j < n => Cell(inter[j], d, m));
      assert cells[..n - 1] == seq(n - 1, j requires 0 <= j < n - 1 => Cell(inter[j], d, m));
    }
  }

  /** Without any keyed row (empty tabs, or only the placeholder rows of
      freshly generated tabs) every tab's list is empty, and so are the
      three tables and the overall results. */
  lemma NoKeyedRows(h: Helpers, tabs: seq<Tab>)
    requires forall t :: 0 <= t < |tabs| ==> KeyedCodes(tabs[t].autumnWinter + tabs[t].springSummer) == []
    ensures forall t :: 0 <= t < |tabs| ==> Intermediate(h, tabs)[t] == []
    ensures Final(tabs, Intermediate(h, tabs)) == FinalResults([], [], [])
    ensures Overall(h, Intermediate(h, tabs)) == []
  {
    var inter := Intermediate(h, tabs);
    assert forall t :: 0 <= t < |tabs| ==> |inter[t]| <= |KeyedCodes(tabs[t].autumnWinter + tabs[t].springSummer)|;
  }
}
