/** Per-row grade statistics of a semester table: the number of graded
    students, the performance percentage and the quality percentage. The
    JavaScript code formats both percentages with `toFixed(2)`; reading them
    back with `parseFloat` gives the rounded value modelled here. */
module Calculations {
  import opened Wrappers
  import opened Decimal

  /** The `discipline` field of a row: falsy (the placeholder '' of an empty
      row, or null), or a subject object whose `code_name` may be empty. */
  datatype Discipline = NoDiscipline | Subject(codeName: string)

  /** One row of a semester table: the subject, the group, the number of
      students and the number of fives, fours and threes. */
  datatype GradeRow = GradeRow(
    discipline: Discipline,
    group: string,
    students: nat,
    fives: nat,
    fours: nat,
    threes: nat)

  /** The helpers `calculateAverageScore` and `roundToDecimal`, which the
      results code imports but whose definitions are not part of this
      model: any functions of these shapes. `averageScore` yields None where
      `parseFloat` of the helper's result is NaN. */
  datatype Helpers = Helpers(
    averageScore: GradeRow -> Option<real>,
    roundToDecimal: (real, nat) -> real)

  /** The number of graded entries (fives, fours and threes). */
  function Graded(row: GradeRow): nat {
    row.fives + row.fours + row.threes
  }

  /** The grade points: 5 per five, 4 per four, 3 per three. */
  function Points(row: GradeRow): nat {
    row.fives * 5 + row.fours * 4 + row.threes * 3
  }

  /** `calculateTotalGrades`: null for a row without a discipline or
      without any graded entry, the number of graded entries otherwise. */
  function TotalGrades(row: GradeRow): (r: Option<nat>)
    ensures r.None? <==> row.discipline.NoDiscipline? || Graded(row) == 0
    ensures r.Some? ==> r.value == Graded(row) && r.value > 0
  {
    if row.discipline.NoDiscipline? then None
    else if Graded(row) == 0 then None
    else Some(Graded(row))
  }

  /** `calculatePerformance`: the points as a percentage of the maximum
      (5 points per graded entry), to two decimals. */
  function Performance(row: GradeRow): (r: Option<real>)
    ensures r.None? <==> TotalGrades(row).None?
    ensures r.Some? ==> OnGrid(r.value, 2) && 60.0 <= r.value <= 100.0
  {
    if row.discipline.NoDiscipline? then None
    else
      match TotalGrades(row)
      case None => None
      case Some(total) =>
        PerformanceRatioBounds(row);
        var x := Points(row) as real / (total * 5) as real * 100.0;
        PercentWithinGrid(x, 60, 100);
        Some(RoundHalfUp(x, 2))
  }

  /** The exact performance ratio, before rounding. */
  function PerformanceRatio(row: GradeRow): real
    requires Graded(row) > 0
  {
    Points(row) as real / (Graded(row) * 5) as real * 100.0
  }

  /** The 3/4/5 weights put the exact performance between 60 and 100. */
  lemma PerformanceRatioBounds(row: GradeRow)
    requires Graded(row) > 0
    ensures 60.0 <= PerformanceRatio(row) <= 100.0
  {
    var t := Graded(row);
    assert 3 * t <= Points(row) <= 5 * t;
    PercentOfBounds(Points(row), t);
  }

  /** `w / (5t) * 100` lies in [60, 100] when 3t <= w <= 5t. */
  lemma PercentOfBounds(w: nat, t: nat)
    requires t > 0 && 3 * t <= w <= 5 * t
    ensures 60.0 <= w as real / (t * 5) as real * 100.0 <= 100.0
  {
    var d := (t * 5) as real;
    DivideBoth(0.6, w as real, d);
    DivideAtMost(w as real, 1.0, d);
  }

  /** Rounding to two decimals keeps a value between integer bounds. */
  lemma PercentWithinGrid(x: real, lo: nat, hi: nat)
    requires lo as real <= x <= hi as real
    ensures lo as real <= RoundHalfUp(x, 2) <= hi as real
  {
    IntegerOnGrid(lo, 2);
    IntegerOnGrid(hi, 2);
    RoundWithinGridBounds(x, 2, lo as real, hi as real);
  }

  /** The performance is the exact ratio rounded half up to two decimals:
      the unique two-decimal value within half a hundredth of it. */
  lemma PerformanceIsRoundedRatio(row: GradeRow, g: real)
    requires row.discipline.Subject? && Graded(row) > 0
    requires OnGrid(g, 2)
    requires PerformanceRatio(row) - Step(2) / 2.0 < g <= PerformanceRatio(row) + Step(2) / 2.0
    ensures Performance(row) == Some(g)
  {
    PerformanceRatioBounds(row);
    RoundHalfUpUnique(PerformanceRatio(row), 2, g);
  }

  /** `calculateQuality`: fives and fours as a percentage of the students,
      to two decimals; null without a discipline or students. Nothing caps
      the value at 100. */
  function Quality(row: GradeRow): (r: Option<real>)
    ensures r.None? <==> row.discipline.NoDiscipline? || row.students == 0
    ensures r.Some? ==> OnGrid(r.value, 2) && r.value >= 0.0
    ensures r.Some? && row.fives + row.fours <= row.students ==> r.value <= 100.0
  {
    if row.discipline.NoDiscipline? then None
    else if row.students == 0 then None
    else
      var x := (row.fives + row.fours) as real / row.students as real * 100.0;
      QualityRatioBounds(row.fives + row.fours, row.students);
      PercentWithinGrid(x, 0, if row.fives + row.fours <= row.students then 100 else x.Floor + 1);
      Some(RoundHalfUp(x, 2))
  }

  /** The exact quality ratio, before rounding. */
  function QualityRatio(row: GradeRow): real
    requires row.students > 0
  {
    (row.fives + row.fours) as real / row.students as real * 100.0
  }

  /** The quality is the exact ratio rounded half up to two decimals: the
      unique two-decimal value within half a hundredth of it. */
  lemma QualityIsRoundedRatio(row: GradeRow, g: real)
    requires row.discipline.Subject? && row.students > 0
    requires OnGrid(g, 2)
    requires QualityRatio(row) - Step(2) / 2.0 < g <= QualityRatio(row) + Step(2) / 2.0
    ensures Quality(row) == Some(g)
  {
    QualityRatioBounds(row.fives + row.fours, row.students);
    RoundHalfUpUnique(QualityRatio(row), 2, g);
  }

  /** `g / s * 100` is non-negative, and at most 100 when g <= s. */
  lemma QualityRatioBounds(g: nat, s: nat)
    requires s > 0
    ensures 0.0 <= g as real / s as real * 100.0
    ensures g <= s ==> g as real / s as real * 100.0 <= 100.0
  {
    DivideBoth(0.0, g as real, s as real);
    if g <= s {
      DivideAtMost(g as real, 1.0, s as real);
    }
  }

  /** Quality is not clamped: more fives and fours than students give a
      value above 100. */
  lemma QualityUnclamped()
    ensures Quality(GradeRow(Subject("M"), "G", 1, 2, 0, 0)) == Some(200.0)
  {
    IntegerOnGrid(200, 2);
    RoundOnGrid(200.0, 2);
  }

  /** A single mathematics row with 20 students, 10 fives, 6 fours and
      4 threes: performance 86.00 and quality 80.00. */
  lemma MathematicsExample()
    ensures Performance(GradeRow(Subject("Math"), "", 20, 10, 6, 4)) == Some(86.0)
    ensures Quality(GradeRow(Subject("Math"), "", 20, 10, 6, 4)) == Some(80.0)
  {
    var row := GradeRow(Subject("Math"), "", 20, 10, 6, 4);
    assert Points(row) == 86 && Graded(row) == 20;
    assert 86.0 / 100.0 * 100.0 == 86.0;
    assert 16.0 / 20.0 * 100.0 == 80.0;
    IntegerOnGrid(86, 2);
    RoundOnGrid(86.0, 2);
    IntegerOnGrid(80, 2);
    RoundOnGrid(80.0, 2);
  }
}
