/** The score-range statistics panel (src/components/ScoreRangeStats.js): its
    copy of `calculateDistribution` and the guard on the mean cell. */
module ScoreRangeStats {
  import opened JsValues
  import opened JsNumbers
  import opened Grades
  import opened Students
  import opened Distribution

  /** `calculateDistribution`: for each student, read the total with
      `parseFloat` and run the counter cascade of `CountTotals` on it. Each
      student lands in exactly one band, an unparseable total in 'Yếu (<11)'. */
  method CalculateDistribution(students: seq<Student>) returns (distribution: Counts)
    ensures distribution == Tally(ParsedTotals(students))
    ensures distribution.Total() == |students|
    ensures forall b :: distribution.Get(b) == CountBand(ParsedTotals(students), b)
  {
    distribution := CountTotals(ParsedTotals(students));
  }

  /** `reduce((sum, x) => sum + x, 0)` over numbers: NaN as soon as one term is NaN. */
  function SumScores(xs: seq<Score>): (r: Score)
    ensures r.NaN? <==> exists i :: 0 <= i < |xs| && xs[i].NaN?
  {
    if xs == [] then Num(0.0)
    else
      var s := SumScores(xs[..|xs| - 1]);
      var x := xs[|xs| - 1];
      assert forall i :: 0 <= i < |xs| - 1 ==> xs[..|xs| - 1][i] == xs[i];
      if s.NaN? || x.NaN? then NaN else Num(s.v + x.v)
  }

  /** A summary cell: the 'N/A' placeholder, or a number (possibly NaN). */
  datatype Cell = NotAvailable | Shown(value: Score)

  /** The mean cell: 'N/A' exactly when `students` is absent or empty; otherwise
      the sum of the parsed totals over their count, which is NaN exactly when
      some total does not parse. */
  function MeanCell(students: Option<seq<Student>>): (r: Cell)
    ensures r.NotAvailable? <==> students.None? || students.value == []
    ensures r.Shown? ==>
      (r.value.NaN? <==> exists i :: 0 <= i < |students.value| && ParsedTotals(students.value)[i].NaN?)
  {
    if students.Some? && |students.value| > 0 then
      var sum := SumScores(ParsedTotals(students.value));
      Shown(if sum.NaN? then NaN else Num(sum.v / |students.value| as real))
    else
      NotAvailable
  }
}
