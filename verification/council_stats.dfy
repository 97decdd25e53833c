/** The council statistics panel (src/components/CouncilStats.js): its copy of
    `calculateDistribution` and the `|| 0` / `|| 'N/A'` display fallbacks. */
module CouncilStats {
  import opened JsValues
  import opened JsNumbers
  import opened Grades
  import opened Students
  import opened Distribution

  /** This component's `calculateDistribution`, the same statements as the
      score-range panel's: `parseFloat` each total, then the counter cascade of
      `CountTotals`. Its postcondition pins the result to the shared fold, so
      the two copies return the same object on every input. */
  method CalculateDistribution(students: seq<Student>) returns (distribution: Counts)
    ensures distribution == Tally(ParsedTotals(students))
    ensures distribution.Total() == |students|
    ensures forall b :: distribution.Get(b) == CountBand(ParsedTotals(students), b)
  {
    distribution := CountTotals(ParsedTotals(students));
  }

  const NA: JsValue := Str("N/A")

  /** `stats.total_students || 0`: a missing or zero count shows 0, as does
      every other falsy value (`""`, `false`, NaN); a truthy value is shown as it is. */
  function TotalStudentsCell(v: JsValue): (r: JsValue)
    ensures (v.Undefined? || v.Null? || v == Zero) ==> r == Zero
    ensures !Truthy(v) ==> r == Zero
    ensures Truthy(v) ==> r == v
    ensures Truthy(r) || r == Zero
  {
    Or(v, Zero)
  }

  /** `stats.avg_score || 'N/A'` (also max_score, min_score): a missing value
      shows 'N/A', a truthy one is shown as it is, and the cell is never blank.
      A score of exactly 0 is falsy and therefore also shows 'N/A', as do `""`,
      `false` and NaN. */
  function OrNotAvailable(v: JsValue): (r: JsValue)
    ensures (v.Undefined? || v.Null?) ==> r == NA
    ensures !Truthy(v) ==> r == NA
    ensures Truthy(v) ==> r == v
    ensures v == Zero ==> r == NA
    ensures Truthy(r)
  {
    Or(v, NA)
  }
}
