/** The two classifiers of the student card (src/components/StudentCard.js):
    the grade label and the colour class of the total-score badge. */
module StudentCard {
  import opened JsValues
  import opened JsNumbers
  import opened Grades

  /** The label the card shows for each band. */
  function Label(b: Band): string {
    match b
    case Gioi => "Giỏi"
    case Kha => "Khá"
    case TrungBinh => "Trung bình"
    case Yeu => "Yếu"
  }

  /** The colour class of the score badge for each band. */
  function Colour(b: Band): string {
    match b
    case Gioi => "text-green-600 bg-green-50"
    case Kha => "text-blue-600 bg-blue-50"
    case TrungBinh => "text-yellow-600 bg-yellow-50"
    case Yeu => "text-red-600 bg-red-50"
  }

  /** `getGradeLevel`: the label of the band of `parseFloat(score)`, always one of the four labels. */
  function GradeLevel(score: JsValue): (r: string)
    ensures r == Label(Classify(ParseFloat(score)))
    ensures r in {"Giỏi", "Khá", "Trung bình", "Yếu"}
    ensures ParseFloat(score).NaN? ==> r == "Yếu"
  {
    var numScore := ParseFloat(score);
    if AtLeast(numScore, 25.0) then "Giỏi"
    else if AtLeast(numScore, 17.0) then "Khá"
    else if AtLeast(numScore, 11.0) then "Trung bình"
    else "Yếu"
  }

  /** `getScoreColor`: the colour of the band of `parseFloat(score)`. */
  function ScoreColor(score: JsValue): (r: string)
    ensures r == Colour(Classify(ParseFloat(score)))
  {
    var numScore := ParseFloat(score);
    if AtLeast(numScore, 25.0) then "text-green-600 bg-green-50"
    else if AtLeast(numScore, 17.0) then "text-blue-600 bg-blue-50"
    else if AtLeast(numScore, 11.0) then "text-yellow-600 bg-yellow-50"
    else "text-red-600 bg-red-50"
  }

  /** Distinct bands have distinct labels and distinct colours. */
  lemma {:induction false} LabelsAndColoursDistinct(a: Band, b: Band)
    ensures Label(a) == Label(b) <==> a == b
    ensures Colour(a) == Colour(b) <==> a == b
  {
  }

  /** Two scores get the same label exactly when they get the same colour: the
      badge colour and the grade label correspond one to one. */
  lemma {:induction false} ColourMatchesGrade(x: JsValue, y: JsValue)
    ensures GradeLevel(x) == GradeLevel(y) <==> ScoreColor(x) == ScoreColor(y)
  {
    LabelsAndColoursDistinct(Classify(ParseFloat(x)), Classify(ParseFloat(y)));
  }
}
