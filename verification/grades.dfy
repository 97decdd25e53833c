/** The four grade bands every view uses for a total score, checked from the
    highest threshold down so that a score on a boundary belongs to the higher band. */
module Grades {
  import opened JsValues

  /** Giỏi (excellent), Khá (good), Trung bình (average), Yếu (weak). */
  datatype Band = Gioi | Kha | TrungBinh | Yeu

  /** The order of the bands, lowest first. */
  function Rank(b: Band): nat {
    match b
    case Yeu => 0
    case TrungBinh => 1
    case Kha => 2
    case Gioi => 3
  }

  /** The cascade `>= 25`, else `>= 17`, else `>= 11`, else the lowest band.
      As intervals: [25, ∞), [17, 25), [11, 17), and below 11 or NaN. */
  function Classify(x: Score): (b: Band)
    ensures b == Gioi <==> x.Num? && x.v >= 25.0
    ensures b == Kha <==> x.Num? && 17.0 <= x.v < 25.0
    ensures b == TrungBinh <==> x.Num? && 11.0 <= x.v < 17.0
    ensures b == Yeu <==> x.NaN? || x.v < 11.0
  {
    if AtLeast(x, 25.0) then Gioi
    else if AtLeast(x, 17.0) then Kha
    else if AtLeast(x, 11.0) then TrungBinh
    else Yeu
  }

  /** A higher score never lands in a lower band. */
  lemma {:induction false} ClassifyMonotone(x: real, y: real)
    requires x <= y
    ensures Rank(Classify(Num(x))) <= Rank(Classify(Num(y)))
  {
  }

  /** An unparseable score sits in the lowest band, together with every score below 11. */
  lemma {:induction false} NaNIsWeakest(x: Score)
    ensures Rank(Classify(NaN)) <= Rank(Classify(x))
    ensures Classify(NaN) == Classify(Num(0.0))
  {
  }
}
