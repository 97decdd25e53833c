/** The leaderboard page (src/pages/TopScores.js): rank badges, the score colour
    scale, the podium guard, the threshold counters and the list-size buttons. */
module TopScores {
  import opened JsValues
  import opened JsNumbers
  import opened Grades
  import opened Students
  import opened Distribution

  // ------------------------------------------------------------------ ranks

  /** The icon components `getRankIcon` returns. */
  datatype Icon = Crown | Medal | Award | Star

  /** `getRankIcon`: crown, medal and award for the first three places, a star for every other. */
  function RankIcon(index: nat): (r: Icon)
    ensures index >= 3 <==> r == Star
  {
    if index == 0 then Crown
    else if index == 1 then Medal
    else if index == 2 then Award
    else Star
  }

  const DefaultStyle: string := "bg-blue-100 text-blue-800"

  /** `getRankStyle`: a gradient for each of the first three places, one shared style after them. */
  function RankStyle(index: nat): (r: string)
    ensures index >= 3 <==> r == DefaultStyle
  {
    if index == 0 then "bg-gradient-to-r from-yellow-400 to-yellow-600 text-white"
    else if index == 1 then "bg-gradient-to-r from-gray-300 to-gray-500 text-white"
    else if index == 2 then "bg-gradient-to-r from-amber-400 to-amber-600 text-white"
    else DefaultStyle
  }

  /** Places 1, 2 and 3 each have their own icon and style, distinct from each
      other and from the default; all later places share the default. */
  lemma {:induction false} PodiumStylesDistinct(i: nat, j: nat)
    ensures (i < 3 || j < 3) && i != j ==> RankIcon(i) != RankIcon(j) && RankStyle(i) != RankStyle(j)
    ensures i >= 3 && j >= 3 ==> RankIcon(i) == RankIcon(j) && RankStyle(i) == RankStyle(j)
  {
  }

  /** What the rank circle shows: an icon, or the 1-based rank as a number. */
  datatype Badge = IconBadge(icon: Icon) | NumberBadge(rank: nat)

  /** `index < 3 ? getRankIcon(index) : index + 1`: the first three places show
      their podium icon, every later place its 1-based rank. */
  function RankBadge(index: nat): (r: Badge)
    ensures index < 3 ==> r.IconBadge? && r.icon != Star
    ensures index >= 3 ==> r == NumberBadge(index + 1)
  {
    if index < 3 then IconBadge(RankIcon(index)) else NumberBadge(index + 1)
  }

  /** No two places of the list show the same badge. */
  lemma {:induction false} BadgesDistinct(i: nat, j: nat)
    requires i != j
    ensures RankBadge(i) != RankBadge(j)
  {
  }

  // ----------------------------------------------------------- score colours

  const Purple: string := "text-purple-600"
  const Green: string := "text-green-600"
  const Blue: string := "text-blue-600"
  const Gray: string := "text-gray-600"

  /** `getScoreColor` of the leaderboard: purple from 28, green on [25, 28),
      blue on [20, 25), gray below 20 and for an unparseable score. */
  function ScoreColor(score: JsValue): (r: string)
    ensures var p := ParseFloat(score);
      && (r == Purple <==> p.Num? && p.v >= 28.0)
      && (r == Green <==> p.Num? && 25.0 <= p.v < 28.0)
      && (r == Blue <==> p.Num? && 20.0 <= p.v < 25.0)
      && (r == Gray <==> p.NaN? || p.v < 20.0)
  {
    var numScore := ParseFloat(score);
    if AtLeast(numScore, 28.0) then Purple
    else if AtLeast(numScore, 25.0) then Green
    else if AtLeast(numScore, 20.0) then Blue
    else Gray
  }

  /** The two colour scales meet at 25: a leaderboard score is purple or green
      exactly when the student card puts it in the Giỏi band. */
  lemma {:induction false} ColourAgreesWithGioi(score: JsValue)
    ensures ScoreColor(score) in {Purple, Green} <==> Classify(ParseFloat(score)) == Gioi
  {
  }

  // ------------------------------------------------------------------ podium

  /** The podium cards, in the order they are laid out: second, first, third. */
  datatype Podium = Podium(second: Student, first: Student, third: Student)

  /** `topStudents.length >= 3 && (…podium…)`: the podium exists exactly when
      there are at least three students, and then shows the first three in place order. */
  function PodiumOf(students: seq<Student>): (r: Option<Podium>)
    ensures r.Some? <==> |students| >= 3
    ensures r.Some? ==>
      r.value.first == students[0] && r.value.second == students[1] && r.value.third == students[2]
  {
    if |students| >= 3 then Some(Podium(students[1], students[0], students[2])) else None
  }

  // ------------------------------------------------------- threshold counters

  /** `topStudents.filter(s => parseFloat(s.tong_diem) >= t).length`. */
  function CountAtLeast(students: seq<Student>, t: real): (n: nat)
    ensures n <= |students|
  {
    if students == [] then 0
    else (if AtLeast(ParseFloat(students[0].tongDiem), t) then 1 else 0) + CountAtLeast(students[1..], t)
  }

  /** Raising the threshold never raises the count. */
  lemma {:induction false} CountAtLeastAntitone(students: seq<Student>, lo: real, hi: real)
    requires lo <= hi
    ensures CountAtLeast(students, hi) <= CountAtLeast(students, lo)
    decreases |students|
  {
    if students != [] {
      CountAtLeastAntitone(students[1..], lo, hi);
    }
  }

  /** The two counters of the statistics box: count(>= 25) <= count(>= 20) <= n. */
  lemma {:induction false} ThresholdCountsOrdered(students: seq<Student>)
    ensures CountAtLeast(students, 25.0) <= CountAtLeast(students, 20.0) <= |students|
  {
    CountAtLeastAntitone(students, 20.0, 25.0);
  }

  /** The "Xuất sắc (≥25)" counter equals the Giỏi bucket of `calculateDistribution`. */
  lemma {:induction false} ExcellentCountIsGioiBucket(students: seq<Student>)
    ensures CountAtLeast(students, 25.0) == CountBand(ParsedTotals(students), Gioi)
    decreases |students|
  {
    if students != [] {
      ExcellentCountIsGioiBucket(students[1..]);
      assert ParsedTotals(students)[1..] == ParsedTotals(students[1..]);
    }
  }

  // ------------------------------------------------------------ list size

  /** The list-size buttons, and the size the page starts with. */
  const LimitOptions: seq<nat> := [10, 25, 50, 100]
  const InitialLimit: nat := 50

  /** The limit after the buttons `clicks` (indices into `LimitOptions`) were
      pressed in turn: always one of the four options, the last one pressed if any. */
  function LimitAfter(clicks: seq<nat>): (limit: nat)
    requires forall k :: 0 <= k < |clicks| ==> clicks[k] < |LimitOptions|
    ensures limit in LimitOptions
    ensures clicks != [] ==> limit == LimitOptions[clicks[|clicks| - 1]]
  {
    if clicks == [] then InitialLimit else LimitOptions[clicks[|clicks| - 1]]
  }
}
