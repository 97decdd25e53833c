/** The grade-band distribution that `calculateDistribution` builds, defined once:
    four counters keyed by band, each student adding one to the counter of its band. */
module Distribution {
  import opened JsValues
  import opened Grades

  /** The distribution object `{ 'Giỏi (25-30)': …, 'Khá (17-24)': …,
      'Trung bình (11-16)': …, 'Yếu (<11)': … }`. */
  datatype Counts = Counts(gioi: nat, kha: nat, trungBinh: nat, yeu: nat) {

    function Get(b: Band): nat {
      match b
      case Gioi => gioi
      case Kha => kha
      case TrungBinh => trungBinh
      case Yeu => yeu
    }

    /** `distribution[key(b)]++`. */
    function Bump(b: Band): Counts {
      match b
      case Gioi => this.(gioi := gioi + 1)
      case Kha => this.(kha := kha + 1)
      case TrungBinh => this.(trungBinh := trungBinh + 1)
      case Yeu => this.(yeu := yeu + 1)
    }

    function Total(): nat {
      gioi + kha + trungBinh + yeu
    }

    function Plus(other: Counts): Counts {
      Counts(gioi + other.gioi, kha + other.kha, trungBinh + other.trungBinh, yeu + other.yeu)
    }
  }

  /** The initial object: every counter at 0. */
  const Empty: Counts := Counts(0, 0, 0, 0)

  /** The bands in the order their keys are inserted into the object. */
  const Bands: seq<Band> := [Gioi, Kha, TrungBinh, Yeu]

  /** The object key of each band. */
  function Key(b: Band): string {
    match b
    case Gioi => "Giỏi (25-30)"
    case Kha => "Khá (17-24)"
    case TrungBinh => "Trung bình (11-16)"
    case Yeu => "Yếu (<11)"
  }

  /** `Object.entries(distribution)`: exactly the four keys, in insertion order,
      each with the count of its band. */
  function Entries(d: Counts): (r: seq<(string, nat)>)
    ensures |r| == |Bands| == 4
    ensures forall i :: 0 <= i < 4 ==> r[i].0 == Key(Bands[i]) && r[i].1 == d.Get(Bands[i])
  {
    [(Key(Gioi), d.gioi), (Key(Kha), d.kha), (Key(TrungBinh), d.trungBinh), (Key(Yeu), d.yeu)]
  }

  /** The four keys are pairwise distinct and every band has one. */
  lemma {:induction false} KeysDistinct()
    ensures forall i, j :: 0 <= i < j < |Bands| ==> Key(Bands[i]) != Key(Bands[j])
    ensures forall b :: b in Bands
  {
    forall b ensures b in Bands {
      match b
      case Gioi => assert Bands[0] == b;
      case Kha => assert Bands[1] == b;
      case TrungBinh => assert Bands[2] == b;
      case Yeu => assert Bands[3] == b;
    }
  }

  /** Reference count: how many scores of `scores` fall in band `b`. */
  function CountBand(scores: seq<Score>, b: Band): (n: nat)
    ensures n <= |scores|
  {
    if scores == [] then 0
    else (if Classify(scores[0]) == b then 1 else 0) + CountBand(scores[1..], b)
  }

  /** The `forEach` fold: start from `Empty` and bump the band of each score in turn. */
  function Tally(scores: seq<Score>): Counts {
    if scores == [] then Empty
    else Tally(scores[..|scores| - 1]).Bump(Classify(scores[|scores| - 1]))
  }

  /** Every score is counted exactly once: the counters add up to the number of scores. */
  lemma {:induction false} TallyTotal(scores: seq<Score>)
    ensures Tally(scores).Total() == |scores|
    decreases |scores|
  {
    if scores != [] {
      TallyTotal(scores[..|scores| - 1]);
    }
  }

  /** One more step of the fold bumps the band of the next score. */
  lemma {:induction false} TallyStep(scores: seq<Score>, i: nat)
    requires i < |scores|
    ensures Tally(scores[..i + 1]) == Tally(scores[..i]).Bump(Classify(scores[i]))
  {
    assert scores[..i + 1][..i] == scores[..i];
  }

  lemma {:induction false} TallySingle(x: Score)
    ensures Tally([x]) == Empty.Bump(Classify(x))
  {
    assert [x][..0] == [];
  }

  lemma {:induction false} CountBandConcat(xs: seq<Score>, ys: seq<Score>, b: Band)
    ensures CountBand(xs + ys, b) == CountBand(xs, b) + CountBand(ys, b)
    decreases |xs|
  {
    if xs == [] {
      assert xs + ys == ys;
    } else {
      assert (xs + ys)[1..] == xs[1..] + ys;
      CountBandConcat(xs[1..], ys, b);
    }
  }

  /** Each counter of the fold is the number of scores in its band. */
  lemma {:induction false} TallyCounts(scores: seq<Score>, b: Band)
    ensures Tally(scores).Get(b) == CountBand(scores, b)
    decreases |scores|
  {
    if scores != [] {
      var init, last := scores[..|scores| - 1], scores[|scores| - 1];
      TallyCounts(init, b);
      assert scores == init + [last];
      CountBandConcat(init, [last], b);
    }
  }

  /** The counts determine the distribution: two folds agree when every band's count agrees. */
  lemma {:induction false} TallyByCounts(xs: seq<Score>, ys: seq<Score>)
    requires forall b :: CountBand(xs, b) == CountBand(ys, b)
    ensures Tally(xs) == Tally(ys)
  {
    forall b ensures Tally(xs).Get(b) == Tally(ys).Get(b) {
      TallyCounts(xs, b);
      TallyCounts(ys, b);
    }
    assert Tally(xs).Get(Gioi) == Tally(ys).Get(Gioi);
    assert Tally(xs).Get(Kha) == Tally(ys).Get(Kha);
    assert Tally(xs).Get(TrungBinh) == Tally(ys).Get(TrungBinh);
    assert Tally(xs).Get(Yeu) == Tally(ys).Get(Yeu);
  }

  /** The distribution of a concatenation is the pointwise sum of the distributions. */
  lemma {:induction false} TallyConcat(xs: seq<Score>, ys: seq<Score>)
    ensures Tally(xs + ys) == Tally(xs).Plus(Tally(ys))
  {
    forall b ensures Tally(xs + ys).Get(b) == Tally(xs).Plus(Tally(ys)).Get(b) {
      TallyCounts(xs + ys, b);
      TallyCounts(xs, b);
      TallyCounts(ys, b);
      CountBandConcat(xs, ys, b);
    }
    var l, r := Tally(xs + ys), Tally(xs).Plus(Tally(ys));
    assert l.Get(Gioi) == r.Get(Gioi) && l.Get(Kha) == r.Get(Kha);
    assert l.Get(TrungBinh) == r.Get(TrungBinh) && l.Get(Yeu) == r.Get(Yeu);
  }

  /** Removing the score at index `j` removes its contribution and nothing else. */
  lemma {:induction false} CountBandRemove(ys: seq<Score>, j: nat, b: Band)
    requires j < |ys|
    ensures CountBand(ys, b) ==
      (if Classify(ys[j]) == b then 1 else 0) + CountBand(ys[..j] + ys[j + 1..], b)
  {
    assert ys == ys[..j] + ([ys[j]] + ys[j + 1..]);
    CountBandConcat(ys[..j], [ys[j]] + ys[j + 1..], b);
    CountBandConcat([ys[j]], ys[j + 1..], b);
    CountBandConcat(ys[..j], ys[j + 1..], b);
  }

  lemma {:induction false} MultisetRemove(ys: seq<Score>, j: nat)
    requires j < |ys|
    ensures multiset(ys[..j] + ys[j + 1..]) == multiset(ys) - multiset{ys[j]}
  {
    assert ys == ys[..j] + [ys[j]] + ys[j + 1..];
  }

  /** A band count depends only on the multiset of scores. */
  lemma {:induction false} CountBandPermutation(xs: seq<Score>, ys: seq<Score>, b: Band)
    requires multiset(xs) == multiset(ys)
    ensures CountBand(xs, b) == CountBand(ys, b)
    decreases |xs|
  {
    if xs != [] {
      var j := MatchFirst(xs, ys);
      CountBandPermutation(xs[1..], ys[..j] + ys[j + 1..], b);
      CountBandRemove(ys, j, b);
    } else {
      assert |ys| == |multiset(ys)| == 0;
    }
  }

  /** In a permutation `ys` of a non-empty `xs`, some position holds the first
      element of `xs`, and without it the rest of `ys` permutes the rest of `xs`. */
  lemma {:induction false} MatchFirst(xs: seq<Score>, ys: seq<Score>) returns (j: nat)
    requires xs != [] && multiset(xs) == multiset(ys)
    ensures j < |ys| && ys[j] == xs[0]
    ensures multiset(xs[1..]) == multiset(ys[..j] + ys[j + 1..])
  {
    assert xs[0] in multiset(ys);
    j :| 0 <= j < |ys| && ys[j] == xs[0];
    RemoveMatched(xs, ys, j);
  }

  lemma {:induction false} RemoveMatched(xs: seq<Score>, ys: seq<Score>, j: nat)
    requires xs != [] && multiset(xs) == multiset(ys)
    requires j < |ys| && ys[j] == xs[0]
    ensures multiset(xs[1..]) == multiset(ys[..j] + ys[j + 1..])
  {
    assert multiset(xs[1..]) == multiset(xs) - multiset{xs[0]} by {
      assert xs == [xs[0]] + xs[1..];
    }
    MultisetRemove(ys, j);
  }

  /** The distribution does not depend on the order of the students. */
  lemma {:induction false} TallyPermutation(xs: seq<Score>, ys: seq<Score>)
    requires multiset(xs) == multiset(ys)
    ensures Tally(xs) == Tally(ys)
  {
    forall b ensures CountBand(xs, b) == CountBand(ys, b) {
      CountBandPermutation(xs, ys, b);
    }
    TallyByCounts(xs, ys);
  }

  /** Two score lists whose scores fall pairwise in the same bands have the same distribution. */
  lemma {:induction false} TallySameBands(xs: seq<Score>, ys: seq<Score>)
    requires |xs| == |ys|
    requires forall i :: 0 <= i < |xs| ==> Classify(xs[i]) == Classify(ys[i])
    ensures Tally(xs) == Tally(ys)
    decreases |xs|
  {
    if xs != [] {
      TallySameBands(xs[..|xs| - 1], ys[..|ys| - 1]);
    }
  }

  /** The loop every `calculateDistribution` runs once each student's total has
      been read: start from zero counters and, for each total in turn, increment
      the first counter whose threshold (25, else 17, else 11) it reaches, or
      the lowest one. Each total is counted once, in the counter of its band. */
  method CountTotals(totals: seq<Score>) returns (distribution: Counts)
    ensures distribution == Tally(totals)
    ensures distribution.Total() == |totals|
    ensures forall b :: distribution.Get(b) == CountBand(totals, b)
  {
    distribution := Empty;
    var i := 0;
    while i < |totals|
      invariant i <= |totals|
      invariant distribution == Tally(totals[..i])
    {
      var score := totals[i];
      ghost var before := distribution;
      if AtLeast(score, 25.0) {
        distribution := distribution.(gioi := distribution.gioi + 1);
      } else if AtLeast(score, 17.0) {
        distribution := distribution.(kha := distribution.kha + 1);
      } else if AtLeast(score, 11.0) {
        distribution := distribution.(trungBinh := distribution.trungBinh + 1);
      } else {
        distribution := distribution.(yeu := distribution.yeu + 1);
      }
      assert distribution == before.Bump(Classify(score));
      TallyStep(totals, i);
      i := i + 1;
    }
    assert totals[..i] == totals;
    TallyTotal(totals);
    forall b ensures distribution.Get(b) == CountBand(totals, b) {
      TallyCounts(totals, b);
    }
  }
}
