/** The statistics page (src/pages/Statistics.js): the guards in front of the
    two queries, the fallbacks of the range inputs, its own copy of
    `calculateDistribution` and the twelve-card preview of the result lists. */
module StatisticsPage {
  import opened JsValues
  import opened JsStrings
  import opened JsNumbers
  import opened Grades
  import opened Students
  import opened Distribution

  // ---------------------------------------------------------------- range query

  const RangeMessage: string := "Khoảng điểm không hợp lệ. Vui lòng nhập từ 0-30 và min <= max"

  /** What `handleScoreRangeSearch` does: set the error and stop, or request the range. */
  datatype RangeOutcome = RangeRejected(message: string) | RangeQuery(min: real, max: real)

  /** The range search proceeds exactly when 0 <= min <= max <= 30, and then
      requests precisely the range in the form; otherwise it only sets the error. */
  function HandleScoreRangeSearch(min: real, max: real): (r: RangeOutcome)
    ensures r.RangeQuery? <==> 0.0 <= min <= max <= 30.0
    ensures r.RangeQuery? ==> r.min == min && r.max == max
    ensures r.RangeRejected? ==> r.message == RangeMessage
  {
    if min < 0.0 || max > 30.0 || min > max then RangeRejected(RangeMessage)
    else RangeQuery(min, max)
  }

  /** The number a falsy-or-number expression `x || d` yields, for a parsed input `x`. */
  function OrNumber(x: Score, fallback: real): real {
    match Or(Number(x), Number(Num(fallback)))
    case Number(Num(v)) => v
    case _ => fallback
  }

  /** The minimum input's `parseFloat(e.target.value) || 0`: an unparseable entry
      becomes 0, any other entry is taken as typed. */
  function MinInput(text: string): (r: real)
    ensures ParseFloat(Str(text)).NaN? ==> r == 0.0
    ensures ParseFloat(Str(text)).Num? ==> r == ParseFloat(Str(text)).v
  {
    OrNumber(ParseFloat(Str(text)), 0.0)
  }

  /** The maximum input's `parseFloat(e.target.value) || 30`, as written: an
      unparseable entry becomes 30, and so does an entry of 0. */
  function MaxInputAsWritten(text: string): (r: real)
    ensures ParseFloat(Str(text)).NaN? ==> r == 30.0
    ensures ParseFloat(Str(text)) == Num(0.0) ==> r == 30.0
    ensures ParseFloat(Str(text)).Num? && ParseFloat(Str(text)).v != 0.0 ==> r == ParseFloat(Str(text)).v
  {
    OrNumber(ParseFloat(Str(text)), 30.0)
  }

  /** The maximum input with the fallback it evidently intends: only an
      unparseable entry becomes 30; every number, 0 included, is taken as typed. */
  function MaxInput(text: string): (r: real)
    ensures ParseFloat(Str(text)).NaN? ==> r == 30.0
    ensures ParseFloat(Str(text)).Num? ==> r == ParseFloat(Str(text)).v
  {
    match ParseFloat(Str(text))
    case Num(v) => v
    case NaN => 30.0
  }

  /** Typing "0" in the maximum input of the code as written sets the maximum to
      30, so the range [0, 0] can never be requested: it becomes [0, 30]. */
  lemma {:induction false} MaxInputZeroBecomesThirty()
    ensures ParseFloat(Str("0")) == Num(0.0)
    ensures MaxInputAsWritten("0") == 30.0
    ensures HandleScoreRangeSearch(MinInput("0"), MaxInputAsWritten("0")) == RangeQuery(0.0, 30.0)
  {
    ParsesZero();
  }

  /** With the intended fallback, typing "0" in both inputs requests [0, 0]. */
  lemma {:induction false} ZeroRangeIsQueried()
    ensures HandleScoreRangeSearch(MinInput("0"), MaxInput("0")) == RangeQuery(0.0, 0.0)
  {
    ParsesZero();
  }

  lemma {:induction false} ParsesZero()
    ensures ParseFloat(Str("0")) == Num(0.0)
  {
    var s := "0";
    assert !IsSpace('0');
    assert TrimStart(s) == s;
    assert DigitRun(s, 1) == 0;
    assert DigitRun(s, 0) == 1;
    assert ShapeOf(s) == Shape(0, 1, false, 0);
    assert s[..1] == s && s[0..1] == s;
    assert DigitsValue(s) == 0 by {
      assert s[..0] == [];
    }
    assert DecimalPrefix(s) == Some(Lexeme(0.0, 1));
  }

  /** The range form's state: initially [0, 30]. */
  datatype RangeForm = RangeForm(min: real, max: real)

  const InitialRange: RangeForm := RangeForm(0.0, 30.0)

  function OnMinChange(form: RangeForm, text: string): RangeForm {
    form.(min := MinInput(text))
  }

  function OnMaxChange(form: RangeForm, text: string): RangeForm {
    form.(max := MaxInput(text))
  }

  /** With the intended fallback, typing two entries and searching requests
      exactly the typed range when both parse and form a valid range, with an
      unparseable minimum read as 0 and an unparseable maximum as 30; any
      other range is refused. */
  lemma {:induction false} TypedRangeIsQueried(lo: string, hi: string)
    ensures var a := if ParseFloat(Str(lo)).Num? then ParseFloat(Str(lo)).v else 0.0;
      var b := if ParseFloat(Str(hi)).Num? then ParseFloat(Str(hi)).v else 30.0;
      var form := OnMaxChange(OnMinChange(InitialRange, lo), hi);
      HandleScoreRangeSearch(form.min, form.max) ==
        (if 0.0 <= a <= b <= 30.0 then RangeQuery(a, b) else RangeRejected(RangeMessage))
  {
  }

  // -------------------------------------------------------------- council query

  const CouncilMessage: string := "Vui lòng nhập mã hội đồng"

  datatype CouncilOutcome = CouncilRejected(message: string) | CouncilQuery(code: string)

  /** `handleCouncilSearch`: a blank code is refused with an error and no
      request; otherwise the request carries the code without surrounding
      whitespace, which is non-empty. */
  function HandleCouncilSearch(code: string): (r: CouncilOutcome)
    ensures r.CouncilRejected? <==> Blank(code)
    ensures r.CouncilRejected? ==> r.message == CouncilMessage
    ensures r.CouncilQuery? ==> r.code == Trim(code) && r.code != [] && Trimmed(r.code)
  {
    TrimBlank(code);
    if Trim(code) == [] then CouncilRejected(CouncilMessage) else CouncilQuery(Trim(code))
  }

  /** The council button's `disabled={loading || !councilCode.trim()}`. */
  function CouncilSearchDisabled(loading: bool, code: string): bool {
    loading || Trim(code) == []
  }

  /** When nothing is loading, the button is enabled exactly when the search would send a request. */
  lemma {:induction false} CouncilButtonMatchesGuard(code: string)
    ensures !CouncilSearchDisabled(false, code) <==> HandleCouncilSearch(code).CouncilQuery?
  {
  }

  // ------------------------------------------------------------- distribution

  /** This page's `calculateDistribution`: the same cascade, but on the raw
      `tong_diem`, so each comparison `score >= t` coerces it with `Number`
      instead of `parseFloat`; the cascade of `CountTotals` runs on the coerced
      totals. Counts still add up to the number of students. */
  method CalculateDistribution(students: seq<Student>) returns (distribution: Counts)
    ensures distribution == Tally(CoercedTotals(students))
    ensures distribution.Total() == |students|
    ensures forall b :: distribution.Get(b) == CountBand(CoercedTotals(students), b)
  {
    distribution := CountTotals(CoercedTotals(students));
  }

  /** A total on which `Number` and `parseFloat` cannot disagree about the band:
      anything but a string, or a string whose trimmed text is either no literal
      at all or exactly one literal. */
  predicate Clean(v: JsValue) {
    v.Str? ==> DecimalPrefix(Trim(v.s)).None? || FullLiteral(Trim(v.s))
  }

  /** On a clean total the raw comparison and the parsed one choose the same band. */
  lemma {:induction false} CoercionKeepsBand(v: JsValue)
    requires Clean(v)
    ensures Classify(ToNumber(v)) == Classify(ParseFloat(v))
  {
    if v.Str? {
      ParseFloatReadsTrimmed(v.s);
    }
  }

  /** When every total is clean (in particular when every total is a JSON number),
      this page's distribution equals the one of the two components. */
  lemma {:induction false} StatisticsCopyAgrees(students: seq<Student>)
    requires forall i :: 0 <= i < |students| ==> Clean(students[i].tongDiem)
    ensures Tally(CoercedTotals(students)) == Tally(ParsedTotals(students))
  {
    var xs, ys := CoercedTotals(students), ParsedTotals(students);
    forall i | 0 <= i < |xs| ensures Classify(xs[i]) == Classify(ys[i]) {
      CoercionKeepsBand(students[i].tongDiem);
    }
    TallySameBands(xs, ys);
  }

  /** A total with text after the number ("25a") separates the copies: `parseFloat`
      reads 25 and counts the student as Giỏi, the raw comparison sees NaN and
      counts the student as Yếu. */
  lemma {:induction false} StatisticsCopyDiverges(st: Student)
    requires st.tongDiem == Str("25a")
    ensures Tally(ParsedTotals([st])).gioi == 1
    ensures Tally(CoercedTotals([st])).gioi == 0
    ensures Tally(CoercedTotals([st])).yeu == 1
  {
    TotalsOfOne(st);
    Parses25a();
    TallySingle(ParseFloat(st.tongDiem));
    TallySingle(ToNumber(st.tongDiem));
  }

  lemma {:induction false} TotalsOfOne(st: Student)
    ensures ParsedTotals([st]) == [ParseFloat(st.tongDiem)]
    ensures CoercedTotals([st]) == [ToNumber(st.tongDiem)]
  {
  }

  lemma {:induction false} Parses25a()
    ensures ParseFloat(Str("25a")) == Num(25.0)
    ensures ToNumber(Str("25a")) == NaN
  {
    var s := "25a";
    assert !IsSpace('2') && !IsSpace('a');
    assert TrimStart(s) == s;
    assert TrimEnd(s) == s;
    assert Trim(s) == s;
    assert DigitRun(s, 2) == 0;
    assert DigitRun(s, 1) == 1;
    assert DigitRun(s, 0) == 2;
    assert ShapeOf(s) == Shape(0, 2, false, 0);
    assert s[..2] == "25" && "25"[0..2] == "25";
    assert DigitsValue("25") == 25 by {
      assert "25"[..1] == "2";
      assert "2"[..0] == [];
    }
    assert DecimalPrefix(s) == Some(Lexeme(25.0, 2));
  }

  // ------------------------------------------------------------------ preview

  /** The number of student cards shown under each result. */
  const PreviewSize: nat := 12

  /** The cards shown, and the count in the "Và N thí sinh khác..." line if it is shown. */
  datatype Preview<T> = Preview(shown: seq<T>, others: Option<nat>)

  /** `students.slice(0, 12)` plus the "N others" line when there are more than 12:
      the first min(n, 12) records in order, and shown + others = n. */
  function StudentPreview<T>(students: seq<T>): (r: Preview<T>)
    ensures |r.shown| == if |students| < PreviewSize then |students| else PreviewSize
    ensures r.shown == students[..|r.shown|]
    ensures r.others.Some? <==> |students| > PreviewSize
    ensures |r.shown| + (if r.others.Some? then r.others.value else 0) == |students|
  {
    var shown := if |students| < PreviewSize then students else students[..PreviewSize];
    Preview(shown, if |students| > PreviewSize then Some(|students| - PreviewSize) else None)
  }
}
