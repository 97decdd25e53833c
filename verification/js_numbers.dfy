/** The two ways the views turn a record field into a number: `parseFloat(x)`
    (StudentCard, ScoreRangeStats, CouncilStats, TopScores) and the implicit
    `Number(x)` coercion of a relational comparison such as `x >= 25`
    (Statistics). Strings are read with the decimal-literal grammar
    `[+-]? digits? ('.' digits?)?` holding at least one digit. */
module JsNumbers {
  import opened JsValues
  import opened JsStrings

  predicate IsDigit(c: char) {
    '0' <= c <= '9'
  }

  function DigitValue(c: char): nat {
    if IsDigit(c) then c as int - '0' as int else 0
  }

  /** The number of consecutive digits of `s` starting at index `i`. */
  function DigitRun(s: string, i: nat): (n: nat)
    requires i <= |s|
    ensures i + n <= |s|
    ensures i + n == |s| || !IsDigit(s[i + n])
    decreases |s| - i
  {
    if i < |s| && IsDigit(s[i]) then 1 + DigitRun(s, i + 1) else 0
  }

  /** The run `DigitRun` measures is all digits. */
  lemma {:induction false} DigitRunDigits(s: string, i: nat)
    requires i <= |s|
    ensures forall k :: i <= k < i + DigitRun(s, i) ==> IsDigit(s[k])
    decreases |s| - i
  {
    if i < |s| && IsDigit(s[i]) {
      DigitRunDigits(s, i + 1);
    }
  }

  /** The natural number written by the decimal digits `ds`. */
  function DigitsValue(ds: string): nat
    decreases |ds|
  {
    if ds == [] then 0 else 10 * DigitsValue(ds[..|ds| - 1]) + DigitValue(ds[|ds| - 1])
  }

  function Pow10(k: nat): (p: nat)
    ensures p >= 1
  {
    if k == 0 then 1 else 10 * Pow10(k - 1)
  }

  /** `t` without a leading `+` or `-`. */
  function Unsigned(t: string): string {
    if |t| > 0 && (t[0] == '+' || t[0] == '-') then t[1..] else t
  }

  /** `t` is a decimal literal: an optional sign, then digits and at most one
      decimal point, with at least one digit. */
  predicate IsLiteral(t: string) {
    var body := Unsigned(t);
    && (forall i :: 0 <= i < |body| ==> IsDigit(body[i]) || body[i] == '.')
    && (forall i, j :: 0 <= i < j < |body| && body[i] == '.' ==> body[j] != '.')
    && (exists i :: 0 <= i < |body| && IsDigit(body[i]))
  }

  /** A decimal literal found at the start of a string: its value and its length. */
  datatype Lexeme = Lexeme(value: real, length: nat)

  /** How the start of a string splits up: `sign` characters of sign, `whole`
      digits, an optional decimal point, then `frac` digits. */
  datatype Shape = Shape(sign: nat, whole: nat, dot: bool, frac: nat) {
    function Length(): nat {
      if dot then sign + whole + 1 + frac else sign + whole
    }
  }

  /** The shape of the longest run at the start of `s` that the literal grammar can read. */
  function ShapeOf(s: string): (sh: Shape)
    ensures sh.Length() <= |s|
  {
    var p := if |s| > 0 && (s[0] == '+' || s[0] == '-') then 1 else 0;
    var a := DigitRun(s, p);
    var dot := p + a < |s| && s[p + a] == '.';
    var b := if dot then DigitRun(s, p + a + 1) else 0;
    Shape(p, a, dot, b)
  }

  /** The value of a literal `u` whose shape is `sh`. */
  function ShapeValue(u: string, sh: Shape): real
    requires sh.Length() == |u|
  {
    var p := sh.sign;
    var whole := DigitsValue(u[p..p + sh.whole]);
    var frac := if sh.dot then DigitsValue(u[p + sh.whole + 1..]) else 0;
    var magnitude := whole as real + frac as real / Pow10(sh.frac) as real;
    if p == 1 && u[0] == '-' then -magnitude else magnitude
  }

  /** The longest decimal literal at the start of `s`, if `s` starts with one. */
  function DecimalPrefix(s: string): (r: Option<Lexeme>)
    ensures r.Some? ==> 0 < r.value.length <= |s|
  {
    var sh := ShapeOf(s);
    if sh.whole + sh.frac == 0 then None
    else Some(Lexeme(ShapeValue(s[..sh.Length()], sh), sh.Length()))
  }

  /** The prefix `DecimalPrefix` recognises is a decimal literal, and the
      character after it (if any) would not extend it to a longer one. */
  lemma {:induction false} DecimalPrefixLongest(s: string)
    ensures var r := DecimalPrefix(s);
      && (r.Some? ==> IsLiteral(s[..r.value.length]))
      && (r.Some? && r.value.length < |s| ==> !IsLiteral(s[..r.value.length + 1]))
  {
    if ShapeOf(s).whole + ShapeOf(s).frac > 0 {
      LiteralShape(s);
    }
  }

  /** `DecimalPrefix` recognises nothing only when no prefix of `s` is a decimal literal. */
  lemma {:induction false} DecimalPrefixNone(s: string)
    ensures DecimalPrefix(s).None? ==> forall n :: 0 < n <= |s| ==> !IsLiteral(s[..n])
  {
    if ShapeOf(s).whole + ShapeOf(s).frac == 0 {
      forall n | 0 < n <= |s| ensures !IsLiteral(s[..n]) {
        NoLiteralPrefix(s, n);
      }
    }
  }

  /** When the shape at the start of `s` holds no digit, no prefix of `s` is a literal. */
  lemma {:induction false} NoLiteralPrefix(s: string, n: nat)
    requires ShapeOf(s).whole + ShapeOf(s).frac == 0
    requires 0 < n <= |s|
    ensures !IsLiteral(s[..n])
  {
    var p := ShapeOf(s).sign;
    ShapeBody(s, n);
    if p < n {
      var body := s[p..n];
      assert body[0] == s[p] && !IsDigit(body[0]);
      if body[0] == '.' && |body| > 1 {
        assert body[1] == s[p + 1] && !IsDigit(body[1]);
      }
    }
  }

  /** The prefix `DecimalPrefix` recognises is a literal that cannot be extended by one character. */
  lemma {:induction false} LiteralShape(s: string)
    requires ShapeOf(s).whole + ShapeOf(s).frac > 0
    ensures 0 < ShapeOf(s).Length() <= |s|
    ensures IsLiteral(s[..ShapeOf(s).Length()])
    ensures ShapeOf(s).Length() < |s| ==> !IsLiteral(s[..ShapeOf(s).Length() + 1])
  {
    var sh := ShapeOf(s);
    ShapeBody(s, sh.Length());
    ShapeIsLiteral(s);
    if sh.Length() < |s| {
      ShapeBody(s, sh.Length() + 1);
      ShapeNotExtendable(s);
    }
  }

  /** Cutting `s` after its sign leaves the body the literal grammar reads. */
  lemma {:induction false} ShapeBody(s: string, n: nat)
    requires ShapeOf(s).sign <= n <= |s|
    ensures Unsigned(s[..n]) == s[ShapeOf(s).sign..n]
  {
  }

  lemma {:induction false} ShapeIsLiteral(s: string)
    requires ShapeOf(s).whole + ShapeOf(s).frac > 0
    requires Unsigned(s[..ShapeOf(s).Length()]) == s[ShapeOf(s).sign..ShapeOf(s).Length()]
    ensures IsLiteral(s[..ShapeOf(s).Length()])
  {
    var sh := ShapeOf(s);
    var p, a, len := sh.sign, sh.whole, sh.Length();
    var body := s[p..len];
    ShapeChars(s);
    forall i | 0 <= i < |body| ensures IsDigit(body[i]) || body[i] == '.' {
      assert body[i] == s[p + i];
    }
    ShapeOneDot(s);
    forall i, j | 0 <= i < j < |body| && body[i] == '.' ensures body[j] != '.' {
      assert body[i] == s[p + i];
      assert body[j] == s[p + j];
    }
    if a > 0 {
      assert IsDigit(body[0]) by { assert body[0] == s[p]; }
    } else {
      assert IsDigit(body[1]) by { assert body[1] == s[p + 1]; }
    }
  }

  /** After the sign, the run `ShapeOf` measures holds only digits and points. */
  lemma {:induction false} ShapeChars(s: string)
    ensures forall i :: ShapeOf(s).sign <= i < ShapeOf(s).Length() ==> IsDigit(s[i]) || s[i] == '.'
  {
    var sh := ShapeOf(s);
    DigitRunDigits(s, sh.sign);
    if sh.dot {
      DigitRunDigits(s, sh.sign + sh.whole + 1);
    }
  }

  /** The run `ShapeOf` measures holds at most one decimal point. */
  lemma {:induction false} ShapeOneDot(s: string)
    ensures forall i, j :: ShapeOf(s).sign <= i < j < ShapeOf(s).Length() && s[i] == '.' ==> s[j] != '.'
  {
    var sh := ShapeOf(s);
    DigitRunDigits(s, sh.sign);
    if sh.dot {
      DigitRunDigits(s, sh.sign + sh.whole + 1);
    }
  }

  lemma {:induction false} ShapeNotExtendable(s: string)
    requires ShapeOf(s).whole + ShapeOf(s).frac > 0
    requires ShapeOf(s).Length() < |s|
    requires Unsigned(s[..ShapeOf(s).Length() + 1]) == s[ShapeOf(s).sign..ShapeOf(s).Length() + 1]
    ensures !IsLiteral(s[..ShapeOf(s).Length() + 1])
  {
    var sh := ShapeOf(s);
    var p, a, len := sh.sign, sh.whole, sh.Length();
    var body' := s[p..len + 1];
    assert body'[|body'| - 1] == s[len];
    assert !IsDigit(s[len]);
    if sh.dot {
      assert body'[a] == s[p + a];
      if s[len] == '.' {
        assert body'[a] == '.' && body'[|body'| - 1] == '.' && a < |body'| - 1;
      }
    }
  }

  /** `parseFloat(v)`: leading whitespace is skipped and the longest decimal
      literal at the start is read; anything else gives NaN. */
  function ParseFloat(v: JsValue): Score {
    match v
    case Number(n) => n
    case Str(s) =>
      (match DecimalPrefix(TrimStart(s))
       case Some(l) => Num(l.value)
       case None => NaN)
    case _ => NaN
  }

  /** The whole of `t` is one decimal literal. */
  predicate FullLiteral(t: string) {
    DecimalPrefix(t).Some? && DecimalPrefix(t).value.length == |t|
  }

  /** `Number(v)`, the coercion a relational comparison applies: `null` is 0,
      booleans are 0 or 1, a blank string is 0, a string is a number only when
      its trimmed text is entirely a literal. */
  function ToNumber(v: JsValue): Score {
    match v
    case Undefined => NaN
    case Null => Num(0.0)
    case Bool(b) => if b then Num(1.0) else Num(0.0)
    case Number(n) => n
    case Str(s) =>
      var t := Trim(s);
      if t == [] then Num(0.0)
      else if FullLiteral(t) then Num(DecimalPrefix(t).value.value)
      else NaN
  }

  /** Whitespace is not a digit, so a run of digits stops where trailing whitespace begins. */
  lemma {:induction false} DigitRunIgnoresSuffix(t: string, w: string, i: nat)
    requires i <= |t|
    requires w == [] || IsSpace(w[0])
    ensures DigitRun(t + w, i) == DigitRun(t, i)
    decreases |t| - i
  {
    if i < |t| {
      assert (t + w)[i] == t[i];
      if IsDigit(t[i]) {
        DigitRunIgnoresSuffix(t, w, i + 1);
      }
    } else if w != [] {
      SpaceIsNotNumeric(w[0]);
      assert (t + w)[i] == w[0];
    }
  }

  /** Whitespace after a string does not change the literal found at its start. */
  lemma {:induction false} DecimalPrefixIgnoresTrailingSpace(t: string, w: string)
    requires w == [] || IsSpace(w[0])
    ensures DecimalPrefix(t + w) == DecimalPrefix(t)
  {
    ShapeIgnoresTrailingSpace(t, w);
    var n := ShapeOf(t).Length();
    assert (t + w)[..n] == t[..n];
  }

  lemma {:induction false} ShapeIgnoresTrailingSpace(t: string, w: string)
    requires w == [] || IsSpace(w[0])
    ensures ShapeOf(t + w) == ShapeOf(t)
  {
    var p := SignIgnoresSuffix(t, w);
    var a := DigitRun(t, p);
    DigitRunIgnoresSuffix(t, w, p);
    var dot := DotIgnoresSuffix(t, w, p + a);
    var b := if dot then DigitRun(t, p + a + 1) else 0;
    if dot {
      DigitRunIgnoresSuffix(t, w, p + a + 1);
    }
    ShapeIs(t, p, a, dot, b);
    ShapeIs(t + w, p, a, dot, b);
  }

  /** Trailing whitespace does not change whether a string starts with a sign. */
  lemma {:induction false} SignIgnoresSuffix(t: string, w: string) returns (p: nat)
    requires w == [] || IsSpace(w[0])
    ensures p <= |t|
    ensures p == (if |t| > 0 && (t[0] == '+' || t[0] == '-') then 1 else 0)
    ensures p == (if |t + w| > 0 && ((t + w)[0] == '+' || (t + w)[0] == '-') then 1 else 0)
  {
    p := if |t| > 0 && (t[0] == '+' || t[0] == '-') then 1 else 0;
    SuffixHidesChar(t, w, 0, '+');
    SuffixHidesChar(t, w, 0, '-');
  }

  /** Trailing whitespace does not add a decimal point at index `i` of `t`. */
  lemma {:induction false} DotIgnoresSuffix(t: string, w: string, i: nat) returns (dot: bool)
    requires w == [] || IsSpace(w[0])
    requires i <= |t|
    ensures dot == (i < |t| && t[i] == '.')
    ensures dot == (i < |t + w| && (t + w)[i] == '.')
  {
    dot := i < |t| && t[i] == '.';
    SuffixHidesChar(t, w, i, '.');
  }

  /** `ShapeOf` spelled out part by part. */
  lemma {:induction false} ShapeIs(s: string, p: nat, a: nat, dot: bool, b: nat)
    requires p == (if |s| > 0 && (s[0] == '+' || s[0] == '-') then 1 else 0)
    requires a == DigitRun(s, p)
    requires dot == (p + a < |s| && s[p + a] == '.')
    requires b == (if dot then DigitRun(s, p + a + 1) else 0)
    ensures ShapeOf(s) == Shape(p, a, dot, b)
  {
  }

  /** Up to the end of `t`, appending text that starts with whitespace adds no
      occurrence of a non-space character `c`. */
  lemma {:induction false} SuffixHidesChar(t: string, w: string, i: nat, c: char)
    requires w == [] || IsSpace(w[0])
    requires !IsSpace(c) && i <= |t|
    ensures (i < |t + w| && (t + w)[i] == c) == (i < |t| && t[i] == c)
  {
    if i < |t| {
      assert (t + w)[i] == t[i];
    } else if w != [] {
      SpaceIsNotNumeric(w[0]);
      assert (t + w)[i] == w[0];
    }
  }

  /** No whitespace character can take part in a decimal literal. */
  lemma {:induction false} SpaceIsNotNumeric(c: char)
    requires IsSpace(c)
    ensures !IsDigit(c) && c != '.' && c != '+' && c != '-'
  {
  }

  /** `parseFloat` of a string reads the literal at the start of its trimmed text. */
  lemma {:induction false} ParseFloatReadsTrimmed(s: string)
    ensures ParseFloat(Str(s)) ==
      (match DecimalPrefix(Trim(s))
       case Some(l) => Num(l.value)
       case None => NaN)
  {
    TrimStartPrefix(s);
  }

  lemma {:induction false} TrimStartPrefix(s: string)
    ensures DecimalPrefix(TrimStart(s)) == DecimalPrefix(Trim(s))
  {
    TrimStartExtendsTrim(s);
    var t := TrimStart(s);
    var r := Trim(s);
    var w := t[|r|..];
    assert w != [] ==> IsSpace(w[0]);
    DecimalPrefixIgnoresTrailingSpace(r, w);
    assert r + w == t;
  }

  /** On a number, or on a string whose trimmed text is exactly one decimal
      literal, `parseFloat` and `Number` give the same number. */
  lemma {:induction false} ParseFloatAgreesWithNumber(v: JsValue)
    requires v.Number? || (v.Str? && FullLiteral(Trim(v.s)))
    ensures ParseFloat(v) == ToNumber(v)
    ensures v.Str? ==> ParseFloat(v).Num?
  {
    if v.Str? {
      ParseFloatReadsTrimmed(v.s);
    }
  }
}
