/** `String.prototype.trim` and the whitespace class shared by `trim`, `parseFloat`
    and the regular-expression escape `\s`; `Array.prototype.join` and
    `String.prototype.split` with a one-character separator. */
module JsStrings {

  /** ECMAScript WhiteSpace and LineTerminator code points: the characters that
      `trim` removes and that `\s` matches. */
  predicate IsSpace(c: char) {
    c in SpaceChars
  }

  const SpaceChars: set<char> := {
    '\t', '\n', '\U{000B}', '\U{000C}', '\r', ' ', '\U{00A0}', '\U{1680}',
    '\U{2000}', '\U{2001}', '\U{2002}', '\U{2003}', '\U{2004}', '\U{2005}',
    '\U{2006}', '\U{2007}', '\U{2008}', '\U{2009}', '\U{200A}',
    '\U{2028}', '\U{2029}', '\U{202F}', '\U{205F}', '\U{3000}', '\U{FEFF}'
  }

  /** Every character of `s` is whitespace (so `s.trim()` is the empty, falsy string). */
  predicate Blank(s: string) {
    forall i :: 0 <= i < |s| ==> IsSpace(s[i])
  }

  /** Neither end of `s` is whitespace. */
  predicate Trimmed(s: string) {
    s == [] || (!IsSpace(s[0]) && !IsSpace(s[|s| - 1]))
  }

  /** The number of whitespace characters at the start of `s`. */
  function LeadingSpace(s: string): (n: nat)
    ensures n <= |s|
    ensures n == |s| || !IsSpace(s[n])
    decreases |s|
  {
    if s != [] && IsSpace(s[0]) then 1 + LeadingSpace(s[1..]) else 0
  }

  /** The number of whitespace characters at the end of `s`. */
  function TrailingSpace(s: string): (n: nat)
    ensures n <= |s|
    ensures n == |s| || !IsSpace(s[|s| - 1 - n])
    decreases |s|
  {
    if s != [] && IsSpace(s[|s| - 1]) then
      var p := s[..|s| - 1];
      var n := 1 + TrailingSpace(p);
      assert n < |s| ==> s[|s| - 1 - n] == p[|p| - 1 - (n - 1)];
      n
    else 0
  }

  /** `s` with its leading whitespace removed: empty or starting with a non-space. */
  function TrimStart(s: string): (r: string)
    ensures r == [] || !IsSpace(r[0])
  {
    s[LeadingSpace(s)..]
  }

  /** `TrimStart` drops whitespace only. */
  lemma {:induction false} TrimStartDropsSpace(s: string)
    ensures forall i :: 0 <= i < |s| - |TrimStart(s)| ==> IsSpace(s[i])
    decreases |s|
  {
    if s != [] && IsSpace(s[0]) {
      TrimStartDropsSpace(s[1..]);
      forall i | 0 <= i < LeadingSpace(s) ensures IsSpace(s[i]) {
        if i > 0 {
          assert s[i] == s[1..][i - 1];
        }
      }
    }
  }

  /** `s` with its trailing whitespace removed: empty or ending with a non-space. */
  function TrimEnd(s: string): (r: string)
    ensures r == [] || !IsSpace(r[|r| - 1])
  {
    s[..|s| - TrailingSpace(s)]
  }

  /** `TrimEnd` drops whitespace only. */
  lemma {:induction false} TrimEndDropsSpace(s: string)
    ensures forall i :: |TrimEnd(s)| <= i < |s| ==> IsSpace(s[i])
    decreases |s|
  {
    if s != [] && IsSpace(s[|s| - 1]) {
      var p := s[..|s| - 1];
      TrimEndDropsSpace(p);
      forall i | |s| - TrailingSpace(s) <= i < |s| ensures IsSpace(s[i]) {
        if i < |s| - 1 {
          assert s[i] == p[i];
        }
      }
    }
  }

  /** `s.trim()`: `s` without the whitespace at either end, so it neither starts nor ends with a space. */
  function Trim(s: string): (r: string)
    ensures |r| <= |s|
    ensures Trimmed(r)
  {
    var t := TrimStart(s);
    var r := TrimEnd(t);
    assert r != [] ==> r[0] == t[0];
    r
  }

  /** Only blank strings trim to nothing. */
  lemma {:induction false} TrimBlank(s: string)
    ensures Trim(s) == [] <==> Blank(s)
  {
    var t := TrimStart(s);
    var k := |s| - |t|;
    TrimStartDropsSpace(s);
    if t != [] {
      assert t[0] == s[k];
      TrimEndDropsSpace(t);
    }
  }

  /** `s.trim()` is a contiguous slice of `s`, and everything outside it is whitespace. */
  lemma {:induction false} TrimSlice(s: string)
    ensures var k := |s| - |TrimStart(s)|;
      && k + |Trim(s)| <= |s|
      && Trim(s) == s[k..k + |Trim(s)|]
      && (forall i :: 0 <= i < k ==> IsSpace(s[i]))
      && (forall i :: k + |Trim(s)| <= i < |s| ==> IsSpace(s[i]))
  {
    TrimParts(s, TrimStart(s), Trim(s));
  }

  lemma {:induction false} TrimParts(s: string, t: string, r: string)
    requires t == TrimStart(s) && r == TrimEnd(t)
    ensures var k := |s| - |t|;
      && k + |r| <= |s|
      && r == s[k..k + |r|]
      && (forall i :: 0 <= i < k ==> IsSpace(s[i]))
      && (forall i :: k + |r| <= i < |s| ==> IsSpace(s[i]))
  {
    TrimStartDropsSpace(s);
    TrimEndDropsSpace(t);
    InnerSlice(s, t, r);
  }

  /** A prefix `r` of a suffix `t` of `s` is a slice of `s`; whitespace cut off
      `s` to get `t`, and off `t` to get `r`, is whitespace around that slice. */
  lemma {:induction false} InnerSlice(s: string, t: string, r: string)
    requires |t| <= |s| && t == s[|s| - |t|..]
    requires |r| <= |t| && r == t[..|r|]
    requires forall i :: 0 <= i < |s| - |t| ==> IsSpace(s[i])
    requires forall i :: |r| <= i < |t| ==> IsSpace(t[i])
    ensures var k := |s| - |t|;
      && k + |r| <= |s|
      && r == s[k..k + |r|]
      && (forall i :: k + |r| <= i < |s| ==> IsSpace(s[i]))
  {
    var k := |s| - |t|;
    forall i | k + |r| <= i < |s| ensures IsSpace(s[i]) {
      assert s[i] == t[i - k];
    }
  }

  /** Trimming a string with no whitespace at either end changes nothing. */
  lemma {:induction false} TrimTrimmed(s: string)
    requires Trimmed(s)
    ensures Trim(s) == s
  {
    assert TrimStart(s) == s;
    assert TrimEnd(s) == s;
  }

  /** `trim` is idempotent. */
  lemma {:induction false} TrimIdempotent(s: string)
    ensures Trim(Trim(s)) == Trim(s)
  {
    TrimTrimmed(Trim(s));
  }

  /** What `trimStart` keeps is what `trim` keeps followed by whitespace only. */
  lemma {:induction false} TrimStartExtendsTrim(s: string)
    ensures |Trim(s)| <= |TrimStart(s)|
    ensures TrimStart(s) == Trim(s) + TrimStart(s)[|Trim(s)|..]
    ensures Blank(TrimStart(s)[|Trim(s)|..])
  {
    var t := TrimStart(s);
    var r := TrimEnd(t);
    TrimEndDropsSpace(t);
    assert r == t[..|r|];
    assert t == r + t[|r|..];
    var w := t[|r|..];
    forall i | 0 <= i < |w| ensures IsSpace(w[i]) {
      assert w[i] == t[|r| + i];
    }
  }

  // ------------------------------------------------- join and split on a character

  /** `xs.join(sep)`: the strings with one `sep` between neighbours; `[].join(sep)` is empty. */
  function Join(xs: seq<string>, sep: char): string
    decreases |xs|
  {
    if xs == [] then []
    else if |xs| == 1 then xs[0]
    else xs[0] + [sep] + Join(xs[1..], sep)
  }

  /** The index of the first `c` in `s`, or `|s|` when `s` has none. */
  function Find(s: string, c: char): (k: nat)
    ensures k <= |s|
    ensures forall i :: 0 <= i < k ==> s[i] != c
    ensures k < |s| ==> s[k] == c
  {
    if s == [] || s[0] == c then 0 else 1 + Find(s[1..], c)
  }

  /** `s.split(sep)`: the pieces between the occurrences of `sep`, at least one
      piece (`"".split(sep)` is `[""]`), none holding `sep`. */
  function Split(s: string, sep: char): (parts: seq<string>)
    ensures |parts| >= 1
    ensures forall k :: 0 <= k < |parts| ==> sep !in parts[k]
    decreases |s|
  {
    var k := Find(s, sep);
    if k == |s| then [s] else [s[..k]] + Split(s[k + 1..], sep)
  }

  /** How many times `c` occurs in `s`. */
  function Occurrences(s: string, c: char): nat {
    if s == [] then 0 else (if s[0] == c then 1 else 0) + Occurrences(s[1..], c)
  }

  /** Total occurrences of `c` over all of `xs`. */
  function OccurrencesIn(xs: seq<string>, c: char): nat {
    if xs == [] then 0 else Occurrences(xs[0], c) + OccurrencesIn(xs[1..], c)
  }

  lemma {:induction false} OccurrencesConcat(a: string, b: string, c: char)
    ensures Occurrences(a + b, c) == Occurrences(a, c) + Occurrences(b, c)
    decreases |a|
  {
    if a == [] {
      assert a + b == b;
    } else {
      assert (a + b)[0] == a[0];
      assert (a + b)[1..] == a[1..] + b;
      OccurrencesConcat(a[1..], b, c);
    }
  }

  /** Splitting on `c` gives one more piece than `s` has occurrences of `c`. */
  lemma {:induction false} SplitCount(s: string, c: char)
    ensures |Split(s, c)| == Occurrences(s, c) + 1
    decreases |s|
  {
    var k := Find(s, c);
    OccurrencesBefore(s, c, k);
    if k < |s| {
      var rest := s[k + 1..];
      SplitCount(rest, c);
      assert s == s[..k] + ([c] + rest);
      OccurrencesConcat(s[..k], [c] + rest, c);
      assert ([c] + rest)[1..] == rest;
    } else {
      assert s[..k] == s;
    }
  }

  /** No `c` occurs before the first one. */
  lemma {:induction false} OccurrencesBefore(s: string, c: char, k: nat)
    requires k <= |s|
    requires forall i :: 0 <= i < k ==> s[i] != c
    ensures Occurrences(s[..k], c) == 0
    decreases k
  {
    if k > 0 {
      assert s[..k][1..] == s[1..][..k - 1];
      OccurrencesBefore(s[1..], c, k - 1);
    }
  }

  /** A string holding `c` has at least one occurrence of it. */
  lemma {:induction false} OccurrencesPositive(s: string, c: char)
    requires c in s
    ensures Occurrences(s, c) > 0
    decreases |s|
  {
    if s[0] != c {
      assert c in s[1..] by {
        var i :| 0 <= i < |s| && s[i] == c;
        assert s[1..][i - 1] == c;
      }
      OccurrencesPositive(s[1..], c);
    }
  }

  /** Joining puts one separator between each pair of neighbours. */
  lemma {:induction false} JoinOccurrences(xs: seq<string>, c: char)
    requires xs != []
    ensures Occurrences(Join(xs, c), c) == |xs| - 1 + OccurrencesIn(xs, c)
    decreases |xs|
  {
    if |xs| > 1 {
      JoinOccurrences(xs[1..], c);
      OccurrencesConcat(xs[0] + [c], Join(xs[1..], c), c);
      OccurrencesConcat(xs[0], [c], c);
      assert OccurrencesIn(xs[1..], c) == 0 + OccurrencesIn(xs[1..], c);
    }
  }

  /** Splitting undoes joining when no piece contains the separator and there is at least one piece. */
  lemma {:induction false} SplitJoin(xs: seq<string>, c: char)
    requires xs != []
    requires forall k :: 0 <= k < |xs| ==> c !in xs[k]
    ensures Split(Join(xs, c), c) == xs
    decreases |xs|
  {
    var s := Join(xs, c);
    var w := xs[0];
    assert forall i :: 0 <= i < |w| ==> w[i] != c;
    if |xs| == 1 {
      FindAt(s, c, |s|);
    } else {
      var rest := Join(xs[1..], c);
      SplitJoin(xs[1..], c);
      assert s == w + [c] + rest;
      assert forall i :: 0 <= i < |w| ==> s[i] == w[i];
      assert s[|w|] == c;
      FindAt(s, c, |w|);
      assert s[..|w|] == w;
      assert s[|w| + 1..] == rest;
      assert xs == [w] + xs[1..];
    }
  }

  /** `Find` stops at the first `c`, and at the end when there is none. */
  lemma {:induction false} FindAt(s: string, c: char, k: nat)
    requires k <= |s|
    requires forall i :: 0 <= i < k ==> s[i] != c
    requires k == |s| || s[k] == c
    ensures Find(s, c) == k
  {
  }

  /** A piece that holds the separator makes the split text come back with more pieces. */
  lemma {:induction false} SplitJoinGrows(xs: seq<string>, c: char, k: nat)
    requires k < |xs| && c in xs[k]
    ensures |Split(Join(xs, c), c)| > |xs|
  {
    SplitCount(Join(xs, c), c);
    JoinOccurrences(xs, c);
    OccurrencesInBound(xs, c, k);
    OccurrencesPositive(xs[k], c);
  }

  lemma {:induction false} OccurrencesInBound(xs: seq<string>, c: char, k: nat)
    requires k < |xs|
    ensures Occurrences(xs[k], c) <= OccurrencesIn(xs, c)
    decreases k
  {
    if k > 0 {
      OccurrencesInBound(xs[1..], c, k - 1);
    }
  }
}
