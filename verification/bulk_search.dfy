/** The bulk lookup page (src/pages/BulkSearch.js): the editable list of
    candidate numbers, the paste box that tokenises text into that list, the
    search guard, and the rows of the CSV export. */
module BulkSearch {
  import opened JsValues
  import opened JsStrings
  import opened Students

  // ---------------------------------------------------------- the slot list

  /** `handleInputChange(index, value)`: slot `index` now holds `value`; the
      length and every other slot are unchanged. The handler is bound to a
      rendered slot, so `index` is in range. */
  function EditSlot(list: seq<string>, index: nat, value: string): (r: seq<string>)
    requires index < |list|
    ensures |r| == |list|
    ensures r[index] == value
    ensures forall k :: 0 <= k < |list| && k != index ==> r[k] == list[k]
  {
    list[index := value]
  }

  /** `addInput`: one empty slot is appended after the existing ones. */
  function AddSlot(list: seq<string>): (r: seq<string>)
    ensures |r| == |list| + 1
    ensures r[..|list|] == list && r[|list|] == ""
  {
    list + [""]
  }

  /** `list.filter((_, i) => i !== index)`: every slot but the one at `index`, in order. */
  function WithoutIndex(list: seq<string>, index: nat): (r: seq<string>)
    ensures index < |list| ==> r == list[..index] + list[index + 1..]
    ensures index >= |list| ==> r == list
  {
    if list == [] then []
    else if index == 0 then list[1..]
    else [list[0]] + WithoutIndex(list[1..], index - 1)
  }

  /** `removeInput(index)`: with more than one slot, exactly slot `index` goes
      and the others keep their order; a single slot is never removed, so the
      list never becomes empty. */
  function RemoveSlot(list: seq<string>, index: nat): (r: seq<string>)
    ensures |list| >= 1 ==> |r| >= 1
    ensures |list| > 1 && index < |list| ==> |r| == |list| - 1 && r == list[..index] + list[index + 1..]
    ensures |list| <= 1 ==> r == list
  {
    if |list| > 1 then WithoutIndex(list, index) else list
  }

  // ------------------------------------------------------------ the paste box

  /** The characters of the class `[\n,\s]`. */
  predicate IsSeparator(c: char) {
    c == '\n' || c == ',' || IsSpace(c)
  }

  /** `s` holds no separator. */
  predicate SeparatorFree(s: string) {
    forall i :: 0 <= i < |s| ==> !IsSeparator(s[i])
  }

  /** The length of the separator-free run at the start of `s`. */
  function WordLength(s: string): (n: nat)
    ensures n <= |s|
    ensures n == |s| || IsSeparator(s[n])
  {
    if s == [] || IsSeparator(s[0]) then 0 else 1 + WordLength(s[1..])
  }

  /** The run `WordLength` measures holds no separator. */
  lemma {:induction false} WordLengthWord(s: string)
    ensures SeparatorFree(s[..WordLength(s)])
    decreases |s|
  {
    if s != [] && !IsSeparator(s[0]) {
      WordLengthWord(s[1..]);
      var n := WordLength(s);
      forall i | 0 <= i < n ensures !IsSeparator(s[..n][i]) {
        if i > 0 {
          assert s[..n][i] == s[1..][..n - 1][i - 1];
        }
      }
    }
  }

  /** The length of the run of separators at the start of `s`. */
  function SeparatorLength(s: string): (n: nat)
    ensures n <= |s|
    ensures n == |s| || !IsSeparator(s[n])
  {
    if s != [] && IsSeparator(s[0]) then 1 + SeparatorLength(s[1..]) else 0
  }

  /** The run `SeparatorLength` measures is all separators. */
  lemma {:induction false} SeparatorLengthRun(s: string)
    ensures forall i :: 0 <= i < SeparatorLength(s) ==> IsSeparator(s[i])
    decreases |s|
  {
    if s != [] && IsSeparator(s[0]) {
      SeparatorLengthRun(s[1..]);
      forall i | 0 <= i < SeparatorLength(s) ensures IsSeparator(s[i]) {
        if i > 0 {
          assert s[i] == s[1..][i - 1];
        }
      }
    }
  }

  /** `s.split(/[\n,\s]+/)`: the text between maximal runs of separators. A
      leading or trailing run yields an empty first or last piece, and the
      empty text yields one empty piece. */
  function SplitPieces(s: string): (pieces: seq<string>)
    ensures |pieces| >= 1
    decreases |s|
  {
    if WordLength(s) == |s| then [s]
    else [s[..WordLength(s)]] + SplitPieces(AfterWord(s))
  }

  /** What follows the first word of `s` and the run of separators after it. */
  function AfterWord(s: string): (rest: string)
    requires WordLength(s) < |s|
    ensures |rest| < |s|
  {
    var n := WordLength(s);
    s[n + SeparatorLength(s[n..])..]
  }

  /** No piece of the split holds a separator. */
  lemma {:induction false} SplitPiecesAreWords(s: string)
    ensures forall k :: 0 <= k < |SplitPieces(s)| ==> SeparatorFree(SplitPieces(s)[k])
    decreases |s|
  {
    WordLengthWord(s);
    if s != [] && WordLength(s) == |s| {
      assert s[..|s|] == s;
    } else if s != [] {
      var word, rest := SplitFirst(s);
      SplitPiecesAreWords(rest);
      forall k | 0 <= k < |SplitPieces(s)| ensures SeparatorFree(SplitPieces(s)[k]) {
        if k > 0 {
          assert SplitPieces(s)[k] == SplitPieces(rest)[k - 1];
        }
      }
    }
  }

  /** `list.map(x => x.trim()).filter(x => x)`: the trimmed entries that are not
      empty, in their original order. */
  function Valid(list: seq<string>): (r: seq<string>)
    ensures |r| <= |list|
    ensures forall k :: 0 <= k < |r| ==> r[k] != [] && Trimmed(r[k])
  {
    if list == [] then []
    else (if Trim(list[0]) == [] then [] else [Trim(list[0])]) + Valid(list[1..])
  }

  /** `Valid` works entry by entry: it distributes over concatenation and keeps a
      single entry exactly when that entry is not blank. */
  lemma {:induction false} ValidConcat(a: seq<string>, b: seq<string>)
    ensures Valid(a + b) == Valid(a) + Valid(b)
    decreases |a|
  {
    if a == [] {
      assert a + b == b;
    } else {
      var head := if Trim(a[0]) == [] then [] else [Trim(a[0])];
      assert (a + b)[0] == a[0];
      assert (a + b)[1..] == a[1..] + b;
      ValidConcat(a[1..], b);
      assert Valid(a + b) == head + (Valid(a[1..]) + Valid(b));
      assert Valid(a) == head + Valid(a[1..]);
      AppendAssoc(head, Valid(a[1..]), Valid(b));
    }
  }

  lemma {:induction false} AppendAssoc<T>(a: seq<T>, b: seq<T>, c: seq<T>)
    ensures a + (b + c) == (a + b) + c
  {
  }

  /** Nothing survives exactly when every entry is blank. */
  lemma {:induction false} ValidEmpty(list: seq<string>)
    ensures Valid(list) == [] <==> forall i :: 0 <= i < |list| ==> Trim(list[i]) == []
    decreases |list|
  {
    if list != [] {
      ValidEmpty(list[1..]);
      assert forall i :: 1 <= i < |list| ==> list[i] == list[1..][i - 1];
    }
  }

  lemma {:induction false} ValidSingle(x: string)
    ensures Valid([x]) == (if Blank(x) then [] else [Trim(x)])
  {
    TrimBlank(x);
    assert [x][1..] == [];
  }

  /** `handleTextareaChange(value)`: the entries of the pasted text, or a single
      empty slot when it has none. The list is never empty, each entry is a
      non-empty separator-free word, and `[""]` comes out exactly when the text
      is nothing but separators. */
  function TextareaEntries(value: string): (r: seq<string>)
    ensures |r| >= 1
    ensures r == [""] || forall k :: 0 <= k < |r| ==> r[k] != [] && SeparatorFree(r[k])
    ensures r == [""] <==> forall i :: 0 <= i < |value| ==> IsSeparator(value[i])
  {
    var sbds := Valid(SplitPieces(value));
    SplitPiecesAreWords(value);
    ValidOfWords(SplitPieces(value));
    WordsKeepText(value);
    FlattenEmpty(sbds);
    KeepEmpty(value);
    if |sbds| > 0 then sbds else [""]
  }

  /** The non-empty strings of `xs`, in order. */
  function NonEmpty(xs: seq<string>): (r: seq<string>)
    ensures |r| <= |xs|
    ensures forall k :: 0 <= k < |r| ==> r[k] != [] && r[k] in xs
  {
    if xs == [] then [] else (if xs[0] == [] then [] else [xs[0]]) + NonEmpty(xs[1..])
  }

  /** Separator-free pieces are unchanged by trimming, so `Valid` only drops the empty ones. */
  lemma {:induction false} ValidOfWords(pieces: seq<string>)
    requires forall k :: 0 <= k < |pieces| ==> SeparatorFree(pieces[k])
    ensures Valid(pieces) == NonEmpty(pieces)
    decreases |pieces|
  {
    if pieces != [] {
      ValidOfWords(pieces[1..]);
      NoSpaceTrim(pieces[0]);
    }
  }

  lemma {:induction false} NoSpaceTrim(w: string)
    requires SeparatorFree(w)
    ensures Trim(w) == w
  {
    assert w != [] ==> !IsSeparator(w[0]) && !IsSeparator(w[|w| - 1]);
    TrimTrimmed(w);
  }

  /** The characters of `s` that are not separators, in order. */
  function Keep(s: string): string {
    if s == [] then [] else (if IsSeparator(s[0]) then [] else [s[0]]) + Keep(s[1..])
  }

  /** All the strings of `xs`, one after another. */
  function Flatten(xs: seq<string>): string {
    if xs == [] then [] else xs[0] + Flatten(xs[1..])
  }

  lemma {:induction false} KeepConcat(a: string, b: string)
    ensures Keep(a + b) == Keep(a) + Keep(b)
    decreases |a|
  {
    if a == [] {
      assert a + b == b;
    } else {
      assert (a + b)[0] == a[0];
      assert (a + b)[1..] == a[1..] + b;
      KeepConcat(a[1..], b);
    }
  }

  lemma {:induction false} KeepWord(w: string)
    requires SeparatorFree(w)
    ensures Keep(w) == w
    decreases |w|
  {
    if w != [] {
      KeepWord(w[1..]);
    }
  }

  lemma {:induction false} KeepSeparators(s: string)
    requires forall i :: 0 <= i < |s| ==> IsSeparator(s[i])
    ensures Keep(s) == []
    decreases |s|
  {
    if s != [] {
      KeepSeparators(s[1..]);
    }
  }

  /** The separator-free pieces of the pasted text hold exactly its
      non-separator characters, in order. */
  lemma {:induction false} WordsKeepText(s: string)
    ensures Flatten(NonEmpty(SplitPieces(s))) == Keep(s)
    decreases |s|
  {
    if s != [] {
      var n := WordLength(s);
      if n == |s| {
        WordLengthWord(s);
        assert s[..n] == s;
        KeepWord(s);
        assert [s][1..] == [];
      } else {
        var word, rest := SplitFirst(s);
        KeepFirst(s, word, rest);
        WordsKeepText(rest);
        WordsKeepTextStep(s, word, rest);
      }
    }
  }

  /** Text that is not a single word splits into its first (possibly empty)
      word, then the pieces of what follows the separator run after it. */
  lemma {:induction false} SplitFirst(s: string) returns (word: string, rest: string)
    requires WordLength(s) < |s|
    ensures word == s[..WordLength(s)] && rest == AfterWord(s)
    ensures SplitPieces(s) == [word] + SplitPieces(rest)
  {
    word, rest := s[..WordLength(s)], AfterWord(s);
  }

  /** Keeping the non-separators of such a text keeps the first word, then those of the rest. */
  lemma {:induction false} KeepFirst(s: string, word: string, rest: string)
    requires WordLength(s) < |s|
    requires word == s[..WordLength(s)] && rest == AfterWord(s)
    ensures Keep(s) == word + Keep(rest)
  {
    var n := WordLength(s);
    var m := SeparatorLength(s[n..]);
    WordLengthWord(s);
    SeparatorLengthRun(s[n..]);
    assert forall i :: n <= i < n + m ==> s[i] == s[n..][i - n];
    KeepStep(s, n, m);
  }

  /** One step of `WordsKeepText`: the first word, then the pieces of the text after the separator run. */
  lemma {:induction false} WordsKeepTextStep(s: string, word: string, rest: string)
    requires SplitPieces(s) == [word] + SplitPieces(rest)
    requires Keep(s) == word + Keep(rest)
    requires Flatten(NonEmpty(SplitPieces(rest))) == Keep(rest)
    ensures Flatten(NonEmpty(SplitPieces(s))) == Keep(s)
  {
    FlattenNonEmptyCons(word, SplitPieces(rest));
  }

  lemma {:induction false} FlattenNonEmptyCons(x: string, xs: seq<string>)
    ensures Flatten(NonEmpty([x] + xs)) == x + Flatten(NonEmpty(xs))
  {
    var head := if x == [] then [] else [x];
    NonEmptyCons(x, xs);
    FlattenConcat(head, NonEmpty(xs));
    assert Flatten(head) == x by {
      if head != [] {
        assert head[1..] == [];
      }
    }
  }

  lemma {:induction false} NonEmptyCons(x: string, xs: seq<string>)
    ensures NonEmpty([x] + xs) == (if x == [] then [] else [x]) + NonEmpty(xs)
  {
    assert ([x] + xs)[0] == x && ([x] + xs)[1..] == xs;
  }

  /** A word followed by a run of separators contributes just the word. */
  lemma {:induction false} KeepStep(s: string, n: nat, m: nat)
    requires n + m <= |s|
    requires SeparatorFree(s[..n])
    requires forall i :: n <= i < n + m ==> IsSeparator(s[i])
    ensures Keep(s) == s[..n] + Keep(s[n + m..])
  {
    var word, sep, rest := s[..n], s[n..n + m], s[n + m..];
    assert forall i :: 0 <= i < m ==> sep[i] == s[n + i];
    assert s == word + (sep + rest);
    KeepParts(word, sep, rest);
  }

  lemma {:induction false} KeepParts(word: string, sep: string, rest: string)
    requires SeparatorFree(word)
    requires forall i :: 0 <= i < |sep| ==> IsSeparator(sep[i])
    ensures Keep(word + (sep + rest)) == word + Keep(rest)
  {
    KeepSeparators(sep);
    KeepConcat(sep, rest);
    KeepWord(word);
    KeepConcat(word, sep + rest);
  }

  lemma {:induction false} FlattenConcat(a: seq<string>, b: seq<string>)
    ensures Flatten(a + b) == Flatten(a) + Flatten(b)
    decreases |a|
  {
    if a == [] {
      assert a + b == b;
    } else {
      assert (a + b)[0] == a[0];
      assert (a + b)[1..] == a[1..] + b;
      FlattenConcat(a[1..], b);
    }
  }

  /** A list of non-empty strings flattens to nothing only when it is empty. */
  lemma {:induction false} FlattenEmpty(xs: seq<string>)
    requires forall k :: 0 <= k < |xs| ==> xs[k] != []
    ensures Flatten(xs) == [] <==> xs == []
  {
    if xs != [] {
      assert |Flatten(xs)| >= |xs[0]|;
    }
  }

  /** Only a text made of separators keeps no character. */
  lemma {:induction false} KeepEmpty(s: string)
    ensures Keep(s) == [] <==> forall i :: 0 <= i < |s| ==> IsSeparator(s[i])
    decreases |s|
  {
    if s != [] {
      KeepEmpty(s[1..]);
      if forall i :: 0 <= i < |s[1..]| ==> IsSeparator(s[1..][i]) {
        if IsSeparator(s[0]) {
          forall i | 0 <= i < |s| ensures IsSeparator(s[i]) {
            if i > 0 {
              assert s[i] == s[1..][i - 1];
            }
          }
        }
      }
    }
  }

  /** `s` is made of separators only; the empty text is one too. */
  predicate Separators(s: string) {
    forall i :: 0 <= i < |s| ==> IsSeparator(s[i])
  }

  /** The words `ws` written out with the run `seps[k]` between `ws[k]` and `ws[k + 1]`. */
  function Separated(ws: seq<string>, seps: seq<string>): (s: string)
    requires ws != [] && |seps| == |ws| - 1
    ensures |s| >= |ws[0]|
    decreases |ws|
  {
    if |ws| == 1 then ws[0] else ws[0] + seps[0] + Separated(ws[1..], seps[1..])
  }

  /** Non-empty separator-free words, with a non-empty run of separators between
      each two of them: the shape of a pasted list such as "0100001, 0100002". */
  predicate WellSeparated(ws: seq<string>, seps: seq<string>) {
    && ws != [] && |seps| == |ws| - 1
    && (forall k :: 0 <= k < |ws| ==> ws[k] != [] && SeparatorFree(ws[k]))
    && (forall k :: 0 <= k < |seps| ==> seps[k] != [] && Separators(seps[k]))
  }

  /** The empty piece a leading or trailing run of separators leaves in the split. */
  function EdgePiece(run: string): (r: seq<string>)
    ensures |r| <= 1
  {
    if run == [] then [] else [""]
  }

  /** The split of a pasted list: text made of words separated by runs of
      separators, with optional runs at both ends, splits into exactly those
      words, plus one empty piece for each end that has a run. */
  lemma {:induction false} SplitSeparated(lead: string, ws: seq<string>, seps: seq<string>, trail: string)
    requires WellSeparated(ws, seps) && Separators(lead) && Separators(trail)
    ensures SplitPieces(lead + Separated(ws, seps) + trail) == EdgePiece(lead) + ws + EdgePiece(trail)
  {
    SplitSeparatedTail(ws, seps, trail);
    SeparatedStart(ws, seps, trail);
    SplitLead(lead, Separated(ws, seps), trail);
    AppendAssoc(EdgePiece(lead), ws, EdgePiece(trail));
  }

  /** A run of separators before the first word adds one empty piece in front. */
  lemma {:induction false} SplitLead(lead: string, words: string, trail: string)
    requires Separators(lead)
    requires words + trail != [] && !IsSeparator((words + trail)[0])
    ensures SplitPieces(lead + words + trail) == EdgePiece(lead) + SplitPieces(words + trail)
  {
    SplitLeadBody(lead, words + trail);
    assert lead + words + trail == lead + (words + trail);
  }

  lemma {:induction false} SplitLeadBody(lead: string, body: string)
    requires Separators(lead)
    requires body != [] && !IsSeparator(body[0])
    ensures SplitPieces(lead + body) == EdgePiece(lead) + SplitPieces(body)
  {
    if lead == [] {
      assert lead + body == body;
    } else {
      SplitAfterWord([], lead, body);
      assert [] + lead + body == lead + body;
    }
  }

  /** `SplitSeparated` without the leading run. */
  lemma {:induction false} SplitSeparatedTail(ws: seq<string>, seps: seq<string>, trail: string)
    requires WellSeparated(ws, seps) && Separators(trail)
    ensures SplitPieces(Separated(ws, seps) + trail) == ws + EdgePiece(trail)
    decreases |ws|
  {
    if |ws| == 1 {
      assert Separated(ws, seps) == ws[0];
      SplitLastWord(ws[0], trail);
    } else {
      var rest := Separated(ws[1..], seps[1..]) + trail;
      WellSeparatedTail(ws, seps);
      SplitSeparatedTail(ws[1..], seps[1..], trail);
      SeparatedStart(ws[1..], seps[1..], trail);
      SeparatedUnfold(ws, seps, trail);
      SplitAfterWord(ws[0], seps[0], rest);
      ConsPieces(ws[0] + seps[0] + rest, rest, ws, EdgePiece(trail));
    }
  }

  /** The last word, then a run of separators that may be empty. */
  lemma {:induction false} SplitLastWord(w: string, trail: string)
    requires w != [] && SeparatorFree(w) && Separators(trail)
    ensures SplitPieces(w + trail) == [w] + EdgePiece(trail)
  {
    if trail == [] {
      assert w + trail == w;
      assert WordLength(w) == |w|;
    } else {
      SplitAfterWord(w, trail, []);
      assert w + trail + [] == w + trail;
      assert WordLength([]) == 0;
    }
  }

  lemma {:induction false} SeparatedUnfold(ws: seq<string>, seps: seq<string>, trail: string)
    requires ws != [] && |seps| == |ws| - 1 && |ws| > 1
    ensures Separated(ws, seps) + trail == ws[0] + seps[0] + (Separated(ws[1..], seps[1..]) + trail)
  {
  }

  lemma {:induction false} ConsPieces(text: string, rest: string, ws: seq<string>, e: seq<string>)
    requires ws != []
    requires SplitPieces(text) == [ws[0]] + SplitPieces(rest)
    requires SplitPieces(rest) == ws[1..] + e
    ensures SplitPieces(text) == ws + e
  {
    assert ws == [ws[0]] + ws[1..];
  }

  lemma {:induction false} WellSeparatedTail(ws: seq<string>, seps: seq<string>)
    requires WellSeparated(ws, seps) && |ws| > 1
    ensures WellSeparated(ws[1..], seps[1..])
  {
    assert forall k :: 0 <= k < |ws| - 1 ==> ws[1..][k] == ws[k + 1];
    assert forall k :: 0 <= k < |seps| - 1 ==> seps[1..][k] == seps[k + 1];
  }

  /** A pasted list starts with the first character of its first word. */
  lemma {:induction false} SeparatedStart(ws: seq<string>, seps: seq<string>, trail: string)
    requires WellSeparated(ws, seps)
    ensures Separated(ws, seps) + trail != [] && !IsSeparator((Separated(ws, seps) + trail)[0])
  {
    assert ws[0] != [] && !IsSeparator(ws[0][0]);
    if |ws| > 1 {
      assert Separated(ws, seps) == ws[0] + (seps[0] + Separated(ws[1..], seps[1..]));
    }
    assert (Separated(ws, seps) + trail)[0] == ws[0][0];
  }

  /** A (possibly empty) word, a non-empty run of separators, then text that
      does not start with a separator: the word is the first piece and the
      split carries on with that text. */
  lemma {:induction false} SplitAfterWord(w: string, sep: string, rest: string)
    requires SeparatorFree(w) && sep != [] && Separators(sep)
    requires rest == [] || !IsSeparator(rest[0])
    ensures SplitPieces(w + sep + rest) == [w] + SplitPieces(rest)
  {
    var s := w + sep + rest;
    assert s == w + (sep + rest);
    assert (sep + rest)[0] == sep[0];
    WordLengthOf(w, sep + rest);
    assert s[|w|..] == sep + rest;
    SeparatorLengthOf(sep, rest);
    assert s[..|w|] == w;
    assert s[|w| + |sep|..] == rest;
  }

  /** The separator run at the start of `sep + rest` is all of `sep`. */
  lemma {:induction false} SeparatorLengthOf(sep: string, rest: string)
    requires Separators(sep)
    requires rest == [] || !IsSeparator(rest[0])
    ensures SeparatorLength(sep + rest) == |sep|
    decreases |sep|
  {
    if sep == [] {
      assert sep + rest == rest;
    } else {
      assert (sep + rest)[0] == sep[0];
      assert (sep + rest)[1..] == sep[1..] + rest;
      assert forall i :: 0 <= i < |sep| - 1 ==> sep[1..][i] == sep[i + 1];
      SeparatorLengthOf(sep[1..], rest);
    }
  }

  /** The first word of `w + tail` is `w` when `tail` starts with a separator. */
  lemma {:induction false} WordLengthOf(w: string, tail: string)
    requires SeparatorFree(w)
    requires tail != [] && IsSeparator(tail[0])
    ensures WordLength(w + tail) == |w|
    decreases |w|
  {
    if w == [] {
      assert w + tail == tail;
    } else {
      assert (w + tail)[0] == w[0];
      assert (w + tail)[1..] == w[1..] + tail;
      WordLengthOf(w[1..], tail);
    }
  }

  /** Pasting a list of words separated by runs of newlines, commas and spaces,
      with or without such runs at either end, fills the slots with exactly
      those words: "0100001, 0100002, 0100003" gives three slots. */
  lemma {:induction false} PasteSeparated(lead: string, ws: seq<string>, seps: seq<string>, trail: string)
    requires WellSeparated(ws, seps) && Separators(lead) && Separators(trail)
    ensures TextareaEntries(lead + Separated(ws, seps) + trail) == ws
  {
    SplitSeparated(lead, ws, seps, trail);
    EntriesOfPieces(lead + Separated(ws, seps) + trail, lead, ws, trail);
  }

  /** Text whose pieces are non-empty words framed by at most an empty piece at
      each end fills the slots with exactly those words. */
  lemma {:induction false} EntriesOfPieces(text: string, lead: string, ws: seq<string>, trail: string)
    requires ws != [] && forall k :: 0 <= k < |ws| ==> ws[k] != []
    requires SplitPieces(text) == EdgePiece(lead) + ws + EdgePiece(trail)
    ensures TextareaEntries(text) == ws
  {
    SplitPiecesAreWords(text);
    ValidOfWords(SplitPieces(text));
    NonEmptyFramed(lead, ws, trail);
    NonEmptyKeeps(ws);
  }

  lemma {:induction false} NonEmptyFramed(lead: string, ws: seq<string>, trail: string)
    ensures NonEmpty(EdgePiece(lead) + ws + EdgePiece(trail)) == NonEmpty(ws)
  {
    NonEmptyConcat(EdgePiece(lead), ws);
    NonEmptyConcat(EdgePiece(lead) + ws, EdgePiece(trail));
    assert NonEmpty(EdgePiece(lead)) == [] && NonEmpty(EdgePiece(trail)) == [];
    assert [] + NonEmpty(ws) + [] == NonEmpty(ws);
  }

  lemma {:induction false} NonEmptyConcat(a: seq<string>, b: seq<string>)
    ensures NonEmpty(a + b) == NonEmpty(a) + NonEmpty(b)
    decreases |a|
  {
    if a == [] {
      assert a + b == b;
    } else {
      var head := if a[0] == [] then [] else [a[0]];
      assert (a + b)[0] == a[0];
      assert (a + b)[1..] == a[1..] + b;
      NonEmptyConcat(a[1..], b);
      AppendAssoc(head, NonEmpty(a[1..]), NonEmpty(b));
    }
  }

  /** `Join` with one separator character is the special case of one-character runs. */
  lemma {:induction false} JoinSeparated(ws: seq<string>, sep: char)
    requires ws != []
    ensures Join(ws, sep) == Separated(ws, seq(|ws| - 1, _ => [sep]))
    decreases |ws|
  {
    if |ws| > 1 {
      JoinSeparated(ws[1..], sep);
      assert seq(|ws| - 1, _ => [sep])[1..] == seq(|ws[1..]| - 1, _ => [sep]);
    }
  }

  /** Pasting the entries back, joined by any one separator character, gives
      the same entries. */
  lemma {:induction false} PasteJoined(ws: seq<string>, sep: char)
    requires ws != []
    requires forall k :: 0 <= k < |ws| ==> ws[k] != [] && SeparatorFree(ws[k])
    requires IsSeparator(sep)
    ensures TextareaEntries(Join(ws, sep)) == ws
  {
    var seps := seq(|ws| - 1, _ => [sep]);
    JoinSeparated(ws, sep);
    PasteSeparated([], ws, seps, []);
    assert [] + Separated(ws, seps) + [] == Join(ws, sep);
  }

  /** A list with no empty string is its own non-empty part. */
  lemma {:induction false} NonEmptyKeeps(ws: seq<string>)
    requires forall k :: 0 <= k < |ws| ==> ws[k] != []
    ensures NonEmpty(ws) == ws
    decreases |ws|
  {
    if ws != [] {
      NonEmptyKeeps(ws[1..]);
    }
  }

  /** Pasting what the paste box produced, one entry per line, changes nothing. */
  lemma {:induction false} PasteIdempotent(value: string)
    ensures TextareaEntries(Join(TextareaEntries(value), '\n')) == TextareaEntries(value)
  {
    var r := TextareaEntries(value);
    if r != [""] {
      PasteJoined(r, '\n');
    }
  }

  // ---------------------------------------------------------------- searching

  /** What pressing search does: reject with a message, or send the numbers. */
  datatype SearchOutcome = SearchRejected(message: string) | SearchRequest(sbds: seq<string>)

  /** `handleSearch`: the valid numbers are sent; when there are none, the
      request is not made and the page shows the message. */
  function HandleSearch(list: seq<string>): (r: SearchOutcome)
    ensures r.SearchRejected? <==> forall i :: 0 <= i < |list| ==> Trim(list[i]) == []
    ensures r.SearchRejected? ==> r.message == "Vui lòng nhập ít nhất một số báo danh"
    ensures r.SearchRequest? ==> r.sbds == Valid(list) && r.sbds != []
  {
    var validSbds := Valid(list);
    ValidEmpty(list);
    if |validSbds| == 0 then SearchRejected("Vui lòng nhập ít nhất một số báo danh")
    else SearchRequest(validSbds)
  }

  /** `disabled={loading || sbdList.every(sbd => !sbd.trim())}`. */
  predicate SearchDisabled(loading: bool, list: seq<string>) {
    loading || forall i :: 0 <= i < |list| ==> Trim(list[i]) == []
  }

  /** While no search is running, the button is disabled exactly when pressing
      it would be rejected. */
  lemma {:induction false} ButtonMatchesGuard(list: seq<string>)
    ensures SearchDisabled(false, list) <==> HandleSearch(list).SearchRejected?
  {
  }

  // ------------------------------------------------------------------- export

  /** The part of the bulk response the export reads: the list of found students, if present. */
  datatype BulkResults = BulkResults(found: Option<seq<Student>>)

  const Header: seq<JsValue> :=
    [Str("SBD"), Str("Họ tên"), Str("Toán"), Str("Văn"), Str("Anh"), Str("Tổng điểm"), Str("Mã hội đồng")]

  /** Column `j` of the export for student `st`, before the `|| ''` fallback. */
  function Column(st: Student, j: nat): JsValue
    requires j < 7
  {
    match j
    case 0 => st.sbd
    case 1 => st.hoTen
    case 2 => st.diemToan
    case 3 => st.diemVan
    case 4 => st.diemNn
    case 5 => st.tongDiem
    case _ => st.maHd
  }

  /** One student's line: seven cells, the number as it is, and every other
      column its value when truthy and the empty string when not. */
  function StudentRow(st: Student): (row: seq<JsValue>)
    ensures |row| == 7 && row[0] == st.sbd
    ensures forall j :: 1 <= j < 7 ==> Truthy(row[j]) == Truthy(Column(st, j))
    ensures forall j :: 1 <= j < 7 ==> row[j] == (if Truthy(Column(st, j)) then Column(st, j) else Str(""))
  {
    [st.sbd, Or(st.hoTen, Str("")), Or(st.diemToan, Str("")), Or(st.diemVan, Str("")),
     Or(st.diemNn, Str("")), Or(st.tongDiem, Str("")), Or(st.maHd, Str(""))]
  }

  /** The cells of `exportResults`: nothing when there is no result or no
      `found` list, otherwise the header and one seven-cell row per found
      student in the order found. */
  function ExportRows(results: Option<BulkResults>): (r: Option<seq<seq<JsValue>>>)
    ensures r.None? <==> results.None? || results.value.found.None?
    ensures r.Some? ==>
      var found := results.value.found.value;
      && |r.value| == |found| + 1
      && r.value[0] == Header
      && (forall k :: 0 <= k < |r.value| ==> |r.value[k]| == 7)
      && (forall k :: 0 <= k < |found| ==> r.value[k + 1] == StudentRow(found[k]))
  {
    match results
    case None => None
    case Some(res) =>
      match res.found
      case None => None
      case Some(found) => Some([Header] + seq(|found|, k requires 0 <= k < |found| => StudentRow(found[k])))
  }

  /** How `Array.prototype.join` writes a cell: `null` and `undefined` as
      nothing, a number by the engine's formatting `numberText`. */
  function CellText(v: JsValue, numberText: Score -> string): string {
    match v
    case Undefined => ""
    case Null => ""
    case Bool(b) => if b then "true" else "false"
    case Number(n) => numberText(n)
    case Str(s) => s
  }

  function CellTexts(row: seq<JsValue>, numberText: Score -> string): (texts: seq<string>)
    ensures |texts| == |row|
  {
    seq(|row|, k requires 0 <= k < |row| => CellText(row[k], numberText))
  }

  /** `rows.map(row => row.join(',')).join('\n')`. */
  function CsvText(rows: seq<seq<JsValue>>, numberText: Score -> string): string {
    Join(seq(|rows|, k requires 0 <= k < |rows| => Join(CellTexts(rows[k], numberText), ',')), '\n')
  }

  /** No cell holds a comma or a line break. */
  predicate PlainCells(rows: seq<seq<JsValue>>, numberText: Score -> string) {
    forall k, j :: 0 <= k < |rows| && 0 <= j < |rows[k]| ==>
      var t := CellText(rows[k][j], numberText);
      ',' !in t && '\n' !in t
  }

  /** When no cell holds a comma or a line break, reading the exported text
      back line by line and comma by comma recovers every cell: one line per
      row and as many fields per line as the row has cells. */
  lemma {:induction false} CsvReadsBack(rows: seq<seq<JsValue>>, numberText: Score -> string)
    requires rows != [] && forall k :: 0 <= k < |rows| ==> rows[k] != []
    requires PlainCells(rows, numberText)
    ensures var lines := Split(CsvText(rows, numberText), '\n');
      && |lines| == |rows|
      && forall k :: 0 <= k < |rows| ==> Split(lines[k], ',') == CellTexts(rows[k], numberText)
  {
    var lines := seq(|rows|, k requires 0 <= k < |rows| => Join(CellTexts(rows[k], numberText), ','));
    forall k | 0 <= k < |rows|
      ensures '\n' !in lines[k]
      ensures Split(lines[k], ',') == CellTexts(rows[k], numberText)
    {
      var texts := CellTexts(rows[k], numberText);
      assert forall j :: 0 <= j < |texts| ==> ',' !in texts[j] && '\n' !in texts[j];
      SplitJoin(texts, ',');
      JoinAvoids(texts, ',', '\n');
    }
    SplitJoin(lines, '\n');
  }

  /** Joining strings free of `c` with a separator other than `c` gives a string free of `c`. */
  lemma {:induction false} JoinAvoids(xs: seq<string>, sep: char, c: char)
    requires sep != c
    requires forall k :: 0 <= k < |xs| ==> c !in xs[k]
    ensures c !in Join(xs, sep)
    decreases |xs|
  {
    if |xs| > 1 {
      JoinAvoids(xs[1..], sep, c);
    }
  }

  /** The export does not quote cells: a row with a comma inside one of its
      cells reads back as more fields than the row has cells. */
  lemma {:induction false} CommaInCellAddsField(row: seq<JsValue>, numberText: Score -> string, j: nat)
    requires j < |row| && ',' in CellText(row[j], numberText)
    ensures |Split(Join(CellTexts(row, numberText), ','), ',')| > |row|
  {
    SplitJoinGrows(CellTexts(row, numberText), ',', j);
  }
}
