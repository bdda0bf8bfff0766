/** `extract_exercises` and `format_exercise_text`: turning the numbered blocks of a
    split document's text into exercises. A block is an open-ended exercise when it
    mentions "contestamos" and has lower-case lettered items (`\na.`), and a
    single-selection exercise when it mentions "seleccionamos" and has upper-case
    lettered items (`\nA.`), each with lower-case lettered options; any other block
    is skipped. */
module Exercises {
  import opened Results
  import opened PyText
  import opened Dicts

  /** `re.sub(r"-\s*\n*\s*", "", s)`: every hyphen goes, together with the white space
      (line breaks included) that follows it. */
  function DropHyphenBreaks(s: string): (r: string)
    ensures |r| <= |s|
    ensures '-' !in r
    ensures forall c :: c in r ==> c in s
    ensures '-' !in s ==> r == s
    decreases |s|
  {
    if s == [] then []
    else if s[0] == '-' then
      var t := s[1..];
      DropHyphenBreaks(t[LeadingCount(t, IsSpace)..])
    else [s[0]] + DropHyphenBreaks(s[1..])
  }

  /** Text before the first hyphen is kept as it is. */
  lemma {:induction false} DropKeeps(a: string, b: string)
    requires '-' !in a
    ensures DropHyphenBreaks(a + b) == a + DropHyphenBreaks(b)
    decreases |a|
  {
    if a == [] {
      assert a + b == b;
    } else {
      var c, rest := a[0], a[1..];
      assert a == [c] + rest;
      assert c != '-' && '-' !in rest;
      DropCons(c, rest + b);
      DropKeeps(rest, b);
      ConsAssoc(c, rest, b);
      ConsAssoc(c, rest, DropHyphenBreaks(b));
    }
  }

  /** Putting a character in front associates with concatenation. */
  lemma ConsAssoc(c: char, s: string, t: string)
    ensures ([c] + s) + t == [c] + (s + t)
  {
  }

  /** A first character other than a hyphen is kept. */
  lemma DropCons(c: char, t: string)
    requires c != '-'
    ensures DropHyphenBreaks([c] + t) == [c] + DropHyphenBreaks(t)
  {
    assert ([c] + t)[0] == c && ([c] + t)[1..] == t;
  }

  /** A hyphen goes together with the whole run of white space after it, and nothing
      past that run. */
  lemma DropJoins(w: string, b: string)
    requires forall i :: 0 <= i < |w| ==> IsSpace(w[i])
    requires b == [] || !IsSpace(b[0])
    ensures DropHyphenBreaks("-" + w + b) == DropHyphenBreaks(b)
  {
    var t := w + b;
    ConsAssoc('-', w, b);
    DropHyphen(t);
    SpaceRun(w, b);
    assert t[|w|..] == b;
  }

  /** A hyphen in front goes with the white space after it. */
  lemma DropHyphen(t: string)
    ensures DropHyphenBreaks(['-'] + t) == DropHyphenBreaks(t[LeadingCount(t, IsSpace)..])
  {
    assert (['-'] + t)[0] == '-' && (['-'] + t)[1..] == t;
  }

  /** The leading white space of `w + b` is exactly `w` when `b` does not start with
      white space. */
  lemma SpaceRun(w: string, b: string)
    requires forall i :: 0 <= i < |w| ==> IsSpace(w[i])
    requires b == [] || !IsSpace(b[0])
    ensures LeadingCount(w + b, IsSpace) == |w|
  {
    var t := w + b;
    assert forall i :: 0 <= i < |w| ==> IsSpace(t[i]);
    assert |w| < |t| ==> !IsSpace(t[|w|]);
  }

  /** `format_exercise_text(text)`. The argument of `strip('\s:')` is the three
      characters backslash, `s` and colon, so a trailing `s` is lost along with any
      colon. */
  function FormatExerciseText(text: string): (r: string)
    ensures |r| <= |text|
    ensures '-' !in r && '\n' !in r
    ensures r != [] ==> !IsSpace(r[0]) && !IsSpace(r[|r| - 1])
    ensures forall c :: c in r ==> c in text || c == ' '
  {
    var t := CleanBreaks(text);
    var u := StripBy(t, IsStrayPunct);
    var r := Strip(u);
    CharsWithin(r, u);
    CharsWithin(u, t);
    r
  }

  /** A text whose every position holds a character of `u` has only characters of `u`. */
  lemma CharsWithin(r: string, u: string)
    requires forall i :: 0 <= i < |r| ==> r[i] in u
    ensures forall c :: c in r ==> c in u
  {
  }

  /** The replacements of `format_exercise_text`, before the two strips. */
  function CleanBreaks(text: string): (r: string)
    ensures |r| <= |text|
    ensures '-' !in r && '\n' !in r
    ensures forall c :: c in r ==> c in text || c == ' '
  {
    var t1 := DropHyphenBreaks(text);
    var t2 := Replace(t1, "  ", " ");
    var t3 := Replace(t2, "\U{00BF}?", "");
    RemoveCharGone(t3, '\n');
    Replace(t3, "\n", "")
  }

  /** `[a-z]` or `[A-Z]` in a pattern: an ASCII letter of the given case. */
  predicate MarkerLetter(c: char, upper: bool) {
    if upper then 'A' <= c <= 'Z' else 'a' <= c <= 'z'
  }

  /** A match of `\n[a-z]\.` (or `\n[A-Z]\.`) at position `i`. */
  predicate MarkerAt(s: string, i: int, upper: bool) {
    0 <= i && i + 3 <= |s| && s[i] == '\n' && MarkerLetter(s[i + 1], upper) && s[i + 2] == '.'
  }

  /** `re.search(r"\n[a-z]\.", s)` (or its upper-case twin). */
  predicate HasMarker(s: string, upper: bool) {
    exists i :: 0 <= i < |s| && MarkerAt(s, i, upper)
  }

  /** The letters of the markers `SplitMarkers` cuts at, in order. */
  function MarkerLetters(s: string, upper: bool): seq<char>
    decreases |s|
  {
    if MarkerAt(s, 0, upper) then [s[1]] + MarkerLetters(s[3..], upper)
    else if s == [] then []
    else MarkerLetters(s[1..], upper)
  }

  /** The inverse of `SplitMarkers`: the pieces joined with the markers put back. */
  function Rejoin(pieces: seq<string>, letters: seq<char>): string
    requires |pieces| == |letters| + 1
  {
    if |pieces| == 1 then pieces[0]
    else pieces[0] + ['\n', letters[0], '.'] + Rejoin(pieces[1..], letters[1..])
  }

  /** What `SplitMarkers` promises: one more piece than markers, the markers put back
      give the text, the first piece is a prefix, there is more than one piece exactly
      when there is a marker, and no piece holds a marker. */
  predicate SplitFacts(s: string, upper: bool, r: seq<string>) {
    && |r| == |MarkerLetters(s, upper)| + 1
    && Rejoin(r, MarkerLetters(s, upper)) == s
    && r[0] <= s
    && (|r| == 1 <==> !HasMarker(s, upper))
    && forall k, i :: 0 <= k < |r| && 0 <= i < |r[k]| ==> !MarkerAt(r[k], i, upper)
  }

  /** `re.compile(r"\n[a-z]\.").split(s)` (or its upper-case twin): the text between
      the markers, found left to right without overlap. */
  function SplitMarkers(s: string, upper: bool): (r: seq<string>)
    ensures SplitFacts(s, upper, r)
    decreases |s|
  {
    if MarkerAt(s, 0, upper) then
      var rest := SplitMarkers(s[3..], upper);
      SplitAtMarker(s, upper, rest);
      [[]] + rest
    else if s == [] then [[]]
    else
      var rest := SplitMarkers(s[1..], upper);
      SplitPastChar(s, upper, rest);
      [[s[0]] + rest[0]] + rest[1..]
  }

  lemma SplitAtMarker(s: string, upper: bool, rest: seq<string>)
    requires MarkerAt(s, 0, upper) && SplitFacts(s[3..], upper, rest)
    ensures SplitFacts(s, upper, [[]] + rest)
  {
    assert s == ['\n', s[1], '.'] + s[3..];
    assert HasMarker(s, upper);
    var r := [[]] + rest;
    assert r[1..] == rest;
    forall k, i | 0 <= k < |r|
      ensures !MarkerAt(r[k], i, upper)
    {
      if k > 0 {
        assert r[k] == rest[k - 1];
      }
    }
  }

  lemma SplitPastChar(s: string, upper: bool, rest: seq<string>)
    requires s != [] && !MarkerAt(s, 0, upper) && SplitFacts(s[1..], upper, rest)
    ensures SplitFacts(s, upper, [[s[0]] + rest[0]] + rest[1..])
  {
    NoMarkerAtHead(s, upper);
    PieceExtended(s, rest[0], upper);
    RejoinCons(s[0], rest, MarkerLetters(s[1..], upper));
    assert s == [s[0]] + s[1..];
    var r := [[s[0]] + rest[0]] + rest[1..];
    forall k, i | 0 <= k < |r|
      ensures !MarkerAt(r[k], i, upper)
    {
      if k > 0 {
        assert r[k] == rest[k];
      }
    }
  }

  /** Putting a character in front of the first piece puts it in front of the
      rejoined text. */
  lemma RejoinCons(c: char, rest: seq<string>, letters: seq<char>)
    requires |rest| == |letters| + 1
    ensures Rejoin([[c] + rest[0]] + rest[1..], letters) == [c] + Rejoin(rest, letters)
  {
    var r := [[c] + rest[0]] + rest[1..];
    assert r[1..] == rest[1..];
  }

  /** Without a marker at the head, the markers of `s` are those of its tail. */
  lemma NoMarkerAtHead(s: string, upper: bool)
    requires s != [] && !MarkerAt(s, 0, upper)
    ensures HasMarker(s, upper) <==> HasMarker(s[1..], upper)
  {
    if HasMarker(s, upper) {
      var i :| 0 <= i < |s| && MarkerAt(s, i, upper);
      assert i != 0;
      assert s[1..][i - 1] == s[i] && s[1..][i] == s[i + 1] && s[1..][i + 1] == s[i + 2];
      assert MarkerAt(s[1..], i - 1, upper);
    }
    if HasMarker(s[1..], upper) {
      var i :| 0 <= i < |s[1..]| && MarkerAt(s[1..], i, upper);
      assert s[1..][i] == s[i + 1] && s[1..][i + 1] == s[i + 2] && s[1..][i + 2] == s[i + 3];
      assert MarkerAt(s, i + 1, upper);
    }
  }

  /** Putting back a head character that starts no marker keeps the first piece free
      of markers. */
  lemma PieceExtended(s: string, p: string, upper: bool)
    requires s != [] && !MarkerAt(s, 0, upper)
    requires p <= s[1..]
    requires forall i :: !MarkerAt(p, i, upper)
    ensures [s[0]] + p <= s
    ensures forall i :: !MarkerAt([s[0]] + p, i, upper)
  {
    var q := [s[0]] + p;
    assert s == [s[0]] + s[1..];
    forall i
      ensures !MarkerAt(q, i, upper)
    {
      if i == 0 && 3 <= |q| {
        assert q[0] == s[0] && q[1] == s[1] && q[2] == s[2];
      } else if 0 < i && i + 3 <= |q| {
        assert q[i] == p[i - 1] && q[i + 1] == p[i] && q[i + 2] == p[i + 1];
        assert !MarkerAt(p, i - 1, upper);
      }
    }
  }

  datatype QuestionKind = MultipleSelection | SingleSelection

  /** A question: its text, its kind and its answers, each marked correct or not. */
  datatype Question = Question(question: string, kind: QuestionKind, answers: Dict<bool>)

  datatype Exercise = Exercise(description: string, questions: seq<Question>)

  /** The single synthetic answer of an open-ended question. */
  const OpenAnswer: Dict<bool> := [("Continuar", true)]

  /** The answers dictionary of a single-selection item after its first `n` options
      (already formatted) were added with `update`: only the first option is marked
      correct, and a later option with the same text overwrites it. */
  function Answers(options: seq<string>, n: nat): (d: Dict<bool>)
    requires n <= |options|
    ensures DistinctKeys(d)
    ensures |d| <= n
    ensures forall k :: HasKey(d, k) <==> k in options[..n]
    ensures forall k :: Get(d, k) == Some(true) ==> n > 0 && k == options[0]
    ensures KeysAre(d, FirstOccurrences(options[..n]))
    decreases n
  {
    if n == 0 then []
    else
      var prev := Answers(options, n - 1);
      var d := Put(prev, options[n - 1], n == 1);
      AnswersStep(options, n, prev, d);
      d
  }

  /** One more option: the keys grow by that option, in first-occurrence order. */
  lemma AnswersStep(options: seq<string>, n: nat, prev: Dict<bool>, d: Dict<bool>)
    requires 0 < n <= |options|
    requires forall k :: HasKey(prev, k) <==> k in options[..n - 1]
    requires KeysAre(prev, FirstOccurrences(options[..n - 1]))
    requires d == Put(prev, options[n - 1], n == 1)
    ensures forall k :: HasKey(d, k) <==> k in options[..n]
    ensures KeysAre(d, FirstOccurrences(options[..n]))
  {
    AnswersKeys(options, n, prev, d);
    assert HasKey(prev, options[n - 1]) <==> options[n - 1] in options[..n - 1];
    assert options[..n] == options[..n - 1] + [options[n - 1]];
    KeyOrderStep(prev, d, options[n - 1], n == 1, options[..n - 1], options[..n]);
  }

  lemma AnswersKeys(options: seq<string>, n: nat, prev: Dict<bool>, d: Dict<bool>)
    requires 0 < n <= |options|
    requires forall k :: HasKey(prev, k) <==> k in options[..n - 1]
    requires forall k :: Get(d, k) == (if k == options[n - 1] then Some(n == 1) else Get(prev, k))
    ensures forall k :: HasKey(d, k) <==> k in options[..n]
  {
    assert options[..n] == options[..n - 1] + [options[n - 1]];
    forall k
      ensures HasKey(d, k) <==> k in options[..n]
    {
      assert Get(d, k).Some? <==> HasKey(d, k);
      assert Get(prev, k).Some? <==> HasKey(prev, k);
    }
  }

  /** The first option is the correct answer exactly when no later option has the
      same text. */
  lemma {:induction false} FirstAnswerCorrectIff(options: seq<string>, n: nat)
    requires 1 <= n <= |options|
    ensures Get(Answers(options, n), options[0]) == Some(true) <==> options[0] !in options[1..n]
    decreases n
  {
    if n > 1 {
      FirstAnswerCorrectIff(options, n - 1);
      var prev := Answers(options, n - 1);
      assert Answers(options, n) == Put(prev, options[n - 1], false);
      InSliceSnoc(options, options[0], 1, n);
      if options[n - 1] == options[0] {
      } else {
        assert Get(Answers(options, n), options[0]) == Get(prev, options[0]);
      }
    } else {
      assert Answers(options, 1) == Put([], options[0], true);
    }
  }

  lemma InSliceSnoc<T>(s: seq<T>, x: T, a: nat, b: nat)
    requires a < b <= |s|
    ensures x in s[a..b] <==> x in s[a..b - 1] || x == s[b - 1]
  {
    assert s[a..b] == s[a..b - 1] + [s[b - 1]];
  }

  /** `s` without the repetitions of earlier elements: each element where it first
      appears. */
  function FirstOccurrences<T(==)>(s: seq<T>): seq<T>
    decreases |s|
  {
    if s == [] then []
    else
      var p := FirstOccurrences(s[..|s| - 1]);
      if s[|s| - 1] in s[..|s| - 1] then p else p + [s[|s| - 1]]
  }

  /** One option added to the answers extends the key order as it extends the first
      occurrences. */
  lemma KeyOrderStep(prev: Dict<bool>, d: Dict<bool>, o: string, v: bool, before: seq<string>, all: seq<string>)
    requires d == Put(prev, o, v) && all == before + [o]
    requires HasKey(prev, o) <==> o in before
    requires KeysAre(prev, FirstOccurrences(before))
    ensures KeysAre(d, FirstOccurrences(all))
  {
    KeysPut(prev, o, v, FirstOccurrences(before));
    assert all[..|before|] == before;
  }

  /** At most one answer of a single-selection question is marked correct. */
  lemma AtMostOneCorrect(options: seq<string>, n: nat, j: nat, k: nat)
    requires n <= |options|
    requires j < |Answers(options, n)| && k < |Answers(options, n)|
    requires Answers(options, n)[j].1 && Answers(options, n)[k].1
    ensures j == k
  {
    var d := Answers(options, n);
    GetAt(d, j);
    GetAt(d, k);
  }

  /** The formatted texts of the options of a single-selection item. */
  function OptionTexts(parts: seq<string>): (r: seq<string>)
    requires |parts| >= 1
    ensures |r| == |parts| - 1
  {
    seq(|parts| - 1, i requires 0 <= i < |parts| - 1 => FormatExerciseText(parts[i + 1]))
  }

  /** The questions of an open-ended exercise: one per lettered item. */
  function OpenQuestions(items: seq<string>): (qs: seq<Question>)
    ensures |qs| == |items|
    ensures forall i :: 0 <= i < |qs| ==> qs[i].kind == MultipleSelection && qs[i].answers == OpenAnswer
    ensures forall i :: 0 <= i < |qs| ==> qs[i].question == FormatExerciseText(items[i])
  {
    seq(|items|, i requires 0 <= i < |items| => Question(FormatExerciseText(items[i]), MultipleSelection, OpenAnswer))
  }

  /** One upper-case lettered item of a single-selection exercise: the text before its
      first option is the question, and the options are the answers. */
  function SelectionQuestion(item: string): (q: Question)
    ensures q.kind == SingleSelection
    ensures DistinctKeys(q.answers)
    ensures forall j, k :: 0 <= j < |q.answers| && 0 <= k < |q.answers| && q.answers[j].1 && q.answers[k].1 ==> j == k
    ensures q.question == FormatExerciseText(SplitMarkers(item, false)[0])
  {
    PartsQuestion(SplitMarkers(item, false))
  }

  /** The question built from an item cut at its lower-case markers. */
  function PartsQuestion(parts: seq<string>): (q: Question)
    requires |parts| >= 1
    ensures q.kind == SingleSelection
    ensures DistinctKeys(q.answers)
    ensures forall j, k :: 0 <= j < |q.answers| && 0 <= k < |q.answers| && q.answers[j].1 && q.answers[k].1 ==> j == k
    ensures q.question == FormatExerciseText(parts[0])
    ensures q.answers == Answers(OptionTexts(parts), |parts| - 1)
  {
    var options := OptionTexts(parts);
    var answers := Answers(options, |options|);
    OneCorrectAnswer(options, answers);
    Question(FormatExerciseText(parts[0]), SingleSelection, answers)
  }

  /** The answers of a single-selection item are keyed by its formatted options in the
      order each first appears, and the one marked correct is the first option, exactly
      when no later option repeats it. */
  lemma SelectionAnswers(item: string, options: seq<string>)
    requires options == OptionTexts(SplitMarkers(item, false))
    ensures KeysAre(SelectionQuestion(item).answers, FirstOccurrences(options))
    ensures forall k :: Get(SelectionQuestion(item).answers, k) == Some(true) <==> FirstOptionCorrect(options, k)
  {
    assert SelectionQuestion(item).answers == Answers(options, |options|);
    assert options[..|options|] == options;
    TrueAnswer(options);
  }

  /** `k` is the first option and no later option repeats it. */
  predicate FirstOptionCorrect(options: seq<string>, k: string) {
    |options| > 0 && k == options[0] && options[0] !in options[1..]
  }

  /** The answer marked correct is the first option, and only when no later option
      repeats its text. */
  lemma TrueAnswer(options: seq<string>)
    ensures forall k :: Get(Answers(options, |options|), k) == Some(true) <==> FirstOptionCorrect(options, k)
  {
    var d := Answers(options, |options|);
    if |options| > 0 {
      FirstAnswerCorrectIff(options, |options|);
      assert options[1..|options|] == options[1..];
    }
    forall k
      ensures Get(d, k) == Some(true) <==> FirstOptionCorrect(options, k)
    {
    }
  }

  lemma OneCorrectAnswer(options: seq<string>, answers: Dict<bool>)
    requires answers == Answers(options, |options|)
    ensures forall j, k :: 0 <= j < |answers| && 0 <= k < |answers| && answers[j].1 && answers[k].1 ==> j == k
  {
    forall j, k | 0 <= j < |answers| && 0 <= k < |answers| && answers[j].1 && answers[k].1
      ensures j == k
    {
      AtMostOneCorrect(options, |options|, j, k);
    }
  }

  function SelectionQuestions(items: seq<string>): (qs: seq<Question>)
    ensures |qs| == |items|
    ensures forall i :: 0 <= i < |qs| ==> qs[i].kind == SingleSelection
    ensures forall i :: 0 <= i < |qs| ==> qs[i] == SelectionQuestion(items[i])
  {
    seq(|items|, i requires 0 <= i < |items| => SelectionQuestion(items[i]))
  }

  /** The open-ended rule: "contestamos", in any case, and a lower-case lettered item. */
  predicate IsOpenBlock(block: string) {
    Contains(LowerAscii(block), "contestamos") && HasMarker(block, false)
  }

  /** The single-selection rule: "seleccionamos", in any case, and an upper-case
      lettered item. */
  predicate IsSelectionBlock(block: string) {
    Contains(LowerAscii(block), "seleccionamos") && HasMarker(block, true)
  }

  /** The loop body of `extract_exercises` for one block (a `group(1)` of the
      numbered-paragraph pattern); the rules are tried in order. */
  function ExtractBlock(block: string): (r: Option<Exercise>)
    ensures r.Some? <==> IsOpenBlock(block) || IsSelectionBlock(block)
    ensures r.Some? ==> |r.value.questions| >= 1
    ensures IsOpenBlock(block) ==>
              && r.Some? && |r.value.questions| == |SplitMarkers(block, false)| - 1
              && forall i :: 0 <= i < |r.value.questions| ==> r.value.questions[i].kind == MultipleSelection
    ensures IsOpenBlock(block) && r.Some? ==>
              forall i :: 0 <= i < |r.value.questions| ==>
                && r.value.questions[i].answers == OpenAnswer
                && r.value.questions[i].question == FormatExerciseText(SplitMarkers(block, false)[i + 1])
    ensures !IsOpenBlock(block) && IsSelectionBlock(block) ==>
              && r.Some? && |r.value.questions| == |SplitMarkers(block, true)| - 1
              && forall i :: 0 <= i < |r.value.questions| ==> r.value.questions[i].kind == SingleSelection
    ensures !IsOpenBlock(block) && IsSelectionBlock(block) && r.Some? ==>
              forall i :: 0 <= i < |r.value.questions| ==> r.value.questions[i] == SelectionQuestion(SplitMarkers(block, true)[i + 1])
    ensures r.Some? ==> r.value.description == FormatExerciseText(SplitMarkers(block, !IsOpenBlock(block))[0])
  {
    if IsOpenBlock(block) then Some(OpenExercise(SplitMarkers(block, false)))
    else if IsSelectionBlock(block) then Some(SelectionExercise(SplitMarkers(block, true)))
    else None
  }

  /** The exercise of an open block cut at its lower-case markers. */
  function OpenExercise(pieces: seq<string>): (e: Exercise)
    requires |pieces| >= 1
    ensures e.description == FormatExerciseText(pieces[0])
    ensures |e.questions| == |pieces| - 1
    ensures forall i :: 0 <= i < |e.questions| ==>
              && e.questions[i].kind == MultipleSelection
              && e.questions[i].answers == OpenAnswer
              && e.questions[i].question == FormatExerciseText(pieces[i + 1])
  {
    Exercise(FormatExerciseText(pieces[0]), OpenQuestions(pieces[1..]))
  }

  /** The exercise of a single-selection block cut at its upper-case markers. */
  function SelectionExercise(pieces: seq<string>): (e: Exercise)
    requires |pieces| >= 1
    ensures e.description == FormatExerciseText(pieces[0])
    ensures |e.questions| == |pieces| - 1
    ensures forall i :: 0 <= i < |e.questions| ==>
              e.questions[i].kind == SingleSelection && e.questions[i] == SelectionQuestion(pieces[i + 1])
  {
    Exercise(FormatExerciseText(pieces[0]), SelectionQuestions(pieces[1..]))
  }

  /** In a single-selection block, the answers of the `i`-th question are keyed by its
      cleaned options in the order each first appears, and the one marked true is the
      first option when no later option repeats it. */
  lemma SelectionBlockAnswers(block: string, i: nat, options: seq<string>)
    requires !IsOpenBlock(block) && IsSelectionBlock(block)
    requires i + 1 < |SplitMarkers(block, true)|
    requires options == OptionTexts(SplitMarkers(SplitMarkers(block, true)[i + 1], false))
    ensures ExtractBlock(block).Some? && i < |ExtractBlock(block).value.questions|
    ensures KeysAre(ExtractBlock(block).value.questions[i].answers, FirstOccurrences(options))
    ensures forall k :: Get(ExtractBlock(block).value.questions[i].answers, k) == Some(true) <==> FirstOptionCorrect(options, k)
  {
    SelectionAnswers(SplitMarkers(block, true)[i + 1], options);
  }

  /** `extract_exercises` over the blocks of a document's text, in order. */
  function ExtractExercises(blocks: seq<string>): (r: seq<Exercise>)
    ensures |r| <= |blocks|
    ensures forall i :: 0 <= i < |r| ==> |r[i].questions| >= 1
    decreases |blocks|
  {
    if blocks == [] then []
    else
      var here := BlockExercises(blocks[0]);
      var rest := ExtractExercises(blocks[1..]);
      AllAnswerable(here, rest);
      here + rest
  }

  /** Every exercise of the two lists has a question, so every one of the joined list
      does. */
  lemma AllAnswerable(a: seq<Exercise>, b: seq<Exercise>)
    requires forall i :: 0 <= i < |a| ==> |a[i].questions| >= 1
    requires forall i :: 0 <= i < |b| ==> |b[i].questions| >= 1
    ensures forall i :: 0 <= i < |a + b| ==> |(a + b)[i].questions| >= 1
  {
    forall i | |a| <= i < |a + b|
      ensures |(a + b)[i].questions| >= 1
    {
      assert (a + b)[i] == b[i - |a|];
    }
  }

  /** What one block adds to the list: its exercise, or nothing. */
  function BlockExercises(block: string): (r: seq<Exercise>)
    ensures |r| == if Accepted(block) then 1 else 0
    ensures forall i :: 0 <= i < |r| ==> |r[i].questions| >= 1
  {
    match ExtractBlock(block)
    case Some(e) => [e]
    case None => []
  }

  /** Blocks are classified one at a time: the exercises of two runs of blocks are
      those of each, in order. */
  lemma {:induction false} ExtractAppend(a: seq<string>, b: seq<string>)
    ensures ExtractExercises(a + b) == ExtractExercises(a) + ExtractExercises(b)
    decreases |a|
  {
    if a == [] {
      assert a + b == b;
    } else {
      assert (a + b)[0] == a[0];
      assert (a + b)[1..] == a[1..] + b;
      ExtractAppend(a[1..], b);
    }
  }

  /** An exercise comes out for each block that one of the rules accepts, and for no
      other. */
  lemma {:induction false} ExtractCount(blocks: seq<string>)
    ensures |ExtractExercises(blocks)| == |AcceptedBlocks(blocks)|
    decreases |blocks|
  {
    if blocks != [] {
      ExtractCount(blocks[1..]);
    }
  }

  predicate Accepted(block: string) {
    IsOpenBlock(block) || IsSelectionBlock(block)
  }

  /** The blocks one of the rules accepts, in order. */
  function AcceptedBlocks(blocks: seq<string>): (r: seq<string>)
    ensures forall x :: x in r <==> x in blocks && Accepted(x)
    decreases |blocks|
  {
    if blocks == [] then []
    else (if Accepted(blocks[0]) then [blocks[0]] else []) + AcceptedBlocks(blocks[1..])
  }

  /** The filter keeps the order of the blocks: filtering two runs of blocks gives the
      filtered runs one after the other. */
  lemma {:induction false} AcceptedAppend(a: seq<string>, b: seq<string>)
    ensures AcceptedBlocks(a + b) == AcceptedBlocks(a) + AcceptedBlocks(b)
    decreases |a|
  {
    if a == [] {
      assert a + b == b;
    } else {
      assert (a + b)[0] == a[0];
      assert (a + b)[1..] == a[1..] + b;
      AcceptedAppend(a[1..], b);
    }
  }

  /** Each block the filter keeps occurs as often as in the input; no other occurs. */
  lemma {:induction false} AcceptedBlocksCount(blocks: seq<string>)
    ensures forall x :: multiset(AcceptedBlocks(blocks))[x] == if Accepted(x) then multiset(blocks)[x] else 0
    decreases |blocks|
  {
    if blocks != [] {
      AcceptedBlocksCount(blocks[1..]);
      assert blocks == [blocks[0]] + blocks[1..];
    }
  }

  /** What a document's `exercises` entry holds: nothing (`None`) when the text
      extraction returns no content or empty text, and otherwise one exercise per
      block that a rule accepts. `blocks` stands for the numbered-paragraph search. */
  function DocumentExercises(text: Option<string>, blocks: string -> seq<string>): (r: Option<seq<Exercise>>)
    ensures r.None? <==> text.None? || text.value == ""
    ensures r.Some? ==> |r.value| == |AcceptedBlocks(blocks(text.value))|
    ensures r.Some? ==> forall i :: 0 <= i < |r.value| ==> |r.value[i].questions| >= 1
  {
    if text.None? || text.value == "" then None
    else
      ExtractCount(blocks(text.value));
      Some(ExtractExercises(blocks(text.value)))
  }

  /** Text without hyphens, blanks, line breaks or inverted question marks passes the
      replacements unchanged. */
  lemma CleanBreaksKeeps(w: string)
    requires '-' !in w && ' ' !in w && '\n' !in w && '\U{00BF}' !in w
    ensures CleanBreaks(w) == w
  {
    AbsentHead(w, "  ");
    AbsentHead(w, "\U{00BF}?");
    AbsentHead(w, "\n");
  }

  /** `strip('\s:')` drops one stray character after a word that neither starts nor
      ends with one. */
  lemma StrayEndDropped(u: string, c: char)
    requires u != [] && !IsStrayPunct(u[0]) && !IsStrayPunct(u[|u| - 1]) && IsStrayPunct(c)
    ensures StripBy(u + [c], IsStrayPunct) == u
  {
    var w := u + [c];
    assert LeadingCount(w, IsStrayPunct) == 0;
    assert w[0..] == w;
    assert w[..|w| - 1] == u;
    assert TrailingCount(u, IsStrayPunct) == 0;
    assert TrailingCount(w, IsStrayPunct) == 1;
  }

  /** A word of ASCII letters that ends in "s" loses that letter, so the description
      "Contestamos" formats as "Contestamo". */
  lemma TrailingSLost(u: string)
    requires u != [] && u[0] != 's' && u[|u| - 1] != 's'
    requires forall i :: 0 <= i < |u| ==> IsAsciiLetter(u[i])
    ensures FormatExerciseText(u + ['s']) == u
  {
    LettersKept(u, 's');
    WordEndsKept(u, u[0], u[|u| - 1]);
    FormatInSteps(u + ['s'], u);
  }

  /** Both strips leave a word whose ends are letters other than "s", and the stray
      strip takes off a trailing "s". */
  lemma WordEndsKept(u: string, first: char, last: char)
    requires u != [] && first == u[0] && last == u[|u| - 1]
    requires IsAsciiLetter(first) && IsAsciiLetter(last) && first != 's' && last != 's'
    ensures StripBy(u + ['s'], IsStrayPunct) == u && Strip(u) == u
  {
    LetterKept(first);
    LetterKept(last);
    StrayEndDropped(u, 's');
    StripOfTrimmed(u);
  }

  /** An ASCII letter other than "s" is neither white space nor stray punctuation. */
  lemma LetterKept(c: char)
    requires IsAsciiLetter(c) && c != 's'
    ensures !IsStrayPunct(c) && !IsSpace(c)
  {
  }

  /** `format_exercise_text` as the composition of its three stages. */
  lemma FormatInSteps(w: string, u: string)
    requires CleanBreaks(w) == w && StripBy(w, IsStrayPunct) == u && Strip(u) == u
    ensures FormatExerciseText(w) == u
  {
  }

  predicate IsAsciiLetter(c: char) {
    'A' <= c <= 'Z' || 'a' <= c <= 'z'
  }

  /** A word of ASCII letters passes the replacements unchanged. */
  lemma LettersKept(u: string, c: char)
    requires IsAsciiLetter(c) && forall i :: 0 <= i < |u| ==> IsAsciiLetter(u[i])
    ensures CleanBreaks(u + [c]) == u + [c]
  {
    var w := u + [c];
    forall i | 0 <= i < |w|
      ensures IsAsciiLetter(w[i])
    {
      if i < |u| {
        assert w[i] == u[i];
      }
    }
    CleanBreaksKeeps(w);
  }

  /** A word broken at a hyphen and the white space after it is joined again:
      "ejer-\ncicio" is cleaned to "ejercicio". */
  lemma HyphenBreakJoined(u: string, w: string, v: string)
    requires u != [] && v != [] && u[0] != 's' && v[|v| - 1] != 's'
    requires forall i :: 0 <= i < |u| ==> IsAsciiLetter(u[i])
    requires forall i :: 0 <= i < |v| ==> IsAsciiLetter(v[i])
    requires forall i :: 0 <= i < |w| ==> IsSpace(w[i])
    ensures FormatExerciseText(u + "-" + w + v) == u + v
  {
    var s := u + "-" + w + v;
    var j := u + v;
    assert s == u + ("-" + w + v);
    DropKeeps(u, "-" + w + v);
    DropJoins(w, v);
    assert '-' !in v by {
      forall i | 0 <= i < |v| ensures v[i] != '-' {
        assert IsAsciiLetter(v[i]);
      }
    }
    forall i | 0 <= i < |j|
      ensures IsAsciiLetter(j[i])
    {
      if i < |u| {
        assert j[i] == u[i];
      } else {
        assert j[i] == v[i - |u|];
      }
    }
    CleanBreaksKeeps(j);
    LetterKept(j[0]);
    LetterKept(j[|j| - 1]);
    StripByOfTrimmed(j, IsStrayPunct);
    StripOfTrimmed(j);
    FormatStages(s, j);
  }

  /** `format_exercise_text` of a text whose hyphen removal gives `j`, when the
      remaining steps leave `j` as it is. */
  lemma FormatStages(s: string, j: string)
    requires DropHyphenBreaks(s) == j && CleanBreaks(j) == j
    requires StripBy(j, IsStrayPunct) == j && Strip(j) == j
    ensures FormatExerciseText(s) == j
  {
    assert DropHyphenBreaks(j) == DropHyphenBreaks(s);
  }
}
