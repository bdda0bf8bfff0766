/** `generate_index_file`: reading the index pages line by line into a chapter tree.
    Each line is a section header, a leaf with a page number, or noise; page numbers
    that ended up on lines of their own (multi-column layouts) are handed out in
    ascending order to leaves whose own number cannot be read. */
module IndexBuilder {
  import opened Results
  import opened PyText
  import opened Numbers
  import opened ChapterTree
  import opened IndexRange

  /** `PDFParser.strings_to_ignore`: recurring headers of the index pages. */
  const StringsToIgnore: seq<string> :=
    ["\U{00CD}ndice", "Indice", "\U{00ED}ndice", "Gu\U{00ED}a para maestros -"]

  /** The ellipsis character removed from titles. */
  const Ellipsis: char := '\U{2026}'

  /** `is_valid_chapter(text)`: not blank and free of every ignored header. */
  predicate IsValidChapter(text: string) {
    Strip(text) != [] && forall i :: 0 <= i < |StringsToIgnore| ==> !Contains(text, StringsToIgnore[i])
  }

  /** `text.strip()` is truthy exactly when `text` has a character that is not white
      space, so a line is kept when it has one and holds none of the ignored headers. */
  lemma IsValidChapterIff(text: string)
    ensures IsValidChapter(text) <==> (exists i :: 0 <= i < |text| && !IsSpace(text[i]))
                                      && forall i :: 0 <= i < |StringsToIgnore| ==> !Contains(text, StringsToIgnore[i])
  {
  }

  /** `re.match(r"[IVX]+", line)`: the line starts with I, V or X. */
  predicate StartsRoman(line: string) {
    |line| > 0 && (line[0] == 'I' || line[0] == 'V' || line[0] == 'X')
  }

  /** `any(c for c in s if c.isalpha())`. */
  predicate HasAlpha(s: string) {
    exists i :: 0 <= i < |s| && IsAlpha(s[i])
  }

  /** `''.join([c for c in s if c.isdigit()])`. */
  function DigitsOf(s: string): (r: string)
    ensures forall i :: 0 <= i < |r| ==> IsDigit(r[i])
    ensures |r| <= |s|
    ensures (exists i :: 0 <= i < |s| && IsDigit(s[i])) <==> r != []
    ensures (forall i :: 0 <= i < |s| ==> IsDigit(s[i])) ==> r == s
    decreases |s|
  {
    if s == [] then []
    else (if IsDigit(s[0]) then [s[0]] else []) + DigitsOf(s[1..])
  }

  /** The digits keep their order. */
  lemma {:induction false} DigitsOfAppend(a: string, b: string)
    ensures DigitsOf(a + b) == DigitsOf(a) + DigitsOf(b)
    decreases |a|
  {
    if a == [] {
      assert a + b == b;
    } else {
      assert (a + b)[0] == a[0];
      assert (a + b)[1..] == a[1..] + b;
      DigitsOfAppend(a[1..], b);
    }
  }

  /** Each character the filter keeps occurs as often as in the input; no other occurs. */
  lemma {:induction false} DigitsOfCount(s: string)
    ensures forall c :: multiset(DigitsOf(s))[c] == if IsDigit(c) then multiset(s)[c] else 0
    decreases |s|
  {
    if s != [] {
      DigitsOfCount(s[1..]);
      assert s == [s[0]] + s[1..];
    }
  }

  /** `piece.replace('…', '').strip()`. */
  function CleanPiece(piece: string): string {
    Strip(Replace(piece, [Ellipsis], ""))
  }

  /** What a line of the index contributes. */
  datatype LineKind =
      /** A page range, a bare number, or a line starting with I, V or X. */
    | Noise
      /** No delimiter: a section header. */
    | Header(title: string)
      /** The number after the last delimiter was read. */
    | Numbered(title: string, page: nat)
      /** The last piece is blank or has letters: the page comes from the queue, and an
          empty queue is tolerated (the previous page number is reused). */
    | Queued(title: string)
      /** The last piece has no digit before its first `-`: the page comes from the
          queue, and an empty queue is an error. */
    | QueuedStrict(title: string)

  /** The classification at the head of the loop body in `generate_index_file`. */
  function ClassifyLine(line: string, delimiter: string): (r: Result<LineKind>)
    ensures r.Err? <==> delimiter == []
    ensures r.Ok? && r.value.Header? ==> !Contains(line, delimiter)
    ensures r.Ok? && (r.value.Numbered? || r.value.Queued? || r.value.QueuedStrict?)
            ==> Contains(line, delimiter)
    ensures r.Ok? && StartsRoman(line) ==> r.value == Noise
    ensures delimiter != [] ==> r.Ok? && (r.value == Noise <==> NoiseLine(line, Split(line, delimiter)[0]))
    ensures delimiter != [] && !Contains(line, delimiter) && !NoiseLine(line, line)
            ==> r == Ok(Header(CleanPiece(line)))
  {
    if delimiter == [] then Err(EmptySeparator)
    else Ok(ClassifyPieces(line, Split(line, delimiter)))
  }

  /** The skip test of the loop: the text before the first delimiter is, once cleaned
      and without hyphens, all digits (a number or a range such as `5-10`), or the line
      is blank, or it starts with I, V or X. */
  predicate NoiseLine(line: string, first: string) {
    IsDigits(Replace(CleanPiece(first), "-", "")) || Strip(line) == [] || StartsRoman(line)
  }

  /** The classification of a line cut into `texts` at the delimiter. */
  function ClassifyPieces(line: string, texts: seq<string>): (k: LineKind)
    requires |texts| >= 1
    ensures k.Header? ==> |texts| == 1
    ensures k.Numbered? || k.Queued? || k.QueuedStrict? ==> |texts| > 1
    ensures StartsRoman(line) ==> k == Noise
    ensures k == Noise <==> NoiseLine(line, texts[0])
    ensures k.Header? <==> !NoiseLine(line, texts[0]) && |texts| == 1
    ensures k.Header? ==> k.title == CleanPiece(texts[0])
  {
    var title := CleanPiece(texts[0]);
    if NoiseLine(line, texts[0]) then Noise
    else if |texts| == 1 then Header(title)
    else LeafKind(title, texts[|texts| - 1])
  }

  /** A leaf line, from its cleaned title and the piece after its last delimiter. */
  function LeafKind(title: string, last: string): (k: LineKind)
    ensures k.Numbered? || k.Queued? || k.QueuedStrict?
    ensures k.Numbered? ==> k.title == title
    ensures k.Queued? || k.QueuedStrict? ==> k.title == CleanPiece(last) + " " + title
    ensures k.Queued? <==> Strip(last) == [] || HasAlpha(last)
    ensures k.QueuedStrict? <==> Strip(last) != [] && !HasAlpha(last) && DigitsOf(Split(last, "-")[0]) == []
  {
    var combined := CleanPiece(last) + " " + title;
    if Strip(last) == [] || HasAlpha(last) then Queued(combined)
    else
      var digits := DigitsOf(Split(last, "-")[0]);
      if digits == [] then QueuedStrict(combined)
      else Numbered(title, ParseDecimal(digits))
  }

  /** A printed page number after the delimiter is read back as that number. */
  lemma LeafKindReadsNumber(title: string, n: nat)
    ensures LeafKind(title, ToDecimal(n)) == Numbered(title, n)
  {
    LeafKindReadsPadded(title, [], n);
    assert [] + ToDecimal(n) == ToDecimal(n);
  }

  /** A page range after the delimiter is read as its first page. */
  lemma LeafKindReadsRange(title: string, n: nat, rest: string)
    requires !HasAlpha(rest)
    ensures LeafKind(title, ToDecimal(n) + "-" + rest) == Numbered(title, n)
  {
    var digits := ToDecimal(n);
    DigitsSplitHead(digits, rest);
    DigitsNotBlank(digits, rest);
    DigitsNoAlpha(digits, rest);
    assert DigitsOf(digits) == digits;
  }

  lemma DigitsSplitHead(digits: string, rest: string)
    requires IsDigits(digits)
    ensures Split(digits + "-" + rest, "-")[0] == digits
  {
    assert '-' !in digits by {
      forall i | 0 <= i < |digits|
        ensures digits[i] != '-'
      {
        assert IsDigit(digits[i]);
      }
    }
    SplitFirstChar(digits, '-', rest);
  }

  lemma DigitsNotBlank(digits: string, rest: string)
    requires IsDigits(digits)
    ensures Strip(digits + "-" + rest) != []
  {
    assert !IsSpace(digits[0]);
    NotBlank(digits, "-" + rest);
    assert digits + "-" + rest == digits + ("-" + rest);
  }

  lemma DigitsNoAlpha(digits: string, rest: string)
    requires IsDigits(digits) && !HasAlpha(rest)
    ensures !HasAlpha(digits + "-" + rest)
  {
    assert !HasAlpha(digits) by {
      forall i | 0 <= i < |digits|
        ensures !IsAlpha(digits[i])
      {
        assert IsDigit(digits[i]);
      }
    }
    assert !HasAlpha("-");
    NoAlphaConcat(digits, "-");
    NoAlphaConcat(digits + "-", rest);
  }

  lemma NoAlphaConcat(a: string, b: string)
    requires !HasAlpha(a) && !HasAlpha(b)
    ensures !HasAlpha(a + b)
  {
    forall i | 0 <= i < |a + b|
      ensures !IsAlpha((a + b)[i])
    {
      if i >= |a| {
        assert (a + b)[i] == b[i - |a|];
      }
    }
  }

  /** A title that is not skipped as noise: it does not start with I, V or X, and it is
      not a number or page range once cleaned. */
  predicate PlainTitle(title: string) {
    title != [] && Strip(title) != [] && !StartsRoman(title) && !IsDigits(Replace(CleanPiece(title), "-", ""))
  }

  /** A string with a character that is not white space stays non-blank when
      extended. */
  lemma NotBlank(s: string, t: string)
    requires Strip(s) != []
    ensures Strip(s + t) != []
  {
    var i :| 0 <= i < |s| && !IsSpace(s[i]);
    assert (s + t)[i] == s[i];
  }

  /** A line that starts with a plain title and is not blank is classified by its
      pieces alone. */
  lemma PlainLinePieces(line: string, texts: seq<string>)
    requires |texts| > 1 && PlainTitle(texts[0]) && line != [] && line[0] == texts[0][0] && Strip(line) != []
    ensures ClassifyPieces(line, texts) == LeafKind(CleanPiece(texts[0]), texts[|texts| - 1])
  {
  }

  lemma NotBlankTwice(s: string, t: string, u: string)
    requires Strip(s) != []
    ensures Strip(s + t + u) != []
  {
    NotBlank(s, t);
    NotBlank(s + t, u);
  }

  /** An index line written as `title`, the one-character delimiter and a page number
      reads back as that title and that page. */
  lemma ClassifyNumberedLine(title: string, d: char, n: nat)
    requires PlainTitle(title) && d !in title && !IsDigit(d)
    ensures ClassifyLine(title + [d] + ToDecimal(n), [d]) == Ok(Numbered(CleanPiece(title), n))
  {
    var digits := ToDecimal(n);
    var line := title + [d] + digits;
    assert Split(line, [d]) == [title, digits] by {
      assert d !in digits;
      TwoPieces(title, d, digits);
    }
    assert Strip(line) != [] by {
      NotBlankTwice(title, [d], digits);
    }
    assert ClassifyPieces(line, [title, digits]) == LeafKind(CleanPiece(title), digits) by {
      PlainLinePieces(line, [title, digits]);
    }
    LeafKindReadsNumber(CleanPiece(title), n);
    assert ClassifyLine(line, [d]) == Ok(ClassifyPieces(line, Split(line, [d])));
  }

  /** `k` copies of the delimiter: the dotted leader between a title and its page. */
  function Leader(d: char, k: nat): (r: string)
    ensures |r| == k && forall i :: 0 <= i < k ==> r[i] == d
  {
    seq(k, _ => d)
  }

  /** Splitting a leader followed by a text without the delimiter gives one empty
      piece per delimiter and then that text. */
  lemma {:induction false} LeaderPieces(d: char, k: nat, last: string)
    requires d !in last
    ensures |Split(Leader(d, k) + last, [d])| == k + 1
    ensures Split(Leader(d, k) + last, [d])[k] == last
    decreases k
  {
    if k == 0 {
      assert Leader(d, k) + last == last;
      ContainsChar(last, d);
      SplitWhole(last, [d]);
    } else {
      var rest := Leader(d, k - 1) + last;
      assert Leader(d, k) + last == [] + [d] + rest;
      SplitFirstChar([], d, rest);
      LeaderPieces(d, k - 1, last);
    }
  }

  /** Blanks in front of a page number do not change the page read. */
  lemma LeafKindReadsPadded(title: string, pad: string, n: nat)
    requires Blank(pad)
    ensures LeafKind(title, pad + ToDecimal(n)) == Numbered(title, n)
  {
    var digits := ToDecimal(n);
    var last := pad + digits;
    PaddedWithout(pad, digits, '-');
    ContainsChar(last, '-');
    SplitWhole(last, "-");
    PaddedNotBlank(pad, digits);
    PaddedNoAlpha(pad, digits);
    PaddedDigits(pad, digits);
  }

  /** Every character is white space. */
  predicate Blank(pad: string) {
    forall i :: 0 <= i < |pad| ==> IsSpace(pad[i])
  }

  lemma PaddedWithout(pad: string, digits: string, c: char)
    requires Blank(pad) && IsDigits(digits) && !IsSpace(c) && !IsDigit(c)
    ensures c !in pad + digits
  {
    var last := pad + digits;
    forall i | 0 <= i < |last|
      ensures last[i] != c
    {
      if i >= |pad| {
        assert last[i] == digits[i - |pad|];
      }
    }
  }

  lemma PaddedNotBlank(pad: string, digits: string)
    requires IsDigits(digits)
    ensures Strip(pad + digits) != []
  {
    var last := pad + digits;
    assert last[|pad|] == digits[0];
    assert !IsSpace(last[|pad|]);
  }

  lemma PaddedNoAlpha(pad: string, digits: string)
    requires Blank(pad) && IsDigits(digits)
    ensures !HasAlpha(pad + digits)
  {
    var last := pad + digits;
    forall i | 0 <= i < |last|
      ensures !IsAlpha(last[i])
    {
      if i >= |pad| {
        assert last[i] == digits[i - |pad|];
      } else {
        assert IsSpace(last[i]);
      }
    }
  }

  lemma PaddedDigits(pad: string, digits: string)
    requires Blank(pad) && IsDigits(digits)
    ensures DigitsOf(pad + digits) == digits
  {
    DigitsOfAppend(pad, digits);
    DigitsOfBlank(pad);
  }

  lemma {:induction false} DigitsOfBlank(pad: string)
    requires Blank(pad)
    ensures DigitsOf(pad) == []
    decreases |pad|
  {
    if pad != [] {
      assert !IsDigit(pad[0]);
      DigitsOfBlank(pad[1..]);
    }
  }

  /** An index line written as `title`, a leader of `k` delimiters, blanks and a page
      number, as index pages print them (`Capítulo 1.....5`, `Capítulo 1 ..... 5`),
      reads back as that title and that page. */
  lemma {:induction false} ClassifyLeaderLine(title: string, d: char, k: nat, pad: string, n: nat)
    requires PlainTitle(title) && d !in title && !IsDigit(d) && !IsSpace(d) && k >= 1
    requires Blank(pad)
    ensures ClassifyLine(title + Leader(d, k) + pad + ToDecimal(n), [d]) == Ok(Numbered(CleanPiece(title), n))
  {
    var last := pad + ToDecimal(n);
    var line := title + Leader(d, k) + last;
    PaddedWithout(pad, ToDecimal(n), d);
    LeaderLinePieces(title, d, k, last);
    LeafKindReadsPadded(CleanPiece(title), pad, n);
    ClassifyLineByPieces(line, d);
    ConcatAssoc(title + Leader(d, k), pad, ToDecimal(n));
  }

  lemma ConcatAssoc(a: string, b: string, c: string)
    ensures a + (b + c) == a + b + c
  {
  }

  /** A leader line whose last text has no delimiter is the leaf of its title and
      that text. */
  lemma {:induction false} LeaderLinePieces(title: string, d: char, k: nat, last: string)
    requires PlainTitle(title) && d !in title && d !in last && k >= 1
    ensures ClassifyPieces(title + Leader(d, k) + last, Split(title + Leader(d, k) + last, [d]))
            == LeafKind(CleanPiece(title), last)
  {
    LeaderLineParts(title, d, k, last);
    LeafPieces(title + Leader(d, k) + last, Split(title + Leader(d, k) + last, [d]), title, last);
  }

  /** A non-blank line that starts with `title` and whose pieces run from `title` to
      `last`. */
  predicate LeafParts(line: string, texts: seq<string>, title: string, last: string) {
    && title != [] && line != [] && line[0] == title[0] && Strip(line) != []
    && |texts| >= 2 && texts[0] == title && texts[|texts| - 1] == last
  }

  lemma LeaderLineParts(title: string, d: char, k: nat, last: string)
    requires title != [] && Strip(title) != [] && d !in title && d !in last && k >= 1
    ensures LeafParts(title + Leader(d, k) + last, Split(title + Leader(d, k) + last, [d]), title, last)
  {
    LeaderLineFront(title, d, k, last);
    LeaderLineSplit(title, d, k, last);
  }

  lemma LeaderLineFront(title: string, d: char, k: nat, last: string)
    requires title != [] && Strip(title) != []
    ensures title + Leader(d, k) + last != [] && (title + Leader(d, k) + last)[0] == title[0]
    ensures Strip(title + Leader(d, k) + last) != []
  {
    NotBlankTwice(title, Leader(d, k), last);
    assert (title + Leader(d, k))[0] == title[0];
  }

  lemma LeafPieces(line: string, texts: seq<string>, title: string, last: string)
    requires PlainTitle(title) && LeafParts(line, texts, title, last)
    ensures ClassifyPieces(line, texts) == LeafKind(CleanPiece(title), last)
  {
    PlainLinePieces(line, texts);
  }

  lemma ClassifyLineByPieces(line: string, d: char)
    ensures ClassifyLine(line, [d]) == Ok(ClassifyPieces(line, Split(line, [d])))
  {
  }

  /** A leader line splits into its title, empty pieces and its last text. */
  lemma LeaderLineSplit(title: string, d: char, k: nat, last: string)
    requires d !in title && d !in last && k >= 1
    ensures |Split(title + Leader(d, k) + last, [d])| == k + 1
    ensures Split(title + Leader(d, k) + last, [d])[0] == title
    ensures Split(title + Leader(d, k) + last, [d])[k] == last
    ensures Split(title + Leader(d, k) + last, [d])[|Split(title + Leader(d, k) + last, [d])| - 1] == last
  {
    var rest := Leader(d, k - 1) + last;
    LeaderCons(d, k);
    assert title + Leader(d, k) + last == title + [d] + rest;
    SplitFirstChar(title, d, rest);
    LeaderPieces(d, k - 1, last);
  }

  lemma LeaderCons(d: char, k: nat)
    requires k >= 1
    ensures Leader(d, k) == [d] + Leader(d, k - 1)
  {
  }

  lemma TwoPieces(a: string, d: char, b: string)
    requires d !in a && d !in b
    ensures Split(a + [d] + b, [d]) == [a, b]
  {
    SplitFirstChar(a, d, b);
    ContainsChar(b, d);
    SplitWhole(b, [d]);
  }

  /** An empty last piece sends the line to the queue, with a blank joined in front
      of the title. */
  lemma LeafKindEmptyLast(title: string)
    ensures LeafKind(title, []) == Queued(" " + title)
  {
    assert Strip([]) == [];
    assert CleanPiece([]) == [];
    assert CleanPiece([]) + " " + title == " " + title;
  }

  /** A line that ends with the delimiter takes its page from the queue; its title
      gets a leading blank (the empty last piece joined in front), which `add_child`
      strips again. */
  lemma ClassifyTrailingDelimiter(title: string, d: char)
    requires PlainTitle(title) && d !in title
    ensures ClassifyLine(title + [d], [d]) == Ok(Queued(" " + CleanPiece(title)))
  {
    var line := title + [d];
    SplitFirstChar(title, d, []);
    assert line == title + [d] + [];
    SplitWhole([], [d]);
    assert Split(line, [d]) == [title, []];
    NotBlank(title, [d]);
    PlainLinePieces(line, [title, []]);
    LeafKindEmptyLast(CleanPiece(title));
  }

  /** A line without the delimiter that is not noise is a section header. */
  lemma ClassifyHeaderLine(line: string, d: char)
    requires PlainTitle(line) && d !in line && Strip(line) != []
    ensures ClassifyLine(line, [d]) == Ok(Header(CleanPiece(line)))
  {
    ContainsChar(line, d);
    SplitWhole(line, [d]);
  }

  /** The loop state that outlives a line: the tree, the current section (an index
      into the root's children; `None` stands for the root, which is where
      `current_section or root_chapter` sends leaves), and `page_number`, which keeps its
      value from line to line and page to page. */
  datatype BuildState = BuildState(root: Chapter, section: Option<nat>, pageNumber: Option<int>)

  /** The shape the builder keeps: the current section is a child of the root; every
      child of the root is a header without a page or a leaf with one; below a header
      there are only leaves. */
  predicate Valid(st: BuildState) {
    && (st.section.Some? ==> st.section.value < |st.root.children| && st.root.children[st.section.value].start.None?)
    && forall i :: 0 <= i < |st.root.children| ==> WellShaped(st.root.children[i])
  }

  predicate IsLeaf(c: Chapter) {
    c.children == [] && c.start.Some? && c.offset.None?
  }

  predicate WellShaped(c: Chapter) {
    IsLeaf(c)
    || (c.start.None? && c.offset.None? && forall j :: 0 <= j < |c.children| ==> IsLeaf(c.children[j]))
  }

  /** Reading lines only ever changes the root's children. */
  predicate SameRoot(a: BuildState, b: BuildState) {
    a.root.text == b.root.text && a.root.start == b.root.start && a.root.offset == b.root.offset
  }

  /** `current_section.add_child(title, start=page)`. */
  function AddLeaf(st: BuildState, title: string, page: int): (r: BuildState)
    requires Valid(st)
    ensures Valid(r)
    ensures r.section == st.section && r.pageNumber == st.pageNumber
    ensures SameRoot(r, st)
    ensures st.section.None? ==> r.root == AddChild(st.root, title, Some(page))
    ensures st.section.Some? ==> var i := st.section.value;
              && |r.root.children| == |st.root.children|
              && r.root.children[i] == AddChild(st.root.children[i], title, Some(page))
              && forall j :: 0 <= j < |r.root.children| && j != i ==> r.root.children[j] == st.root.children[j]
  {
    match st.section
    case None =>
      TopLeafValid(st, title, page);
      st.(root := AddChild(st.root, title, Some(page)))
    case Some(i) =>
      SectionLeafValid(st, i, title, page);
      st.(root := st.root.(children := st.root.children[i := AddChild(st.root.children[i], title, Some(page))]))
  }

  /** A leaf added at the top level keeps the state valid. */
  lemma TopLeafValid(st: BuildState, title: string, page: int)
    requires Valid(st) && st.section.None?
    ensures Valid(st.(root := AddChild(st.root, title, Some(page))))
  {
    var root := AddChild(st.root, title, Some(page));
    AppendShaped(st.root.children, root.children);
  }

  /** A leaf added under the open section keeps the state valid. */
  lemma SectionLeafValid(st: BuildState, i: nat, title: string, page: int)
    requires Valid(st) && st.section == Some(i)
    ensures Valid(st.(root := st.root.(children := st.root.children[i := AddChild(st.root.children[i], title, Some(page))])))
  {
    var open := st.root.children[i];
    var sec := AddChild(open, title, Some(page));
    AppendShaped(open.children, sec.children);
  }

  /** Appending a leaf to well-shaped chapters (or to leaves) keeps them so. */
  lemma AppendShaped(cs: seq<Chapter>, cs': seq<Chapter>)
    requires |cs'| == |cs| + 1 && cs'[..|cs|] == cs && IsLeaf(cs'[|cs|])
    ensures (forall j :: 0 <= j < |cs| ==> WellShaped(cs[j])) ==> forall j :: 0 <= j < |cs'| ==> WellShaped(cs'[j])
    ensures (forall j :: 0 <= j < |cs| ==> IsLeaf(cs[j])) ==> forall j :: 0 <= j < |cs'| ==> IsLeaf(cs'[j])
  {
    forall j | 0 <= j < |cs|
      ensures cs'[j] == cs[j]
    {
      assert cs'[j] == cs'[..|cs|][j];
    }
  }

  /** What one classified line does to the state: the new state and the new position
      in the page-number queue. */
  function Apply(st: BuildState, kind: LineKind, line: string, numbers: seq<int>, cursor: nat)
    : (r: Result<(BuildState, nat)>)
    requires Valid(st) && cursor <= |numbers|
    ensures r.Ok? ==> Valid(r.value.0) && SameRoot(r.value.0, st)
    ensures r.Ok? ==> cursor <= r.value.1 <= cursor + 1 && r.value.1 <= |numbers|
    ensures r.Err? ==> r.error == UnboundPageNumber(line) || r.error == NoPageNumberLeft(line)
    ensures kind == Noise ==> r == Ok((st, cursor))
    ensures kind.Header? ==> && r.Ok? && r.value.1 == cursor
                             && r.value.0.root == AddChild(st.root, kind.title, None)
                             && r.value.0.section == Some(|st.root.children|)
                             && r.value.0.pageNumber == st.pageNumber
    ensures kind.Numbered? ==> r == Ok((AddLeaf(st, kind.title, kind.page).(pageNumber := Some(kind.page)), cursor))
    ensures (kind.Queued? || kind.QueuedStrict?) && cursor < |numbers|
            ==> r == Ok((AddLeaf(st, kind.title, numbers[cursor]).(pageNumber := Some(numbers[cursor])), cursor + 1))
    ensures kind.Queued? && cursor == |numbers|
            ==> if st.pageNumber.None? then r == Err(UnboundPageNumber(line))
                else r == Ok((AddLeaf(st, kind.title, st.pageNumber.value), cursor))
    ensures kind.QueuedStrict? && cursor == |numbers| ==> r == Err(NoPageNumberLeft(line))
  {
    match kind
    case Noise => Ok((st, cursor))
    case Header(t) =>
      var root := AddChild(st.root, t, None);
      assert root.children[..|st.root.children|] == st.root.children;
      Ok((BuildState(root, Some(|st.root.children|), st.pageNumber), cursor))
    case Numbered(t, n) =>
      Ok((AddLeaf(st, t, n).(pageNumber := Some(n)), cursor))
    case Queued(t) =>
      if cursor < |numbers| then
        Ok((AddLeaf(st, t, numbers[cursor]).(pageNumber := Some(numbers[cursor])), cursor + 1))
      else if st.pageNumber.None? then Err(UnboundPageNumber(line))
      else Ok((AddLeaf(st, t, st.pageNumber.value), cursor))
    case QueuedStrict(t) =>
      if cursor < |numbers| then
        Ok((AddLeaf(st, t, numbers[cursor]).(pageNumber := Some(numbers[cursor])), cursor + 1))
      else Err(NoPageNumberLeft(line))
  }

  /** One line of the loop: classify it, then apply it. */
  function Step(st: BuildState, line: string, numbers: seq<int>, cursor: nat, delimiter: string)
    : (r: Result<(BuildState, nat)>)
    requires Valid(st) && cursor <= |numbers|
    ensures r.Ok? ==> Valid(r.value.0) && SameRoot(r.value.0, st) && cursor <= r.value.1 <= |numbers|
    ensures r.Err? ==> delimiter == [] || r.error == UnboundPageNumber(line) || r.error == NoPageNumberLeft(line)
  {
    var kind :- ClassifyLine(line, delimiter);
    Apply(st, kind, line, numbers, cursor)
  }

  /** The inner `for chapter in chapters` loop. */
  function ReadLines(st: BuildState, lines: seq<string>, numbers: seq<int>, cursor: nat, delimiter: string)
    : (r: Result<BuildState>)
    requires Valid(st) && cursor <= |numbers|
    ensures r.Ok? ==> Valid(r.value)
    ensures r.Ok? ==> SameRoot(r.value, st)
    decreases |lines|
  {
    if lines == [] then Ok(st)
    else
      var next :- Step(st, lines[0], numbers, cursor, delimiter);
      ReadLines(next.0, lines[1..], numbers, next.1, delimiter)
  }

  /** The lines of a page that pass `is_valid_chapter`, in order. */
  function ValidLines(lines: seq<string>): (r: seq<string>)
    ensures |r| <= |lines|
    ensures forall i :: 0 <= i < |r| ==> IsValidChapter(r[i])
    ensures forall x :: x in r <==> x in lines && IsValidChapter(x)
    decreases |lines|
  {
    if lines == [] then []
    else (if IsValidChapter(lines[0]) then [lines[0]] else []) + ValidLines(lines[1..])
  }

  /** The valid lines keep their order. */
  lemma {:induction false} ValidLinesAppend(a: seq<string>, b: seq<string>)
    ensures ValidLines(a + b) == ValidLines(a) + ValidLines(b)
    decreases |a|
  {
    if a == [] {
      assert a + b == b;
    } else {
      assert (a + b)[0] == a[0];
      assert (a + b)[1..] == a[1..] + b;
      ValidLinesAppend(a[1..], b);
    }
  }

  /** Each line the filter keeps occurs as often as in the input; no other occurs. */
  lemma {:induction false} ValidLinesCount(lines: seq<string>)
    ensures forall x :: multiset(ValidLines(lines))[x] == if IsValidChapter(x) then multiset(lines)[x] else 0
    decreases |lines|
  {
    if lines != [] {
      ValidLinesCount(lines[1..]);
      assert lines == [lines[0]] + lines[1..];
    }
  }

  /** `[int(num) for num in chapters if num.isdigit()]`. */
  function NumberLines(lines: seq<string>): (r: seq<int>)
    ensures |r| <= |lines|
    ensures forall i :: 0 <= i < |r| ==> r[i] >= 0
    ensures forall x :: x in r ==> exists i :: 0 <= i < |lines| && IsDigits(lines[i]) && ParseDecimal(lines[i]) == x
    ensures forall i :: 0 <= i < |lines| && IsDigits(lines[i]) ==> ParseDecimal(lines[i]) as int in r
    decreases |lines|
  {
    if lines == [] then []
    else (if IsDigits(lines[0]) then [ParseDecimal(lines[0]) as int] else []) + NumberLines(lines[1..])
  }

  /** The numbers keep the order of their lines. */
  lemma {:induction false} NumberLinesAppend(a: seq<string>, b: seq<string>)
    ensures NumberLines(a + b) == NumberLines(a) + NumberLines(b)
    decreases |a|
  {
    if a == [] {
      assert a + b == b;
    } else {
      assert (a + b)[0] == a[0];
      assert (a + b)[1..] == a[1..] + b;
      NumberLinesAppend(a[1..], b);
    }
  }

  /** One index page: its valid lines, read with a fresh queue of the page's
      number-only lines in ascending order. */
  function ReadPage(st: BuildState, text: string, delimiter: string): (r: Result<BuildState>)
    requires Valid(st)
    ensures r.Ok? ==> Valid(r.value)
    ensures r.Ok? ==> SameRoot(r.value, st)
  {
    var lines := ValidLines(Split(text, "\n"));
    ReadLines(st, lines, Sort(NumberLines(lines)), 0, delimiter)
  }

  /** The outer `for pagenum in range(start, end)` loop. */
  function ReadPages(st: BuildState, pdf: Pdf, page: nat, end: nat, delimiter: string): (r: Result<BuildState>)
    requires Valid(st)
    ensures r.Ok? ==> Valid(r.value)
    ensures r.Ok? ==> SameRoot(r.value, st)
    decreases end - page
  {
    if page >= end then Ok(st)
    else
      var text :- PageText(pdf, page);
      if text.None? then Err(NoPageText(page))
      else
        var next :- ReadPage(st, text.value, delimiter);
        ReadPages(next, pdf, page + 1, end, delimiter)
  }

  /** What `generate_index_file` ends with. */
  datatype IndexOutcome =
      /** The index file was already on disk; nothing was read. */
    | Existing(path: string)
      /** No index was found; nothing was written (the function returns `None`). */
    | NoIndex
      /** The index file was written with the serialised tree. */
    | Written(path: string, tree: Chapter)

  /** `generate_index_file(delimiter)` over a file system given as the set of existing
      paths. The written file holds `ToDict(tree)`. */
  function GenerateIndex(existing: set<string>, pdf: Pdf, source: string, indexPath: string, delimiter: string)
    : (r: Result<(IndexOutcome, set<string>)>)
    ensures indexPath in existing ==> r == Ok((Existing(indexPath), existing))
    ensures r.Ok? && r.value.0.Written? ==> r.value.1 == existing + {indexPath} && r.value.0.path == indexPath
    ensures r.Ok? && !r.value.0.Written? ==> r.value.1 == existing
    ensures r.Ok? && r.value.0 == NoIndex
            <==> indexPath !in existing && GetIndexRange(pdf, delimiter).Ok? && GetIndexRange(pdf, delimiter).value.0 == -1
  {
    if indexPath in existing then Ok((Existing(indexPath), existing))
    else
      var range :- GetIndexRange(pdf, delimiter);
      var root := NewChapter(source, None).(offset := Some(range.1));
      if range.0 == -1 then Ok((NoIndex, existing))
      else
        var st :- ReadPages(BuildState(root, None, None), pdf, range.0 as nat, range.1 as nat, delimiter);
        Ok((Written(indexPath, st.root), existing + {indexPath}))
  }

  /** The tree written to the index file has the document as its root title, the end
      of the index range as its offset, and a shape of headers over leaves; because the
      offset is never zero, the file holds `{offset, chapters}`, the chapters being the
      children's dictionaries merged in order. */
  lemma GeneratedIndexShape(existing: set<string>, pdf: Pdf, source: string, indexPath: string, delimiter: string)
    requires GenerateIndex(existing, pdf, source, indexPath, delimiter).Ok?
    requires GenerateIndex(existing, pdf, source, indexPath, delimiter).value.0.Written?
    ensures var tree := GenerateIndex(existing, pdf, source, indexPath, delimiter).value.0.tree;
            var range := GetIndexRange(pdf, delimiter).value;
            && GetIndexRange(pdf, delimiter).Ok?
            && 0 <= range.0 <= range.1
            && tree.text == Strip(source)
            && tree.offset == Some(range.1)
            && tree.start.None?
            && (forall i :: 0 <= i < |tree.children| ==> WellShaped(tree.children[i]))
            && ToDict(tree) == [("offset", JInt(range.1)), ("chapters", JObj(ChildrenData(tree, |tree.children|)))]
  {
    var range := GetIndexRange(pdf, delimiter).value;
    var root := NewChapter(source, None).(offset := Some(range.1));
    assert Valid(BuildState(root, None, None));
    var st := ReadPages(BuildState(root, None, None), pdf, range.0 as nat, range.1 as nat, delimiter);
    assert GenerateIndex(existing, pdf, source, indexPath, delimiter).value.0.tree == st.value.root;
  }

  /** No two children of any node share a title. */
  predicate DistinctTitles(c: Chapter)
    decreases c
  {
    && (forall i, j :: 0 <= i < j < |c.children| ==> c.children[i].text != c.children[j].text)
    && (forall i :: 0 <= i < |c.children| ==> DistinctTitles(c.children[i]))
  }

  /** A tree of headers over leaves whose sibling titles are distinct serialises
      without `update` overwriting anything. */
  lemma ShapedTreeWellKeyed(root: Chapter)
    requires root.start.None? && DistinctTitles(root)
    requires forall i :: 0 <= i < |root.children| ==> WellShaped(root.children[i])
    ensures WellKeyed(root)
  {
    forall i | 0 <= i < |root.children|
      ensures WellKeyed(root.children[i]) && !Truthy(root.children[i].offset)
    {
      var c := root.children[i];
      assert DistinctTitles(c);
      if !IsLeaf(c) {
        forall j | 0 <= j < |c.children|
          ensures WellKeyed(c.children[j])
        {
          assert IsLeaf(c.children[j]);
        }
      }
    }
  }

  /** When no two siblings of the written tree share a title, `flatten_dict` of the
      written chapters lists the non-zero start pages of its leaves in depth-first
      order. */
  lemma WrittenIndexFlattens(existing: set<string>, pdf: Pdf, source: string, indexPath: string, delimiter: string)
    requires GenerateIndex(existing, pdf, source, indexPath, delimiter).Ok?
    requires GenerateIndex(existing, pdf, source, indexPath, delimiter).value.0.Written?
    requires DistinctTitles(GenerateIndex(existing, pdf, source, indexPath, delimiter).value.0.tree)
    ensures var tree := GenerateIndex(existing, pdf, source, indexPath, delimiter).value.0.tree;
            && |ToDict(tree)| == 2 && ToDict(tree)[1].1.JObj?
            && Flatten(ToDict(tree)[1].1.fields) == LeafStarts(tree)
  {
    var tree := GenerateIndex(existing, pdf, source, indexPath, delimiter).value.0.tree;
    GeneratedIndexShape(existing, pdf, source, indexPath, delimiter);
    ToDictShape(tree);
    ShapedTreeWellKeyed(tree);
    FlattenListsLeafStarts(tree);
  }
}
