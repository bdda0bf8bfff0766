/** `generate_data_file`, `write_pdf` and `write_pages`: cutting the source PDF into
    one file per leaf of the index and assembling the book structure. The file system
    is the set of paths that exist; the PDF is its page count; the text extraction of a
    written file is a function from its path to the numbered blocks of its text. */
module Splitter {
  import opened Results
  import opened PyText
  import opened Numbers
  import opened Dicts
  import opened ChapterTree
  import opened Exercises
  import opened IndexRange
  import opened IndexBuilder

  /** At most this many characters of a title make a file or folder name. */
  const NameLimit: nat := 30

  predicate IsNameChar(c: char) {
    IsAlnum(c) || c == '-'
  }

  /** `[c for c in s if c.isalnum() or c == "-"]`. */
  function KeepNameChars(s: string): (r: string)
    ensures |r| <= |s|
    ensures forall i :: 0 <= i < |r| ==> IsNameChar(r[i])
    ensures (forall i :: 0 <= i < |s| ==> IsNameChar(s[i])) ==> r == s
    decreases |s|
  {
    if s == [] then []
    else (if IsNameChar(s[0]) then [s[0]] else []) + KeepNameChars(s[1..])
  }

  /** The filter keeps the order of the characters. */
  lemma {:induction false} KeepNameCharsAppend(a: string, b: string)
    ensures KeepNameChars(a + b) == KeepNameChars(a) + KeepNameChars(b)
    decreases |a|
  {
    if a == [] {
      assert a + b == b;
    } else {
      assert (a + b)[0] == a[0];
      assert (a + b)[1..] == a[1..] + b;
      KeepNameCharsAppend(a[1..], b);
    }
  }

  /** Each character the filter keeps occurs as often as in the input; no other occurs. */
  lemma {:induction false} KeepNameCharsCount(s: string)
    ensures forall c :: multiset(KeepNameChars(s))[c] == if IsNameChar(c) then multiset(s)[c] else 0
    decreases |s|
  {
    if s != [] {
      KeepNameCharsCount(s[1..]);
      assert s == [s[0]] + s[1..];
    }
  }

  /** `get_filename(text)`: blanks become hyphens, every other character that is not a
      letter, digit or hyphen is dropped, and the result is cut to thirty characters. */
  function GetFilename(text: string): (r: string)
    ensures |r| <= NameLimit
    ensures forall i :: 0 <= i < |r| ==> IsNameChar(r[i])
  {
    var kept := KeepNameChars(Replace(text, " ", "-"));
    if |kept| <= NameLimit then kept else kept[..NameLimit]
  }

  /** A name that is already short and made of name characters is kept as it is. */
  lemma GetFilenameKeeps(name: string)
    requires |name| <= NameLimit && forall i :: 0 <= i < |name| ==> IsNameChar(name[i])
    ensures GetFilename(name) == name
  {
    assert ' ' !in name by {
      forall i | 0 <= i < |name|
        ensures name[i] != ' '
      {
        assert IsNameChar(name[i]);
      }
    }
    ContainsChar(name, ' ');
  }

  /** Applying `get_filename` twice gives what applying it once gives, so the folder a
      section title names is the same whether or not it was already cleaned. */
  lemma GetFilenameIdempotent(text: string)
    ensures GetFilename(GetFilename(text)) == GetFilename(text)
  {
    GetFilenameKeeps(GetFilename(text));
  }

  /** What the splitter works with: the page count of the source, the directory the
      split files go under (`dirname(self.path)`), the source and the paths of the two
      data files (for the error message), and the text extraction of a written file. */
  datatype Splitter = Splitter(
    numPages: nat,
    outDir: string,
    source: string,
    indexPath: string,
    dataPath: string,
    content: string -> Option<string>,
    blocks: string -> seq<string>)

  /** `self.pdf.getPage(page)` succeeds: PyPDF2 indexes a Python list of pages, so a
      negative index counts from the end. */
  predicate PageExists(numPages: nat, page: int) {
    -(numPages as int) <= page < numPages
  }

  /** Every page of `range(start, end)` can be fetched, in closed form. */
  predicate RangeFits(numPages: nat, start: int, end: int) {
    start >= end || (-(numPages as int) <= start && end <= numPages)
  }

  lemma RangeFitsIff(numPages: nat, start: int, end: int)
    ensures RangeFits(numPages, start, end) <==> forall p :: start <= p < end ==> PageExists(numPages, p)
  {
    if !RangeFits(numPages, start, end) {
      if start < -(numPages as int) {
        assert !PageExists(numPages, start);
      } else {
        assert !PageExists(numPages, end - 1);
      }
    }
  }

  function Directory(sp: Splitter, folder: string): string {
    sp.outDir + "/" + folder
  }

  function DocumentPath(sp: Splitter, title: string, folder: string): string {
    Directory(sp, folder) + "/" + GetFilename(title) + ".pdf"
  }

  /** `write_pages(title, start, end, folder)`: the path of the split file and the file
      system afterwards. An existing file is left alone; otherwise the directory and the
      file are created, unless a page of the range is missing. */
  function WritePages(sp: Splitter, fs: set<string>, title: string, start: int, end: int, folder: string)
    : (r: Result<(string, set<string>)>)
    ensures r.Ok? ==> r.value.0 == DocumentPath(sp, title, folder) && r.value.0 in r.value.1
    ensures DocumentPath(sp, title, folder) in fs ==> r == Ok((DocumentPath(sp, title, folder), fs))
    ensures DocumentPath(sp, title, folder) !in fs ==>
              (r.Err? <==> exists p :: start <= p < end && !PageExists(sp.numPages, p))
    ensures DocumentPath(sp, title, folder) !in fs && r.Ok? ==>
              r.value.1 == fs + {Directory(sp, folder), DocumentPath(sp, title, folder)}
    ensures r.Err? ==> r.error == TooFewPages(sp.source, end, sp.indexPath, sp.dataPath)
  {
    var path := DocumentPath(sp, title, folder);
    RangeFitsIff(sp.numPages, start, end);
    if path in fs then Ok((path, fs))
    else if !RangeFits(sp.numPages, start, end) then Err(TooFewPages(sp.source, end, sp.indexPath, sp.dataPath))
    else Ok((path, fs + {Directory(sp, folder), path}))
  }

  /** One node of the `-data.json` structure. */
  datatype BookEntry =
    | Section(header: string, chapters: seq<BookEntry>)
    | Document(chapter: string, path: string, exercises: Option<seq<Exercise>>)

  /** The arguments of one `write_pages` call. */
  datatype Request = Request(title: string, start: int, end: int, folder: string)

  /** What a `write_pdf` call leaves behind: the book entries it returns, the page
      numbers left in the shared iterator, the file system, and its `write_pages`
      calls in order. */
  datatype Run = Run(book: seq<BookEntry>, pages: seq<int>, fs: set<string>, calls: seq<Request>)

  function Tail(pages: seq<int>): seq<int> {
    if pages == [] then [] else pages[1..]
  }

  /** `write_pdf(chapter_data, offset, pages, folder)`. */
  function WritePdf(sp: Splitter, entries: Dict<Json>, offset: int, pages: seq<int>, folder: string, fs: set<string>)
    : (r: Result<Run>)
    ensures r.Ok? ==> fs <= r.value.fs
    ensures r.Ok? ==> forall k :: 0 <= k < |r.value.calls| ==> DocumentPath(sp, r.value.calls[k].title, r.value.calls[k].folder) in r.value.fs
    ensures r.Err? ==> r.error.TooFewPages? && r.error.source == sp.source
    decreases entries
  {
    if entries == [] then Ok(Run([], pages, fs, []))
    else
      var first :- WriteEntry(sp, entries[0], offset, pages, folder, fs);
      var rest :- WritePdf(sp, entries[1..], offset, first.pages, folder, first.fs);
      Ok(Run(first.book + rest.book, rest.pages, rest.fs, first.calls + rest.calls))
  }

  /** The loop body of `write_pdf` for one `(title, data)` pair: a dictionary is a
      section written under the folder named by its title; a number is a leaf whose
      file ends where the next page number of the iterator begins (or at the last
      page when the iterator is used up). */
  function WriteEntry(sp: Splitter, e: (string, Json), offset: int, pages: seq<int>, folder: string, fs: set<string>)
    : (r: Result<Run>)
    ensures r.Ok? ==> fs <= r.value.fs
    ensures r.Ok? ==> forall k :: 0 <= k < |r.value.calls| ==> DocumentPath(sp, r.value.calls[k].title, r.value.calls[k].folder) in r.value.fs
    ensures r.Err? ==> r.error.TooFewPages? && r.error.source == sp.source
    decreases e
  {
    match e.1
    case JObj(f) =>
      var sub :- WritePdf(sp, f, offset, pages, e.0, fs);
      Ok(Run([Section(e.0, sub.book)], sub.pages, sub.fs, sub.calls))
    case JInt(data) =>
      var end := if pages == [] then sp.numPages as int else pages[0] - 1 + offset;
      var req := Request(e.0, data - 1 + offset, end, GetFilename(folder));
      var written :- WritePages(sp, fs, req.title, req.start, req.end, req.folder);
      Ok(Run([Document(e.0, written.0, DocumentExercises(sp.content(written.0), sp.blocks))], Tail(pages), written.1, [req]))
  }

  /** A leaf of the index data: its title, its printed page and the title of the
      section it sits in (empty at the top level). */
  datatype Leaf = Leaf(title: string, data: int, folder: string)

  /** The leaves of the index data in the order `write_pdf` visits them. */
  function Leaves(entries: Dict<Json>, folder: string): seq<Leaf>
    decreases entries
  {
    if entries == [] then [] else EntryLeaves(entries[0], folder) + Leaves(entries[1..], folder)
  }

  function EntryLeaves(e: (string, Json), folder: string): seq<Leaf>
    decreases e
  {
    match e.1
    case JObj(f) => Leaves(f, e.0)
    case JInt(data) => [Leaf(e.0, data, folder)]
  }

  /** The page numbers of a list of leaves. */
  function LeafData(leaves: seq<Leaf>): (r: seq<int>)
    ensures |r| == |leaves|
    ensures forall k {:trigger r[k]} :: 0 <= k < |r| ==> r[k] == leaves[k].data
  {
    seq(|leaves|, k requires 0 <= k < |leaves| => leaves[k].data)
  }

  /** The pages the iterator still holds after `k` calls to `next`. */
  function DropPages(pages: seq<int>, k: nat): (r: seq<int>)
    ensures k <= |pages| ==> r == pages[k..]
    ensures k > |pages| ==> r == []
  {
    if k <= |pages| then pages[k..] else []
  }

  /** The `write_pages` calls for a list of leaves, read against the iterator: the
      `k`-th leaf starts at its own page and ends just before the `k`-th remaining page
      number, both shifted by the offset, or at the last page once the iterator is
      used up. */
  function Plan(leaves: seq<Leaf>, offset: int, pages: seq<int>, numPages: nat): (r: seq<Request>)
    ensures |r| == |leaves|
    ensures forall k {:trigger r[k]} :: 0 <= k < |r| ==>
              r[k] == Request(leaves[k].title, leaves[k].data - 1 + offset,
                              if k < |pages| then pages[k] - 1 + offset else numPages,
                              GetFilename(leaves[k].folder))
  {
    seq(|leaves|, k requires 0 <= k < |leaves| =>
      Request(leaves[k].title, leaves[k].data - 1 + offset,
              if k < |pages| then pages[k] - 1 + offset else numPages,
              GetFilename(leaves[k].folder)))
  }

  lemma PlanAppend(a: seq<Leaf>, b: seq<Leaf>, offset: int, pages: seq<int>, numPages: nat)
    ensures Plan(a + b, offset, pages, numPages)
            == Plan(a, offset, pages, numPages) + Plan(b, offset, DropPages(pages, |a|), numPages)
  {
    var l := Plan(a + b, offset, pages, numPages);
    var pa := Plan(a, offset, pages, numPages);
    var pb := Plan(b, offset, DropPages(pages, |a|), numPages);
    forall k | 0 <= k < |l|
      ensures l[k] == (pa + pb)[k]
    {
      if k < |a| {
        assert (a + b)[k] == a[k];
      } else {
        PlanAppendRight(a, b, offset, pages, numPages, k);
      }
    }
  }

  /** The part of the joint plan past `a` is the plan of `b` against the pages `a`
      left over. */
  lemma PlanAppendRight(a: seq<Leaf>, b: seq<Leaf>, offset: int, pages: seq<int>, numPages: nat, k: nat)
    requires |a| <= k < |a| + |b|
    ensures Plan(a + b, offset, pages, numPages)[k]
            == Plan(b, offset, DropPages(pages, |a|), numPages)[k - |a|]
  {
    assert (a + b)[k] == b[k - |a|];
  }

  lemma DropPagesTwice(pages: seq<int>, i: nat, j: nat)
    ensures DropPages(DropPages(pages, i), j) == DropPages(pages, i + j)
  {
  }

  /** `write_pdf` calls `write_pages` once per leaf, in order, with the ranges `Plan`
      gives, and consumes one page number per leaf. */
  lemma {:induction false} WritePdfFollowsPlan(sp: Splitter, entries: Dict<Json>, offset: int, pages: seq<int>,
                                                folder: string, fs: set<string>)
    requires WritePdf(sp, entries, offset, pages, folder, fs).Ok?
    ensures var run := WritePdf(sp, entries, offset, pages, folder, fs).value;
            && run.calls == Plan(Leaves(entries, folder), offset, pages, sp.numPages)
            && run.pages == DropPages(pages, |Leaves(entries, folder)|)
    decreases entries
  {
    if entries != [] {
      var first := WriteEntry(sp, entries[0], offset, pages, folder, fs).value;
      WriteEntryFollowsPlan(sp, entries[0], offset, pages, folder, fs);
      WritePdfFollowsPlan(sp, entries[1..], offset, first.pages, folder, first.fs);
      var a := EntryLeaves(entries[0], folder);
      var b := Leaves(entries[1..], folder);
      PlanAppend(a, b, offset, pages, sp.numPages);
      DropPagesTwice(pages, |a|, |b|);
    }
  }

  lemma {:induction false} WriteEntryFollowsPlan(sp: Splitter, e: (string, Json), offset: int, pages: seq<int>,
                                                  folder: string, fs: set<string>)
    requires WriteEntry(sp, e, offset, pages, folder, fs).Ok?
    ensures var run := WriteEntry(sp, e, offset, pages, folder, fs).value;
            && run.calls == Plan(EntryLeaves(e, folder), offset, pages, sp.numPages)
            && run.pages == DropPages(pages, |EntryLeaves(e, folder)|)
    decreases e
  {
    match e.1
    case JObj(f) =>
      WritePdfFollowsPlan(sp, f, offset, pages, e.0, fs);
    case JInt(data) =>
  }

  /** A second run over the file system a successful run left behind (or any larger
      one) writes nothing and returns the same book: every split file is found on
      disk. */
  lemma {:induction false} WritePdfReplay(sp: Splitter, entries: Dict<Json>, offset: int, pages: seq<int>,
                                           folder: string, fs: set<string>, later: set<string>)
    requires WritePdf(sp, entries, offset, pages, folder, fs).Ok?
    requires WritePdf(sp, entries, offset, pages, folder, fs).value.fs <= later
    ensures WritePdf(sp, entries, offset, pages, folder, later)
            == Ok(WritePdf(sp, entries, offset, pages, folder, fs).value.(fs := later))
    decreases entries
  {
    if entries != [] {
      var first := WriteEntry(sp, entries[0], offset, pages, folder, fs).value;
      var rest := WritePdf(sp, entries[1..], offset, first.pages, folder, first.fs).value;
      WriteEntryReplay(sp, entries[0], offset, pages, folder, fs, later);
      WritePdfReplay(sp, entries[1..], offset, first.pages, folder, first.fs, later);
    }
  }

  lemma {:induction false} WriteEntryReplay(sp: Splitter, e: (string, Json), offset: int, pages: seq<int>,
                                             folder: string, fs: set<string>, later: set<string>)
    requires WriteEntry(sp, e, offset, pages, folder, fs).Ok?
    requires WriteEntry(sp, e, offset, pages, folder, fs).value.fs <= later
    ensures WriteEntry(sp, e, offset, pages, folder, later)
            == Ok(WriteEntry(sp, e, offset, pages, folder, fs).value.(fs := later))
    decreases e
  {
    match e.1
    case JObj(f) =>
      WritePdfReplay(sp, f, offset, pages, e.0, fs, later);
    case JInt(data) =>
  }

  /** The page numbers of the leaves are the numbers `flatten_dict` lists. */
  lemma {:induction false} LeavesFlatten(entries: Dict<Json>, folder: string)
    ensures LeafData(Leaves(entries, folder)) == Flatten(entries)
    decreases entries
  {
    if entries != [] {
      EntryLeavesFlatten(entries[0], folder);
      LeavesFlatten(entries[1..], folder);
      LeafDataAppend(EntryLeaves(entries[0], folder), Leaves(entries[1..], folder));
    }
  }

  lemma {:induction false} EntryLeavesFlatten(e: (string, Json), folder: string)
    ensures LeafData(EntryLeaves(e, folder)) == FlattenEntry(e)
    decreases e
  {
    match e.1
    case JObj(f) =>
      LeavesFlatten(f, e.0);
    case JInt(data) =>
  }

  lemma LeafDataAppend(a: seq<Leaf>, b: seq<Leaf>)
    ensures LeafData(a + b) == LeafData(a) + LeafData(b)
  {
  }

  /** What `generate_data_file` ends with. */
  datatype DataOutcome =
      /** The data file was already on disk; nothing was read or written. */
    | FoundData(path: string)
      /** The data file was written with this book. */
    | WroteData(path: string, book: seq<BookEntry>)

  /** The page numbers fed to `write_pdf`: `sorted(flatten_dict(chapters))[1:]`. */
  function NextPages(chapters: Dict<Json>): (r: seq<int>)
    ensures |Flatten(chapters)| > 0 ==> |r| == |Flatten(chapters)| - 1
    ensures SortedAsc(r)
  {
    Tail(Sort(Flatten(chapters)))
  }

  /** The page list handed to `write_pdf` is the flattened index without one copy of
      its smallest page. */
  lemma NextPagesDropsLeast(chapters: Dict<Json>)
    ensures Flatten(chapters) == [] ==> NextPages(chapters) == []
    ensures Flatten(chapters) != [] ==>
              exists m :: IsLeast(m, Flatten(chapters)) && multiset(NextPages(chapters)) + multiset{m} == multiset(Flatten(chapters))
  {
    if Flatten(chapters) != [] {
      SortDropsLeast(Flatten(chapters));
    }
  }

  /** `generate_data_file()`, with the index file's parsed contents as `index`. */
  function GenerateData(sp: Splitter, fs: set<string>, index: Json): (r: Result<(DataOutcome, set<string>)>)
    ensures sp.dataPath in fs ==> r == Ok((FoundData(sp.dataPath), fs))
    ensures sp.dataPath !in fs && sp.indexPath !in fs ==> r == Err(MissingIndexFile(sp.source))
    ensures r.Ok? ==> fs <= r.value.1 && sp.dataPath in r.value.1
    ensures r.Ok? && r.value.0.WroteData? ==> r.value.0.path == sp.dataPath
  {
    if sp.dataPath in fs then Ok((FoundData(sp.dataPath), fs))
    else if sp.indexPath !in fs then Err(MissingIndexFile(sp.source))
    else if !index.JObj? then Err(MalformedIndex(sp.indexPath))
    else
      var chapters := Get(index.fields, "chapters");
      var offset := Get(index.fields, "offset");
      if !(chapters.Some? && chapters.value.JObj? && offset.Some? && offset.value.JInt?) then
        Err(MalformedIndex(sp.indexPath))
      else
        var entries := chapters.value.fields;
        var run :- WritePdf(sp, entries, offset.value.n, NextPages(entries), "", fs);
        Ok((WroteData(sp.dataPath, run.book), run.fs + {sp.dataPath}))
  }

  /** The plan over the index's leaves, read against `NextPages`: the `k`-th request
      starts at the `k`-th leaf's page and ends before the `(k+1)`-th smallest page. */
  lemma PlanOverIndex(calls: seq<Request>, leaves: seq<Leaf>, entries: Dict<Json>, offset: int, numPages: nat)
    requires LeafData(leaves) == Flatten(entries)
    requires calls == Plan(leaves, offset, NextPages(entries), numPages)
    ensures |calls| == |Flatten(entries)|
    ensures forall k :: 0 <= k < |calls| ==> calls[k].start == Flatten(entries)[k] - 1 + offset
    ensures forall k :: 0 <= k < |calls| ==>
              calls[k].end == if k + 1 < |calls| then Sort(Flatten(entries))[k + 1] - 1 + offset else numPages
  {
    PlanStarts(calls, leaves, Flatten(entries), offset, NextPages(entries), numPages);
    PlanEnds(calls, leaves, Sort(Flatten(entries)), offset, numPages);
  }

  lemma PlanStarts(calls: seq<Request>, leaves: seq<Leaf>, starts: seq<int>, offset: int, pages: seq<int>, numPages: nat)
    requires LeafData(leaves) == starts
    requires calls == Plan(leaves, offset, pages, numPages)
    ensures |calls| == |starts|
    ensures forall k :: 0 <= k < |calls| ==> calls[k].start == starts[k] - 1 + offset
  {
    forall k | 0 <= k < |calls|
      ensures calls[k].start == starts[k] - 1 + offset
    {
      assert LeafData(leaves)[k] == leaves[k].data;
    }
  }

  lemma PlanEnds(calls: seq<Request>, leaves: seq<Leaf>, sorted: seq<int>, offset: int, numPages: nat)
    requires |leaves| == |sorted|
    requires calls == Plan(leaves, offset, Tail(sorted), numPages)
    ensures forall k :: 0 <= k < |calls| ==>
              calls[k].end == if k + 1 < |calls| then sorted[k + 1] - 1 + offset else numPages
  {
    var pages := Tail(sorted);
    forall k | 0 <= k < |calls|
      ensures calls[k].end == if k + 1 < |calls| then sorted[k + 1] - 1 + offset else numPages
    {
      if k + 1 < |calls| {
        assert k < |pages| && pages[k] == sorted[k + 1];
      }
    }
  }

  /** The documents follow the index: the `k`-th starts at the `k`-th printed page
      number shifted by the offset and ends just before the `(k+1)`-th smallest one,
      the last running to the end of the source. */
  lemma {:induction false} SplitIsContiguous(sp: Splitter, entries: Dict<Json>, offset: int, pages: seq<int>, fs: set<string>, run: Run)
    requires pages == NextPages(entries)
    requires WritePdf(sp, entries, offset, pages, "", fs) == Ok(run)
    ensures |run.calls| == |Flatten(entries)|
    ensures forall k :: 0 <= k < |run.calls| ==> run.calls[k].start == Flatten(entries)[k] - 1 + offset
    ensures forall k :: 0 <= k < |run.calls| ==>
              run.calls[k].end == if k + 1 < |run.calls| then Sort(Flatten(entries))[k + 1] - 1 + offset else sp.numPages
  {
    SplitFollowsPlan(sp, entries, offset, pages, fs, run);
    PlanOverIndex(run.calls, Leaves(entries, ""), entries, offset, sp.numPages);
  }

  /** A successful split issues the requests of the plan over the index's leaves. */
  lemma SplitFollowsPlan(sp: Splitter, entries: Dict<Json>, offset: int, pages: seq<int>, fs: set<string>, run: Run)
    requires WritePdf(sp, entries, offset, pages, "", fs) == Ok(run)
    ensures run.calls == Plan(Leaves(entries, ""), offset, pages, sp.numPages)
    ensures LeafData(Leaves(entries, "")) == Flatten(entries)
  {
    WritePdfFollowsPlan(sp, entries, offset, pages, "", fs);
    LeavesFlatten(entries, "");
  }

  /** When the index lists its pages in ascending order, the documents tile the source
      from the first leaf's page on: each ends exactly where the next begins and the
      last one ends at the last page. */
  lemma SortedIndexTiles(sp: Splitter, entries: Dict<Json>, offset: int, pages: seq<int>, fs: set<string>, run: Run)
    requires pages == NextPages(entries)
    requires WritePdf(sp, entries, offset, pages, "", fs) == Ok(run)
    requires SortedAsc(Flatten(entries))
    ensures forall k :: 0 <= k < |run.calls| - 1 ==> run.calls[k].end == run.calls[k + 1].start
    ensures run.calls != [] ==> run.calls[|run.calls| - 1].end == sp.numPages
  {
    SplitFollowsPlan(sp, entries, offset, pages, fs, run);
    SortOfSorted(Flatten(entries));
    PlanTiles(run.calls, Leaves(entries, ""), Flatten(entries), offset, sp.numPages);
  }

  /** Read against the page numbers after the first, the plan tiles: each request ends
      where the next begins and the last ends at the last page. */
  lemma PlanTiles(calls: seq<Request>, leaves: seq<Leaf>, starts: seq<int>, offset: int, numPages: nat)
    requires LeafData(leaves) == starts
    requires calls == Plan(leaves, offset, Tail(starts), numPages)
    ensures forall k :: 0 <= k < |calls| - 1 ==> calls[k].end == calls[k + 1].start
    ensures calls != [] ==> calls[|calls| - 1].end == numPages
  {
    forall k | 0 <= k < |calls| - 1
      ensures calls[k].end == calls[k + 1].start
    {
      assert Tail(starts)[k] == starts[k + 1] == leaves[k + 1].data;
    }
  }


  /** The two keys of an index file with an offset are found where they were put. */
  lemma ReadIndexKeys(offset: int, chapters: Dict<Json>)
    ensures var d := [("offset", JInt(offset)), ("chapters", JObj(chapters))];
            Get(d, "chapters") == Some(JObj(chapters)) && Get(d, "offset") == Some(JInt(offset))
  {
    var d := [("offset", JInt(offset)), ("chapters", JObj(chapters))];
    assert "offset" != "chapters" by { assert "offset"[0] != "chapters"[0]; }
    assert d[1..] == [("chapters", JObj(chapters))];
  }

  /** Over a well-formed index file, `generate_data_file` writes the data file unless
      the source has too few pages. */
  lemma GenerateDataOnIndex(sp: Splitter, fs: set<string>, offset: int, chapters: Dict<Json>)
    requires sp.dataPath !in fs && sp.indexPath in fs
    ensures var r := GenerateData(sp, fs, JObj([("offset", JInt(offset)), ("chapters", JObj(chapters))]));
            (r.Ok? && r.value.0 == WroteData(sp.dataPath, r.value.0.book)) || r.error.TooFewPages?
  {
    ReadIndexKeys(offset, chapters);
  }

  /** An index file the builder wrote is one the data step can read: over it,
      `generate_data_file` either writes the data file or stops because the source has
      too few pages, never because the index is malformed. */
  lemma WrittenIndexIsReadable(sp: Splitter, existing: set<string>, pdf: Pdf, delimiter: string)
    requires GenerateIndex(existing, pdf, sp.source, sp.indexPath, delimiter).Ok?
    requires GenerateIndex(existing, pdf, sp.source, sp.indexPath, delimiter).value.0.Written?
    requires sp.dataPath !in GenerateIndex(existing, pdf, sp.source, sp.indexPath, delimiter).value.1
    ensures var out := GenerateIndex(existing, pdf, sp.source, sp.indexPath, delimiter).value;
            var r := GenerateData(sp, out.1, JObj(ToDict(out.0.tree)));
            (r.Ok? && r.value.0 == WroteData(sp.dataPath, r.value.0.book)) || r.error.TooFewPages?
  {
    var out := GenerateIndex(existing, pdf, sp.source, sp.indexPath, delimiter).value;
    GeneratedIndexShape(existing, pdf, sp.source, sp.indexPath, delimiter);
    var range := GetIndexRange(pdf, delimiter).value;
    GenerateDataOnIndex(sp, out.1, range.1, ChildrenData(out.0.tree, |out.0.tree.children|));
  }
}
