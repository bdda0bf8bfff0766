# PDF splitter model

This project is a Dafny model of the textbook splitter in `pdf_splitter.py`. The splitter takes a textbook PDF and works in three stages:

1. It finds the dotted table of contents in the first twenty pages.
2. It rebuilds the chapter tree from the index lines and writes it as an `-index.json` structure, `{offset, chapters}`.
3. It cuts the PDF into one file per leaf of that tree. It also picks quiz exercises out of each file's text and collects everything into the `-data.json` book structure.

Everything outside the program is a parameter of the model:

- **PDF.** A page count plus a total function from page number to optional text. Tika returns `None` when a page has no content.
- **File system.** The set of paths that exist.
- **Exercise input.** The text extraction of a written file is a function from its path to optional text. The numbered blocks of a text (the `group(1)` of each match) are a function of that text.

Errors that the source raises are values of `Results.Error`.

Modules, in dependency order:

- `Results`: `Option`, `Result` and the error kinds.
- `PyText`: the parts of Python `str` the code uses.
  - `in`, `replace`, `split` and `strip`.
  - `strip(chars)`.
  - `isspace`, `isdigit`, `isalpha`, `isalnum`.
  - `lower` on ASCII.
- `Numbers`: `int()` over decimal digits, `str()` of a count, and `sorted`.
- `Dicts`: Python dictionaries as ordered association lists. An existing key keeps its position when assigned.
- `ChapterTree`: `Chapter.add_child`, `Chapter.to_dict` and `flatten_dict`.
- `IndexRange`: `get_index_range`.
- `IndexBuilder`: `is_valid_chapter`, and the page and line loops of `generate_index_file` as a left fold.
  - The fold's state is the tree, the current section and the lingering `page_number`.
  - Each page also carries the cursor into its sorted number-only lines.
- `Exercises`: `format_exercise_text` and the block classification of `extract_exercises`.
- `Splitter`: `get_filename`, `write_pages`, `write_pdf` and `generate_data_file`.

The main results:

- **Index lines.** An index line written as a title, a leader of one or more one-character delimiters, optional blanks and a page number (`Capítulo 1.....5`, `Capítulo 1 ..... 5`) reads back as a leaf with the cleaned title at that page. A leaf whose page is a range `n-m` gets page `n`. A line without the delimiter becomes a section. A line is skipped exactly when it is blank, starts with I, V or X, or the text before its first delimiter, cleaned and without hyphens, is all digits (a number or a range).
- **Index file.** The index file the builder writes is `{offset, chapters}` with the offset equal to the end of the index. When no two siblings share a title, its `flatten_dict` lists the leaves' non-zero start pages in depth-first order. Repeated sibling titles can collide (see below), and `update` then keeps only the last of them.
- **Documents and pages.** `write_pdf` calls `write_pages` once per leaf in that order. The `k`-th document runs from the `k`-th printed page (shifted by the offset) up to just before the `(k+1)`-th smallest page. When the index pages ascend, consecutive documents therefore abut, and the last one ends at the last page.
- **Re-runs.** A second run over the file system the first one left writes nothing and returns the same book.
- **Written index is readable.** The data step accepts an index the builder wrote: over it, it only fails when the source has too few pages.
- **Exercises.** Block classification follows block order. It yields one question per lettered item. A single-selection question has at most one correct answer, the first option, and exactly when no later option repeats its text.

## Model

| member | source | states |
|---|---|---|
| PyText.ContainsIff | pdf_splitter.py:208 | `t in s` holds exactly when `t` occurs at some position of `s` |
| PyText.Replace | pdf_splitter.py:219 | `replace` never lengthens the text when the replacement is no longer than the pattern; it only introduces characters of the replacement; it leaves a text without the pattern unchanged |
| PyText.ReplaceIsJoinSplit | pdf_splitter.py:219 | `s.replace(pat, sub)` is `sub.join(s.split(pat))`: the text between the replaced occurrences is kept and every occurrence `split` finds is replaced |
| PyText.ReplaceSinglePass | pdf_splitter.py:562 | `replace` makes one pass: removing `ab` from `aabb` gives `ab`, and `replace('  ', ' ')` turns three blanks into two |
| PyText.RemoveCharGone | pdf_splitter.py:285 | removing a character with `replace(c, '')` leaves no occurrence of it |
| PyText.Split | pdf_splitter.py:284 | `split` gives at least one piece; joining the pieces with the separator gives back the text; no piece holds the separator; there is one piece exactly when the separator does not occur |
| PyText.SplitFirstChar | pdf_splitter.py:284 | splitting on a one-character separator cuts at its first occurrence |
| PyText.SplitUnique | pdf_splitter.py:275 | for a one-character separator, the pieces of `split` are the only separator-free pieces that join back to the text |
| PyText.StripBy | pdf_splitter.py:563 | `strip(chars)` returns a substring of the input with no stripped character at either end; it is empty exactly when every character would be stripped |
| PyText.StripByBounds | pdf_splitter.py:563 | `strip(chars)` returns a slice of its input with only stripped characters before and after it |
| PyText.StripByIdempotent | pdf_splitter.py:563 | stripping twice gives what stripping once gives |
| PyText.Strip | pdf_splitter.py:40 | `strip()` is no longer than its input, its ends are not white space, and its characters come from the input |
| PyText.StripBounds | pdf_splitter.py:40 | `strip()` returns a slice of its input with only white space before and after it |
| PyText.StripOfTrimmed | pdf_splitter.py:40 | a text that neither starts nor ends with white space is its own `strip()` |
| PyText.LowerAscii | pdf_splitter.py:521 | `lower()` keeps the length, turns each ASCII capital into its lower-case letter and changes no other character |
| Numbers.ToDecimal | pdf_splitter.py:65 | the decimal rendering of a count is all digits without a leading zero, and `int()` reads it back as the count |
| Numbers.DecimalRoundTrip | pdf_splitter.py:280 | a digit text without a leading zero is `str` of its `int()` value |
| Numbers.LeadingDigitPositive | pdf_splitter.py:312 | `int()` of a digit text that does not start with zero is positive |
| Numbers.Sort | pdf_splitter.py:280 | `sorted` returns an ascending permutation of its argument |
| Numbers.SortedUnique | pdf_splitter.py:381 | two ascending lists with the same elements are equal |
| Numbers.SortOfSorted | pdf_splitter.py:381 | `sorted` leaves an ascending list unchanged |
| Numbers.SortDropsLeast | pdf_splitter.py:381 | the head of `sorted(s)` is a least element of `s`, and the rest of `sorted(s)` is `s` with one copy of it removed |
| Dicts.Get | pdf_splitter.py:381 | a lookup finds a value exactly when the key is present |
| Dicts.GetAt | pdf_splitter.py:545 | with distinct keys, looking up an entry's key gives that entry's value |
| Dicts.Put | pdf_splitter.py:545 | after `d[k] = v` the key maps to `v` and every other key to what it mapped to before; an existing key keeps its place, a new one is appended; distinct keys stay distinct |
| Dicts.Update | pdf_splitter.py:50 | after `update` the keys are those of both dictionaries; distinct keys stay distinct; with fresh distinct keys, `update` appends the other dictionary's entries |
| Dicts.UpdateGet | pdf_splitter.py:50 | when the other dictionary has distinct keys, after `update` a key of it maps to its value there and every other key keeps its value |
| Dicts.UpdateKeepsPositions | pdf_splitter.py:50 | `update` keeps every existing key at its position and puts new keys after them |
| Dicts.KeysPut | pdf_splitter.py:545 | `d[k] = v` leaves the key order as it was for an existing key and appends a new key |
| ChapterTree.CountTitle | pdf_splitter.py:64-65 | the count of siblings with a title is zero exactly when no sibling carries it |
| ChapterTree.AddChild | pdf_splitter.py:62-70 | `add_child` appends exactly one child at the end and leaves the parent and earlier children unchanged; the new title is the stripped text when no sibling has exactly that text, and otherwise the stripped `text (n)` with `n` the number of siblings that do |
| ChapterTree.AddFreshTitle | pdf_splitter.py:64-67 | a trimmed title no sibling carries is kept as it is |
| ChapterTree.AddSecondTitle | pdf_splitter.py:64-65 | a trimmed title one sibling carries becomes `title (1)` |
| ChapterTree.ThirdDuplicateRepeatsSuffix | pdf_splitter.py:64-65 | adding the same title three times gives `X`, `X (1)`, `X (1)` |
| ChapterTree.ToDictShape | pdf_splitter.py:44-60 | `to_dict` gives `{offset, chapters}` exactly for a node with a non-zero offset and no non-zero start; otherwise one entry under the node's title, holding a page exactly when the start is non-zero |
| ChapterTree.FlattenAppend | pdf_splitter.py:348-350 | `flatten_dict` of two runs of entries is the concatenation of each run's flattening |
| ChapterTree.FlattenFlat | pdf_splitter.py:348-350 | a dictionary of page numbers only flattens to its values, in order |
| ChapterTree.AppendFresh | pdf_splitter.py:50 | `update` with a one-entry dictionary whose key is new appends that entry |
| ChapterTree.ChildrenDataKeys | pdf_splitter.py:48-50 | in a well-keyed tree, merging the children's dictionaries gives one entry per child, in child order, keyed by its title |
| ChapterTree.ChildrenDataFlat | pdf_splitter.py:48-50 | in a well-keyed tree, flattening the merged children's dictionaries lists the children's leaf starts in child order |
| ChapterTree.ValueFlat | pdf_splitter.py:44-60 | a well-keyed node without an offset serialises as one entry keyed by its title, whose flattening lists its leaf starts |
| ChapterTree.FlattenListsLeafStarts | pdf_splitter.py:342-350 | a well-keyed root with a non-zero offset serialises as `{offset, chapters}`, and `flatten_dict(chapters)` lists every leaf's start page in depth-first child order |
| IndexRange.ScanStart | pdf_splitter.py:217-221 | the start search stops on a page below 20 that exists, and either starts the index or is page 19 |
| IndexRange.ScanEnd | pdf_splitter.py:229-231 | the end scan stops on the first page with text that lacks the probe, every page before it holding the probe; it fails only on a page that is missing or has no text after a run of probe pages |
| IndexRange.GetIndexRange | pdf_splitter.py:210-233 | the range is either `(-1, numPages)` or a non-empty-ended range `0 <= start <= end` with `end >= 1` |
| IndexRange.ScanStartFinds | pdf_splitter.py:217-221 | the start search stops on the first page that starts the index |
| IndexRange.ScanStartMisses | pdf_splitter.py:217-221 | with no index page among pages 0 to 19, the search ends on page 19, or fails when the PDF is shorter |
| IndexRange.FirstStart | pdf_splitter.py:217-220 | the least page below 20 that starts the index starts it, and no earlier page does |
| IndexRange.IndexRangeFound | pdf_splitter.py:210-233 | when some page below 20 starts the index, the range starts at the first such page, ends after it, every page in between holds the probe, and the end page has text without it |
| IndexRange.IndexRangeNotFound | pdf_splitter.py:223-225 | `(-1, numPages)` comes back exactly when no page below 20 starts the index and page 19 has no text |
| IndexRange.IndexRangeLastPageQuirk | pdf_splitter.py:217-233 | with no index page below 20 but text on page 19, the range is `(19, 19)` |
| IndexBuilder.IsValidChapterIff | pdf_splitter.py:208 | a line is valid exactly when it has a character that is not white space and holds none of the ignored strings |
| IndexBuilder.DigitsOf | pdf_splitter.py:312 | keeping the digits gives only digits, is empty exactly when there is no digit, and keeps an all-digit text whole |
| IndexBuilder.DigitsOfAppend | pdf_splitter.py:312 | the digits of two texts are the digits of the first, then those of the second, so the digits keep their order |
| IndexBuilder.DigitsOfCount | pdf_splitter.py:312 | each digit is kept as often as it occurs, and nothing else is kept |
| IndexBuilder.ClassifyLine | pdf_splitter.py:284-300 | classifying a line fails exactly for an empty delimiter; otherwise the line is skipped exactly when it is blank, starts with I, V or X, or the text before its first delimiter, cleaned and without hyphens, is all digits; a line that is not skipped and has no delimiter is a section titled by the cleaned line; a leaf has a delimiter |
| IndexBuilder.ClassifyPieces | pdf_splitter.py:285-300 | a line is skipped exactly when the skip test holds for it and its first piece; otherwise a line in one piece is a section titled by the cleaned piece, and a line in several pieces is a leaf |
| IndexBuilder.LeafKind | pdf_splitter.py:300-319 | a leaf is queued exactly when its last piece is blank or has a letter, and strictly queued exactly when it is neither and has no digit before its first `-`; a leaf with a read page keeps its title; a queued leaf gets the cleaned last piece joined in front of its title |
| IndexBuilder.LeafKindReadsNumber | pdf_splitter.py:312 | a printed page number after the last delimiter is read back as that number |
| IndexBuilder.LeafKindReadsRange | pdf_splitter.py:310-312 | a page range `n-rest` after the last delimiter, with no letter in `rest`, is read as page `n` |
| IndexBuilder.LeafKindReadsPadded | pdf_splitter.py:310-312 | a page number after the last delimiter, with blanks in front of it, is read as that number |
| IndexBuilder.ClassifyNumberedLine | pdf_splitter.py:284-322 | a line `title`, delimiter, page number becomes a leaf with the cleaned title at that page |
| IndexBuilder.ClassifyLeaderLine | pdf_splitter.py:284-312 | a line of a title, a leader of one or more delimiters, blanks and a page number becomes a leaf with the cleaned title at that page |
| IndexBuilder.LeaderPieces | pdf_splitter.py:284 | splitting a leader of `k` delimiters and a text without the delimiter gives `k + 1` pieces, the last being that text |
| IndexBuilder.ClassifyTrailingDelimiter | pdf_splitter.py:300-303 | a line ending with the delimiter takes its page from the queue, with a blank in front of its title |
| IndexBuilder.ClassifyHeaderLine | pdf_splitter.py:291-296 | a plain line without the delimiter becomes a section with the cleaned title |
| IndexBuilder.AddLeaf | pdf_splitter.py:321-322 | a leaf goes to the current section, or to the root when there is none; nothing else changes and the headers-over-leaves shape is kept |
| IndexBuilder.Apply | pdf_splitter.py:287-322 | per line kind: noise changes nothing; a section is added to the root and becomes current; a numbered leaf is added with its page; a queued leaf takes the next queued page; once the queue is used up, a blank-or-lettered leaf reuses the last page (an error if there is none) and a leaf with no digit is an error |
| IndexBuilder.Step | pdf_splitter.py:283-322 | one line keeps the tree's shape and root, advances the queue cursor at most to its end, and fails only on an empty delimiter or a page number it cannot bind |
| IndexBuilder.ReadLines | pdf_splitter.py:283-323 | reading the lines of a page keeps the headers-over-leaves shape and the root's title, start and offset |
| IndexBuilder.ValidLines | pdf_splitter.py:275 | the kept lines are exactly the page's lines that pass `is_valid_chapter` |
| IndexBuilder.ValidLinesAppend | pdf_splitter.py:275 | the valid lines of two runs of lines are those of the first run, then those of the second, so the lines keep their order |
| IndexBuilder.ValidLinesCount | pdf_splitter.py:275 | each valid line is kept as often as it occurs, and no invalid line is kept |
| IndexBuilder.NumberLines | pdf_splitter.py:280 | the queued numbers are exactly the values of the page's all-digit lines |
| IndexBuilder.NumberLinesAppend | pdf_splitter.py:280 | the numbers of two runs of lines are those of the first run, then those of the second, so each number-only line gives one number in line order |
| IndexBuilder.ReadPage | pdf_splitter.py:273-280 | reading one index page keeps the shape and the root |
| IndexBuilder.ReadPages | pdf_splitter.py:273-274 | reading all index pages keeps the shape and the root |
| IndexBuilder.GenerateIndex | pdf_splitter.py:256-329 | an existing index file is returned with nothing written; otherwise no index is reported exactly when the index search returns start -1; a written index adds exactly its path to the file system; otherwise nothing is written |
| IndexBuilder.GeneratedIndexShape | pdf_splitter.py:261-327 | the written tree has the document as root title, the end of the index as its non-zero offset and no start, a headers-over-leaves shape, and serialises as `{offset, chapters}` |
| IndexBuilder.ShapedTreeWellKeyed | pdf_splitter.py:44-60 | a tree of headers over leaves with distinct sibling titles serialises without `update` overwriting any entry |
| IndexBuilder.WrittenIndexFlattens | pdf_splitter.py:326-350 | when no two siblings of the written tree share a title, `flatten_dict` of the written chapters lists the non-zero start pages of its leaves in depth-first order |
| Exercises.DropHyphenBreaks | pdf_splitter.py:562 | removing hyphens with what follows them leaves no hyphen, never lengthens the text, and changes nothing without a hyphen; `DropKeeps` and `DropJoins` fix its result on every text |
| Exercises.CleanBreaks | pdf_splitter.py:562-563 | the replacements leave no hyphen and no line break, never lengthen the text, and introduce only blanks |
| Exercises.FormatExerciseText | pdf_splitter.py:556-563 | the cleaned text is no longer than its input, has no hyphen and no line break, does not start or end with white space, and introduces only blanks |
| Exercises.DropKeeps | pdf_splitter.py:562 | the text before the first hyphen is kept as it is, in front of what the rest cleans to |
| Exercises.DropJoins | pdf_splitter.py:562 | a hyphen is removed together with the whole run of white space after it, line breaks included, and nothing past that run |
| Exercises.HyphenBreakJoined | pdf_splitter.py:556-563 | two words of ASCII letters split by a hyphen and white space (`"ejer-\ncicio"`) are cleaned to the joined word (`"ejercicio"`), when the outer letters are not `s` |
| Exercises.CleanBreaksKeeps | pdf_splitter.py:562 | a word without hyphens, blanks, line breaks or inverted question marks passes the replacements unchanged |
| Exercises.StrayEndDropped | pdf_splitter.py:563 | `strip('\s:')` drops one trailing backslash, `s` or colon after a word |
| Exercises.TrailingSLost | pdf_splitter.py:556-563 | a word of ASCII letters that neither starts nor ends with `s`, followed by `s`, is cleaned to the word without that `s` (so "Contestamos" becomes "Contestamo") |
| Exercises.SplitMarkers | pdf_splitter.py:522 | splitting on lettered markers gives one more piece than markers, the markers put back give the text, the first piece is a prefix, there is more than one piece exactly when a marker occurs, and no piece holds a marker |
| Exercises.Answers | pdf_splitter.py:541-545 | the answers have distinct keys, at most one per option, the options' texts as keys in the order each first appears, and only the first option can be marked correct |
| Exercises.FirstAnswerCorrectIff | pdf_splitter.py:545 | the first option is marked correct exactly when no later option has the same text |
| Exercises.AtMostOneCorrect | pdf_splitter.py:538-546 | at most one answer of a single-selection question is marked correct |
| Exercises.OpenQuestions | pdf_splitter.py:525-530 | each lettered item of an open exercise is a multiple-selection question with the cleaned item as its text and the answers `{"Continuar": true}` |
| Exercises.SelectionQuestion | pdf_splitter.py:538-546 | an upper-case item is a single-selection question whose text is the cleaned text before its first lower-case marker, with distinct answer keys and at most one correct answer |
| Exercises.PartsQuestion | pdf_splitter.py:538-546 | a question built from an item's pieces has the cleaned first piece as text and the answers built from the cleaned later pieces |
| Exercises.SelectionAnswers | pdf_splitter.py:538-546 | the answer keys of an upper-case item are its cleaned options in the order each first appears, and a key is marked true exactly when it is the first option and no later option repeats it |
| Exercises.TrueAnswer | pdf_splitter.py:545 | over all options, a key is marked true exactly when it is the first option and no later option has the same text |
| Exercises.SelectionQuestions | pdf_splitter.py:534-547 | one single-selection question per upper-case item, the `i`-th built from the `i`-th item |
| Exercises.ExtractBlock | pdf_splitter.py:517-553 | a block yields an exercise exactly when one of the two rules accepts it; the open rule wins and gives, per lower-case item, a multiple-selection question with the cleaned item as text and the answers `{"Continuar": true}`; the selection rule gives, per upper-case item, the single-selection question built from it; the description is the cleaned text before the first marker |
| Exercises.SelectionBlockAnswers | pdf_splitter.py:534-546 | in a single-selection block, each question's answer keys are its cleaned options in first-appearance order, and a key is marked true exactly when it is the first option and no later option repeats it |
| Exercises.ExtractExercises | pdf_splitter.py:509-554 | at most one exercise per block, each with at least one question |
| Exercises.BlockExercises | pdf_splitter.py:517-553 | a block gives one exercise when a rule accepts it and none otherwise, and every exercise has a question |
| Exercises.ExtractAppend | pdf_splitter.py:517-553 | the exercises of two runs of blocks are those of each run, in order |
| Exercises.ExtractCount | pdf_splitter.py:548-553 | one exercise comes out per accepted block |
| Exercises.AcceptedBlocks | pdf_splitter.py:521-533 | the accepted blocks are exactly those one of the rules accepts |
| Exercises.AcceptedAppend | pdf_splitter.py:548-553 | the accepted blocks of two runs are those of the first run, then those of the second, so accepted blocks keep their order |
| Exercises.AcceptedBlocksCount | pdf_splitter.py:548-553 | each accepted block is kept as often as it occurs, and no other block is kept |
| Exercises.DocumentExercises | pdf_splitter.py:512-553 | a document has no exercise list exactly when its text is missing or empty; otherwise it has one exercise per accepted block, each with a question |
| Splitter.KeepNameChars | pdf_splitter.py:340 | filtering keeps only letters, digits and hyphens, and keeps a text made of them whole |
| Splitter.KeepNameCharsAppend | pdf_splitter.py:340 | the kept characters of two texts are those of the first, then those of the second, so the characters keep their order |
| Splitter.KeepNameCharsCount | pdf_splitter.py:340 | each letter, digit and hyphen is kept as often as it occurs, and nothing else is kept |
| Splitter.GetFilename | pdf_splitter.py:334-340 | a file name has at most 30 characters, each a letter, digit or hyphen (never a blank) |
| Splitter.GetFilenameKeeps | pdf_splitter.py:340 | a short name made of letters, digits and hyphens is kept as it is |
| Splitter.GetFilenameIdempotent | pdf_splitter.py:340 | cleaning a name twice gives what cleaning it once gives |
| Splitter.RangeFitsIff | pdf_splitter.py:456-466 | the closed-form range test holds exactly when every page of the range can be fetched |
| Splitter.WritePages | pdf_splitter.py:431-472 | an existing destination is returned with nothing written; otherwise the call fails exactly when some page of `[start, end)` cannot be fetched, with the error naming the source, the end page and both data files, and on success adds exactly the directory and the file |
| Splitter.WritePdf | pdf_splitter.py:390-429 | writing the book only adds paths, every requested file exists afterwards, and the only failure is a range error for this source |
| Splitter.WriteEntry | pdf_splitter.py:402-428 | one section or leaf only adds paths, and its requested file exists afterwards |
| Splitter.Plan | pdf_splitter.py:415-422 | the `k`-th leaf is requested from its page minus one plus the offset up to the `k`-th remaining next page minus one plus the offset, or the page count past the end of the iterator, in the folder named by its section |
| Splitter.PlanAppend | pdf_splitter.py:417-419 | the requests of two runs of leaves are those of the first, then those of the second read against the iterator the first left |
| Splitter.WritePdfFollowsPlan | pdf_splitter.py:390-429 | `write_pdf` makes exactly the planned `write_pages` calls, one per leaf in depth-first order, and consumes one next page per leaf |
| Splitter.WritePdfReplay | pdf_splitter.py:447-449 | a second run over the file system a successful run left (or any larger one) writes nothing and returns the same book and calls |
| Splitter.LeavesFlatten | pdf_splitter.py:342-350 | the leaves `write_pdf` visits carry, in order, exactly the page numbers `flatten_dict` lists |
| Splitter.NextPages | pdf_splitter.py:381 | the next pages are ascending and one fewer than the index's page numbers |
| Splitter.NextPagesDropsLeast | pdf_splitter.py:381 | the next pages are the index's page numbers with one copy of the least removed, and none when there are no page numbers |
| Splitter.GenerateData | pdf_splitter.py:352-388 | an existing data file is returned with nothing written; a missing index file is an error; on success the data file exists and nothing was removed |
| Splitter.PlanOverIndex | pdf_splitter.py:381-422 | over the index's leaves, the `k`-th request starts at the `k`-th page and ends before the `(k+1)`-th smallest page, or at the page count |
| Splitter.PlanTiles | pdf_splitter.py:415-422 | read against the page numbers after the first, each planned request ends where the next begins and the last ends at the page count |
| Splitter.SplitIsContiguous | pdf_splitter.py:381-422 | `generate_data_file` splits once per index page number, the `k`-th document from the `k`-th printed page and up to just before the `(k+1)`-th smallest one, or to the last page |
| Splitter.SortedIndexTiles | pdf_splitter.py:381-422 | with ascending index pages, consecutive documents abut and the last ends at the last page |
| Splitter.ReadIndexKeys | pdf_splitter.py:381-384 | the `chapters` and `offset` keys of an index file are found with the values put there |
| Splitter.GenerateDataOnIndex | pdf_splitter.py:365-388 | over a well-formed index file, generating the data either writes the data file or fails for too few pages |
| Splitter.WrittenIndexIsReadable | pdf_splitter.py:326-384 | an index file the builder wrote never makes the data step fail as malformed |

## Quirks of the code

These behaviours of `pdf_splitter.py` follow from the code as written; the model keeps them.

- **Duplicate titles.** Disambiguated titles are not always unique. The suffix counts only exact matches, so a third identical title gets ` (1)` again (`ChapterTree.ThirdDuplicateRepeatsSuffix`). The dictionary `to_dict` builds then holds one entry for both, and `flatten_dict` loses a page.
- **Page 0.** A leaf read as page 0 has a false start, so `to_dict` writes it as an empty section and `flatten_dict` lists nothing for it (`ChapterTree.ToDictShape`).
- **Trailing `s`.** `strip('\s:')` strips backslash, `s` and colon, not white space. A word of letters ending in a single `s`, such as "Contestamos", loses it and becomes "Contestamo" (`Exercises.TrailingSLost`).
- **Double blanks.** `replace('  ', ' ')` makes one pass, so a run of three blanks still leaves two (`PyText.ReplaceSinglePass`).
- **Index search.** An index is "not found" only when page 19 has no text. With text on page 19 but no index, the range is `(19, 19)` (`IndexRange.IndexRangeLastPageQuirk`).
- **Roman numerals.** Any line starting with I, V or X is skipped as a roman numeral, including ordinary titles such as "Introducción" (`IndexBuilder.ClassifyLine`).
- **Hyphens.** The cleanup removes every hyphen together with the white space after it, not only hyphenation at line ends (`Exercises.DropJoins`). A word broken at a line end is joined again (`Exercises.HyphenBreakJoined`).
- **Page ranges.** Beyond a range that runs past the page count, a range that reaches below minus the page count also fails. PyPDF2 indexes a Python list, so a negative page counts from the end, and only pages outside `[-numPages, numPages)` raise (`Splitter.WritePages`).

## Left out

- Tika text extraction and PyPDF2 reading and writing are foreign calls. Page text is a function of the page number. A written file's text is a function of its path. The bytes of a split file are not modelled; only its path and its requested range are.
- `CustomDestination` and `CustomPDFReader` patch a PDF library outside this code. They are not part of this model.
- `get_data_file`, JSON parsing and serialisation, and the invalid-JSON `OSError` are file I/O. The index file's parsed content is a parameter of `Splitter.GenerateData`.
- The `re.finditer` scan of `extract_exercises` is not modelled. Its MULTILINE lookahead pattern picks the numbered paragraphs; the model takes its `group(1)` blocks as input.
- `open`, `close`, `__enter__`, `__exit__` and every `print` are resource handling and console output.
- `sushichef.py`, `config.py` and the scripts under `scripts/` are upload glue and directory walks. They are not part of this model.
- The output paths are parameters. `dirname(self.path)`, the index path, the data path and the download URL are not derived from a URL.
- Splitter.WritePages: a failing call returns no file system. The source has already created the destination directory when the range error is raised; the model drops that directory because the error ends the run.
- Splitter.GenerateData: it rejects an index whose `offset` is not an integer before writing anything. The source only fails at the first leaf's arithmetic, so an index without leaves and with a non-integer offset would pass there. Index values other than integers and objects are not representable.
- Splitter.GenerateData: it does not state which exercises each document gets. That follows from `Exercises.DocumentExercises` applied to the text of the written path.
- PyText.IsAlpha and PyText.IsAlnum cover ASCII and Latin-1 letters only. The books are in Spanish and Cree written in Latin script; other Unicode letters are out of scope.
- PyText.IsDigit accepts the ASCII digits only. Python's `isdigit` also accepts the other Unicode digit characters, including superscripts; the model treats them all as non-digits.
- PyText.LowerAscii lowers ASCII capitals only. It is used to look for the ASCII keywords "contestamos" and "seleccionamos", where the other capitals do not matter.
- PyText.Split: for a separator of several characters, the contract does not say that the cuts fall at the leftmost non-overlapping occurrences. `PyText.SplitUnique` pins the pieces down for one-character separators, which are the ones `split('\n')` and `split('-')` use; the body cuts leftmost, as Python does.
- Dicts.UpdateGet: it needs distinct keys in the merged dictionary. With a repeated key the last value wins, which the lemma does not state; the dictionaries `to_dict` merges have distinct keys (`ChapterTree.ToDictShape`).
- The `parser.from_file` call of `extract_exercises` is a foreign call. The text of a written file is a function of its path; `Exercises.DocumentExercises` takes that text and the block function.
- IndexBuilder.ClassifyLeaderLine: it covers a leader made of the delimiter alone, with blanks only before it or before the page number. A leader whose delimiters alternate with blanks (`Capítulo 1 . . . 5`) is computed the same way by `ClassifyLine`, but no lemma states its result.
