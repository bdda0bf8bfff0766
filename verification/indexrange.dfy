/** Locating the printed index: the first pages whose text, with spaces removed,
    contains the delimiter repeated five times. */
module IndexRange {
  import opened Results
  import opened PyText

  /** The source PDF as the splitter sees it: a page count, and the text the
      extraction service returns for each page (`None` when it returns no content). */
  datatype Pdf = Pdf(numPages: nat, pageText: nat -> Option<string>)

  /** `get_page_text(index)`: PyPDF2's `getPage` raises for an index past the last page. */
  function PageText(pdf: Pdf, i: nat): (r: Result<Option<string>>)
    ensures r.Ok? <==> i < pdf.numPages
    ensures r.Ok? ==> r.value == pdf.pageText(i)
    ensures r.Err? ==> r.error == PageMissing(i)
  {
    if i < pdf.numPages then Ok(pdf.pageText(i)) else Err(PageMissing(i))
  }

  /** Pages 0 to 19 are searched for the start of the index. */
  const ScanLimit: nat := 20

  /** `index_delimiter * 5`. */
  function Probe(delimiter: string): string {
    delimiter + delimiter + delimiter + delimiter + delimiter
  }

  /** `probe in text.replace(' ', '')`. */
  predicate HasProbe(text: string, probe: string) {
    Contains(Replace(text, " ", ""), probe)
  }

  /** Page `i` exists and its text is non-empty and holds the probe: the test of the
      search for the first index page. */
  predicate StartsIndex(pdf: Pdf, probe: string, i: nat) {
    i < pdf.numPages && pdf.pageText(i).Some? && pdf.pageText(i).value != ""
    && HasProbe(pdf.pageText(i).value, probe)
  }

  /** Page `i` exists, has text, and the text holds the probe: the test that keeps the
      scan for the end of the index going. */
  predicate ContinuesIndex(pdf: Pdf, probe: string, i: nat) {
    i < pdf.numPages && pdf.pageText(i).Some? && HasProbe(pdf.pageText(i).value, probe)
  }

  /** The end-of-index scan started at `from` broke down at page `j`: every page before
      it held the probe, and `j` is past the last page or has no text. */
  predicate ScanBreaksAt(pdf: Pdf, probe: string, from: nat, j: nat) {
    from < j <= pdf.numPages
    && (forall i :: from <= i < j ==> ContinuesIndex(pdf, probe, i))
    && (j == pdf.numPages || pdf.pageText(j).None?)
  }

  /** The `for index in range(0, 20)` loop from `index` on: the page where it breaks, or
      page 19 when it never breaks, with that page's text. */
  function ScanStart(pdf: Pdf, probe: string, index: nat): (r: Result<(nat, Option<string>)>)
    requires index < ScanLimit
    ensures r.Ok? ==> index <= r.value.0 < ScanLimit && r.value.0 < pdf.numPages
                      && r.value.1 == pdf.pageText(r.value.0)
    ensures r.Ok? ==> StartsIndex(pdf, probe, r.value.0) || r.value.0 == ScanLimit - 1
    decreases ScanLimit - index
  {
    var t :- PageText(pdf, index);
    if (t.Some? && t.value != "" && HasProbe(t.value, probe)) || index == ScanLimit - 1 then Ok((index, t))
    else ScanStart(pdf, probe, index + 1)
  }

  /** The `while` loop: from a page with text, advance while the current page holds the
      probe, and return the first page that does not. */
  function ScanEnd(pdf: Pdf, probe: string, index: nat): (r: Result<nat>)
    requires index < pdf.numPages && pdf.pageText(index).Some?
    ensures r.Ok? ==> index <= r.value < pdf.numPages && pdf.pageText(r.value).Some?
                      && !HasProbe(pdf.pageText(r.value).value, probe)
    ensures r.Ok? ==> forall i :: index <= i < r.value ==> ContinuesIndex(pdf, probe, i)
    ensures r.Err? ==> exists j: nat :: ScanBreaksAt(pdf, probe, index, j)
                         && r.error == (if j == pdf.numPages then PageMissing(j) else NoPageText(j))
    decreases pdf.numPages - index
  {
    if !HasProbe(pdf.pageText(index).value, probe) then Ok(index)
    else
      var t :- PageText(pdf, index + 1);
      if t.None? then Err(NoPageText(index + 1))
      else ScanEnd(pdf, probe, index + 1)
  }

  /** `get_index_range(delimiter)`: `(start, end)` of the index pages, or `(-1, numPages)`
      when the last page the search looked at has no text. */
  function GetIndexRange(pdf: Pdf, delimiter: string): (r: Result<(int, int)>)
    ensures r.Ok? ==> (r.value == (-1, pdf.numPages as int)) || (0 <= r.value.0 <= r.value.1 && r.value.1 >= 1)
  {
    var probe := Probe(delimiter);
    var (index, current) :- ScanStart(pdf, probe, 0);
    var notFound: (int, int) := (-1, pdf.numPages);
    if current.None? || current.value == "" then Ok(notFound)
    else
      var e :- ScanEnd(pdf, probe, index);
      Ok((index, e))
  }

  lemma {:induction false} ScanStartFinds(pdf: Pdf, probe: string, k: nat, s: nat)
    requires k <= s < ScanLimit && StartsIndex(pdf, probe, s)
    requires forall i :: k <= i < s ==> !StartsIndex(pdf, probe, i)
    ensures ScanStart(pdf, probe, k) == Ok((s, pdf.pageText(s)))
    decreases s - k
  {
    if k < s {
      assert !StartsIndex(pdf, probe, k);
      ScanStartFinds(pdf, probe, k + 1, s);
    }
  }

  lemma {:induction false} ScanStartMisses(pdf: Pdf, probe: string, k: nat)
    requires k < ScanLimit
    requires forall i :: k <= i < ScanLimit ==> !StartsIndex(pdf, probe, i)
    ensures pdf.numPages >= ScanLimit ==> ScanStart(pdf, probe, k) == Ok((ScanLimit - 1, pdf.pageText(ScanLimit - 1)))
    ensures pdf.numPages < ScanLimit ==> ScanStart(pdf, probe, k).Err?
    decreases ScanLimit - k
  {
    if k < ScanLimit - 1 && k < pdf.numPages {
      assert !StartsIndex(pdf, probe, k);
      ScanStartMisses(pdf, probe, k + 1);
    }
  }

  /** When some page among the first twenty starts the index, the range starts at the
      first such page, every page up to the end holds the probe, and the end page is
      the first one that has text without it. Otherwise the scan ran into a missing
      page or a page without text. */
  lemma IndexRangeFound(pdf: Pdf, delimiter: string, s: nat)
    requires s < ScanLimit && StartsIndex(pdf, Probe(delimiter), s)
    requires forall i :: 0 <= i < s ==> !StartsIndex(pdf, Probe(delimiter), i)
    ensures var r := GetIndexRange(pdf, delimiter);
            r.Ok? ==> && r.value.0 == s && s < r.value.1 < pdf.numPages
                      && (forall i :: s <= i < r.value.1 ==> ContinuesIndex(pdf, Probe(delimiter), i))
                      && pdf.pageText(r.value.1).Some?
                      && !HasProbe(pdf.pageText(r.value.1).value, Probe(delimiter))
    ensures var r := GetIndexRange(pdf, delimiter);
            r.Err? ==> exists j: nat :: ScanBreaksAt(pdf, Probe(delimiter), s, j)
  {
    var probe := Probe(delimiter);
    ScanStartFinds(pdf, probe, 0, s);
    var r := ScanEnd(pdf, probe, s);
    assert r.Err? ==> GetIndexRange(pdf, delimiter) == Err(r.error);
  }

  /** `(-1, numPages)` comes back exactly when none of the first twenty pages starts
      the index and page 19 has no text. */
  lemma IndexRangeNotFound(pdf: Pdf, delimiter: string)
    ensures GetIndexRange(pdf, delimiter) == Ok((-1, pdf.numPages))
            <==> && pdf.numPages >= ScanLimit
                 && (forall i :: 0 <= i < ScanLimit ==> !StartsIndex(pdf, Probe(delimiter), i))
                 && (pdf.pageText(ScanLimit - 1).None? || pdf.pageText(ScanLimit - 1).value == "")
  {
    var probe := Probe(delimiter);
    if exists s :: 0 <= s < ScanLimit && StartsIndex(pdf, probe, s) {
      var s := FirstStart(pdf, probe);
      ScanStartFinds(pdf, probe, 0, s);
    } else {
      ScanStartMisses(pdf, probe, 0);
    }
  }

  /** With no index among the first twenty pages but text on page 19, the range is
      `(19, 19)` rather than the not-found marker. */
  lemma IndexRangeLastPageQuirk(pdf: Pdf, delimiter: string)
    requires pdf.numPages >= ScanLimit
    requires forall i :: 0 <= i < ScanLimit ==> !StartsIndex(pdf, Probe(delimiter), i)
    requires pdf.pageText(ScanLimit - 1).Some? && pdf.pageText(ScanLimit - 1).value != ""
    ensures GetIndexRange(pdf, delimiter) == Ok((19, 19))
  {
    var probe := Probe(delimiter);
    ScanStartMisses(pdf, probe, 0);
    assert !StartsIndex(pdf, probe, ScanLimit - 1);
    assert ScanEnd(pdf, probe, ScanLimit - 1) == Ok(ScanLimit - 1);
  }

  /** The least page below 20 that starts the index. */
  function FirstStart(pdf: Pdf, probe: string): (s: nat)
    requires exists s :: 0 <= s < ScanLimit && StartsIndex(pdf, probe, s)
    ensures s < ScanLimit && StartsIndex(pdf, probe, s)
    ensures forall i :: 0 <= i < s ==> !StartsIndex(pdf, probe, i)
  {
    FirstStartFrom(pdf, probe, 0)
  }

  function FirstStartFrom(pdf: Pdf, probe: string, k: nat): (s: nat)
    requires k <= ScanLimit
    requires exists s :: k <= s < ScanLimit && StartsIndex(pdf, probe, s)
    ensures k <= s < ScanLimit && StartsIndex(pdf, probe, s)
    ensures forall i :: k <= i < s ==> !StartsIndex(pdf, probe, i)
    decreases ScanLimit - k
  {
    if StartsIndex(pdf, probe, k) then k else FirstStartFrom(pdf, probe, k + 1)
  }
}
