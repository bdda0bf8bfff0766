/** The index structure of a book: the `Chapter` tree built from the printed index,
    its serialisation to the nested `{title: page | {...}}` dictionary written to the
    index file, and the flattening of that dictionary into a list of pages. */
module ChapterTree {
  import opened Results
  import opened PyText
  import opened Numbers
  import opened Dicts

  /** One index entry. `start` is the printed page of a leaf; `offset` is only ever
      set on the root (elsewhere it is the class-level default, `None`). */
  datatype Chapter = Chapter(text: string, children: seq<Chapter>, start: Option<int>, offset: Option<int>)

  /** A JSON value of the index structure: a page number or a nested object. */
  datatype Json = JInt(n: int) | JObj(fields: Dict<Json>)

  /** Python truthiness of an optional integer: neither `None` nor `0`. */
  predicate Truthy(o: Option<int>) {
    o.Some? && o.value != 0
  }

  /** `Chapter(text, start=start)`. */
  function NewChapter(text: string, start: Option<int>): (c: Chapter)
    ensures c.children == [] && c.start == start && c.offset == None
    ensures c.text == Strip(text)
  {
    Chapter(Strip(text), [], start, None)
  }

  /** Number of chapters in `cs` whose title is exactly `text`. */
  function CountTitle(cs: seq<Chapter>, text: string): (n: nat)
    ensures n <= |cs|
    ensures n == 0 <==> forall i :: 0 <= i < |cs| ==> cs[i].text != text
    decreases |cs|
  {
    if cs == [] then 0
    else (if cs[|cs| - 1].text == text then 1 else 0) + CountTitle(cs[..|cs| - 1], text)
  }

  /** The title `add_child` gives a new child: unchanged when no sibling has exactly
      this title, otherwise suffixed with the number of siblings that do. */
  function SiblingTitle(siblings: seq<Chapter>, text: string): string {
    var n := CountTitle(siblings, text);
    if n > 0 then text + " (" + ToDecimal(n) + ")" else text
  }

  /** `parent.add_child(text, start)`: appends one child and leaves everything else as
      it was. */
  function AddChild(parent: Chapter, text: string, start: Option<int>): (r: Chapter)
    ensures r.text == parent.text && r.start == parent.start && r.offset == parent.offset
    ensures |r.children| == |parent.children| + 1
    ensures r.children[..|parent.children|] == parent.children
    ensures r.children[|parent.children|].children == []
    ensures r.children[|parent.children|].start == start
    ensures r.children[|parent.children|].offset == None
    ensures (forall i :: 0 <= i < |parent.children| ==> parent.children[i].text != text)
            ==> r.children[|parent.children|].text == Strip(text)
    ensures (exists i :: 0 <= i < |parent.children| && parent.children[i].text == text)
            ==> r.children[|parent.children|].text
                == Strip(text + " (" + ToDecimal(CountTitle(parent.children, text)) + ")")
  {
    var child := NewChapter(SiblingTitle(parent.children, text), start);
    parent.(children := parent.children + [child])
  }

  /** A trimmed title that no sibling carries is kept as it is. */
  lemma AddFreshTitle(parent: Chapter, x: string, start: Option<int>)
    requires x != [] && !IsSpace(x[0]) && !IsSpace(x[|x| - 1])
    requires CountTitle(parent.children, x) == 0
    ensures AddChild(parent, x, start).children[|parent.children|].text == x
  {
    StripOfTrimmed(x);
  }

  /** A trimmed title that exactly one sibling carries gets the suffix ` (1)`. */
  lemma AddSecondTitle(parent: Chapter, x: string, start: Option<int>)
    requires x != [] && !IsSpace(x[0]) && !IsSpace(x[|x| - 1])
    requires CountTitle(parent.children, x) == 1
    ensures AddChild(parent, x, start).children[|parent.children|].text == x + " (1)"
  {
    SuffixOne(x);
    TrimmedSuffix(x, " (1)", x[0], ')');
  }

  /** The suffix for one earlier sibling is ` (1)`. */
  lemma SuffixOne(x: string)
    ensures x + " (" + ToDecimal(1) + ")" == x + " (1)"
  {
    assert ToDecimal(1) == "1";
  }

  /** Appending a suffix that ends in a character other than white space to a trimmed
      title gives a trimmed title. */
  lemma TrimmedSuffix(x: string, suffix: string, first: char, last: char)
    requires x != [] && x[0] == first && !IsSpace(first) && !IsSpace(x[|x| - 1])
    requires suffix != [] && suffix[|suffix| - 1] == last && !IsSpace(last)
    ensures Strip(x + suffix) == x + suffix
  {
    var y := x + suffix;
    assert y[0] == first && y[|y| - 1] == last;
    StripOfTrimmed(y);
  }

  /** Adding the same title three times gives two children titled `X (1)`, because
      the suffix counts only exact matches of `X`. */
  lemma {:induction false} ThirdDuplicateRepeatsSuffix(parent: Chapter, x: string, a: Option<int>, b: Option<int>, c: Option<int>)
    requires x != [] && !IsSpace(x[0]) && !IsSpace(x[|x| - 1])
    requires forall i :: 0 <= i < |parent.children| ==> parent.children[i].text != x
    ensures var p3 := AddChild(AddChild(AddChild(parent, x, a), x, b), x, c);
            var n := |parent.children|;
            && p3.children[n].text == x
            && p3.children[n + 1].text == x + " (1)"
            && p3.children[n + 2].text == x + " (1)"
  {
    var n := |parent.children|;
    var p1 := AddChild(parent, x, a);
    AddFreshTitle(parent, x, a);
    assert p1.children[..n] == parent.children;
    assert CountTitle(p1.children, x) == 1;
    var p2 := AddChild(p1, x, b);
    AddSecondTitle(p1, x, b);
    assert p2.children[..n + 1] == p1.children;
    assert |x + " (1)"| != |x|;
    assert CountTitle(p2.children, x) == 1;
    var p3 := AddChild(p2, x, c);
    AddSecondTitle(p2, x, c);
    assert p3.children[..n + 2] == p2.children;
    assert p3.children[n] == p2.children[n] == p1.children[n];
    assert p3.children[n + 1] == p2.children[n + 1];
  }

  /** `chapter.to_dict()`: a leaf with a non-zero `start` maps its title to the page; any
      other node maps its title to the merged dictionaries of its children, except a
      node with a non-zero `offset`, which becomes `{offset, chapters}`. */
  function ToDict(c: Chapter): (d: Dict<Json>)
    ensures 1 <= |d| <= 2
    decreases c
  {
    if Truthy(c.start) then [(c.text, JInt(c.start.value))]
    else
      var data := ChildrenData(c, |c.children|);
      if Truthy(c.offset) then [("offset", JInt(c.offset.value)), ("chapters", JObj(data))]
      else [(c.text, JObj(data))]
  }

  /** The shape of `to_dict`: the root, and only a node with a non-zero offset and no
      non-zero start, gives the two keys `offset` and `chapters`; every other node gives
      one entry under its own title, holding a page exactly when its start is non-zero. */
  lemma ToDictShape(c: Chapter)
    ensures |ToDict(c)| == 2 <==> !Truthy(c.start) && Truthy(c.offset)
    ensures |ToDict(c)| == 1 ==> ToDict(c)[0].0 == c.text && (ToDict(c)[0].1.JInt? <==> Truthy(c.start))
    ensures |ToDict(c)| == 2 ==> ToDict(c)[0] == ("offset", JInt(c.offset.value)) && ToDict(c)[1].0 == "chapters"
                                 && ToDict(c)[1].1.JObj?
  {
  }

  /** The dictionary `to_dict` builds from the first `n` children with `update`. */
  function ChildrenData(c: Chapter, n: nat): Dict<Json>
    requires n <= |c.children|
    decreases c, n
  {
    if n == 0 then []
    else Update(ChildrenData(c, n - 1), ToDict(c.children[n - 1]))
  }

  /** `flatten_dict(data)`: every integer of a nested dictionary, depth first, in key
      order. */
  function Flatten(d: Dict<Json>): seq<int>
    decreases d
  {
    if d == [] then [] else FlattenEntry(d[0]) + Flatten(d[1..])
  }

  /** A dictionary of pages only flattens to its values, in order. */
  lemma {:induction false} FlattenFlat(d: Dict<Json>)
    requires forall i :: 0 <= i < |d| ==> d[i].1.JInt?
    ensures |Flatten(d)| == |d|
    ensures forall i :: 0 <= i < |d| ==> Flatten(d)[i] == d[i].1.n
    decreases |d|
  {
    if d != [] {
      assert forall i :: 0 <= i < |d[1..]| ==> d[1..][i] == d[i + 1];
      FlattenFlat(d[1..]);
      assert FlattenEntry(d[0]) == [d[0].1.n];
      assert Flatten(d) == [d[0].1.n] + Flatten(d[1..]);
    }
  }

  function FlattenEntry(e: (string, Json)): seq<int>
    decreases e
  {
    FlattenValue(e.1)
  }

  function FlattenValue(v: Json): seq<int>
    decreases v
  {
    match v
    case JInt(n) => [n]
    case JObj(f) => Flatten(f)
  }

  lemma {:induction false} FlattenAppend(d: Dict<Json>, e: Dict<Json>)
    ensures Flatten(d + e) == Flatten(d) + Flatten(e)
    decreases |d|
  {
    if d == [] {
      assert d + e == e;
    } else {
      assert (d + e)[0] == d[0];
      assert (d + e)[1..] == d[1..] + e;
      FlattenAppend(d[1..], e);
    }
  }

  /** The start pages of the nodes `to_dict` writes as pages, in depth-first order. */
  function LeafStarts(c: Chapter): seq<int>
    decreases c
  {
    if Truthy(c.start) then [c.start.value] else LeafStartsOf(c, |c.children|)
  }

  function LeafStartsOf(c: Chapter, n: nat): seq<int>
    requires n <= |c.children|
    decreases c, n
  {
    if n == 0 then [] else LeafStartsOf(c, n - 1) + LeafStarts(c.children[n - 1])
  }

  /** Every level of the tree below a node written as a dictionary has pairwise
      distinct titles, and no child carries an offset, so `update` never overwrites. */
  predicate WellKeyed(c: Chapter)
    decreases c
  {
    Truthy(c.start)
    || ((forall i, j :: 0 <= i < j < |c.children| ==> c.children[i].text != c.children[j].text)
        && (forall i :: 0 <= i < |c.children| ==> !Truthy(c.children[i].offset))
        && (forall i :: 0 <= i < |c.children| ==> WellKeyed(c.children[i])))
  }

  /** Under `WellKeyed`, merging the children's dictionaries just lists one entry per
      child, keyed by its title. */
  lemma {:induction false} ChildrenDataKeys(c: Chapter, n: nat)
    requires n <= |c.children|
    requires !Truthy(c.start) && WellKeyed(c)
    ensures |ChildrenData(c, n)| == n
    ensures forall i :: 0 <= i < n ==> ChildrenData(c, n)[i].0 == c.children[i].text
  {
    if n > 0 {
      ChildrenDataKeys(c, n - 1);
      FreshTitle(c, ChildrenData(c, n - 1), n - 1);
      AppendFresh(ChildrenData(c, n - 1), ToDict(c.children[n - 1]));
    }
  }

  /** Under `WellKeyed`, flattening the merged children's dictionaries lists their
      start pages in child order. */
  lemma {:induction false} ChildrenDataFlat(c: Chapter, n: nat)
    requires n <= |c.children|
    requires !Truthy(c.start) && WellKeyed(c)
    ensures Flatten(ChildrenData(c, n)) == LeafStartsOf(c, n)
    decreases c, n
  {
    if n > 0 {
      var child := c.children[n - 1];
      ChildrenDataFlat(c, n - 1);
      var prev := ChildrenData(c, n - 1);
      ChildrenDataKeys(c, n - 1);
      FreshTitle(c, prev, n - 1);
      ChildWellKeyed(c, n - 1);
      ValueFlat(child);
      AppendChild(prev, ToDict(child), child.text, LeafStartsOf(c, n - 1), LeafStarts(child));
    }
  }

  /** The children of a well-keyed node without a start page are well keyed and carry
      no offset. */
  lemma ChildWellKeyed(c: Chapter, i: nat)
    requires i < |c.children|
    requires !Truthy(c.start) && WellKeyed(c)
    ensures WellKeyed(c.children[i]) && !Truthy(c.children[i].offset)
  {
  }

  /** A child's title is not among the keys of its elder siblings' entries. */
  lemma FreshTitle(c: Chapter, prev: Dict<Json>, m: nat)
    requires m < |c.children|
    requires !Truthy(c.start) && WellKeyed(c)
    requires |prev| == m && forall i :: 0 <= i < m ==> prev[i].0 == c.children[i].text
    ensures !HasKey(prev, c.children[m].text)
  {
    forall i | 0 <= i < |prev|
      ensures prev[i].0 != c.children[m].text
    {
      assert c.children[i].text != c.children[m].text;
    }
  }

  /** Merging in one entry under a new title appends it, and its start pages follow
      the earlier ones. */
  lemma AppendChild(prev: Dict<Json>, e: Dict<Json>, title: string, prevStarts: seq<int>, childStarts: seq<int>)
    requires |e| == 1 && e[0].0 == title && !HasKey(prev, title)
    requires Flatten(prev) == prevStarts && Flatten(e) == childStarts
    ensures Update(prev, e) == prev + e
    ensures Flatten(Update(prev, e)) == prevStarts + childStarts
  {
    AppendFresh(prev, e);
    FlattenAppend(prev, e);
  }

  /** `update` with a one-entry dictionary whose key is new appends that entry. */
  lemma AppendFresh(d: Dict<Json>, e: Dict<Json>)
    requires |e| == 1 && !HasKey(d, e[0].0)
    ensures Update(d, e) == d + e
  {
  }

  lemma {:induction false} ValueFlat(c: Chapter)
    requires WellKeyed(c) && !Truthy(c.offset)
    ensures |ToDict(c)| == 1 && ToDict(c)[0].0 == c.text
    ensures Flatten(ToDict(c)) == LeafStarts(c)
    decreases c, |c.children| + 1
  {
    var d := ToDict(c);
    assert Flatten(d) == FlattenValue(d[0].1) by {
      assert Flatten(d[1..]) == [];
    }
    if !Truthy(c.start) {
      ChildrenDataFlat(c, |c.children|);
    }
  }

  /** For a root with a non-zero offset (and no start page) whose tree is well keyed,
      `to_dict` gives `{offset, chapters}` and `flatten_dict(chapters)` lists the start
      page of every leaf in depth-first child order. */
  lemma FlattenListsLeafStarts(root: Chapter)
    requires Truthy(root.offset) && !Truthy(root.start) && WellKeyed(root)
    ensures |ToDict(root)| == 2
    ensures ToDict(root)[0] == ("offset", JInt(root.offset.value))
    ensures ToDict(root)[1].0 == "chapters" && ToDict(root)[1].1.JObj?
    ensures Flatten(ToDict(root)[1].1.fields) == LeafStarts(root)
  {
    ChildrenDataFlat(root, |root.children|);
  }
}
