/** Decimal text and integers (`str(n)`, `int(s)`), and `sorted` on integer lists. */
module Numbers {
  import opened PyText

  /** `int(s)` for a string of ASCII digits; `int('')` raises, so callers check
      emptiness first. */
  function ParseDecimal(s: string): (n: nat)
    requires forall i :: 0 <= i < |s| ==> IsDigit(s[i])
    decreases |s|
  {
    if s == [] then 0
    else
      assert IsDigit(s[|s| - 1]);
      ParseDecimal(s[..|s| - 1]) * 10 + (s[|s| - 1] as int - '0' as int)
  }

  /** `str(n)` for a natural number, with `ParseDecimal` as its inverse. */
  function ToDecimal(n: nat): (s: string)
    ensures IsDigits(s)
    ensures ParseDecimal(s) == n
    ensures s[0] == '0' ==> n == 0 && |s| == 1
    decreases n
  {
    var d := ['0' + (n % 10) as char];
    if n < 10 then d else ToDecimal(n / 10) + d
  }

  /** A decimal text without a leading zero is `str` of its value: `str(int(s)) == s`. */
  lemma {:induction false} DecimalRoundTrip(s: string)
    requires IsDigits(s) && (|s| == 1 || s[0] != '0')
    ensures ToDecimal(ParseDecimal(s)) == s
    decreases |s|
  {
    var p := s[..|s| - 1];
    var d := s[|s| - 1];
    var v := d as int - '0' as int;
    assert IsDigit(d) && 0 <= v < 10;
    assert forall i :: 0 <= i < |p| ==> p[i] == s[i];
    var n := ParseDecimal(s);
    assert n == ParseDecimal(p) * 10 + v;
    assert n % 10 == v && n / 10 == ParseDecimal(p);
    assert ['0' + (n % 10) as char] == [d];
    if |s| > 1 {
      assert p[0] == s[0] != '0';
      LeadingDigitPositive(p);
      DecimalRoundTrip(p);
      assert ToDecimal(n) == ToDecimal(n / 10) + [d];
      assert s == p + [d];
    } else {
      assert s == [d];
    }
  }

  /** A digit text that does not start with zero has a positive value. */
  lemma {:induction false} LeadingDigitPositive(s: string)
    requires IsDigits(s) && s[0] != '0'
    ensures ParseDecimal(s) > 0
    decreases |s|
  {
    if |s| > 1 {
      var p := s[..|s| - 1];
      assert p[0] == s[0];
      assert forall i :: 0 <= i < |p| ==> p[i] == s[i];
      LeadingDigitPositive(p);
    }
  }

  predicate SortedAsc(s: seq<int>) {
    forall i, j :: 0 <= i < j < |s| ==> s[i] <= s[j]
  }

  /** Puts `x` into an ascending list, before the first larger element. */
  function Insert(x: int, s: seq<int>): (r: seq<int>)
    requires SortedAsc(s)
    ensures SortedAsc(r)
    ensures multiset(r) == multiset(s) + multiset{x}
    decreases |s|
  {
    if s == [] || x <= s[0] then [x] + s
    else
      var rest := Insert(x, s[1..]);
      InsertHeadFacts(x, s, rest);
      [s[0]] + rest
  }

  lemma InsertHeadFacts(x: int, s: seq<int>, rest: seq<int>)
    requires SortedAsc(s) && s != [] && s[0] < x
    requires multiset(rest) == multiset(s[1..]) + multiset{x}
    requires SortedAsc(rest)
    ensures SortedAsc([s[0]] + rest)
    ensures multiset([s[0]] + rest) == multiset(s) + multiset{x}
  {
    assert s == [s[0]] + s[1..];
    forall k | 0 <= k < |rest|
      ensures s[0] <= rest[k]
    {
      assert rest[k] in multiset(rest);
      if rest[k] != x {
        assert rest[k] in multiset(s[1..]);
        var j :| 0 <= j < |s[1..]| && s[1..][j] == rest[k];
        assert s[j + 1] == rest[k];
      }
    }
  }

  /** Python's `sorted(xs)` on integers: an ascending permutation of its argument. */
  function Sort(s: seq<int>): (r: seq<int>)
    ensures SortedAsc(r)
    ensures multiset(r) == multiset(s)
    ensures |r| == |s|
    decreases |s|
  {
    if s == [] then []
    else
      assert s == [s[0]] + s[1..];
      Insert(s[0], Sort(s[1..]))
  }

  /** The head of an ascending list is no larger than any element of a list with the
      same elements. */
  lemma HeadIsLeast(a: seq<int>, b: seq<int>)
    requires SortedAsc(a) && a != [] && b != [] && multiset(a) == multiset(b)
    ensures a[0] <= b[0]
  {
    assert b[0] in multiset(a);
    var i :| 0 <= i < |a| && a[i] == b[0];
  }

  lemma MultisetTail(a: seq<int>)
    requires a != []
    ensures multiset(a[1..]) == multiset(a) - multiset{a[0]}
  {
    assert a == [a[0]] + a[1..];
  }

  /** Two ascending lists with the same elements are the same list. */
  lemma {:induction false} SortedUnique(a: seq<int>, b: seq<int>)
    requires SortedAsc(a) && SortedAsc(b) && multiset(a) == multiset(b)
    ensures a == b
    decreases |a|
  {
    assert |a| == |multiset(a)| == |multiset(b)| == |b|;
    if a != [] {
      HeadIsLeast(a, b);
      HeadIsLeast(b, a);
      MultisetTail(a);
      MultisetTail(b);
      SortedUnique(a[1..], b[1..]);
      assert a == [a[0]] + a[1..] && b == [b[0]] + b[1..];
    }
  }

  /** `sorted` leaves an ascending list as it is. */
  lemma SortOfSorted(s: seq<int>)
    requires SortedAsc(s)
    ensures Sort(s) == s
  {
    SortedUnique(Sort(s), s);
  }

  /** `m` is an element of `s` and no element of `s` is smaller. */
  predicate IsLeast(m: int, s: seq<int>) {
    m in s && forall i :: 0 <= i < |s| ==> m <= s[i]
  }

  /** Dropping the head of `sorted(s)` drops one copy of the least element of `s`. */
  lemma SortDropsLeast(s: seq<int>)
    requires s != []
    ensures IsLeast(Sort(s)[0], s)
    ensures multiset(Sort(s)[1..]) + multiset{Sort(s)[0]} == multiset(s)
  {
    var r := Sort(s);
    assert r[0] in multiset(s);
    forall i | 0 <= i < |s|
      ensures r[0] <= s[i]
    {
      assert s[i] in multiset(r);
    }
    MultisetTail(r);
  }
}
