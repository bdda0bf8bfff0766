/** The parts of Python's `str` behaviour the splitter relies on: character classes,
    `in`, `replace`, `split`, `strip` and `lower`, with Python's left-to-right,
    non-overlapping matching. */
module PyText {

  /** `c.isspace()`: every character Python counts as white space (the same set the
      `\s` class of `re` matches in a `str` pattern). */
  predicate IsSpace(c: char) {
    var n := c as int;
    n == 0x20 || 0x09 <= n <= 0x0D || 0x1C <= n <= 0x1F || n == 0x85 || n == 0xA0
    || n == 0x1680 || 0x2000 <= n <= 0x200A || n == 0x2028 || n == 0x2029
    || n == 0x202F || n == 0x205F || n == 0x3000
  }

  /** `c.isdigit()` restricted to the ASCII digits. */
  predicate IsDigit(c: char) {
    '0' <= c <= '9'
  }

  /** `c.isalpha()` for ASCII and the Latin-1 letters (Spanish accents and the ordinal
      indicators included). */
  predicate IsAlpha(c: char) {
    var n := c as int;
    'a' <= c <= 'z' || 'A' <= c <= 'Z' || n == 0xAA || n == 0xB5 || n == 0xBA
    || 0xC0 <= n <= 0xD6 || 0xD8 <= n <= 0xF6 || 0xF8 <= n <= 0xFF
  }

  /** `c.isalnum()`. */
  predicate IsAlnum(c: char) {
    IsAlpha(c) || IsDigit(c)
  }

  /** `s.isdigit()`: non-empty and made of digits only. */
  predicate IsDigits(s: string) {
    |s| > 0 && forall i :: 0 <= i < |s| ==> IsDigit(s[i])
  }

  /** `c.lower()` for an ASCII capital; any other character is its own lower case. */
  function LowerChar(c: char): char {
    if 'A' <= c <= 'Z' then (c as int + 32) as char else c
  }

  /** `s.lower()` on the ASCII capitals; every other character is kept. */
  function LowerAscii(s: string): (r: string)
    ensures |r| == |s|
    ensures forall i :: 0 <= i < |r| ==> r[i] == LowerChar(s[i])
    ensures forall i :: 0 <= i < |r| ==> !('A' <= r[i] <= 'Z')
    ensures forall i :: 0 <= i < |r| && !('A' <= s[i] <= 'Z') ==> r[i] == s[i]
    ensures forall i :: 0 <= i < |r| && 'A' <= s[i] <= 'Z' ==> r[i] == (s[i] as int + 32) as char
    decreases |s|
  {
    if s == [] then []
    else
      var rest := LowerAscii(s[1..]);
      LowerCons(s, rest);
      [LowerChar(s[0])] + rest
  }

  lemma LowerCons(s: string, rest: string)
    requires s != [] && |rest| == |s| - 1
    requires forall i :: 0 <= i < |rest| ==> rest[i] == LowerChar(s[1..][i])
    ensures forall i :: 0 <= i < |s| ==> ([LowerChar(s[0])] + rest)[i] == LowerChar(s[i])
  {
    forall i | 0 < i < |s|
      ensures ([LowerChar(s[0])] + rest)[i] == LowerChar(s[i])
    {
      assert s[1..][i - 1] == s[i];
    }
  }

  /** Whether `t` occurs in `s` at position `i`. */
  predicate OccursAt(s: string, t: string, i: int) {
    0 <= i && i + |t| <= |s| && s[i..i + |t|] == t
  }

  /** Python's `t in s`. */
  predicate Contains(s: string, t: string)
    decreases |s|
  {
    if t <= s then true
    else if s == [] then false
    else Contains(s[1..], t)
  }

  lemma {:induction false} ContainsIff(s: string, t: string)
    ensures Contains(s, t) <==> exists i :: OccursAt(s, t, i)
    decreases |s|
  {
    if t <= s {
      assert OccursAt(s, t, 0);
    } else if s != [] {
      ContainsIff(s[1..], t);
      if exists i :: OccursAt(s[1..], t, i) {
        var i :| OccursAt(s[1..], t, i);
        assert s[i + 1..i + 1 + |t|] == s[1..][i..i + |t|];
        assert OccursAt(s, t, i + 1);
      }
      if exists i :: OccursAt(s, t, i) {
        var i :| OccursAt(s, t, i);
        assert i != 0;
        assert s[1..][i - 1..i - 1 + |t|] == s[i..i + |t|];
        assert OccursAt(s[1..], t, i - 1);
      }
    }
  }

  /** A one-character string occurs in `s` exactly when the character does. */
  lemma ContainsChar(s: string, c: char)
    ensures Contains(s, [c]) <==> c in s
  {
    ContainsIff(s, [c]);
    if c in s {
      var i :| 0 <= i < |s| && s[i] == c;
      assert OccursAt(s, [c], i);
    }
    if exists i :: OccursAt(s, [c], i) {
      var i :| OccursAt(s, [c], i);
      assert s[i] == s[i..i + 1][0];
    }
  }

  /** A pattern whose first character does not appear in `s` does not occur in it. */
  lemma AbsentHead(s: string, t: string)
    requires t != [] && t[0] !in s
    ensures !Contains(s, t)
  {
    ContainsIff(s, t);
    forall i
      ensures !OccursAt(s, t, i)
    {
      if 0 <= i && i + |t| <= |s| {
        assert s[i..i + |t|][0] == s[i];
      }
    }
  }

  /** Python's `s.replace(pat, sub)`: every occurrence of `pat`, found left to right
      without overlap, becomes `sub`. */
  function Replace(s: string, pat: string, sub: string): (r: string)
    requires |pat| > 0
    ensures |sub| <= |pat| ==> |r| <= |s|
    ensures forall c :: c in r ==> c in s || c in sub
    ensures !Contains(s, pat) ==> r == s
    decreases |s|
  {
    if pat <= s then sub + Replace(s[|pat|..], pat, sub)
    else if s == [] then []
    else [s[0]] + Replace(s[1..], pat, sub)
  }

  /** `s.replace(c, '')` leaves no `c` behind. */
  lemma {:induction false} RemoveCharGone(s: string, c: char)
    ensures c !in Replace(s, [c], "")
    decreases |s|
  {
    if [c] <= s {
      RemoveCharGone(s[1..], c);
    } else if s != [] {
      RemoveCharGone(s[1..], c);
    }
  }

  /** One pass of `replace` does not rescan what it produced: removing "ab" from
      "aabb" joins an "a" and a "b" into a fresh "ab", and halving double blanks
      turns three blanks into two. */
  lemma ReplaceSinglePass()
    ensures Replace("aabb", "ab", "") == "ab"
    ensures Replace("   ", "  ", " ") == "  "
  {
    assert "   "[2..] == " ";
    assert Replace(" ", "  ", " ") == " ";
    assert "aabb"[1] != "ab"[1];
    assert "ab" <= "abb";
    assert "abb"[2..] == "b";
    assert Replace("b", "ab", "") == "b";
    assert Replace("abb", "ab", "") == "b";
    assert "aabb"[1..] == "abb";
  }

  /** `sep.join(parts)`, the inverse of `Split`. */
  function Join(parts: seq<string>, sep: string): string
  {
    if parts == [] then []
    else if |parts| == 1 then parts[0]
    else parts[0] + sep + Join(parts[1..], sep)
  }

  /** Python's `s.split(sep)` for a non-empty separator: the pieces between the
      occurrences of `sep`, found left to right without overlap. */
  function Split(s: string, sep: string): (r: seq<string>)
    requires |sep| > 0
    ensures |r| >= 1
    ensures Join(r, sep) == s
    ensures |r| == 1 <==> !Contains(s, sep)
    ensures forall i :: 0 <= i < |r| ==> !Contains(r[i], sep)
    decreases |s|
  {
    if sep <= s then
      var rest := Split(s[|sep|..], sep);
      JoinEmptyHead(rest, sep);
      assert s == sep + s[|sep|..];
      PiecesFreeCons([], rest, sep);
      [[]] + rest
    else if s == [] then [[]]
    else
      var rest := Split(s[1..], sep);
      JoinConsHead(rest, s[0], sep);
      HeadPieceFree(s, rest, sep);
      PiecesFreeCons([s[0]] + rest[0], rest[1..], sep);
      [[s[0]] + rest[0]] + rest[1..]
  }

  /** A piece without the separator in front of pieces without it. */
  lemma PiecesFreeCons(p: string, rest: seq<string>, sep: string)
    requires !Contains(p, sep)
    requires forall i :: 0 <= i < |rest| ==> !Contains(rest[i], sep)
    ensures forall i :: 0 <= i < |[p] + rest| ==> !Contains(([p] + rest)[i], sep)
  {
    forall i | 0 < i < |[p] + rest|
      ensures !Contains(([p] + rest)[i], sep)
    {
      assert ([p] + rest)[i] == rest[i - 1];
    }
  }

  /** The first piece is a prefix of the joined text. */
  lemma JoinHeadPrefix(parts: seq<string>, sep: string)
    requires |parts| >= 1
    ensures parts[0] <= Join(parts, sep)
  {
  }

  /** When `s` does not start with the separator, its first character glued onto the
      first piece of the rest does not hold the separator either. */
  lemma HeadPieceFree(s: string, rest: seq<string>, sep: string)
    requires s != [] && |sep| > 0 && !(sep <= s)
    requires |rest| >= 1 && Join(rest, sep) == s[1..] && !Contains(rest[0], sep)
    ensures !Contains([s[0]] + rest[0], sep)
  {
    var p := [s[0]] + rest[0];
    JoinHeadPrefix(rest, sep);
    assert p <= s by {
      assert s == [s[0]] + s[1..];
    }
    assert p[1..] == rest[0];
    assert sep <= p ==> sep <= s;
  }

  /** For a one-character separator, the split is the only way of cutting the text
      into pieces without the separator that join back to it. */
  lemma {:induction false} SplitUnique(parts: seq<string>, c: char)
    requires |parts| >= 1
    requires forall i :: 0 <= i < |parts| ==> c !in parts[i]
    ensures Split(Join(parts, [c]), [c]) == parts
    decreases |parts|
  {
    if |parts| == 1 {
      ContainsChar(parts[0], c);
      SplitWhole(parts[0], [c]);
    } else {
      var tail := parts[1..];
      forall i | 0 <= i < |tail|
        ensures c !in tail[i]
      {
        assert tail[i] == parts[i + 1];
      }
      SplitUnique(tail, c);
      assert c !in parts[0];
      SplitFirstChar(parts[0], c, Join(tail, [c]));
      assert [parts[0]] + tail == parts;
    }
  }

  /** `s.replace(pat, sub)` is `sub.join(s.split(pat))`. */
  lemma {:induction false} ReplaceIsJoinSplit(s: string, pat: string, sub: string)
    requires |pat| > 0
    ensures Replace(s, pat, sub) == Join(Split(s, pat), sub)
    decreases |s|
  {
    if pat <= s {
      var rest := Split(s[|pat|..], pat);
      ReplaceIsJoinSplit(s[|pat|..], pat, sub);
      JoinEmptyHead(rest, sub);
    } else if s != [] {
      var rest := Split(s[1..], pat);
      ReplaceIsJoinSplit(s[1..], pat, sub);
      JoinConsHead(rest, s[0], sub);
    }
  }

  /** An empty first piece puts the separator in front of the joined rest. */
  lemma JoinEmptyHead(parts: seq<string>, sep: string)
    requires |parts| >= 1
    ensures Join([[]] + parts, sep) == sep + Join(parts, sep)
  {
    assert ([[]] + parts)[1..] == parts;
  }

  /** Gluing a character onto the first piece glues it onto the joined text. */
  lemma JoinConsHead(parts: seq<string>, c: char, sep: string)
    requires |parts| >= 1
    ensures Join([[c] + parts[0]] + parts[1..], sep) == [c] + Join(parts, sep)
  {
    var r := [[c] + parts[0]] + parts[1..];
    assert r[0] == [c] + parts[0] && r[1..] == parts[1..];
  }

  /** Splitting on a one-character separator cuts at its first occurrence. */
  lemma {:induction false} SplitFirstChar(a: string, c: char, b: string)
    requires c !in a
    ensures Split(a + [c] + b, [c]) == [a] + Split(b, [c])
    decreases |a|
  {
    if a == [] {
      assert [c] <= [c] + b;
      assert ([c] + b)[1..] == b;
    } else {
      assert (a + [c] + b)[1..] == a[1..] + [c] + b;
      assert (a + [c] + b)[0] == a[0] != c;
      SplitFirstChar(a[1..], c, b);
      assert [a[0]] + a[1..] == a;
    }
  }

  /** A string without the separator splits into itself alone. */
  lemma SplitWhole(s: string, sep: string)
    requires |sep| > 0 && !Contains(s, sep)
    ensures Split(s, sep) == [s]
  {
  }

  /** Number of leading characters of `s` that `drop` accepts. */
  function LeadingCount(s: string, drop: char -> bool): (k: nat)
    ensures k <= |s|
    ensures forall i :: 0 <= i < k ==> drop(s[i])
    ensures k < |s| ==> !drop(s[k])
    decreases |s|
  {
    if s == [] || !drop(s[0]) then 0 else 1 + LeadingCount(s[1..], drop)
  }

  /** Number of trailing characters of `s` that `drop` accepts. */
  function TrailingCount(s: string, drop: char -> bool): (k: nat)
    ensures k <= |s|
    ensures forall i :: |s| - k <= i < |s| ==> drop(s[i])
    ensures k < |s| ==> !drop(s[|s| - k - 1])
    decreases |s|
  {
    if s == [] || !drop(s[|s| - 1]) then 0 else 1 + TrailingCount(s[..|s| - 1], drop)
  }

  /** Python's `s.strip(chars)`, with the character set given as a predicate. */
  function StripBy(s: string, drop: char -> bool): (r: string)
    ensures |r| <= |s|
    ensures |r| > 0 ==> !drop(r[0]) && !drop(r[|r| - 1])
    ensures Contains(s, r)
    ensures (forall i :: 0 <= i < |s| ==> drop(s[i])) <==> r == []
    ensures forall i :: 0 <= i < |r| ==> r[i] in s
  {
    var a := LeadingCount(s, drop);
    var t := s[a..];
    var b := |t| - TrailingCount(t, drop);
    StripSliceFacts(s, drop, a, b);
    t[..b]
  }

  /** `r` is `s` with only characters `drop` accepts taken off before position `a` and
      after `r`. */
  predicate StrippedAt(s: string, r: string, a: int, drop: char -> bool) {
    && 0 <= a && a + |r| <= |s| && s[a..a + |r|] == r
    && (forall i :: 0 <= i < a ==> drop(s[i]))
    && (forall i :: a + |r| <= i < |s| ==> drop(s[i]))
  }

  lemma StripSliceFacts(s: string, drop: char -> bool, a: nat, b: nat)
    requires a == LeadingCount(s, drop)
    requires b == |s[a..]| - TrailingCount(s[a..], drop)
    ensures Contains(s, s[a..][..b])
    ensures (forall i :: 0 <= i < |s| ==> drop(s[i])) <==> s[a..][..b] == []
  {
    var t := s[a..];
    var r := t[..b];
    assert r == s[a..a + b];
    assert OccursAt(s, r, a);
    ContainsIff(s, r);
  }

  /** `strip(chars)` takes off only characters of the set, and only at the ends: the
      result sits in the input with nothing but stripped characters before and after
      it. With the ends of the result not in the set, this pins the result down. */
  lemma StripByBounds(s: string, drop: char -> bool)
    ensures exists a :: StrippedAt(s, StripBy(s, drop), a, drop)
  {
    var a := LeadingCount(s, drop);
    var b := |s[a..]| - TrailingCount(s[a..], drop);
    StrippedSlice(s, drop, a, b);
    assert StripBy(s, drop) == s[a..][..b];
  }

  lemma StrippedSlice(s: string, drop: char -> bool, a: nat, b: nat)
    requires a == LeadingCount(s, drop)
    requires b == |s[a..]| - TrailingCount(s[a..], drop)
    ensures StrippedAt(s, s[a..][..b], a, drop)
  {
    assert s[a..][..b] == s[a..a + b];
    TrailingDropped(s, drop, a, b);
  }

  /** What `TrailingCount` drops from the rest after position `a` is dropped from `s`. */
  lemma TrailingDropped(s: string, drop: char -> bool, a: nat, b: nat)
    requires a <= |s| && b == |s[a..]| - TrailingCount(s[a..], drop)
    ensures forall i :: a + b <= i < |s| ==> drop(s[i])
  {
    var t := s[a..];
    forall i | a + b <= i < |s|
      ensures drop(s[i])
    {
      assert s[i] == t[i - a];
    }
  }

  /** Stripping twice removes nothing more than stripping once. */
  lemma StripByIdempotent(s: string, drop: char -> bool)
    ensures StripBy(StripBy(s, drop), drop) == StripBy(s, drop)
  {
    var r := StripBy(s, drop);
    if r != [] {
      assert LeadingCount(r, drop) == 0;
      assert TrailingCount(r, drop) == 0;
      assert r[0..][..|r|] == r;
    }
  }

  /** Python's `s.strip()`. */
  function Strip(s: string): (r: string)
    ensures |r| <= |s|
    ensures r != [] ==> !IsSpace(r[0]) && !IsSpace(r[|r| - 1])
    ensures forall i :: 0 <= i < |r| ==> r[i] in s
  {
    StripBy(s, IsSpace)
  }

  /** `strip()` takes off white space only, and only at the ends. */
  lemma StripBounds(s: string)
    ensures exists a :: StrippedAt(s, Strip(s), a, IsSpace)
  {
    StripByBounds(s, IsSpace);
    var a :| StrippedAt(s, StripBy(s, IsSpace), a, IsSpace);
    assert Strip(s) == StripBy(s, IsSpace);
    assert StrippedAt(s, Strip(s), a, IsSpace);
  }

  /** A string with no stripped character at either end is its own `strip(chars)`. */
  lemma StripByOfTrimmed(s: string, drop: char -> bool)
    requires s != [] && !drop(s[0]) && !drop(s[|s| - 1])
    ensures StripBy(s, drop) == s
  {
    assert LeadingCount(s, drop) == 0;
    assert s[0..] == s;
    assert TrailingCount(s, drop) == 0;
  }

  /** A string with no white space at either end is its own `strip()`. */
  lemma StripOfTrimmed(s: string)
    requires s != [] && !IsSpace(s[0]) && !IsSpace(s[|s| - 1])
    ensures Strip(s) == s
  {
    assert LeadingCount(s, IsSpace) == 0;
    assert s[0..] == s;
    assert TrailingCount(s, IsSpace) == 0;
  }

  /** Characters of the argument of `strip('\s:')`: the Python literal keeps the
      backslash, so the set is backslash, `s` and colon. */
  predicate IsStrayPunct(c: char) {
    c == '\\' || c == 's' || c == ':'
  }
}
