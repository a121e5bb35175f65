/**
 * The Python `str` operations that the scraper's per-page code is built from,
 * each with Python's own semantics:
 *  - `s.strip(chars)` removes any character of the SET `chars` from both ends,
 *    and `s.strip()` removes whitespace;
 *  - `s.replace(pat, "")` removes non-overlapping occurrences, scanning left to right;
 *  - `sub in s` is substring search;
 *  - `s.split(sep)` with an explicit separator;
 *  - `re.compile("[^\W\d]").search(s)` finds the first word character that is
 *    not a decimal digit.
 * Most functions here only compute; what they guarantee is stated by the lemmas
 * beside them, so that a caller pays for a property only where it uses it.
 */
module PyStr {
  import opened Results

  /** Python's `str.isspace()`: the characters that `str.strip()` removes. */
  predicate IsSpace(c: char) {
    var n := c as int;
    9 <= n <= 13 || 28 <= n <= 32 || n == 0x85 || n == 0xA0 || n == 0x1680 ||
    0x2000 <= n <= 0x200A || n == 0x2028 || n == 0x2029 || n == 0x202F ||
    n == 0x205F || n == 0x3000
  }

  /** The argument of `strip`: an explicit set of characters, or none (whitespace). */
  datatype StripSet = Chars(cs: set<char>) | Whitespace {
    predicate Drops(c: char) {
      match this
      case Chars(cs) => c in cs
      case Whitespace => IsSpace(c)
    }
  }

  /** `s.lstrip(d)` */
  function LStrip(s: string, d: StripSet): string
    decreases |s|
  {
    if s != [] && d.Drops(s[0]) then LStrip(s[1..], d) else s
  }

  /** `s.rstrip(d)` */
  function RStrip(s: string, d: StripSet): string
    decreases |s|
  {
    if s != [] && d.Drops(s[|s| - 1]) then RStrip(s[..|s| - 1], d) else s
  }

  /** `s.strip(d)` */
  function Strip(s: string, d: StripSet): string {
    RStrip(LStrip(s, d), d)
  }

  /** `s.strip()` */
  function StripWs(s: string): string {
    Strip(s, Whitespace)
  }

  /** `lstrip` removes the longest prefix made of characters of `d`, and nothing else. */
  lemma {:induction false} LStripShape(s: string, d: StripSet)
    ensures var r := LStrip(s, d);
      |r| <= |s| && r == s[|s| - |r|..] &&
      (r != [] ==> !d.Drops(r[0])) &&
      forall k :: 0 <= k < |s| - |r| ==> d.Drops(s[k])
    decreases |s|
  {
    if s != [] && d.Drops(s[0]) {
      LStripShape(s[1..], d);
    }
  }

  /** `rstrip` removes the longest suffix made of characters of `d`, and nothing else. */
  lemma {:induction false} RStripShape(s: string, d: StripSet)
    ensures var r := RStrip(s, d);
      |r| <= |s| && r == s[..|r|] &&
      (r != [] ==> !d.Drops(r[|r| - 1])) &&
      forall k :: |r| <= k < |s| ==> d.Drops(s[k])
    decreases |s|
  {
    if s != [] && d.Drops(s[|s| - 1]) {
      RStripShape(s[..|s| - 1], d);
    }
  }

  /** `strip` leaves the slice `s[a..a + |r|]` of `s`: everything before and after it
      is made of characters of `d`, and its own ends are not. */
  lemma StripShape(s: string, d: StripSet)
    ensures var r := Strip(s, d); var a := |s| - |LStrip(s, d)|;
      0 <= a && a + |r| <= |s| && s[a..a + |r|] == r &&
      (r != [] ==> !d.Drops(r[0]) && !d.Drops(r[|r| - 1])) &&
      (forall k :: 0 <= k < a ==> d.Drops(s[k])) &&
      (forall k :: a + |r| <= k < |s| ==> d.Drops(s[k]))
  {
    var l := LStrip(s, d);
    LStripShape(s, d);
    RStripShape(l, d);
    var r := RStrip(l, d);
    var a := |s| - |l|;
    forall k | a + |r| <= k < |s| ensures d.Drops(s[k]) {
      assert s[k] == l[k - a];
    }
  }

  lemma {:induction false} LStripKeeps(s: string, d: StripSet, c: char)
    requires !d.Drops(c)
    ensures multiset(LStrip(s, d))[c] == multiset(s)[c]
    decreases |s|
  {
    if s != [] && d.Drops(s[0]) {
      LStripKeeps(s[1..], d, c);
      assert s == [s[0]] + s[1..];
    }
  }

  lemma {:induction false} RStripKeeps(s: string, d: StripSet, c: char)
    requires !d.Drops(c)
    ensures multiset(RStrip(s, d))[c] == multiset(s)[c]
    decreases |s|
  {
    if s != [] && d.Drops(s[|s| - 1]) {
      RStripKeeps(s[..|s| - 1], d, c);
      assert s == s[..|s| - 1] + [s[|s| - 1]];
    }
  }

  /** `strip` never loses a character outside the stripped set. */
  lemma StripKeeps(s: string, d: StripSet, c: char)
    requires !d.Drops(c)
    ensures multiset(Strip(s, d))[c] == multiset(s)[c]
  {
    LStripKeeps(s, d, c);
    RStripKeeps(LStrip(s, d), d, c);
  }

  /** `s.replace(pat, "")`: removes non-overlapping occurrences of `pat`, leftmost first. */
  function RemoveAll(s: string, pat: string): string
    requires pat != []
    decreases |s|
  {
    if |s| < |pat| then s
    else if s[..|pat|] == pat then RemoveAll(s[|pat|..], pat)
    else [s[0]] + RemoveAll(s[1..], pat)
  }

  /** `replace(pat, "")` never loses a character that `pat` does not contain. */
  lemma {:induction false} RemoveAllKeeps(s: string, pat: string, c: char)
    requires pat != [] && c !in pat
    ensures multiset(RemoveAll(s, pat))[c] == multiset(s)[c]
    decreases |s|
  {
    if |s| < |pat| {
    } else if s[..|pat|] == pat {
      RemoveAllKeeps(s[|pat|..], pat, c);
      assert s == pat + s[|pat|..];
      assert multiset(pat)[c] == 0;
    } else {
      RemoveAllKeeps(s[1..], pat, c);
      assert s == [s[0]] + s[1..];
    }
  }

  /** Removing a one-character pattern removes every occurrence of that character. */
  lemma {:induction false} RemoveAllChar(s: string, c: char)
    ensures c !in RemoveAll(s, [c])
    decreases |s|
  {
    if |s| >= 1 {
      assert s[..1] == [s[0]];
      RemoveAllChar(s[1..], c);
    }
  }

  /** `sub` occurs in `s` starting at index `i`. */
  predicate OccursAt(s: string, sub: string, i: nat) {
    i + |sub| <= |s| && s[i..i + |sub|] == sub
  }

  /** `s.find(sub, i)`, with None for -1. */
  function FindFrom(s: string, sub: string, i: nat): Option<nat>
    decreases |s| - i
  {
    if i + |sub| > |s| then None
    else if OccursAt(s, sub, i) then Some(i)
    else FindFrom(s, sub, i + 1)
  }

  /** The search answers the first occurrence of `sub` at or after `i`, or None
      when there is none. */
  lemma {:induction false} FindFromSpec(s: string, sub: string, i: nat)
    ensures var r := FindFrom(s, sub, i);
      (r.Some? ==> i <= r.value && OccursAt(s, sub, r.value)) &&
      (r.Some? ==> forall j :: i <= j < r.value ==> !OccursAt(s, sub, j)) &&
      (r.None? ==> forall j :: i <= j ==> !OccursAt(s, sub, j))
    decreases |s| - i
  {
    if i + |sub| <= |s| && !OccursAt(s, sub, i) {
      FindFromSpec(s, sub, i + 1);
    }
  }

  /** `s.find(sub)` */
  function Find(s: string, sub: string): Option<nat> {
    FindFrom(s, sub, 0)
  }

  /** `Find` answers the first occurrence of `sub`, or None when it occurs nowhere. */
  lemma FindSpec(s: string, sub: string)
    ensures Find(s, sub).Some? ==> OccursAt(s, sub, Find(s, sub).value)
    ensures Find(s, sub).Some? ==> forall j :: 0 <= j < Find(s, sub).value ==> !OccursAt(s, sub, j)
    ensures Find(s, sub).None? ==> forall j :: 0 <= j ==> !OccursAt(s, sub, j)
  {
    FindFromSpec(s, sub, 0);
  }

  /** Python's `sub in s` */
  predicate Contains(s: string, sub: string) {
    Find(s, sub).Some?
  }

  /** Substring search answers whether `sub` occurs anywhere in `s`. */
  lemma ContainsSpec(s: string, sub: string)
    ensures Contains(s, sub) <==> exists i :: OccursAt(s, sub, i)
  {
    FindSpec(s, sub);
    if Contains(s, sub) {
      assert OccursAt(s, sub, Find(s, sub).value);
    }
  }

  /** For a one-character needle, substring search is plain membership. */
  lemma ContainsChar(s: string, c: char)
    ensures Contains(s, [c]) <==> c in s
  {
    FindSpec(s, [c]);
    if c in s {
      var j :| 0 <= j < |s| && s[j] == c;
      assert OccursAt(s, [c], j);
    }
    if Contains(s, [c]) {
      var j := Find(s, [c]).value;
      assert s[j..j + 1] == [c];
      assert s[j] == c;
    }
  }

  /** A prefix that ends before the first occurrence of `sub` does not contain `sub`. */
  lemma NoneBefore(s: string, sub: string, n: nat)
    requires sub != [] && n <= |s|
    requires forall j :: 0 <= j < n ==> !OccursAt(s, sub, j)
    ensures !Contains(s[..n], sub)
  {
    if Contains(s[..n], sub) {
      FindSpec(s[..n], sub);
      var j := Find(s[..n], sub).value;
      assert s[..n][j..j + |sub|] == s[j..j + |sub|];
      assert OccursAt(s, sub, j);
    }
  }

  /** `s.split(sep)` with an explicit, non-empty separator. */
  function Split(s: string, sep: string): (parts: seq<string>)
    requires sep != []
    ensures |parts| >= 1
    decreases |s|
  {
    FindSpec(s, sep);
    match Find(s, sep)
    case None => [s]
    case Some(i) => [s[..i]] + Split(s[i + |sep|..], sep)
  }

  /** The split has a second part exactly when the separator occurs. */
  lemma SplitCount(s: string, sep: string)
    requires sep != []
    ensures |Split(s, sep)| >= 2 <==> Contains(s, sep)
  {
  }

  /** One step of `Split`, when the first separator starts at `i`. */
  lemma SplitAt(s: string, sep: string, i: nat)
    requires sep != [] && Find(s, sep) == Some(i)
    ensures i + |sep| <= |s|
    ensures Split(s, sep) == [s[..i]] + Split(s[i + |sep|..], sep)
  {
    FindSpec(s, sep);
  }

  /** The first part of a split is the text before the first separator, or all
      of `s` when there is none; either way it holds no separator. */
  lemma SplitHead(s: string, sep: string)
    requires sep != []
    ensures var h := Split(s, sep)[0];
      |h| <= |s| && s[..|h|] == h && !Contains(h, sep) &&
      (|h| < |s| ==> OccursAt(s, sep, |h|))
  {
    match Find(s, sep)
    case None =>
      assert s[..|s|] == s;
    case Some(i) =>
      FindSpec(s, sep);
      SplitAt(s, sep, i);
      NoneBefore(s, sep, i);
  }

  /** `sep.join(parts)` */
  function Join(parts: seq<string>, sep: string): string {
    if |parts| == 0 then []
    else if |parts| == 1 then parts[0]
    else parts[0] + sep + Join(parts[1..], sep)
  }

  lemma JoinCons(a: string, rest: seq<string>, sep: string)
    requires |rest| >= 1
    ensures Join([a] + rest, sep) == a + sep + Join(rest, sep)
  {
    assert ([a] + rest)[1..] == rest;
  }

  /** Splitting and joining back with the same separator gives the text back. */
  lemma {:induction false} SplitJoin(s: string, sep: string)
    requires sep != []
    ensures Join(Split(s, sep), sep) == s
    decreases |s|
  {
    match Find(s, sep)
    case None =>
    case Some(i) =>
      FindSpec(s, sep);
      SplitAt(s, sep, i);
      var rest := s[i + |sep|..];
      SplitJoin(rest, sep);
      JoinCons(s[..i], Split(rest, sep), sep);
      assert s == s[..i] + s[i..i + |sep|] + rest;
  }

  /** An occurrence in `s[1..]` is an occurrence in `s`, one place later. */
  lemma FindTail(s: string, sub: string)
    requires s != [] && sub != []
    requires !OccursAt(s, sub, 0)
    ensures Find(s[1..], sub) == match Find(s, sub)
                                 case None => None
                                 case Some(i) => Some(i - 1)
  {
    forall j: nat ensures OccursAt(s[1..], sub, j) <==> OccursAt(s, sub, j + 1) {
      if j + |sub| <= |s[1..]| {
        var a, b := s[1..][j..j + |sub|], s[j + 1..j + 1 + |sub|];
        assert forall k :: 0 <= k < |a| ==> a[k] == b[k];
        assert a == b;
      }
    }
    FindSpec(s, sub);
    FindSpec(s[1..], sub);
    match Find(s, sub)
    case None =>
    case Some(i) =>
      assert i >= 1;
      assert OccursAt(s[1..], sub, i - 1);
  }

  /** Splitting `s` when no separator starts at index 0 splits `s[1..]` and puts `s[0]` back. */
  lemma JoinSplitTail(s: string, pat: string)
    requires s != [] && pat != []
    requires !OccursAt(s, pat, 0)
    ensures Join(Split(s, pat), "") == [s[0]] + Join(Split(s[1..], pat), "")
  {
    FindTail(s, pat);
    if Find(s, pat).None? {
      assert [s[0]] + s[1..] == s;
    } else {
      JoinSplitTailAt(s, pat, Find(s, pat).value);
    }
  }

  lemma JoinSplitTailAt(s: string, pat: string, i: nat)
    requires s != [] && pat != []
    requires Find(s, pat) == Some(i) && Find(s[1..], pat) == Some(i - 1) && i >= 1
    ensures Join(Split(s, pat), "") == [s[0]] + Join(Split(s[1..], pat), "")
  {
    var t := s[1..];
    SplitAt(s, pat, i);
    var rest := s[i + |pat|..];
    var tail := Split(rest, pat);
    assert Split(s, pat) == [s[..i]] + tail by {
      SplitAt(s, pat, i);
    }
    assert Split(t, pat) == [t[..i - 1]] + tail by {
      SplitAt(t, pat, i - 1);
      assert t[i - 1 + |pat|..] == rest;
    }
    JoinCons(s[..i], tail, "");
    JoinCons(t[..i - 1], tail, "");
    ConsConcat(s[0], s[..i], t[..i - 1], Join(tail, ""));
  }

  lemma ConsConcat(c: char, a: string, b: string, rest: string)
    requires a == [c] + b
    ensures a + "" + rest == [c] + (b + "" + rest)
  {
  }

  /** Python's `s.replace(pat, "")` agrees with `"".join(s.split(pat))`. */
  lemma {:induction false} RemoveAllIsJoinOfSplit(s: string, pat: string)
    requires pat != []
    ensures RemoveAll(s, pat) == Join(Split(s, pat), "")
    decreases |s|
  {
    if |s| < |pat| {
      FindSpec(s, pat);
      assert Find(s, pat).None?;
    } else if s[..|pat|] == pat {
      var rest := s[|pat|..];
      assert OccursAt(s, pat, 0);
      FindSpec(s, pat);
      SplitAt(s, pat, 0);
      RemoveAllIsJoinOfSplit(rest, pat);
      JoinCons([], Split(rest, pat), "");
    } else {
      assert s[0..|pat|] == s[..|pat|];
      JoinSplitTail(s, pat);
      RemoveAllIsJoinOfSplit(s[1..], pat);
    }
  }

  /** Python's `\w` for code points below U+0100: ASCII letters and digits, `_`,
      and the Latin-1 letters and numeric signs that `str.isalnum()` accepts. */
  predicate IsWordChar(c: char) {
    var n := c as int;
    'a' <= c <= 'z' || 'A' <= c <= 'Z' || '0' <= c <= '9' || c == '_' ||
    n == 0xAA || n == 0xB2 || n == 0xB3 || n == 0xB5 || n == 0xB9 || n == 0xBA ||
    0xBC <= n <= 0xBE || 0xC0 <= n <= 0xD6 || 0xD8 <= n <= 0xF6 || 0xF8 <= n <= 0xFF
  }

  /** The regular-expression class `[^\W\d]`: a word character that is not a decimal digit. */
  predicate IsLetterLike(c: char) {
    IsWordChar(c) && !('0' <= c <= '9')
  }

  /** The start of the first `[^\W\d]` match at or after `i`, or None. */
  function SearchLetterFrom(s: string, i: nat): Option<nat>
    decreases |s| - i
  {
    if i >= |s| then None
    else if IsLetterLike(s[i]) then Some(i)
    else SearchLetterFrom(s, i + 1)
  }

  /** The search answers the first letter-like character at or after `i`, or
      None when there is none. */
  lemma {:induction false} SearchLetterFromSpec(s: string, i: nat)
    ensures var r := SearchLetterFrom(s, i);
      (r.Some? ==> i <= r.value < |s| && IsLetterLike(s[r.value])) &&
      (r.Some? ==> forall k :: i <= k < r.value ==> !IsLetterLike(s[k])) &&
      (r.None? ==> forall k :: i <= k < |s| ==> !IsLetterLike(s[k]))
    decreases |s| - i
  {
    if i < |s| && !IsLetterLike(s[i]) {
      SearchLetterFromSpec(s, i + 1);
    }
  }

  /** `re.compile("[^\W\d]").search(s)`, reduced to the start of the match. */
  function SearchLetter(s: string): Option<nat> {
    SearchLetterFrom(s, 0)
  }
}
