/** Python `str` operations used by the scraper, over `seq<char>`:
    `str.strip`, `in`, `str.find`, `str.split(sep, 1)`, `str.startswith`,
    ASCII case folding for `re.IGNORECASE`, and the code-point ordering that
    `list.sort` uses to compare strings. */
module Text {
  import opened Wrappers

  /** The characters `str.isspace` and the regex class `\s` accept, restricted
      to ASCII (tab, line feed, vertical tab, form feed, carriage return,
      the four separator controls and space). */
  predicate IsSpace(c: char) {
    c == ' ' || ('\U{9}' <= c <= '\U{D}') || ('\U{1C}' <= c <= '\U{1F}')
  }

  predicate AllSpaces(s: string) {
    forall k :: 0 <= k < |s| ==> IsSpace(s[k])
  }

  /** Number of whitespace characters at the front of `s`. */
  function LeadingSpaces(s: string): (n: nat)
    ensures n <= |s|
    ensures AllSpaces(s[..n])
    ensures n < |s| ==> !IsSpace(s[n])
  {
    if s != [] && IsSpace(s[0]) then
      var n := 1 + LeadingSpaces(s[1..]);
      assert forall k :: 1 <= k < n ==> s[k] == s[1..][k - 1];
      n
    else 0
  }

  /** Number of whitespace characters at the back of `s`. */
  function TrailingSpaces(s: string): (n: nat)
    ensures n <= |s|
    ensures AllSpaces(s[|s| - n..])
    ensures n < |s| ==> !IsSpace(s[|s| - 1 - n])
  {
    if s != [] && IsSpace(s[|s| - 1]) then
      var n := 1 + TrailingSpaces(s[..|s| - 1]);
      n
    else 0
  }

  /** `s.strip()`: removes exactly the leading and the trailing whitespace. */
  function Strip(s: string): (r: string)
    ensures LeadingSpaces(s) + |r| <= |s|
    ensures r == s[LeadingSpaces(s)..LeadingSpaces(s) + |r|]
    ensures AllSpaces(s[..LeadingSpaces(s)]) && AllSpaces(s[LeadingSpaces(s) + |r|..])
    ensures r != [] ==> !IsSpace(r[0]) && !IsSpace(r[|r| - 1])
  {
    var a := LeadingSpaces(s);
    var rest := s[a..];
    var t := TrailingSpaces(rest);
    var r := rest[..|rest| - t];
    assert r == s[a..a + |r|];
    assert s[a + |r|..] == rest[|rest| - t..];
    assert r != [] ==> r[0] == s[a] && r[|r| - 1] == rest[|rest| - 1 - t];
    r
  }

  /** A string with no whitespace at either end, as `strip` leaves it. */
  predicate IsStripped(s: string) {
    s == [] || (!IsSpace(s[0]) && !IsSpace(s[|s| - 1]))
  }

  /** `strip` leaves a stripped string as it is, so it is idempotent. */
  lemma StripStripped(s: string)
    requires IsStripped(s)
    ensures Strip(s) == s
  {
    if s != [] {
      assert LeadingSpaces(s) == 0;
      var rest := s[LeadingSpaces(s)..];
      assert rest == s;
      assert TrailingSpaces(rest) == 0;
    }
  }

  lemma {:induction false} LeadingSpacesOfAllSpaces(s: string)
    requires AllSpaces(s)
    ensures LeadingSpaces(s) == |s|
  {
    if s != [] {
      assert IsSpace(s[0]);
      assert AllSpaces(s[1..]) by { assert forall k :: 0 <= k < |s| - 1 ==> s[1..][k] == s[k + 1]; }
      LeadingSpacesOfAllSpaces(s[1..]);
    }
  }

  /** `strip` gives the empty string exactly when `s` is all whitespace. */
  lemma StripEmpty(s: string)
    ensures Strip(s) == [] <==> AllSpaces(s)
  {
    var n := LeadingSpaces(s);
    if AllSpaces(s) {
      LeadingSpacesOfAllSpaces(s);
    }
    if Strip(s) == [] {
      assert s == s[..n] + s[n..];
    }
  }

  /** `pat` occurs in `s` at index `i`. */
  predicate OccursAt(s: string, pat: string, i: nat) {
    i + |pat| <= |s| && s[i..i + |pat|] == pat
  }

  /** `s.find(pat, i)` as an option: the first index at or after `i`. */
  function FindFrom(s: string, pat: string, i: nat): (r: Option<nat>)
    requires i <= |s|
    ensures r.Some? ==> i <= r.value && OccursAt(s, pat, r.value)
    ensures r.Some? ==> forall k :: i <= k < r.value ==> !OccursAt(s, pat, k)
    ensures r.None? ==> forall k :: i <= k ==> !OccursAt(s, pat, k)
    decreases |s| - i
  {
    if OccursAt(s, pat, i) then Some(i)
    else if i == |s| then None
    else FindFrom(s, pat, i + 1)
  }

  function Find(s: string, pat: string): Option<nat> {
    FindFrom(s, pat, 0)
  }

  /** Python's `pat in s`. */
  predicate Contains(s: string, pat: string) {
    Find(s, pat).Some?
  }

  lemma ContainsAt(s: string, pat: string, i: nat)
    requires OccursAt(s, pat, i)
    ensures Contains(s, pat)
  {
  }

  /** `s.split(sep, 1)`: the text before the first `sep` and the text after
      it, or `[s]` when `sep` does not occur. */
  function SplitOnce(s: string, sep: string): (parts: seq<string>)
    requires sep != []
    ensures 1 <= |parts| <= 2
    ensures |parts| == 2 <==> Contains(s, sep)
    ensures |parts| == 1 ==> parts[0] == s
    ensures |parts| == 2 ==> parts[0] + sep + parts[1] == s && !Contains(parts[0], sep)
  {
    match Find(s, sep)
    case None => [s]
    case Some(i) =>
      var parts := [s[..i], s[i + |sep|..]];
      assert parts[0] + sep + parts[1] == s;
      NoEarlierOccurrence(s, sep, i);
      parts
  }

  /** Text before the first occurrence of `pat` does not contain `pat`. */
  lemma NoEarlierOccurrence(s: string, pat: string, i: nat)
    requires pat != [] && Find(s, pat) == Some(i)
    ensures !Contains(s[..i], pat)
  {
    if Contains(s[..i], pat) {
      var k := Find(s[..i], pat).value;
      assert OccursAt(s[..i], pat, k);
      assert k + |pat| <= i;
      assert s[k..k + |pat|] == s[..i][k..k + |pat|];
      assert OccursAt(s, pat, k);
    }
  }

  /** `s.startswith(p)`. */
  predicate StartsWith(s: string, p: string) {
    |p| <= |s| && s[..|p|] == p
  }

  /** `s.endswith(p)`. */
  predicate EndsWith(s: string, p: string) {
    |p| <= |s| && s[|s| - |p|..] == p
  }

  /** ASCII lower-casing, the case folding `re.IGNORECASE` applies to the
      letters of the scraper's patterns. */
  function Lower(c: char): char {
    if 'A' <= c <= 'Z' then (c as int + 32) as char else c
  }

  function LowerStr(s: string): (r: string)
    ensures |r| == |s|
    ensures forall k :: 0 <= k < |s| ==> r[k] == Lower(s[k])
  {
    seq(|s|, k requires 0 <= k < |s| => Lower(s[k]))
  }

  /** The lower-case literal `w` occurs at `i` in `s`, ignoring case. */
  predicate OccursNoCaseAt(s: string, i: nat, w: string) {
    i + |w| <= |s| && forall q :: 0 <= q < |w| ==> Lower(s[i + q]) == w[q]
  }

  /** A case-insensitive `re.search` for the lower-case literal `word`. */
  predicate ContainsNoCase(s: string, word: string) {
    Contains(LowerStr(s), word)
  }

  /** `ContainsNoCase` holds exactly when `word` occurs somewhere in `s`
      ignoring case. */
  lemma ContainsNoCaseMeaning(s: string, word: string)
    ensures ContainsNoCase(s, word) <==> exists i: nat :: OccursNoCaseAt(s, i, word)
  {
    var l := LowerStr(s);
    forall i: nat ensures OccursAt(l, word, i) <==> OccursNoCaseAt(s, i, word) {
      if i + |word| <= |s| {
        if OccursAt(l, word, i) {
          forall q | 0 <= q < |word| ensures Lower(s[i + q]) == word[q] {
            assert l[i..i + |word|][q] == l[i + q];
          }
        }
        if OccursNoCaseAt(s, i, word) {
          assert l[i..i + |word|] == word;
        }
      }
    }
    if ContainsNoCase(s, word) {
      assert OccursAt(l, word, Find(l, word).value);
    }
  }

  predicate IsLowerLetters(w: string) {
    forall k :: 0 <= k < |w| ==> 'a' <= w[k] <= 'z'
  }

  /** A string in which a non-empty word occurs is not all whitespace, so
      stripping it leaves something. */
  lemma StripOfWordNonEmpty(s: string, word: string)
    requires word != [] && IsLowerLetters(word) && ContainsNoCase(s, word)
    ensures Strip(s) != []
  {
    var i := Find(LowerStr(s), word).value;
    assert LowerStr(s)[i] == word[0];
    assert !IsSpace(s[i]);
    StripEmpty(s);
  }

  /** Python's `a < b` on strings: lexicographic by code point, a proper
      prefix coming first. */
  predicate LexLess(a: string, b: string) {
    if a == [] then b != []
    else if b == [] then false
    else if a[0] != b[0] then a[0] < b[0]
    else LexLess(a[1..], b[1..])
  }

  lemma {:induction false} LexLessIrreflexive(a: string)
    ensures !LexLess(a, a)
  {
    if a != [] { LexLessIrreflexive(a[1..]); }
  }

  lemma {:induction false} LexLessTransitive(a: string, b: string, c: string)
    requires LexLess(a, b) && LexLess(b, c)
    ensures LexLess(a, c)
  {
    if a != [] && b != [] && c != [] && a[0] == b[0] && b[0] == c[0] {
      LexLessTransitive(a[1..], b[1..], c[1..]);
    }
  }

  lemma {:induction false} LexLessTotal(a: string, b: string)
    ensures LexLess(a, b) || a == b || LexLess(b, a)
  {
    if a != [] && b != [] && a[0] == b[0] {
      LexLessTotal(a[1..], b[1..]);
      if a[1..] == b[1..] {
        assert a == [a[0]] + a[1..] && b == [b[0]] + b[1..];
      }
    }
  }

  /** `a >= b` followed by `b > c` gives `a > c`. */
  lemma NotLessThenLess(a: string, b: string, c: string)
    requires !LexLess(a, b) && LexLess(c, b)
    ensures LexLess(c, a)
  {
    LexLessTotal(a, b);
    if a != b { LexLessTransitive(c, b, a); }
  }

  /** `a >= b` and `b >= c` give `a >= c`. */
  lemma NotLessTransitive(a: string, b: string, c: string)
    requires !LexLess(a, b) && !LexLess(b, c)
    ensures !LexLess(a, c)
  {
    if LexLess(a, c) {
      LexLessTotal(b, c);
      if b == c { } else { LexLessTransitive(c, b, a); LexLessIrreflexive(a); LexLessTransitive(a, c, b); }
    }
  }

  /** `b <= a` and `a < c` give `not c < b`. */
  lemma NotLessAfterLess(a: string, b: string, c: string)
    requires !LexLess(a, b) && LexLess(a, c)
    ensures !LexLess(c, b)
  {
    if LexLess(c, b) { NotLessThenLess(a, b, c); LexLessTransitive(a, c, a); LexLessIrreflexive(a); }
  }
}
