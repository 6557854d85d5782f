/** The regular expressions of court_scraper.py, each written out as a
    matcher over `seq<char>`, with `re.search` as a leftmost scan.

    Every pattern starts with a fixed-width or run-length token whose end is
    forced by the next token's character class, so the backtracking engine
    has at most one way to match at a given start; the only choice left is
    how many year digits `\d{2,4}` takes, and being greedy with nothing after
    it, it takes the most. The matchers below follow that one path, and the
    lemmas at the end tie them to declarative descriptions of the text each
    date pattern accepts. */
module Patterns {
  import opened Wrappers
  import opened Text

  predicate IsDigit(c: char) { '0' <= c <= '9' }
  predicate IsDateSeparator(c: char) { c == '-' || c == '.' || c == '/' }
  /** `[IVX]` under `re.IGNORECASE`. */
  predicate IsRomanNumeral(c: char) { Lower(c) == 'i' || Lower(c) == 'v' || Lower(c) == 'x' }
  /** `[:\s]`. */
  predicate IsColonOrSpace(c: char) { c == ':' || IsSpace(c) }
  /** What the lazy `.*?` of `\[(.*?)\]` may step over before it stops at
      the first `]`: `.` does not match a line feed. */
  predicate IsBracketBody(c: char) { c != ']' && c != '\n' }

  /** Every character of `s[lo..hi]` satisfies `p`. */
  predicate AllIn(p: char -> bool, s: string, lo: nat, hi: nat)
    requires lo <= hi <= |s|
    decreases hi - lo
  {
    lo == hi || (p(s[lo]) && AllIn(p, s, lo + 1, hi))
  }

  lemma {:induction false} AllInAt(p: char -> bool, s: string, lo: nat, hi: nat, q: nat)
    requires lo <= q < hi <= |s| && AllIn(p, s, lo, hi)
    ensures p(s[q])
    decreases q - lo
  {
    if q > lo { AllInAt(p, s, lo + 1, hi, q); }
  }

  lemma {:induction false} AllInPrefix(p: char -> bool, s: string, lo: nat, mid: nat, hi: nat)
    requires lo <= mid <= hi <= |s| && AllIn(p, s, lo, hi)
    ensures AllIn(p, s, lo, mid)
    decreases mid - lo
  {
    if lo < mid { AllInPrefix(p, s, lo + 1, mid, hi); }
  }

  /** Length of the longest run of characters satisfying `p` from `i`. */
  function Run(p: char -> bool, s: string, i: nat): (n: nat)
    requires i <= |s|
    ensures i + n <= |s| && AllIn(p, s, i, i + n)
    ensures i + n < |s| ==> !p(s[i + n])
    decreases |s| - i
  {
    if i < |s| && p(s[i]) then 1 + Run(p, s, i + 1) else 0
  }

  lemma {:induction false} RunAtLeast(p: char -> bool, s: string, i: nat, n: nat)
    requires i + n <= |s| && AllIn(p, s, i, i + n)
    ensures Run(p, s, i) >= n
    decreases n
  {
    if n > 0 { RunAtLeast(p, s, i + 1, n - 1); }
  }

  lemma {:induction false} RunExactly(p: char -> bool, s: string, i: nat, n: nat)
    requires i + n <= |s| && AllIn(p, s, i, i + n) && (i + n < |s| ==> !p(s[i + n]))
    ensures Run(p, s, i) == n
    decreases n
  {
    if n > 0 { RunExactly(p, s, i + 1, n - 1); }
  }

  /** The patterns the scraper uses. */
  datatype Pattern =
    | DayMonthYear4     // (\d{1,2}[-./]\d{1,2}[-./]\d{4})
    | DayMonthYear2     // (\d{1,2}[-./]\d{1,2}[-./]\d{2})
    | DayMonthYear2to4  // (\d{1,2}[-./]\d{1,2}[-./]\d{2,4})
    | DayMonthName      // (\d{1,2}\s+(Jan|Feb|...|Dec)\s+\d{4}), ignoring case
    | CourtNo           // Court[:\s]*(\d+|[IVX]+), ignoring case
    | Bracketed         // \[(.*?)\]

  predicate IsNumericDate(p: Pattern) {
    p == DayMonthYear4 || p == DayMonthYear2 || p == DayMonthYear2to4
  }

  predicate IsDatePattern(p: Pattern) {
    IsNumericDate(p) || p == DayMonthName
  }

  /** Fewest and most year digits a numeric date pattern takes. */
  function MinYearDigits(p: Pattern): nat {
    if p == DayMonthYear4 then 4 else 2
  }

  function MaxYearDigits(p: Pattern): nat {
    if p == DayMonthYear2 then 2 else 4
  }

  // ---------------------------------------------------------------------
  // What each date pattern accepts, stated without the matchers:
  // `s[i..e]` is, in its entirety, a match.

  predicate NumericShape(s: string, i: nat, e: nat, d: nat, m: nat, y: nat) {
    1 <= d <= 2 && 1 <= m <= 2 && i + d + m + y + 2 == e <= |s|
    && AllIn(IsDigit, s, i, i + d) && IsDateSeparator(s[i + d])
    && AllIn(IsDigit, s, i + d + 1, i + d + 1 + m) && IsDateSeparator(s[i + d + 1 + m])
    && AllIn(IsDigit, s, i + d + m + 2, e)
  }

  predicate MonthShape(s: string, i: nat, e: nat, d: nat, a: nat, b: nat) {
    1 <= d <= 2 && a >= 1 && b >= 1 && i + d + a + b + 7 == e <= |s|
    && AllIn(IsDigit, s, i, i + d) && AllIn(IsSpace, s, i + d, i + d + a)
    && IsMonthAt(s, i + d + a) && AllIn(IsSpace, s, i + d + a + 3, i + d + a + 3 + b)
    && AllIn(IsDigit, s, e - 4, e)
  }

  ghost predicate NumericDateShape(s: string, i: nat, e: nat, lo: nat, hi: nat) {
    exists d, m, y :: lo <= y <= hi && NumericShape(s, i, e, d, m, y)
  }

  ghost predicate DateShape(p: Pattern, s: string, i: nat, e: nat) {
    if p == DayMonthName then exists d, a, b :: MonthShape(s, i, e, d, a, b)
    else IsNumericDate(p) && NumericDateShape(s, i, e, MinYearDigits(p), MaxYearDigits(p))
  }

  /** Some match of `p` starts at `i`. */
  ghost predicate ShapeAt(p: Pattern, s: string, i: nat) {
    exists e :: i <= e && DateShape(p, s, i, e)
  }

  ghost predicate OccursIn(p: Pattern, s: string) {
    exists i :: ShapeAt(p, s, i)
  }

  /** `s[i..e]` is the match `re.search` reports: no match starts further
      left, and none starting at `i` is longer. */
  ghost predicate LeftmostLongest(p: Pattern, s: string, i: nat, e: nat) {
    i <= e <= |s| && DateShape(p, s, i, e)
    && (forall j :: 0 <= j < i ==> !ShapeAt(p, s, j))
    && (forall f :: e < f ==> !DateShape(p, s, i, f))
  }

  // ---------------------------------------------------------------------
  // The matchers.

  /** Bounds of the text captured by group 1. */
  datatype Span = Span(start: nat, end: nat)

  /** `\d{1,2}[-./]\d{1,2}[-./]\d{lo,hi}` at `i`; the end of the match. */
  function NumericDateAt(s: string, i: nat, lo: nat, hi: nat): (e: Option<nat>)
    requires i <= |s|
  {
    var d := Run(IsDigit, s, i);
    if 1 <= d <= 2 && i + d < |s| && IsDateSeparator(s[i + d]) then
      var j := i + d + 1;
      var m := Run(IsDigit, s, j);
      if 1 <= m <= 2 && j + m < |s| && IsDateSeparator(s[j + m]) then
        var k := j + m + 1;
        var n := Run(IsDigit, s, k);
        if n >= lo then Some(k + if n <= hi then n else hi) else None
      else None
    else None
  }

  lemma NumericDateSound(s: string, i: nat, lo: nat, hi: nat)
    requires i <= |s| && lo <= hi && NumericDateAt(s, i, lo, hi).Some?
    ensures i < NumericDateAt(s, i, lo, hi).value <= |s|
    ensures NumericDateShape(s, i, NumericDateAt(s, i, lo, hi).value, lo, hi)
  {
    var d := Run(IsDigit, s, i);
    var j := i + d + 1;
    var m := Run(IsDigit, s, j);
    var k := j + m + 1;
    var n := Run(IsDigit, s, k);
    var y := if n <= hi then n else hi;
    AllInPrefix(IsDigit, s, k, k + y, k + n);
    assert NumericShape(s, i, k + y, d, m, y);
  }

  /** `Jan|Feb|Mar|Apr|May|Jun|Jul|Aug|Sep|Oct|Nov|Dec`, on lower-cased letters. */
  predicate IsMonthAbbreviation(a: char, b: char, c: char) {
    (a == 'j' && b == 'a' && c == 'n') || (a == 'f' && b == 'e' && c == 'b')
    || (a == 'm' && b == 'a' && c == 'r') || (a == 'a' && b == 'p' && c == 'r')
    || (a == 'm' && b == 'a' && c == 'y') || (a == 'j' && b == 'u' && c == 'n')
    || (a == 'j' && b == 'u' && c == 'l') || (a == 'a' && b == 'u' && c == 'g')
    || (a == 's' && b == 'e' && c == 'p') || (a == 'o' && b == 'c' && c == 't')
    || (a == 'n' && b == 'o' && c == 'v') || (a == 'd' && b == 'e' && c == 'c')
  }

  /** A three-letter month name at `k`, in any case. */
  predicate IsMonthAt(s: string, k: nat) {
    k + 3 <= |s| && IsMonthAbbreviation(Lower(s[k]), Lower(s[k + 1]), Lower(s[k + 2]))
  }

  lemma MonthStartsWithLetter(s: string, k: nat)
    requires IsMonthAt(s, k)
    ensures k < |s| && !IsSpace(s[k]) && !IsDigit(s[k])
  {
  }

  /** `\d{1,2}\s+(Jan|...|Dec)\s+\d{4}` at `i`; the end of the match. */
  function MonthDateAt(s: string, i: nat): (e: Option<nat>)
    requires i <= |s|
  {
    var d := Run(IsDigit, s, i);
    if 1 <= d <= 2 then
      var j := i + d;
      var a := Run(IsSpace, s, j);
      var k := j + a;
      if a >= 1 && IsMonthAt(s, k) then
        var l := k + 3;
        var b := Run(IsSpace, s, l);
        var m := l + b;
        if b >= 1 && Run(IsDigit, s, m) >= 4 then Some(m + 4) else None
      else None
    else None
  }

  lemma MonthDateSound(s: string, i: nat)
    requires i <= |s| && MonthDateAt(s, i).Some?
    ensures i < MonthDateAt(s, i).value <= |s|
    ensures DateShape(DayMonthName, s, i, MonthDateAt(s, i).value)
  {
    var d := Run(IsDigit, s, i);
    var a := Run(IsSpace, s, i + d);
    var b := Run(IsSpace, s, i + d + a + 3);
    var m := i + d + a + 3 + b;
    AllInPrefix(IsDigit, s, m, m + 4, m + Run(IsDigit, s, m));
    assert MonthShape(s, i, m + 4, d, a, b);
  }

  /** `Court[:\s]*(\d+|[IVX]+)` at `i`: the word `court` in any case, any run
      of colons and whitespace, then the longest run of digits, or failing a
      digit the longest run of Roman-numeral letters. */
  function CourtAt(s: string, i: nat): (g: Option<Span>)
    requires i <= |s|
    ensures g.Some? ==> i + 5 <= g.value.start < g.value.end <= |s|
    ensures g.Some? ==> OccursNoCaseAt(s, i, "court") && AllIn(IsColonOrSpace, s, i + 5, g.value.start)
    ensures g.Some? ==> AllIn(IsDigit, s, g.value.start, g.value.end) || AllIn(IsRomanNumeral, s, g.value.start, g.value.end)
    ensures g.Some? && g.value.end < |s| ==>
      if IsDigit(s[g.value.start]) then !IsDigit(s[g.value.end]) else !IsRomanNumeral(s[g.value.end])
  {
    if OccursNoCaseAt(s, i, "court") then
      var j := i + 5 + Run(IsColonOrSpace, s, i + 5);
      if j < |s| && IsDigit(s[j]) then Some(Span(j, j + Run(IsDigit, s, j)))
      else if j < |s| && IsRomanNumeral(s[j]) then Some(Span(j, j + Run(IsRomanNumeral, s, j)))
      else None
    else None
  }

  /** `\[(.*?)\]` at `i`: a `[`, then the shortest text up to a `]`, which
      may not cross a line feed. */
  function BracketAt(s: string, i: nat): (g: Option<Span>)
    requires i <= |s|
    ensures g.Some? ==> i < |s| && s[i] == '[' && g.value.start == i + 1
    ensures g.Some? ==> g.value.start <= g.value.end < |s| && s[g.value.end] == ']'
    ensures g.Some? ==> AllIn(IsBracketBody, s, g.value.start, g.value.end)
  {
    if i < |s| && s[i] == '[' then
      var n := Run(IsBracketBody, s, i + 1);
      if i + 1 + n < |s| && s[i + 1 + n] == ']' then Some(Span(i + 1, i + 1 + n)) else None
    else None
  }

  /** Group 1 of the match of `p` that starts at `i`, if there is one. */
  function MatchAt(p: Pattern, s: string, i: nat): (g: Option<Span>)
    requires i <= |s|
    ensures g.Some? ==> i <= g.value.start <= g.value.end <= |s|
    ensures g.Some? && IsDatePattern(p) ==> g.value.start == i < g.value.end
  {
    match p
    case DayMonthName =>
      var e := MonthDateAt(s, i);
      if e.Some? then
        MonthDateSound(s, i);
        Some(Span(i, e.value))
      else None
    case CourtNo => CourtAt(s, i)
    case Bracketed => BracketAt(s, i)
    case _ =>
      var e := NumericDateAt(s, i, MinYearDigits(p), MaxYearDigits(p));
      if e.Some? then
        NumericDateSound(s, i, MinYearDigits(p), MaxYearDigits(p));
        Some(Span(i, e.value))
      else None
  }

  /** The match of `p` at every start position `0 .. |s|`. */
  function MatchesOf(p: Pattern, s: string): (ms: seq<Option<Span>>)
    ensures |ms| == |s| + 1
    ensures forall k :: 0 <= k <= |s| ==> ms[k] == MatchAt(p, s, k)
  {
    seq(|s| + 1, k requires 0 <= k <= |s| => MatchAt(p, s, k))
  }

  /** The first index at or after `i` holding a match. */
  function FirstMatch(ms: seq<Option<Span>>, i: nat): (r: Option<nat>)
    requires i <= |ms|
    ensures r.Some? ==> i <= r.value < |ms| && ms[r.value].Some?
    ensures r.Some? ==> forall k :: i <= k < r.value ==> ms[k].None?
    ensures r.None? ==> forall k :: i <= k < |ms| ==> ms[k].None?
    decreases |ms| - i
  {
    if i == |ms| then None
    else if ms[i].Some? then Some(i)
    else FirstMatch(ms, i + 1)
  }

  /** `re.search`: the leftmost start where `p` matches. */
  function Search(p: Pattern, s: string): (r: Option<nat>)
    ensures r.Some? ==> r.value <= |s| && MatchAt(p, s, r.value).Some?
    ensures r.Some? ==> forall k :: 0 <= k < r.value ==> MatchAt(p, s, k).None?
    ensures r.None? ==> forall k :: 0 <= k <= |s| ==> MatchAt(p, s, k).None?
  {
    FirstMatch(MatchesOf(p, s), 0)
  }

  /** `t` occurs somewhere in `s`. */
  predicate IsSlice(t: string, s: string) {
    exists i, j :: 0 <= i <= j <= |s| && s[i..j] == t
  }

  /** `m = re.search(p, s); m.group(1) if m else None`. */
  function SearchGroup(p: Pattern, s: string): (r: Option<string>)
    ensures r.Some? ==> IsSlice(r.value, s)
    ensures r.Some? && IsDatePattern(p) ==> r.value != []
    ensures r.None? <==> forall k :: 0 <= k <= |s| ==> MatchAt(p, s, k).None?
  {
    match Search(p, s)
    case None => None
    case Some(i) =>
      var g := MatchAt(p, s, i).value;
      Some(s[g.start..g.end])
  }

  // ---------------------------------------------------------------------
  // The matchers find every match, and the longest one at each start.

  lemma NumericDateComplete(s: string, i: nat, e: nat, lo: nat, hi: nat)
    requires i <= |s| && NumericDateShape(s, i, e, lo, hi)
    ensures NumericDateAt(s, i, lo, hi).Some? && e <= NumericDateAt(s, i, lo, hi).value
  {
    var d: nat, m: nat, y: nat :| lo <= y <= hi && NumericShape(s, i, e, d, m, y);
    var j, k := i + d + 1, i + d + m + 2;
    RunExactly(IsDigit, s, i, d);
    RunExactly(IsDigit, s, j, m);
    RunAtLeast(IsDigit, s, k, y);
    NumericDateAtRuns(s, i, lo, hi, d, m, y);
  }

  /** The matcher reads the day, the month and the year off the runs. */
  lemma NumericDateAtRuns(s: string, i: nat, lo: nat, hi: nat, d: nat, m: nat, y: nat)
    requires i <= |s| && 1 <= d <= 2 && 1 <= m <= 2 && lo <= y <= hi
    requires Run(IsDigit, s, i) == d && i + d < |s| && IsDateSeparator(s[i + d])
    requires Run(IsDigit, s, i + d + 1) == m && i + d + 1 + m < |s| && IsDateSeparator(s[i + d + 1 + m])
    requires Run(IsDigit, s, i + d + m + 2) >= y
    ensures NumericDateAt(s, i, lo, hi).Some? && i + d + m + 2 + y <= NumericDateAt(s, i, lo, hi).value
  {
  }

  /** The runs a month-name date is made of, as the matcher measures them. */
  lemma MonthShapeRuns(s: string, i: nat, e: nat, d: nat, a: nat, b: nat)
    requires MonthShape(s, i, e, d, a, b)
    ensures Run(IsDigit, s, i) == d && Run(IsSpace, s, i + d) == a
    ensures Run(IsSpace, s, i + d + a + 3) == b && Run(IsDigit, s, e - 4) >= 4
  {
    var k := i + d + a;
    RunExactly(IsDigit, s, i, d);
    MonthStartsWithLetter(s, k);
    RunExactly(IsSpace, s, i + d, a);
    AllInAt(IsDigit, s, e - 4, e, e - 4);
    RunExactly(IsSpace, s, k + 3, b);
    RunAtLeast(IsDigit, s, e - 4, 4);
  }

  lemma MonthDateComplete(s: string, i: nat, e: nat)
    requires i <= |s| && DateShape(DayMonthName, s, i, e)
    ensures MonthDateAt(s, i) == Some(e)
  {
    var d: nat, a: nat, b: nat :| MonthShape(s, i, e, d, a, b);
    MonthShapeRuns(s, i, e, d, a, b);
    MonthDateAtRuns(s, i, d, a, b);
  }

  /** The matcher reads the day, the gaps and the year off the runs. */
  lemma MonthDateAtRuns(s: string, i: nat, d: nat, a: nat, b: nat)
    requires i <= |s| && 1 <= d <= 2 && a >= 1 && b >= 1
    requires Run(IsDigit, s, i) == d && Run(IsSpace, s, i + d) == a && IsMonthAt(s, i + d + a)
    requires Run(IsSpace, s, i + d + a + 3) == b && Run(IsDigit, s, i + d + a + 3 + b) >= 4
    ensures MonthDateAt(s, i) == Some(i + d + a + b + 7)
  {
  }

  /** For a date pattern, a match starts at `i` exactly when the matcher
      finds one there, and the matcher's is the longest. */
  lemma MatchAtIsLongestShape(p: Pattern, s: string, i: nat)
    requires IsDatePattern(p) && i <= |s|
    ensures MatchAt(p, s, i).Some? <==> ShapeAt(p, s, i)
    ensures MatchAt(p, s, i).Some? ==> DateShape(p, s, i, MatchAt(p, s, i).value.end)
    ensures MatchAt(p, s, i).Some? ==> forall f :: MatchAt(p, s, i).value.end < f ==> !DateShape(p, s, i, f)
  {
    if MatchAt(p, s, i).Some? {
      var e := MatchAt(p, s, i).value.end;
      if p == DayMonthName { MonthDateSound(s, i); }
      else { NumericDateSound(s, i, MinYearDigits(p), MaxYearDigits(p)); }
      assert DateShape(p, s, i, e);
      forall f | e < f ensures !DateShape(p, s, i, f) {
        if DateShape(p, s, i, f) {
          if p == DayMonthName { MonthDateComplete(s, i, f); } else { NumericDateComplete(s, i, f, MinYearDigits(p), MaxYearDigits(p)); }
        }
      }
    }
    if ShapeAt(p, s, i) {
      var e :| i <= e && DateShape(p, s, i, e);
      if p == DayMonthName { MonthDateComplete(s, i, e); } else { NumericDateComplete(s, i, e, MinYearDigits(p), MaxYearDigits(p)); }
    }
  }

  /** A match never runs past the end of the text. */
  lemma ShapeWithin(p: Pattern, s: string, i: nat, e: nat)
    requires DateShape(p, s, i, e)
    ensures i < e <= |s|
  {
  }

  /** Every date begins with a digit, so a text without digits holds none. */
  lemma NoDigitNoDate(p: Pattern, s: string)
    requires forall c :: c in s ==> !IsDigit(c)
    ensures !OccursIn(p, s)
  {
  }

  /** `re.search(p, s).group(1)` for a date pattern: absent exactly when no
      match occurs anywhere, and otherwise the leftmost-longest match. */
  lemma SearchGroupIsLeftmostLongest(p: Pattern, s: string)
    requires IsDatePattern(p)
    ensures SearchGroup(p, s).None? <==> !OccursIn(p, s)
    ensures SearchGroup(p, s).Some? ==>
      exists i, e :: 0 <= i <= e <= |s| && LeftmostLongest(p, s, i, e) && SearchGroup(p, s).value == s[i..e]
  {
    forall k | 0 <= k <= |s| ensures MatchAt(p, s, k).Some? <==> ShapeAt(p, s, k) {
      MatchAtIsLongestShape(p, s, k);
    }
    forall k: nat | ShapeAt(p, s, k) ensures k <= |s| {
      var e :| k <= e && DateShape(p, s, k, e);
      ShapeWithin(p, s, k, e);
    }
    if SearchGroup(p, s).Some? {
      var i := Search(p, s).value;
      var e := MatchAt(p, s, i).value.end;
      MatchAtIsLongestShape(p, s, i);
      assert LeftmostLongest(p, s, i, e);
    }
  }

  // ---------------------------------------------------------------------
  // The court and bracket patterns, described declaratively.

  /** A match of `Court[:\s]*(\d+|[IVX]+)` at `i` with group `s[b..e]`:
      `court` in any case, colons and white space up to `b`, then a
      non-empty run of digits or of I/V/X letters in any case. */
  predicate CourtShape(s: string, i: nat, b: nat, e: nat) {
    i + 5 <= b < e <= |s| && OccursNoCaseAt(s, i, "court") && AllIn(IsColonOrSpace, s, i + 5, b)
    && (AllIn(IsDigit, s, b, e) || AllIn(IsRomanNumeral, s, b, e))
  }

  /** The court pattern matches somewhere in `s`. */
  ghost predicate CourtOccursIn(s: string) {
    exists i: nat, b: nat, e: nat :: CourtShape(s, i, b, e)
  }

  /** `s[b..e]` is the group of the leftmost court match, taken as long as
      it can be. */
  ghost predicate CourtLeftmostLongest(s: string, i: nat, b: nat, e: nat) {
    CourtShape(s, i, b, e)
    && (forall j: nat, c: nat, f: nat :: CourtShape(s, j, c, f) ==> i <= j)
    && (forall c: nat, f: nat :: CourtShape(s, i, c, f) ==> c == b && f <= e)
  }

  /** What `CourtAt` finds is a match. */
  lemma CourtAtSound(s: string, i: nat)
    requires i <= |s| && CourtAt(s, i).Some?
    ensures CourtShape(s, i, CourtAt(s, i).value.start, CourtAt(s, i).value.end)
  {
  }

  /** Every match at `i` is found by `CourtAt`, which takes its group at the
      same place and at least as long: a digit or I/V/X letter ends the run
      of colons and white space, and the run after it is maximal. */
  lemma {:induction false} CourtAtComplete(s: string, i: nat, b: nat, e: nat)
    requires CourtShape(s, i, b, e)
    ensures CourtAt(s, i).Some? && CourtAt(s, i).value.start == b && e <= CourtAt(s, i).value.end
  {
    if AllIn(IsDigit, s, b, e) {
      AllInAt(IsDigit, s, b, e, b);
      RunExactly(IsColonOrSpace, s, i + 5, b - i - 5);
      RunAtLeast(IsDigit, s, b, e - b);
    } else {
      AllInAt(IsRomanNumeral, s, b, e, b);
      RunExactly(IsColonOrSpace, s, i + 5, b - i - 5);
      RunAtLeast(IsRomanNumeral, s, b, e - b);
    }
  }

  /** `re.search` with the court pattern: no group exactly when no match
      occurs anywhere, and otherwise the leftmost match's longest group. */
  lemma CourtSearchIsLeftmostLongest(s: string)
    ensures SearchGroup(CourtNo, s).None? <==> !CourtOccursIn(s)
    ensures SearchGroup(CourtNo, s).Some? ==>
      exists i: nat, b: nat, e: nat :: CourtLeftmostLongest(s, i, b, e) && SearchGroup(CourtNo, s).value == s[b..e]
  {
    forall i: nat, b: nat, e: nat | CourtShape(s, i, b, e) ensures i <= |s| && MatchAt(CourtNo, s, i).Some? {
      CourtAtComplete(s, i, b, e);
    }
    if SearchGroup(CourtNo, s).Some? {
      var i := Search(CourtNo, s).value;
      var g := CourtAt(s, i).value;
      CourtAtSound(s, i);
      forall c: nat, f: nat | CourtShape(s, i, c, f) ensures c == g.start && f <= g.end {
        CourtAtComplete(s, i, c, f);
      }
      assert CourtLeftmostLongest(s, i, g.start, g.end);
    }
  }

  /** A match of `\[(.*?)\]` at `i` with group `s[i + 1..e]`: a `[`, a `]`
      at `e`, and no line feed between them. */
  predicate BracketShape(s: string, i: nat, e: nat) {
    i < e < |s| && s[i] == '[' && s[e] == ']' && forall k :: i < k < e ==> s[k] != '\n'
  }

  /** The bracket pattern matches somewhere in `s`. */
  ghost predicate BracketOccursIn(s: string) {
    exists i: nat, e: nat :: BracketShape(s, i, e)
  }

  /** `s[i + 1..e]` is the group of the leftmost bracket match, taken as
      short as it can be, as the lazy `.*?` does. */
  ghost predicate BracketLeftmostShortest(s: string, i: nat, e: nat) {
    BracketShape(s, i, e)
    && (forall j: nat, f: nat :: BracketShape(s, j, f) ==> i <= j)
    && (forall f: nat :: BracketShape(s, i, f) ==> e <= f)
  }

  /** What `BracketAt` finds is a match. */
  lemma BracketAtSound(s: string, i: nat)
    requires i <= |s| && BracketAt(s, i).Some?
    ensures BracketShape(s, i, BracketAt(s, i).value.end)
  {
    var g := BracketAt(s, i).value;
    forall k | i < k < g.end ensures s[k] != '\n' {
      AllInAt(IsBracketBody, s, g.start, g.end, k);
    }
  }

  /** Every match at `i` is found by `BracketAt`, which stops at the first
      `]` and so at or before the match's own. */
  lemma {:induction false} BracketAtComplete(s: string, i: nat, e: nat)
    requires BracketShape(s, i, e)
    ensures BracketAt(s, i).Some? && BracketAt(s, i).value.end <= e
  {
    var n := Run(IsBracketBody, s, i + 1);
    if i + 1 + n > e {
      AllInAt(IsBracketBody, s, i + 1, i + 1 + n, e);
    }
    assert !IsBracketBody(s[i + 1 + n]);
  }

  /** `re.search` with the bracket pattern: no group exactly when no match
      occurs anywhere, and otherwise the leftmost match's shortest group. */
  lemma BracketSearchIsLeftmostShortest(s: string)
    ensures SearchGroup(Bracketed, s).None? <==> !BracketOccursIn(s)
    ensures SearchGroup(Bracketed, s).Some? ==>
      exists i: nat, e: nat :: BracketLeftmostShortest(s, i, e) && SearchGroup(Bracketed, s).value == s[i + 1..e]
  {
    forall i: nat, e: nat | BracketShape(s, i, e) ensures i <= |s| && MatchAt(Bracketed, s, i).Some? {
      BracketAtComplete(s, i, e);
    }
    if SearchGroup(Bracketed, s).Some? {
      var i := Search(Bracketed, s).value;
      var g := BracketAt(s, i).value;
      BracketAtSound(s, i);
      forall f: nat | BracketShape(s, i, f) ensures g.end <= f {
        BracketAtComplete(s, i, f);
      }
      assert BracketLeftmostShortest(s, i, g.end);
    }
  }
}
