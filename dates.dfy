/** `_extract_date_from_text` (court_scraper.py:231-247): the first of three
    date patterns that matches anywhere in the text, returned verbatim. */
module Dates {
  import opened Wrappers
  import opened Patterns

  /** The pattern list, in the order it is tried. */
  const DatePatterns: seq<Pattern> := [DayMonthYear4, DayMonthYear2, DayMonthName]

  /** The loop over the pattern list with its early return: the group of the
      first pattern that matches somewhere in `text`. */
  function FirstPatternMatch(patterns: seq<Pattern>, text: string): (r: Option<string>)
    requires forall k :: 0 <= k < |patterns| ==> IsDatePattern(patterns[k])
    ensures r.Some? ==> r.value != [] && IsSlice(r.value, text)
    ensures r.None? <==> forall k :: 0 <= k < |patterns| ==> SearchGroup(patterns[k], text).None?
  {
    if patterns == [] then None
    else
      match SearchGroup(patterns[0], text)
      case Some(g) => Some(g)
      case None =>
        var r := FirstPatternMatch(patterns[1..], text);
        assert forall k :: 1 <= k < |patterns| ==> patterns[k] == patterns[1..][k - 1];
        r
  }

  function ExtractDate(text: string): (r: Option<string>)
    ensures text == [] ==> r.None?
    ensures r.Some? ==> r.value != [] && IsSlice(r.value, text)
  {
    if text == [] then None else FirstPatternMatch(DatePatterns, text)
  }

  /** One turn of the pattern loop. */
  lemma FirstPatternMatchStep(patterns: seq<Pattern>, text: string)
    requires patterns != [] && forall k :: 0 <= k < |patterns| ==> IsDatePattern(patterns[k])
    ensures FirstPatternMatch(patterns, text) ==
      if SearchGroup(patterns[0], text).Some? then SearchGroup(patterns[0], text)
      else FirstPatternMatch(patterns[1..], text)
  {
  }

  /** The pattern loop, unrolled. */
  lemma ExtractDateUnrolled(text: string)
    requires text != []
    ensures ExtractDate(text) ==
      if SearchGroup(DayMonthYear4, text).Some? then SearchGroup(DayMonthYear4, text)
      else if SearchGroup(DayMonthYear2, text).Some? then SearchGroup(DayMonthYear2, text)
      else SearchGroup(DayMonthName, text)
  {
    var ps := DatePatterns;
    FirstPatternMatchStep(ps, text);
    assert ps[1..] == [DayMonthYear2, DayMonthName];
    FirstPatternMatchStep(ps[1..], text);
    assert ps[1..][1..] == [DayMonthName];
    FirstPatternMatchStep(ps[1..][1..], text);
    assert ps[1..][1..][1..] == [];
  }

  /** `r` is the match `re.search(p, s)` reports. */
  ghost predicate FoundBy(p: Pattern, s: string, r: Option<string>) {
    exists i, e :: 0 <= i <= e <= |s| && LeftmostLongest(p, s, i, e) && r == Some(s[i..e])
  }

  /** What `_extract_date_from_text` returns, stated through the dates each
      pattern describes: nothing for empty text or text holding no date of
      any of the three forms; otherwise the leftmost date of the first form
      that occurs anywhere, so that a later pattern never wins over an
      earlier one that matches elsewhere in the text. */
  lemma ExtractDateMeaning(text: string)
    ensures ExtractDate(text).None? <==>
      text == [] || (!OccursIn(DayMonthYear4, text) && !OccursIn(DayMonthYear2, text) && !OccursIn(DayMonthName, text))
    ensures text != [] && OccursIn(DayMonthYear4, text) ==>
      FoundBy(DayMonthYear4, text, ExtractDate(text))
    ensures text != [] && !OccursIn(DayMonthYear4, text) && OccursIn(DayMonthYear2, text) ==>
      FoundBy(DayMonthYear2, text, ExtractDate(text))
    ensures text != [] && !OccursIn(DayMonthYear4, text) && !OccursIn(DayMonthYear2, text) && OccursIn(DayMonthName, text) ==>
      FoundBy(DayMonthName, text, ExtractDate(text))
  {
    if text != [] {
      ExtractDateUnrolled(text);
      SearchGroupIsLeftmostLongest(DayMonthYear4, text);
      SearchGroupIsLeftmostLongest(DayMonthYear2, text);
      SearchGroupIsLeftmostLongest(DayMonthName, text);
    }
  }
}
