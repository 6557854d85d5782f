/** The row field parser `_extract_case_details` (court_scraper.py:135-181):
    the case number and `[STATUS]` of the second cell, the parties of the
    third, and the hearing date and court number of the fourth. Cells are
    their `get_text(strip=True)` values. */
module CaseDetails {
  import opened Wrappers
  import opened Text
  import opened Patterns
  import opened Records

  // ----- Column 2: case number and status -----

  /** `case_no_cell.split('[')[0].strip()`. */
  function CaseNumberOf(cell: string): (r: string)
    ensures forall k :: 0 <= k < |r| ==> r[k] != '['
    ensures !Contains(cell, "[") ==> r == Strip(cell)
  {
    var before := SplitOnce(cell, "[")[0];
    NoBracketBefore(cell);
    Strip(before)
  }

  /** The text before the first `[` holds no `[`, and neither does any
      part of it. */
  lemma NoBracketBefore(cell: string)
    ensures forall k :: 0 <= k < |SplitOnce(cell, "[")[0]| ==> SplitOnce(cell, "[")[0][k] != '['
    ensures forall k :: 0 <= k < |Strip(SplitOnce(cell, "[")[0])| ==> Strip(SplitOnce(cell, "[")[0])[k] != '['
  {
    var b := SplitOnce(cell, "[")[0];
    forall k | 0 <= k < |b| ensures b[k] != '[' {
      if b[k] == '[' { assert OccursAt(b, "[", k); ContainsAt(b, "[", k); }
    }
    var r := Strip(b);
    forall k | 0 <= k < |r| ensures r[k] != '[' {
      assert r[k] == b[LeadingSpaces(b) + k];
    }
  }

  /** The case number is the stripped text before the first `[`, or the
      whole stripped cell when it has none. */
  lemma {:induction false} CaseNumberBeforeFirstBracket(cell: string, n: nat)
    requires n <= |cell| && (n < |cell| ==> cell[n] == '[')
    requires forall k :: 0 <= k < n ==> cell[k] != '['
    ensures CaseNumberOf(cell) == Strip(cell[..n])
  {
    if n < |cell| {
      assert OccursAt(cell, "[", n);
      forall k: nat | k < n ensures !OccursAt(cell, "[", k) { assert cell[k..k + 1][0] == cell[k]; }
      assert Find(cell, "[") == Some(n);
    } else {
      forall k: nat ensures !OccursAt(cell, "[", k) {
        if k + 1 <= |cell| { assert cell[k..k + 1][0] == cell[k]; }
      }
      assert cell[..n] == cell;
    }
  }

  /** `status_match.group(1)` of `re.search(r'\[(.*?)\]', cell)`, looked
      for only when both brackets occur. */
  function StatusOf(cell: string): (r: Option<string>)
    ensures r.Some? ==> Contains(cell, "[") && Contains(cell, "]")
    ensures r.Some? ==> IsSlice(r.value, cell)
  {
    if Contains(cell, "[") && Contains(cell, "]") then SearchGroup(Bracketed, cell) else None
  }

  /** The status is the text from the first `[` to the next `]` when that
      text holds no line break (`.` does not match `\n`). */
  lemma {:induction false} StatusBetweenBrackets(cell: string, i: nat, e: nat)
    requires i < e < |cell| && cell[i] == '[' && cell[e] == ']'
    requires forall k :: 0 <= k < i ==> cell[k] != '['
    requires forall k :: i < k < e ==> cell[k] != ']' && cell[k] != '\n'
    ensures StatusOf(cell) == Some(cell[i + 1..e])
  {
    assert OccursAt(cell, "[", i) && OccursAt(cell, "]", e);
    ContainsAt(cell, "[", i);
    ContainsAt(cell, "]", e);
    AllInFromBody(cell, i + 1, e);
    RunExactly(IsBracketBody, cell, i + 1, e - i - 1);
    assert MatchAt(Bracketed, cell, i) == Some(Span(i + 1, e));
    forall k | 0 <= k < i ensures MatchAt(Bracketed, cell, k).None? { }
    var r := Search(Bracketed, cell);
    assert r == Some(i);
  }

  lemma {:induction false} AllInFromBody(s: string, lo: nat, hi: nat)
    requires lo <= hi <= |s|
    requires forall k :: lo <= k < hi ==> s[k] != ']' && s[k] != '\n'
    ensures AllIn(IsBracketBody, s, lo, hi)
    decreases hi - lo
  {
    if lo < hi { AllInFromBody(s, lo + 1, hi); }
  }

  /** There is a status exactly when a `[` is followed by a `]` with no line
      feed between them, and then it is the text inside the leftmost such
      pair, up to the first `]` after its `[`. */
  lemma StatusMeaning(cell: string)
    ensures StatusOf(cell).None? <==> !BracketOccursIn(cell)
    ensures StatusOf(cell).Some? ==>
      exists i: nat, e: nat :: BracketLeftmostShortest(cell, i, e) && StatusOf(cell).value == cell[i + 1..e]
  {
    BracketSearchIsLeftmostShortest(cell);
    if BracketOccursIn(cell) {
      var i: nat, e: nat :| BracketShape(cell, i, e);
      assert OccursAt(cell, "[", i) && OccursAt(cell, "]", e);
      ContainsAt(cell, "[", i);
      ContainsAt(cell, "]", e);
    }
  }

  /** A cell without both brackets has no status. */
  lemma StatusNeedsBothBrackets(cell: string)
    requires !Contains(cell, "[") || !Contains(cell, "]")
    ensures StatusOf(cell).None?
  {
  }

  // ----- Column 3: the parties -----

  /** The separators, in the order they are tried. */
  const Separators: seq<string> := [" Vs. ", " V/s ", " vs "]

  /** The first separator of the list that occurs in the cell. */
  function SeparatorOf(cell: string): (r: Option<string>)
    ensures r.Some? ==> r.value in Separators && Contains(cell, r.value)
    ensures r.Some? ==> forall k :: 0 <= k < |Separators| && Separators[k] == r.value ==>
      forall q :: 0 <= q < k ==> !Contains(cell, Separators[q])
    ensures r.None? <==> forall k :: 0 <= k < |Separators| ==> !Contains(cell, Separators[k])
  {
    if Contains(cell, " Vs. ") then Some(" Vs. ")
    else if Contains(cell, " V/s ") then Some(" V/s ")
    else if Contains(cell, " vs ") then Some(" vs ")
    else None
  }

  /** `parties_cell.split(separator, 1)` with both parts stripped; with no
      separator the whole cell is the petitioner and the respondent is
      `'Not specified'`. The `'Not specified'` fallback for a split with a
      single part is kept although it cannot be taken. */
  function PartiesOf(cell: string): (r: (string, string))
    ensures SeparatorOf(cell).None? ==> r == (cell, "Not specified")
  {
    match SeparatorOf(cell)
    case None => (cell, "Not specified")
    case Some(sep) =>
      var parts := SplitOnce(cell, sep);
      (Strip(parts[0]), if |parts| > 1 then Strip(parts[1]) else "Not specified")
  }

  /** With a separator, the cell is cut at the separator's first occurrence
      and both halves are stripped. */
  lemma PartiesSplitAtFirst(cell: string)
    requires SeparatorOf(cell).Some?
    ensures var sep := SeparatorOf(cell).value;
      Find(cell, sep).Some? &&
      var n := Find(cell, sep).value;
      n + |sep| <= |cell| &&
      PartiesOf(cell) == (Strip(cell[..n]), Strip(cell[n + |sep|..]))
  {
  }

  /** A stripped cell with a separator yields two non-empty parties: the
      separators begin and end with a space, which a stripped cell cannot. */
  lemma PartiesNonEmpty(cell: string)
    requires IsStripped(cell) && SeparatorOf(cell).Some?
    ensures PartiesOf(cell).0 != [] && PartiesOf(cell).1 != []
  {
    var sep := SeparatorOf(cell).value;
    var n := Find(cell, sep).value;
    assert OccursAt(cell, sep, n);
    var m := n + |sep|;
    assert sep[0] == ' ' && sep[|sep| - 1] == ' ';
    assert cell[n] == ' ' && cell[m - 1] == ' ';
    assert IsSpace(cell[n]) && IsSpace(cell[m - 1]);
    assert n > 0 && m < |cell|;
    StripOfNonSpace(cell[..n], 0);
    StripOfNonSpace(cell[m..], |cell| - 1 - m);
    PartiesSplitAtFirst(cell);
  }

  /** A string holding a character that is not white space strips to
      something non-empty. */
  lemma StripOfNonSpace(s: string, k: nat)
    requires k < |s| && !IsSpace(s[k])
    ensures Strip(s) != []
  {
    StripEmpty(s);
  }

  // ----- Column 4: hearing date and court number -----

  /** `re.search(r'(\d{1,2}[-./]\d{1,2}[-./]\d{2,4})', listing_info)`. */
  function HearingDateOf(listing: string): (r: Option<string>)
    ensures r.Some? ==> r.value != [] && IsSlice(r.value, listing)
  {
    SearchGroup(DayMonthYear2to4, listing)
  }

  /** The hearing date is the leftmost, longest date of the form
      `d[d]<sep>m[m]<sep>yy[yy]` in the cell, and there is none exactly when
      the cell holds no such date. */
  lemma HearingDateMeaning(listing: string)
    ensures HearingDateOf(listing).None? <==> !OccursIn(DayMonthYear2to4, listing)
    ensures HearingDateOf(listing).Some? ==>
      (exists i, e :: 0 <= i <= e <= |listing| &&
        LeftmostLongest(DayMonthYear2to4, listing, i, e) && HearingDateOf(listing).value == listing[i..e])
  {
    SearchGroupIsLeftmostLongest(DayMonthYear2to4, listing);
  }

  /** The group of `re.search(r'Court[:\s]*(\d+|[IVX]+)', listing_info,
      re.IGNORECASE)`, or else the whole cell. */
  function CourtNumberOf(listing: string): (r: string)
    ensures r == listing || IsSlice(r, listing)
  {
    match SearchGroup(CourtNo, listing)
    case Some(g) => g
    case None => listing
  }

  /** When no `court` (in any case) followed by colons or white space and
      then a digit or an I/V/X letter occurs anywhere, the court number is
      the whole cell. */
  lemma CourtNumberFallback(listing: string)
    ensures !CourtOccursIn(listing) ==> CourtNumberOf(listing) == listing
  {
    CourtSearchIsLeftmostLongest(listing);
  }

  /** Otherwise it is the run of digits, or of I/V/X letters in any case,
      that follows the leftmost such `court`; the run is as long as it can
      be. */
  lemma CourtNumberFound(listing: string)
    ensures CourtOccursIn(listing) ==>
      exists i: nat, b: nat, e: nat :: CourtLeftmostLongest(listing, i, b, e) && CourtNumberOf(listing) == listing[b..e]
  {
    CourtSearchIsLeftmostLongest(listing);
  }

  /** `"Court No. 5"` gives the whole cell: after `Court` and the space
      comes `N`, which is neither a digit nor I, V or X. */
  lemma CourtNoIsWholeCell()
    ensures CourtNumberOf("Court No. 5") == "Court No. 5"
  {
    var s := "Court No. 5";
    forall k | 0 <= k <= |s| ensures CourtAt(s, k).None? {
      if k == 0 {
        assert AllIn(IsColonOrSpace, s, 5, 6);
        RunExactly(IsColonOrSpace, s, 5, 1);
        assert !IsDigit(s[6]) && !IsRomanNumeral(s[6]);
      } else if k + 5 <= |s| {
        assert Lower(s[k + 0]) != "court"[0];
      }
    }
    assert forall k :: 0 <= k <= |s| ==> MatchAt(CourtNo, s, k).None?;
  }

  /** `"Court: 12"` gives `12`. */
  lemma CourtColonNumber()
    ensures CourtNumberOf("Court: 12") == "12"
  {
    var s := "Court: 12";
    assert AllIn(IsColonOrSpace, s, 5, 7);
    RunExactly(IsColonOrSpace, s, 5, 2);
    assert AllIn(IsDigit, s, 7, 9);
    RunExactly(IsDigit, s, 7, 2);
    assert MatchAt(CourtNo, s, 0) == Some(Span(7, 9));
    assert Search(CourtNo, s) == Some(0);
  }

  // ----- The whole row -----

  /** The dictionary `_extract_case_details` returns for a row's cells. */
  function CaseDetailsOf(cells: seq<string>): (info: CaseInfo)
    ensures info.caseNumber.Some? <==> |cells| > 1
    ensures info.status.Some? ==> |cells| > 1 && info.status == StatusOf(cells[1])
    ensures info.petitioner.Some? <==> |cells| > 2
    ensures info.respondent.Some? <==> |cells| > 2
    ensures info.courtNumber.Some? <==> |cells| > 3
    ensures info.nextHearingDate.Some? ==> |cells| > 3
    ensures info.filingDate.None? && info.documents.None?
  {
    var caseNumber := if |cells| > 1 then Some(CaseNumberOf(cells[1])) else None;
    var status := if |cells| > 1 then StatusOf(cells[1]) else None;
    var parties := if |cells| > 2 then Some(PartiesOf(cells[2])) else None;
    var hearing := if |cells| > 3 then HearingDateOf(cells[3]) else None;
    var court := if |cells| > 3 then Some(CourtNumberOf(cells[3])) else None;
    CaseInfo(caseNumber, status,
      if parties.Some? then Some(parties.value.0) else None,
      if parties.Some? then Some(parties.value.1) else None,
      hearing, court, None, None)
  }

  /** `_extract_case_details`, filling the dictionary key by key. */
  method ExtractCaseDetails(cells: seq<string>) returns (caseDetails: CaseInfo)
    ensures caseDetails == CaseDetailsOf(cells)
  {
    caseDetails := NoKeys;
    if |cells| > 1 {
      var caseNoCell := cells[1];
      caseDetails := caseDetails.(caseNumber := Some(CaseNumberOf(caseNoCell)));
      if Contains(caseNoCell, "[") && Contains(caseNoCell, "]") {
        var statusMatch := SearchGroup(Bracketed, caseNoCell);
        if statusMatch.Some? {
          caseDetails := caseDetails.(status := statusMatch);
        }
      }
    }
    if |cells| > 2 {
      var parties := PartiesOf(cells[2]);
      caseDetails := caseDetails.(petitioner := Some(parties.0), respondent := Some(parties.1));
    }
    if |cells| > 3 {
      var listingInfo := cells[3];
      var dateMatch := HearingDateOf(listingInfo);
      if dateMatch.Some? {
        caseDetails := caseDetails.(nextHearingDate := dateMatch);
      }
      caseDetails := caseDetails.(courtNumber := Some(CourtNumberOf(listingInfo)));
    }
  }
}
