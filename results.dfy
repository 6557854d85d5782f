/** `_parse_results`: the failure cascade over a result page, the parse of
    its first data row, the optional detail-page patch and the record
    assembled with its defaults. */
module Results {
  import opened Wrappers
  import opened Text
  import opened Html
  import opened Records
  import opened CaseDetails
  import opened Detail

  /** The phrase the site shows in an empty result table. */
  const NoDataPhrase: string := "No data available in table"

  /** The failure messages, in the order the checks are made. */
  const NoTableError: string := "No results table found"
  const NoDataError: string := "No case found with the provided details"
  const NoRowsError: string := "No case data found"
  const FewCellsError: string := "Incomplete case data"

  /** How much of the serialised page the record keeps. */
  const RawHtmlLimit: nat := 5000

  /** `str(soup)[:5000]`. */
  function RawHtml(markup: string): (r: string)
    ensures |r| <= RawHtmlLimit && r <= markup
    ensures |r| == if |markup| < RawHtmlLimit then |markup| else RawHtmlLimit
  {
    if |markup| <= RawHtmlLimit then markup else markup[..RawHtmlLimit]
  }

  /** `re.compile('view|details', re.IGNORECASE)` finds a match in `t`. */
  predicate IsViewText(t: string) {
    ContainsNoCase(t, "view") || ContainsNoCase(t, "details")
  }

  /** A link text is a view link's exactly when `view` or `details` occurs in
      it, ignoring case. */
  lemma IsViewTextMeaning(t: string)
    ensures IsViewText(t) <==> exists i: nat :: OccursNoCaseAt(t, i, "view") || OccursNoCaseAt(t, i, "details")
  {
    ContainsNoCaseMeaning(t, "view");
    ContainsNoCaseMeaning(t, "details");
  }

  /** `first_row.find('a', text=...)`: the first anchor of the row whose text
      mentions viewing or details. */
  function ViewLink(anchors: seq<Anchor>): (r: Option<Anchor>)
    ensures r.Some? ==> r.value in anchors && IsViewText(r.value.text)
    ensures r.None? <==> forall k :: 0 <= k < |anchors| ==> !IsViewText(anchors[k].text)
    ensures forall k :: (0 <= k < |anchors| && IsViewText(anchors[k].text) &&
      forall j :: 0 <= j < k ==> !IsViewText(anchors[j].text)) ==> r == Some(anchors[k])
  {
    if anchors == [] then None
    else if IsViewText(anchors[0].text) then Some(anchors[0])
    else ViewLink(anchors[1..])
  }

  /** The success record (court_scraper.py:119-130): each key present in the
      merged dictionary is carried over, each absent one takes its default,
      and the markup is cut to its first 5000 characters. */
  function RecordOf(info: CaseInfo, markup: string): (r: CaseRecord)
    ensures info.petitioner.Some? ==> r.petitioner == info.petitioner.value
    ensures info.respondent.Some? ==> r.respondent == info.respondent.value
    ensures info.status.Some? ==> r.status == info.status.value
    ensures info.documents.Some? ==> r.documents == info.documents.value
    ensures info.caseNumber.Some? ==> r.caseNumber == info.caseNumber.value
    ensures info.courtNumber.Some? ==> r.courtNumber == info.courtNumber.value
    ensures info.petitioner.None? ==> r.petitioner == "Not found"
    ensures info.respondent.None? ==> r.respondent == "Not found"
    ensures info.status.None? ==> r.status == "Active"
    ensures info.documents.None? ==> r.documents == []
    ensures info.caseNumber.None? ==> r.caseNumber == "Not found"
    ensures info.courtNumber.None? ==> r.courtNumber == "Not specified"
    ensures r.filingDate == info.filingDate && r.nextHearingDate == info.nextHearingDate
    ensures r.rawHtml <= markup && |r.rawHtml| <= RawHtmlLimit
  {
    CaseRecord(
      info.petitioner.GetOr("Not found"),
      info.respondent.GetOr("Not found"),
      info.filingDate,
      info.nextHearingDate,
      info.status.GetOr("Active"),
      info.documents.GetOr([]),
      info.caseNumber.GetOr("Not found"),
      info.courtNumber.GetOr("Not specified"),
      RawHtml(markup))
  }

  /** The case dictionary of a row that passed the cascade: the row's fields,
      updated with the detail patch when the row has a view link. */
  function MergedInfo(row: Row, fetch: string -> Option<Page>): (info: CaseInfo)
    ensures var row := CaseDetailsOf(row.cells);
      info.caseNumber == row.caseNumber && info.status == row.status &&
      info.petitioner == row.petitioner && info.respondent == row.respondent &&
      info.nextHearingDate == row.nextHearingDate && info.courtNumber == row.courtNumber
    ensures ViewLink(row.anchors).None? ==> info.filingDate.None? && info.documents.None?
    ensures ViewLink(row.anchors).Some? ==>
      var patch := DetailPatch(ViewLink(row.anchors).value.href, fetch);
      info.filingDate == patch.filingDate && info.documents == patch.documents
  {
    var info := CaseDetailsOf(row.cells);
    match ViewLink(row.anchors)
    case None => info
    case Some(link) => Update(info, DetailPatch(link.href, fetch))
  }

  /** What `_parse_results` returns for `page`, `fetch` loading the detail
      page. */
  function ResultOf(page: Page, fetch: string -> Option<Page>): (r: SearchResult)
    ensures r.Failure? ==> r.error in [NoTableError, NoDataError, NoRowsError, FewCellsError]
    ensures r.Success? ==> page.firstTable.Some? && !Contains(page.text, NoDataPhrase)
    ensures r.Success? ==> |page.firstTable.value.rows| > 1 && |page.firstTable.value.rows[1].cells| >= 3
    ensures r.Success? ==> r.record.rawHtml == RawHtml(page.markup)
  {
    if page.firstTable.None? then Failure(NoTableError)
    else if Contains(page.text, NoDataPhrase) then Failure(NoDataError)
    else if |page.firstTable.value.rows| <= 1 then Failure(NoRowsError)
    else if |page.firstTable.value.rows[1].cells| < 3 then Failure(FewCellsError)
    else Success(RecordOf(MergedInfo(page.firstTable.value.rows[1], fetch), page.markup))
  }

  /** A page passes the cascade when it has a table, does not show the
      no-data phrase, and has a first data row of at least three cells. */
  predicate PassesCascade(page: Page) {
    page.firstTable.Some? && !Contains(page.text, NoDataPhrase)
    && |page.firstTable.value.rows| > 1 && |page.firstTable.value.rows[1].cells| >= 3
  }

  /** The parse succeeds exactly when the page passes the cascade; otherwise
      the message names the first check, in source order, that failed. */
  lemma ResultCascade(page: Page, fetch: string -> Option<Page>)
    ensures ResultOf(page, fetch).Success? <==> PassesCascade(page)
    ensures ResultOf(page, fetch) == Failure(NoTableError) <==> page.firstTable.None?
    ensures ResultOf(page, fetch) == Failure(NoDataError) <==>
      page.firstTable.Some? && Contains(page.text, NoDataPhrase)
    ensures ResultOf(page, fetch) == Failure(NoRowsError) <==>
      page.firstTable.Some? && !Contains(page.text, NoDataPhrase) && |page.firstTable.value.rows| <= 1
    ensures ResultOf(page, fetch) == Failure(FewCellsError) <==>
      page.firstTable.Some? && !Contains(page.text, NoDataPhrase) && |page.firstTable.value.rows| > 1 &&
      |page.firstTable.value.rows[1].cells| < 3
  {
  }

  /** The table is looked for before the no-data phrase: a page without a
      table reports that, whatever its text says. */
  lemma TableCheckedFirst(page: Page, fetch: string -> Option<Page>)
    requires page.firstTable.None? && Contains(page.text, NoDataPhrase)
    ensures ResultOf(page, fetch) == Failure(NoTableError)
  {
  }

  /** The page of the scraper's own test, `<html><body>No cases</body></html>`,
      has no table, so the parse fails. */
  lemma EmptyPageFails(fetch: string -> Option<Page>)
    ensures ResultOf(Page(None, None, "No cases", [], "<html><body>No cases</body></html>"), fetch).Failure?
  {
  }

  /** Only the first data row is read: the header and every later row can
      change without changing the result. */
  lemma OnlyFirstDataRow(page: Page, other: Page, fetch: string -> Option<Page>)
    requires page.firstTable.Some? && other.firstTable.Some?
    requires |page.firstTable.value.rows| > 1 && |other.firstTable.value.rows| > 1
    requires page.firstTable.value.rows[1] == other.firstTable.value.rows[1]
    requires page.text == other.text && page.markup == other.markup
    ensures ResultOf(page, fetch) == ResultOf(other, fetch)
  {
  }

  /** On success the row fields come from the first data row alone, whatever
      the detail page holds: the case number and the parties are always
      found, the status falls back to `'Active'` and the court number to
      `'Not specified'` when the row has only three cells. */
  lemma SuccessRowFields(page: Page, fetch: string -> Option<Page>)
    requires PassesCascade(page)
    ensures var cells := page.firstTable.value.rows[1].cells; var r := ResultOf(page, fetch).record;
      r.caseNumber == CaseNumberOf(cells[1]) &&
      r.status == StatusOf(cells[1]).GetOr("Active") &&
      r.petitioner == PartiesOf(cells[2]).0 && r.respondent == PartiesOf(cells[2]).1 &&
      r.nextHearingDate == (if |cells| > 3 then HearingDateOf(cells[3]) else None) &&
      r.courtNumber == (if |cells| > 3 then CourtNumberOf(cells[3]) else "Not specified")
    ensures RawHtml(page.markup) <= page.markup && |ResultOf(page, fetch).record.rawHtml| <= RawHtmlLimit
  {
    var row := page.firstTable.value.rows[1];
    var info := CaseDetailsOf(row.cells);
    if ViewLink(row.anchors).Some? {
      MergeKeepsRowFields(info, ViewLink(row.anchors).value.href, fetch);
    }
    assert MergedInfo(row, fetch).caseNumber == info.caseNumber;
  }

  /** On success the filing date and the documents come from the detail page
      alone: none and `[]` without a view link, the patch's otherwise. */
  lemma SuccessDetailFields(page: Page, fetch: string -> Option<Page>)
    requires PassesCascade(page)
    ensures var row := page.firstTable.value.rows[1]; var r := ResultOf(page, fetch).record;
      ViewLink(row.anchors).None? ==> r.filingDate.None? && r.documents == []
    ensures var row := page.firstTable.value.rows[1]; var r := ResultOf(page, fetch).record;
      ViewLink(row.anchors).Some? ==>
        var patch := DetailPatch(ViewLink(row.anchors).value.href, fetch);
        r.filingDate == patch.filingDate && r.documents == patch.documents.GetOr([])
  {
    var row := page.firstTable.value.rows[1];
    if ViewLink(row.anchors).Some? {
      MergeKeepsRowFields(CaseDetailsOf(row.cells), ViewLink(row.anchors).value.href, fetch);
    }
  }

  /** `_parse_results`: the cascade, then the row's dictionary filled by
      `_extract_case_details`, merged with the detail patch through
      `case_info.update`, then the record. */
  method ParseResults(page: Page, fetch: string -> Option<Page>) returns (result: SearchResult)
    ensures result == ResultOf(page, fetch)
  {
    if page.firstTable.None? {
      return Failure(NoTableError);
    }
    if Contains(page.text, NoDataPhrase) {
      return Failure(NoDataError);
    }
    // `find_all('tr')[1:]`, which is empty for a table without rows
    var allRows := page.firstTable.value.rows;
    var rows := if allRows == [] then [] else allRows[1..];
    if rows == [] {
      return Failure(NoRowsError);
    }
    var firstRow := rows[0];
    var cells := firstRow.cells;
    if |cells| < 3 {
      return Failure(FewCellsError);
    }
    var caseInfo := ExtractCaseDetails(cells);
    var viewLink := ViewLink(firstRow.anchors);
    if viewLink.Some? {
      var patch := GetDetailedCaseInfo(viewLink.value.href, fetch);
      caseInfo := Update(caseInfo, patch);
    }
    result := Success(RecordOf(caseInfo, page.markup));
  }
}
