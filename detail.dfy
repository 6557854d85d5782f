/** The parsing half of `_get_detailed_case_info`: the detail-page URL, the
    container it reads, the filing date it looks for and the documents it
    collects, returned as a patch for the case dictionary. Loading the page
    is a parameter `fetch`; `None` stands for a page that could not be
    loaded, which the source turns into an empty patch. A view link
    without an `href` makes `driver.get(None)` raise, and the handler
    returns the empty patch too. */
module Detail {
  import opened Wrappers
  import opened Text
  import opened Patterns
  import opened Html
  import opened Records
  import opened Dates
  import opened Documents

  /** The URL handed to the driver (court_scraper.py:188-189): an empty
      `href` is passed on as it is, any other one is made absolute. */
  function DetailUrl(href: string): (url: string)
    ensures href != [] ==> StartsWith(url, "http") && EndsWith(url, href)
    ensures url == href <==> href == [] || StartsWith(href, "http")
  {
    if href != [] then ResolveUrl(href) else href
  }

  /** `soup.find('div', class_='case-history') or soup.find('table')`: the
      text nodes of the block the filing date is looked for in. */
  function Container(page: Page): (nodes: Option<seq<TextNode>>)
    ensures nodes.Some? <==> page.caseHistory.Some? || page.firstTable.Some?
    ensures page.caseHistory.Some? ==> nodes == page.caseHistory
    ensures page.caseHistory.None? && page.firstTable.Some? ==> nodes == Some(page.firstTable.value.textNodes)
  {
    if page.caseHistory.Some? then page.caseHistory
    else if page.firstTable.Some? then Some(page.firstTable.value.textNodes)
    else None
  }

  /** `re.compile('fil(ing|ed)', re.IGNORECASE)` finds a match in `t`. */
  predicate IsFilingText(t: string) {
    ContainsNoCase(t, "filing") || ContainsNoCase(t, "filed")
  }

  /** A text mentions filing exactly when `filing` or `filed` occurs in it,
      ignoring case. */
  lemma IsFilingTextMeaning(t: string)
    ensures IsFilingText(t) <==> exists i: nat :: OccursNoCaseAt(t, i, "filing") || OccursNoCaseAt(t, i, "filed")
  {
    ContainsNoCaseMeaning(t, "filing");
    ContainsNoCaseMeaning(t, "filed");
  }

  /** `case_history.find(text=...)`: the position of the first text node
      that mentions filing. */
  function FirstFiling(nodes: seq<TextNode>): (r: Option<nat>)
    ensures r.Some? ==> r.value < |nodes| && IsFilingText(nodes[r.value].text)
    ensures r.Some? ==> forall j :: 0 <= j < r.value ==> !IsFilingText(nodes[j].text)
    ensures r.None? <==> forall j :: 0 <= j < |nodes| ==> !IsFilingText(nodes[j].text)
  {
    if nodes == [] then None
    else if IsFilingText(nodes[0].text) then Some(0)
    else
      match FirstFiling(nodes[1..])
      case None => None
      case Some(k) => Some(k + 1)
  }

  /** The filing date (court_scraper.py:200-206): the first
      `d[d]<sep>m[m]<sep>yy[yy]` date in the full text of the element that
      holds the first text node mentioning filing. */
  function FilingDate(nodes: seq<TextNode>): (r: Option<string>)
    ensures r.Some? ==> FirstFiling(nodes).Some? && r.value != [] && IsSlice(r.value, nodes[FirstFiling(nodes).value].parentText)
  {
    match FirstFiling(nodes)
    case None => None
    case Some(i) => SearchGroup(DayMonthYear2to4, nodes[i].parentText)
  }

  /** Only the first node that mentions filing is consulted: there is a
      filing date exactly when its element holds a date, and then it is that
      element's leftmost, longest date, whatever later nodes hold. */
  lemma FilingDateMeaning(nodes: seq<TextNode>, i: nat)
    requires i < |nodes| && IsFilingText(nodes[i].text)
    requires forall j :: 0 <= j < i ==> !IsFilingText(nodes[j].text)
    ensures FilingDate(nodes).None? <==> !OccursIn(DayMonthYear2to4, nodes[i].parentText)
    ensures FilingDate(nodes).Some? ==>
      (exists b, e :: 0 <= b <= e <= |nodes[i].parentText| &&
        LeftmostLongest(DayMonthYear2to4, nodes[i].parentText, b, e) &&
        FilingDate(nodes).value == nodes[i].parentText[b..e])
  {
    assert FirstFiling(nodes) == Some(i);
    SearchGroupIsLeftmostLongest(DayMonthYear2to4, nodes[i].parentText);
  }

  /** Without a node that mentions filing there is no filing date. */
  lemma NoFilingTextNoDate(nodes: seq<TextNode>)
    requires forall j :: 0 <= j < |nodes| ==> !IsFilingText(nodes[j].text)
    ensures FilingDate(nodes).None?
  {
  }

  /** The patch built from a loaded page (court_scraper.py:196-224): nothing
      without a container; otherwise `filing_date` when one is found and
      `documents` always, collected from the whole page's `.pdf` anchors and
      typed `'Order/Judgment'`. */
  function PagePatch(page: Page): (patch: CaseInfo)
    ensures patch.caseNumber.None? && patch.status.None? && patch.petitioner.None?
    ensures patch.respondent.None? && patch.nextHearingDate.None? && patch.courtNumber.None?
    ensures patch.documents.Some? <==> Container(page).Some?
    ensures patch.filingDate.Some? ==> patch.documents.Some?
  {
    match Container(page)
    case None => NoKeys
    case Some(nodes) => NoKeys.(filingDate := FilingDate(nodes), documents := Some(PdfDocs(page.anchors, OrderJudgment)))
  }

  /** What `_get_detailed_case_info(href)` returns (court_scraper.py:183-229),
      the page being `fetch(DetailUrl(href))`: an empty patch when there is
      no `href` (`driver.get(None)` raises) or the page cannot be loaded,
      and never a key the result row provides. */
  function DetailPatch(href: Option<string>, fetch: string -> Option<Page>): (patch: CaseInfo)
    ensures href.None? ==> patch == NoKeys
    ensures href.Some? && fetch(DetailUrl(href.value)).None? ==> patch == NoKeys
    ensures patch.caseNumber.None? && patch.status.None? && patch.petitioner.None?
    ensures patch.respondent.None? && patch.nextHearingDate.None? && patch.courtNumber.None?
    ensures patch.documents.Some? <==>
      href.Some? && fetch(DetailUrl(href.value)).Some? && Container(fetch(DetailUrl(href.value)).value).Some?
    ensures patch.filingDate.Some? ==> patch.documents.Some?
  {
    if href.None? then NoKeys
    else
      match fetch(DetailUrl(href.value))
      case None => NoKeys
      case Some(page) => PagePatch(page)
  }

  /** The documents of a patch are exactly the page's `.pdf` anchors, typed
      `'Order/Judgment'`, with absolute URLs and non-empty texts. */
  lemma PagePatchDocuments(page: Page, d: Document)
    requires Container(page).Some?
    ensures d in PagePatch(page).documents.value <==>
      exists a :: a in page.anchors && IsPdfAnchor(a) && d == PdfDoc(a, OrderJudgment)
    ensures d in PagePatch(page).documents.value ==> d.kind == OrderJudgment && StartsWith(d.url, "http") && d.text != []
  {
    PdfDocsSources(page.anchors, OrderJudgment, d);
  }

  /** The patch found on a page with a container carries the filing date of
      that container, which may be absent. */
  lemma PagePatchFilingDate(page: Page)
    requires Container(page).Some?
    ensures PagePatch(page).filingDate == FilingDate(Container(page).value)
  {
  }

  /** Merging a detail patch (court_scraper.py:117) never touches the fields
      read from the result row, keeps the row's (absent) filing date and
      documents when the patch lacks them, and takes the patch's otherwise. */
  lemma MergeKeepsRowFields(info: CaseInfo, href: Option<string>, fetch: string -> Option<Page>)
    ensures var merged := Update(info, DetailPatch(href, fetch));
      merged.caseNumber == info.caseNumber && merged.status == info.status &&
      merged.petitioner == info.petitioner && merged.respondent == info.respondent &&
      merged.nextHearingDate == info.nextHearingDate && merged.courtNumber == info.courtNumber
    ensures var patch := DetailPatch(href, fetch); var merged := Update(info, patch);
      (patch.filingDate.Some? ==> merged.filingDate == patch.filingDate) &&
      (patch.filingDate.None? ==> merged.filingDate == info.filingDate) &&
      (patch.documents.Some? ==> merged.documents == patch.documents) &&
      (patch.documents.None? ==> merged.documents == info.documents)
  {
  }

  /** A page that cannot be loaded gives an empty patch, and merging it
      changes nothing. */
  lemma FailedLoadChangesNothing(info: CaseInfo, href: string, fetch: string -> Option<Page>)
    requires fetch(DetailUrl(href)).None?
    ensures Update(info, DetailPatch(Some(href), fetch)) == info
  {
  }

  /** A view link without an `href` loads nothing, and merging its patch
      changes nothing. */
  lemma HreflessLinkChangesNothing(info: CaseInfo, fetch: string -> Option<Page>)
    ensures Update(info, DetailPatch(None, fetch)) == info
  {
  }

  /** `_get_detailed_case_info`: resolve the URL, load the page, then fill the
      patch key by key, the documents through a loop over the page's anchors. */
  method GetDetailedCaseInfo(detailUrl: Option<string>, fetch: string -> Option<Page>)
    returns (additionalInfo: CaseInfo)
    ensures additionalInfo == DetailPatch(detailUrl, fetch)
  {
    additionalInfo := NoKeys;
    if detailUrl.None? {
      // `driver.get(None)` raises, and the handler returns `{}`
      return;
    }
    var url := DetailUrl(detailUrl.value);
    var page := fetch(url);
    if page.None? {
      return;
    }
    var caseHistory := Container(page.value);
    if caseHistory.Some? {
      var filingDate := FilingDate(caseHistory.value);
      if filingDate.Some? {
        additionalInfo := additionalInfo.(filingDate := filingDate);
      }
      var documents := CollectPdfDocs(page.value.anchors, OrderJudgment);
      additionalInfo := additionalInfo.(documents := Some(documents));
    }
  }

  // ---------------------------------------------------------------------
  // `_find_text` and `_find_date` (court_scraper.py:249-262).

  /** `_find_text`: the first keyword, in the order given, for which the page
      holds a matching text whose element has a next sibling; `siblings`
      maps such a keyword to the stripped text of that sibling. */
  function FindText(keywords: seq<string>, siblings: map<string, string>): (r: string)
    ensures (forall k :: 0 <= k < |keywords| ==> keywords[k] !in siblings) ==> r == "Not found"
    ensures forall k :: (0 <= k < |keywords| && keywords[k] in siblings &&
      forall j :: 0 <= j < k ==> keywords[j] !in siblings) ==> r == siblings[keywords[k]]
  {
    if keywords == [] then "Not found"
    else if keywords[0] in siblings then siblings[keywords[0]]
    else FindText(keywords[1..], siblings)
  }

  /** `_find_date`: the date found in the text `_find_text` returns. */
  function FindDate(keywords: seq<string>, siblings: map<string, string>): (r: Option<string>)
    ensures r.Some? ==> r.value != [] && IsSlice(r.value, FindText(keywords, siblings))
  {
    ExtractDate(FindText(keywords, siblings))
  }

  /** The fallback text holds no date, so a page with none of the keywords
      gives no date. */
  lemma FindDateNotFound(keywords: seq<string>, siblings: map<string, string>)
    requires forall k :: 0 <= k < |keywords| ==> keywords[k] !in siblings
    ensures FindDate(keywords, siblings).None?
  {
    assert FindText(keywords, siblings) == "Not found";
    NotFoundHasNoDate();
  }

  lemma NotFoundHasNoDate()
    ensures ExtractDate("Not found").None?
  {
    var t := "Not found";
    ExtractDateMeaning(t);
    NoDigitNoDate(DayMonthYear4, t);
    NoDigitNoDate(DayMonthYear2, t);
    NoDigitNoDate(DayMonthName, t);
  }

}
