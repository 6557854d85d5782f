# Delhi High Court case scraper — extraction engine in Dafny

The scraper drives a browser to the Delhi High Court case-status search,
waits for the result page, and turns it into a case record. This project
models the part of `court_scraper.py` that makes decisions once a page is
loaded:

- **the result extractor** (`_parse_results`): its failure cascade, the
  parse of the first data row, the merge of the detail-page patch and the
  record it returns with its defaults and 5000-character markup prefix;
- **the row field parser** (`_extract_case_details`): case number and
  `[STATUS]`, the parties split on a prioritised separator list, the
  hearing date and the court number;
- **the date extractor** (`_extract_date_from_text`): three date patterns
  tried in order, the first one that matches anywhere winning;
- **the document harvester** (`_extract_docs`): PDF links, then
  order/judgment links, relative URLs resolved against the court's origin,
  dated documents stably sorted newest first before the undated ones;
- **the detail augmenter** (`_get_detailed_case_info`, after the page is
  loaded): the container, the filing date and the detail documents,
  returned as a patch merged with `dict.update`; and `_find_text` /
  `_find_date`.

A parsed page is a value (`Html.Page`): its first `<table>` as rows of
cell texts and anchors, its `case-history` block, its full text, its
anchors and its serialised markup. The regular expressions the scraper
uses are written out as small matchers over strings (`Patterns`). The
three date patterns, the court-number pattern and the `[status]` pattern
are each proved sound and complete against a declarative description of
the text they accept, and `re.search(...).group(1)` is proved to return
the leftmost, longest (for the lazy `[status]` pattern, the leftmost,
shortest) such text. The literal-word patterns (`view|details`,
`fil(ing|ed)`, `order|judgment|copy`) and `\.pdf$` are predicates proved
equivalent to an occurrence of the word, in any case, anywhere in the
text (or at its end). Loading a page is a parameter `fetch` of the
operations that need one.

Modules, one per file: `Wrappers` (Option), `Text` (Python string
operations: `strip`, `in`, `find`, `split(sep, 1)`, `startswith`,
`lower`, code-point order), `Patterns` (the regular expressions), `Html`
(the page value), `Records` (documents, the case dictionary, the result),
`Dates`, `CaseDetails`, `Documents`, `Detail`, `Results`.

The source is mixed in style and so is the model: the straight-line and
first-match parts are functions; the parts that fill a dictionary key by
key, append in loops or sort in place are methods (`ExtractCaseDetails`,
`CollectDocs`, `SplitByDate`, `SortByDateInPlace` on an array,
`ExtractDocs`, `GetDetailedCaseInfo`, `ParseResults`), each proved equal
to the function that specifies it.

Where the code and the system's own description of it differ, the model
follows the code:

- `"Court No. 5"` yields the whole cell as the court number, not `"5"`:
  after `Court[:\s]*` comes `N`, which is neither a digit nor one of
  `I`, `V`, `X` (`CaseDetails.CourtNoIsWholeCell`).
- The hearing date of a row and the filing date of a detail page use the
  single pattern `\d{1,2}[-./]\d{1,2}[-./]\d{2,4}`, not the three-pattern
  date extractor.
- The table is looked for before the "No data available in table" phrase.
- Detail documents are collected from the whole detail page, not from the
  container, and are all typed `'Order/Judgment'`.
- `_extract_docs` is never called by the rest of the program; it is
  modelled as written.

## Model

| member | source | states |
|---|---|---|
| Patterns.CourtAt | court_scraper.py:172 | A match of `Court[:\s]*(\d+\|[IVX]+)` at a position starts with `court` in any case, skips colons and white space, and captures a maximal run of digits, or failing a digit a maximal run of Roman-numeral letters |
| Patterns.CourtAtSound | court_scraper.py:172 | What the court matcher finds at a position is a match: `court` in any case, colons and white space, then a non-empty run of digits or of `I`/`V`/`X` in any case |
| Patterns.CourtAtComplete | court_scraper.py:172 | Every court match at a position is found by the matcher, with its group starting at the same place and no longer than the one found |
| Patterns.CourtSearchIsLeftmostLongest | court_scraper.py:172-174 | `re.search` with the court pattern gives no group exactly when no match occurs anywhere, and otherwise the longest group of the leftmost match |
| Patterns.BracketAtSound | court_scraper.py:146 | What the `\[(.*?)\]` matcher finds at a position is a `[`, a later `]`, and no line feed between them |
| Patterns.BracketAtComplete | court_scraper.py:146 | Every bracket match at a position is found by the matcher, which stops at the first `]`, no later than the match |
| Patterns.BracketSearchIsLeftmostShortest | court_scraper.py:146-148 | `re.search` with the bracket pattern gives no group exactly when no match occurs anywhere, and otherwise the shortest group of the leftmost match |
| Patterns.SearchGroup | court_scraper.py:167-169 | `re.search(p, s).group(1)` is absent exactly when the pattern matches at no position, and is otherwise a slice of the text, non-empty for the date patterns |
| Patterns.NumericDateSound | court_scraper.py:167 | What the numeric-date matcher accepts is a day of 1-2 digits, a separator `-./`, a month of 1-2 digits, a separator and a year within the pattern's digit counts (4, 2, or 2 to 4) |
| Patterns.NumericDateComplete | court_scraper.py:167 | Every numeric date of the pattern's form starting at a position ends no later than the match the matcher finds there |
| Patterns.MonthDateSound | court_scraper.py:239 | What the `D Mon YYYY` matcher accepts is 1-2 digits, white space, a three-letter month in any case, white space and four digits |
| Patterns.MonthDateComplete | court_scraper.py:239 | Every `D Mon YYYY` date starting at a position is the one the matcher finds there |
| Patterns.MatchAtIsLongestShape | court_scraper.py:237-239 | For each date pattern the matcher succeeds at a position exactly when a date starts there, and returns the longest |
| Patterns.NoDigitNoDate | court_scraper.py:237-239 | A text without digits holds no date of any of the forms |
| Patterns.SearchGroupIsLeftmostLongest | court_scraper.py:167-169 | The group `re.search` returns for a date pattern is absent exactly when no date occurs, and is otherwise the leftmost, longest date |
| Dates.FirstPatternMatch | court_scraper.py:242-247 | The pattern loop returns nothing exactly when every pattern fails, and otherwise a non-empty slice of the text |
| Dates.ExtractDate | court_scraper.py:231-247 | Empty text gives no date; a date found is a non-empty verbatim slice of the text |
| Dates.ExtractDateUnrolled | court_scraper.py:236-245 | The loop tries the 4-digit-year pattern, then the 2-digit-year pattern, then the month-name pattern, the first that matches winning |
| Dates.ExtractDateMeaning | court_scraper.py:231-247 | No date exactly when the text is empty or holds a date of none of the three forms; otherwise the leftmost date of the first form that occurs anywhere, so a later form never wins over an earlier one |
| CaseDetails.CaseNumberOf | court_scraper.py:143-144 | The case number holds no `[`, and is the stripped cell when the cell has no `[` |
| CaseDetails.CaseNumberBeforeFirstBracket | court_scraper.py:144 | The case number is the stripped text before the first `[` |
| CaseDetails.StatusOf | court_scraper.py:145-148 | A status is only set when the cell holds both `[` and `]`, and it is a slice of the cell |
| CaseDetails.StatusNeedsBothBrackets | court_scraper.py:145 | Without a `[` or without a `]` there is no status |
| CaseDetails.StatusBetweenBrackets | court_scraper.py:146-148 | The status is the text from the first `[` to the next `]` when it holds no line break |
| CaseDetails.StatusMeaning | court_scraper.py:145-148 | There is a status exactly when some `[` is followed by a `]` with no line feed between; it is then the text inside the leftmost such `[` up to the first `]` after it |
| CaseDetails.SeparatorOf | court_scraper.py:153-154 | The separator is the first of `' Vs. '`, `' V/s '`, `' vs '` the cell contains, and there is none exactly when it contains none of them |
| CaseDetails.PartiesOf | court_scraper.py:159-161 | Without a separator the petitioner is the whole cell and the respondent `'Not specified'` |
| CaseDetails.PartiesSplitAtFirst | court_scraper.py:155-158 | With a separator the cell is cut at its first occurrence and both parts are stripped, so the `'Not specified'` branch of line 158 is never taken |
| CaseDetails.PartiesNonEmpty | court_scraper.py:155-158 | A stripped cell with a separator gives a non-empty petitioner and a non-empty respondent |
| CaseDetails.HearingDateOf | court_scraper.py:166-169 | A hearing date is a non-empty slice of the fourth cell |
| CaseDetails.HearingDateMeaning | court_scraper.py:166-169 | No hearing date exactly when the cell holds no `d[d]<sep>m[m]<sep>yy[yy]` date; otherwise the leftmost, longest one |
| CaseDetails.CourtNumberOf | court_scraper.py:171-176 | The court number is the whole cell or a slice of it |
| CaseDetails.CourtNumberFound | court_scraper.py:171-174 | When `court` in any case, colons or white space and a digit or `I`/`V`/`X` occur anywhere, the court number is the longest run of digits or of such letters after the leftmost such `court` |
| CaseDetails.CourtNumberFallback | court_scraper.py:172-176 | When no `court` in any case is followed by colons or white space and then a digit or `I`/`V`/`X`, the court number is the whole cell |
| CaseDetails.CourtNoIsWholeCell | court_scraper.py:171-176 | `"Court No. 5"` gives the whole cell as its court number |
| CaseDetails.CourtColonNumber | court_scraper.py:171-174 | `"Court: 12"` gives `"12"` |
| CaseDetails.CaseDetailsOf | court_scraper.py:135-181 | The case number is set exactly when there are more than one cell, the parties exactly when there are more than two, the court number exactly when there are more than three; status and hearing date only under the same conditions as the case number and the court number; never a filing date or documents |
| CaseDetails.ExtractCaseDetails | court_scraper.py:135-181 | Filling the dictionary key by key gives the row's case dictionary |
| Records.Update | court_scraper.py:117 | `dict.update`: an empty patch changes nothing, updating an empty dictionary gives the patch, and the filing date and documents are the patch's when present and present when either side has them |
| Records.UpdateIdempotent | court_scraper.py:117 | Updating twice with the same patch is updating once |
| Documents.ResolveUrl | court_scraper.py:272-274 | A resolved URL starts with `http` and ends with the href; it is the href exactly when the href starts with `http`, and otherwise the origin followed by the href |
| Documents.ResolveUrlIdempotent | court_scraper.py:272-274 | Resolving a resolved URL changes nothing |
| Text.ContainsNoCaseMeaning | court_scraper.py:115 | A case-insensitive search for a lower-case word succeeds exactly when the word occurs somewhere, ignoring case |
| Documents.IsPdfHrefMeaning | court_scraper.py:210 | `\.pdf$` with `re.IGNORECASE` selects an href exactly when `.pdf` in any case ends it or stands just before a final line feed |
| Documents.IsOrderTextMeaning | court_scraper.py:284 | `order\|judgment\|copy` with `re.IGNORECASE` selects a text exactly when one of the three words occurs in it in any case |
| Detail.IsFilingTextMeaning | court_scraper.py:201 | `fil(ing\|ed)` with `re.IGNORECASE` selects a text exactly when `filing` or `filed` occurs in it in any case |
| Results.IsViewTextMeaning | court_scraper.py:115 | `view\|details` with `re.IGNORECASE` selects a link text exactly when `view` or `details` occurs in it in any case |
| Documents.PdfDoc | court_scraper.py:217-222 | A PDF entry has the given type, an absolute URL ending with the href, a non-empty text, and a date that is a non-empty slice of the link text |
| Documents.OrderDoc | court_scraper.py:292-297 | An order entry is typed `'Order/Judgment'`, has an absolute URL ending with the href, the stripped link text (with no fallback when it is empty), and a date that is a non-empty slice of the link text |
| Documents.LinkText | court_scraper.py:279 | A PDF entry's text is never empty: the stripped link text, or `'Court Document'` when that is empty |
| Documents.PdfDocs | court_scraper.py:269-281 | At most one entry per anchor, each with the given type, an absolute URL and a non-empty text |
| Documents.OrderDocs | court_scraper.py:284-297 | At most one entry per anchor, each typed `'Order/Judgment'` with an absolute URL |
| Documents.PdfDocsSources | court_scraper.py:269-281 | A document is collected exactly when some `.pdf` anchor of the page gives it |
| Documents.OrderDocsSources | court_scraper.py:284-297 | A document is collected exactly when some order/judgment anchor with an href gives it; href-less ones are dropped |
| Documents.Collected | court_scraper.py:266-297 | At most two entries per anchor are collected, every one with an absolute URL |
| Documents.OrderDocText | court_scraper.py:284-296 | An order/judgment link's stripped text is never empty, since it contains one of the words |
| Documents.Dated | court_scraper.py:300 | Every document of the dated group has a date |
| Documents.Undated | court_scraper.py:301 | No document of the undated group has a date |
| Documents.DatedUndatedPartition | court_scraper.py:300-301 | The two groups together are a reordering of the documents |
| Documents.InsertPermutation | court_scraper.py:303 | Inserting adds the document and nothing else |
| Documents.InsertDescending | court_scraper.py:303 | Inserting into a list sorted newest first keeps it sorted |
| Documents.InsertStable | court_scraper.py:303 | Inserting keeps the order of the documents of each date, the new one last among its equals |
| Documents.SortByDateDesc | court_scraper.py:303 | The sort keeps the number of documents |
| Documents.SortByDatePermutation | court_scraper.py:303 | The sort is a reordering of its input |
| Documents.SortByDateDescending | court_scraper.py:303 | The sorted documents are in descending order of their date strings |
| Documents.SortByDateStable | court_scraper.py:303 | Documents with equal dates keep their relative order |
| Documents.Harvest | court_scraper.py:299-305 | The harvest is a reordering of the collected documents, losing and adding none |
| Documents.HarvestOrder | court_scraper.py:299-305 | The dated documents come first, sorted newest first and stably; the undated ones follow in the order found |
| Documents.HarvestSources | court_scraper.py:264-297 | A document is harvested exactly when a PDF anchor or an order/judgment anchor with an href gives it |
| Documents.HarvestWellFormed | court_scraper.py:264-297 | Every harvested URL is absolute and every text non-empty |
| Documents.InsertIntoPrefix | court_scraper.py:303 | One insertion step in the array puts the next document into the sorted prefix and leaves the rest as it was |
| Documents.SortByDateInPlace | court_scraper.py:303 | Sorting the array in place leaves the stable newest-first sort of its contents |
| Documents.CollectPdfDocs | court_scraper.py:271-281 | The loop appends the entry of each `.pdf` anchor, in order |
| Documents.AppendOrderDocs | court_scraper.py:286-297 | The loop appends the entry of each order/judgment anchor with an href after the entries already collected |
| Documents.CollectDocs | court_scraper.py:266-297 | The two loops collect the PDF entries, then the order/judgment entries |
| Documents.SplitByDate | court_scraper.py:300-301 | The two comprehensions give the dated and the undated group |
| Documents.ExtractDocs | court_scraper.py:264-305 | `_extract_docs` returns the harvest |
| Detail.DetailUrl | court_scraper.py:188-189 | An empty href is kept as it is, any other is made absolute and ends with the href; it is unchanged exactly when it is empty or starts with `http` |
| Detail.Container | court_scraper.py:197 | The container is the `case-history` block when there is one, else the text nodes of the first table; there is one exactly when the page has either |
| Detail.FirstFiling | court_scraper.py:201 | The first text node mentioning filing or filed, in any case; none exactly when no node does |
| Detail.FilingDate | court_scraper.py:200-206 | A filing date is a non-empty slice of the text of the element holding the first filing node |
| Detail.FilingDateMeaning | court_scraper.py:201-206 | Only the first filing node is read: a filing date exists exactly when its element holds a date, and it is the leftmost, longest one |
| Detail.NoFilingTextNoDate | court_scraper.py:201-202 | Without a node mentioning filing there is no filing date |
| Detail.PagePatch | court_scraper.py:196-224 | The patch of a loaded page never sets a row field; it has documents exactly when a container exists, and a filing date only then |
| Detail.DetailPatch | court_scraper.py:183-229 | The patch is empty when the link has no href (`driver.get(None)` raises) or the page cannot be loaded; it never sets a row field; it has documents exactly when the loaded page has a container, and a filing date only then |
| Detail.PagePatchDocuments | court_scraper.py:209-224 | The patch's documents are exactly those of the page's `.pdf` anchors, typed `'Order/Judgment'`, with absolute URLs and non-empty texts |
| Detail.PagePatchFilingDate | court_scraper.py:199-206 | The patch's filing date is the container's |
| Detail.MergeKeepsRowFields | court_scraper.py:117 | Merging a patch keeps every field of the row and takes the filing date and documents from the patch when present |
| Detail.FailedLoadChangesNothing | court_scraper.py:226-229 | A page that cannot be loaded gives an empty patch, which changes nothing |
| Detail.HreflessLinkChangesNothing | court_scraper.py:117 | A view link without an href changes nothing in the case dictionary |
| Detail.GetDetailedCaseInfo | court_scraper.py:183-229 | The method returns the detail patch: empty without an href or a loaded page, otherwise the filing date and documents of the page loaded from the resolved URL |
| Detail.FindText | court_scraper.py:249-257 | The text is that of the first keyword with a sibling, or `'Not found'` when none has one |
| Detail.FindDate | court_scraper.py:259-262 | A date found is a non-empty slice of the text `_find_text` returns |
| Detail.FindDateNotFound | court_scraper.py:257-262 | With no keyword found there is no date |
| Results.RawHtml | court_scraper.py:129 | The raw markup is a prefix of the serialised page, of length the smaller of 5000 and the page's |
| Results.ViewLink | court_scraper.py:115 | The view link is the first anchor of the row whose text mentions view or details in any case; none exactly when no anchor does |
| Results.RecordOf | court_scraper.py:119-130 | Each key present in the merged dictionary is carried over, each absent one takes its default (`'Not found'`, `'Active'`, `[]`, `'Not specified'`), and the markup kept is a prefix of at most 5000 characters |
| Results.MergedInfo | court_scraper.py:112-117 | The row fields of the merged dictionary are those of the row; its filing date and documents are absent without a view link and the patch's otherwise |
| Results.ResultOf | court_scraper.py:84-130 | A failure carries one of the four messages; a success needs a table, no no-data phrase and a first data row of at least three cells, and keeps the page's 5000-character markup prefix |
| Results.ResultCascade | court_scraper.py:89-109 | The parse succeeds exactly when the page passes every check, and each failure message is given exactly when its check is the first to fail |
| Results.TableCheckedFirst | court_scraper.py:89-96 | A page without a table reports that, even when it shows the no-data phrase |
| Results.EmptyPageFails | tests/test_scraper.py:5-10 | The page `<html><body>No cases</body></html>` fails |
| Results.OnlyFirstDataRow | court_scraper.py:99-106 | The header and every row after the first data row can change without changing the result |
| Results.SuccessRowFields | court_scraper.py:112-130 | On success the case number, status (default `'Active'`), parties, hearing date and court number (default `'Not specified'`) come from the first data row alone, and the raw markup is a prefix of at most 5000 characters |
| Results.SuccessDetailFields | court_scraper.py:114-126 | On success the filing date and documents come from the detail patch, and are absent and `[]` without a view link |
| Results.ParseResults | court_scraper.py:84-130 | The method returns the result of the cascade and the merged record |

## Left out

- Browser I/O: the Selenium driver, form filling, waits, `time.sleep`, `driver.get`
  and the driver clean-up. Loading a detail page is the parameter `fetch`, and `None`
  stands for a load that raised.
- The CAPTCHA prompt and all printing: they are console I/O.
- BeautifulSoup: a page arrives already parsed into `Html.Page`.
  - A cell is its `get_text(strip=True)` value.
  - An anchor's text is the single text `find(text=...)` tests. Anchors whose
    `.string` is absent are outside the model.
  - `find`, `find_all`, `.parent` and `find_next_sibling` are not modelled.
  - `_find_text` receives a map from each keyword to the sibling text found for it.
- Python's `re` engine in general. Only the patterns the scraper uses are written out.
- Unicode: `\d`, `\s`, `str.strip`, `str.lower` and `re.IGNORECASE` are modelled
  for ASCII. Non-ASCII digits, white space and case folding are left out.
- The `try/except` wrappers. Every modelled function is total, and none of them
  raises on the inputs the model admits.
- The sort algorithm. `list.sort` is a stable sort, and the model specifies it by a
  stable insertion sort. The in-place method is an insertion sort on an array, not timsort.
- `app.py` and `tests/test_app.py`: the web front end and its database.
- Records.Update: its own contract spells out the key-by-key rule only for the
  filing date and the documents, the keys a detail patch can hold. The rule for
  every key is the contract of the helper `Pick` it applies to each.
- An empty `href` is handed to `fetch` as the empty string. Whether the browser
  refuses it is part of `fetch`.
- Documents.SortByDateDesc: its own contract states only the length. Ordering,
  permutation and stability are in the lemmas beside it.
- Documents.PdfDocs and Documents.OrderDocs: their own contracts state only bounds
  and entry shapes. The exact sources are in `PdfDocsSources` and `OrderDocsSources`.
- The defaults `'Not found'` for the case number and the parties are kept in the
  record, but they can never be taken: a row that passes the cascade always has
  three cells.
