/** The records the scraper builds: document entries, the `case_info`
    dictionary with its optional keys, and the result it returns. */
module Records {
  import opened Wrappers

  /** The `type` of a document entry: `'PDF Document'` or `'Order/Judgment'`. */
  datatype DocKind = PdfDocument | OrderJudgment

  /** A document entry: `type`, `url`, `text` and `date` (None or the date
      text found in the link). */
  datatype Document = Document(kind: DocKind, url: string, text: string, date: Option<string>)

  /** A case dictionary in which every key may be absent: what
      `_extract_case_details` builds and what `_get_detailed_case_info`
      returns as a patch. */
  datatype CaseInfo = CaseInfo(
    caseNumber: Option<string>,
    status: Option<string>,
    petitioner: Option<string>,
    respondent: Option<string>,
    nextHearingDate: Option<string>,
    courtNumber: Option<string>,
    filingDate: Option<string>,
    documents: Option<seq<Document>>)

  /** The empty dictionary `{}`. */
  const NoKeys := CaseInfo(None, None, None, None, None, None, None, None)

  /** One key of `dict.update`: the patch's entry when it has one. */
  function Pick<T>(patch: Option<T>, base: Option<T>): (r: Option<T>)
    ensures r.Some? <==> patch.Some? || base.Some?
    ensures patch.Some? ==> r == patch
    ensures patch.None? ==> r == base
  {
    if patch.Some? then patch else base
  }

  /** `info.update(patch)` (court_scraper.py:117): every key present in
      `patch` takes its value from `patch`, every other key keeps the one it
      had; so an empty patch changes nothing, updating an empty dictionary
      gives the patch, and updating twice with the same patch is updating
      once. */
  function Update(info: CaseInfo, patch: CaseInfo): (r: CaseInfo)
    ensures patch == NoKeys ==> r == info
    ensures info == NoKeys ==> r == patch
    ensures r.documents.Some? <==> info.documents.Some? || patch.documents.Some?
    ensures r.filingDate.Some? <==> info.filingDate.Some? || patch.filingDate.Some?
    ensures patch.documents.Some? ==> r.documents == patch.documents
    ensures patch.filingDate.Some? ==> r.filingDate == patch.filingDate
  {
    CaseInfo(
      Pick(patch.caseNumber, info.caseNumber),
      Pick(patch.status, info.status),
      Pick(patch.petitioner, info.petitioner),
      Pick(patch.respondent, info.respondent),
      Pick(patch.nextHearingDate, info.nextHearingDate),
      Pick(patch.courtNumber, info.courtNumber),
      Pick(patch.filingDate, info.filingDate),
      Pick(patch.documents, info.documents))
  }

  /** Updating twice with the same patch is updating once. */
  lemma UpdateIdempotent(info: CaseInfo, patch: CaseInfo)
    ensures Update(Update(info, patch), patch) == Update(info, patch)
  {
  }

  /** The dictionary `_parse_results` returns on success. */
  datatype CaseRecord = CaseRecord(
    petitioner: string,
    respondent: string,
    filingDate: Option<string>,
    nextHearingDate: Option<string>,
    status: string,
    documents: seq<Document>,
    caseNumber: string,
    courtNumber: string,
    rawHtml: string)

  /** `{"success": True, ...}` or `{"success": False, "error": ...}`. */
  datatype SearchResult = Success(record: CaseRecord) | Failure(error: string)
}
