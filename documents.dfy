/** Document links: URL resolution against the court's origin
    (court_scraper.py:188-189, 213-215, 272-274, 287-289), the two kinds of
    link `_extract_docs` collects, and its dated-first, newest-first ordering
    (court_scraper.py:264-305). */
module Documents {
  import opened Wrappers
  import opened Text
  import opened Html
  import opened Records
  import opened Patterns
  import opened Dates

  const Origin: string := "https://delhihighcourt.nic.in"

  /** A link target made absolute: kept as it is when it already starts with
      `http`, otherwise the origin is put in front of it with no separator. */
  function ResolveUrl(href: string): (url: string)
    ensures StartsWith(url, "http") && EndsWith(url, href)
    ensures url == href <==> StartsWith(href, "http")
    ensures url != href ==> url == Origin + href
  {
    if StartsWith(href, "http") then href else Origin + href
  }

  /** Resolving an already resolved URL changes nothing. */
  lemma ResolveUrlIdempotent(href: string)
    ensures ResolveUrl(ResolveUrl(href)) == ResolveUrl(href)
  {
  }

  /** `re.search(r'\.pdf$', href, re.IGNORECASE)`: `$` also matches just
      before a final line feed. */
  predicate IsPdfHref(href: string) {
    EndsWith(LowerStr(href), ".pdf") || EndsWith(LowerStr(href), ".pdf\n")
  }

  /** An `href` is selected exactly when `.pdf`, in any case, occurs at its
      very end or just before a final line feed. */
  lemma IsPdfHrefMeaning(href: string)
    ensures IsPdfHref(href) <==>
      exists i: nat :: OccursNoCaseAt(href, i, ".pdf") && (i + 4 == |href| || (i + 5 == |href| && href[i + 4] == '\n'))
  {
    var l := LowerStr(href);
    var n := |href|;
    if EndsWith(l, ".pdf") {
      forall q | 0 <= q < 4 ensures Lower(href[n - 4 + q]) == ".pdf"[q] {
        assert l[n - 4..][q] == l[n - 4 + q];
      }
      assert OccursNoCaseAt(href, n - 4, ".pdf");
    } else if EndsWith(l, ".pdf\n") {
      forall q | 0 <= q < 4 ensures Lower(href[n - 5 + q]) == ".pdf"[q] {
        assert l[n - 5..][q] == l[n - 5 + q];
      }
      assert l[n - 5..][4] == l[n - 1];
      assert OccursNoCaseAt(href, n - 5, ".pdf");
    }
    if exists i: nat :: OccursNoCaseAt(href, i, ".pdf") && (i + 4 == n || (i + 5 == n && href[i + 4] == '\n')) {
      var i: nat :| OccursNoCaseAt(href, i, ".pdf") && (i + 4 == n || (i + 5 == n && href[i + 4] == '\n'));
      if i + 4 == n {
        assert l[n - 4..] == ".pdf";
      } else {
        assert l[n - 5..] == ".pdf\n";
      }
    }
  }

  /** `find_all('a', href=re.compile(r'\.pdf$', re.IGNORECASE))` selects the
      anchors that have an `href` and whose `href` matches. */
  predicate IsPdfAnchor(a: Anchor) {
    a.href.Some? && IsPdfHref(a.href.value)
  }

  /** `find_all('a', text=re.compile('order|judgment|copy', re.IGNORECASE))`. */
  predicate IsOrderText(t: string) {
    ContainsNoCase(t, "order") || ContainsNoCase(t, "judgment") || ContainsNoCase(t, "copy")
  }

  /** A text is selected exactly when `order`, `judgment` or `copy` occurs in
      it, ignoring case. */
  lemma IsOrderTextMeaning(t: string)
    ensures IsOrderText(t) <==> exists i: nat ::
      OccursNoCaseAt(t, i, "order") || OccursNoCaseAt(t, i, "judgment") || OccursNoCaseAt(t, i, "copy")
  {
    ContainsNoCaseMeaning(t, "order");
    ContainsNoCaseMeaning(t, "judgment");
    ContainsNoCaseMeaning(t, "copy");
  }

  /** An order/judgment anchor that is kept: one with a non-empty `href`. */
  predicate IsOrderAnchor(a: Anchor) {
    IsOrderText(a.text) && a.href.Some? && a.href.value != []
  }

  /** `link.get_text(strip=True) or 'Court Document'`. */
  function LinkText(a: Anchor): (t: string)
    ensures t != []
    ensures !AllSpaces(a.text) ==> t == Strip(a.text)
    ensures AllSpaces(a.text) ==> t == "Court Document"
  {
    StripEmpty(a.text);
    if Strip(a.text) != [] then Strip(a.text) else "Court Document"
  }

  /** The entry built for a PDF anchor (court_scraper.py:217-222, 276-281):
      the given type, the absolute URL, the stripped text or its fallback,
      and a date found in the raw text. */
  function PdfDoc(a: Anchor, kind: DocKind): (d: Document)
    requires IsPdfAnchor(a)
    ensures d.kind == kind && d.text != []
    ensures StartsWith(d.url, "http") && EndsWith(d.url, a.href.value)
    ensures d.date.Some? ==> d.date.value != [] && IsSlice(d.date.value, a.text)
  {
    Document(kind, ResolveUrl(a.href.value), LinkText(a), ExtractDate(a.text))
  }

  /** The entry built for an order/judgment anchor (court_scraper.py:292-297):
      the stripped text, with no fallback. */
  function OrderDoc(a: Anchor): (d: Document)
    requires IsOrderAnchor(a)
    ensures d.kind == OrderJudgment
    ensures StartsWith(d.url, "http") && EndsWith(d.url, a.href.value)
    ensures d.text == Strip(a.text) && IsStripped(d.text)
    ensures d.date.Some? ==> d.date.value != [] && IsSlice(d.date.value, a.text)
  {
    Document(OrderJudgment, ResolveUrl(a.href.value), Strip(a.text), ExtractDate(a.text))
  }

  /** The loop over the PDF anchors, in document order. */
  function PdfDocs(anchors: seq<Anchor>, kind: DocKind): (docs: seq<Document>)
    ensures |docs| <= |anchors|
    ensures forall d :: d in docs ==> d.kind == kind && StartsWith(d.url, "http") && d.text != []
  {
    if anchors == [] then []
    else
      var rest := PdfDocs(anchors[..|anchors| - 1], kind);
      var a := anchors[|anchors| - 1];
      if IsPdfAnchor(a) then rest + [PdfDoc(a, kind)] else rest
  }

  /** The loop over the order/judgment anchors, in document order. */
  function OrderDocs(anchors: seq<Anchor>): (docs: seq<Document>)
    ensures |docs| <= |anchors|
    ensures forall d :: d in docs ==> d.kind == OrderJudgment && StartsWith(d.url, "http")
  {
    if anchors == [] then []
    else
      var rest := OrderDocs(anchors[..|anchors| - 1]);
      var a := anchors[|anchors| - 1];
      if IsOrderAnchor(a) then rest + [OrderDoc(a)] else rest
  }

  /** Every document collected before sorting: the PDF links, then the
      order/judgment links, with no deduplication. */
  function Collected(anchors: seq<Anchor>): (c: seq<Document>)
    ensures |c| <= 2 * |anchors|
    ensures forall d :: d in c ==> StartsWith(d.url, "http")
  {
    PdfDocs(anchors, PdfDocument) + OrderDocs(anchors)
  }

  /** Membership in a non-empty sequence, split at its last element. */
  lemma InInitOrLast<T>(s: seq<T>, a: T)
    requires s != []
    ensures s == s[..|s| - 1] + [s[|s| - 1]]
    ensures a in s <==> a in s[..|s| - 1] || a == s[|s| - 1]
  {
    assert s == s[..|s| - 1] + [s[|s| - 1]];
  }

  /** A PDF entry is collected exactly for each PDF anchor. */
  lemma {:induction false} PdfDocsSources(anchors: seq<Anchor>, kind: DocKind, d: Document)
    ensures d in PdfDocs(anchors, kind) <==> exists a :: a in anchors && IsPdfAnchor(a) && d == PdfDoc(a, kind)
  {
    if anchors != [] {
      var init, last := anchors[..|anchors| - 1], anchors[|anchors| - 1];
      PdfDocsSources(init, kind, d);
      forall a: Anchor ensures a in anchors <==> a in init || a == last { InInitOrLast(anchors, a); }
      if d in PdfDocs(anchors, kind) {
        if d in PdfDocs(init, kind) {
          var a :| a in init && IsPdfAnchor(a) && d == PdfDoc(a, kind);
          assert a in anchors;
        } else {
          assert last in anchors;
        }
      }
      if exists a :: a in anchors && IsPdfAnchor(a) && d == PdfDoc(a, kind) {
        var a :| a in anchors && IsPdfAnchor(a) && d == PdfDoc(a, kind);
      }
    }
  }

  /** An order entry is collected exactly for each order/judgment anchor
      that has a non-empty `href`. */
  lemma {:induction false} OrderDocsSources(anchors: seq<Anchor>, d: Document)
    ensures d in OrderDocs(anchors) <==> exists a :: a in anchors && IsOrderAnchor(a) && d == OrderDoc(a)
  {
    if anchors != [] {
      var init, last := anchors[..|anchors| - 1], anchors[|anchors| - 1];
      OrderDocsSources(init, d);
      forall a: Anchor ensures a in anchors <==> a in init || a == last { InInitOrLast(anchors, a); }
      if d in OrderDocs(anchors) {
        if d in OrderDocs(init) {
          var a :| a in init && IsOrderAnchor(a) && d == OrderDoc(a);
          assert a in anchors;
        } else {
          assert last in anchors;
        }
      }
      if exists a :: a in anchors && IsOrderAnchor(a) && d == OrderDoc(a) {
        var a :| a in anchors && IsOrderAnchor(a) && d == OrderDoc(a);
      }
    }
  }

  /** The text of an order entry is never empty: it holds one of the words
      that selected it. */
  lemma OrderDocText(a: Anchor)
    requires IsOrderAnchor(a)
    ensures OrderDoc(a).text != []
  {
    if ContainsNoCase(a.text, "order") { StripOfWordNonEmpty(a.text, "order"); }
    else if ContainsNoCase(a.text, "judgment") { StripOfWordNonEmpty(a.text, "judgment"); }
    else { StripOfWordNonEmpty(a.text, "copy"); }
  }

  // ----- Dated and undated documents -----

  /** `if doc['date']`: a date is present and non-empty. */
  predicate IsDated(d: Document) {
    d.date.Some? && d.date.value != []
  }

  /** The sort key `x['date']`. */
  function DateKey(d: Document): string {
    d.date.GetOr([])
  }

  /** `[doc for doc in documents if doc['date']]`. */
  function Dated(docs: seq<Document>): (r: seq<Document>)
    ensures forall d :: d in r ==> IsDated(d)
  {
    if docs == [] then []
    else
      var rest := Dated(docs[..|docs| - 1]);
      if IsDated(docs[|docs| - 1]) then rest + [docs[|docs| - 1]] else rest
  }

  /** `[doc for doc in documents if not doc['date']]`. */
  function Undated(docs: seq<Document>): (r: seq<Document>)
    ensures forall d :: d in r ==> !IsDated(d)
  {
    if docs == [] then []
    else
      var rest := Undated(docs[..|docs| - 1]);
      if !IsDated(docs[|docs| - 1]) then rest + [docs[|docs| - 1]] else rest
  }

  /** Splitting by the date loses and invents nothing. */
  lemma {:induction false} DatedUndatedPartition(docs: seq<Document>)
    ensures multiset(Dated(docs)) + multiset(Undated(docs)) == multiset(docs)
  {
    if docs != [] {
      var init, last := docs[..|docs| - 1], docs[|docs| - 1];
      DatedUndatedPartition(init);
      InInitOrLast(docs, last);
      assert multiset(docs) == multiset(init) + multiset{last};
      if IsDated(last) {
        assert Dated(docs) == Dated(init) + [last] && Undated(docs) == Undated(init);
      } else {
        assert Dated(docs) == Dated(init) && Undated(docs) == Undated(init) + [last];
      }
    }
  }

  // ----- Sorting by date, newest first -----

  /** No key in `s` is above `k`. */
  predicate AllAtMost(s: seq<Document>, k: string) {
    forall j :: 0 <= j < |s| ==> !LexLess(k, DateKey(s[j]))
  }

  /** Keys never increase along `s` (`reverse=True`). */
  predicate Descending(s: seq<Document>) {
    forall i, j :: 0 <= i < j < |s| ==> !LexLess(DateKey(s[i]), DateKey(s[j]))
  }

  /** Insertion into a descending list: after every document whose key is at
      least `x`'s, before the first one whose key is smaller. */
  function InsertByDate(s: seq<Document>, x: Document): (r: seq<Document>)
    ensures |r| == |s| + 1
  {
    if s == [] then [x]
    else if LexLess(DateKey(s[0]), DateKey(x)) then [x] + s
    else [s[0]] + InsertByDate(s[1..], x)
  }

  /** A stable sort by date, newest first: the reference for
      `documents_with_dates.sort(key=lambda x: x['date'], reverse=True)`. */
  function SortByDateDesc(docs: seq<Document>): (r: seq<Document>)
    ensures |r| == |docs|
  {
    if docs == [] then []
    else
      var init := docs[..|docs| - 1];
      InsertByDate(SortByDateDesc(init), docs[|docs| - 1])
  }

  /** Inserting adds `x` and nothing else. */
  lemma {:induction false} InsertPermutation(s: seq<Document>, x: Document)
    ensures multiset(InsertByDate(s, x)) == multiset(s) + multiset{x}
  {
    if s != [] && !LexLess(DateKey(s[0]), DateKey(x)) {
      InsertPermutation(s[1..], x);
      assert s == [s[0]] + s[1..];
    }
  }

  /** Sorting reorders and neither loses nor invents documents. */
  lemma {:induction false} SortByDatePermutation(docs: seq<Document>)
    ensures multiset(SortByDateDesc(docs)) == multiset(docs)
  {
    if docs != [] {
      var init := docs[..|docs| - 1];
      SortByDatePermutation(init);
      InsertPermutation(SortByDateDesc(init), docs[|docs| - 1]);
      InInitOrLast(docs, docs[0]);
    }
  }

  lemma DescendingCons(y: Document, t: seq<Document>)
    requires AllAtMost(t, DateKey(y)) && Descending(t)
    ensures Descending([y] + t)
  {
    var s := [y] + t;
    forall i, j | 0 <= i < j < |s| ensures !LexLess(DateKey(s[i]), DateKey(s[j])) {
      if i > 0 { assert s[i] == t[i - 1] && s[j] == t[j - 1]; }
      else { assert s[j] == t[j - 1]; }
    }
  }

  lemma {:induction false} InsertAtMost(s: seq<Document>, x: Document, k: string)
    requires AllAtMost(s, k) && !LexLess(k, DateKey(x))
    ensures AllAtMost(InsertByDate(s, x), k)
  {
    if s != [] && !LexLess(DateKey(s[0]), DateKey(x)) {
      InsertAtMost(s[1..], x, k);
      var r := InsertByDate(s, x);
      assert r == [s[0]] + InsertByDate(s[1..], x);
      forall j | 0 <= j < |r| ensures !LexLess(k, DateKey(r[j])) {
        if j > 0 { assert r[j] == InsertByDate(s[1..], x)[j - 1]; }
      }
    }
  }

  /** Inserting keeps a list descending. */
  lemma {:induction false} InsertDescending(s: seq<Document>, x: Document)
    requires Descending(s)
    ensures Descending(InsertByDate(s, x))
  {
    if s == [] {
    } else if LexLess(DateKey(s[0]), DateKey(x)) {
      forall j | 0 <= j < |s| ensures !LexLess(DateKey(x), DateKey(s[j])) {
        if j == 0 { LexLessIrreflexive(DateKey(s[0])); }
        NotLessAfterLess(DateKey(s[0]), DateKey(s[j]), DateKey(x));
      }
      DescendingCons(x, s);
    } else {
      DescendingTail(s);
      InsertDescending(s[1..], x);
      assert AllAtMost(s[1..], DateKey(s[0])) by {
        forall j | 0 <= j < |s| - 1 ensures !LexLess(DateKey(s[0]), DateKey(s[1..][j])) {
          assert s[1..][j] == s[j + 1];
        }
      }
      InsertAtMost(s[1..], x, DateKey(s[0]));
      DescendingCons(s[0], InsertByDate(s[1..], x));
    }
  }

  /** The sorted list is descending. */
  lemma {:induction false} SortByDateDescending(docs: seq<Document>)
    ensures Descending(SortByDateDesc(docs))
  {
    if docs != [] {
      var init := docs[..|docs| - 1];
      SortByDateDescending(init);
      InsertDescending(SortByDateDesc(init), docs[|docs| - 1]);
    }
  }

  /** The documents of `s` whose key is `k`, in order. */
  function WithKey(s: seq<Document>, k: string): seq<Document> {
    if s == [] then []
    else (if DateKey(s[0]) == k then [s[0]] else []) + WithKey(s[1..], k)
  }

  lemma {:induction false} WithKeyAppend(a: seq<Document>, b: seq<Document>, k: string)
    ensures WithKey(a + b, k) == WithKey(a, k) + WithKey(b, k)
  {
    if a == [] {
      assert a + b == b;
    } else {
      WithKeyAppend(a[1..], b, k);
      assert (a + b)[0] == a[0] && (a + b)[1..] == a[1..] + b;
      var h := if DateKey(a[0]) == k then [a[0]] else [];
      calc {
        WithKey(a + b, k);
        h + WithKey(a[1..] + b, k);
        h + (WithKey(a[1..], k) + WithKey(b, k));
        { AppendAssoc(h, WithKey(a[1..], k), WithKey(b, k)); }
        (h + WithKey(a[1..], k)) + WithKey(b, k);
        WithKey(a, k) + WithKey(b, k);
      }
    }
  }

  /** No document of a list whose keys are at most `m` has a key above `m`. */
  lemma {:induction false} WithKeyAbove(s: seq<Document>, m: string, k: string)
    requires AllAtMost(s, m) && LexLess(m, k)
    ensures WithKey(s, k) == []
  {
    if s != [] {
      assert AllAtMost(s[1..], m) by {
        forall j | 0 <= j < |s| - 1 ensures !LexLess(m, DateKey(s[1..][j])) {
          assert s[1..][j] == s[j + 1];
        }
      }
      WithKeyAbove(s[1..], m, k);
    }
  }

  /** Inserting keeps the documents of each key in their order, the new one
      last among its equals. */
  lemma {:induction false} InsertStable(s: seq<Document>, x: Document, k: string)
    requires Descending(s)
    ensures WithKey(InsertByDate(s, x), k) == WithKey(s, k) + WithKey([x], k)
  {
    if s == [] {
      assert InsertByDate(s, x) == [x] && s + [x] == [x];
    } else if LexLess(DateKey(s[0]), DateKey(x)) {
      InsertFrontStable(s, x, k);
    } else {
      DescendingTail(s);
      InsertStable(s[1..], x, k);
      InsertBehindStable(s, x, InsertByDate(s[1..], x), k);
    }
  }

  /** A document newer than the head of a descending list shares its key
      with none of the list. */
  lemma InsertFrontStable(s: seq<Document>, x: Document, k: string)
    requires s != [] && Descending(s) && LexLess(DateKey(s[0]), DateKey(x))
    ensures WithKey([x] + s, k) == WithKey(s, k) + WithKey([x], k)
  {
    WithKeyAppend([x], s, k);
    assert [x][1..] == [];
    if DateKey(x) == k {
      assert AllAtMost(s, DateKey(s[0])) by {
        forall j | 0 <= j < |s| ensures !LexLess(DateKey(s[0]), DateKey(s[j])) {
          if j == 0 { LexLessIrreflexive(DateKey(s[0])); }
        }
      }
      WithKeyAbove(s, DateKey(s[0]), k);
    }
  }

  /** Keeping the head in front of a stable insertion into the tail is a
      stable insertion into the whole list. */
  lemma InsertBehindStable(s: seq<Document>, x: Document, t: seq<Document>, k: string)
    requires s != [] && WithKey(t, k) == WithKey(s[1..], k) + WithKey([x], k)
    ensures WithKey([s[0]] + t, k) == WithKey(s, k) + WithKey([x], k)
  {
    WithKeyAppend([s[0]], t, k);
    WithKeyAppend([s[0]], s[1..], k);
    assert [s[0]] + s[1..] == s;
    AppendAssoc(WithKey([s[0]], k), WithKey(s[1..], k), WithKey([x], k));
  }

  /** The sort is stable: the documents sharing a date keep their order. */
  lemma {:induction false} SortByDateStable(docs: seq<Document>, k: string)
    ensures WithKey(SortByDateDesc(docs), k) == WithKey(docs, k)
  {
    if docs != [] {
      var init := docs[..|docs| - 1];
      SortByDateStable(init, k);
      SortByDateDescending(init);
      InsertStable(SortByDateDesc(init), docs[|docs| - 1], k);
      assert docs == init + [docs[|docs| - 1]];
      WithKeyAppend(init, [docs[|docs| - 1]], k);
    }
  }

  lemma ConsAssoc<T>(a: T, u: seq<T>, x: T, v: seq<T>)
    ensures [a] + (u + [x] + v) == [a] + u + [x] + v
  {
  }

  lemma AppendAssoc<T>(a: seq<T>, b: seq<T>, c: seq<T>)
    ensures (a + b) + c == a + (b + c)
  {
  }

  /** A sequence that agrees with `s` before `j`, holds `x` at `j` and `s`
      shifted by one after it is `s` with `x` inserted at `j`. */
  lemma InsertedAt<T>(r: seq<T>, s: seq<T>, x: T, j: nat)
    requires j <= |s| && |r| == |s| + 1 && r[j] == x
    requires forall k :: 0 <= k < j ==> r[k] == s[k]
    requires forall k :: j < k < |r| ==> r[k] == s[k - 1]
    ensures r == s[..j] + [x] + s[j..]
  {
  }

  lemma DescendingTail(s: seq<Document>)
    requires s != [] && Descending(s)
    ensures Descending(s[1..])
  {
    forall i, j | 0 <= i < j < |s| - 1 ensures !LexLess(DateKey(s[1..][i]), DateKey(s[1..][j])) {
      assert s[1..][i] == s[i + 1] && s[1..][j] == s[j + 1];
    }
  }

  /** Where `InsertByDate` puts `x`: at the position `p` that follows every
      key at least `x`'s and precedes the smaller ones. */
  lemma {:induction false} InsertAt(s: seq<Document>, x: Document, p: nat)
    requires Descending(s) && p <= |s|
    requires p > 0 ==> !LexLess(DateKey(s[p - 1]), DateKey(x))
    requires forall k :: p <= k < |s| ==> LexLess(DateKey(s[k]), DateKey(x))
    ensures InsertByDate(s, x) == s[..p] + [x] + s[p..]
  {
    if p == 0 {
      assert s[..0] == [] && s[0..] == s;
      if s != [] { assert LexLess(DateKey(s[0]), DateKey(x)); }
    } else {
      if p > 1 { NotLessTransitive(DateKey(s[0]), DateKey(s[p - 1]), DateKey(x)); }
      assert !LexLess(DateKey(s[0]), DateKey(x));
      var t := s[1..];
      DescendingTail(s);
      assert p - 1 > 0 ==> t[p - 2] == s[p - 1];
      forall k | p - 1 <= k < |t| ensures LexLess(DateKey(t[k]), DateKey(x)) {
        assert t[k] == s[k + 1];
      }
      InsertAt(t, x, p - 1);
      var u, v := t[..p - 1], t[p - 1..];
      assert InsertByDate(s, x) == [s[0]] + (u + [x] + v);
      assert s[..p] == [s[0]] + u;
      assert s[p..] == v;
      ConsAssoc(s[0], u, x, v);
    }
  }

  // ----- The harvest -----

  /** What `_extract_docs` returns: the dated documents sorted newest first,
      then the undated ones in the order they were found. */
  function Harvest(anchors: seq<Anchor>): (h: seq<Document>)
    ensures multiset(h) == multiset(Collected(anchors))
  {
    var c := Collected(anchors);
    DatedUndatedPartition(c);
    SortByDatePermutation(Dated(c));
    var sorted := SortByDateDesc(Dated(c));
    assert multiset(sorted + Undated(c)) == multiset(sorted) + multiset(Undated(c));
    sorted + Undated(c)
  }

  /** Dated documents come first, newest first and stably; the undated ones
      follow in the order they were found. */
  lemma HarvestOrder(anchors: seq<Anchor>)
    ensures var c := Collected(anchors); var h := Harvest(anchors); var n := |Dated(c)|;
      n <= |h| &&
      (forall i :: 0 <= i < |h| ==> (IsDated(h[i]) <==> i < n)) &&
      Descending(h[..n]) &&
      (forall k :: WithKey(h[..n], k) == WithKey(Dated(c), k)) &&
      h[n..] == Undated(c)
  {
    var c := Collected(anchors);
    var h := Harvest(anchors);
    var sorted := SortByDateDesc(Dated(c));
    var n := |Dated(c)|;
    assert h[..n] == sorted && h[n..] == Undated(c);
    SortByDateDescending(Dated(c));
    SortByDatePermutation(Dated(c));
    forall k { SortByDateStable(Dated(c), k); }
    forall i | 0 <= i < |h| ensures IsDated(h[i]) <==> i < n {
      if i < n {
        assert h[i] in multiset(sorted);
      } else {
        assert h[i] in Undated(c);
      }
    }
  }

  /** Every document comes from an anchor of the page: a PDF anchor, or an
      order/judgment anchor with an `href`; and every such anchor gives one. */
  lemma HarvestSources(anchors: seq<Anchor>, d: Document)
    ensures d in Harvest(anchors) <==>
      (exists a :: a in anchors && IsPdfAnchor(a) && d == PdfDoc(a, PdfDocument)) ||
      (exists a :: a in anchors && IsOrderAnchor(a) && d == OrderDoc(a))
  {
    assert d in Harvest(anchors) <==> d in multiset(Collected(anchors));
    PdfDocsSources(anchors, PdfDocument, d);
    OrderDocsSources(anchors, d);
  }

  /** Every harvested URL is absolute and every text is non-empty. */
  lemma HarvestWellFormed(anchors: seq<Anchor>)
    ensures forall d :: d in Harvest(anchors) ==> StartsWith(d.url, "http") && d.text != []
  {
    forall d | d in Harvest(anchors) ensures StartsWith(d.url, "http") && d.text != [] {
      HarvestSources(anchors, d);
      if !(exists a :: a in anchors && IsPdfAnchor(a) && d == PdfDoc(a, PdfDocument)) {
        var a :| a in anchors && IsOrderAnchor(a) && d == OrderDoc(a);
        OrderDocText(a);
      }
    }
  }

  // ----- The imperative harvester -----

  lemma SortByDateStep(s: seq<Document>, i: nat)
    requires i < |s|
    ensures SortByDateDesc(s[..i + 1]) == InsertByDate(SortByDateDesc(s[..i]), s[i])
  {
    assert s[..i + 1][..i] == s[..i];
  }

  /** One step of the insertion sort: `a[i]` is moved into the descending
      prefix `a[..i]`, after the documents whose key is at least its own. */
  method InsertIntoPrefix(a: array<Document>, i: nat)
    requires i < a.Length && Descending(a[..i])
    modifies a
    ensures a[..] == InsertByDate(old(a[..i]), old(a[i])) + old(a[i + 1..])
  {
    var x := a[i];
    ghost var sorted := a[..i];
    ghost var rest := a[i + 1..];
    var j := i;
    while j > 0 && LexLess(DateKey(a[j - 1]), DateKey(x))
      invariant 0 <= j <= i
      invariant forall k :: 0 <= k < j ==> a[k] == sorted[k]
      invariant forall k :: j < k <= i ==> a[k] == sorted[k - 1]
      invariant forall k :: i < k < a.Length ==> a[k] == rest[k - i - 1]
      invariant forall k :: j <= k < i ==> LexLess(DateKey(sorted[k]), DateKey(x))
    {
      a[j] := a[j - 1];
      j := j - 1;
    }
    a[j] := x;
    InsertLanded(a[..], sorted, x, rest, j);
  }

  /** The array after the shifting loop, as a sequence: `x` landed where
      `InsertByDate` puts it, and the unsorted rest is untouched. */
  lemma InsertLanded(after: seq<Document>, sorted: seq<Document>, x: Document, rest: seq<Document>, j: nat)
    requires |after| == |sorted| + 1 + |rest| && j <= |sorted| && after[j] == x
    requires Descending(sorted)
    requires forall k :: 0 <= k < j ==> after[k] == sorted[k]
    requires forall k :: j < k <= |sorted| ==> after[k] == sorted[k - 1]
    requires forall k :: |sorted| < k < |after| ==> after[k] == rest[k - |sorted| - 1]
    requires j > 0 ==> !LexLess(DateKey(sorted[j - 1]), DateKey(x))
    requires forall k :: j <= k < |sorted| ==> LexLess(DateKey(sorted[k]), DateKey(x))
    ensures after == InsertByDate(sorted, x) + rest
  {
    InsertAt(sorted, x, j);
    InsertedAt(after[..|sorted| + 1], sorted, x, j);
    assert after[|sorted| + 1..] == rest;
    assert after == after[..|sorted| + 1] + after[|sorted| + 1..];
  }

  /** `documents_with_dates.sort(key=lambda x: x['date'], reverse=True)`,
      in place, as an insertion sort. */
  method SortByDateInPlace(a: array<Document>)
    modifies a
    ensures a[..] == SortByDateDesc(old(a[..]))
  {
    ghost var input := a[..];
    var i := 0;
    while i < a.Length
      invariant 0 <= i <= a.Length
      invariant a[..] == SortByDateDesc(input[..i]) + input[i..]
    {
      ghost var before := a[..];
      SortLoopBefore(input, i, before);
      InsertIntoPrefix(a, i);
      SortLoopAfter(input, i, before, a[..]);
      i := i + 1;
    }
    assert input[..a.Length] == input;
  }

  /** Before an insertion step the sorted prefix is descending. */
  lemma SortLoopBefore(input: seq<Document>, i: nat, before: seq<Document>)
    requires i < |input| && before == SortByDateDesc(input[..i]) + input[i..]
    ensures Descending(before[..i])
  {
    assert before[..i] == SortByDateDesc(input[..i]);
    SortByDateDescending(input[..i]);
  }

  /** After an insertion step the prefix one longer is sorted. */
  lemma SortLoopAfter(input: seq<Document>, i: nat, before: seq<Document>, after: seq<Document>)
    requires i < |input| && before == SortByDateDesc(input[..i]) + input[i..]
    requires after == InsertByDate(before[..i], before[i]) + before[i + 1..]
    ensures after == SortByDateDesc(input[..i + 1]) + input[i + 1..]
  {
    assert before[..i] == SortByDateDesc(input[..i]);
    assert before[i] == input[i] && before[i + 1..] == input[i + 1..];
    SortByDateStep(input, i);
  }

  lemma PdfStep(anchors: seq<Anchor>, i: nat, kind: DocKind)
    requires i < |anchors|
    ensures IsPdfAnchor(anchors[i]) ==> PdfDocs(anchors[..i + 1], kind) == PdfDocs(anchors[..i], kind) + [PdfDoc(anchors[i], kind)]
    ensures !IsPdfAnchor(anchors[i]) ==> PdfDocs(anchors[..i + 1], kind) == PdfDocs(anchors[..i], kind)
  {
    assert anchors[..i + 1][..i] == anchors[..i];
  }

  lemma OrderStep(anchors: seq<Anchor>, i: nat)
    requires i < |anchors|
    ensures IsOrderAnchor(anchors[i]) ==> OrderDocs(anchors[..i + 1]) == OrderDocs(anchors[..i]) + [OrderDoc(anchors[i])]
    ensures !IsOrderAnchor(anchors[i]) ==> OrderDocs(anchors[..i + 1]) == OrderDocs(anchors[..i])
  {
    assert anchors[..i + 1][..i] == anchors[..i];
  }

  lemma SplitStep(docs: seq<Document>, i: nat)
    requires i < |docs|
    ensures IsDated(docs[i]) ==> Dated(docs[..i + 1]) == Dated(docs[..i]) + [docs[i]] && Undated(docs[..i + 1]) == Undated(docs[..i])
    ensures !IsDated(docs[i]) ==> Dated(docs[..i + 1]) == Dated(docs[..i]) && Undated(docs[..i + 1]) == Undated(docs[..i]) + [docs[i]]
  {
    assert docs[..i + 1][..i] == docs[..i];
  }

  /** A loop over the `.pdf` anchors appending one entry of type `kind` for
      each (court_scraper.py:271-281, and 212-222 on a detail page). */
  method CollectPdfDocs(anchors: seq<Anchor>, kind: DocKind) returns (documents: seq<Document>)
    ensures documents == PdfDocs(anchors, kind)
  {
    documents := [];
    var i := 0;
    while i < |anchors|
      invariant 0 <= i <= |anchors|
      invariant documents == PdfDocs(anchors[..i], kind)
    {
      PdfStep(anchors, i, kind);
      var link := anchors[i];
      if IsPdfAnchor(link) {
        documents := documents + [PdfDoc(link, kind)];
      }
      i := i + 1;
    }
    assert anchors[..i] == anchors;
  }

  /** The loop over the order/judgment anchors, appending to the list the
      PDF loop built (court_scraper.py:286-297). */
  method AppendOrderDocs(pdfs: seq<Document>, anchors: seq<Anchor>) returns (documents: seq<Document>)
    ensures documents == pdfs + OrderDocs(anchors)
  {
    documents := pdfs;
    var i := 0;
    while i < |anchors|
      invariant 0 <= i <= |anchors|
      invariant documents == pdfs + OrderDocs(anchors[..i])
    {
      OrderStep(anchors, i);
      var link := anchors[i];
      if IsOrderAnchor(link) {
        AppendAssoc(pdfs, OrderDocs(anchors[..i]), [OrderDoc(link)]);
        documents := documents + [OrderDoc(link)];
      }
      i := i + 1;
    }
    assert anchors[..i] == anchors;
  }

  /** The two collecting loops of `_extract_docs`: PDF links first, then
      order/judgment links that have an `href`. */
  method CollectDocs(anchors: seq<Anchor>) returns (documents: seq<Document>)
    ensures documents == Collected(anchors)
  {
    documents := CollectPdfDocs(anchors, PdfDocument);
    documents := AppendOrderDocs(documents, anchors);
  }

  /** The two list comprehensions that split the documents by their date. */
  method SplitByDate(documents: seq<Document>) returns (withDates: seq<Document>, withoutDates: seq<Document>)
    ensures withDates == Dated(documents) && withoutDates == Undated(documents)
  {
    withDates, withoutDates := [], [];
    var i := 0;
    while i < |documents|
      invariant 0 <= i <= |documents|
      invariant withDates == Dated(documents[..i]) && withoutDates == Undated(documents[..i])
    {
      SplitStep(documents, i);
      if IsDated(documents[i]) {
        withDates := withDates + [documents[i]];
      } else {
        withoutDates := withoutDates + [documents[i]];
      }
      i := i + 1;
    }
    assert documents[..i] == documents;
  }

  /** `_extract_docs`: collect, split by date, sort the dated part in place
      and put it before the undated part. */
  method ExtractDocs(anchors: seq<Anchor>) returns (docs: seq<Document>)
    ensures docs == Harvest(anchors)
  {
    var documents := CollectDocs(anchors);
    var withDates, withoutDates := SplitByDate(documents);
    var sorted := new Document[|withDates|](k requires 0 <= k < |withDates| => withDates[k]);
    assert sorted[..] == withDates;
    SortByDateInPlace(sorted);
    docs := sorted[..] + withoutDates;
  }
}
