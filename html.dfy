/** A parsed page, reduced to what the scraper reads from it. The HTML parser
    itself (BeautifulSoup's `find`, `find_all` and `get_text`) is outside the
    model: a page arrives already split into these parts. */
module Html {
  import opened Wrappers

  /** An `<a>` element: its `href` attribute, if it has one, and its single
      text string, the one `find(text=...)` tests and `get_text()` returns;
      anchors without a single text string are not represented. */
  datatype Anchor = Anchor(href: Option<string>, text: string)

  /** A `<tr>`: the `get_text(strip=True)` of each of its `<td>` cells, and
      the anchors inside it in document order. */
  datatype Row = Row(cells: seq<string>, anchors: seq<Anchor>)

  /** A text node and the full `get_text()` of the element that holds it. */
  datatype TextNode = TextNode(text: string, parentText: string)

  /** A `<table>`: all of its `<tr>` rows in document order, the header row
      included, and its text nodes in document order. */
  datatype Table = Table(rows: seq<Row>, textNodes: seq<TextNode>)

  /** A whole page: the text nodes of its first `<div class="case-history">`
      if it has one, its first `<table>` if it has one, `soup.get_text()`,
      every anchor of the page in document order, and `str(soup)`. */
  datatype Page = Page(
    caseHistory: Option<seq<TextNode>>,
    firstTable: Option<Table>,
    text: string,
    anchors: seq<Anchor>,
    markup: string)
}
