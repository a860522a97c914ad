/** The `books2` spider: the listing handler `parse`, the detail handler
    `parse_book` and their helpers. */
module BooksSpiderNoComm {
  import opened Wrappers
  import opened Text
  import opened Pattern
  import opened Document
  import opened Fields

  const BookUrls := "//article[contains(@class, 'product_pod')]//a/@href"
  const NextPage := "//ul[contains(@class, 'pager')]/li[contains(@class, 'next')]//a/@href"
  const CurrentPage := "//ul[contains(@class, 'pager')]/li[contains(@class, 'current')]/text()"
  /** Selects the availability paragraph itself, so its match is the
      element's markup, not only its text. */
  const StockQuery := "//div[contains(@class, 'product_main')]//p[contains(@class, 'availability')]"
  const TitleQuery := "//h1/text()"
  const PriceQuery := "//div[contains(@class, 'product_main')]//p[contains(@class, 'price_color')]/text()"
  const UpcQuery := "//th[text()='UPC']/following-sibling::td/text()"
  const CategoryQuery := "//ul[contains(@class, 'breadcrumb')]/li[last()-1]//a/text()"
  const DescriptionQuery := "//div[@id='product_description']/following-sibling::p/text()"

  /** `_extract_page_number`: the leftmost `Page <digits> of` in the stripped
      pager text; stripping makes no difference to the answer. */
  function ExtractPageNumber(doc: Document): (r: Option<nat>)
    ensures |Select(doc, CurrentPage)| == 0 ==> r.None?
    ensures |Select(doc, CurrentPage)| > 0 ==> r == SearchNumber(Select(doc, CurrentPage)[0], PagePattern)
  {
    ExtractedSearch(doc, CurrentPage, PagePattern);
    SearchNumber(ExtractWithXPath(doc, CurrentPage), PagePattern)
  }

  /** A pager reading `Page k of n` (with any surrounding whitespace) gives
      page `k`. */
  lemma PagerText(doc: Document, w1: string, k: nat, n: nat, w2: string)
    requires AllSpace(w1) && AllSpace(w2)
    requires |Select(doc, CurrentPage)| > 0
    requires Select(doc, CurrentPage)[0] == w1 + "Page " + ShowNat(k) + " of " + ShowNat(n) + w2
    ensures ExtractPageNumber(doc) == Some(k)
  {
    PagerNumber(w1, k, n, w2);
  }

  /** `_parse_stock` */
  function ParseStockOf(doc: Document): (r: Stock)
    ensures |Select(doc, StockQuery)| == 0 ==> r == Stock(Unavailable, 0)
    ensures |Select(doc, StockQuery)| > 0 ==> r == ParseStock(Select(doc, StockQuery)[0])
    ensures r.quantity > 0 ==> r.status == Available
    ensures r.status == Available <==>
      |Select(doc, StockQuery)| > 0 && Contains(Select(doc, StockQuery)[0], InStock)
  {
    ExtractedStock(doc, StockQuery);
    ParseStock(ExtractWithXPath(doc, StockQuery))
  }

  /** `_parse_price`: `None` when the price text is empty, otherwise the
      number `float` reads from the text with every pound sign removed. */
  function ParsePrice(doc: Document, query: string): (r: Value)
    ensures r == Null <==> ExtractWithXPath(doc, query) == ""
    ensures r != Null ==> r.Float? && '£' !in r.literal
    ensures r != Null ==> forall c :: c != '£' ==>
      multiset(r.literal)[c] == multiset(ExtractWithXPath(doc, query))[c]
    ensures r != Null ==> InOrder(r.literal, ExtractWithXPath(doc, query))
  {
    match CleanPrice(ExtractWithXPath(doc, query))
    case None => Null
    case Some(t) => Float(t)
  }

  /** `next_page_url` is truthy: present and not the empty string. */
  predicate HasNextPage(doc: Document) {
    |Select(doc, NextPage)| > 0 && Select(doc, NextPage)[0] != ""
  }

  /** `parse`: one detail request per book link, in document order, all
      carrying this page's number; then one listing request for the next
      page when its href is non-empty. There is no page cap. */
  function Parse(doc: Document): (rs: seq<Request>)
    ensures |rs| == |Select(doc, BookUrls)| + (if HasNextPage(doc) then 1 else 0)
    ensures forall i :: 0 <= i < |Select(doc, BookUrls)| ==>
      rs[i] == Request(Select(doc, BookUrls)[i], ParseBook, PageMeta(ExtractPageNumber(doc)))
    ensures HasNextPage(doc) ==>
      rs[|rs| - 1] == Request(Select(doc, NextPage)[0], ParseListing, map[])
  {
    var details := FollowAll(Select(doc, BookUrls), ParseBook, PageMeta(ExtractPageNumber(doc)));
    assert forall i :: 0 <= i < |details| ==> details[i] in details;
    match First(doc, NextPage)
    case Some(url) =>
      if url != "" then details + [Request(url, ParseListing, map[])] else details
    case None => details
  }

  /** `parse` emits exactly as many detail requests as the page has book
      links, all with this page's number, and at most one listing request. */
  lemma ParseCounts(doc: Document)
    ensures Count(Parse(doc), ParseBook) == |Select(doc, BookUrls)|
    ensures Count(Parse(doc), ParseListing) == if HasNextPage(doc) then 1 else 0
    ensures forall r :: r in Parse(doc) && r.callback == ParseBook ==>
      r.meta == PageMeta(ExtractPageNumber(doc))
  {
    var urls, meta := Select(doc, BookUrls), PageMeta(ExtractPageNumber(doc));
    var details := FollowAll(urls, ParseBook, meta);
    CountFollowAll(urls, ParseBook, meta, ParseBook);
    CountFollowAll(urls, ParseBook, meta, ParseListing);
    if HasNextPage(doc) {
      var next := [Request(Select(doc, NextPage)[0], ParseListing, map[])];
      CountAppend(details, next, ParseBook);
      CountAppend(details, next, ParseListing);
      assert Parse(doc) == details + next;
    } else {
      assert Parse(doc) == details;
    }
  }

  /** `parse_book`: one record, the page number passed through from the
      request's context unchanged, every text field stripped. */
  function ParseBookRecord(doc: Document, meta: Meta): (r: BookRecord)
    ensures r.pageNumber == MetaGet(meta, PageNumberKey)
    ensures r.stock.quantity > 0 ==> r.stock.status == Available
    ensures r.stock.status == Available <==>
      |Select(doc, StockQuery)| > 0 && Contains(Select(doc, StockQuery)[0], InStock)
    ensures |Select(doc, StockQuery)| == 0 ==> r.stock == Stock(Unavailable, 0)
    ensures |Select(doc, StockQuery)| > 0 ==> r.stock == ParseStock(Select(doc, StockQuery)[0])
    ensures r.price == Null <==> ExtractWithXPath(doc, PriceQuery) == ""
    ensures r.price != Null ==> r.price.Float? && '£' !in r.price.literal
    ensures r.price != Null ==> forall c :: c != '£' ==>
      multiset(r.price.literal)[c] == multiset(ExtractWithXPath(doc, PriceQuery))[c]
    ensures r.price != Null ==> InOrder(r.price.literal, ExtractWithXPath(doc, PriceQuery))
    ensures ExtractsTo(doc, TitleQuery, r.title) && ExtractsTo(doc, UpcQuery, r.upc)
    ensures ExtractsTo(doc, CategoryQuery, r.category) && ExtractsTo(doc, DescriptionQuery, r.description)
    ensures Trimmed(r.title) && Trimmed(r.upc) && Trimmed(r.category) && Trimmed(r.description)
  {
    BookRecord(
      MetaGet(meta, PageNumberKey),
      ExtractWithXPath(doc, TitleQuery),
      ParsePrice(doc, PriceQuery),
      ParseStockOf(doc),
      ExtractWithXPath(doc, UpcQuery),
      ExtractWithXPath(doc, CategoryQuery),
      ExtractWithXPath(doc, DescriptionQuery))
  }

  /** The record depends on nothing but the six queries it reads and the
      context, so handling the same page again yields the same record. */
  lemma ParseBookDeterministic(doc: Document, doc': Document, meta: Meta)
    requires forall q :: q in {TitleQuery, PriceQuery, StockQuery, UpcQuery, CategoryQuery, DescriptionQuery} ==>
      Select(doc, q) == Select(doc', q)
    ensures ParseBookRecord(doc, meta) == ParseBookRecord(doc', meta)
  {
    ExtractLocal(doc, doc', TitleQuery);
    ExtractLocal(doc, doc', PriceQuery);
    ExtractLocal(doc, doc', StockQuery);
    ExtractLocal(doc, doc', UpcQuery);
    ExtractLocal(doc, doc', CategoryQuery);
    ExtractLocal(doc, doc', DescriptionQuery);
  }

  /** From listing page to record: a book found on a listing page is recorded
      with that listing page's number, whatever its own page holds. */
  lemma PageNumberReachesRecord(listing: Document, i: nat, book: Document)
    requires i < |Select(listing, BookUrls)|
    ensures Parse(listing)[i].callback == ParseBook
    ensures ParseBookRecord(book, Parse(listing)[i].meta).AsDict()["page_number"]
      == PageValue(ExtractPageNumber(listing))
  {
  }

  /** A listing page with two books, a next link and the pager reading
      `Page k of n` yields two detail requests for page `k` and one request
      for the next listing page. */
  lemma TwoBooksAndNext(doc: Document, u1: string, u2: string, next: string,
                        w1: string, k: nat, n: nat, w2: string)
    requires Select(doc, BookUrls) == [u1, u2]
    requires Select(doc, NextPage) == [next] && next != ""
    requires AllSpace(w1) && AllSpace(w2)
    requires |Select(doc, CurrentPage)| > 0
    requires Select(doc, CurrentPage)[0] == w1 + "Page " + ShowNat(k) + " of " + ShowNat(n) + w2
    ensures Parse(doc) == [
      Request(u1, ParseBook, PageMeta(Some(k))),
      Request(u2, ParseBook, PageMeta(Some(k))),
      Request(next, ParseListing, map[])]
  {
    PagerText(doc, w1, k, n, w2);
    TwoBooksAndNextShape(doc, u1, u2, next);
  }

  lemma TwoBooksAndNextShape(doc: Document, u1: string, u2: string, next: string)
    requires Select(doc, BookUrls) == [u1, u2]
    requires Select(doc, NextPage) == [next] && next != ""
    ensures Parse(doc) == [
      Request(u1, ParseBook, PageMeta(ExtractPageNumber(doc))),
      Request(u2, ParseBook, PageMeta(ExtractPageNumber(doc))),
      Request(next, ParseListing, map[])]
  {
    var rs := Parse(doc);
    assert |rs| == 3;
    assert rs[0] == Request(u1, ParseBook, PageMeta(ExtractPageNumber(doc)));
    assert rs[1] == Request(u2, ParseBook, PageMeta(ExtractPageNumber(doc)));
  }
}
