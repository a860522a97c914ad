/** The `books` spider: the earlier draft of the same crawl, whose listing
    handler only follows the next page when the parsed page number is below
    1, and whose detail handler fails on a page without an availability
    element. */
module BooksSpider {
  import opened Wrappers
  import opened Text
  import opened Pattern
  import opened Document
  import opened Fields

  const BookUrls := "//article[contains(@class, \"product_pod\")]//a/@href"
  /** Exact class equality, unlike the `books2` spider's containment test. */
  const CurrentPage := "//li[@class=\"current\"]/text()"
  const NextPage := "//li[contains(@class, 'next')]//a/@href"
  /** The availability paragraph followed by `.xpath('string(.)')`: each match
      is the paragraph's whole text content. */
  const StockText := "//div[contains(@class, 'product_main')]//p[contains(@class, 'availability')]/string(.)"
  const TitleQuery := "//h1/text()"
  const PriceQuery := "//div[contains(@class, 'product_main')]//p[contains(@class, 'price_color')]/text()"
  const UpcQuery := "//th[text()='UPC']/following-sibling::td/text()"
  const CategoryQuery := "//ul[contains(@class, \"breadcrumb\")]/li[last()-1]/a/text()"
  const DescriptionQuery := "//div[@id='product_description']/following-sibling::p/text()"

  /** The exceptions these handlers can raise. */
  datatype Error =
    | NoneUrl              // `response.follow(None)`: ValueError
    | MissingAvailability  // `None.strip()`: AttributeError

  /** What a generator callback produced: the requests it yielded, and the
      exception that ended it, if any. */
  datatype Emission = Emission(requests: seq<Request>, raised: Option<Error>)

  /** The page number in `parse`: `None` without a `current` item, otherwise
      the leftmost `Page <digits> of` in its stripped text. */
  function PageNumber(doc: Document): (r: Option<nat>)
    ensures |Select(doc, CurrentPage)| == 0 ==> r.None?
    ensures |Select(doc, CurrentPage)| > 0 ==> r == SearchNumber(Select(doc, CurrentPage)[0], PagePattern)
  {
    var all := Select(doc, CurrentPage);
    if |all| == 0 then None
    else
      SearchNumberStrip(all[0], PagePattern);
      SearchNumber(Strip(all[0]), PagePattern)
  }

  /** The guarded follow-up: a listing request for the next page, or the
      error `response.follow` raises when there is no next-page href. */
  function FollowNext(doc: Document): (e: Emission)
    ensures |e.requests| + (if e.raised.Some? then 1 else 0) == 1
    ensures e.raised.Some? <==> |Select(doc, NextPage)| == 0
    ensures e.raised.None? ==> e.requests[0] == Request(Select(doc, NextPage)[0], ParseListing, map[])
  {
    match First(doc, NextPage)
    case None => Emission([], Some(NoneUrl))
    case Some(url) => Emission([Request(url, ParseListing, map[])], None)
  }

  /** `parse` once the page number `pn` is known: a detail request per book
      link, in document order, carrying `pn`; then the next page is followed
      only when `pn` is known and below 1. */
  function Emit(doc: Document, pn: Option<nat>): (e: Emission)
    ensures |Select(doc, BookUrls)| <= |e.requests| <= |Select(doc, BookUrls)| + 1
    ensures forall i :: 0 <= i < |Select(doc, BookUrls)| ==>
      e.requests[i] == Request(Select(doc, BookUrls)[i], ParseBook, PageMeta(pn))
    ensures |e.requests| > |Select(doc, BookUrls)| || e.raised.Some? ==> pn == Some(0)
    ensures pn == Some(0) && |Select(doc, NextPage)| == 0 ==>
      |e.requests| == |Select(doc, BookUrls)| && e.raised == Some(NoneUrl)
    ensures pn == Some(0) && |Select(doc, NextPage)| > 0 ==>
      |e.requests| == |Select(doc, BookUrls)| + 1 && e.raised.None?
      && e.requests[|Select(doc, BookUrls)|] == Request(Select(doc, NextPage)[0], ParseListing, map[])
  {
    var details := FollowAll(Select(doc, BookUrls), ParseBook, PageMeta(pn));
    assert forall i :: 0 <= i < |details| ==> details[i] in details;
    if pn.Some? && pn.value < 1 then
      var next := FollowNext(doc);
      Emission(details + next.requests, next.raised)
    else Emission(details, None)
  }

  /** `parse`: the detail requests come first; anything after them, a
      request or a raised error, needs the page number 0. */
  function Parse(doc: Document): (e: Emission)
    ensures |Select(doc, BookUrls)| <= |e.requests| <= |Select(doc, BookUrls)| + 1
    ensures forall i :: 0 <= i < |Select(doc, BookUrls)| ==>
      e.requests[i] == Request(Select(doc, BookUrls)[i], ParseBook, PageMeta(PageNumber(doc)))
    ensures |e.requests| > |Select(doc, BookUrls)| || e.raised.Some? ==> PageNumber(doc) == Some(0)
    ensures PageNumber(doc) == Some(0) && |Select(doc, NextPage)| == 0 ==>
      |e.requests| == |Select(doc, BookUrls)| && e.raised == Some(NoneUrl)
    ensures PageNumber(doc) == Some(0) && |Select(doc, NextPage)| > 0 ==>
      |e.requests| == |Select(doc, BookUrls)| + 1 && e.raised.None?
      && e.requests[|Select(doc, BookUrls)|] == Request(Select(doc, NextPage)[0], ParseListing, map[])
  {
    Emit(doc, PageNumber(doc))
  }

  /** Both spiders read the page number by the same rule; only the pager
      query differs. */
  lemma PageNumberAgrees(doc: Document)
    ensures PageNumber(doc) == SearchNumber(ExtractWithXPath(doc, CurrentPage), PagePattern)
  {
    ExtractedSearch(doc, CurrentPage, PagePattern);
  }

  /** A real pager, `Page k of n` with `k >= 1`, never leads to a follow-up:
      this spider stops after the first listing page. */
  lemma RealPagerStops(doc: Document, w1: string, k: nat, n: nat, w2: string)
    requires AllSpace(w1) && AllSpace(w2) && k >= 1
    requires |Select(doc, CurrentPage)| > 0
    requires Select(doc, CurrentPage)[0] == w1 + "Page " + ShowNat(k) + " of " + ShowNat(n) + w2
    ensures PageNumber(doc) == Some(k)
    ensures Parse(doc).requests == FollowAll(Select(doc, BookUrls), ParseBook, PageMeta(Some(k)))
    ensures Parse(doc).raised.None?
  {
    PagerNumber(w1, k, n, w2);
  }

  /** Only a page number of 0 (`Page 0 of n`, `Page 00 of n`, ...) follows
      the next link, and then a missing link raises after the detail requests
      have gone out. */
  lemma PageZeroWithoutNext(doc: Document)
    requires PageNumber(doc) == Some(0) && |Select(doc, NextPage)| == 0
    ensures Parse(doc) == Emission(FollowAll(Select(doc, BookUrls), ParseBook, PageMeta(Some(0))), Some(NoneUrl))
  {
  }

  /** `parse_book`: raises when the page has no availability element;
      otherwise one record with the stock fields from the shared joint parse
      and the price left as stripped text, pound sign included. */
  function ParseBookRecord(doc: Document, meta: Meta): (r: Result<BookRecord, Error>)
    ensures r.Failure? <==> |Select(doc, StockText)| == 0
    ensures r.Failure? ==> r.error == MissingAvailability
    ensures r.Success? ==> r.value.pageNumber == MetaGet(meta, PageNumberKey)
    ensures r.Success? ==> r.value.stock == ParseStock(Select(doc, StockText)[0])
    ensures r.Success? ==> (r.value.stock.quantity > 0 ==> r.value.stock.status == Available)
    ensures r.Success? ==> (r.value.stock.status == Available <==> Contains(Select(doc, StockText)[0], InStock))
    ensures r.Success? ==> r.value.price.Str? && Trimmed(r.value.price.s)
    ensures r.Success? && |Select(doc, PriceQuery)| > 0 ==>
      StripsTo(Select(doc, PriceQuery)[0], r.value.price.s)
    ensures r.Success? && |Select(doc, PriceQuery)| == 0 ==> r.value.price == Str("")
    ensures r.Success? ==> ExtractsTo(doc, TitleQuery, r.value.title) && ExtractsTo(doc, UpcQuery, r.value.upc)
    ensures r.Success? ==>
      ExtractsTo(doc, CategoryQuery, r.value.category) && ExtractsTo(doc, DescriptionQuery, r.value.description)
  {
    match First(doc, StockText)
    case None => Failure(MissingAvailability)
    case Some(raw) =>
      ParseStockStrip(raw);
      Success(BookRecord(
        MetaGet(meta, PageNumberKey),
        ExtractWithXPath(doc, TitleQuery),
        Str(ExtractWithXPath(doc, PriceQuery)),
        ParseStock(Strip(raw)),
        ExtractWithXPath(doc, UpcQuery),
        ExtractWithXPath(doc, CategoryQuery),
        ExtractWithXPath(doc, DescriptionQuery)))
  }
}
