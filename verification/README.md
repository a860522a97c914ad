# book_scraper spiders in Dafny

This project models the text-extraction and request-emission policy of the
`book_scraper` Scrapy project, which crawls books.toscrape.com. It covers
two spiders and one item definition:

- `books2` (`book_scraper/spiders/books_spider_no_comm.py`). Its listing
  handler `parse` follows every book link and the next listing page. Its
  detail handler `parse_book` builds an eight-field record from small
  helpers: `_extract_with_xpath`, `_extract_page_number`, `_parse_stock`
  and `_parse_price`.
- `books` (`book_scraper/spiders/books_spider.py`). This is an earlier
  draft of the same crawl. It has its own pager query, a next-page guard
  that only fires on page number 0, and inline stock logic.
- The item processors in `book_scraper/items.py`: `parse_stock_status`,
  `parse_stock_qty` and the strip-then-drop-`£` price processor.

A parsed page is a `Document`: a map from the XPath text of each query to
the strings it selects, in document order. HTML, XPath and Scrapy are not
modelled.

The two regular expressions, `Page (\d+) of` and `\((\d+) available\)`, are
patterns of the form `Prefix(\d+)Suffix`.
- `Pattern.IsMatch` and `Pattern.IsLeftmost` state what a match and
  Python's `re.search` mean.
- `Pattern.SearchFrom` computes the search, and its contract proves the
  result is the leftmost match.
- The suffix starts with a non-digit, so the captured run at any start is
  the maximal digit run, and the match is unique.

`str.strip` has a reference meaning, `Text.StripsTo`: the result sits in a
window of the input with whitespace-only margins, and does not itself begin
or end with whitespace. `Text.Strip` computes it and `Text.StripUnique`
shows it is the only such string.

Modules, in dependency order:
- `Wrappers`
- `Text`
- `Pattern`
- `Document`
- `Fields`: the helpers both spiders share
- `BooksSpiderNoComm`
- `BooksSpider`
- `Items`

## Model

| member | source | states |
|---|---|---|
| Text.Strip | book_scraper/spiders/books_spider_no_comm.py:51-52 | `str.strip()` leaves the input minus whitespace-only margins, and the result neither begins nor ends with whitespace |
| Text.StripUnique | book_scraper/spiders/books_spider_no_comm.py:51-52 | any string that is a trimmed window of `s` with whitespace-only margins is exactly `s.strip()` |
| Text.StripIdempotent | book_scraper/items.py:17 | stripping twice gives the same result as stripping once |
| Text.StripTrimmed | book_scraper/items.py:17 | a string without whitespace at either end is left unchanged by `strip()` |
| Text.ContainsStrip | book_scraper/items.py:20-23 | for a pattern with non-space ends, `p in s.strip()` holds exactly when `p in s` |
| Text.ShowNat | book_scraper/spiders/books_spider_no_comm.py:58 | the decimal rendering of `n` is a non-empty digit string that `int()` reads back as `n`, for `n` of at most 4300 digits in the source |
| Text.LeadingZeroIgnored | book_scraper/spiders/books_spider_no_comm.py:58 | `int()` of a digit string ignores a leading zero |
| Text.RemoveAll | book_scraper/spiders/books_spider_no_comm.py:76 | `replace(c, '')` leaves no `c` and keeps every other character with its multiplicity |
| Text.RemoveAllAppend | book_scraper/spiders/books_spider_no_comm.py:76 | removal works piecewise over concatenation, so the kept characters stay in order |
| Text.RemoveAllAbsent | book_scraper/items.py:17 | removing an absent character changes nothing, so removal is idempotent |
| Text.RemoveAllInOrder | book_scraper/spiders/books_spider_no_comm.py:76 | the characters `replace(c, '')` keeps appear in the input in the same order |
| Text.FindFrom | book_scraper/spiders/books_spider_no_comm.py:65 | the reported index is an occurrence at or after `from` with none between `from` and it; with no report, none at `from` or later |
| Text.Find | book_scraper/spiders/books_spider_no_comm.py:65 | the search for a substring finds nothing exactly when `p in s` fails, and otherwise reports the leftmost occurrence |
| Text.HasSubstring | book_scraper/spiders/books_spider_no_comm.py:65 | the computed `p in s` agrees with the declarative containment `Contains` |
| Pattern.MatchAt | book_scraper/spiders/books_spider_no_comm.py:56 | an anchored attempt reports a match length exactly when the regex matches at that start |
| Pattern.SearchFrom | book_scraper/spiders/books_spider_no_comm.py:56 | the reported match is a match, and no match starts between `from` and it; with no report, no match starts at `from` or later |
| Pattern.Search | book_scraper/spiders/books_spider_no_comm.py:56 | `re.search` finds nothing exactly when the regex matches nowhere, and otherwise reports the leftmost match |
| Pattern.SearchNumber | book_scraper/spiders/books_spider_no_comm.py:56-58 | `None` exactly when there is no match; otherwise the `int` of the leftmost match's captured digits, at any length (see Left out) |
| Pattern.MatchLengthUnique | book_scraper/spiders/books_spider_no_comm.py:56 | at a given start, the captured digit run has only one possible length |
| Pattern.LeftmostUnique | book_scraper/spiders/books_spider_no_comm.py:56 | the leftmost match is unique, so the search result is well defined |
| Pattern.SearchNumberOf | book_scraper/spiders/books_spider_no_comm.py:56-58 | text that spells prefix, digits and suffix after a part without the prefix's first character reads as those digits' value |
| Pattern.WindowMatchesIff | book_scraper/items.py:24-27 | a space-framed pattern matches a string exactly when it matches that string's whitespace-framed window |
| Pattern.SearchWindow | book_scraper/items.py:24-27 | searching a whitespace-framed window reports the same match, shifted by the margin |
| Pattern.SearchNumberStrip | book_scraper/items.py:24-27 | for either pattern, `strip()` before the search does not change the number found |
| Document.First | book_scraper/spiders/books_spider_no_comm.py:52 | `.get()` is `None` exactly when the query selects nothing, and is otherwise the first selected string |
| Document.MetaGetUpdate | book_scraper/spiders/books_spider_no_comm.py:36 | after storing `v` under a key, `meta.get` returns `v` for that key and the old answer for every other key |
| Document.PageValueInjective | book_scraper/spiders/books_spider_no_comm.py:21 | distinct page numbers travel as distinct context values, so the number can be read back unchanged |
| Document.PageMeta | book_scraper/spiders/books_spider_no_comm.py:21 | the request context holds only `page_number`, and reading it back gives the page number |
| Document.FollowAll | book_scraper/spiders/books_spider_no_comm.py:18-22 | one request per URL, in the same order, each with the given callback and context |
| Document.CountFollowAll | book_scraper/spiders/books_spider_no_comm.py:18-22 | `follow_all` sends every one of its requests to its own callback and none elsewhere |
| Fields.ExtractWithXPath | book_scraper/spiders/books_spider_no_comm.py:51-52 | `""` when the query selects nothing; otherwise the first match stripped; never starts or ends with whitespace |
| Fields.ExtractLocal | book_scraper/spiders/books_spider_no_comm.py:51-52 | extraction depends only on that query's own matches |
| Fields.ExtractedSearch | book_scraper/spiders/books_spider_no_comm.py:54-58 | searching the extracted text gives the same number as searching the raw first match |
| Fields.PagerDigits | book_scraper/spiders/books_spider_no_comm.py:56-58 | pager text `Page <digits> of ...` after whitespace reads as the value of those digits |
| Fields.PagerNumber | book_scraper/spiders/books_spider_no_comm.py:54-58 | `Page k of n` with any whitespace around it reads as page `k`, including `k = 0`; in the source only for `k` of at most 4300 digits |
| Fields.PagerLeadingZero | book_scraper/spiders/books_spider_no_comm.py:56-58 | `Page 0k of ...` reads as page `k`: leading zeros are ignored |
| Fields.ParseStock | book_scraper/spiders/books_spider_no_comm.py:60-72 | available exactly when the text contains "In stock"; the quantity is the leftmost `(N available)` count only then, otherwise 0; quantity > 0 implies available |
| Fields.ParseStockStrip | book_scraper/spiders/books_spider.py:48-56 | stripping the availability text does not change the stock parse |
| Fields.ParseStockCount | book_scraper/spiders/books_spider_no_comm.py:65-70 | `In stock (N available)` parses to (available, N) for every N; in the source only for `N` of at most 4300 digits |
| Fields.ParseStockWithoutCount | book_scraper/spiders/books_spider_no_comm.py:65-70 | `In stock` without a count parses to (available, 0) |
| Fields.ParseStockOutOfStock | book_scraper/spiders/books_spider_no_comm.py:60-66 | `Out of stock` parses to (unavailable, 0), even with a stray `(5 available)` |
| Fields.ExtractedStock | book_scraper/spiders/books_spider_no_comm.py:63-65 | parsing the extracted text gives the same stock as parsing the raw first match |
| Fields.BookRecord.AsDict | book_scraper/spiders/books_spider_no_comm.py:40-49 | the yielded dict has exactly the eight keys, stock status as its lower-case label and quantity as an `int` |
| Fields.CleanPrice | book_scraper/spiders/books_spider_no_comm.py:74-76 | `None` exactly for empty text; otherwise no `£` is left anywhere, and every other character is kept with its multiplicity and in its original order |
| BooksSpiderNoComm.ExtractPageNumber | book_scraper/spiders/books_spider_no_comm.py:54-58 | `None` without a pager; otherwise the number from the leftmost `Page <digits> of` in the raw pager text |
| BooksSpiderNoComm.PagerText | book_scraper/spiders/books_spider_no_comm.py:54-58 | a pager reading `Page k of n` gives page `k` |
| BooksSpiderNoComm.ParseStockOf | book_scraper/spiders/books_spider_no_comm.py:60-72 | (unavailable, 0) without an availability match; otherwise the joint stock parse of the first match, so the quantity is its leftmost count when "In stock"; quantity > 0 implies available |
| BooksSpiderNoComm.ParsePrice | book_scraper/spiders/books_spider_no_comm.py:74-76 | `None` exactly when the extracted price is empty; otherwise a number whose text has no `£` and keeps every other character, in order |
| BooksSpiderNoComm.Parse | book_scraper/spiders/books_spider_no_comm.py:14-27 | one detail request per book link, in order, each carrying this page's number; then one listing request exactly when the next-page href is non-empty |
| BooksSpiderNoComm.ParseCounts | book_scraper/spiders/books_spider_no_comm.py:14-27 | exactly as many detail requests as book links, all with this page's number, and at most one listing request |
| BooksSpiderNoComm.ParseBookRecord | book_scraper/spiders/books_spider_no_comm.py:29-49 | the page number is passed through from the context unchanged; the stock is the joint parse of the first availability match, or (unavailable, 0); price is `None` exactly for an empty price, otherwise its text without any `£`, the other characters kept in order; title, upc, category and description are `""` without a match and otherwise the first match stripped |
| BooksSpiderNoComm.ParseBookDeterministic | book_scraper/spiders/books_spider_no_comm.py:29-49 | two pages that agree on the queries `parse_book` reads give the same record |
| BooksSpiderNoComm.PageNumberReachesRecord | book_scraper/spiders/books_spider_no_comm.py:14-41 | a book found on a listing page is recorded with that listing page's number |
| BooksSpiderNoComm.TwoBooksAndNext | book_scraper/spiders/books_spider_no_comm.py:14-27 | a listing page with two books, a next link and pager `Page k of n` yields two page-`k` detail requests and then one listing request |
| BooksSpider.PageNumber | book_scraper/spiders/books_spider.py:13-21 | `None` without a `current` item; otherwise the number from the leftmost `Page <digits> of` in its text |
| BooksSpider.PageNumberAgrees | book_scraper/spiders/books_spider.py:13-21 | this spider's page number follows the same rule as `_extract_page_number`, applied to its own pager query |
| BooksSpider.FollowNext | book_scraper/spiders/books_spider.py:33-35 | the follow-up is one listing request for the first next-page href, or the `follow(None)` error when there is none |
| BooksSpider.Emit | book_scraper/spiders/books_spider.py:25-35 | detail requests for every book link first; anything after them needs page number 0, and then it is the next-page request or the error |
| BooksSpider.Parse | book_scraper/spiders/books_spider.py:10-35 | one detail request per book link, in document order, each carrying the parsed page number; a follow-up or an error happens only on page number 0, where a next link gives one listing request and no next link raises the `follow(None)` error |
| BooksSpider.RealPagerStops | book_scraper/spiders/books_spider.py:32-35 | for a real pager `Page k of n` with `k >= 1`, only the detail requests go out and nothing is raised |
| BooksSpider.PageZeroWithoutNext | book_scraper/spiders/books_spider.py:32-35 | on page 0 with no next link, the detail requests go out and then `follow(None)` raises |
| BooksSpider.ParseBookRecord | book_scraper/spiders/books_spider.py:40-69 | fails exactly when there is no availability element; otherwise the stock is the joint parse of that element's text, the price is the stripped first match with `£` kept, or `""`, and title, upc, category and description are `""` without a match and otherwise the first match stripped |
| Items.ParseStockStatus | book_scraper/items.py:5-6 | the substring search's verdict gives `"Available"` exactly when "In stock" occurs somewhere in the value, otherwise `"Unavailable"` |
| Items.ParseStockQty | book_scraper/items.py:8-11 | the leftmost `(N available)` count, or 0 without one, whatever the status |
| Items.StockStatusIn | book_scraper/items.py:20-23 | the strip in the status processor never changes the status |
| Items.StockQtyIn | book_scraper/items.py:24-27 | the strip in the quantity processor never changes the quantity |
| Items.PriceIn | book_scraper/items.py:16-19 | the processed price has no `£` and keeps every other character of the stripped value, with its multiplicity and in order |
| Items.AgreesWhenInStock | book_scraper/items.py:5-11 | the two processors agree with the spiders' joint parse on the status always, and on the quantity when "In stock" is present |
| Items.CountWithoutStock | book_scraper/items.py:5-11 | a count text without "In stock" gives quantity N next to "Unavailable", while the joint parse gives (unavailable, 0) |
| Items.PriceInPadded | book_scraper/items.py:16-19 | for `£` plus price text with whitespace around it, only the price text is left |
| Items.PriceInKeepsInnerSpace | book_scraper/items.py:16-19 | whitespace between `£` and the price survives, because the strip happens before the removal |

## Left out

- HTML parsing and XPath evaluation. A page is given by the strings each query selects, and two queries with different text are different queries. The query texts are kept as written in the source, with one exception. `BooksSpider.StockText` joins the availability query and the chained `.xpath('string(.)')` call of `book_scraper/spiders/books_spider.py:48` into one query, written with a `/string(.)` step that is not in the source. Its matches stand for the paragraph's whole text content.
- The `books2` availability query selects the `<p>` element itself, so Scrapy's `.get()` returns its markup. The model treats that match as an opaque string and parses it as text.
- Scrapy's request machinery: URL resolution against the page URL, scheduling, de-duplication, concurrency and the meta keys Scrapy adds itself. A request is a URL, a callback tag and the context the spider sets.
- Generator laziness. `BooksSpider.Emission` records everything a handler yields before it raises. Nothing models when the consumer pulls the items.
- BooksSpiderNoComm.ParsePrice: the `float(...)` conversion is not modelled. The value holds the cleaned text that `float` would read. A text that `float` rejects, such as a lone `£`, raises `ValueError` in the source but is a `Float` value here.
- Text.Strip: whitespace is the ASCII set that `str.strip()` removes (space, tab through carriage return, and 0x1C through 0x1F). Unicode whitespace such as U+00A0 and U+2028 is not modelled.
- Pattern.SearchNumber: `\d` matches ASCII digits only here. Python also accepts other Unicode decimal digits.
- Pattern.SearchNumber: the captured digits are read at any length. CPython's `int()` refuses a digit string longer than 4300 digits (the default of `sys.get_int_max_str_digits()`) and raises `ValueError`. The model does not carry that limit. So the `int(match.group(1))` calls at `book_scraper/spiders/books_spider_no_comm.py:58` and `:70`, `book_scraper/spiders/books_spider.py:21` and `:56`, and `book_scraper/items.py:11` raise in the source on such input. In the model they read the number. In the source, `parse` then yields nothing and `parse_book` yields no record. The same limit bounds the numbers for which `Text.ShowNat`, `Fields.PagerNumber`, `Fields.ParseStockCount` and the rows built on them describe the source.
- Items.PriceIn: the `ItemLoader`, `MapCompose` and `TakeFirst` machinery is library code and is not modelled. The processors are modelled on one input value, and the output processors are left out.
- `book_scraper/spiders/books_spider_item_loader.py`: a thin wrapper that only loads a title through an `ItemLoader`. It is not part of this model.
- Spider names, `allowed_domains` and `start_urls`: configuration with no logic.
- Fields.BookRecord.AsDict: a Dafny map has no key order, so the insertion order of the yielded dictionary is not modelled.
