/** The field-level text policy the spiders share: default-and-strip
    extraction, the joint stock-status/quantity parse, and price clean-up. */
module Fields {
  import opened Wrappers
  import opened Text
  import opened Pattern
  import opened Document

  /** What default-and-strip extraction promises for `query`: `""` when the
      query selects nothing, otherwise the first match with its whitespace
      margins removed. */
  ghost predicate ExtractsTo(doc: Document, query: string, r: string) {
    && (|Select(doc, query)| == 0 ==> r == "")
    && (|Select(doc, query)| > 0 ==> StripsTo(Select(doc, query)[0], r))
  }

  /** `response.xpath(query).get(default="").strip()` */
  function ExtractWithXPath(doc: Document, query: string): (r: string)
    ensures ExtractsTo(doc, query, r)
  {
    match First(doc, query)
    case None => ""
    case Some(v) => Strip(v)
  }

  /** Extraction reads nothing but the query's own matches. */
  lemma ExtractLocal(doc: Document, doc': Document, query: string)
    requires Select(doc, query) == Select(doc', query)
    ensures ExtractWithXPath(doc, query) == ExtractWithXPath(doc', query)
  {
  }

  /** Searching the extracted text finds what searching the first match
      finds: the strip does not matter. */
  lemma ExtractedSearch(doc: Document, query: string, pat: Pattern)
    requires pat.Valid() && pat.SpaceFramed()
    ensures |Select(doc, query)| > 0 ==>
      SearchNumber(ExtractWithXPath(doc, query), pat) == SearchNumber(Select(doc, query)[0], pat)
  {
    if |Select(doc, query)| > 0 {
      SearchNumberStrip(Select(doc, query)[0], pat);
    }
  }

  /** Pager text `Page <digits> of ...`, whitespace before it, reads as the
      value of its digits. */
  lemma PagerDigits(w1: string, ds: string, rest: string)
    requires AllSpace(w1) && |ds| > 0 && AllDigits(ds)
    ensures SearchNumber(w1 + "Page " + ds + " of " + rest, PagePattern) == Some(DigitsValue(ds))
  {
    PagerSplit(w1, ds, rest);
    SpaceLacks(w1, 'P');
    SearchNumberOf(w1, ds, " " + rest, PagePattern);
  }

  /** The pager text read as prefix, number, suffix and the rest. */
  lemma PagerSplit(w1: string, ds: string, rest: string)
    ensures w1 + "Page " + ds + " of " + rest
      == w1 + PagePattern.prefix + ds + PagePattern.suffix + (" " + rest)
  {
    var x := w1 + "Page " + ds + " of " + rest;
    var y := w1 + PagePattern.prefix + ds + PagePattern.suffix + (" " + rest);
    assert |x| == |y|;
    forall i | 0 <= i < |x| ensures x[i] == y[i] {
    }
  }

  /** Pager text `Page k of n`, whitespace around it, reads as page `k`. */
  lemma PagerNumber(w1: string, k: nat, n: nat, w2: string)
    requires AllSpace(w1)
    ensures SearchNumber(w1 + "Page " + ShowNat(k) + " of " + ShowNat(n) + w2, PagePattern) == Some(k)
  {
    Assoc(w1 + "Page " + ShowNat(k) + " of ", ShowNat(n), w2);
    PagerDigits(w1, ShowNat(k), ShowNat(n) + w2);
  }

  /** Leading zeros in the page number are ignored: `Page 0k of ...` reads
      as page `k`. */
  lemma PagerLeadingZero(w1: string, k: nat, rest: string)
    requires AllSpace(w1)
    ensures SearchNumber(w1 + "Page " + ("0" + ShowNat(k)) + " of " + rest, PagePattern) == Some(k)
  {
    LeadingZeroIgnored(ShowNat(k));
    PagerDigits(w1, "0" + ShowNat(k), rest);
  }

  lemma Assoc(x: string, y: string, z: string)
    ensures x + y + z == x + (y + z)
  {
  }

  /** Whitespace contains no non-space character. */
  lemma SpaceLacks(w: string, c: char)
    requires AllSpace(w) && !IsSpace(c)
    ensures c !in w
  {
  }

  /** Text whose presence marks a book as available. */
  const InStock := "In stock"

  datatype StockStatus = Available | Unavailable {
    /** The string the spiders put in a record. */
    function Label(): string {
      match this
      case Available => "available"
      case Unavailable => "unavailable"
    }
  }

  datatype Stock = Stock(status: StockStatus, quantity: nat)

  /** The joint stock parse: available exactly when the text contains
      "In stock"; only then is `(N available)` looked for, its leftmost
      occurrence giving the quantity, and 0 when there is none. */
  function ParseStock(text: string): (r: Stock)
    ensures r.status == Available <==> Contains(text, InStock)
    ensures r.quantity > 0 ==> r.status == Available
    ensures r.status == Unavailable ==> r.quantity == 0
    ensures r.status == Available && !Matches(text, QuantityPattern) ==> r.quantity == 0
    ensures r.status == Available && Matches(text, QuantityPattern) ==>
      exists i: nat, k: nat :: IsLeftmost(text, QuantityPattern, i, k)
        && r.quantity == DigitsValue(Group(text, QuantityPattern, i, k))
  {
    if HasSubstring(text, InStock) then
      match SearchNumber(text, QuantityPattern)
      case Some(n) => Stock(Available, n)
      case None => Stock(Available, 0)
    else Stock(Unavailable, 0)
  }

  /** Surrounding whitespace does not change the stock parse. */
  lemma ParseStockStrip(text: string)
    ensures ParseStock(Strip(text)) == ParseStock(text)
  {
    ContainsStrip(text, InStock);
    SearchNumberStrip(text, QuantityPattern);
  }

  /** "In stock (N available)" parses to (available, N). */
  lemma ParseStockCount(q: nat)
    ensures ParseStock("In stock (" + ShowNat(q) + " available)") == Stock(Available, q)
  {
    var text := "In stock (" + ShowNat(q) + " available)";
    assert text == "In stock " + QuantityPattern.prefix + ShowNat(q) + QuantityPattern.suffix + "";
    assert OccursAt(text, InStock, 0);
    SearchNumberOf("In stock ", ShowNat(q), "", QuantityPattern);
  }

  /** In stock without a count: quantity 0. */
  lemma ParseStockWithoutCount()
    ensures ParseStock("In stock") == Stock(Available, 0)
  {
    assert OccursAt("In stock", InStock, 0);
  }

  /** Out of stock, even when a stray count is present: nothing is searched. */
  lemma ParseStockOutOfStock()
    ensures ParseStock("Out of stock") == Stock(Unavailable, 0)
    ensures ParseStock("Out of stock (5 available)") == Stock(Unavailable, 0)
  {
    LacksFirstChar("Out of stock", InStock);
    LacksFirstChar("Out of stock (5 available)", InStock);
  }

  /** Parsing the extracted text parses the first match: the strip does not
      matter. */
  lemma ExtractedStock(doc: Document, query: string)
    ensures |Select(doc, query)| > 0 ==>
      ParseStock(ExtractWithXPath(doc, query)) == ParseStock(Select(doc, query)[0])
  {
    if |Select(doc, query)| > 0 {
      ParseStockStrip(Select(doc, query)[0]);
    }
  }

  /** The keys of a yielded book record. */
  const RecordKeys: set<string> :=
    {"page_number", "title", "price", "stock_status", "stock_quantity", "upc", "category", "description"}

  /** A book record before it becomes the yielded dictionary. */
  datatype BookRecord = BookRecord(
    pageNumber: Value,
    title: string,
    price: Value,
    stock: Stock,
    upc: string,
    category: string,
    description: string)
  {
    /** The yielded dictionary: exactly the eight keys, stock status as its
        lower-case label and stock quantity as an `int`. */
    function AsDict(): (d: map<string, Value>)
      ensures d.Keys == RecordKeys
      ensures d["page_number"] == pageNumber && d["price"] == price
      ensures d["title"] == Str(title) && d["upc"] == Str(upc)
      ensures d["category"] == Str(category) && d["description"] == Str(description)
      ensures d["stock_status"] == Str(stock.status.Label()) && d["stock_quantity"] == Int(stock.quantity)
    {
      map[
        "page_number" := pageNumber,
        "title" := Str(title),
        "price" := price,
        "stock_status" := Str(stock.status.Label()),
        "stock_quantity" := Int(stock.quantity),
        "upc" := Str(upc),
        "category" := Str(category),
        "description" := Str(description)
      ]
    }
  }

  /** Price clean-up: `None` for empty text, otherwise the text with every
      pound sign removed, wherever it stands. */
  function CleanPrice(raw: string): (r: Option<string>)
    ensures r.None? <==> raw == ""
    ensures r.Some? ==> '£' !in r.value
    ensures r.Some? ==> forall c :: c != '£' ==> multiset(r.value)[c] == multiset(raw)[c]
    ensures r.Some? ==> InOrder(r.value, raw)
  {
    RemoveAllInOrder(raw, '£');
    if raw == "" then None else Some(RemoveAll(raw, '£'))
  }
}
