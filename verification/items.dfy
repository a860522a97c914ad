/** The item-loader processors: stock status and quantity parsed separately,
    each after `str.strip`, and the price stripped before its pound signs
    are removed. */
module Items {
  import opened Text
  import opened Pattern
  import opened Fields

  /** `parse_stock_status`: capitalised, unlike the spiders' labels. */
  function ParseStockStatus(v: string): (r: string)
    ensures r == "Available" || r == "Unavailable"
    ensures r == "Available" <==> Contains(v, InStock)
  {
    if HasSubstring(v, InStock) then "Available" else "Unavailable"
  }

  /** `parse_stock_qty`: the leftmost `(N available)` count, 0 without one;
      the status is not consulted. */
  function ParseStockQty(v: string): (r: nat)
    ensures !Matches(v, QuantityPattern) ==> r == 0
    ensures Matches(v, QuantityPattern) ==>
      exists i: nat, k: nat :: IsLeftmost(v, QuantityPattern, i, k)
        && r == DigitsValue(Group(v, QuantityPattern, i, k))
  {
    match SearchNumber(v, QuantityPattern)
    case Some(n) => n
    case None => 0
  }

  /** `MapCompose(str.strip, parse_stock_status)` on one value: the strip
      changes nothing. */
  function StockStatusIn(v: string): (r: string)
    ensures r == ParseStockStatus(v)
  {
    ContainsStrip(v, InStock);
    ParseStockStatus(Strip(v))
  }

  /** `MapCompose(str.strip, parse_stock_qty)` on one value: the strip
      changes nothing. */
  function StockQtyIn(v: string): (r: nat)
    ensures r == ParseStockQty(v)
  {
    SearchNumberStrip(v, QuantityPattern);
    ParseStockQty(Strip(v))
  }

  /** The price input processor: strip, then drop every pound sign. Spaces
      the sign separated from the text stay. */
  function PriceIn(v: string): (r: string)
    ensures '£' !in r
    ensures forall c :: c != '£' ==> multiset(r)[c] == multiset(Strip(v))[c]
    ensures InOrder(r, Strip(v))
  {
    RemoveAllInOrder(Strip(v), '£');
    RemoveAll(Strip(v), '£')
  }

  /** On text that says "In stock", the separate processors agree with the
      spiders' joint parse, up to capitalisation. */
  lemma AgreesWhenInStock(v: string)
    ensures ParseStockStatus(v) == "Available" <==> ParseStock(v).status == Available
    ensures Contains(v, InStock) ==> ParseStockQty(v) == ParseStock(v).quantity
  {
  }

  /** Without the status guard a count survives on an out-of-stock text: a
      text with `(N available)` but no "In stock" gives quantity N next to
      "Unavailable", which the spiders' joint parse never produces. */
  lemma CountWithoutStock(a: string, q: nat, rest: string)
    requires '(' !in a && 'I' !in a && 'I' !in rest
    ensures var v := a + QuantityPattern.prefix + ShowNat(q) + QuantityPattern.suffix + rest;
      && ParseStockQty(v) == q
      && ParseStockStatus(v) == "Unavailable"
      && ParseStock(v) == Stock(Unavailable, 0)
  {
    SearchNumberOf(a, ShowNat(q), rest, QuantityPattern);
    CountNotInStock(a, ShowNat(q), rest);
  }

  /** A count text without a capital `I` is not "In stock" for either parse. */
  lemma CountNotInStock(a: string, ds: string, rest: string)
    requires AllDigits(ds) && 'I' !in a && 'I' !in rest
    ensures var v := a + QuantityPattern.prefix + ds + QuantityPattern.suffix + rest;
      ParseStockStatus(v) == "Unavailable" && ParseStock(v) == Stock(Unavailable, 0)
  {
    CountLacksCapital(a, ds, rest);
    LacksFirstChar(a + QuantityPattern.prefix + ds + QuantityPattern.suffix + rest, InStock);
  }

  lemma CountLacksCapital(a: string, ds: string, rest: string)
    requires AllDigits(ds) && 'I' !in a && 'I' !in rest
    ensures 'I' !in a + QuantityPattern.prefix + ds + QuantityPattern.suffix + rest
  {
  }

  /** The price processor on a padded price: the margins and the sign go,
      the price text stays. */
  lemma PriceInPadded(w1: string, body: string, w2: string)
    requires AllSpace(w1) && AllSpace(w2)
    requires |body| > 0 && Trimmed(body) && '£' !in body
    ensures PriceIn(w1 + "£" + body + w2) == body
  {
    var signed := "£" + body;
    var v := w1 + signed + w2;
    assert w1 + "£" + body + w2 == v;
    assert WindowAt(v, signed, |w1|) && Trimmed(signed) by {
      assert v[|w1|..|w1| + |signed|] == signed;
      assert v[..|w1|] == w1;
      assert v[|w1| + |signed|..] == w2;
    }
    StripUnique(v, signed);
    RemovesSign(body);
  }

  /** Removal happens after the strip, so whitespace behind the sign stays. */
  lemma PriceInKeepsInnerSpace(w: string, body: string)
    requires AllSpace(w) && |body| > 0 && Trimmed(body) && '£' !in body
    ensures PriceIn("£" + w + body) == w + body
  {
    var v := "£" + (w + body);
    assert "£" + w + body == v;
    StripTrimmed(v);
    SpaceLacks(w, '£');
    RemovesSign(w + body);
  }

  /** Dropping the pound signs from a signed text without further signs
      leaves the text. */
  lemma RemovesSign(body: string)
    requires '£' !in body
    ensures RemoveAll("£" + body, '£') == body
  {
    RemoveAllAppend("£", body, '£');
    RemoveAllAbsent(body, '£');
  }
}
