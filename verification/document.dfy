/** What a spider callback sees of Scrapy: a parsed page reduced to the
    results of the queries it runs, the Python values it yields, and the
    requests it hands back to the scheduler. HTML parsing, XPath evaluation
    and URL resolution are not modelled. */
module Document {
  import opened Wrappers

  /** A parsed page, seen only through the queries run on it: each query
      (named by its XPath text) maps to the strings it selects, in document
      order. A query that is absent selects nothing. */
  type Document = map<string, seq<string>>

  /** `response.xpath(query).getall()` */
  function Select(doc: Document, query: string): (r: seq<string>)
    ensures query !in doc ==> r == []
  {
    if query in doc then doc[query] else []
  }

  /** `response.xpath(query).get()`: the first selected string, or `None`. */
  function First(doc: Document, query: string): (r: Option<string>)
    ensures r.None? <==> |Select(doc, query)| == 0
    ensures r.Some? ==> r.value == Select(doc, query)[0]
  {
    var all := Select(doc, query);
    if |all| == 0 then None else Some(all[0])
  }

  /** The Python values a callback puts into a yielded record. `Float` holds
      the text handed to `float(...)`; the conversion itself is not
      modelled. */
  datatype Value = Null | Int(i: int) | Str(s: string) | Float(literal: string)

  /** `Request.meta`: the context dictionary a request carries. */
  type Meta = map<string, Value>

  /** `meta.get(key)`: `None` when the key is missing. */
  function MetaGet(meta: Meta, key: string): (v: Value)
    ensures key in meta ==> v == meta[key]
    ensures key !in meta ==> v == Null
  {
    if key in meta then meta[key] else Null
  }

  /** `meta.get` after `meta[key] = v`: the stored value under `key`, and
      every other key as before. */
  lemma MetaGetUpdate(meta: Meta, key: string, v: Value, other: string)
    ensures MetaGet(meta[key := v], key) == v
    ensures other != key ==> MetaGet(meta[key := v], other) == MetaGet(meta, other)
  {
  }

  const PageNumberKey := "page_number"

  /** A page number as it travels in `meta`: `None` or an `int`. */
  function PageValue(pn: Option<nat>): (v: Value)
    ensures pn.None? <==> v == Null
    ensures pn.Some? ==> v == Int(pn.value)
  {
    match pn
    case None => Null
    case Some(n) => Int(n)
  }

  /** Distinct page numbers travel as distinct values, so the page number
      can be read back from the context. */
  lemma PageValueInjective(a: Option<nat>, b: Option<nat>)
    requires PageValue(a) == PageValue(b)
    ensures a == b
  {
  }

  /** `meta={'page_number': pn}` */
  function PageMeta(pn: Option<nat>): (m: Meta)
    ensures m.Keys == {PageNumberKey}
    ensures MetaGet(m, PageNumberKey) == PageValue(pn)
  {
    map[PageNumberKey := PageValue(pn)]
  }

  /** The spider method a request's response is handed to. */
  datatype Callback = ParseListing | ParseBook

  /** An emitted request; `url` is the href as selected, before it is
      resolved against the page's URL. */
  datatype Request = Request(url: string, callback: Callback, meta: Meta)

  /** `response.follow_all(urls, callback, meta=meta)`, and equally a loop of
      `response.follow(url, callback, meta=meta)`: one request per URL, in
      document order, all with the same context. */
  function FollowAll(urls: seq<string>, callback: Callback, meta: Meta): (rs: seq<Request>)
    ensures |rs| == |urls|
    ensures forall i :: 0 <= i < |rs| ==> rs[i].url == urls[i]
    ensures forall r :: r in rs ==> r.callback == callback && r.meta == meta
  {
    if |urls| == 0 then []
    else [Request(urls[0], callback, meta)] + FollowAll(urls[1..], callback, meta)
  }

  /** How many of the requests go to `callback`. */
  function Count(rs: seq<Request>, callback: Callback): (n: nat)
    ensures n <= |rs|
  {
    if |rs| == 0 then 0
    else (if rs[0].callback == callback then 1 else 0) + Count(rs[1..], callback)
  }

  lemma {:induction false} CountAppend(a: seq<Request>, b: seq<Request>, callback: Callback)
    ensures Count(a + b, callback) == Count(a, callback) + Count(b, callback)
  {
    if |a| == 0 {
      assert a + b == b;
    } else {
      assert (a + b)[1..] == a[1..] + b;
      CountAppend(a[1..], b, callback);
    }
  }

  /** `follow_all` sends every request to its one callback. */
  lemma {:induction false} CountFollowAll(urls: seq<string>, callback: Callback, meta: Meta, other: Callback)
    ensures Count(FollowAll(urls, callback, meta), other) == if other == callback then |urls| else 0
  {
    if |urls| > 0 {
      CountFollowAll(urls[1..], callback, meta, other);
    }
  }
}
