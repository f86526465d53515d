/** The common product record every scraper produces, and the abstract view
    of a fetched page the scrapers read it from. */
module Products {
  import opened Wrappers

  /** `Long.MAX_VALUE`. */
  const MAX_LONG: nat := 0x7FFF_FFFF_FFFF_FFFF

  /** The currency label every scraper attaches. */
  const CURRENCY: string := "GS"

  /** A price as every scraper supplies it: a non-negative `long`. */
  type Price = n: nat | n <= MAX_LONG

  /** `ProductsDto`: the name may be null in Java, hence the `Option`. */
  datatype Product = Product(
    name: Option<string>,
    price: Price,
    currency: string,
    image: string,
    origin: string,
    url: string)

  /** A DOM element as far as the scrapers look at it: its text, its
      attributes, (for script elements) its data and inner HTML, and
      `baseUri()`, the address of the page it was parsed from, against
      which its relative URLs resolve. */
  datatype Element = Element(
    text: string,
    attrs: map<string, string>,
    data: string,
    html: string,
    baseUri: string)

  /** A parsed page, represented by what each CSS selector the scrapers use
      selects from it, in document order. Selector evaluation itself belongs
      to the HTML library and is not modelled. */
  datatype Document = Document(selections: map<string, seq<Element>>)

  /** `doc.select(css)`: a selector that matches nothing yields the empty list. */
  function Select(doc: Document, css: string): seq<Element> {
    if css in doc.selections then doc.selections[css] else []
  }

  function Texts(els: seq<Element>): (ts: seq<string>)
    ensures |ts| == |els|
    ensures forall i | 0 <= i < |els| :: ts[i] == els[i].text
  {
    seq(|els|, i requires 0 <= i < |els| => els[i].text)
  }

  /** `BaseJsoupScraper.product`: assembles a record. Name, price, currency
      label and image pass through unchanged; the origin is the host of
      `base` (URL parsing is a library call, given here as `hostOf`); the url
      is `base` followed by `pathWithQuery`. */
  function MakeProduct(name: string, price: Price, currency: string, image: string,
                       base: string, pathWithQuery: string,
                       hostOf: string -> string): (p: Product)
    ensures p.name == Some(name) && p.price == price
    ensures p.currency == currency && p.image == image
    ensures p.origin == hostOf(base)
    ensures |p.url| == |base| + |pathWithQuery|
    ensures p.url[..|base|] == base && p.url[|base|..] == pathWithQuery
  {
    Product(Some(name), price, currency, image, hostOf(base), base + pathWithQuery)
  }
}
