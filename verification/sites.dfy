/** The nine HTML scrapers. Each is one descriptor — base address, search
    path, fallback strategy, the three CSS selectors and how product links
    are formed — run through one generic fetch-then-zip procedure. */
module Sites {
  import opened Wrappers
  import opened Products
  import opened Prices
  import opened Images
  import opened Pem
  import opened Fetching

  /** How a scraper gets its document when the plain static fetch is not
      good enough. */
  datatype Strategy =
    | StaticOnly                    // one static fetch, every error propagates
    | RetryPlain                    // on a TLS error, one plain re-connection
    | RetryPinned                   // on a TLS error, re-connect trusting the bundled PEM
    | RenderFallback(waitFor: string) // TLS error or selector absent: rendered fetch
    | PopupThenRender(popup: string)  // render until a popup shows, then until names show

  /** Whether a product link ends in the product name or the search query. */
  datatype UrlMode = ByName | ByQuery

  datatype Site = Site(
    base: string,
    path: string,
    strategy: Strategy,
    names: string,
    prices: string,
    images: string,
    link: UrlMode)

  const Farmacenter: Site := Site("https://www.farmacenter.com.py", "/catalogo?q=", RetryPinned,
    "h2.ecommercepro-loop-product__title", "span.price > span", "img.wp-post-image", ByName)

  const FarmaTotall: Site := Site("https://www.farmatotal.com.py", "/?s=",
    PopupThenRender("woocommerce-multi-inventory-popup-close-icon"),
    "div.content-wrapper > h3 > a", "span.woocommerce-Price-amount.amount > bdi > span",
    "div.thumbnail-wrapper > a > img", ByName)

  const PuntoFarma: Site := Site("https://www.puntofarma.com.py", "/buscar?s=", RetryPlain,
    "a.text-decoration-none > h2", "div.precios-producto > div > span",
    ".align-items-center.mx-auto.card-producto_imagen__EgbD0 > img", ByName)

  const Biggies: Site := Site("https://biggie.com.py", "/search?q=",
    RenderFallback("div.v-card__title.titleCard.pt-1"),
    "div.v-card__title.titleCard.pt-1",
    "div.v-card__text.title.font-weight-medium.pa-0.d-flex.justify-center > span",
    "div.v-image__image.v-image__image--contain", ByName)

  /** The presence check uses a descendant selector, extraction a child
      selector. */
  const Catedral: Site := Site("https://farmaciacatedral.com.py", "/buscador?q=",
    RenderFallback("div.card-producto-texto h2 a"),
    "div.card-producto-texto > h2 > a", "div > div.card-producto-texto > h3", "div > a > img", ByName)

  const Supermas: Site := Site("https://www.supermas.com.py", "/productos?q=", StaticOnly,
    "h2.woocommerce-loop-product__title", "span.price > span.amount", "div.product-list-image > img", ByQuery)

  const CasaRica: Site := Site("https://www.casarica.com.py", "/productos?q=", StaticOnly,
    "h2.ecommercepro-loop-product__title", "span.amount", "div.product-list-image > img", ByName)

  const Stock: Site := Site("https://www.stock.com.py", "/search.aspx?searchterms=", StaticOnly,
    "h2.product-title", "span.price-label", "a.picture-link > img", ByQuery)

  const Salemma: Site := Site("https://www.salemmaonline.com.py", "/buscar?q=", StaticOnly,
    "a.apsubtitle", "h6[class=pprice]", "img.imgprodts", ByName)

  // ---------------------------------------------------------------------
  // Extraction
  // ---------------------------------------------------------------------

  function Min3(a: nat, b: nat, c: nat): (m: nat)
    ensures m <= a && m <= b && m <= c
    ensures m == a || m == b || m == c
  {
    if a <= b && a <= c then a else if b <= c then b else c
  }

  /** Index-aligned combination of three lists, as long as the shortest. */
  function Zip3<A, B, C, R>(xs: seq<A>, ys: seq<B>, zs: seq<C>, f: (A, B, C) -> R): (r: seq<R>)
    ensures |r| == Min3(|xs|, |ys|, |zs|)
    ensures forall i | 0 <= i < |r| :: r[i] == f(xs[i], ys[i], zs[i])
  {
    if xs == [] || ys == [] || zs == [] then []
    else
      var rest := Zip3(xs[1..], ys[1..], zs[1..], f);
      var r := [f(xs[0], ys[0], zs[0])] + rest;
      assert forall i | 1 <= i < |r| :: r[i] == rest[i - 1];
      r
  }

  function RequestUrl(site: Site, enc: string): string {
    site.base + site.path + enc
  }

  /** The `pathWithQuery` handed to `product`. */
  function Link(site: Site, name: string, enc: string): string {
    site.path + (if site.link == ByName then name else enc)
  }

  /** `product(name, parsePrice(price), "GS", resolveImage(img), BASE, ...)`
      for one index of the loop. */
  function SiteProduct(site: Site, env: Env, enc: string, name: string, price: string, img: Element): (p: Product)
    ensures p.name == Some(name) && p.price == ParsePrice(Some(price))
    ensures p.currency == CURRENCY && p.image == ResolveImage(Some(img), env.resolve)
    ensures p.origin == env.hostOf(site.base)
    ensures p.url == site.base + site.path + (if site.link == ByName then name else enc)
  {
    var tail := if site.link == ByName then name else enc;
    var p := MakeProduct(name, ParsePrice(Some(price)), CURRENCY, ResolveImage(Some(img), env.resolve),
                         site.base, Link(site, name, enc), env.hostOf);
    assert p.url == site.base + (site.path + tail);
    p
  }

  /** The loop every HTML scraper ends with: names, prices and images are
      read by index up to the shortest of the three lists. */
  function Extract(site: Site, doc: Document, enc: string, env: Env): seq<Product> {
    Zip3(Texts(Select(doc, site.names)), Texts(Select(doc, site.prices)), Select(doc, site.images),
      (n: string, p: string, img: Element) => SiteProduct(site, env, enc, n, p, img))
  }

  /** Product i is built from the i-th name, price and image; there are as
      many products as the shortest list has elements. */
  lemma ExtractContract(site: Site, doc: Document, enc: string, env: Env)
    ensures var ns, ps, ims := Select(doc, site.names), Select(doc, site.prices), Select(doc, site.images);
      var out := Extract(site, doc, enc, env);
      && |out| == Min3(|ns|, |ps|, |ims|)
      && forall i | 0 <= i < |out| :: out[i] == SiteProduct(site, env, enc, ns[i].text, ps[i].text, ims[i])
  {
  }

  // ---------------------------------------------------------------------
  // Getting the document
  // ---------------------------------------------------------------------

  function Fail<T>(calls: seq<Call>, c: Call): Run<T> {
    Run(calls, Failure(FetchFailed(c)))
  }

  /** Prefixes earlier requests to a run. */
  function After<T>(first: seq<Call>, r: Run<T>): Run<T> {
    Run(first + r.calls, r.result)
  }

  function RenderPage(env: Env, url: string, waitFor: string): Run<Document> {
    var c := Rendered(url, waitFor, RENDER_WAIT);
    match env.render(url, waitFor, RENDER_WAIT)
    case None => Fail([c], c)
    case Some(d) => Run([c], Success(d))
  }

  function StaticPage(env: Env, url: string): Run<Document> {
    match env.fetch(url)
    case Fetched(d) => Run([Static(url)], Success(d))
    case _ => Fail([Static(url)], Static(url))
  }

  function PlainRetryPage(env: Env, url: string): Run<Document> {
    match env.fetch(url)
    case Fetched(d) => Run([Static(url)], Success(d))
    case OtherError => Fail([Static(url)], Static(url))
    case TlsError =>
      var calls := [Static(url), PlainRetry(url)];
      match env.plain(url)
      case Fetched(d) => Run(calls, Success(d))
      case _ => Fail(calls, PlainRetry(url))
  }

  /** The trust material is built only once a TLS error has happened, and
      its failure is the scrape's failure. */
  function PinnedRetryPage(env: Env, url: string): Run<Document> {
    match env.fetch(url)
    case Fetched(d) => Run([Static(url)], Success(d))
    case OtherError => Fail([Static(url)], Static(url))
    case TlsError =>
      match TrustMaterial(env.pemResource, env.decodes)
      case Failure(e) => Run([Static(url)], Failure(TrustFailed(e)))
      case Success(entries) =>
        var calls := [Static(url), PinnedRetry(url)];
        match env.pinned(url, entries)
        case Fetched(d) => Run(calls, Success(d))
        case _ => Fail(calls, PinnedRetry(url))
  }

  /** A TLS error is swallowed (the document becomes null); a null document
      or one where `waitFor` selects nothing is replaced by a rendered one. */
  function RenderFallbackPage(env: Env, url: string, waitFor: string): Run<Document> {
    match env.fetch(url)
    case OtherError => Fail([Static(url)], Static(url))
    case TlsError => After([Static(url)], RenderPage(env, url, waitFor))
    case Fetched(d) =>
      if Select(d, waitFor) != [] then Run([Static(url)], Success(d))
      else After([Static(url)], RenderPage(env, url, waitFor))
  }

  /** `doc.getAllElements().forEach(Node::remove)`. The list starts with
      the document node itself, which has no parent: a library whose
      `Node.remove` rejects that throws at once. Otherwise every element
      is detached, the root's children included, and no selector finds
      anything on what is left. */
  function RemoveAll(env: Env, d: Document): (r: Result<Document, ScrapeError>)
    ensures r.Failure? <==> env.rootRemovalThrows
    ensures r.Failure? ==> r.error == RemovalFailed
    ensures r.Success? ==> forall css :: Select(r.value, css) == []
  {
    if env.rootRemovalThrows then Failure(RemovalFailed) else Success(Document(map[]))
  }

  /** A rendered document with the element removal applied. */
  function Cleared(env: Env, r: Run<Document>): Run<Document> {
    match r.result
    case Success(d) => Run(r.calls, RemoveAll(env, d))
    case Failure(_) => r
  }

  /** The second check: a document where the name selector finds nothing
      is replaced by one rendered while waiting for that selector. */
  function UntilNames(env: Env, url: string, names: string, r: Run<Document>): Run<Document> {
    match r.result
    case Failure(_) => r
    case Success(d) =>
      if Select(d, names) != [] then r else After(r.calls, RenderPage(env, url, names))
  }

  function PopupPage(env: Env, url: string, popup: string, names: string): Run<Document> {
    match env.fetch(url)
    case OtherError => Fail([Static(url)], Static(url))
    case TlsError =>
      UntilNames(env, url, names, After([Static(url)], Cleared(env, RenderPage(env, url, popup))))
    case Fetched(d) =>
      if Select(d, popup) != [] then UntilNames(env, url, names, Run([Static(url)], Success(d)))
      else UntilNames(env, url, names, After([Static(url)], Cleared(env, RenderPage(env, url, popup))))
  }

  function Acquire(site: Site, env: Env, url: string): Run<Document> {
    match site.strategy
    case StaticOnly => StaticPage(env, url)
    case RetryPlain => PlainRetryPage(env, url)
    case RetryPinned => PinnedRetryPage(env, url)
    case RenderFallback(w) => RenderFallbackPage(env, url, w)
    case PopupThenRender(p) => PopupPage(env, url, p, site.names)
  }

  /** `scrape(encodedQuery)` of an HTML scraper. */
  function Scrape(site: Site, env: Env, enc: string): Run<seq<Product>> {
    var page := Acquire(site, env, RequestUrl(site, enc));
    match page.result
    case Success(d) => Run(page.calls, Success(Extract(site, d, enc, env)))
    case Failure(e) => Run(page.calls, Failure(e))
  }

  // ---------------------------------------------------------------------
  // Contracts of the generic scrape
  // ---------------------------------------------------------------------

  /** Every request a scrape makes is for BASE + PATH + encodedQuery, the
      first being the static fetch, and every rendered fetch waits 15 s. */
  lemma ScrapeRequests(site: Site, env: Env, enc: string)
    ensures var r := Scrape(site, env, enc);
      && 1 <= |r.calls| <= 3
      && r.calls[0] == Static(RequestUrl(site, enc))
      && (forall i | 0 <= i < |r.calls| :: CallUrl(r.calls[i]) == RequestUrl(site, enc))
      && (forall i | 0 <= i < |r.calls| :: r.calls[i].Rendered? ==> r.calls[i].seconds == RENDER_WAIT)
  {
    match site.strategy
    case StaticOnly => StaticOnlyContract(site, env, enc);
    case RetryPlain => RetryPlainContract(site, env, enc);
    case RetryPinned => RetryPinnedContract(site, env, enc);
    case RenderFallback(_) => RenderFallbackContract(site, env, enc);
    case PopupThenRender(_) => PopupContract(site, env, enc);
  }

  /** Whatever document a scrape ends with, its products carry the "GS"
      label, the host of BASE as origin and the link BASE + PATH + name (or
      + encodedQuery for sites that link to the search). */
  lemma ScrapeProducts(site: Site, env: Env, enc: string)
    ensures var r := Scrape(site, env, enc);
      r.result.Success? ==> forall p | p in r.result.value ::
        && p.name.Some?
        && p.currency == CURRENCY
        && p.origin == env.hostOf(site.base)
        && p.url == site.base + site.path + (if site.link == ByName then p.name.value else enc)
  {
    var page := Acquire(site, env, RequestUrl(site, enc));
    if page.result.Success? {
      ExtractContract(site, page.result.value, enc, env);
    }
  }

  /** One static fetch; any error of it is the scrape's error. */
  lemma StaticOnlyContract(site: Site, env: Env, enc: string)
    requires site.strategy == StaticOnly
    ensures var url := RequestUrl(site, enc);
      var r, first := Scrape(site, env, enc), env.fetch(url);
      && r.calls == [Static(url)]
      && (first.Fetched? ==> r.result == Success(Extract(site, first.doc, enc, env)))
      && (!first.Fetched? ==> r.result == Failure(FetchFailed(Static(url))))
  {
  }

  /** Only a TLS error of the static fetch leads to the one plain retry of
      the same URL; any other error, or an error of the retry, is final. */
  lemma RetryPlainContract(site: Site, env: Env, enc: string)
    requires site.strategy == RetryPlain
    ensures var url := RequestUrl(site, enc);
      var r, first, retry := Scrape(site, env, enc), env.fetch(url), env.plain(url);
      && r.calls == (if first.TlsError? then [Static(url), PlainRetry(url)] else [Static(url)])
      && (first.Fetched? ==> r.result == Success(Extract(site, first.doc, enc, env)))
      && (first.OtherError? ==> r.result == Failure(FetchFailed(Static(url))))
      && (first.TlsError? && retry.Fetched? ==> r.result == Success(Extract(site, retry.doc, enc, env)))
      && (first.TlsError? && !retry.Fetched? ==> r.result == Failure(FetchFailed(PlainRetry(url))))
  {
  }

  /** Only a TLS error of the static fetch leads to the retry with the
      bundled trust material; a bundle that cannot be loaded, any other
      error, or an error of the retry, is final. */
  lemma RetryPinnedContract(site: Site, env: Env, enc: string)
    requires site.strategy == RetryPinned
    ensures var url := RequestUrl(site, enc);
      var r, first, trust := Scrape(site, env, enc), env.fetch(url), TrustMaterial(env.pemResource, env.decodes);
      && r.calls == (if first.TlsError? && trust.Success? then [Static(url), PinnedRetry(url)] else [Static(url)])
      && (first.Fetched? ==> r.result == Success(Extract(site, first.doc, enc, env)))
      && (first.OtherError? ==> r.result == Failure(FetchFailed(Static(url))))
      && (first.TlsError? && trust.Failure? ==> r.result == Failure(TrustFailed(trust.error)))
      && (first.TlsError? && trust.Success? ==>
            var retry := env.pinned(url, trust.value);
            && (retry.Fetched? ==> r.result == Success(Extract(site, retry.doc, enc, env)))
            && (!retry.Fetched? ==> r.result == Failure(FetchFailed(PinnedRetry(url)))))
  {
  }

  /** A rendered fetch waiting for `waitFor` happens exactly when the static
      fetch hit a TLS error or returned a page where `waitFor` selects
      nothing; any other fetch error is final. */
  lemma RenderFallbackContract(site: Site, env: Env, enc: string)
    requires site.strategy.RenderFallback?
    ensures var url, w := RequestUrl(site, enc), site.strategy.waitFor;
      var r, first, shown := Scrape(site, env, enc), env.fetch(url), env.render(url, w, RENDER_WAIT);
      var rendered := first.TlsError? || (first.Fetched? && Select(first.doc, w) == []);
      && r.calls == [Static(url)] + (if rendered then [Rendered(url, w, RENDER_WAIT)] else [])
      && (first.OtherError? ==> r.result == Failure(FetchFailed(Static(url))))
      && (first.Fetched? && !rendered ==> r.result == Success(Extract(site, first.doc, enc, env)))
      && (rendered && shown.Some? ==> r.result == Success(Extract(site, shown.value, enc, env)))
      && (rendered && shown.None? ==> r.result == Failure(FetchFailed(Rendered(url, w, RENDER_WAIT))))
  {
  }

  /** Two checks in a row. A static page without the popup (or a TLS
      error) is replaced by a page rendered while waiting for the popup,
      whose elements are then all removed. That removal either throws or
      leaves a page with no product name, so products are never read from
      the popup page: the name render follows it, or the scrape fails. A
      static page showing the popup is kept, and is followed by the name
      render only when it has no product name. Any other error of the
      static fetch, and any error of a rendered fetch, is final. */
  lemma PopupContract(site: Site, env: Env, enc: string)
    requires site.strategy.PopupThenRender?
    ensures var url, p, n := RequestUrl(site, enc), site.strategy.popup, site.names;
      var r, first := Scrape(site, env, enc), env.fetch(url);
      var shown, named := env.render(url, p, RENDER_WAIT), env.render(url, n, RENDER_WAIT);
      var firstRender := first.TlsError? || (first.Fetched? && Select(first.doc, p) == []);
      var kept := first.Fetched? && !firstRender;
      var afterNames := if named.Some? then Success(Extract(site, named.value, enc, env))
                        else Failure(FetchFailed(Rendered(url, n, RENDER_WAIT)));
      && (first.OtherError? ==> r == Run([Static(url)], Failure(FetchFailed(Static(url)))))
      && (firstRender && shown.None? ==>
            r == Run([Static(url), Rendered(url, p, RENDER_WAIT)], Failure(FetchFailed(Rendered(url, p, RENDER_WAIT)))))
      && (firstRender && shown.Some? && env.rootRemovalThrows ==>
            r == Run([Static(url), Rendered(url, p, RENDER_WAIT)], Failure(RemovalFailed)))
      && (firstRender && shown.Some? && !env.rootRemovalThrows ==>
            r == Run([Static(url), Rendered(url, p, RENDER_WAIT), Rendered(url, n, RENDER_WAIT)], afterNames))
      && (kept && Select(first.doc, n) != [] ==>
            r == Run([Static(url)], Success(Extract(site, first.doc, enc, env))))
      && (kept && Select(first.doc, n) == [] ==>
            r == Run([Static(url), Rendered(url, n, RENDER_WAIT)], afterNames))
      && (r.result.Success? ==>
            || (kept && r.result.value == Extract(site, first.doc, enc, env))
            || (named.Some? && r.result.value == Extract(site, named.value, enc, env)))
  {
  }
}
