/** What each HTML scraper class promises, stated for its own descriptor. */
module SiteContracts {
  import opened Wrappers
  import opened Products
  import opened Pem
  import opened Fetching
  import opened Sites

  /** Farmacenter: only a TLS error (with loadable trust material) causes a
      second request; products link to BASE + PATH + name. */
  lemma FarmacenterScrape(env: Env, enc: string)
    ensures var url, r := RequestUrl(Farmacenter, enc), Scrape(Farmacenter, env, enc);
      && r.calls[0] == Static(url)
      && (|r.calls| > 1 <==> env.fetch(url).TlsError? && TrustMaterial(env.pemResource, env.decodes).Success?)
      && (r.result.Success? ==> forall p | p in r.result.value ::
            p.currency == "GS" && p.name.Some? && p.url == Farmacenter.base + Farmacenter.path + p.name.value)
  {
    RetryPinnedContract(Farmacenter, env, enc);
    ScrapeProducts(Farmacenter, env, enc);
  }

  /** FarmaTotall: a static page is kept only when it shows the popup and
      no TLS error occurred; the popup page is never read, since the
      element removal empties it or throws, so a popup render is always
      followed by the name render unless the scrape fails; products link
      to BASE + PATH + name. */
  lemma FarmaTotallScrape(env: Env, enc: string)
    ensures var url, r := RequestUrl(FarmaTotall, enc), Scrape(FarmaTotall, env, enc);
      var popup := "woocommerce-multi-inventory-popup-close-icon";
      var first := env.fetch(url);
      && |r.calls| > 0 && r.calls[0] == Static(url)
      && (first.TlsError? || (first.Fetched? && Select(first.doc, popup) == []) ==>
            && |r.calls| >= 2 && r.calls[1] == Rendered(url, popup, RENDER_WAIT)
            && (r.result.Failure? || (|r.calls| == 3 && r.calls[2] == Rendered(url, FarmaTotall.names, RENDER_WAIT))))
      && (r.result.Success? ==> forall p | p in r.result.value ::
            p.currency == "GS" && p.name.Some? && p.url == FarmaTotall.base + FarmaTotall.path + p.name.value)
  {
    PopupContract(FarmaTotall, env, enc);
    ScrapeProducts(FarmaTotall, env, enc);
  }

  /** PuntoFarma: a TLS error leads to exactly one plain retry of the same
      URL, nothing else does; products link to BASE + PATH + name. */
  lemma PuntoFarmaScrape(env: Env, enc: string)
    ensures var url, r := RequestUrl(PuntoFarma, enc), Scrape(PuntoFarma, env, enc);
      && r.calls == (if env.fetch(url).TlsError? then [Static(url), PlainRetry(url)] else [Static(url)])
      && (r.result.Success? ==> forall p | p in r.result.value ::
            p.currency == "GS" && p.name.Some? && p.url == PuntoFarma.base + PuntoFarma.path + p.name.value)
  {
    RetryPlainContract(PuntoFarma, env, enc);
    ScrapeProducts(PuntoFarma, env, enc);
  }

  /** Biggies: the rendered fetch waits for the very selector the names are
      read with; products link to BASE + PATH + name. */
  lemma BiggiesScrape(env: Env, enc: string)
    ensures var url, r := RequestUrl(Biggies, enc), Scrape(Biggies, env, enc);
      var first := env.fetch(url);
      var rendered := first.TlsError? || (first.Fetched? && Select(first.doc, Biggies.names) == []);
      && r.calls == [Static(url)] + (if rendered then [Rendered(url, Biggies.names, RENDER_WAIT)] else [])
      && (r.result.Success? ==> forall p | p in r.result.value ::
            p.currency == "GS" && p.name.Some? && p.url == Biggies.base + Biggies.path + p.name.value)
  {
    RenderFallbackContract(Biggies, env, enc);
    ScrapeProducts(Biggies, env, enc);
  }

  /** Farmacia Catedral: the rendered fetch depends on the descendant
      selector; products link to BASE + PATH + name. */
  lemma CatedralScrape(env: Env, enc: string)
    ensures var url, r := RequestUrl(Catedral, enc), Scrape(Catedral, env, enc);
      var first := env.fetch(url);
      var check := "div.card-producto-texto h2 a";
      var rendered := first.TlsError? || (first.Fetched? && Select(first.doc, check) == []);
      && r.calls == [Static(url)] + (if rendered then [Rendered(url, check, RENDER_WAIT)] else [])
      && (r.result.Success? ==> forall p | p in r.result.value ::
            p.currency == "GS" && p.name.Some? && p.url == Catedral.base + Catedral.path + p.name.value)
  {
    RenderFallbackContract(Catedral, env, enc);
    ScrapeProducts(Catedral, env, enc);
  }

  /** Passing Catedral's presence check does not give a name to extract: a
      static page where only the descendant selector finds an element is
      kept without rendering and yields no product. */
  lemma CatedralCheckMissesNames(env: Env, enc: string, el: Element)
    requires env.fetch(RequestUrl(Catedral, enc)) ==
      Fetched(Document(map["div.card-producto-texto h2 a" := [el]]))
    ensures Scrape(Catedral, env, enc) == Run([Static(RequestUrl(Catedral, enc))], Success([]))
  {
    RenderFallbackContract(Catedral, env, enc);
    var d := Document(map["div.card-producto-texto h2 a" := [el]]);
    assert Catedral.names != "div.card-producto-texto h2 a" by {
      assert |Catedral.names| != |"div.card-producto-texto h2 a"|;
    }
    assert Select(d, Catedral.names) == [];
    ExtractContract(Catedral, d, enc, env);
  }

  /** Supermas: one static fetch, no fallback; every product links to the
      search, BASE + PATH + encodedQuery. */
  lemma SupermasScrape(env: Env, enc: string)
    ensures var url, r := RequestUrl(Supermas, enc), Scrape(Supermas, env, enc);
      && r.calls == [Static(url)]
      && (r.result.Success? <==> env.fetch(url).Fetched?)
      && (r.result.Success? ==> forall p | p in r.result.value ::
            p.currency == "GS" && p.name.Some? && p.url == url)
  {
    StaticOnlyContract(Supermas, env, enc);
    ScrapeProducts(Supermas, env, enc);
  }

  /** Casa Rica: one static fetch, no fallback; products link to BASE +
      PATH + name. */
  lemma CasaRicaScrape(env: Env, enc: string)
    ensures var url, r := RequestUrl(CasaRica, enc), Scrape(CasaRica, env, enc);
      && r.calls == [Static(url)]
      && (r.result.Success? <==> env.fetch(url).Fetched?)
      && (r.result.Success? ==> forall p | p in r.result.value ::
            p.currency == "GS" && p.name.Some? && p.url == CasaRica.base + CasaRica.path + p.name.value)
  {
    StaticOnlyContract(CasaRica, env, enc);
    ScrapeProducts(CasaRica, env, enc);
  }

  /** Stock: one static fetch, no fallback; every product links to the
      search, BASE + PATH + encodedQuery. */
  lemma StockScrape(env: Env, enc: string)
    ensures var url, r := RequestUrl(Stock, enc), Scrape(Stock, env, enc);
      && r.calls == [Static(url)]
      && (r.result.Success? <==> env.fetch(url).Fetched?)
      && (r.result.Success? ==> forall p | p in r.result.value ::
            p.currency == "GS" && p.name.Some? && p.url == url)
  {
    StaticOnlyContract(Stock, env, enc);
    ScrapeProducts(Stock, env, enc);
  }

  /** Salemma: one static fetch, no fallback; products link to BASE + PATH
      + name. */
  lemma SalemmaScrape(env: Env, enc: string)
    ensures var url, r := RequestUrl(Salemma, enc), Scrape(Salemma, env, enc);
      && r.calls == [Static(url)]
      && (r.result.Success? <==> env.fetch(url).Fetched?)
      && (r.result.Success? ==> forall p | p in r.result.value ::
            p.currency == "GS" && p.name.Some? && p.url == Salemma.base + Salemma.path + p.name.value)
  {
    StaticOnlyContract(Salemma, env, enc);
    ScrapeProducts(Salemma, env, enc);
  }
}
