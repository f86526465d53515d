/** The scrapers the controller runs, and what it collects from them: one
    list per scraper, or nothing when the scraper threw or its future was
    not done within the 12-second wait. */
module Scrapers {
  import opened Wrappers
  import opened Products
  import opened Fetching
  import opened Sites
  import opened EmbeddedJson
  import opened Ranking

  /** A `ProductScraper` bean: one of the HTML scrapers, or the Real one. */
  datatype Scraper = Html(site: Site) | RealSupermarket

  /** `scraper.scrape(encodedQuery)`. */
  function ScrapeWith(s: Scraper, env: Env, enc: string): Run<seq<Product>> {
    match s
    case Html(site) => Scrape(site, env, enc)
    case RealSupermarket => ScrapeReal(env, enc)
  }

  /** The ten scrapers of the application. The order in which they are
      injected is not fixed by the source; this is one possible order. */
  const ALL: seq<Scraper> := [
    Html(Farmacenter), Html(FarmaTotall), Html(PuntoFarma), Html(Biggies), Html(Catedral),
    Html(Supermas), Html(CasaRica), Html(Stock), Html(Salemma), RealSupermarket]

  /** What `f.get(12, SECONDS)` yields for scraper `i`: its list, or nothing
      when it threw (caught inside its asynchronous job) or is among the `late` ones. */
  function Collected(s: Scraper, env: Env, enc: string, late: bool): (o: Option<seq<Product>>)
    ensures o.Some? <==> !late && ScrapeWith(s, env, enc).result.Success?
    ensures o.Some? ==> o.value == ScrapeWith(s, env, enc).result.value
  {
    if late then None else ScrapeWith(s, env, enc).result.ToOption()
  }

  /** One entry per scraper, in scraper order. */
  function Gather(scrapers: seq<Scraper>, env: Env, enc: string, late: set<nat>): (rs: seq<Option<seq<Product>>>)
    ensures |rs| == |scrapers|
    ensures forall i | 0 <= i < |rs| :: rs[i] == Collected(scrapers[i], env, enc, i in late)
  {
    seq(|scrapers|, i requires 0 <= i < |scrapers| => Collected(scrapers[i], env, enc, i in late))
  }

  /** A scraper that misses its wait removes exactly its own products from
      the merged list; every other scraper's products stay, in order. */
  lemma LateScraperDropped(scrapers: seq<Scraper>, env: Env, enc: string, late: set<nat>, i: nat)
    requires i < |scrapers|
    ensures var rs := Gather(scrapers, env, enc, late);
      && Merge(rs) == Merge(rs[..i]) + Contribution(rs[i]) + Merge(rs[i + 1..])
      && Merge(Gather(scrapers, env, enc, late + {i})) == Merge(rs[..i]) + Merge(rs[i + 1..])
  {
    var rs := Gather(scrapers, env, enc, late);
    var rs' := Gather(scrapers, env, enc, late + {i});
    assert rs' == rs[i := None];
    MergeSplit(rs, i);
  }

  /** Every product in the merged list was produced by a scraper that
      neither failed nor missed its wait. */
  lemma MergedFromSucceeded(scrapers: seq<Scraper>, env: Env, enc: string, late: set<nat>, p: Product)
    requires p in Merge(Gather(scrapers, env, enc, late))
    ensures exists i | 0 <= i < |scrapers| ::
      && i !in late
      && ScrapeWith(scrapers[i], env, enc).result.Success?
      && p in ScrapeWith(scrapers[i], env, enc).result.value
  {
    var rs := Gather(scrapers, env, enc, late);
    MergeMembers(rs, p);
    var i :| 0 <= i < |rs| && p in Contribution(rs[i]);
    var o := Collected(scrapers[i], env, enc, i in late);
    assert rs[i] == o;
  }
}
