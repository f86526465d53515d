/** `SearchProductsController.listStudent`: validates the query, answers
    from a per-query cache while its entry is younger than five minutes, and
    otherwise runs every scraper, ranks their merged products and stores the
    ranked list. The two clock reads are parameters: `now` when the cache is
    consulted and `storedAt` when the new entry is written. */
module Search {
  import opened Wrappers
  import opened Text
  import opened Products
  import opened Fetching
  import opened Ranking
  import opened Scrapers

  /** Five minutes, in milliseconds. */
  const CACHE_TTL_MS: int := 5 * 60 * 1000

  /** The message shown for a missing or blank query. */
  const BLANK_MESSAGE: string := "Ingresa un término de búsqueda."

  datatype CacheEntry = CacheEntry(data: seq<Product>, timestamp: int)

  type Cache = map<string, CacheEntry>

  /** What the request leaves behind: the products and error message put in
      the page model, the encoded query the scrapers were run with (`None`
      when no scraper ran), and the cache afterwards. */
  datatype Outcome = Outcome(
    products: seq<Product>,
    errorMessage: Option<string>,
    scrapedWith: Option<string>,
    cache: Cache)

  /** A request with no search text, or one that trims to nothing. */
  predicate Blank(search: Option<string>) {
    search.None? || Trim(search.value) == []
  }

  /** `rawQuery.toLowerCase()` of the trimmed query. */
  function CacheKey(search: string): (k: string)
    ensures |k| == |Trim(search)|
  {
    Lower(Trim(search))
  }

  /** The entry is younger than the TTL at `now` (strictly). */
  predicate Fresh(e: CacheEntry, now: int) {
    now - e.timestamp < CACHE_TTL_MS
  }

  /** The request. `search` is `None` for a null request or null text;
      `encode` is `URLEncoder.encode(_, UTF_8)`; `late` holds the scrapers
      whose result was not ready within the wait. */
  function ListProducts(cache: Cache, search: Option<string>, now: int, storedAt: int,
                        encode: string -> string, scrapers: seq<Scraper>, env: Env,
                        late: set<nat>): (o: Outcome)
    ensures o.errorMessage.Some? <==> Blank(search)
    ensures o.scrapedWith.None? ==> o.cache == cache
    ensures o.scrapedWith.Some? ==> search.Some? && o.cache.Keys == cache.Keys + {CacheKey(search.value)}
  {
    if Blank(search) then Outcome([], Some(BLANK_MESSAGE), None, cache)
    else
      var raw := Trim(search.value);
      var key := Lower(raw);
      if key in cache && Fresh(cache[key], now) then Outcome(cache[key].data, None, None, cache)
      else
        var enc := encode(raw);
        var ranked := Rank(raw, Merge(Gather(scrapers, env, enc, late)));
        Outcome(ranked, None, Some(enc), cache[key := CacheEntry(ranked, storedAt)])
  }

  // ---------------------------------------------------------------------
  // Contracts
  // ---------------------------------------------------------------------

  /** A missing or blank query yields no products and the validation
      message; no scraper runs and the cache is neither read nor written. */
  lemma BlankRejected(cache: Cache, search: Option<string>, now: int, storedAt: int,
                      encode: string -> string, scrapers: seq<Scraper>, env: Env, late: set<nat>)
    requires Blank(search)
    ensures ListProducts(cache, search, now, storedAt, encode, scrapers, env, late)
      == Outcome([], Some(BLANK_MESSAGE), None, cache)
  {
  }

  /** Queries that differ only in surrounding whitespace or in the case of
      ASCII letters share one cache entry, and only those do. */
  lemma CacheKeyShared(a: string, b: string)
    ensures CacheKey(a) == CacheKey(b) <==> SameIgnoringCase(Trim(a), Trim(b))
  {
    LowerEqualIffSameIgnoringCase(Trim(a), Trim(b));
  }

  /** Surrounding whitespace and control characters do not change the key. */
  lemma CacheKeyIgnoresPadding(pre: string, s: string, post: string)
    requires AllTrimmable(pre) && AllTrimmable(post)
    ensures CacheKey(pre + s + post) == CacheKey(s)
  {
    TrimIgnoresPadding(pre, s, post);
  }

  /** For a real query, the scrapers are skipped exactly when the entry for
      its key exists and is fresh; then the stored list is returned and
      nothing changes. */
  lemma HitIffFresh(cache: Cache, q: string, now: int, storedAt: int,
                    encode: string -> string, scrapers: seq<Scraper>, env: Env, late: set<nat>)
    requires !Blank(Some(q))
    ensures var o, key := ListProducts(cache, Some(q), now, storedAt, encode, scrapers, env, late), CacheKey(q);
      && (o.scrapedWith.None? <==> key in cache && now - cache[key].timestamp < CACHE_TTL_MS)
      && (o.scrapedWith.None? ==> o.products == cache[key].data && o.cache == cache)
  {
  }

  /** On a miss the scrapers run with the encoded trimmed query, and the
      ranked list replaces the entry for this key, stamped `storedAt`; every
      other key keeps its entry. */
  lemma MissStores(cache: Cache, q: string, now: int, storedAt: int,
                   encode: string -> string, scrapers: seq<Scraper>, env: Env, late: set<nat>)
    requires !Blank(Some(q))
    requires var key := CacheKey(q); !(key in cache && Fresh(cache[key], now))
    ensures var o, key := ListProducts(cache, Some(q), now, storedAt, encode, scrapers, env, late), CacheKey(q);
      && o.scrapedWith == Some(encode(Trim(q)))
      && key in o.cache && o.cache[key] == CacheEntry(o.products, storedAt)
      && (forall k | k != key :: (k in o.cache <==> k in cache) && (k in cache ==> o.cache[k] == cache[k]))
  {
  }

  /** On a miss the list holds every merged copy of every product whose
      name contains the trimmed query and nothing else, each from a scraper
      that succeeded in time; it is sorted by price then folded name, and
      the products of each tie keep their merged order. */
  lemma MissRanks(cache: Cache, q: string, now: int, storedAt: int,
                  encode: string -> string, scrapers: seq<Scraper>, env: Env, late: set<nat>)
    requires !Blank(Some(q))
    requires var key := CacheKey(q); !(key in cache && Fresh(cache[key], now))
    ensures var o := ListProducts(cache, Some(q), now, storedAt, encode, scrapers, env, late);
      var raw := Trim(q);
      var merged := Merge(Gather(scrapers, env, encode(raw), late));
      && Sorted(o.products)
      && |o.products| <= |merged|
      && multiset(o.products) == multiset(Filter(merged, raw))
      && (forall x :: multiset(o.products)[x] ==
            if x.name.Some? && ContainsIgnoringCase(x.name.value, raw) then multiset(merged)[x] else 0)
      && (forall p :: Class(o.products, p) == Filter(Class(merged, p), raw))
      && (forall p | p in o.products :: p.name.Some? && ContainsIgnoringCase(p.name.value, raw))
      && (forall p | p in o.products :: exists i | 0 <= i < |scrapers| ::
            && i !in late
            && ScrapeWith(scrapers[i], env, encode(raw)).result.Success?
            && p in ScrapeWith(scrapers[i], env, encode(raw)).result.value)
  {
    var raw := Trim(q);
    var enc := encode(raw);
    var merged := Merge(Gather(scrapers, env, enc, late));
    RankSpec(raw, merged);
    forall p | p in Rank(raw, merged)
      ensures exists i | 0 <= i < |scrapers| ::
        && i !in late
        && ScrapeWith(scrapers[i], env, enc).result.Success?
        && p in ScrapeWith(scrapers[i], env, enc).result.value
    {
      MergedFromSucceeded(scrapers, env, enc, late, p);
    }
  }
}
