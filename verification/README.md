# mercado — a verified model of the price-comparison core

`mercado` is a Spring web application that searches ten Paraguayan
supermarket and pharmacy sites for a product name. It shows the matching
products sorted by price. A request goes through these steps:

1. The controller (`SearchProductsController.listStudent`) rejects a blank
   query.
2. It answers from a five-minute per-query cache when it can.
3. Otherwise it runs every scraper, concatenates their lists and keeps the
   products whose name contains the query. ASCII letters are compared
   without case.
4. It sorts the kept products stably by price, then by name without case,
   and stores the result in the cache.

Nine scrapers read HTML pages through CSS selectors and zip three selector
lists into products. They differ in URL, selectors and fallback strategy:

- a plain static fetch;
- a retry after a TLS handshake error, either with a plain connection or
  with trust material read from a bundled PEM file;
- a headless-browser rendering when the static page lacks the expected
  elements.

The tenth scraper (`RealScraper`) pulls name/price/photo triples out of JSON
embedded in `<script>` elements, using a regular expression.

The Dafny modules follow that structure:

| module | file | what it holds |
|---|---|---|
| `Wrappers` | wrappers.dfy | `Option` and `Result` |
| `Text` | text.dfy | `String.trim`, ASCII case folding, `indexOf`, case-insensitive literal search, `replace`, decimal digits |
| `Products` | products.dfy | `ProductsDto`, the abstract page (`Element`, `Document`), `BaseJsoupScraper.product` |
| `Prices` | prices.dfy | `BaseJsoupScraper.parsePrice` |
| `Images` | images.dfy | `BaseJsoupScraper.resolveImage` |
| `Pem` | pem.dfy | the PEM block scan of `FarmacenterScraper.getFarmacenterSslFactory` |
| `Fetching` | fetching.dfy | fetch outcomes, the request trace `Run`, the environment `Env` |
| `Sites` | sites.dfy | one descriptor per HTML scraper, the generic fetch-then-zip scrape, one contract per fallback strategy |
| `SiteContracts` | site_contracts.dfy | what each HTML scraper class promises |
| `EmbeddedJson` | embedded_json.dfy | `RealScraper`: unescaping, the `TRIPLET` expression as a token list with a greedy matcher, the match loop |
| `Ranking` | ranking.dfy | merge, filter, stable sort |
| `Scrapers` | scrapers.dfy | the ten scrapers and what the controller collects from them |
| `Search` | search.dfy | `listStudent`: validation, cache key, TTL, cache update |

Everything outside the program's own logic is a parameter:

- The network, the browser and certificate parsing are functions in `Env`:
  - `fetch`, `plain` and `pinned` return a `FetchOutcome`
    (`Fetched(doc) | TlsError | OtherError`);
  - `render` stands for the headless browser;
  - `decodes` says whether `generateCertificate` accepts a block.
- CSS selection is a map from selector to elements.
- `URLEncoder.encode` and `new URL(base).getHost()` are functions. `absUrl`
  is a function of two arguments: the element's `baseUri()`, which each
  element carries, and the attribute value.
- The clock is passed as two explicit times: `now` when the cache is read
  and `storedAt` when it is written.
- Thread-pool timeouts are a set `late` of scraper positions whose results
  are not ready in time.

The PEM scan is written twice and the two are proved equal:

- `Pem.ReadBundle` is a method with the same loop as the Java code;
- `Pem.BundleEntries` is the reference definition.

Both are stated for any pair of non-empty markers, so the proof does not
depend on the marker text; `Pem.CERT` instantiates them with the certificate
markers. Likewise, `EmbeddedJson.MatchFrom` is a greedy matcher for the
`TRIPLET` expression. It is proved to agree exactly with the expression's
declarative meaning `EmbeddedJson.Sem`.

## Model

| member | source | states |
|---|---|---|
| Text.FoldAscii | src/main/java/com/example/mercado/controller/SearchProductsController.java:77 | upper-case ASCII letters map to their lower-case letter (code + 32), every other character is unchanged, and no result is an upper-case ASCII letter |
| Text.Lower | src/main/java/com/example/mercado/controller/SearchProductsController.java:77 | the lower-cased string equals the input ignoring ASCII case and holds no upper-case ASCII letter, which determines it uniquely |
| Text.LowerEqualIffSameIgnoringCase | src/main/java/com/example/mercado/controller/SearchProductsController.java:77 | two strings have the same lower-cased form exactly when they are equal ignoring ASCII case |
| Text.TrimCharacterization | src/main/java/com/example/mercado/controller/SearchProductsController.java:73 | `trim` returns the slice that drops only characters ≤ U+0020 on both sides and starts and ends with a character above U+0020 |
| Text.TrimEmptyIffBlank | src/main/java/com/example/mercado/controller/SearchProductsController.java:66 | a string trims to empty exactly when all its characters are ≤ U+0020 |
| Text.TrimIgnoresPadding | src/main/java/com/example/mercado/controller/SearchProductsController.java:73 | padding a string with whitespace or control characters on either side does not change its trimmed form |
| Text.IndexOf | src/main/java/com/example/mercado/scraper/FarmacenterScraper.java:98-100 | `indexOf` returns -1 or a position at or after `from` where the pattern occurs |
| Text.IndexOfFirst | src/main/java/com/example/mercado/scraper/FarmacenterScraper.java:98-100 | the position found is the leftmost occurrence at or after `from`, and -1 means there is none |
| Text.FindIgnoringCase | src/main/java/com/example/mercado/controller/SearchProductsController.java:113-115 | `Matcher.find` on the quoted query with CASE_INSENSITIVE returns the leftmost position where the query occurs ignoring ASCII case, and none when there is no such position |
| Text.FindIffContains | src/main/java/com/example/mercado/controller/SearchProductsController.java:113-115 | the search succeeds exactly when the name contains the query as a literal substring, ignoring ASCII case |
| Text.ReplaceAll | src/main/java/com/example/mercado/scraper/RealScraper.java:33-37 | replacing a target with a replacement that is no longer never lengthens the text; ReplaceAllHead and ReplaceAllSkip together determine the result for every text |
| Text.ReplaceAllHead | src/main/java/com/example/mercado/scraper/RealScraper.java:34-37 | an occurrence of the target at the front is replaced and the scan resumes right after it |
| Text.ReplaceAllSkip | src/main/java/com/example/mercado/scraper/RealScraper.java:34-37 | at a position where the target does not occur, the character is copied and the scan moves on by one |
| Text.ReplaceAllAbsent | src/main/java/com/example/mercado/scraper/RealScraper.java:34-37 | a text in which the target occurs nowhere is returned unchanged |
| Text.ReplaceAllPlainPrefix | src/main/java/com/example/mercado/scraper/RealScraper.java:34-37 | a prefix holding no copy of the target's first character is copied unchanged in front of the replaced rest |
| Text.Without | src/main/java/com/example/mercado/scraper/BaseJsoupScraper.java:26 | removing a character leaves no occurrence of it, adds no new character and never lengthens the text |
| Text.WithoutAppend | src/main/java/com/example/mercado/scraper/BaseJsoupScraper.java:26 | removing a character works piecewise over a concatenation |
| Text.WithoutAbsent | src/main/java/com/example/mercado/scraper/BaseJsoupScraper.java:26 | removing a character that does not occur changes nothing |
| Text.NatToString | src/main/java/com/example/mercado/scraper/FarmacenterScraper.java:105 | the decimal form of an index is a non-empty digit string whose value is the index, with no leading zero |
| Text.NatToStringInjective | src/main/java/com/example/mercado/scraper/FarmacenterScraper.java:105 | different indices have different decimal forms |
| Text.SkipNonDigits | src/main/java/com/example/mercado/scraper/BaseJsoupScraper.java:27-28 | the search for `\d+` starts at the first ASCII digit at or after `i`, skipping only non-digits |
| Text.SkipDigits | src/main/java/com/example/mercado/scraper/BaseJsoupScraper.java:27-28 | the greedy `\d+` group ends at the first non-digit, so the run it covers is maximal |
| Products.MakeProduct | src/main/java/com/example/mercado/scraper/BaseJsoupScraper.java:52-60 | `product` passes name, price, label and image through unchanged, sets the origin to the host of the base, and sets the url to the base followed by the path with query |
| Prices.Clean | src/main/java/com/example/mercado/scraper/BaseJsoupScraper.java:26 | the cleaned text holds no `.` and no `,`, and every character in it comes from the raw text |
| Prices.ParsePrice | src/main/java/com/example/mercado/scraper/BaseJsoupScraper.java:24-25 | a null text gives 0, and every price is a non-negative `long` |
| Prices.ParsePriceFirstRun | src/main/java/com/example/mercado/scraper/BaseJsoupScraper.java:26-31 | once separators are removed, the price is the value of the first maximal digit run, or 0 when that value exceeds `Long.MAX_VALUE`; later digits never count |
| Prices.ParsePriceNoDigit | src/main/java/com/example/mercado/scraper/BaseJsoupScraper.java:27-33 | a text without ASCII digits gives 0 rather than an error |
| Prices.ParsePriceSeparatorExample | src/main/java/com/example/mercado/scraper/BaseJsoupScraper.java:26-30 | "15.900 Gs" gives 15900 |
| Prices.ParsePriceCommaExample | src/main/java/com/example/mercado/scraper/BaseJsoupScraper.java:26-30 | "1,250" gives 1250 |
| Prices.ParsePriceFirstRunExample | src/main/java/com/example/mercado/scraper/BaseJsoupScraper.java:27-30 | "2 x 300" gives 2 |
| Images.FirstAbsolute | src/main/java/com/example/mercado/scraper/BaseJsoupScraper.java:39-42 | the first loop returns the first non-empty `absUrl` in preference order, and "" exactly when all are empty |
| Images.FirstRaw | src/main/java/com/example/mercado/scraper/BaseJsoupScraper.java:43-48 | the second loop returns the first present, non-empty raw attribute in preference order, and "" exactly when there is none |
| Images.ResolveImage | src/main/java/com/example/mercado/scraper/BaseJsoupScraper.java:36-49 | a null element gives ""; otherwise the result is the first non-empty candidate in the order absolute forms, then raw values, and "" exactly when all six are empty |
| Images.SrcOnlyImage | src/main/java/com/example/mercado/scraper/BaseJsoupScraper.java:36-49 | an element with only `src` gets that value resolved against its own page address, or the raw value when it cannot be made absolute |
| Images.ImageFollowsPage | src/main/java/com/example/mercado/scraper/BaseJsoupScraper.java:40 | the same relative `src` on two pages whose addresses resolve it differently gives two different pictures |
| Pem.NextSpan | src/main/java/com/example/mercado/scraper/FarmacenterScraper.java:98-101 | one iteration takes a BEGIN at or after `pos` and an END at or after that BEGIN, both inside the text |
| Pem.NextSpanFirst | src/main/java/com/example/mercado/scraper/FarmacenterScraper.java:98-101 | the iteration takes the first BEGIN at or after `pos` and the first END after it; it finds nothing exactly when no BEGIN from `pos` on is followed by an END |
| Pem.Spans | src/main/java/com/example/mercado/scraper/FarmacenterScraper.java:97-108 | every span the loop visits lies inside the text, with END not before BEGIN |
| Pem.SpansClose | src/main/java/com/example/mercado/scraper/FarmacenterScraper.java:98-102 | every visited block starts at a BEGIN marker and ends at the first END marker at or after it |
| Pem.SpansResume | src/main/java/com/example/mercado/scraper/FarmacenterScraper.java:98-106 | blocks are taken left to right: each later block starts at or after the previous END marker ends, at the first BEGIN found there |
| Pem.SpansStop | src/main/java/com/example/mercado/scraper/FarmacenterScraper.java:97-101 | the scan stops where no remaining BEGIN is followed by an END, so the text after the last block holds no further block |
| Pem.SpansDisjoint | src/main/java/com/example/mercado/scraper/FarmacenterScraper.java:102-106 | any two visited blocks are disjoint and in text order |
| Pem.EndAfterBegin | src/main/java/com/example/mercado/scraper/FarmacenterScraper.java:93-94 | an END marker cannot start within the first 22 characters of a BEGIN marker |
| Pem.BlockShape | src/main/java/com/example/mercado/scraper/FarmacenterScraper.java:102 | a block long enough to hold its BEGIN marker starts with BEGIN and ends with END |
| Pem.EntriesShape | src/main/java/com/example/mercado/scraper/FarmacenterScraper.java:102-105 | the entry for every visited block holds a block that starts with BEGIN and ends with END |
| Pem.CertSpansLong | src/main/java/com/example/mercado/scraper/FarmacenterScraper.java:93-102 | with the certificate markers, every block holds a complete BEGIN marker |
| Pem.AliasInjective | src/main/java/com/example/mercado/scraper/FarmacenterScraper.java:105 | `farmacenter-<n>` aliases never repeat, so no key-store entry overwrites another |
| Pem.EntriesFrom | src/main/java/com/example/mercado/scraper/FarmacenterScraper.java:102-105 | there is one key-store entry per visited block |
| Pem.TrustMaterialShape | src/main/java/com/example/mercado/scraper/FarmacenterScraper.java:81-111 | a missing resource and a bundle without blocks are errors; on success there is at least one entry, entry k is `farmacenter-k`, and its block starts with BEGIN and ends with END |
| Pem.LoopStep | src/main/java/com/example/mercado/scraper/FarmacenterScraper.java:97-108 | taking one more block that decodes keeps the loop invariant: the blocks taken so far are a prefix of the whole scan, numbered consecutively, and all decode |
| Pem.LoopReject | src/main/java/com/example/mercado/scraper/FarmacenterScraper.java:103-104 | a block that does not decode makes the whole bundle fail |
| Pem.LoopDone | src/main/java/com/example/mercado/scraper/FarmacenterScraper.java:109-111 | when the scan ends, the collected entries are the bundle's, and an empty collection is an error |
| Pem.ReadBundle | src/main/java/com/example/mercado/scraper/FarmacenterScraper.java:95-111 | the loop as written computes exactly the reference definition of the bundle's entries |
| Pem.LoadTrustMaterial | src/main/java/com/example/mercado/scraper/FarmacenterScraper.java:77-111 | a missing resource is an error; otherwise the result is the bundle read with the certificate markers, equal to the reference definition |
| Sites.Min3 | src/main/java/com/example/mercado/scraper/FarmacenterScraper.java:57 | the count is at most each list's size and equal to one of them |
| Sites.Zip3 | src/main/java/com/example/mercado/scraper/FarmacenterScraper.java:57-64 | there are min(|names|, |prices|, |images|) products, and product i is built from the i-th element of each list |
| Sites.SiteProduct | src/main/java/com/example/mercado/scraper/FarmacenterScraper.java:60-63 | a product takes the i-th name, the parsed i-th price text and the resolved i-th image, with label "GS" and url BASE + PATH + name (or + encodedQuery for the query-linked sites) |
| Sites.ExtractContract | src/main/java/com/example/mercado/scraper/FarmacenterScraper.java:53-64 | a page yields as many products as its shortest selector list, product i built from index i of each |
| Sites.ScrapeRequests | src/main/java/com/example/mercado/scraper/FarmacenterScraper.java:34-39 | a scrape makes one to three requests, all for BASE + PATH + encodedQuery; the first is the static fetch, and every rendered fetch waits 15 s |
| Sites.ScrapeProducts | src/main/java/com/example/mercado/scraper/FarmacenterScraper.java:63 | every product of a successful scrape has a name, label "GS", the host of BASE as origin, and url BASE + PATH + name or BASE + PATH + encodedQuery as the site dictates |
| Sites.StaticOnlyContract | src/main/java/com/example/mercado/scraper/SupermasScraper.java:18-19 | a static-only site makes one fetch; it extracts from the fetched page, and any fetch error fails the scrape |
| Sites.RetryPlainContract | src/main/java/com/example/mercado/scraper/PuntoFarmaScraper.java:24-37 | only a TLS error causes one plain retry of the same URL; other errors and a failed retry fail the scrape |
| Sites.RetryPinnedContract | src/main/java/com/example/mercado/scraper/FarmacenterScraper.java:37-51 | only a TLS error causes the trust material to be built; a retry with it follows exactly when it builds; other errors, a trust failure and a failed retry fail the scrape |
| Sites.RenderFallbackContract | src/main/java/com/example/mercado/scraper/BiggiesScraper.java:21-33 | a TLS error, or a page where the wait selector finds nothing, leads to one rendered fetch waiting 15 s for that selector; other errors fail the scrape |
| Sites.RemoveAll | src/main/java/com/example/mercado/scraper/FarmaTotallScraper.java:34 | removing every element of a page throws exactly when the library rejects removing the parentless document node; otherwise no selector finds anything on what is left |
| Sites.PopupContract | src/main/java/com/example/mercado/scraper/FarmaTotallScraper.java:23-42 | a TLS error or a missing popup leads to a rendered fetch waiting for the popup; that page is emptied, so the scrape either fails there or renders again waiting for the names; a static page with the popup is kept and re-rendered only if it has no names; products come only from the kept static page or from the names render |
| SiteContracts.FarmacenterScrape | src/main/java/com/example/mercado/scraper/FarmacenterScraper.java:33-65 | a second request happens exactly after a TLS error with loadable trust material; products link to BASE + PATH + name with label "GS" |
| SiteContracts.FarmaTotallScrape | src/main/java/com/example/mercado/scraper/FarmaTotallScraper.java:19-57 | a TLS error or a missing popup is always followed by a rendered fetch waiting for the popup, and then either by the rendered fetch waiting for the names or by a failure; products link to BASE + PATH + name |
| SiteContracts.PuntoFarmaScrape | src/main/java/com/example/mercado/scraper/PuntoFarmaScraper.java:20-52 | a TLS error leads to exactly one plain retry of the same URL and nothing else does; products link to BASE + PATH + name |
| SiteContracts.BiggiesScrape | src/main/java/com/example/mercado/scraper/BiggiesScraper.java:18-48 | the rendered fetch happens exactly when the static page is absent or lacks the name selector, and waits for that selector; products link to BASE + PATH + name |
| SiteContracts.CatedralScrape | src/main/java/com/example/mercado/scraper/FarmaciaCatedralScraper.java:20-50 | the rendered fetch happens exactly when the static page is absent or the descendant selector `div.card-producto-texto h2 a` finds nothing, and waits for that selector; products link to BASE + PATH + name |
| SiteContracts.CatedralCheckMissesNames | src/main/java/com/example/mercado/scraper/FarmaciaCatedralScraper.java:33-37 | a static page where only the descendant selector finds an element passes the check, is not rendered, and yields no product |
| SiteContracts.SupermasScrape | src/main/java/com/example/mercado/scraper/SupermasScraper.java:17-34 | one static fetch; success exactly when it fetches; every product links to BASE + PATH + encodedQuery |
| SiteContracts.CasaRicaScrape | src/main/java/com/example/mercado/scraper/CasaRicaScraper.java:17-34 | one static fetch; success exactly when it fetches; products link to BASE + PATH + name |
| SiteContracts.StockScrape | src/main/java/com/example/mercado/scraper/StockScraper.java:17-34 | one static fetch; success exactly when it fetches; every product links to BASE + PATH + encodedQuery |
| SiteContracts.SalemmaScrape | src/main/java/com/example/mercado/scraper/SalemmaScraper.java:17-34 | one static fetch; success exactly when it fetches; products link to BASE + PATH + name |
| EmbeddedJson.Normalize | src/main/java/com/example/mercado/scraper/RealScraper.java:33-37 | unescaping never lengthens a script's text, and text without a backslash is unchanged |
| EmbeddedJson.NormalizePlain | src/main/java/com/example/mercado/scraper/RealScraper.java:33-37 | a character other than a backslash passes through unescaping unchanged, whatever follows it |
| EmbeddedJson.NormalizeEscapes | src/main/java/com/example/mercado/scraper/RealScraper.java:33-37 | each of `\u0022`, `\x22`, `\/` and `\"` at the front becomes `"`, `"`, `/` and `"`, and the rest is unescaped independently |
| EmbeddedJson.DisjointSound | src/main/java/com/example/mercado/scraper/RealScraper.java:19 | no character is both whitespace (`\s`) and a digit (`\d`) |
| EmbeddedJson.RunEnd | src/main/java/com/example/mercado/scraper/RealScraper.java:19 | a greedy repetition stops at the first character outside its class |
| EmbeddedJson.MatchFrom | src/main/java/com/example/mercado/scraper/RealScraper.java:18-20 | a match found at `i` ends inside the text, at or after `i` |
| EmbeddedJson.MatchSound | src/main/java/com/example/mercado/scraper/RealScraper.java:18-20 | every match the greedy matcher reports satisfies the expression's declarative meaning |
| EmbeddedJson.SemStartsOutside | src/main/java/com/example/mercado/scraper/RealScraper.java:19 | when what follows a repetition cannot start inside its class, every match of the rest starts with a character outside the class |
| EmbeddedJson.RunEndUnique | src/main/java/com/example/mercado/scraper/RealScraper.java:19 | a run that cannot be extended is the run greedy matching takes |
| EmbeddedJson.MatchComplete | src/main/java/com/example/mercado/scraper/RealScraper.java:18-20 | for a well-formed token list, every declarative match is the one the greedy matcher finds, so greedy matching loses nothing by not backtracking |
| EmbeddedJson.MatchGroups | src/main/java/com/example/mercado/scraper/RealScraper.java:18-20 | group x of a match lies in the class of the x-th capturing repetition and has at least its minimum length |
| EmbeddedJson.TripletWellFormed | src/main/java/com/example/mercado/scraper/RealScraper.java:18-20 | the `TRIPLET` expression never needs backtracking: each repetition is followed by something that cannot start inside its class |
| EmbeddedJson.TripletCaptures | src/main/java/com/example/mercado/scraper/RealScraper.java:19 | the expression captures, in order, a non-quote run, a digit run and a non-quote run |
| EmbeddedJson.TripletAgrees | src/main/java/com/example/mercado/scraper/RealScraper.java:18-20 | at a given start, the expression matches up to `j` with groups `g` exactly when the greedy matcher reports that match |
| EmbeddedJson.NoQuote | src/main/java/com/example/mercado/scraper/RealScraper.java:19 | a `([^"]+)` group is non-empty and holds no quote |
| EmbeddedJson.TripletGroups | src/main/java/com/example/mercado/scraper/RealScraper.java:41-43 | every match has three groups: a non-empty quote-free name, a non-empty digit run and a non-empty quote-free photo |
| EmbeddedJson.TripleAt | src/main/java/com/example/mercado/scraper/RealScraper.java:41-43 | the triple read from a match is its three groups, in order |
| EmbeddedJson.FindFrom | src/main/java/com/example/mercado/scraper/RealScraper.java:40 | `find` reports a non-empty match that starts at or after the resume position |
| EmbeddedJson.FindLeftmost | src/main/java/com/example/mercado/scraper/RealScraper.java:40 | no match starts between the resume position and the reported start, and none at all when nothing is found |
| EmbeddedJson.FindFromSem | src/main/java/com/example/mercado/scraper/RealScraper.java:40 | the reported match is a declarative match and the leftmost one; nothing found means no declarative match starts from the resume position on |
| EmbeddedJson.HitsFind | src/main/java/com/example/mercado/scraper/RealScraper.java:39-45 | the loop's x-th hit is what `find` returns when resumed at the end of hit x-1, and the loop stops exactly where `find` finds nothing more |
| EmbeddedJson.ScriptText | src/main/java/com/example/mercado/scraper/RealScraper.java:29-31 | a script's text is its data, or its HTML when the data is empty, and a script with both empty is skipped |
| EmbeddedJson.ScriptTriplesAppend | src/main/java/com/example/mercado/scraper/RealScraper.java:28 | triples come script by script in document order |
| EmbeddedJson.EmptyScriptSkipped | src/main/java/com/example/mercado/scraper/RealScraper.java:29-31 | a script whose data and HTML are both empty contributes nothing |
| EmbeddedJson.ToProducts | src/main/java/com/example/mercado/scraper/RealScraper.java:42-44 | a successful conversion yields one product per triple; a failure is a price overflow |
| EmbeddedJson.ToProductsFails | src/main/java/com/example/mercado/scraper/RealScraper.java:42 | the conversion fails exactly when some matched digit run exceeds `Long.MAX_VALUE` |
| EmbeddedJson.ToProductsFields | src/main/java/com/example/mercado/scraper/RealScraper.java:41-44 | product x has the x-th name, price and photo, label "GS", the host of BASE as origin, and url BASE + PATH + encodedQuery |
| EmbeddedJson.RealScrape | src/main/java/com/example/mercado/scraper/RealScraper.java:23-48 | one request is made; the scrape succeeds exactly when the page is fetched and every matched price fits a `long`; each product has label "GS", links to the search, and has a non-empty, quote-free name and photo |
| Ranking.MergeAppend | src/main/java/com/example/mercado/controller/SearchProductsController.java:101-110 | merging is concatenation in scraper order, so it distributes over splitting the scrapers into two groups |
| Ranking.MergeSplit | src/main/java/com/example/mercado/controller/SearchProductsController.java:101-110 | scraper i's contribution sits between those of the scrapers before and after it, and dropping it leaves every other contribution unchanged |
| Ranking.MergeMembers | src/main/java/com/example/mercado/controller/SearchProductsController.java:109 | a product is merged exactly when some scraper's list contains it |
| Ranking.Filter | src/main/java/com/example/mercado/controller/SearchProductsController.java:114-115 | the filter keeps a sub-multiset of the merged products, never more of them; FilterSingle and FilterAppend pin its result down exactly |
| Ranking.FilterMembers | src/main/java/com/example/mercado/controller/SearchProductsController.java:113-115 | a product is kept exactly when it was merged and has a name containing the query, ignoring ASCII case |
| Ranking.FilterSingle | src/main/java/com/example/mercado/controller/SearchProductsController.java:114-115 | a single product is kept exactly when it has a name containing the query, ignoring ASCII case |
| Ranking.FilterAppend | src/main/java/com/example/mercado/controller/SearchProductsController.java:113-115 | the filter works piecewise over a concatenation, so the kept products stay in merged order and every copy is kept |
| Ranking.FilterCount | src/main/java/com/example/mercado/controller/SearchProductsController.java:113-115 | every copy of a kept product survives: its count is its merged count, and a product not kept has count zero |
| Ranking.FilterClass | src/main/java/com/example/mercado/controller/SearchProductsController.java:113-118 | filtering commutes with taking the products tied with a given one |
| Ranking.LexLeqRefl | src/main/java/com/example/mercado/controller/SearchProductsController.java:117 | the name order is reflexive |
| Ranking.LexLeqTotal | src/main/java/com/example/mercado/controller/SearchProductsController.java:117 | any two names are comparable |
| Ranking.LexLeqTrans | src/main/java/com/example/mercado/controller/SearchProductsController.java:117 | the name order is transitive |
| Ranking.LexLeqAntisym | src/main/java/com/example/mercado/controller/SearchProductsController.java:117 | names that compare both ways are equal |
| Ranking.LeqPreorder | src/main/java/com/example/mercado/controller/SearchProductsController.java:116-117 | price-then-name is a total preorder whose ties are exactly equal price with names equal ignoring case |
| Ranking.SameNameTied | src/main/java/com/example/mercado/controller/SearchProductsController.java:117 | products of equal price whose names differ only in ASCII case are tied |
| Ranking.Insert | src/main/java/com/example/mercado/controller/SearchProductsController.java:116-118 | inserting adds exactly the one product |
| Ranking.Sort | src/main/java/com/example/mercado/controller/SearchProductsController.java:116-118 | sorting is a permutation |
| Ranking.InsertSorted | src/main/java/com/example/mercado/controller/SearchProductsController.java:116-118 | inserting into a sorted list keeps it sorted |
| Ranking.SortSorted | src/main/java/com/example/mercado/controller/SearchProductsController.java:116-118 | the sorted list is ordered by price, then by name ignoring case |
| Ranking.InsertClass | src/main/java/com/example/mercado/controller/SearchProductsController.java:116-118 | inserting into a sorted list puts the new product after every product already tied with it |
| Ranking.SortStable | src/main/java/com/example/mercado/controller/SearchProductsController.java:116-118 | tied products keep their relative order: the sort is stable |
| Ranking.Rank | src/main/java/com/example/mercado/controller/SearchProductsController.java:113-118 | the ranked list is never longer than the merged list |
| Ranking.RankSpec | src/main/java/com/example/mercado/controller/SearchProductsController.java:113-118 | the ranked list holds each product whose name contains the query exactly as often as the merged list does, and nothing else; it is sorted by price then name ignoring case, and tied products appear in their merged order |
| Scrapers.Collected | src/main/java/com/example/mercado/controller/SearchProductsController.java:90-107 | a scraper contributes a list exactly when it did not throw and was ready in time, and then its own list |
| Scrapers.LateScraperDropped | src/main/java/com/example/mercado/controller/SearchProductsController.java:101-110 | a scraper missing its wait removes just its own contribution from the merged list |
| Scrapers.MergedFromSucceeded | src/main/java/com/example/mercado/controller/SearchProductsController.java:89-110 | every merged product comes from a scraper that succeeded in time |
| Search.CacheKey | src/main/java/com/example/mercado/controller/SearchProductsController.java:73-77 | the key has the trimmed query's length |
| Search.ListProducts | src/main/java/com/example/mercado/controller/SearchProductsController.java:64-125 | an error message appears exactly for a blank query; when no scraper runs the cache is unchanged; when they run, exactly the query's key is added or replaced |
| Search.BlankRejected | src/main/java/com/example/mercado/controller/SearchProductsController.java:66-71 | a null or blank query gives no products and the validation message, runs no scraper and leaves the cache untouched |
| Search.CacheKeyShared | src/main/java/com/example/mercado/controller/SearchProductsController.java:73-77 | two queries share a cache key exactly when their trimmed forms are equal ignoring ASCII case |
| Search.CacheKeyIgnoresPadding | src/main/java/com/example/mercado/controller/SearchProductsController.java:73-77 | surrounding whitespace and control characters do not change the key |
| Search.HitIffFresh | src/main/java/com/example/mercado/controller/SearchProductsController.java:80-86 | the scrapers are skipped exactly when the key's entry exists and `now - timestamp < 300000`; the stored list is then returned and the cache is unchanged |
| Search.MissStores | src/main/java/com/example/mercado/controller/SearchProductsController.java:73-121 | on a miss the scrapers run with the encoded trimmed query, and the key's entry becomes the ranked list stamped with the store time; every other key keeps its entry |
| Search.MissRanks | src/main/java/com/example/mercado/controller/SearchProductsController.java:101-118 | on a miss the list holds every merged copy of every product whose name contains the query, and nothing else, each from a scraper that succeeded in time; it is sorted, and tied products keep their merged order |

## Left out

- Network transport, `Jsoup.connect` settings (user agent, timeouts, body size, redirects) and the headless browser are functions in `Env`. `SeleniumRenderedPageFetcher.java` is not part of this model.
- CSS selector evaluation, `Element.text`, `attr`, `absUrl` and `Jsoup.parse` are library code. A page is a map from each selector to the elements it selects. URL resolution against an element's `baseUri()` is the parameter `Env.resolve`; how the base address is set for a fetched or rendered page (after redirects, for instance) is not modelled.
- `URLEncoder.encode` and `new URL(base).getHost()` are function parameters.
- Certificate decoding, `KeyStore`, `TrustManagerFactory` and `SSLContext` are library crypto. The model produces the key-store entries as (alias, block) pairs and takes certificate acceptance as a predicate. The US-ASCII decoding of the PEM bytes is not modelled: the bundle is given as text.
- The double-checked lazy initialisation of the Farmacenter socket factory is concurrency. Each scrape that hits a TLS error reads the bundle afresh; the result is the same.
- The thread pool, `CompletableFuture` and the 12-second wait are concurrency. A scraper that misses its wait is a member of the `late` set, and a scraper that throws is a failed `Run`; both contribute nothing.
- `System.currentTimeMillis()` is replaced by the parameters `now` and `storedAt`.
- The catch-all at SearchProductsController.java:126-131 is not modelled. No modelled step of the request throws: every scraper failure is already caught at lines 93-97 and 105-107.
- Spring MVC plumbing is not modelled: `Model` attributes, view names, the GET handler, `@PreDestroy` and logging. `Search.Outcome` holds the products, the error message, the query the scrapers ran with, and the cache.
- Sites.RemoveAll: which jsoup version runs is outside the source, so whether `Node.remove` throws on the parentless document node is the parameter `Env.rootRemovalThrows`. The exception it throws is not named; the scrape fails with `RemovalFailed`.
- `Scrapers.ALL`: the order in which Spring injects the ten scrapers is not fixed by the source. The model takes the scraper list as a parameter and gives one possible order.
- Text.Lower: `String.toLowerCase` and `CASE_INSENSITIVE_ORDER` use Unicode case tables; the model folds ASCII letters only, so names and queries with non-ASCII letters are compared as if those letters had no case. The filter's folding is ASCII-only in the source too.
- Ranking.NameKey: sorts a product without a name as if its name were empty. Products without a name never reach the sort, because the filter drops them.
- Search.HitIffFresh: `now - timestamp` is Java `long` arithmetic. Its overflow for clock values near `Long.MIN_VALUE`/`MAX_VALUE` is not modelled.
- EmbeddedJson.Normalize: NormalizePlain and NormalizeEscapes describe it on every text whose backslashes each start one of the four escapes. A backslash that starts none of them, as in `\n`, is not described.
- The `(?s)` flag of `TRIPLET` has no effect here: the expression uses no `.`.
