/** What a scraper sees of the network: the outcome of each kind of fetch,
    and the trace of fetches it asked for. Transport, the headless browser
    and TLS are library code; each is a function parameter bundled in `Env`. */
module Fetching {
  import opened Wrappers
  import opened Products
  import opened Pem

  /** How a page fetch ends: a parsed document, an `SSLHandshakeException`,
      or any other exception. */
  datatype FetchOutcome = Fetched(doc: Document) | TlsError | OtherError

  /** Seconds every rendered fetch waits for its selector. */
  const RENDER_WAIT: nat := 15

  /** One request a scraper makes. */
  datatype Call =
    | Static(url: string)                                 // BaseJsoupScraper.fetch
    | PlainRetry(url: string)                             // Jsoup.connect, default trust
    | PinnedRetry(url: string)                            // Jsoup.connect, bundled trust material
    | Rendered(url: string, waitFor: string, seconds: nat) // SeleniumPageFetcher.fetchRendered

  /** Why a scrape throws. */
  datatype ScrapeError =
    | FetchFailed(call: Call)        // the named request threw
    | TrustFailed(reason: TrustError) // the bundled trust material could not be built
    | PriceOverflow                   // Long.parseLong rejected a matched price
    | RemovalFailed                   // Node.remove refused the parentless document node

  /** The world a scrape runs in. `render` yields `None` when the browser
      throws (for instance when the awaited selector never appears);
      `rootRemovalThrows` says whether the HTML library's `Node.remove`
      throws on a node without a parent, as some versions of it do;
      `resolve(base, value)` is `absUrl`'s resolution of an attribute
      value against an element's base address; `hostOf` is
      `new URL(base).getHost()`. */
  datatype Env = Env(
    fetch: string -> FetchOutcome,
    plain: string -> FetchOutcome,
    pinned: (string, seq<TrustEntry>) -> FetchOutcome,
    render: (string, string, nat) -> Option<Document>,
    rootRemovalThrows: bool,
    resolve: (string, string) -> string,
    hostOf: string -> string,
    pemResource: Option<string>,
    decodes: string -> bool)

  /** The requests made, in order, and what came of them. */
  datatype Run<T> = Run(calls: seq<Call>, result: Result<T, ScrapeError>)

  /** The URL a request was made for. */
  function CallUrl(c: Call): string {
    match c
    case Static(u) => u
    case PlainRetry(u) => u
    case PinnedRetry(u) => u
    case Rendered(u, _, _) => u
  }
}
