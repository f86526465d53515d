/** `BaseJsoupScraper.resolveImage`: which attribute of an `<img>` element
    supplies the product picture. */
module Images {
  import opened Wrappers
  import opened Products

  /** Attributes consulted, most preferred first (lazy-loading attributes
      before the plain `src`). */
  const PREFERENCE: seq<string> := ["data-src", "data-original", "src"]

  /** `el.attr(a)` after `el.hasAttr(a)`: the raw value, "" when absent. */
  function Attr(el: Element, a: string): string {
    if a in el.attrs then el.attrs[a] else ""
  }

  /** `el.absUrl(a)`: "" when the attribute is absent; otherwise its value
      resolved against the element's own `baseUri()`. Resolution is a
      library call, given as `resolve(base, value)`, which yields "" for a
      value that cannot be made absolute. */
  function AbsUrl(el: Element, a: string, resolve: (string, string) -> string): string {
    if a in el.attrs then resolve(el.baseUri, el.attrs[a]) else ""
  }

  /** Every value `resolveImage` may return, in the order it considers them:
      the absolute forms of the preferred attributes, then their raw values. */
  function Candidates(el: Element, resolve: (string, string) -> string): (cs: seq<string>)
    ensures |cs| == 2 * |PREFERENCE|
  {
    seq(|PREFERENCE|, i requires 0 <= i < |PREFERENCE| => AbsUrl(el, PREFERENCE[i], resolve))
    + seq(|PREFERENCE|, i requires 0 <= i < |PREFERENCE| => Attr(el, PREFERENCE[i]))
  }

  /** The first loop: the first non-empty absolute URL among `attrs`. */
  function FirstAbsolute(el: Element, attrs: seq<string>, resolve: (string, string) -> string): (r: string)
    ensures r == "" <==> forall k | 0 <= k < |attrs| :: AbsUrl(el, attrs[k], resolve) == ""
    ensures r != "" ==> exists k | 0 <= k < |attrs| ::
      r == AbsUrl(el, attrs[k], resolve) && forall j | 0 <= j < k :: AbsUrl(el, attrs[j], resolve) == ""
  {
    if attrs == [] then ""
    else
      var abs := AbsUrl(el, attrs[0], resolve);
      if abs != "" then abs else
        var r := FirstAbsolute(el, attrs[1..], resolve);
        assert forall k | 1 <= k < |attrs| :: attrs[k] == attrs[1..][k - 1];
        r
  }

  /** The second loop: the first non-empty raw value among `attrs`. */
  function FirstRaw(el: Element, attrs: seq<string>): (r: string)
    ensures r == "" <==> forall k | 0 <= k < |attrs| :: Attr(el, attrs[k]) == ""
    ensures r != "" ==> exists k | 0 <= k < |attrs| ::
      r == Attr(el, attrs[k]) && forall j | 0 <= j < k :: Attr(el, attrs[j]) == ""
  {
    if attrs == [] then ""
    else
      var raw := Attr(el, attrs[0]);
      if raw != "" then raw else
        var r := FirstRaw(el, attrs[1..]);
        assert forall k | 1 <= k < |attrs| :: attrs[k] == attrs[1..][k - 1];
        r
  }

  /** The first three candidates are the absolute forms, the last three
      the raw values, each in preference order. */
  lemma CandidatesSplit(el: Element, resolve: (string, string) -> string)
    ensures forall k | 0 <= k < 3 :: Candidates(el, resolve)[k] == AbsUrl(el, PREFERENCE[k], resolve)
    ensures forall k | 0 <= k < 3 :: Candidates(el, resolve)[3 + k] == Attr(el, PREFERENCE[k])
  {
  }

  /** A null element gives ""; otherwise the result is the first non-empty
      candidate (absolute forms first, then raw values), and "" exactly when
      every candidate is empty. */
  function ResolveImage(img: Option<Element>, resolve: (string, string) -> string): (r: string)
    ensures img.None? ==> r == ""
    ensures img.Some? ==> (r == "" <==> forall k | 0 <= k < 6 :: Candidates(img.value, resolve)[k] == "")
    ensures img.Some? && r != "" ==> exists k | 0 <= k < 6 ::
      r == Candidates(img.value, resolve)[k] && forall j | 0 <= j < k :: Candidates(img.value, resolve)[j] == ""
  {
    match img
    case None => ""
    case Some(el) =>
      CandidatesSplit(el, resolve);
      var abs := FirstAbsolute(el, PREFERENCE, resolve);
      if abs != "" then abs else FirstRaw(el, PREFERENCE)
  }

  /** An `<img>` that has only a `src` attribute: its picture is that
      value resolved against the element's page, or the raw value when it
      cannot be made absolute. */
  lemma SrcOnlyImage(el: Element, resolve: (string, string) -> string)
    requires "src" in el.attrs && "data-src" !in el.attrs && "data-original" !in el.attrs
    ensures var abs := resolve(el.baseUri, el.attrs["src"]);
      ResolveImage(Some(el), resolve) == if abs != "" then abs else el.attrs["src"]
  {
    assert PREFERENCE[0] == "data-src" && PREFERENCE[1] == "data-original" && PREFERENCE[2] == "src";
    var cs := Candidates(el, resolve);
    assert cs[0] == "" && cs[1] == "" && cs[3] == "" && cs[4] == "";
    assert cs[2] == resolve(el.baseUri, el.attrs["src"]) && cs[5] == el.attrs["src"];
  }

  /** The same relative `src` read on two pages gives two pictures whenever
      the two page addresses resolve it differently: the picture follows the
      page the element came from. */
  lemma ImageFollowsPage(el: Element, page: string, resolve: (string, string) -> string)
    requires "src" in el.attrs && "data-src" !in el.attrs && "data-original" !in el.attrs
    requires resolve(el.baseUri, el.attrs["src"]) != "" && resolve(page, el.attrs["src"]) != ""
    requires resolve(el.baseUri, el.attrs["src"]) != resolve(page, el.attrs["src"])
    ensures ResolveImage(Some(el), resolve) != ResolveImage(Some(el.(baseUri := page)), resolve)
  {
    SrcOnlyImage(el, resolve);
    SrcOnlyImage(el.(baseUri := page), resolve);
  }
}
