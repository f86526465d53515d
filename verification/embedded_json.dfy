/** The Real supermarket scraper (`RealScraper`): product data sits in JSON
    embedded in `<script>` elements, is unescaped by four literal
    replacements and picked out by one regular expression. The expression
    is modelled as a list of tokens, read by a greedy matcher that is proved
    to agree with the expression's declarative meaning. */
module EmbeddedJson {
  import opened Wrappers
  import opened Text
  import opened Products
  import opened Fetching

  const BASE: string := "https://www.realonline.com.py"
  const PATH: string := "/search?name="

  // ---------------------------------------------------------------------
  // Unescaping
  // ---------------------------------------------------------------------

  /** The four replacements, in their fixed order: `\u0022`, then `\x22`,
      become a quote; then `\/` becomes `/`; then `\"` becomes a quote. */
  function Normalize(raw: string): (n: string)
    ensures |n| <= |raw|
    ensures '\\' !in raw ==> n == raw
  {
    var a := ReplaceAll(raw, ESC_U, "\"");
    var b := ReplaceAll(a, ESC_X, "\"");
    var c := ReplaceAll(b, ESC_SLASH, "/");
    ReplaceAll(c, ESC_QUOTE, "\"")
  }

  const ESC_U: string := "\\u0022"
  const ESC_X: string := "\\x22"
  const ESC_SLASH: string := "\\/"
  const ESC_QUOTE: string := "\\\""

  /** One stage applied to a piece that starts with a different escape (its
      second character differs from the target's) and holds no other
      backslash: the piece is copied. */
  lemma StageSkip(e: string, s: string, pat: string, rep: string)
    requires |e| > 1 && |pat| > 1 && e[1] != pat[1]
    requires forall k | 1 <= k < |e| :: e[k] != pat[0]
    ensures ReplaceAll(e + s, pat, rep) == e + ReplaceAll(s, pat, rep)
  {
    var c, q := e[0], e[1..];
    var t := [c] + (q + s);
    assert e + s == t;
    assert t[1] == e[1];
    if |pat| <= |t| {
      MatchesFromAll(t, pat, 0, 0);
    }
    ReplaceAllSkip(t, pat, rep);
    assert t[1..] == q + s;
    assert forall k | 0 <= k < |q| :: q[k] == e[k + 1];
    ReplaceAllPlainPrefix(q, s, pat, rep);
    ConsAppend(e, c, q, ReplaceAll(s, pat, rep));
  }

  /** A character other than a backslash passes through unescaping. */
  lemma NormalizePlain(c: char, s: string)
    requires c != '\\'
    ensures Normalize([c] + s) == [c] + Normalize(s)
  {
    var a := ReplaceAll(s, ESC_U, "\"");
    var b := ReplaceAll(a, ESC_X, "\"");
    var d := ReplaceAll(b, ESC_SLASH, "/");
    ReplaceAllPlainPrefix([c], s, ESC_U, "\"");
    ReplaceAllPlainPrefix([c], a, ESC_X, "\"");
    ReplaceAllPlainPrefix([c], b, ESC_SLASH, "/");
    ReplaceAllPlainPrefix([c], d, ESC_QUOTE, "\"");
  }

  /** Each of the four escapes becomes its character, whatever follows. */
  lemma NormalizeEscapes(s: string)
    ensures Normalize(ESC_U + s) == "\"" + Normalize(s)
    ensures Normalize(ESC_X + s) == "\"" + Normalize(s)
    ensures Normalize(ESC_SLASH + s) == "/" + Normalize(s)
    ensures Normalize(ESC_QUOTE + s) == "\"" + Normalize(s)
  {
    var a := ReplaceAll(s, ESC_U, "\"");
    var b := ReplaceAll(a, ESC_X, "\"");
    var d := ReplaceAll(b, ESC_SLASH, "/");
    // `\u0022`
    ReplaceAllHead(ESC_U, s, "\"");
    ReplaceAllPlainPrefix("\"", a, ESC_X, "\"");
    ReplaceAllPlainPrefix("\"", b, ESC_SLASH, "/");
    ReplaceAllPlainPrefix("\"", d, ESC_QUOTE, "\"");
    // `\x22`
    StageSkip(ESC_X, s, ESC_U, "\"");
    ReplaceAllHead(ESC_X, a, "\"");
    // `\/`
    StageSkip(ESC_SLASH, s, ESC_U, "\"");
    StageSkip(ESC_SLASH, a, ESC_X, "\"");
    ReplaceAllHead(ESC_SLASH, b, "/");
    ReplaceAllPlainPrefix("/", d, ESC_QUOTE, "\"");
    // `\"`
    StageSkip(ESC_QUOTE, s, ESC_U, "\"");
    StageSkip(ESC_QUOTE, a, ESC_X, "\"");
    StageSkip(ESC_QUOTE, b, ESC_SLASH, "/");
    ReplaceAllHead(ESC_QUOTE, d, "\"");
  }

  // ---------------------------------------------------------------------
  // The pattern as tokens
  // ---------------------------------------------------------------------

  /** `\s`, `[^"]` and `\d` (ASCII only, as in `java.util.regex`). */
  datatype CharClass = Space | NotQuote | Digit

  predicate InClass(c: char, k: CharClass) {
    match k
    case Space => IsRegexSpace(c)
    case NotQuote => c != '"'
    case Digit => IsAsciiDigit(c)
  }

  /** Pairs of classes known to share no character. */
  predicate Disjoint(a: CharClass, b: CharClass) {
    (a == Space && b == Digit) || (a == Digit && b == Space)
  }

  lemma DisjointSound(a: CharClass, b: CharClass, c: char)
    requires Disjoint(a, b) && InClass(c, b)
    ensures !InClass(c, a)
  {
  }

  /** A literal, or a greedy repetition of a class with at least `min`
      characters whose text is a capturing group when `capture` holds. */
  datatype Token = Lit(text: string) | Rep(cls: CharClass, min: nat, capture: bool)

  const WS: Token := Rep(Space, 0, false)

  /** `\{\s*"product"\s*:\s*\{\s*"name"\s*:\s*"([^"]+)"\s*,\s*"price"\s*:\s*(\d+)\s*,
      \s*"photosUrl"\s*:\s*\[\s*"([^"]+)"`, token by token. */
  const TRIPLET: seq<Token> := [
    Lit("{"), WS, Lit("\"product\""), WS, Lit(":"), WS, Lit("{"), WS,
    Lit("\"name\""), WS, Lit(":"), WS, Lit("\""), Rep(NotQuote, 1, true), Lit("\""), WS,
    Lit(","), WS, Lit("\"price\""), WS, Lit(":"), WS, Rep(Digit, 1, true), WS,
    Lit(","), WS, Lit("\"photosUrl\""), WS, Lit(":"), WS, Lit("["), WS,
    Lit("\""), Rep(NotQuote, 1, true), Lit("\"")]

  // ---------------------------------------------------------------------
  // Declarative meaning
  // ---------------------------------------------------------------------

  predicate AllIn(s: string, i: nat, e: nat, k: CharClass)
    requires i <= e <= |s|
  {
    forall x | i <= x < e :: InClass(s[x], k)
  }

  /** The tokens from `n` on match exactly `s[i..j]`, capturing `g`: the
      meaning of the regular expression, with every way of splitting the
      text allowed. */
  predicate Sem(toks: seq<Token>, n: nat, s: string, i: nat, j: nat, g: seq<string>)
    requires n <= |toks| && i <= j <= |s|
    decreases |toks| - n
  {
    if n == |toks| then j == i && g == []
    else
      match toks[n]
      case Lit(l) => i + |l| <= j && OccursAt(s, l, i) && Sem(toks, n + 1, s, i + |l|, j, g)
      case Rep(k, min, cap) =>
        exists e | i + min <= e <= j ::
          && AllIn(s, i, e, k)
          && if cap then |g| > 0 && g[0] == s[i..e] && Sem(toks, n + 1, s, e, j, g[1..])
             else Sem(toks, n + 1, s, e, j, g)
  }

  // ---------------------------------------------------------------------
  // The greedy matcher
  // ---------------------------------------------------------------------

  /** End of the longest run of class `k` starting at `i`. */
  function RunEnd(s: string, i: nat, k: CharClass): (e: nat)
    requires i <= |s|
    ensures i <= e <= |s|
    ensures AllIn(s, i, e, k)
    ensures e == |s| || !InClass(s[e], k)
    decreases |s| - i
  {
    if i == |s| || !InClass(s[i], k) then i else RunEnd(s, i + 1, k)
  }

  datatype Match = Match(end: nat, groups: seq<string>)

  /** Matches the tokens from `n` on at `i`, each repetition taking as many
      characters as it can and never giving any back. */
  function MatchFrom(toks: seq<Token>, n: nat, s: string, i: nat): (r: Option<Match>)
    requires n <= |toks| && i <= |s|
    ensures r.Some? ==> i <= r.value.end <= |s|
    decreases |toks| - n
  {
    if n == |toks| then Some(Match(i, []))
    else
      match toks[n]
      case Lit(l) => if OccursAt(s, l, i) then MatchFrom(toks, n + 1, s, i + |l|) else None
      case Rep(k, min, cap) =>
        var e := RunEnd(s, i, k);
        if e < i + min then None
        else
          match MatchFrom(toks, n + 1, s, e)
          case None => None
          case Some(m) => Some(Match(m.end, if cap then [s[i..e]] + m.groups else m.groups))
  }

  /** Whatever the greedy matcher finds is a match of the expression. */
  lemma {:induction false} MatchSound(toks: seq<Token>, n: nat, s: string, i: nat)
    requires n <= |toks| && i <= |s| && MatchFrom(toks, n, s, i).Some?
    ensures var m := MatchFrom(toks, n, s, i).value; Sem(toks, n, s, i, m.end, m.groups)
    decreases |toks| - n
  {
    if n < |toks| {
      var m := MatchFrom(toks, n, s, i).value;
      match toks[n]
      case Lit(l) =>
        MatchSound(toks, n + 1, s, i + |l|);
      case Rep(k, min, cap) =>
        var e := RunEnd(s, i, k);
        MatchSound(toks, n + 1, s, e);
        var m' := MatchFrom(toks, n + 1, s, e).value;
        if cap {
          assert m.groups[1..] == m'.groups;
        }
        assert AllIn(s, i, e, k);
    }
  }

  /** No character of class `k` can begin a match of the tokens from `n`. */
  predicate StartsOutside(k: CharClass, toks: seq<Token>, n: nat)
    decreases |toks| - n
  {
    n < |toks| &&
    match toks[n]
    case Lit(l) => |l| > 0 && !InClass(l[0], k)
    case Rep(k2, min, _) => Disjoint(k, k2) && (min == 0 ==> StartsOutside(k, toks, n + 1))
  }

  /** Literals are non-empty, and what follows a repetition cannot start
      with a character the repetition could have taken. */
  predicate TokenOk(toks: seq<Token>, n: nat)
    requires n < |toks|
  {
    match toks[n]
    case Lit(l) => |l| > 0
    case Rep(k, _, _) => StartsOutside(k, toks, n + 1)
  }

  predicate WellFormed(toks: seq<Token>) {
    forall n | 0 <= n < |toks| :: TokenOk(toks, n)
  }

  /** Under `StartsOutside`, every match begins with a character outside `k`. */
  lemma {:induction false} SemStartsOutside(toks: seq<Token>, n: nat, s: string, i: nat, j: nat, g: seq<string>, k: CharClass)
    requires n <= |toks| && i <= j <= |s|
    requires StartsOutside(k, toks, n) && Sem(toks, n, s, i, j, g)
    ensures i < |s| && !InClass(s[i], k)
    decreases |toks| - n
  {
    match toks[n]
    case Lit(l) =>
      assert s[i..i + |l|][0] == s[i];
    case Rep(k2, min, cap) =>
      var e :| i + min <= e <= j && AllIn(s, i, e, k2)
        && if cap then |g| > 0 && g[0] == s[i..e] && Sem(toks, n + 1, s, e, j, g[1..])
           else Sem(toks, n + 1, s, e, j, g);
      if e > i {
        DisjointSound(k, k2, s[i]);
      } else {
        SemStartsOutside(toks, n + 1, s, i, j, if cap then g[1..] else g, k);
      }
  }

  /** A run of class `k` that cannot be extended is the longest one. */
  lemma {:induction false} RunEndUnique(s: string, i: nat, e: nat, k: CharClass)
    requires i <= e <= |s| && AllIn(s, i, e, k)
    requires e == |s| || !InClass(s[e], k)
    ensures RunEnd(s, i, k) == e
    decreases e - i
  {
    if i < e {
      RunEndUnique(s, i + 1, e, k);
    }
  }

  /** For a well-formed pattern the greedy matcher finds every match: the
      only way to split the text is the greedy one. */
  lemma {:induction false} MatchComplete(toks: seq<Token>, n: nat, s: string, i: nat, j: nat, g: seq<string>)
    requires WellFormed(toks)
    requires n <= |toks| && i <= j <= |s| && Sem(toks, n, s, i, j, g)
    ensures MatchFrom(toks, n, s, i) == Some(Match(j, g))
    decreases |toks| - n
  {
    if n < |toks| {
      if toks[n].Lit? {
        MatchComplete(toks, n + 1, s, i + |toks[n].text|, j, g);
      } else {
        assert TokenOk(toks, n);
        var e, rest := SemRepWitness(toks, n, s, i, j, g);
        SemStartsOutside(toks, n + 1, s, e, j, rest, toks[n].cls);
        RunEndUnique(s, i, e, toks[n].cls);
        MatchComplete(toks, n + 1, s, e, j, rest);
        RepStep(toks, n, s, i, e, j, g, rest);
      }
    }
  }

  /** A match of the expression at a repetition splits into the run it
      takes and a match of the remaining tokens. */
  lemma SemRepWitness(toks: seq<Token>, n: nat, s: string, i: nat, j: nat, g: seq<string>)
      returns (e: nat, rest: seq<string>)
    requires n < |toks| && toks[n].Rep? && i <= j <= |s| && Sem(toks, n, s, i, j, g)
    ensures i + toks[n].min <= e <= j && AllIn(s, i, e, toks[n].cls)
    ensures g == if toks[n].capture then [s[i..e]] + rest else rest
    ensures Sem(toks, n + 1, s, e, j, rest)
  {
    var k, min, cap := toks[n].cls, toks[n].min, toks[n].capture;
    e :| i + min <= e <= j && AllIn(s, i, e, k)
      && if cap then |g| > 0 && g[0] == s[i..e] && Sem(toks, n + 1, s, e, j, g[1..])
         else Sem(toks, n + 1, s, e, j, g);
    rest := if cap then g[1..] else g;
    if cap {
      assert g == [s[i..e]] + rest;
    }
  }

  /** A repetition whose greedy run ends at `e`, followed by a match of the
      remaining tokens from `e`, matches with that run as its group. */
  lemma RepStep(toks: seq<Token>, n: nat, s: string, i: nat, e: nat, j: nat, g: seq<string>, rest: seq<string>)
    requires n < |toks| && toks[n].Rep? && i <= e <= j <= |s|
    requires i + toks[n].min <= e && RunEnd(s, i, toks[n].cls) == e
    requires MatchFrom(toks, n + 1, s, e) == Some(Match(j, rest))
    requires g == if toks[n].capture then [s[i..e]] + rest else rest
    ensures MatchFrom(toks, n, s, i) == Some(Match(j, g))
  {
  }

  /** The repetition tokens that capture, in order. */
  function Captures(toks: seq<Token>, n: nat): seq<Token>
    requires n <= |toks|
    decreases |toks| - n
  {
    if n == |toks| then []
    else (if toks[n].Rep? && toks[n].capture then [toks[n]] else []) + Captures(toks, n + 1)
  }

  /** A capture fits its repetition: long enough, and all of its class. */
  predicate GroupFits(text: string, t: Token) {
    t.Rep? && |text| >= t.min && forall y | 0 <= y < |text| :: InClass(text[y], t.cls)
  }

  /** Group x fits capturing repetition x, for every x. */
  predicate AllFit(g: seq<string>, c: seq<Token>) {
    |g| == |c| && forall x | 0 <= x < |g| :: GroupFits(g[x], c[x])
  }

  lemma AllFitCons(a: string, t: Token, g: seq<string>, c: seq<Token>)
    requires GroupFits(a, t) && AllFit(g, c)
    ensures AllFit([a] + g, [t] + c)
  {
    assert forall x | 1 <= x < |g| + 1 :: ([a] + g)[x] == g[x - 1] && ([t] + c)[x] == c[x - 1];
  }

  /** Group x of a match is the text of the x-th capturing repetition: at
      least its minimum length, and made of its class only. */
  lemma {:induction false} MatchGroups(toks: seq<Token>, n: nat, s: string, i: nat)
    requires n <= |toks| && i <= |s| && MatchFrom(toks, n, s, i).Some?
    ensures AllFit(MatchFrom(toks, n, s, i).value.groups, Captures(toks, n))
    decreases |toks| - n
  {
    if n < |toks| {
      match toks[n]
      case Lit(l) =>
        MatchGroups(toks, n + 1, s, i + |l|);
      case Rep(k, min, cap) =>
        MatchGroups(toks, n + 1, s, RunEnd(s, i, k));
        GroupsStep(toks, n, s, i);
    }
  }

  /** A repetition adds its own text in front of the later groups when it
      captures, and nothing otherwise. */
  lemma GroupsStep(toks: seq<Token>, n: nat, s: string, i: nat)
    requires n < |toks| && toks[n].Rep? && i <= |s| && MatchFrom(toks, n, s, i).Some?
    requires var e := RunEnd(s, i, toks[n].cls);
      AllFit(MatchFrom(toks, n + 1, s, e).value.groups, Captures(toks, n + 1))
    ensures AllFit(MatchFrom(toks, n, s, i).value.groups, Captures(toks, n))
  {
    var e := RunEnd(s, i, toks[n].cls);
    if toks[n].capture {
      assert GroupFits(s[i..e], toks[n]) by {
        assert forall y | 0 <= y < e - i :: s[i..e][y] == s[i + y];
      }
      AllFitCons(s[i..e], toks[n], MatchFrom(toks, n + 1, s, e).value.groups, Captures(toks, n + 1));
    }
  }

  // ---------------------------------------------------------------------
  // Facts about the concrete pattern
  // ---------------------------------------------------------------------

  predicate WellFormedFrom(toks: seq<Token>, n: nat)
    decreases |toks| - n
  {
    n >= |toks| || (TokenOk(toks, n) && WellFormedFrom(toks, n + 1))
  }

  lemma {:induction false} WellFormedFromAll(toks: seq<Token>, n: nat)
    requires n <= |toks| && WellFormedFrom(toks, n)
    ensures forall m | n <= m < |toks| :: TokenOk(toks, m)
    decreases |toks| - n
  {
    if n < |toks| {
      WellFormedFromAll(toks, n + 1);
    }
  }

  // The lemmas below evaluate recursive predicates on the constant TRIPLET.
  // Dafny unfolds a recursive definition only a bounded number of times per
  // proof step, so each assertion evaluates one more token, from the end of
  // the pattern towards its start.

  /** The tokens from `"price"` on are well formed. */
  lemma TripletTailWellFormed()
    ensures WellFormedFrom(TRIPLET, 18)
  {
    assert WellFormedFrom(TRIPLET, 35);
    assert WellFormedFrom(TRIPLET, 34);
    assert WellFormedFrom(TRIPLET, 33);
    assert WellFormedFrom(TRIPLET, 32);
    assert WellFormedFrom(TRIPLET, 31);
    assert WellFormedFrom(TRIPLET, 30);
    assert WellFormedFrom(TRIPLET, 29);
    assert WellFormedFrom(TRIPLET, 28);
    assert WellFormedFrom(TRIPLET, 27);
    assert WellFormedFrom(TRIPLET, 26);
    assert WellFormedFrom(TRIPLET, 25);
    assert WellFormedFrom(TRIPLET, 24);
    assert WellFormedFrom(TRIPLET, 23);
    assert StartsOutside(Digit, TRIPLET, 24);
    assert WellFormedFrom(TRIPLET, 22);
    assert WellFormedFrom(TRIPLET, 21);
    assert WellFormedFrom(TRIPLET, 20);
    assert WellFormedFrom(TRIPLET, 19);
    assert WellFormedFrom(TRIPLET, 18);
  }

  /** The tokens from the name's closing quote on are well formed. */
  lemma TripletMiddleWellFormed()
    ensures WellFormedFrom(TRIPLET, 9)
  {
    TripletTailWellFormed();
    assert WellFormedFrom(TRIPLET, 17);
    assert WellFormedFrom(TRIPLET, 16);
    assert WellFormedFrom(TRIPLET, 15);
    assert WellFormedFrom(TRIPLET, 14);
    assert WellFormedFrom(TRIPLET, 13);
    assert WellFormedFrom(TRIPLET, 12);
    assert WellFormedFrom(TRIPLET, 11);
    assert WellFormedFrom(TRIPLET, 10);
  }

  /** The expression is well formed: each `\s*` is followed by a literal
      or digits, each `[^"]+` by a quote, and `\d+` by `\s*,`. Checked
      token by token from the end. */
  lemma TripletWellFormed()
    ensures WellFormed(TRIPLET)
  {
    TripletMiddleWellFormed();
    assert WellFormedFrom(TRIPLET, 8);
    assert WellFormedFrom(TRIPLET, 7);
    assert WellFormedFrom(TRIPLET, 6);
    assert WellFormedFrom(TRIPLET, 5);
    assert WellFormedFrom(TRIPLET, 4);
    assert WellFormedFrom(TRIPLET, 3);
    assert WellFormedFrom(TRIPLET, 2);
    assert WellFormedFrom(TRIPLET, 1);
    assert WellFormedFrom(TRIPLET, 0);
    WellFormedFromAll(TRIPLET, 0);
  }

  const NAME_GROUP: Token := Rep(NotQuote, 1, true)
  const PRICE_GROUP: Token := Rep(Digit, 1, true)

  /** The three groups are the name, the price digits and the first photo. */
  lemma TripletCaptures()
    ensures Captures(TRIPLET, 0) == [NAME_GROUP, PRICE_GROUP, NAME_GROUP]
  {
    TripletCapturesTail();
    assert Captures(TRIPLET, 13) == [NAME_GROUP, PRICE_GROUP, NAME_GROUP];
    assert Captures(TRIPLET, 12) == [NAME_GROUP, PRICE_GROUP, NAME_GROUP];
    assert Captures(TRIPLET, 11) == [NAME_GROUP, PRICE_GROUP, NAME_GROUP];
    assert Captures(TRIPLET, 10) == [NAME_GROUP, PRICE_GROUP, NAME_GROUP];
    assert Captures(TRIPLET, 9) == [NAME_GROUP, PRICE_GROUP, NAME_GROUP];
    assert Captures(TRIPLET, 8) == [NAME_GROUP, PRICE_GROUP, NAME_GROUP];
    assert Captures(TRIPLET, 7) == [NAME_GROUP, PRICE_GROUP, NAME_GROUP];
    assert Captures(TRIPLET, 6) == [NAME_GROUP, PRICE_GROUP, NAME_GROUP];
    assert Captures(TRIPLET, 5) == [NAME_GROUP, PRICE_GROUP, NAME_GROUP];
    assert Captures(TRIPLET, 4) == [NAME_GROUP, PRICE_GROUP, NAME_GROUP];
    assert Captures(TRIPLET, 3) == [NAME_GROUP, PRICE_GROUP, NAME_GROUP];
    assert Captures(TRIPLET, 2) == [NAME_GROUP, PRICE_GROUP, NAME_GROUP];
    assert Captures(TRIPLET, 1) == [NAME_GROUP, PRICE_GROUP, NAME_GROUP];
  }

  lemma TripletCapturesTail()
    ensures Captures(TRIPLET, 14) == [PRICE_GROUP, NAME_GROUP]
  {
    TripletCapturesPhoto();
    assert Captures(TRIPLET, 22) == [PRICE_GROUP, NAME_GROUP];
    assert Captures(TRIPLET, 21) == [PRICE_GROUP, NAME_GROUP];
    assert Captures(TRIPLET, 20) == [PRICE_GROUP, NAME_GROUP];
    assert Captures(TRIPLET, 19) == [PRICE_GROUP, NAME_GROUP];
    assert Captures(TRIPLET, 18) == [PRICE_GROUP, NAME_GROUP];
    assert Captures(TRIPLET, 17) == [PRICE_GROUP, NAME_GROUP];
    assert Captures(TRIPLET, 16) == [PRICE_GROUP, NAME_GROUP];
    assert Captures(TRIPLET, 15) == [PRICE_GROUP, NAME_GROUP];
  }

  /** From the price's trailing `\s*` on, only the photo is captured. */
  lemma TripletCapturesPhoto()
    ensures Captures(TRIPLET, 23) == [NAME_GROUP]
  {
    assert Captures(TRIPLET, 35) == [];
    assert Captures(TRIPLET, 34) == [];
    assert Captures(TRIPLET, 33) == [NAME_GROUP];
    assert Captures(TRIPLET, 32) == [NAME_GROUP];
    assert Captures(TRIPLET, 31) == [NAME_GROUP];
    assert Captures(TRIPLET, 30) == [NAME_GROUP];
    assert Captures(TRIPLET, 29) == [NAME_GROUP];
    assert Captures(TRIPLET, 28) == [NAME_GROUP];
    assert Captures(TRIPLET, 27) == [NAME_GROUP];
    assert Captures(TRIPLET, 26) == [NAME_GROUP];
    assert Captures(TRIPLET, 25) == [NAME_GROUP];
    assert Captures(TRIPLET, 24) == [NAME_GROUP];
  }

  /** The greedy matcher and the expression agree on the concrete pattern:
      the pattern matches `s[k..j]` with groups `g` exactly when the
      matcher, started at `k`, returns that end and those groups. */
  lemma TripletAgrees(s: string, k: nat, j: nat, g: seq<string>)
    requires k <= j <= |s|
    ensures Sem(TRIPLET, 0, s, k, j, g) <==> MatchFrom(TRIPLET, 0, s, k) == Some(Match(j, g))
  {
    if Sem(TRIPLET, 0, s, k, j, g) {
      TripletWellFormed();
      MatchComplete(TRIPLET, 0, s, k, j, g);
    }
    if MatchFrom(TRIPLET, 0, s, k) == Some(Match(j, g)) {
      MatchSound(TRIPLET, 0, s, k);
    }
  }

  /** The three groups of a match: a name and a photo of at least one
      character and no quote, and a non-empty run of ASCII digits. */
  datatype Groups = Groups(name: string, digits: string, photo: string)

  predicate GroupsOk(t: Groups) {
    && |t.name| > 0 && '"' !in t.name
    && |t.digits| > 0 && AllDigits(t.digits)
    && |t.photo| > 0 && '"' !in t.photo
  }

  /** What `m.group(1)`, `m.group(2)` and `m.group(3)` can hold. */
  type Triple = t: Groups | GroupsOk(t) witness Groups("?", "0", "?")

  lemma NoQuote(text: string)
    requires GroupFits(text, NAME_GROUP)
    ensures |text| > 0 && '"' !in text
  {
  }

  /** Every match of the concrete pattern has exactly three groups, shaped
      as `([^"]+)`, `(\d+)` and `([^"]+)` say. */
  lemma TripletGroups(s: string, k: nat)
    requires k <= |s| && MatchFrom(TRIPLET, 0, s, k).Some?
    ensures var g := MatchFrom(TRIPLET, 0, s, k).value.groups;
      |g| == 3 && GroupsOk(Groups(g[0], g[1], g[2]))
  {
    MatchGroups(TRIPLET, 0, s, k);
    TripletCaptures();
    var g := MatchFrom(TRIPLET, 0, s, k).value.groups;
    assert GroupFits(g[0], NAME_GROUP) && GroupFits(g[1], PRICE_GROUP) && GroupFits(g[2], NAME_GROUP);
    NoQuote(g[0]);
    NoQuote(g[2]);
  }

  /** The groups of the match the matcher finds at `k`. */
  function TripleAt(s: string, k: nat, m: Match): (t: Triple)
    requires k <= |s| && MatchFrom(TRIPLET, 0, s, k) == Some(m)
    ensures [t.name, t.digits, t.photo] == m.groups
  {
    TripletGroups(s, k);
    Groups(m.groups[0], m.groups[1], m.groups[2])
  }

  // ---------------------------------------------------------------------
  // `while (m.find())`: leftmost matches, left to right
  // ---------------------------------------------------------------------

  /** `Matcher.find` from position `from`: the first start, scanning right,
      at which the pattern matches. Every match consumes at least the
      opening brace, so the end lies past the start. */
  function FindFrom(s: string, from: nat): (r: Option<(nat, Match)>)
    requires from <= |s|
    ensures r.Some? ==> from <= r.value.0 < r.value.1.end <= |s|
    ensures r.Some? ==> MatchFrom(TRIPLET, 0, s, r.value.0) == Some(r.value.1)
    decreases |s| - from
  {
    match MatchFrom(TRIPLET, 0, s, from)
    case Some(m) =>
      assert MatchFrom(TRIPLET, 0, s, from) == MatchFrom(TRIPLET, 1, s, from + 1);
      Some((from, m))
    case None => if from == |s| then None else FindFrom(s, from + 1)
  }

  /** No match of the pattern starts in `[lo, hi)`. */
  ghost predicate NoMatchIn(s: string, lo: nat, hi: nat) {
    forall k, j, g | lo <= k < hi && k <= j <= |s| :: !Sem(TRIPLET, 0, s, k, j, g)
  }

  lemma {:induction false} FindLeftmost(s: string, from: nat)
    requires from <= |s|
    ensures var r := FindFrom(s, from);
      forall k | from <= k <= |s| && (r.None? || k < r.value.0) :: MatchFrom(TRIPLET, 0, s, k).None?
    decreases |s| - from
  {
    if MatchFrom(TRIPLET, 0, s, from).None? && from < |s| {
      FindLeftmost(s, from + 1);
    }
  }

  /** What `find` promises, in terms of the expression: the match returned
      is a match, and none starts between `from` and it; when nothing is
      returned, no match starts at or after `from`. */
  lemma FindFromSem(s: string, from: nat)
    requires from <= |s|
    ensures var r := FindFrom(s, from);
      && (r.Some? ==> Sem(TRIPLET, 0, s, r.value.0, r.value.1.end, r.value.1.groups))
      && (r.Some? ==> NoMatchIn(s, from, r.value.0))
      && (r.None? ==> NoMatchIn(s, from, |s| + 1))
  {
    var r := FindFrom(s, from);
    FindLeftmost(s, from);
    if r.Some? {
      MatchSound(TRIPLET, 0, s, r.value.0);
    }
    var hi := if r.Some? then r.value.0 else |s| + 1;
    forall k, j, g | from <= k < hi && k <= j <= |s|
      ensures !Sem(TRIPLET, 0, s, k, j, g)
    {
      TripletAgrees(s, k, j, g);
    }
  }

  /** One match found by the loop: where it starts and ends, and its groups. */
  datatype Hit = Hit(start: nat, end: nat, triple: Triple)

  /** Every match `while (m.find())` visits, in order: after each match the
      search resumes at its end. */
  function Hits(s: string, from: nat): (hs: seq<Hit>)
    requires from <= |s|
    decreases |s| - from
  {
    match FindFrom(s, from)
    case None => []
    case Some((k, m)) => [Hit(k, m.end, TripleAt(s, k, m))] + Hits(s, m.end)
  }

  /** Where the search for hit `x` begins. */
  function ResumeFrom(hs: seq<Hit>, from: nat, x: nat): nat
    requires x <= |hs|
  {
    if x == 0 then from else hs[x - 1].end
  }

  /** The hits are the pattern's matches, taken left to right without
      overlap, each the leftmost one at or after the end of the previous. */
  lemma {:induction false} HitsFind(s: string, from: nat)
    requires from <= |s|
    ensures var hs := Hits(s, from);
      && (forall x | 0 <= x < |hs| :: ResumeFrom(hs, from, x) <= |s|
            && FindFrom(s, ResumeFrom(hs, from, x)) == Some((hs[x].start, Match(hs[x].end, [hs[x].triple.name, hs[x].triple.digits, hs[x].triple.photo]))))
      && FindFrom(s, ResumeFrom(hs, from, |hs|)).None?
    decreases |s| - from
  {
    match FindFrom(s, from)
    case None =>
    case Some((k, m)) =>
      var hs := Hits(s, from);
      var rest := Hits(s, m.end);
      HitsFind(s, m.end);
      assert hs == [Hit(k, m.end, TripleAt(s, k, m))] + rest;
      forall x | 1 <= x <= |hs|
        ensures ResumeFrom(hs, from, x) == ResumeFrom(rest, m.end, x - 1)
      {
      }
  }

  // ---------------------------------------------------------------------
  // From scripts to products
  // ---------------------------------------------------------------------

  /** `script.data()`, or `script.html()` when that is empty; `None` when
      both are empty and the script is skipped. */
  function ScriptText(el: Element): (r: Option<string>)
    ensures r.None? <==> el.data == [] && el.html == []
    ensures r.Some? ==> r.value != [] && (r.value == el.data || (el.data == [] && r.value == el.html))
  {
    if el.data != [] then Some(el.data)
    else if el.html != [] then Some(el.html)
    else None
  }

  function Triples(hs: seq<Hit>): (ts: seq<Triple>)
    ensures |ts| == |hs|
    ensures forall x | 0 <= x < |hs| :: ts[x] == hs[x].triple
  {
    seq(|hs|, x requires 0 <= x < |hs| => hs[x].triple)
  }

  /** The groups of every match in one script's text, once unescaped. */
  function TextTriples(raw: string): seq<Triple> {
    var s := Normalize(raw);
    Triples(Hits(s, 0))
  }

  /** The groups found in a list of scripts: script by script, in document
      order, and within a script in the order the loop finds them. */
  function ScriptTriples(scripts: seq<Element>): seq<Triple>
    decreases |scripts|
  {
    if scripts == [] then []
    else
      var here := match ScriptText(scripts[0]) case None => [] case Some(raw) => TextTriples(raw);
      here + ScriptTriples(scripts[1..])
  }

  /** The scripts are read independently and their results concatenated
      in document order. */
  lemma {:induction false} ScriptTriplesAppend(a: seq<Element>, b: seq<Element>)
    ensures ScriptTriples(a + b) == ScriptTriples(a) + ScriptTriples(b)
    decreases |a|
  {
    if a == [] {
      assert a + b == b;
    } else {
      assert (a + b)[1..] == a[1..] + b;
      ScriptTriplesAppend(a[1..], b);
    }
  }

  /** A script whose data and inner HTML are both empty contributes nothing. */
  lemma EmptyScriptSkipped(el: Element, rest: seq<Element>)
    requires el.data == [] && el.html == []
    ensures ScriptTriples([el] + rest) == ScriptTriples(rest)
  {
    assert ([el] + rest)[1..] == rest;
  }

  /** `Long.parseLong` accepts the digit run. */
  predicate FitsLong(t: Triple) {
    DigitsValue(t.digits) <= MAX_LONG
  }

  /** `Long.parseLong(m.group(2))` and `product(name, price, "GS", photo,
      BASE, PATH + encodedQuery)` for each triple in order; a digit run
      beyond `Long.MAX_VALUE` throws and fails the whole scrape. */
  function ToProducts(ts: seq<Triple>, enc: string, hostOf: string -> string): (r: Result<seq<Product>, ScrapeError>)
    ensures r.Success? ==> |r.value| == |ts|
    ensures r.Failure? ==> r.error == PriceOverflow
    decreases |ts|
  {
    if ts == [] then Success([])
    else
      var v := DigitsValue(ts[0].digits);
      if v > MAX_LONG then Failure(PriceOverflow)
      else
        match ToProducts(ts[1..], enc, hostOf)
        case Failure(e) => Failure(e)
        case Success(ps) => Success([MakeProduct(ts[0].name, v, CURRENCY, ts[0].photo, BASE, PATH + enc, hostOf)] + ps)
  }

  /** The conversion fails exactly when some matched price does not fit a
      `long`. */
  lemma {:induction false} ToProductsFails(ts: seq<Triple>, enc: string, hostOf: string -> string)
    ensures ToProducts(ts, enc, hostOf).Failure? <==> exists x | 0 <= x < |ts| :: !FitsLong(ts[x])
    decreases |ts|
  {
    if ts != [] {
      ToProductsFails(ts[1..], enc, hostOf);
      if exists x | 0 <= x < |ts| :: !FitsLong(ts[x]) {
        var x :| 0 <= x < |ts| && !FitsLong(ts[x]);
        if x > 0 {
          assert ts[1..][x - 1] == ts[x];
        }
      }
      if exists x | 0 <= x < |ts[1..]| :: !FitsLong(ts[1..][x]) {
        var x :| 0 <= x < |ts[1..]| && !FitsLong(ts[1..][x]);
        assert ts[1..][x] == ts[x + 1];
      }
    }
  }

  /** A product made from a triple: name and photo verbatim, the digits'
      value as price, the label "GS", the Real host and the search URL. */
  predicate MadeFrom(p: Product, t: Triple, enc: string, hostOf: string -> string) {
    && p.name == Some(t.name)
    && p.price == DigitsValue(t.digits)
    && p.currency == "GS"
    && p.image == t.photo
    && p.origin == hostOf(BASE)
    && p.url == BASE + PATH + enc
  }

  /** On success the products are the triples, one for one and in order. */
  lemma {:induction false} ToProductsFields(ts: seq<Triple>, enc: string, hostOf: string -> string)
    ensures var r := ToProducts(ts, enc, hostOf);
      r.Success? ==> forall x | 0 <= x < |ts| :: MadeFrom(r.value[x], ts[x], enc, hostOf)
    decreases |ts|
  {
    var r := ToProducts(ts, enc, hostOf);
    if ts != [] && r.Success? {
      ToProductsFields(ts[1..], enc, hostOf);
      var tail := ToProducts(ts[1..], enc, hostOf).value;
      assert r.value == [r.value[0]] + tail;
      assert MadeFrom(r.value[0], ts[0], enc, hostOf);
      forall x | 1 <= x < |ts|
        ensures MadeFrom(r.value[x], ts[x], enc, hostOf)
      {
        assert r.value[x] == tail[x - 1] && ts[x] == ts[1..][x - 1];
      }
    }
  }

  // ---------------------------------------------------------------------
  // The scrape
  // ---------------------------------------------------------------------

  /** `RealScraper.scrape`: one static fetch of BASE + PATH + encodedQuery
      whose failure propagates, then the triples of every `script` element. */
  function ScrapeReal(env: Env, enc: string): Run<seq<Product>> {
    var url := BASE + PATH + enc;
    match env.fetch(url)
    case Fetched(d) => Run([Static(url)], ToProducts(ScriptTriples(Select(d, "script")), enc, env.hostOf))
    case _ => Run([Static(url)], Failure(FetchFailed(Static(url))))
  }

  /** One request is made; the scrape succeeds exactly when the page is
      fetched and every matched price fits a `long`; every product is
      labelled "GS", links to the search, and has a name and a photo of at
      least one character and no quote. */
  lemma RealScrape(env: Env, enc: string)
    ensures var url, r := BASE + PATH + enc, ScrapeReal(env, enc);
      var out := env.fetch(url);
      && r.calls == [Static(url)]
      && (r.result.Success? <==>
            out.Fetched? && forall t | t in ScriptTriples(Select(out.doc, "script")) :: FitsLong(t))
      && (r.result.Success? ==> forall p | p in r.result.value ::
            && p.currency == "GS" && p.url == url
            && p.name.Some? && |p.name.value| > 0 && '"' !in p.name.value
            && |p.image| > 0 && '"' !in p.image)
  {
    var url := BASE + PATH + enc;
    if env.fetch(url).Fetched? {
      var ts := ScriptTriples(Select(env.fetch(url).doc, "script"));
      ToProductsFails(ts, enc, env.hostOf);
      ToProductsFields(ts, enc, env.hostOf);
      var r := ToProducts(ts, enc, env.hostOf);
      if r.Success? {
        forall p | p in r.value
          ensures p.name.Some? && |p.name.value| > 0 && '"' !in p.name.value && |p.image| > 0 && '"' !in p.image
        {
          var x :| 0 <= x < |r.value| && r.value[x] == p;
          assert MadeFrom(p, ts[x], enc, env.hostOf);
          assert GroupsOk(ts[x]);
        }
      }
    }
  }
}
