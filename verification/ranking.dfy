/** How the controller turns the scrapers' lists into the page's list:
    concatenate them in scraper order, keep the products whose name contains
    the query (ASCII letters compared without case), and sort stably by
    price, then by name compared without case. */
module Ranking {
  import opened Wrappers
  import opened Text
  import opened Products

  // ---------------------------------------------------------------------
  // Merging
  // ---------------------------------------------------------------------

  /** What one scraper contributes: its list, or nothing when it threw or
      missed its wait. */
  function Contribution(o: Option<seq<Product>>): seq<Product> {
    o.GetOr([])
  }

  /** `flatMap(List::stream)` over the scrapers, in scraper order. */
  function Merge(results: seq<Option<seq<Product>>>): seq<Product>
    decreases |results|
  {
    if results == [] then [] else Contribution(results[0]) + Merge(results[1..])
  }

  /** Merging distributes over splitting the scrapers into two groups. */
  lemma {:induction false} MergeAppend(a: seq<Option<seq<Product>>>, b: seq<Option<seq<Product>>>)
    ensures Merge(a + b) == Merge(a) + Merge(b)
    decreases |a|
  {
    if a == [] {
      assert a + b == b;
    } else {
      assert (a + b)[1..] == a[1..] + b;
      MergeAppend(a[1..], b);
    }
  }

  /** Scraper `i`'s contribution sits between those of the scrapers before
      and after it, so a failing scraper removes exactly its own products
      and leaves every other contribution as it was. */
  lemma MergeSplit(results: seq<Option<seq<Product>>>, i: nat)
    requires i < |results|
    ensures Merge(results) == Merge(results[..i]) + Contribution(results[i]) + Merge(results[i + 1..])
    ensures Merge(results[i := None]) == Merge(results[..i]) + Merge(results[i + 1..])
  {
    assert results == results[..i] + ([results[i]] + results[i + 1..]);
    MergeAppend(results[..i], [results[i]] + results[i + 1..]);
    assert ([results[i]] + results[i + 1..])[1..] == results[i + 1..];
    var failed := results[i := None];
    assert failed == results[..i] + ([None] + results[i + 1..]);
    MergeAppend(results[..i], [None] + results[i + 1..]);
    assert ([None] + results[i + 1..])[1..] == results[i + 1..];
  }

  /** A product is merged exactly when some scraper contributed it. */
  lemma {:induction false} MergeMembers(rs: seq<Option<seq<Product>>>, p: Product)
    ensures p in Merge(rs) <==> exists i | 0 <= i < |rs| :: p in Contribution(rs[i])
    decreases |rs|
  {
    if rs != [] {
      MergeMembers(rs[1..], p);
      if p in Merge(rs[1..]) {
        var i :| 0 <= i < |rs[1..]| && p in Contribution(rs[1..][i]);
        assert rs[1..][i] == rs[i + 1];
      }
      if exists i | 0 <= i < |rs| :: p in Contribution(rs[i]) {
        var i :| 0 <= i < |rs| && p in Contribution(rs[i]);
        if i > 0 {
          assert rs[1..][i - 1] == rs[i];
        }
      }
    }
  }

  // ---------------------------------------------------------------------
  // Filtering
  // ---------------------------------------------------------------------

  /** `c.getName() != null && p.matcher(c.getName()).find()` with
      `p = Pattern.compile(Pattern.quote(q), CASE_INSENSITIVE)`. */
  predicate Keeps(q: string, p: Product) {
    p.name.Some? && FindIgnoringCase(p.name.value, q, 0).Some?
  }

  /** The products the filter keeps, in merged order. */
  function Filter(ps: seq<Product>, q: string): (r: seq<Product>)
    ensures |r| <= |ps|
    ensures multiset(r) <= multiset(ps)
    decreases |ps|
  {
    if ps == [] then []
    else
      assert ps == [ps[0]] + ps[1..];
      (if Keeps(q, ps[0]) then [ps[0]] else []) + Filter(ps[1..], q)
  }

  /** A product survives the filter exactly when it was merged, has a name,
      and that name contains the query as a literal substring, ASCII letters
      compared without case. */
  lemma {:induction false} FilterMembers(ps: seq<Product>, q: string, p: Product)
    ensures p in Filter(ps, q) <==> p in ps && p.name.Some? && ContainsIgnoringCase(p.name.value, q)
    decreases |ps|
  {
    if p.name.Some? {
      FindIffContains(p.name.value, q);
    }
    if ps != [] {
      FilterMembers(ps[1..], q, p);
      assert ps == [ps[0]] + ps[1..];
    }
  }

  /** On one product the filter keeps it exactly when its name contains the
      query, ignoring ASCII case. */
  lemma FilterSingle(x: Product, q: string)
    ensures Filter([x], q) == if x.name.Some? && ContainsIgnoringCase(x.name.value, q) then [x] else []
  {
    if x.name.Some? {
      FindIffContains(x.name.value, q);
    }
    assert [x][1..] == [];
  }

  /** The filter works piecewise over a concatenation: with `FilterSingle`,
      it keeps the matching products in merged order, duplicates included. */
  lemma {:induction false} FilterAppend(a: seq<Product>, b: seq<Product>, q: string)
    ensures Filter(a + b, q) == Filter(a, q) + Filter(b, q)
    decreases |a|
  {
    if a == [] {
      assert a + b == b;
    } else {
      assert (a + b)[1..] == a[1..] + b;
      FilterAppend(a[1..], b, q);
      FilterUnfold(a + b, q);
      FilterUnfold(a, q);
    }
  }

  lemma FilterUnfold(ps: seq<Product>, q: string)
    requires ps != []
    ensures Filter(ps, q) == (if Keeps(q, ps[0]) then [ps[0]] else []) + Filter(ps[1..], q)
  {
  }

  /** Every copy of a kept product survives: its count is unchanged, and a
      product that is not kept has count zero. */
  lemma {:induction false} FilterCount(ps: seq<Product>, q: string, x: Product)
    ensures multiset(Filter(ps, q))[x] ==
      if x.name.Some? && ContainsIgnoringCase(x.name.value, q) then multiset(ps)[x] else 0
    decreases |ps|
  {
    if x.name.Some? {
      FindIffContains(x.name.value, q);
    }
    if ps != [] {
      var fx := if Keeps(q, ps[0]) then [ps[0]] else [];
      FilterCount(ps[1..], q, x);
      FilterUnfold(ps, q);
      assert multiset(Filter(ps, q)) == multiset(fx) + multiset(Filter(ps[1..], q));
      assert ps == [ps[0]] + ps[1..];
      assert multiset(ps) == multiset([ps[0]]) + multiset(ps[1..]);
    }
  }

  /** Filtering and taking the products tied with `p` commute. */
  lemma {:induction false} FilterClass(ps: seq<Product>, q: string, p: Product)
    ensures Class(Filter(ps, q), p) == Filter(Class(ps, p), q)
    decreases |ps|
  {
    if ps != [] {
      var x, rest := ps[0], ps[1..];
      FilterClass(rest, q, p);
      var fx := if Keeps(q, x) then [x] else [];
      var cx := if Equiv(x, p) then [x] else [];
      ClassAppend(fx, Filter(rest, q), p);
      FilterAppend(cx, Class(rest, p), q);
      assert [x][1..] == [];
    }
  }

  // ---------------------------------------------------------------------
  // The order
  // ---------------------------------------------------------------------

  /** Lexicographic order on character codes; a proper prefix comes first. */
  predicate LexLeq(a: string, b: string)
    decreases |a|
  {
    |a| == 0 || (|b| > 0 && (a[0] < b[0] || (a[0] == b[0] && LexLeq(a[1..], b[1..]))))
  }

  lemma {:induction false} LexLeqRefl(a: string)
    ensures LexLeq(a, a)
    decreases |a|
  {
    if |a| > 0 {
      LexLeqRefl(a[1..]);
    }
  }

  lemma {:induction false} LexLeqTotal(a: string, b: string)
    ensures LexLeq(a, b) || LexLeq(b, a)
    decreases |a|
  {
    if |a| > 0 && |b| > 0 && a[0] == b[0] {
      LexLeqTotal(a[1..], b[1..]);
    }
  }

  lemma {:induction false} LexLeqTrans(a: string, b: string, c: string)
    requires LexLeq(a, b) && LexLeq(b, c)
    ensures LexLeq(a, c)
    decreases |a|
  {
    if |a| > 0 && a[0] == b[0] && b[0] == c[0] {
      LexLeqTrans(a[1..], b[1..], c[1..]);
    }
  }

  lemma {:induction false} LexLeqAntisym(a: string, b: string)
    requires LexLeq(a, b) && LexLeq(b, a)
    ensures a == b
    decreases |a|
  {
    if |a| > 0 {
      LexLeqAntisym(a[1..], b[1..]);
      assert a == [a[0]] + a[1..] && b == [b[0]] + b[1..];
    }
  }

  /** The name as `String.CASE_INSENSITIVE_ORDER` compares it: letter by
      letter after case folding, so the order is that of the folded names. */
  function NameKey(p: Product): (k: string)
    ensures |k| == |p.name.GetOr([])|
  {
    Lower(p.name.GetOr([]))
  }

  /** `Comparator.comparing(getPrice).thenComparing(getName,
      CASE_INSENSITIVE_ORDER)`, as "a sorts no later than b". */
  predicate Leq(a: Product, b: Product) {
    a.price < b.price || (a.price == b.price && LexLeq(NameKey(a), NameKey(b)))
  }

  /** Neither sorts before the other: same price, same folded name. */
  predicate Equiv(a: Product, b: Product) {
    a.price == b.price && NameKey(a) == NameKey(b)
  }

  /** The comparator is a total preorder whose ties are exactly `Equiv`. */
  lemma LeqPreorder(a: Product, b: Product, c: Product)
    ensures Leq(a, b) || Leq(b, a)
    ensures Leq(a, b) && Leq(b, c) ==> Leq(a, c)
    ensures Leq(a, b) && Leq(b, a) <==> Equiv(a, b)
  {
    LexLeqTotal(NameKey(a), NameKey(b));
    if Leq(a, b) && Leq(b, c) && a.price == b.price == c.price {
      LexLeqTrans(NameKey(a), NameKey(b), NameKey(c));
    }
    if Leq(a, b) && Leq(b, a) {
      LexLeqAntisym(NameKey(a), NameKey(b));
    }
    if Equiv(a, b) {
      LexLeqRefl(NameKey(a));
    }
  }

  /** Names equal up to ASCII case are tied. */
  lemma SameNameTied(a: Product, b: Product)
    requires a.price == b.price && a.name.Some? && b.name.Some?
    requires SameIgnoringCase(a.name.value, b.name.value)
    ensures Equiv(a, b) && Leq(a, b) && Leq(b, a)
  {
    LowerEqualIffSameIgnoringCase(a.name.value, b.name.value);
    LeqPreorder(a, b, b);
  }

  ghost predicate Sorted(s: seq<Product>) {
    forall i, j | 0 <= i < j < |s| :: Leq(s[i], s[j])
  }

  lemma SortedTail(s: seq<Product>)
    requires Sorted(s) && s != []
    ensures Sorted(s[1..])
  {
    assert forall i | 0 <= i < |s| - 1 :: s[1..][i] == s[i + 1];
  }

  // ---------------------------------------------------------------------
  // Stable sorting
  // ---------------------------------------------------------------------

  /** Inserts `x` after every element that does not sort after it. */
  function Insert(x: Product, xs: seq<Product>): (r: seq<Product>)
    ensures |r| == |xs| + 1
    ensures multiset(r) == multiset(xs) + multiset{x}
    decreases |xs|
  {
    if xs == [] then [x]
    else if Leq(xs[0], x) then
      assert xs == [xs[0]] + xs[1..];
      [xs[0]] + Insert(x, xs[1..])
    else [x] + xs
  }

  /** Sorts by inserting the elements in their original order, so that of
      two tied elements the earlier stays first. */
  function Sort(xs: seq<Product>): (r: seq<Product>)
    ensures |r| == |xs|
    ensures multiset(r) == multiset(xs)
    decreases |xs|
  {
    if xs == [] then []
    else
      assert xs == xs[..|xs| - 1] + [xs[|xs| - 1]];
      Insert(xs[|xs| - 1], Sort(xs[..|xs| - 1]))
  }

  lemma {:induction false} InsertSorted(x: Product, xs: seq<Product>)
    requires Sorted(xs)
    ensures Sorted(Insert(x, xs))
    decreases |xs|
  {
    if xs != [] {
      var r := Insert(x, xs);
      if Leq(xs[0], x) {
        var rest := Insert(x, xs[1..]);
        InsertSorted(x, xs[1..]);
        forall j | 0 <= j < |rest|
          ensures Leq(xs[0], rest[j])
        {
          assert rest[j] in multiset(rest);
          if rest[j] != x {
            assert rest[j] in multiset(xs[1..]);
            var k :| 0 <= k < |xs[1..]| && xs[1..][k] == rest[j];
            assert xs[1..][k] == xs[k + 1];
          }
        }
        assert forall i | 1 <= i < |r| :: r[i] == rest[i - 1];
      } else {
        forall j | 0 <= j < |xs|
          ensures Leq(x, xs[j])
        {
          LeqPreorder(x, xs[0], xs[j]);
          LeqPreorder(xs[0], x, x);
          if j > 0 {
            assert Leq(xs[0], xs[j]);
          } else {
            LeqPreorder(xs[0], xs[0], xs[0]);
          }
        }
        assert forall i | 1 <= i < |r| :: r[i] == xs[i - 1];
      }
    }
  }

  lemma {:induction false} SortSorted(xs: seq<Product>)
    ensures Sorted(Sort(xs))
    decreases |xs|
  {
    if xs != [] {
      SortSorted(xs[..|xs| - 1]);
      InsertSorted(xs[|xs| - 1], Sort(xs[..|xs| - 1]));
    }
  }

  /** The elements of `xs` tied with `p`, in their order in `xs`. */
  function Class(xs: seq<Product>, p: Product): seq<Product>
    decreases |xs|
  {
    if xs == [] then [] else (if Equiv(xs[0], p) then [xs[0]] else []) + Class(xs[1..], p)
  }

  lemma {:induction false} ClassAppend(a: seq<Product>, b: seq<Product>, p: Product)
    ensures Class(a + b, p) == Class(a, p) + Class(b, p)
    decreases |a|
  {
    if a == [] {
      assert a + b == b;
    } else {
      assert (a + b)[1..] == a[1..] + b;
      ClassAppend(a[1..], b, p);
    }
  }

  /** In a sorted list whose head sorts after `x`, nothing is tied with `x`. */
  lemma {:induction false} NoTieAfter(x: Product, xs: seq<Product>, p: Product)
    requires Sorted(xs) && xs != [] && !Leq(xs[0], x) && Equiv(x, p)
    ensures Class(xs, p) == []
    decreases |xs|
  {
    LeqPreorder(xs[0], x, p);
    LeqPreorder(x, p, xs[0]);
    LeqPreorder(xs[0], p, x);
    if |xs| > 1 {
      assert Leq(xs[0], xs[1]);
      LeqPreorder(xs[0], xs[1], x);
      SortedTail(xs);
      NoTieAfter(x, xs[1..], p);
    }
  }

  /** Inserting `x` into a sorted list puts it after everything tied with it. */
  lemma {:induction false} InsertClass(x: Product, xs: seq<Product>, p: Product)
    requires Sorted(xs)
    ensures Class(Insert(x, xs), p) == Class(xs, p) + Class([x], p)
    decreases |xs|
  {
    if xs == [] {
    } else if Leq(xs[0], x) {
      SortedTail(xs);
      InsertClass(x, xs[1..], p);
      InsertUnfold(x, xs);
      ClassCons(xs[0], xs[1..], Insert(x, xs[1..]), x, p);
      assert xs == [xs[0]] + xs[1..];
    } else {
      InsertClassHere(x, xs, p);
    }
  }

  /** Putting the same element in front of both sides keeps the relation
      between the tied elements. */
  lemma ClassCons(y: Product, tail: seq<Product>, r: seq<Product>, x: Product, p: Product)
    requires Class(r, p) == Class(tail, p) + Class([x], p)
    ensures Class([y] + r, p) == Class([y] + tail, p) + Class([x], p)
  {
    ClassAppend([y], r, p);
    ClassAppend([y], tail, p);
  }

  lemma InsertUnfold(x: Product, xs: seq<Product>)
    requires xs != [] && Leq(xs[0], x)
    ensures Insert(x, xs) == [xs[0]] + Insert(x, xs[1..])
  {
  }

  /** `x` goes in front of a sorted list whose head sorts after it. */
  lemma InsertClassHere(x: Product, xs: seq<Product>, p: Product)
    requires Sorted(xs) && xs != [] && !Leq(xs[0], x)
    ensures Class(Insert(x, xs), p) == Class(xs, p) + Class([x], p)
  {
    assert ([x] + xs)[1..] == xs;
    if Equiv(x, p) {
      NoTieAfter(x, xs, p);
    }
  }

  /** Stability: the tied elements keep their relative order. */
  lemma {:induction false} SortStable(xs: seq<Product>, p: Product)
    ensures Class(Sort(xs), p) == Class(xs, p)
    decreases |xs|
  {
    if xs != [] {
      var init, last := xs[..|xs| - 1], xs[|xs| - 1];
      SortStable(init, p);
      SortSorted(init);
      SortUnfold(xs);
      StableStep(xs, Sort(init), p);
    }
  }

  /** Inserting the last element into the sorted prefix keeps its tie class
      in input order. */
  lemma StableStep(xs: seq<Product>, sorted: seq<Product>, p: Product)
    requires xs != [] && Sorted(sorted) && Class(sorted, p) == Class(xs[..|xs| - 1], p)
    ensures Class(Insert(xs[|xs| - 1], sorted), p) == Class(xs, p)
  {
    var init, last := xs[..|xs| - 1], xs[|xs| - 1];
    InsertClass(last, sorted, p);
    assert xs == init + [last];
    ClassAppend(init, [last], p);
  }

  lemma SortUnfold(xs: seq<Product>)
    requires xs != []
    ensures Sort(xs) == Insert(xs[|xs| - 1], Sort(xs[..|xs| - 1]))
  {
  }

  // ---------------------------------------------------------------------
  // The ranked list
  // ---------------------------------------------------------------------

  /** Filter, then sort. */
  function Rank(q: string, merged: seq<Product>): (r: seq<Product>)
    ensures |r| <= |merged|
  {
    Sort(Filter(merged, q))
  }

  /** The ranked list is a permutation of the kept products, sorted by price
      then folded name, with tied products in merged order; every product in
      it has a name containing the query. */
  lemma RankSpec(q: string, merged: seq<Product>)
    ensures var r := Rank(q, merged);
      && multiset(r) == multiset(Filter(merged, q))
      && (forall x :: multiset(r)[x] ==
            if x.name.Some? && ContainsIgnoringCase(x.name.value, q) then multiset(merged)[x] else 0)
      && Sorted(r)
      && (forall p :: Class(r, p) == Filter(Class(merged, p), q))
      && (forall p | p in r :: p in merged && p.name.Some? && ContainsIgnoringCase(p.name.value, q))
  {
    var kept := Filter(merged, q);
    SortSorted(kept);
    forall x
      ensures multiset(Sort(kept))[x] ==
        if x.name.Some? && ContainsIgnoringCase(x.name.value, q) then multiset(merged)[x] else 0
    {
      FilterCount(merged, q, x);
    }
    forall p
      ensures Class(Sort(kept), p) == Filter(Class(merged, p), q)
    {
      SortStable(kept, p);
      FilterClass(merged, q, p);
    }
    forall p | p in Rank(q, merged)
      ensures p in merged && p.name.Some? && ContainsIgnoringCase(p.name.value, q)
    {
      assert p in multiset(kept);
      FilterMembers(merged, q, p);
    }
  }
}
