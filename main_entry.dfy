/**
 * `run_selenium_scraper()` and `main()` of main.py: the Selenium run, the tally of products
 * per category in first-appearance order, the three samples and the exit code.
 */
module Entry {
  import opened Strings
  import opened Product
  import opened Site
  import opened BrowserScraper
  import BrowserProperties
  import RequestsProperties

  // ----- run_selenium_scraper -----

  /**
   * What `run_selenium_scraper()` returns: the products of the category loop of a new scraper
   * when there are some, `close()` did not raise and the JSON file could be written (`saved`);
   * [] otherwise
   */
  ghost function SeleniumRun(browser: nat -> Reply, increment: nat -> int, bound: int, saved: bool): seq<ProductRecord>
    requires IncrementsValid(increment) && HeightsBounded(browser, bound)
  {
    var l := SeleniumScrape(browser, increment, bound);
    var closed := !l.session.driver || browser(|l.session.commands|).ok;
    if !closed then []
    else if l.products == [] then []
    else if saved then l.products
    else []
  }

  /** `scrape_all_categories()` of a new `SeleniumScraper`: every search term from a session without a driver */
  ghost function SeleniumScrape(browser: nat -> Reply, increment: nat -> int, bound: int): Listing
    requires IncrementsValid(increment) && HeightsBounded(browser, bound)
  {
    BrowserAllFrom(SearchList(browser, increment, bound, BrowserExtractor), SearchTerms, 0, [], Session(false, [], []))
  }

  /** `run_selenium_scraper()`: scrape every category, close the driver, save a non-empty result */
  method RunSeleniumScraper(browser: nat -> Reply, increment: nat -> int, ghost bound: int, saved: bool) returns (products: seq<ProductRecord>)
    requires IncrementsValid(increment) && HeightsBounded(browser, bound)
    ensures products == SeleniumRun(browser, increment, bound, saved)
  {
    var scraper := new SeleniumScraper(browser, increment, bound);
    var all := scraper.ScrapeAllCategories();
    var ok := scraper.Close();
    if !ok {
      return [];
    }
    if all != [] && saved {
      return all;
    }
    return [];
  }

  /** The records of the category loop are well-formed, of the search terms and in term order. */
  lemma SeleniumScrapeSpec(browser: nat -> Reply, increment: nat -> int, bound: int)
    requires IncrementsValid(increment) && HeightsBounded(browser, bound)
    ensures var ps := SeleniumScrape(browser, increment, bound).products;
      && (forall i | 0 <= i < |ps| :: WellFormedRecord(ps[i]) && ps[i].category in SearchTerms)
      && RequestsProperties.InTermOrder(ps, SearchTerms)
  {
    var list := SearchList(browser, increment, bound, BrowserExtractor);
    BrowserProperties.ListSearches(browser, increment, bound);
    BrowserProperties.BrowserCategoriesSpec(list, Session(false, [], []));
    assert SeleniumScrape(browser, increment, bound) == BrowserAllFrom(list, SearchTerms, 0, [], Session(false, [], []));
  }

  /**
   * `run_selenium_scraper()` gives well-formed records of the search terms, in term order; a
   * non-empty result is the whole scrape, and it is the whole scrape whenever closing and
   * saving succeed.
   */
  lemma SeleniumRunSpec(browser: nat -> Reply, increment: nat -> int, bound: int, saved: bool)
    requires IncrementsValid(increment) && HeightsBounded(browser, bound)
    ensures var r := SeleniumRun(browser, increment, bound, saved);
      var l := SeleniumScrape(browser, increment, bound);
      && (forall i | 0 <= i < |r| :: WellFormedRecord(r[i]) && r[i].category in SearchTerms)
      && RequestsProperties.InTermOrder(r, SearchTerms)
      && (r != [] ==> saved && r == l.products)
      && (saved && (!l.session.driver || browser(|l.session.commands|).ok) ==> r == l.products)
  {
    SeleniumScrapeSpec(browser, increment, bound);
  }

  // ----- the tally -----

  /** The category of every product, in order */
  function Categories(ps: seq<ProductRecord>): (cs: seq<string>)
    ensures |cs| == |ps| && forall i | 0 <= i < |ps| :: cs[i] == ps[i].category
  {
    seq(|ps|, i requires 0 <= i < |ps| => ps[i].category)
  }

  /** The distinct elements of `s` in the order they first appear: the key order of a Python dict filled from `s` */
  function FirstAppearances<T(==,!new)>(s: seq<T>): (r: seq<T>)
    ensures Distinct(r)
    ensures forall x :: x in r <==> x in s
    decreases |s|
  {
    if s == [] then []
    else
      var p := FirstAppearances(s[..|s| - 1]);
      var x := s[|s| - 1];
      assert forall y :: y in s <==> y in s[..|s| - 1] || y == x by {
        assert s == s[..|s| - 1] + [x];
      }
      if x in p then p else p + [x]
  }

  /** 1 at `x`, 0 elsewhere */
  function Indicator<T(==)>(x: T): T -> nat {
    (y: T) => if y == x then 1 else 0
  }

  /** How often each value occurs in `s` */
  function CountsOf<T(==)>(s: seq<T>): T -> nat {
    (y: T) => Count(s, y)
  }

  /** The count a dict gives a key, 0 for a missing key */
  function CountIn<T>(counts: map<T, nat>): T -> nat {
    (y: T) => if y in counts then counts[y] else 0
  }

  /** `f(x)` summed over the elements of `order` */
  function SumBy<T>(order: seq<T>, f: T -> nat): nat
    decreases |order|
  {
    if order == [] then 0 else SumBy(order[..|order| - 1], f) + f(order[|order| - 1])
  }

  /**
   * The `for product in products` tally: `counts[c]` is how many products have category `c`,
   * `order` lists the keys in insertion order.
   */
  method TallyCategories(products: seq<ProductRecord>) returns (order: seq<string>, counts: map<string, nat>)
    ensures order == FirstAppearances(Categories(products))
    ensures forall c :: c in counts <==> c in Categories(products)
    ensures forall c | c in counts :: counts[c] == Count(Categories(products), c) && counts[c] >= 1
    ensures SumBy(order, CountIn(counts)) == |products|
  {
    ghost var cats := Categories(products);
    order := [];
    counts := map[];
    for i := 0 to |products|
      invariant order == FirstAppearances(cats[..i])
      invariant forall c :: c in counts <==> c in cats[..i]
      invariant forall c | c in counts :: counts[c] == Count(cats[..i], c)
    {
      var cat := products[i].category;
      assert cats[i] == cat;
      TakeOneMore(cats, i);
      FirstAppearancesSnoc(cats[..i], cat);
      if cat !in counts {
        counts := counts[cat := 0];
        order := order + [cat];
      }
      counts := counts[cat := counts[cat] + 1];
      forall c | c in counts
        ensures counts[c] == Count(cats[..i + 1], c)
      {
        CountSnoc(cats[..i], cat, c);
      }
    }
    assert cats[..|products|] == cats;
    TallyTotal(order, counts, cats);
  }

  /** A prefix one longer is the prefix and the next element. */
  lemma TakeOneMore<T>(s: seq<T>, i: nat)
    requires i < |s|
    ensures s[..i + 1] == s[..i] + [s[i]]
  {
  }

  /** Counts that agree with `s` on its distinct elements sum to `|s|`. */
  lemma TallyTotal<T(!new)>(order: seq<T>, counts: map<T, nat>, s: seq<T>)
    requires order == FirstAppearances(s)
    requires forall c | c in counts :: counts[c] == Count(s, c)
    requires forall c :: c in counts <==> c in s
    ensures SumBy(order, CountIn(counts)) == |s|
  {
    forall c | c in order
      ensures CountIn(counts)(c) == CountsOf(s)(c)
    {
    }
    SumByEqual(order, CountIn(counts), CountsOf(s));
    TotalOfFirstAppearances(s);
  }

  /** The first appearances of one more element */
  lemma FirstAppearancesSnoc<T(!new)>(s: seq<T>, x: T)
    ensures FirstAppearances(s + [x]) == if x in FirstAppearances(s) then FirstAppearances(s) else FirstAppearances(s) + [x]
  {
    assert (s + [x])[..|s|] == s;
  }

  /** Sums of two functions that agree on `order` agree. */
  lemma {:induction false} SumByEqual<T>(order: seq<T>, f: T -> nat, g: T -> nat)
    requires forall x | x in order :: f(x) == g(x)
    ensures SumBy(order, f) == SumBy(order, g)
    decreases |order|
  {
    if order != [] {
      SumByEqual(order[..|order| - 1], f, g);
    }
  }

  /** The sum of a pointwise sum is the sum of the sums. */
  lemma {:induction false} SumByAdd<T>(order: seq<T>, f: T -> nat, g: T -> nat, h: T -> nat)
    requires forall x | x in order :: h(x) == f(x) + g(x)
    ensures SumBy(order, h) == SumBy(order, f) + SumBy(order, g)
    decreases |order|
  {
    if order != [] {
      SumByAdd(order[..|order| - 1], f, g, h);
    }
  }

  /** Over distinct elements, the indicator of `x` sums to 1 when `x` is among them and to 0 otherwise. */
  lemma {:induction false} SumByIndicator<T>(order: seq<T>, x: T)
    requires Distinct(order)
    ensures SumBy(order, Indicator(x)) == if x in order then 1 else 0
    decreases |order|
  {
    if order != [] {
      var init := order[..|order| - 1];
      assert order == init + [order[|order| - 1]];
      SumByIndicator(init, x);
    }
  }

  /** Summing over one more element adds its value. */
  lemma SumBySnoc<T>(order: seq<T>, x: T, f: T -> nat)
    ensures SumBy(order + [x], f) == SumBy(order, f) + f(x)
  {
    assert (order + [x])[..|order|] == order;
  }

  /** Counting one more element */
  lemma CountSnoc<T>(s: seq<T>, x: T, y: T)
    ensures Count(s + [x], y) == Count(s, y) + (if y == x then 1 else 0)
  {
    CountAppend(s, [x], y);
    assert [x][1..] == [];
  }

  /** The counts of the distinct categories sum to the number of products. */
  lemma {:induction false} TotalOfFirstAppearances<T(!new)>(s: seq<T>)
    ensures SumBy(FirstAppearances(s), CountsOf(s)) == |s|
    decreases |s|
  {
    if s != [] {
      var init := s[..|s| - 1];
      var x := s[|s| - 1];
      assert s == init + [x];
      var p := FirstAppearances(init);
      TotalOfFirstAppearances(init);
      forall y
        ensures CountsOf(s)(y) == CountsOf(init)(y) + Indicator(x)(y)
      {
        CountSnoc(init, x, y);
      }
      if x in p {
        SumByAdd(p, CountsOf(init), Indicator(x), CountsOf(s));
        SumByIndicator(p, x);
      } else {
        forall y | y in p
          ensures CountsOf(s)(y) == CountsOf(init)(y)
        {
        }
        SumByEqual(p, CountsOf(s), CountsOf(init));
        SumBySnoc(p, x, CountsOf(s));
      }
    }
  }

  /** The rank of a value in `terms`: its position */
  function TermRank(terms: seq<string>): string -> int {
    (x: string) => Position(terms, x)
  }

  /**
   * The values of a sequence sorted by a rank that tells them apart first appear in strictly
   * increasing rank.
   */
  lemma {:induction false} FirstAppearancesRanked<T(!new)>(cs: seq<T>, rank: T -> int)
    requires forall i, j | 0 <= i < j < |cs| :: rank(cs[i]) <= rank(cs[j])
    requires forall x, y | x in cs && y in cs && rank(x) == rank(y) :: x == y
    ensures StrictlyRanked(FirstAppearances(cs), rank)
    decreases |cs|
  {
    if cs != [] {
      var init := cs[..|cs| - 1];
      var x := cs[|cs| - 1];
      assert cs == init + [x];
      var p := FirstAppearances(init);
      assert StrictlyRanked(p, rank) by {
        assert forall i | 0 <= i < |init| :: init[i] == cs[i];
        assert forall y | y in init :: y in cs;
        FirstAppearancesRanked(init, rank);
      }
      FirstAppearancesSnoc(init, x);
      if x !in p {
        RankedAbove(cs, p, rank);
      }
    }
  }

  /** Strictly increasing rank along `r` */
  predicate StrictlyRanked<T>(r: seq<T>, rank: T -> int) {
    forall i, j | 0 <= i < j < |r| :: rank(r[i]) < rank(r[j])
  }

  /**
   * The last value of a sequence sorted by an injective rank, when it is new, extends
   * strictly ranked values taken from the rest.
   */
  lemma RankedAbove<T>(cs: seq<T>, p: seq<T>, rank: T -> int)
    requires cs != [] && cs[|cs| - 1] !in p
    requires forall i, j | 0 <= i < j < |cs| :: rank(cs[i]) <= rank(cs[j])
    requires forall x, y | x in cs && y in cs && rank(x) == rank(y) :: x == y
    requires forall i | 0 <= i < |p| :: p[i] in cs
    requires StrictlyRanked(p, rank)
    ensures StrictlyRanked(p + [cs[|cs| - 1]], rank)
  {
    var x := cs[|cs| - 1];
    forall i | 0 <= i < |p|
      ensures rank(p[i]) < rank(x)
    {
      var k :| 0 <= k < |cs| && cs[k] == p[i];
    }
    RankedSnoc(p, x, rank);
  }

  /** A value ranked above every element of a strictly ranked sequence extends it strictly ranked. */
  lemma RankedSnoc<T>(p: seq<T>, x: T, rank: T -> int)
    requires StrictlyRanked(p, rank)
    requires forall i | 0 <= i < |p| :: rank(p[i]) < rank(x)
    ensures StrictlyRanked(p + [x], rank)
  {
    var r := p + [x];
    forall i, j | 0 <= i < j < |r|
      ensures rank(r[i]) < rank(r[j])
    {
      assert r[i] == p[i];
      if j < |p| {
        assert r[j] == p[j];
      }
    }
  }

  /** Categories that come in the order of `terms` first appear in that order, each before the next one's term. */
  lemma FirstAppearancesInTermOrder(cs: seq<string>, terms: seq<string>)
    requires forall i | 0 <= i < |cs| :: cs[i] in terms
    requires forall i, j | 0 <= i < j < |cs| :: Position(terms, cs[i]) <= Position(terms, cs[j])
    ensures StrictlyInTermOrder(FirstAppearances(cs), terms)
  {
    var rank := TermRank(terms);
    forall x, y | x in cs && y in cs && rank(x) == rank(y)
      ensures x == y
    {
      assert x in terms && y in terms;
    }
    FirstAppearancesRanked(cs, rank);
  }

  /** Strictly increasing positions in `terms` */
  predicate StrictlyInTermOrder(order: seq<string>, terms: seq<string>) {
    forall i, j | 0 <= i < j < |order| :: Position(terms, order[i]) < Position(terms, order[j])
  }

  // ----- the report -----

  /** How many sample products `main()` prints */
  const SampleCount: nat := 3

  /** `products[:3]`: the first three products, or all of them when there are fewer */
  function Samples(ps: seq<ProductRecord>): (r: seq<ProductRecord>)
    ensures |r| == (if |ps| < SampleCount then |ps| else SampleCount)
    ensures r == ps[..|r|]
  {
    if |ps| < SampleCount then ps else ps[..SampleCount]
  }

  /**
   * `main()`: run the Selenium scraper; with products, tally them per category and pick the
   * samples, exit code 0; without products, exit code 1.
   */
  method RunMain(browser: nat -> Reply, increment: nat -> int, ghost bound: int, saved: bool)
    returns (code: int, order: seq<string>, counts: map<string, nat>, samples: seq<ProductRecord>)
    requires IncrementsValid(increment) && HeightsBounded(browser, bound)
    ensures var ps := SeleniumRun(browser, increment, bound, saved);
      && (code == 0 || code == 1)
      && (code == 1 <==> ps == [])
      && (ps != [] ==> order == FirstAppearances(Categories(ps)) && samples == Samples(ps))
      && (ps != [] ==> forall c :: c in counts <==> c in Categories(ps))
      && (ps != [] ==> forall c | c in counts :: counts[c] == Count(Categories(ps), c))
      && (ps == [] ==> order == [] && counts == map[] && samples == [])
  {
    var products := RunSeleniumScraper(browser, increment, bound, saved);
    if products != [] {
      order, counts := TallyCategories(products);
      samples := Samples(products);
      code := 0;
    } else {
      order, counts, samples := [], map[], [];
      code := 1;
    }
  }

  /**
   * The tally of products of the terms in term order: one entry per category, each a term with
   * products, in the order of the terms and at most one per term; the counts add up to the
   * number of products.
   */
  lemma TallyReport(ps: seq<ProductRecord>, terms: seq<string>)
    requires forall i | 0 <= i < |ps| :: ps[i].category in terms
    requires RequestsProperties.InTermOrder(ps, terms)
    ensures var order := FirstAppearances(Categories(ps));
      && (forall i | 0 <= i < |order| :: order[i] in terms && Count(Categories(ps), order[i]) > 0)
      && StrictlyInTermOrder(order, terms)
      && |order| <= |terms|
      && SumBy(order, CountsOf(Categories(ps))) == |ps|
  {
    var cs := Categories(ps);
    var order := FirstAppearances(cs);
    assert StrictlyInTermOrder(order, terms) by {
      assert forall i | 0 <= i < |cs| :: cs[i] in terms;
      assert forall i, j | 0 <= i < j < |cs| :: Position(terms, cs[i]) <= Position(terms, cs[j]);
      FirstAppearancesInTermOrder(cs, terms);
    }
    assert forall i | 0 <= i < |order| :: order[i] in terms && Count(cs, order[i]) > 0 by {
      forall i | 0 <= i < |order|
        ensures order[i] in terms && Count(cs, order[i]) > 0
      {
        assert order[i] in cs;
        var k :| 0 <= k < |cs| && cs[k] == order[i];
        assert cs[k] == ps[k].category;
      }
    }
    assert SumBy(order, CountsOf(cs)) == |ps| by {
      TotalOfFirstAppearances(cs);
    }
    OrderedBounded(order, terms);
  }

  /**
   * The report `main()` prints: one line per category that has products, each a search term,
   * in the order of the search terms and at most one per term; the counts are positive and add
   * up to the number of products.
   */
  lemma ReportSpec(browser: nat -> Reply, increment: nat -> int, bound: int, saved: bool)
    requires IncrementsValid(increment) && HeightsBounded(browser, bound)
    ensures var ps := SeleniumRun(browser, increment, bound, saved);
      var order := FirstAppearances(Categories(ps));
      && (forall i | 0 <= i < |order| :: order[i] in SearchTerms && Count(Categories(ps), order[i]) > 0)
      && StrictlyInTermOrder(order, SearchTerms)
      && |order| <= |SearchTerms|
      && SumBy(order, CountsOf(Categories(ps))) == |ps|
  {
    SeleniumRunSpec(browser, increment, bound, saved);
    TallyReport(SeleniumRun(browser, increment, bound, saved), SearchTerms);
  }

  /** A sequence of terms strictly ordered by position in `terms` is no longer than `terms`. */
  lemma {:induction false} OrderedBounded(order: seq<string>, terms: seq<string>)
    requires forall i | 0 <= i < |order| :: order[i] in terms
    requires StrictlyInTermOrder(order, terms)
    ensures |order| <= |terms|
  {
    if order != [] {
      OrderedAbove(order, terms);
      assert Position(terms, order[|order| - 1]) < |terms|;
    }
  }

  /** The `i`-th of a strictly ordered sequence sits at position `i` or later. */
  lemma {:induction false} OrderedAbove(order: seq<string>, terms: seq<string>)
    requires forall i | 0 <= i < |order| :: order[i] in terms
    requires StrictlyInTermOrder(order, terms)
    ensures forall i | 0 <= i < |order| :: Position(terms, order[i]) >= i
    decreases |order|
  {
    if order != [] {
      var init := order[..|order| - 1];
      OrderedAbove(init, terms);
      assert forall i | 0 <= i < |init| :: init[i] == order[i];
      if |order| > 1 {
        assert Position(terms, order[|order| - 2]) < Position(terms, order[|order| - 1]);
      }
    }
  }
}
