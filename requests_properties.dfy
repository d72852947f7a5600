/**
 * What the page loop and the category loop of the requests scraper guarantee, stated for any
 * site: the product count stays within `max_products`, every product is a well-formed record
 * of its category, only the homepage and search URLs of pages 1 to 10 are requested, the
 * homepage at most once, categories come in `search_terms` order, and the long pause is
 * taken between categories and not after the last.
 */
module RequestsProperties {
  import opened Wrappers
  import opened Strings
  import opened Dom
  import opened Selectors
  import opened Url
  import opened Product
  import opened Site
  import opened Pacing
  import opened Fetch
  import opened Extract
  import opened RequestsScraper

  predicate AllOf(ps: seq<ProductRecord>, category: string) {
    forall k | 0 <= k < |ps| :: WellFormedRecord(ps[k]) && ps[k].category == category
  }

  predicate IsPrefix<T(==)>(a: seq<T>, b: seq<T>) {
    |a| <= |b| && b[..|a|] == a
  }

  lemma AllOfAppend(a: seq<ProductRecord>, b: seq<ProductRecord>, category: string)
    requires AllOf(a, category) && AllOf(b, category)
    ensures AllOf(a + b, category)
  {
    assert forall k | |a| <= k < |a + b| :: (a + b)[k] == b[k - |a|];
  }

  // ----- one page -----

  /** A run of `get_page_content` makes at most `Retries` requests. */
  ghost predicate FetchBounded(fetch: nat -> Run) {
    forall n: nat :: fetch(n).requests <= Retries
  }

  /** A run of `get_page_content` takes only the waits of its retry loop. */
  ghost predicate FetchWaits(fetch: nat -> Run) {
    forall n: nat, k | 0 <= k < |fetch(n).pauses| :: IsRetryWait(fetch(n).pauses[k])
  }

  /** A page never yields more records than the room left. */
  ghost predicate RecordsFit(records: (string, Node, int) -> seq<ProductRecord>) {
    forall c, d, room :: |records(c, d, room)| <= if room < 0 then 0 else room
  }

  /** Every record of a page is well formed and carries the category searched for. */
  ghost predicate RecordsOfCategory(records: (string, Node, int) -> seq<ProductRecord>) {
    forall c, d, room :: AllOf(records(c, d, room), c)
  }

  /** A pass that started with `products` and room below `max` adds at most the room, all of the category. */
  predicate StepAdds(s: Step, category: string, max: int, products: seq<ProductRecord>) {
    IsPrefix(products, s.products) && |s.products| <= max && AllOf(s.products[|products|..], category)
  }

  /** A pass from session state `t` requests `url` at most `Retries` times and nothing else, and leaves the homepage flag alone. */
  predicate StepAsks(s: Step, url: string, t: Trace) {
    && IsPrefix(t.requested, s.trace.requested)
    && |s.trace.requested| <= |t.requested| + Retries
    && (forall i | |t.requested| <= i < |s.trace.requested| :: s.trace.requested[i] == url)
    && s.trace.homepageVisited == t.homepageVisited
  }

  /** A pass takes no pause between categories. */
  predicate StepCalm(s: Step, t: Trace) {
    Count(s.trace.pauses, CategoryWait) == Count(t.pauses, CategoryWait)
  }

  /** Every pass with room left adds at most the room, all of the category. */
  ghost predicate StepsAdd(step: (string, int, nat, seq<ProductRecord>, Trace) -> Step) {
    forall c, m, p, ps, t | |ps| < m :: StepAdds(step(c, m, p, ps, t), c, m, ps)
  }

  /** Every pass requests only its page's search URL, at most `Retries` times. */
  ghost predicate StepsAsk(step: (string, int, nat, seq<ProductRecord>, Trace) -> Step) {
    forall c, m, p, ps, t :: StepAsks(step(c, m, p, ps, t), SearchUrl(c, p), t)
  }

  /** No pass takes a pause between categories. */
  ghost predicate StepsCalm(step: (string, int, nat, seq<ProductRecord>, Trace) -> Step) {
    forall c, m, p, ps, t :: StepCalm(step(c, m, p, ps, t), t)
  }

  /** What the page loop relies on of one pass of its body */
  ghost predicate GoodStep(step: (string, int, nat, seq<ProductRecord>, Trace) -> Step) {
    StepsAdd(step) && StepsAsk(step) && StepsCalm(step)
  }

  /** One page with room left adds at most that many products, all of the category. */
  lemma PageStepProducts(fetch: nat -> Run, records: (string, Node, int) -> seq<ProductRecord>,
    searchUrl: (string, nat) -> string, category: string, max: int, page: nat, products: seq<ProductRecord>, t: Trace)
    requires |products| < max
    requires RecordsFit(records) && RecordsOfCategory(records)
    ensures StepAdds(PageStep(fetch, records, searchUrl, category, max, page, products, t), category, max, products)
  {
    var s := PageStep(fetch, records, searchUrl, category, max, page, products, t);
    var run := fetch(|t.requested|);
    if run.doc.Some? {
      var taken := records(category, run.doc.value, max - |products|);
      assert |taken| <= max - |products| && AllOf(taken, category);
      assert (products + taken)[|products|..] == taken;
      assert (products + taken)[..|products|] == products;
    } else {
      assert s.products[|products|..] == [];
    }
  }

  /** One page is requested at most `Retries` times, under its search URL; the homepage flag is left alone. */
  lemma PageStepRequests(fetch: nat -> Run, records: (string, Node, int) -> seq<ProductRecord>,
    searchUrl: (string, nat) -> string, category: string, max: int, page: nat, products: seq<ProductRecord>, t: Trace)
    requires FetchBounded(fetch)
    ensures StepAsks(PageStep(fetch, records, searchUrl, category, max, page, products, t), searchUrl(category, page), t)
  {
    var run := fetch(|t.requested|);
    assert run.requests <= Retries;
  }

  /** One page takes only retry waits and the short pause after a page of records. */
  lemma PageStepPauses(fetch: nat -> Run, records: (string, Node, int) -> seq<ProductRecord>,
    searchUrl: (string, nat) -> string, category: string, max: int, page: nat, products: seq<ProductRecord>, t: Trace)
    requires FetchWaits(fetch)
    ensures StepCalm(PageStep(fetch, records, searchUrl, category, max, page, products, t), t)
  {
    var run := fetch(|t.requested|);
    var t1 := Fetched(t, searchUrl(category, page), run);
    assert CategoryWait !in run.pauses by {
      forall k | 0 <= k < |run.pauses| ensures run.pauses[k] != CategoryWait {
        assert IsRetryWait(run.pauses[k]);
      }
    }
    CountAppend(t.pauses, run.pauses, CategoryWait);
    CountAppend(t1.pauses, [RandomDelay], CategoryWait);
  }

  // ----- the page loop -----

  /** `url` is the search URL of `category` for a page from `from` to `MaxPages` */
  ghost predicate SearchFor(url: string, category: string, from: nat) {
    exists p | from <= p <= MaxPages :: url == SearchUrl(category, p)
  }

  /** The page loop only adds products, never more than `max_products`, all of the category. */
  lemma {:induction false} ListFromProducts(step: (string, int, nat, seq<ProductRecord>, Trace) -> Step,
    category: string, max: int, page: nat, products: seq<ProductRecord>, t: Trace)
    requires 1 <= page <= MaxPages && StepsAdd(step)
    ensures var l := ListFrom(step, category, max, page, products, t);
      && IsPrefix(products, l.products)
      && |l.products| <= (if |products| < max then max else |products|)
      && AllOf(l.products[|products|..], category)
    decreases MaxPages - page
  {
    var l := ListFrom(step, category, max, page, products, t);
    if |products| < max {
      var s := step(category, max, page, products, t);
      assert StepAdds(s, category, max, products);
      if s.more && page + 1 <= MaxPages {
        ListFromProducts(step, category, max, page + 1, s.products, s.trace);
        assert l.products[|products|..] == s.products[|products|..] + l.products[|s.products|..];
        AllOfAppend(s.products[|products|..], l.products[|s.products|..], category);
        assert l.products[..|products|] == s.products[..|s.products|][..|products|];
      }
    } else {
      assert l.products[|products|..] == [];
    }
  }

  /**
   * The page loop requests only the search URLs of its category for the pages from `page` to
   * `MaxPages`, at most `Retries` requests per page, and leaves the homepage flag alone.
   */
  lemma {:induction false} ListFromRequests(step: (string, int, nat, seq<ProductRecord>, Trace) -> Step,
    category: string, max: int, page: nat, products: seq<ProductRecord>, t: Trace)
    requires 1 <= page <= MaxPages && StepsAsk(step)
    ensures var l := ListFrom(step, category, max, page, products, t);
      && IsPrefix(t.requested, l.trace.requested)
      && |l.trace.requested| <= |t.requested| + Retries * (MaxPages + 1 - page)
      && (forall i | |t.requested| <= i < |l.trace.requested| :: SearchFor(l.trace.requested[i], category, page))
      && l.trace.homepageVisited == t.homepageVisited
    decreases MaxPages - page
  {
    var l := ListFrom(step, category, max, page, products, t);
    var n := |t.requested|;
    if |products| < max {
      var s := step(category, max, page, products, t);
      assert StepAsks(s, SearchUrl(category, page), t);
      assert forall i | n <= i < |s.trace.requested| :: s.trace.requested[i] == SearchUrl(category, page);
      if s.more && page + 1 <= MaxPages {
        ListFromRequests(step, category, max, page + 1, s.products, s.trace);
        forall i | n <= i < |l.trace.requested|
          ensures SearchFor(l.trace.requested[i], category, page)
        {
          if i < |s.trace.requested| {
            assert l.trace.requested[i] == s.trace.requested[i] == SearchUrl(category, page);
          } else {
            var p :| page + 1 <= p <= MaxPages && l.trace.requested[i] == SearchUrl(category, p);
          }
        }
        assert l.trace.requested[..n] == s.trace.requested[..|s.trace.requested|][..n];
      } else {
        assert l.trace == s.trace;
      }
    }
  }

  /** No pass changes `f` of the session state. */
  ghost predicate StepsKeep(step: (string, int, nat, seq<ProductRecord>, Trace) -> Step, f: Trace -> int) {
    forall c, m, p, ps, t :: f(step(c, m, p, ps, t).trace) == f(t)
  }

  /** What no pass changes, the page loop does not change. */
  lemma {:induction false} ListFromKeeps(step: (string, int, nat, seq<ProductRecord>, Trace) -> Step, f: Trace -> int,
    category: string, max: int, page: nat, products: seq<ProductRecord>, t: Trace)
    requires 1 <= page <= MaxPages && StepsKeep(step, f)
    ensures f(ListFrom(step, category, max, page, products, t).trace) == f(t)
    decreases MaxPages - page
  {
    if |products| < max {
      var s := step(category, max, page, products, t);
      if s.more && page + 1 <= MaxPages {
        ListFromKeeps(step, f, category, max, page + 1, s.products, s.trace);
      }
    }
  }

  /** The page loop takes no pause between categories. */
  lemma ListFromPauses(step: (string, int, nat, seq<ProductRecord>, Trace) -> Step,
    category: string, max: int, page: nat, products: seq<ProductRecord>, t: Trace)
    requires 1 <= page <= MaxPages && StepsCalm(step)
    ensures var l := ListFrom(step, category, max, page, products, t);
      Count(l.trace.pauses, CategoryWait) == Count(t.pauses, CategoryWait)
  {
    var f := (t: Trace) => Count(t.pauses, CategoryWait);
    assert StepsKeep(step, f) by {
      forall c, m, p, ps, t ensures f(step(c, m, p, ps, t).trace) == f(t) {
        assert StepCalm(step(c, m, p, ps, t), t);
      }
    }
    ListFromKeeps(step, f, category, max, page, products, t);
  }

  /** Opening the session requests the homepage exactly when it was not visited, and takes no long pause. */
  lemma OpenedSpec(server: nat -> Response, t: Trace)
    ensures var t0 := Opened(server, t);
      && t0.homepageVisited
      && t0.requested == (if t.homepageVisited then t.requested else t.requested + [HomeUrl()])
      && Count(t0.pauses, CategoryWait) == Count(t.pauses, CategoryWait)
  {
    if !t.homepageVisited {
      CountAppend(t.pauses, [RandomDelay], CategoryWait);
    }
  }

  lemma ScrapeListSpec(server: nat -> Response, step: (string, int, nat, seq<ProductRecord>, Trace) -> Step,
    category: string, max: int, t: Trace)
    requires GoodStep(step)
    ensures var l := ScrapeList(server, step, category, max, t);
      var n := |t.requested|;
      var n0 := if t.homepageVisited then n else n + 1;
      && |l.products| <= (if max < 0 then 0 else max)
      && AllOf(l.products, category)
      && IsPrefix(t.requested, l.trace.requested)
      && n0 <= |l.trace.requested| <= n0 + Retries * MaxPages
      && l.trace.homepageVisited
      && (!t.homepageVisited ==> l.trace.requested[n] == HomeUrl())
      && (forall i | n0 <= i < |l.trace.requested| :: SearchFor(l.trace.requested[i], category, 1))
      && Count(l.trace.pauses, CategoryWait) == Count(t.pauses, CategoryWait)
  {
    var t0 := Opened(server, t);
    var l := ListFrom(step, category, max, 1, [], t0);
    OpenedSpec(server, t);
    ListFromProducts(step, category, max, 1, [], t0);
    ListFromRequests(step, category, max, 1, [], t0);
    ListFromPauses(step, category, max, 1, [], t0);
    assert l.products[0..] == l.products;
    if !t.homepageVisited {
      assert l.trace.requested[..|t.requested|] == t0.requested[..|t0.requested|][..|t.requested|];
      assert l.trace.requested[|t.requested|] == t0.requested[|t.requested|] == HomeUrl();
    }
  }

  /** What one category scrape from session state `t` leaves, as the category loop relies on it */
  ghost predicate CategoryScrape(l: Listing, category: string, t: Trace) {
    CategoryProducts(l, category) && CategoryRequests(l, t) && CategoryCalm(l, t)
  }

  /** At most `ProductsPerCategory` products, all of the category */
  predicate CategoryProducts(l: Listing, category: string) {
    |l.products| <= ProductsPerCategory && AllOf(l.products, category)
  }

  /** The requests of one category: the homepage first if it was not visited yet, and no other homepage request */
  predicate CategoryRequests(l: Listing, t: Trace) {
    var n := |t.requested|;
    && IsPrefix(t.requested, l.trace.requested)
    && |l.trace.requested| <= n + 1 + Retries * MaxPages
    && l.trace.homepageVisited
    && (!t.homepageVisited ==> |l.trace.requested| > n && l.trace.requested[n] == HomeUrl())
    && (forall i | n <= i < |l.trace.requested| :: l.trace.requested[i] == HomeUrl() ==> !t.homepageVisited && i == n)
  }

  /** No pause between categories inside one category */
  predicate CategoryCalm(l: Listing, t: Trace) {
    Count(l.trace.pauses, CategoryWait) == Count(t.pauses, CategoryWait)
  }

  /** No search URL is the homepage: it is longer. */
  lemma SearchUrlNotHome(c: string, p: nat)
    ensures SearchUrl(c, p) != HomeUrl()
  {
    assert |SearchUrl(c, p)| > |HomeUrl()|;
  }

  /** The category scrapes of a session satisfy what the category loop relies on. */
  lemma ScrapeListIsCategoryScrape(server: nat -> Response, step: (string, int, nat, seq<ProductRecord>, Trace) -> Step,
    category: string, t: Trace)
    requires GoodStep(step)
    ensures CategoryScrape(ScrapeList(server, step, category, ProductsPerCategory, t), category, t)
  {
    var l := ScrapeList(server, step, category, ProductsPerCategory, t);
    var n := |t.requested|;
    var n0 := if t.homepageVisited then n else n + 1;
    ScrapeListSpec(server, step, category, ProductsPerCategory, t);
    forall i | n0 <= i < |l.trace.requested|
      ensures l.trace.requested[i] != HomeUrl()
    {
      var p :| 1 <= p <= MaxPages && l.trace.requested[i] == SearchUrl(category, p);
      SearchUrlNotHome(category, p);
    }
  }

  // ----- the category loop -----

  /** Categories are scraped in the order of `terms`: a product never precedes one of an earlier term. */
  predicate InTermOrder(ps: seq<ProductRecord>, terms: seq<string>) {
    forall i, j | 0 <= i < j < |ps| :: Position(terms, ps[i].category) <= Position(terms, ps[j].category)
  }

  /** Well-formed products of the terms from index `k` on */
  predicate FromTerms(ps: seq<ProductRecord>, terms: seq<string>, k: nat) {
    forall i | 0 <= i < |ps| :: WellFormedRecord(ps[i]) && k <= Position(terms, ps[i].category) < |terms|
  }

  /** The products of term `k` followed by products of later terms in order are in order. */
  lemma BlockAppend(a: seq<ProductRecord>, b: seq<ProductRecord>, terms: seq<string>, k: nat)
    requires k < |terms| && Distinct(terms)
    requires AllOf(a, terms[k])
    requires FromTerms(b, terms, k + 1) && InTermOrder(b, terms)
    ensures FromTerms(a + b, terms, k) && InTermOrder(a + b, terms)
  {
    PositionOfDistinct(terms, k);
    assert forall i | 0 <= i < |a| :: Position(terms, a[i].category) == k;
    assert forall i | |a| <= i < |a + b| :: (a + b)[i] == b[i - |a|];
  }

  /**
   * The category loop from term `k` on appends, for each remaining term in order, at most
   * `ProductsPerCategory` products of that term.
   */
  lemma {:induction false} AllFromProducts(list: (string, Trace) -> Listing, terms: seq<string>, k: nat,
    products: seq<ProductRecord>, t: Trace)
    requires k <= |terms| && Distinct(terms)
    requires forall c, t :: CategoryProducts(list(c, t), c)
    ensures var l := AllFrom(list, terms, k, products, t);
      && IsPrefix(products, l.products)
      && |l.products| <= |products| + ProductsPerCategory * (|terms| - k)
      && FromTerms(l.products[|products|..], terms, k)
      && InTermOrder(l.products[|products|..], terms)
    decreases |terms| - k
  {
    var l := AllFrom(list, terms, k, products, t);
    if k < |terms| {
      var lk := list(terms[k], t);
      var t1 := if terms[k] != terms[|terms| - 1] then lk.trace.(pauses := lk.trace.pauses + [CategoryWait]) else lk.trace;
      var more := products + lk.products;
      assert CategoryProducts(lk, terms[k]);
      AllFromProducts(list, terms, k + 1, more, t1);
      assert l == AllFrom(list, terms, k + 1, more, t1);
      var rest := l.products[|more|..];
      assert l.products[|products|..] == lk.products + rest;
      BlockAppend(lk.products, rest, terms, k);
      assert l.products[..|products|] == more[..|more|][..|products|];
    } else {
      assert l.products[|products|..] == [];
    }
  }

  /**
   * The category loop from term `k` on requests the homepage only as its very first request,
   * and only if it was not visited yet; at most `1 + Retries * MaxPages` requests per term.
   */
  lemma {:induction false} AllFromRequests(list: (string, Trace) -> Listing, terms: seq<string>, k: nat,
    products: seq<ProductRecord>, t: Trace)
    requires k <= |terms|
    requires forall c, t :: CategoryRequests(list(c, t), t)
    ensures var l := AllFrom(list, terms, k, products, t);
      var n := |t.requested|;
      && IsPrefix(t.requested, l.trace.requested)
      && |l.trace.requested| <= n + (1 + Retries * MaxPages) * (|terms| - k)
      && (k < |terms| ==> l.trace.homepageVisited)
      && (k < |terms| && !t.homepageVisited ==> |l.trace.requested| > n && l.trace.requested[n] == HomeUrl())
      && (forall i | n <= i < |l.trace.requested| :: l.trace.requested[i] == HomeUrl() ==> !t.homepageVisited && i == n)
    decreases |terms| - k
  {
    var l := AllFrom(list, terms, k, products, t);
    var n := |t.requested|;
    if k < |terms| {
      var lk := list(terms[k], t);
      var t1 := if terms[k] != terms[|terms| - 1] then lk.trace.(pauses := lk.trace.pauses + [CategoryWait]) else lk.trace;
      assert CategoryRequests(lk, t);
      AllFromRequests(list, terms, k + 1, products + lk.products, t1);
      assert l == AllFrom(list, terms, k + 1, products + lk.products, t1);
      assert t1.requested == lk.trace.requested && t1.homepageVisited;
      assert l.trace.requested[..|t1.requested|] == t1.requested;
      if k + 1 == |terms| {
        assert l.trace == t1;
      }
      forall i | n <= i < |l.trace.requested| && l.trace.requested[i] == HomeUrl()
        ensures !t.homepageVisited && i == n
      {
        if i < |t1.requested| {
          assert l.trace.requested[i] == t1.requested[i];
        }
      }
      assert l.trace.requested[..n] == t1.requested[..|t1.requested|][..n];
    }
  }

  /** With distinct terms, the long pause is taken after every category but the last. */
  lemma {:induction false} AllFromPauses(list: (string, Trace) -> Listing, terms: seq<string>, k: nat,
    products: seq<ProductRecord>, t: Trace)
    requires k <= |terms| && Distinct(terms)
    requires forall c, t :: CategoryCalm(list(c, t), t)
    ensures var l := AllFrom(list, terms, k, products, t);
      Count(l.trace.pauses, CategoryWait) == Count(t.pauses, CategoryWait) + (if k < |terms| then |terms| - 1 - k else 0)
    decreases |terms| - k
  {
    if k < |terms| {
      var lk := list(terms[k], t);
      var t1 := if terms[k] != terms[|terms| - 1] then lk.trace.(pauses := lk.trace.pauses + [CategoryWait]) else lk.trace;
      assert CategoryCalm(lk, t);
      CountAppend(lk.trace.pauses, [CategoryWait], CategoryWait);
      assert terms[k] != terms[|terms| - 1] <==> k < |terms| - 1;
      AllFromPauses(list, terms, k + 1, products + lk.products, t1);
    }
  }

  /** The records of one page, as the scraper computes them, carry the category. */
  lemma HarvestOfCategory(cs: seq<Node>, category: string, room: int)
    ensures AllOf(Harvest(cs, Extractor(category), room), category)
  {
    if room >= 0 {
      var all := Records(cs, Extractor(category));
      RecordsExtracted(cs, Extractor(category));
      HarvestIsPrefix(cs, Extractor(category), room);
      ExtractedWellFormed(cs, category, all);
    }
  }

  /** The runs of a scraper make at most `Retries` requests and take only the waits of the retry loop. */
  lemma ScraperFetch(s: Scraper)
    requires s.FetchValid()
    ensures FetchBounded(s.fetch) && FetchWaits(s.fetch)
  {
    forall n: nat ensures s.fetch(n).requests <= Retries && forall k | 0 <= k < |s.fetch(n).pauses| :: IsRetryWait(s.fetch(n).pauses[k]) {
      GetPageBounded(s.outcomes, n, Retries);
      FetchFromWaits(s.outcomes, n, 0, Retries, []);
    }
  }

  /** The page records of a scraper fit the room left and carry the category. */
  lemma ScraperRecords(s: Scraper)
    requires s.RecordsValid()
    requires s.selectors == ContainerSelectors && s.extract == Extractor
    ensures RecordsFit(s.records) && RecordsOfCategory(s.records)
  {
    forall c, d, room ensures |s.records(c, d, room)| <= (if room < 0 then 0 else room) && AllOf(s.records(c, d, room), c) {
      var cs := FirstNonEmpty(d, s.selectors);
      assert s.records(c, d, room) == Harvest(cs, s.extract(c), room);
      HarvestOfCategory(cs, c, room);
    }
  }

  /** The page loop body of a scraper satisfies what the page loop relies on. */
  lemma ScraperStep(s: Scraper)
    requires s.FetchValid() && s.RecordsValid() && s.UrlValid() && s.StepValid()
    requires s.selectors == ContainerSelectors && s.extract == Extractor
    ensures GoodStep(s.step)
  {
    ScraperFetch(s);
    ScraperRecords(s);
    forall c, m, p, ps, t | |ps| < m ensures StepAdds(s.step(c, m, p, ps, t), c, m, ps) {
      assert s.step(c, m, p, ps, t) == PageStep(s.fetch, s.records, s.searchUrl, c, m, p, ps, t);
      PageStepProducts(s.fetch, s.records, s.searchUrl, c, m, p, ps, t);
    }
    forall c, m, p, ps, t ensures StepAsks(s.step(c, m, p, ps, t), SearchUrl(c, p), t) {
      assert s.step(c, m, p, ps, t) == PageStep(s.fetch, s.records, s.searchUrl, c, m, p, ps, t);
      assert s.searchUrl(c, p) == SearchUrl(c, p);
      PageStepRequests(s.fetch, s.records, s.searchUrl, c, m, p, ps, t);
    }
    forall c, m, p, ps, t ensures StepCalm(s.step(c, m, p, ps, t), t) {
      assert s.step(c, m, p, ps, t) == PageStep(s.fetch, s.records, s.searchUrl, c, m, p, ps, t);
      PageStepPauses(s.fetch, s.records, s.searchUrl, c, m, p, ps, t);
    }
  }

  /** The category loop over the site's search terms, for any category scrape that behaves as one */
  lemma AllTermsSpec(list: (string, Trace) -> Listing, t: Trace)
    requires forall c, t :: CategoryScrape(list(c, t), c, t)
    requires !t.homepageVisited
    ensures var l := AllFrom(list, SearchTerms, 0, [], t);
      var n := |t.requested|;
      && |l.products| <= ProductsPerCategory * |SearchTerms|
      && (forall i | 0 <= i < |l.products| :: WellFormedRecord(l.products[i]) && l.products[i].category in SearchTerms)
      && InTermOrder(l.products, SearchTerms)
      && IsPrefix(t.requested, l.trace.requested)
      && |l.trace.requested| <= n + (1 + Retries * MaxPages) * |SearchTerms|
      && |l.trace.requested| > n && l.trace.requested[n] == HomeUrl()
      && (forall i | n < i < |l.trace.requested| :: l.trace.requested[i] != HomeUrl())
      && Count(l.trace.pauses, CategoryWait) == Count(t.pauses, CategoryWait) + |SearchTerms| - 1
  {
    SiteConstantsWellFormed();
    var l := AllFrom(list, SearchTerms, 0, [], t);
    AllFromProducts(list, SearchTerms, 0, [], t);
    AllFromRequests(list, SearchTerms, 0, [], t);
    AllFromPauses(list, SearchTerms, 0, [], t);
    assert l.products[0..] == l.products;
  }

  /**
   * `scrape_all_categories()` from a session that has not visited the homepage: at most 100
   * well-formed products per search term, in `search_terms` order; the homepage is the first
   * request and is never requested again; at most 31 requests per term; five long pauses, one
   * between each two of the six categories.
   */
  lemma ScrapeAllSpec(s: Scraper, t: Trace)
    requires s.FetchValid() && s.RecordsValid() && s.UrlValid() && s.StepValid() && s.ListValid()
    requires s.selectors == ContainerSelectors && s.extract == Extractor
    requires !t.homepageVisited
    ensures var l := AllFrom(s.list, SearchTerms, 0, [], t);
      var n := |t.requested|;
      && |l.products| <= ProductsPerCategory * |SearchTerms|
      && (forall i | 0 <= i < |l.products| :: WellFormedRecord(l.products[i]) && l.products[i].category in SearchTerms)
      && InTermOrder(l.products, SearchTerms)
      && IsPrefix(t.requested, l.trace.requested)
      && |l.trace.requested| <= n + (1 + Retries * MaxPages) * |SearchTerms|
      && |l.trace.requested| > n && l.trace.requested[n] == HomeUrl()
      && (forall i | n < i < |l.trace.requested| :: l.trace.requested[i] != HomeUrl())
      && Count(l.trace.pauses, CategoryWait) == Count(t.pauses, CategoryWait) + |SearchTerms| - 1
  {
    ScraperLists(s);
    AllTermsSpec(s.list, t);
  }

  /** Every category scrape of the scraper behaves as one. */
  lemma ScraperLists(s: Scraper)
    requires s.FetchValid() && s.RecordsValid() && s.UrlValid() && s.StepValid() && s.ListValid()
    requires s.selectors == ContainerSelectors && s.extract == Extractor
    ensures forall c, t :: CategoryScrape(s.list(c, t), c, t)
  {
    ScraperStep(s);
    forall c, t ensures CategoryScrape(s.list(c, t), c, t) {
      ScrapeListIsCategoryScrape(s.server, s.step, c, t);
    }
  }
}
