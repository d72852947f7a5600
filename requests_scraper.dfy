/**
 * `CastoramaScraper`, the requests-based scraper: the session it keeps (the URLs it has
 * requested, how often its headers were re-randomised, whether a Referer is set, whether the
 * homepage was visited, the pauses it took), the retry loop of `get_page_content`, the
 * pagination loop of `scrape_product_list` and the category loop of `scrape_all_categories`.
 * The site is an oracle `server` giving the response to the n-th request of the session.
 */
module RequestsScraper {
  import opened Wrappers
  import opened Strings
  import opened Dom
  import opened Selectors
  import opened Url
  import opened Product
  import opened Site
  import opened Pacing
  import opened Fetch
  import opened Extract

  /** `get_page_content`'s default number of attempts */
  const Retries: nat := 3
  /** The safety limit of the page loop */
  const MaxPages: nat := 10
  /** `products_per_category` of `scrape_all_categories` */
  const ProductsPerCategory: int := 100

  function HomeUrl(): string {
    Base(BaseOrigin)
  }

  /** `f"{self.base_url}/search?term={category}&page={page}"` */
  function SearchUrl(category: string, page: nat): string {
    Base(BaseOrigin) + "/search?term=" + category + "&page=" + NatToString(page)
  }

  // ----- the product containers -----

  /** `re.compile(r'product', re.I)` */
  predicate ProductPattern(cls: string) {
    SearchCI(cls, "product")
  }

  /** `re.compile(r'product.*card|item.*product', re.I)` */
  predicate CardPattern(cls: string) {
    SearchThenCI(cls, "product", "card") || SearchThenCI(cls, "item", "product")
  }

  /** `re.compile(r'tile.*product|product.*tile', re.I)` */
  predicate TilePattern(cls: string) {
    SearchThenCI(cls, "tile", "product") || SearchThenCI(cls, "product", "tile")
  }

  /** Classes written on two lines still make a product card: the pattern sees them joined by a space. */
  lemma CardClassesOnTwoLines()
    ensures IsProductCard(Element("div", map["class" := "product\ncard"], []))
  {
    TwoLineClasses();
    ProductCardMatches();
  }

  lemma TwoLineClasses()
    ensures Words("product\ncard") == ["product", "card"]
  {
    assert IsWord("product") && IsWord("card");
    TwoWords("product", '\n', "card");
    assert "product" + ['\n'] + "card" == "product\ncard";
  }

  lemma ProductCardMatches()
    ensures CardPattern(Join(["product", "card"], ' '))
  {
    var joined := Join(["product", "card"], ' ');
    assert joined == "product card";
    assert Lower(joined) == joined by {
      forall k | 0 <= k < |joined| ensures LowerChar(joined[k]) == joined[k] {
        assert joined[k] == ' ' || 'a' <= joined[k] <= 'z';
      }
    }
    assert OccursAt(joined, "product", 0) && OccursAt(joined, "card", 8);
    assert '\n' !in joined[7..8];
  }

  predicate IsProductDiv(n: Node) {
    TagWithAttr(n, "div", "data-testid", "product")
  }

  predicate IsProductArticle(n: Node) {
    TagsWithClass(n, {"article"}, ProductPattern)
  }

  predicate IsProductCard(n: Node) {
    TagsWithClass(n, {"div"}, CardPattern)
  }

  predicate IsProductTile(n: Node) {
    TagsWithClass(n, {"div"}, TilePattern)
  }

  predicate IsProductItem(n: Node) {
    TagsWithClass(n, {"li"}, ProductPattern)
  }

  /** `product_selectors`, in the order they are tried */
  const ContainerSelectors: seq<Node -> bool> :=
    [IsProductDiv, IsProductArticle, IsProductCard, IsProductTile, IsProductItem]

  // ----- the records of one page -----

  /** `extract_product_data(container, category)` as the page loop applies it */
  function Extractor(category: string): Node -> Option<ProductRecord> {
    c => ExtractProductData(c, category)
  }

  /** Every record the containers yield, in order */
  function Records(cs: seq<Node>, extract: Node -> Option<ProductRecord>): (r: seq<ProductRecord>)
    ensures |r| <= |cs|
  {
    if cs == [] then []
    else
      var product := extract(cs[0]);
      var rest := Records(cs[1..], extract);
      if product.None? then rest else [product.value] + rest
  }

  /** Every record is what some container yields. */
  lemma {:induction false} RecordsExtracted(cs: seq<Node>, extract: Node -> Option<ProductRecord>)
    ensures var r := Records(cs, extract);
      forall k | 0 <= k < |r| :: exists c | c in cs :: extract(c) == Some(r[k])
  {
    if cs != [] {
      RecordsExtracted(cs[1..], extract);
      assert forall i | 0 <= i < |Records(cs[1..], extract)| :: exists c | c in cs[1..] :: extract(c) == Some(Records(cs[1..], extract)[i]);
      var r := Records(cs, extract);
      var rest := Records(cs[1..], extract);
      assert r == if extract(cs[0]).Some? then [extract(cs[0]).value] + rest else rest;
      forall k | 0 <= k < |r| ensures exists c | c in cs :: extract(c) == Some(r[k]) {
        if extract(cs[0]).Some? && k == 0 {
          assert extract(cs[0]) == Some(r[0]);
        } else {
          var j := if extract(cs[0]).Some? then k - 1 else k;
          assert 0 <= j < |rest| && r[k] == rest[j];
          var c :| c in cs[1..] && extract(c) == Some(rest[j]);
          assert c in cs;
        }
      }
    }
  }

  /** The records taken from the containers, in order, while fewer than `room` have been taken */
  function Harvest(cs: seq<Node>, extract: Node -> Option<ProductRecord>, room: int): (r: seq<ProductRecord>)
    ensures |r| <= |cs|
    ensures room >= 0 ==> |r| <= room
  {
    if cs == [] || room <= 0 then []
    else
      var product := extract(cs[0]);
      if product.None? then Harvest(cs[1..], extract, room)
      else [product.value] + Harvest(cs[1..], extract, room - 1)
  }

  /** The harvest is the first `room` records, or all of them when there are fewer. */
  lemma {:induction false} HarvestIsPrefix(cs: seq<Node>, extract: Node -> Option<ProductRecord>, room: int)
    requires room >= 0
    ensures var all := Records(cs, extract);
      Harvest(cs, extract, room) == all[..if |all| < room then |all| else room]
  {
    if cs != [] && room > 0 {
      var all := Records(cs, extract);
      var rest := Records(cs[1..], extract);
      if extract(cs[0]).None? {
        HarvestIsPrefix(cs[1..], extract, room);
        assert all == rest;
      } else {
        HarvestIsPrefix(cs[1..], extract, room - 1);
        var n := if |rest| < room - 1 then |rest| else room - 1;
        assert all == [extract(cs[0]).value] + rest;
        assert all[..n + 1] == [extract(cs[0]).value] + rest[..n];
      }
    }
  }

  /** Records that some container yielded for `category` are well formed and carry the category. */
  lemma ExtractedWellFormed(cs: seq<Node>, category: string, r: seq<ProductRecord>)
    requires forall k | 0 <= k < |r| :: exists c | c in cs :: Extractor(category)(c) == Some(r[k])
    ensures forall k | 0 <= k < |r| :: WellFormedRecord(r[k]) && r[k].category == category
  {
    forall k | 0 <= k < |r|
      ensures WellFormedRecord(r[k]) && r[k].category == category
    {
      var c :| c in cs && Extractor(category)(c) == Some(r[k]);
      assert ExtractProductData(c, category) == Some(r[k]);
      ExtractProductDataSpec(c, category);
    }
  }

  /**
   * The inner `for container in product_containers` loop, `extract` being
   * `extract_product_data(container, category)` and `room` being `max_products - len(products)`.
   */
  method CollectRecords(cs: seq<Node>, extract: Node -> Option<ProductRecord>, room: int) returns (taken: seq<ProductRecord>)
    ensures taken == Harvest(cs, extract, room)
  {
    taken := [];
    for i := 0 to |cs|
      invariant Harvest(cs, extract, room) == taken + Harvest(cs[i..], extract, room - |taken|)
    {
      if |taken| >= room {
        return;
      }
      var product := extract(cs[i]);
      assert cs[i..][1..] == cs[i + 1..];
      if product.Some? {
        taken := taken + [product.value];
      }
    }
  }

  /**
   * The selector loop of one page, then its container loop: no records when no selector finds
   * a container.
   */
  method PageRecords(d: Node, selectors: seq<Node -> bool>, extract: Node -> Option<ProductRecord>, room: int) returns (taken: seq<ProductRecord>)
    ensures taken == Harvest(FirstNonEmpty(d, selectors), extract, room)
  {
    var containers := SelectContainers(d, selectors);
    if containers == [] {
      return [];
    }
    taken := CollectRecords(containers, extract, room);
  }

  // ----- the session -----

  /**
   * What the scraper's session has done so far: every request made, in order; how many times
   * `_setup_session` re-randomised the headers after construction; whether the Referer header
   * is set; whether `_homepage_visited` is set; every pause taken, in order.
   */
  datatype Trace = Trace(
    requested: seq<string>,
    sessionSetups: nat,
    refererSet: bool,
    homepageVisited: bool,
    pauses: seq<Pause>)

  /** The session after `get_page_content(url)` made the requests and pauses of `run` */
  function Fetched(t: Trace, url: string, run: Run): Trace {
    t.(requested := t.requested + Repeat(url, run.requests),
       sessionSetups := t.sessionSetups + (if run.requests > 0 then run.requests - 1 else 0),
       refererSet := t.refererSet || (run.requests > 0 && Contains(url, "search")),
       pauses := t.pauses + run.pauses)
  }

  /** What one attempt of `get_page_content(url)` does to the session before it pauses: the headers are re-randomised unless it is the first, the Referer is set for a search URL, the URL is requested */
  function Attempted(t: Trace, url: string, attempt: nat): Trace {
    t.(requested := t.requested + [url],
       sessionSetups := t.sessionSetups + (if attempt > 0 then 1 else 0),
       refererSet := t.refererSet || Contains(url, "search"))
  }

  /** The session after `attempt` attempts, one more attempt, and its pause (if any) is the session after `attempt + 1` attempts. */
  lemma FetchedOneMore(t: Trace, url: string, attempt: nat, pauses: seq<Pause>, doc: Option<Node>, extra: seq<Pause>)
    ensures Attempted(Fetched(t, url, Run(None, attempt, pauses)), url, attempt) == Fetched(t, url, Run(doc, attempt + 1, pauses))
    ensures var a := Attempted(Fetched(t, url, Run(None, attempt, pauses)), url, attempt);
      a.(pauses := a.pauses + extra) == Fetched(t, url, Run(None, attempt + 1, pauses + extra))
  {
    assert t.requested + Repeat(url, attempt) + [url] == t.requested + Repeat(url, attempt + 1);
    assert t.pauses + pauses + extra == t.pauses + (pauses + extra);
  }

  /** `_get_homepage_first`: one request for the homepage, and a short pause if it answered 200 */
  function VisitHomepage(server: nat -> Response, t: Trace): Trace {
    var resp := server(|t.requested|);
    var t1 := t.(requested := t.requested + [HomeUrl()]);
    if resp.Reply? && resp.status == 200 then t1.(pauses := t1.pauses + [RandomDelay]) else t1
  }

  /** What a category scrape gives: its products and the session afterwards */
  datatype Listing = Listing(products: seq<ProductRecord>, trace: Trace)

  /** What one pass of the loop body leaves: the products, the session, and whether the loop goes on */
  datatype Step = Step(products: seq<ProductRecord>, trace: Trace, more: bool)

  /**
   * One pass of the `while` loop of `scrape_product_list` on page `page`, `fetch(n)` being the run
   * of `get_page_content` that starts at the n-th request: no page or no records ends the loop,
   * records are added and followed by a short pause
   */
  function PageStep(fetch: nat -> Run, records: (string, Node, int) -> seq<ProductRecord>, searchUrl: (string, nat) -> string, category: string, max: int, page: nat, products: seq<ProductRecord>, t: Trace): Step {
    var run := fetch(|t.requested|);
    var t1 := Fetched(t, searchUrl(category, page), run);
    if run.doc.None? then Step(products, t1, false)
    else
      var taken := records(category, run.doc.value, max - |products|);
      if taken == [] then Step(products, t1, false)
      else Step(products + taken, t1.(pauses := t1.pauses + [RandomDelay]), true)
  }

  /**
   * A pass of the loop body in terms of `get_page_content`'s run from the session state `t` and
   * what the container and record loops keep from its page
   */
  lemma PageStepOf(fetch: nat -> Run, records: (string, Node, int) -> seq<ProductRecord>, searchUrl: (string, nat) -> string,
    selectors: seq<Node -> bool>, ex: Node -> Option<ProductRecord>,
    category: string, max: int, page: nat, products: seq<ProductRecord>, room: int, t: Trace)
    requires room == max - |products|
    requires forall d, room {:trigger Harvest(FirstNonEmpty(d, selectors), ex, room)} :: records(category, d, room) == Harvest(FirstNonEmpty(d, selectors), ex, room)
    requires searchUrl(category, page) == SearchUrl(category, page)
    ensures var run := fetch(|t.requested|);
      var t1 := Fetched(t, SearchUrl(category, page), run);
      var taken := if run.doc.Some? then Harvest(FirstNonEmpty(run.doc.value, selectors), ex, room) else [];
      PageStep(fetch, records, searchUrl, category, max, page, products, t) ==
        if taken == [] then Step(products, t1, false) else Step(products + taken, t1.(pauses := t1.pauses + [RandomDelay]), true)
  {
    var run := fetch(|t.requested|);
    if run.doc.Some? {
      assert records(category, run.doc.value, room) == Harvest(FirstNonEmpty(run.doc.value, selectors), ex, room);
    }
  }

  /**
   * The `while len(products) < max_products` loop from page `page` on, `step` giving one pass of
   * its body for a category, a limit, a page, the products so far and a session state
   */
  function ListFrom(step: (string, int, nat, seq<ProductRecord>, Trace) -> Step, category: string, max: int, page: nat, products: seq<ProductRecord>, t: Trace): Listing
    requires 1 <= page <= MaxPages
    decreases MaxPages - page
  {
    if |products| >= max then Listing(products, t)
    else
      var s := step(category, max, page, products, t);
      if !s.more || page + 1 > MaxPages then Listing(s.products, s.trace)
      else ListFrom(step, category, max, page + 1, s.products, s.trace)
  }

  /** `scrape_product_list(category, max_products)`: the homepage if not visited yet, then the page loop from page 1 */
  function ScrapeList(server: nat -> Response, step: (string, int, nat, seq<ProductRecord>, Trace) -> Step, category: string, max: int, t: Trace): Listing {
    ListFrom(step, category, max, 1, [], Opened(server, t))
  }

  /** The session once `scrape_product_list` has made sure the homepage was visited */
  function Opened(server: nat -> Response, t: Trace): Trace {
    if t.homepageVisited then t else VisitHomepage(server, t).(homepageVisited := true)
  }

  /**
   * `scrape_all_categories()`: the `for category in self.search_terms` loop from term `k` on,
   * `list` giving each category's scrape from a session state; a longer pause follows every
   * category but one equal to the last term
   */
  function AllFrom(list: (string, Trace) -> Listing, terms: seq<string>, k: nat, products: seq<ProductRecord>, t: Trace): Listing
    requires k <= |terms|
    decreases |terms| - k
  {
    if k == |terms| then Listing(products, t)
    else
      var l := list(terms[k], t);
      var t1 := if terms[k] != terms[|terms| - 1] then l.trace.(pauses := l.trace.pauses + [CategoryWait]) else l.trace;
      AllFrom(list, terms, k + 1, products + l.products, t1)
  }

  class Scraper {
    /** The site: the response to the n-th request of the session */
    const server: nat -> Response
    /** The same responses as the checks of `get_page_content` read them */
    const outcomes: nat -> Outcome
    /** The run of `get_page_content(url)` that starts at the n-th request of the session */
    const fetch: nat -> Run
    /** `product_selectors` */
    const selectors: seq<Node -> bool>
    /** `extract_product_data(container, category)` */
    const extract: string -> Node -> Option<ProductRecord>
    /** What the container and record loops keep from a page, given the room left */
    const records: (string, Node, int) -> seq<ProductRecord>
    /** The search URL of a category and a page */
    const searchUrl: (string, nat) -> string
    /** One pass of the page loop of `scrape_product_list` */
    const step: (string, int, nat, seq<ProductRecord>, Trace) -> Step
    /** What `scrape_product_list(category)` gives from a session state */
    const list: (string, Trace) -> Listing
    var requested: seq<string>
    var sessionSetups: nat
    var refererSet: bool
    var homepageVisited: bool
    var pauses: seq<Pause>

    /** `fetch` gives the runs of `get_page_content` on this session's site */
    ghost predicate FetchValid() {
      forall n: nat {:trigger fetch(n)} :: fetch(n) == GetPage(outcomes, n, Retries)
    }

    /** `records` gives what the container and record loops keep */
    ghost predicate RecordsValid() {
      forall c, d, room {:trigger Harvest(FirstNonEmpty(d, selectors), extract(c), room)} :: records(c, d, room) == Harvest(FirstNonEmpty(d, selectors), extract(c), room)
    }

    /** `searchUrl` gives the search URLs */
    ghost predicate UrlValid() {
      forall c, p {:trigger SearchUrl(c, p)} :: searchUrl(c, p) == SearchUrl(c, p)
    }

    /** `step` gives the passes of the page loop */
    ghost predicate StepValid() {
      forall c, m, p, ps, t {:trigger PageStep(fetch, records, searchUrl, c, m, p, ps, t)} ::
        step(c, m, p, ps, t) == PageStep(fetch, records, searchUrl, c, m, p, ps, t)
    }

    /** `list` gives the category scrapes on this session's site */
    ghost predicate ListValid() {
      forall c, t {:trigger ScrapeList(server, step, c, ProductsPerCategory, t)} :: list(c, t) == ScrapeList(server, step, c, ProductsPerCategory, t)
    }

    function Now(): Trace
      reads this
    {
      Trace(requested, sessionSetups, refererSet, homepageVisited, pauses)
    }

    /** `CastoramaScraper()`: a fresh session, nothing requested yet */
    constructor(server: nat -> Response)
      ensures this.server == server && outcomes == Outcomes(server)
      ensures selectors == ContainerSelectors && extract == Extractor
      ensures FetchValid() && RecordsValid() && UrlValid() && StepValid() && ListValid()
      ensures Now() == Trace([], 0, false, false, [])
    {
      this.server := server;
      outcomes := Outcomes(server);
      var f := (n: nat) => GetPage(Outcomes(server), n, Retries);
      var r := (c: string, d: Node, room: int) => Harvest(FirstNonEmpty(d, ContainerSelectors), Extractor(c), room);
      fetch := f;
      selectors := ContainerSelectors;
      extract := Extractor;
      records := r;
      searchUrl := SearchUrl;
      var st := (c: string, m: int, p: nat, ps: seq<ProductRecord>, t: Trace) => PageStep(f, r, SearchUrl, c, m, p, ps, t);
      step := st;
      list := (c: string, t: Trace) => ScrapeList(server, st, c, ProductsPerCategory, t);
      requested := [];
      sessionSetups := 0;
      refererSet := false;
      homepageVisited := false;
      pauses := [];
    }

    /** `_get_homepage_first()`: true exactly when the homepage answered 200 */
    method GetHomepageFirst() returns (ok: bool)
      modifies this
      ensures ok <==> server(old(|requested|)).Reply? && server(old(|requested|)).status == 200
      ensures Now() == VisitHomepage(server, old(Now()))
    {
      var resp := server(|requested|);
      requested := requested + [HomeUrl()];
      ok := resp.Reply? && resp.status == 200;
      if ok {
        pauses := pauses + [RandomDelay];
      }
    }

    /** `get_page_content(url, retries)` */
    method GetPageContent(url: string, retries: nat) returns (doc: Option<Node>)
      modifies this
      ensures doc == GetPage(outcomes, old(|requested|), retries).doc
      ensures Now() == Fetched(old(Now()), url, GetPage(outcomes, old(|requested|), retries))
    {
      ghost var t0 := Now();
      ghost var start := |requested|;
      ghost var taken: seq<Pause> := [];
      for attempt := 0 to retries
        invariant Now() == Fetched(t0, url, Run(None, attempt, taken))
        invariant GetPage(outcomes, start, retries) == FetchFrom(outcomes, start, attempt, retries, taken)
      {
        var v := Attempt(url, attempt, retries);
        match v
        case Done(d) =>
          FetchedOneMore(t0, url, attempt, taken, d, []);
          return d;
        case Retry(p) =>
          FetchedOneMore(t0, url, attempt, taken, None, PauseList(p));
          pauses := pauses + PauseList(p);
          taken := taken + PauseList(p);
      }
      return None;
    }

    /** `get_page_content(url)` with the default number of attempts, as the run `fetch` gives */
    method FetchRun(url: string) returns (doc: Option<Node>)
      requires FetchValid()
      modifies this
      ensures doc == fetch(old(|requested|)).doc
      ensures Now() == Fetched(old(Now()), url, fetch(old(|requested|)))
    {
      assert fetch(|requested|) == GetPage(outcomes, |requested|, Retries);
      doc := GetPageContent(url, Retries);
    }

    /** One pass of the `for attempt in range(retries)` loop: the request and the verdict on its response */
    method Attempt(url: string, attempt: nat, retries: nat) returns (v: Verdict)
      modifies this
      ensures v == Judge(outcomes(old(|requested|)), attempt, attempt == retries - 1)
      ensures Now() == Attempted(old(Now()), url, attempt)
    {
      if attempt > 0 {
        sessionSetups := sessionSetups + 1;
      }
      if Contains(url, "search") {
        refererSet := true;
      }
      var outcome := outcomes(|requested|);
      requested := requested + [url];
      v := Judge(outcome, attempt, attempt == retries - 1);
    }

    /** One pass of the loop body of `scrape_product_list` */
    method ScrapePage(category: string, max: int, page: nat, products: seq<ProductRecord>) returns (products': seq<ProductRecord>, more: bool)
      requires FetchValid() && RecordsValid() && UrlValid()
      modifies this
      ensures Step(products', Now(), more) == PageStep(fetch, records, searchUrl, category, max, page, products, old(Now()))
    {
      ghost var t := Now();
      var room := max - |products|;
      var ex := extract(category);
      assert forall d, room :: records(category, d, room) == Harvest(FirstNonEmpty(d, selectors), ex, room);
      assert searchUrl(category, page) == SearchUrl(category, page);
      PageStepOf(fetch, records, searchUrl, selectors, ex, category, max, page, products, room, t);
      var doc := FetchRun(SearchUrl(category, page));
      var taken := [];
      if doc.Some? {
        taken := PageRecords(doc.value, selectors, ex, room);
      }
      if taken == [] {
        return products, false;
      }
      products' := products + taken;
      pauses := pauses + [RandomDelay];
      more := true;
    }

    /** `scrape_product_list(category, max_products)` */
    method ScrapeProductList(category: string, max: int) returns (products: seq<ProductRecord>)
      requires FetchValid() && RecordsValid() && UrlValid() && StepValid()
      modifies this
      ensures Listing(products, Now()) == ScrapeList(server, step, category, max, old(Now()))
    {
      if !homepageVisited {
        var ok := GetHomepageFirst();
        homepageVisited := true;
      }
      products := ScrapePages(category, max);
    }

    /** The page loop of `scrape_product_list(category, max_products)` */
    method ScrapePages(category: string, max: int) returns (products: seq<ProductRecord>)
      requires FetchValid() && RecordsValid() && UrlValid() && StepValid()
      modifies this
      ensures Listing(products, Now()) == ListFrom(step, category, max, 1, [], old(Now()))
    {
      products := [];
      var page := 1;
      while |products| < max
        invariant 1 <= page <= MaxPages
        invariant ListFrom(step, category, max, 1, [], old(Now())) == ListFrom(step, category, max, page, products, Now())
        decreases MaxPages - page
      {
        var more;
        products, more := ScrapePage(category, max, page, products);
        if !more || page + 1 > MaxPages {
          break;
        }
        page := page + 1;
      }
    }

    /** `scrape_all_categories()` */
    method ScrapeAllCategories() returns (all: seq<ProductRecord>)
      requires FetchValid() && RecordsValid() && UrlValid() && StepValid() && ListValid()
      modifies this
      ensures Listing(all, Now()) == AllFrom(list, SearchTerms, 0, [], old(Now()))
    {
      all := [];
      for k := 0 to |SearchTerms|
        invariant AllFrom(list, SearchTerms, 0, [], old(Now())) == AllFrom(list, SearchTerms, k, all, Now())
      {
        var products := ScrapeCategory(SearchTerms[k], SearchTerms[k] != SearchTerms[|SearchTerms| - 1]);
        all := all + products;
      }
    }

    /** One pass of the `for category in self.search_terms` loop: the category, then the long pause unless it is the last. */
    method ScrapeCategory(category: string, pause: bool) returns (products: seq<ProductRecord>)
      requires FetchValid() && RecordsValid() && UrlValid() && StepValid() && ListValid()
      modifies this
      ensures var l := list(category, old(Now()));
        products == l.products && Now() == if pause then l.trace.(pauses := l.trace.pauses + [CategoryWait]) else l.trace
    {
      products := ScrapeProductList(category, ProductsPerCategory);
      if pause {
        pauses := pauses + [CategoryWait];
      }
    }
  }
}
