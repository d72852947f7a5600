/**
 * `CastoramaSeleniumScraper`: the driver it keeps, the commands it sends the browser (in
 * order), the pauses it takes, the scroll loop of `_human_like_scroll`, the page loop of
 * `scrape_search_page`, the category loop of `scrape_all_categories` and `close`. The browser
 * is an oracle `browser` giving the reply to the n-th command of the session; the scroll
 * step drawn by `random.randint(300, 600)` is an oracle `increment` indexed by the point of
 * the session at which the scroll starts.
 */
module BrowserScraper {
  import opened Wrappers
  import opened Strings
  import opened Dom
  import opened Selectors
  import opened Url
  import opened Product
  import opened Site
  import opened Pacing
  import opened BrowserExtract
  import RequestsScraper

  /** `max_pages` of `scrape_all_categories` */
  const CategoryPages: int := 3

  /** What the scraper asks of the browser */
  datatype Command =
    | Launch            // `webdriver.Chrome(options=chrome_options)`
    | HideWebdriver     // the script that hides `navigator.webdriver`
    | Get(url: string)  // `driver.get(url)`
    | WaitForBody       // `WebDriverWait(driver, 10).until(presence of the body)`
    | ReadHeight        // `execute_script("return document.body.scrollHeight")`
    | ScrollTo(y: int)  // `execute_script(f"window.scrollTo(0, {y});")`
    | ReadPage          // the page as `find_elements` and `find_element` see it
    | Click             // the script that clicks the next button
    | Quit              // `driver.quit()`

  /**
   * The browser's reply to a command: whether it succeeded (for `WaitForBody`, whether the
   * body appeared within 10 seconds; for any other command, whether it raised nothing), the
   * number a script returned, and the page the browser shows.
   */
  datatype Reply = Reply(ok: bool, height: int, page: Node)

  /** What the scraper has done so far: whether `self.driver` is set, every command sent, every pause taken */
  datatype Session = Session(driver: bool, commands: seq<Command>, pauses: seq<Pause>)

  /** `s` after sending `c` */
  function Issue(s: Session, c: Command): Session {
    s.(commands := s.commands + [c])
  }

  /** `s` after pausing */
  function Paused(s: Session, p: Pause): Session {
    s.(pauses := s.pauses + [p])
  }

  /** The reply to the next command sent in session `s` */
  function Answer(browser: nat -> Reply, s: Session): Reply {
    browser(|s.commands|)
  }

  /** `f"{self.base_url}/search?term={search_term}"` */
  function BrowserSearchUrl(term: string): string {
    Base(BaseOrigin) + "/search?term=" + term
  }

  // ----- the driver -----

  datatype Setup = Setup(ok: bool, session: Session)

  /**
   * `_setup_driver()`: Chrome is started, then the script hiding the automation flag runs;
   * true when both succeed. A started Chrome stays in `self.driver` even when the script fails.
   */
  function DriverSetup(browser: nat -> Reply, s: Session): Setup {
    var s1 := Issue(s, Launch);
    if !Answer(browser, s).ok then Setup(false, s1)
    else Setup(Answer(browser, s1).ok, Issue(s1.(driver := true), HideWebdriver))
  }

  // ----- scrolling -----

  /** `random.randint(300, 600)` */
  ghost predicate IncrementsValid(increment: nat -> int) {
    forall n: nat :: 300 <= increment(n) <= 600
  }

  /** Every page height the browser reports is at most `bound`: the pages do not grow without end. */
  ghost predicate HeightsBounded(browser: nat -> Reply, bound: int) {
    forall n: nat :: browser(n).height <= bound
  }

  datatype Scrolled = Scrolled(ok: bool, session: Session)

  /**
   * The `while current_position < total_height` loop from position `current` with height
   * `total` and step `k`: scroll, pause, step, read the height again; a failing script ends it.
   */
  function ScrollFrom(browser: nat -> Reply, bound: int, k: int, current: int, total: int, s: Session): Scrolled
    requires k > 0 && total <= bound && HeightsBounded(browser, bound)
    decreases bound - current
  {
    if current >= total then Scrolled(true, s)
    else
      var s1 := Issue(s, ScrollTo(current));
      if !Answer(browser, s).ok then Scrolled(false, s1)
      else
        var s2 := Paused(s1, ScrollWait);
        var r := Answer(browser, s2);
        var s3 := Issue(s2, ReadHeight);
        if !r.ok then Scrolled(false, s3)
        else ScrollFrom(browser, bound, k, current + k, r.height, s3)
  }

  /** `_human_like_scroll()`: read the height, draw the step, scroll from the top */
  function Scroll(browser: nat -> Reply, increment: nat -> int, bound: int, s: Session): Scrolled
    requires IncrementsValid(increment) && HeightsBounded(browser, bound)
  {
    var k := increment(|s.commands|);
    var r := Answer(browser, s);
    var s1 := Issue(s, ReadHeight);
    if !r.ok then Scrolled(false, s1) else ScrollFrom(browser, bound, k, 0, r.height, s1)
  }

  // ----- one results page -----

  predicate IsProductArticle(n: Node) {
    IsTag(n, "article") && HasClass(n, "product")
  }

  predicate IsProductCardClass(n: Node) {
    HasClass(n, "product-card")
  }

  predicate IsProductItemClass(n: Node) {
    HasClass(n, "product-item")
  }

  predicate IsProductTileClass(n: Node) {
    HasClass(n, "product-tile")
  }

  /** `product_selectors`: `div[data-testid='product']`, `article.product`, `.product-card`, `.product-item`, `.product-tile` */
  const BrowserContainerSelectors: seq<Node -> bool> :=
    [RequestsScraper.IsProductDiv, IsProductArticle, IsProductCardClass, IsProductItemClass, IsProductTileClass]

  /** `a[aria-label*='next'], .next-page, .pagination-next` */
  predicate IsNextButton(n: Node) {
    || (IsTag(n, "a") && Attr(n, "aria-label").Some? && Contains(Attr(n, "aria-label").value, "next"))
    || HasClass(n, "next-page")
    || HasClass(n, "pagination-next")
  }

  /** The elements whose `disabled` attribute WebDriver honours */
  predicate IsFormControl(n: Node) {
    IsTag(n, "button") || IsTag(n, "input") || IsTag(n, "select") || IsTag(n, "textarea") || IsTag(n, "optgroup") || IsTag(n, "option")
  }

  /** `is_enabled()`: true for any element but a form control, and for a form control without `disabled` */
  predicate Enabled(n: Node) {
    !IsFormControl(n) || Attr(n, "disabled").None?
  }

  /** `<a aria-label="next" disabled>` is a next button WebDriver reports as enabled: the program clicks it. */
  lemma DisabledNextLinkIsEnabled()
    ensures var n := Element("a", map["aria-label" := "next", "disabled" := ""], []);
      IsNextButton(n) && Attr(n, "disabled").Some? && Enabled(n)
  {
    var n := Element("a", map["aria-label" := "next", "disabled" := ""], []);
    assert OccursAt("next", "next", 0);
  }

  /** `extract` gives what `_extract_product_from_element(element, category)` returns. */
  ghost predicate ExtractsRecords(extract: (Node, string) -> Option<ProductRecord>) {
    forall e, category :: extract(e, category) == BrowserRecord(e, category)
  }

  /** `_extract_product_from_element(element, term)` as the element loop applies it */
  function Extractor(extract: (Node, string) -> Option<ProductRecord>, term: string): Node -> Option<ProductRecord> {
    e => extract(e, term)
  }

  /** The records the element loop keeps from a page */
  function PageRecords(extract: (Node, string) -> Option<ProductRecord>, page: Node, term: string): seq<ProductRecord> {
    RequestsScraper.Records(FirstNonEmpty(page, BrowserContainerSelectors), Extractor(extract, term))
  }

  /** The records the element loop keeps from a page, as a function of the page */
  function Keeps(extract: (Node, string) -> Option<ProductRecord>, term: string): Node -> seq<ProductRecord> {
    (page: Node) => PageRecords(extract, page, term)
  }

  /** What one pass of the page loop leaves: the products, the session, and whether the loop goes on */
  datatype PageStep = PageStep(products: seq<ProductRecord>, session: Session, more: bool)

  /**
   * One pass of `for page in range(1, max_pages + 1)`: wait for the body (a timeout ends the
   * loop), scroll, read the page; no containers or no records end the loop; otherwise the
   * records are added and, when `page < max_pages`, the next button is clicked if it exists and
   * is enabled. A failing command raises out of the loop, which also ends it. `keep` gives the
   * records the element loop keeps from a page.
   */
  function ResultsPage(browser: nat -> Reply, increment: nat -> int, bound: int, keep: Node -> seq<ProductRecord>, maxPages: int, page: int,
    products: seq<ProductRecord>, s: Session): PageStep
    requires IncrementsValid(increment) && HeightsBounded(browser, bound)
  {
    var s1 := Issue(s, WaitForBody);
    if !Answer(browser, s).ok then PageStep(products, s1, false)
    else
      var sc := Scroll(browser, increment, bound, s1);
      if !sc.ok then PageStep(products, sc.session, false)
      else
        var root := Answer(browser, sc.session).page;
        PageRead(browser, keep, maxPages, page, products, root, Issue(sc.session, ReadPage))
  }

  /** The rest of a pass once the page `root` is read: keep its records, then look for the next page */
  function PageRead(browser: nat -> Reply, keep: Node -> seq<ProductRecord>, maxPages: int, page: int,
    products: seq<ProductRecord>, root: Node, s: Session): PageStep
  {
    var taken := keep(root);
    if taken == [] then PageStep(products + taken, s, false)
    else FollowNext(browser, maxPages, page, products + taken, root, s)
  }

  /** After a page with records: below the last page, click the next button if it exists and is enabled */
  function FollowNext(browser: nat -> Reply, maxPages: int, page: int, products: seq<ProductRecord>, root: Node, s: Session): PageStep {
    if page < maxPages then
      match Find(root, IsNextButton)
      case None => PageStep(products, s, false)
      case Some(b) =>
        if !Enabled(b) then PageStep(products, s, false)
        else
          var s1 := Issue(s, Click);
          if !Answer(browser, s).ok then PageStep(products, s1, false)
          else PageStep(products, Paused(s1, NextPageWait), true)
    else PageStep(products, s, true)
  }

  datatype Listing = Listing(products: seq<ProductRecord>, session: Session)

  /** The page loop from page `page` on */
  function PagesFrom(browser: nat -> Reply, increment: nat -> int, bound: int, keep: Node -> seq<ProductRecord>, maxPages: int, page: int,
    products: seq<ProductRecord>, s: Session): Listing
    requires IncrementsValid(increment) && HeightsBounded(browser, bound)
    decreases maxPages - page
  {
    if page > maxPages then Listing(products, s)
    else
      var st := ResultsPage(browser, increment, bound, keep, maxPages, page, products, s);
      if !st.more then Listing(st.products, st.session)
      else PagesFrom(browser, increment, bound, keep, maxPages, page + 1, st.products, st.session)
  }

  /**
   * The part of `scrape_search_page` before its page loop: set the driver up if there is none
   * (a failed setup stops), visit the homepage, open the search. A failing `get` raises and
   * stops the search.
   */
  function OpenSearch(browser: nat -> Reply, term: string, s: Session): Setup {
    if !s.driver && !DriverSetup(browser, s).ok then Setup(false, DriverSetup(browser, s).session)
    else
      var s0 := if s.driver then s else DriverSetup(browser, s).session;
      var s1 := Issue(s0, Get(Base(BaseOrigin)));
      if !Answer(browser, s0).ok then Setup(false, s1)
      else
        var s2 := Paused(s1, HomepageWait);
        var s3 := Issue(s2, Get(BrowserSearchUrl(term)));
        if !Answer(browser, s2).ok then Setup(false, s3)
        else Setup(true, Paused(s3, SearchWait))
  }

  /**
   * `scrape_search_page(search_term, max_pages)`: open the search, then run the page loop; a
   * search that could not be opened gives the empty list.
   */
  function SearchPage(browser: nat -> Reply, increment: nat -> int, bound: int, extract: (Node, string) -> Option<ProductRecord>, term: string, maxPages: int, s: Session): Listing
    requires IncrementsValid(increment) && HeightsBounded(browser, bound)
  {
    var o := OpenSearch(browser, term, s);
    if !o.ok then Listing([], o.session)
    else PagesFrom(browser, increment, bound, Keeps(extract, term), maxPages, 1, [], o.session)
  }

  /**
   * `scrape_all_categories()` from term `k` on, `list` giving each term's search from a session
   * state; the long pause follows every term but one equal to the last
   */
  function BrowserAllFrom(list: (string, Session) -> Listing, terms: seq<string>, k: nat, products: seq<ProductRecord>, s: Session): Listing
    requires k <= |terms|
    decreases |terms| - k
  {
    if k == |terms| then Listing(products, s)
    else
      var l := list(terms[k], s);
      var s1 := if terms[k] != terms[|terms| - 1] then Paused(l.session, BrowserCategoryWait) else l.session;
      BrowserAllFrom(list, terms, k + 1, products + l.products, s1)
  }

  /** `_extract_product_from_element`, as the scraper calls it */
  const BrowserExtractor: (Node, string) -> Option<ProductRecord> := (e: Node, category: string) => BrowserRecord(e, category)

  /** `scrape_search_page(c, max_pages=3)` from session `s`, for every term `c` and session `s` */
  ghost function SearchList(browser: nat -> Reply, increment: nat -> int, bound: int, extract: (Node, string) -> Option<ProductRecord>): (string, Session) -> Listing
    requires IncrementsValid(increment) && HeightsBounded(browser, bound)
  {
    (c: string, s: Session) => SearchPage(browser, increment, bound, extract, c, CategoryPages, s)
  }

  class SeleniumScraper {
    /** The browser: the reply to the n-th command of the session */
    const browser: nat -> Reply
    /** The scroll step drawn when a scroll starts at the n-th command */
    const increment: nat -> int
    /** A height no page exceeds */
    ghost const bound: int
    /** `_extract_product_from_element` */
    const extract: (Node, string) -> Option<ProductRecord>
    /** `scrape_search_page(term, max_pages=3)` from a session state */
    ghost const list: (string, Session) -> Listing
    var driver: bool
    var commands: seq<Command>
    var pauses: seq<Pause>

    /** The scroll steps are drawn from 300 to 600 and no page is higher than `bound` */
    ghost predicate ScrollValid() {
      IncrementsValid(increment) && HeightsBounded(browser, bound)
    }

    ghost predicate Valid() {
      ScrollValid() && ExtractsRecords(extract)
    }

    /** `list` gives the searches of `scrape_all_categories` */
    ghost predicate ListValid() {
      && Valid()
      && forall c, s {:trigger SearchPage(browser, increment, bound, extract, c, CategoryPages, s)} ::
        list(c, s) == SearchPage(browser, increment, bound, extract, c, CategoryPages, s)
    }

    function Now(): Session
      reads this
    {
      Session(driver, commands, pauses)
    }

    /** `CastoramaSeleniumScraper()`: no driver yet, nothing sent */
    constructor(browser: nat -> Reply, increment: nat -> int, ghost bound: int)
      requires IncrementsValid(increment) && HeightsBounded(browser, bound)
      ensures this.browser == browser && this.increment == increment && this.bound == bound
      ensures extract == BrowserExtractor && list == SearchList(browser, increment, bound, BrowserExtractor)
      ensures Valid() && ListValid()
      ensures Now() == Session(false, [], [])
    {
      this.browser := browser;
      this.increment := increment;
      this.bound := bound;
      extract := BrowserExtractor;
      list := SearchList(browser, increment, bound, BrowserExtractor);
      driver := false;
      commands := [];
      pauses := [];
    }

    /** Send `c` and return the browser's reply */
    method Send(c: Command) returns (r: Reply)
      modifies this
      ensures r == Answer(browser, old(Now())) && Now() == Issue(old(Now()), c)
    {
      r := browser(|commands|);
      commands := commands + [c];
    }

    /** `_setup_driver()` */
    method SetupDriver() returns (ok: bool)
      modifies this
      ensures Setup(ok, Now()) == DriverSetup(browser, old(Now()))
    {
      var r := Send(Launch);
      if !r.ok {
        return false;
      }
      driver := true;
      r := Send(HideWebdriver);
      ok := r.ok;
    }

    /** `_human_like_scroll()`; false when a script raised */
    method HumanLikeScroll() returns (ok: bool)
      requires ScrollValid()
      modifies this
      ensures Scrolled(ok, Now()) == Scroll(browser, increment, bound, old(Now()))
    {
      var k := increment(|commands|);
      var r := Send(ReadHeight);
      if !r.ok {
        return false;
      }
      var total := r.height;
      var current := 0;
      while current < total
        invariant total <= bound
        invariant Scroll(browser, increment, bound, old(Now())) == ScrollFrom(browser, bound, k, current, total, Now())
        decreases bound - current
      {
        r := Send(ScrollTo(current));
        if !r.ok {
          return false;
        }
        pauses := pauses + [ScrollWait];
        current := current + k;
        r := Send(ReadHeight);
        if !r.ok {
          return false;
        }
        total := r.height;
      }
      return true;
    }

    /** The `for element in product_elements` loop */
    method ExtractAll(elements: seq<Node>, term: string) returns (taken: seq<ProductRecord>)
      requires Valid()
      ensures taken == RequestsScraper.Records(elements, Extractor(extract, term))
    {
      taken := [];
      for i := 0 to |elements|
        invariant RequestsScraper.Records(elements, Extractor(extract, term)) == taken + RequestsScraper.Records(elements[i..], Extractor(extract, term))
      {
        var product := ExtractProductFromElement(elements[i], term);
        assert elements[i..][1..] == elements[i + 1..];
        if product.Some? {
          taken := taken + [product.value];
        }
      }
    }

    /** One pass of the page loop of `scrape_search_page` */
    method ScrapeResultsPage(term: string, maxPages: int, page: int, products: seq<ProductRecord>)
      returns (products': seq<ProductRecord>, more: bool)
      requires Valid()
      modifies this
      ensures PageStep(products', Now(), more) == ResultsPage(browser, increment, bound, Keeps(extract, term), maxPages, page, products, old(Now()))
    {
      products', more := products, false;
      var r := Send(WaitForBody);
      if !r.ok {
        return;
      }
      var ok := HumanLikeScroll();
      if !ok {
        return;
      }
      r := Send(ReadPage);
      products', more := ReadResults(term, maxPages, page, products, r.page);
    }

    /** The element loop of one pass and the click on the next button */
    method ReadResults(term: string, maxPages: int, page: int, products: seq<ProductRecord>, root: Node)
      returns (products': seq<ProductRecord>, more: bool)
      requires Valid()
      modifies this
      ensures PageStep(products', Now(), more) == PageRead(browser, Keeps(extract, term), maxPages, page, products, root, old(Now()))
    {
      more := false;
      var elements := SelectContainers(root, BrowserContainerSelectors);
      var taken := ExtractAll(elements, term);
      products' := products + taken;
      if taken == [] {
        return;
      }
      more := ClickNext(maxPages, page, products', root);
    }

    /** `if page < max_pages:` the search for the next button and the click */
    method ClickNext(maxPages: int, page: int, products: seq<ProductRecord>, root: Node) returns (more: bool)
      modifies this
      ensures PageStep(products, Now(), more) == FollowNext(browser, maxPages, page, products, root, old(Now()))
    {
      if page < maxPages {
        var next := Find(root, IsNextButton);
        if next.None? || !Enabled(next.value) {
          return false;
        }
        var r := Send(Click);
        if !r.ok {
          return false;
        }
        pauses := pauses + [NextPageWait];
      }
      more := true;
    }

    /** `scrape_search_page(search_term, max_pages)` */
    method ScrapeSearchPage(term: string, maxPages: int) returns (products: seq<ProductRecord>)
      requires Valid()
      modifies this
      ensures Listing(products, Now()) == SearchPage(browser, increment, bound, extract, term, maxPages, old(Now()))
    {
      products := [];
      var ok := OpenSearchPage(term);
      if ok {
        products := ScrapePages(term, maxPages);
      }
    }

    /** The start of `scrape_search_page`: the driver if there is none, the homepage, the search */
    method OpenSearchPage(term: string) returns (ok: bool)
      modifies this
      ensures Setup(ok, Now()) == OpenSearch(browser, term, old(Now()))
    {
      ok := true;
      if !driver {
        ok := SetupDriver();
        if !ok {
          return;
        }
      }
      var r := Send(Get(Base(BaseOrigin)));
      if !r.ok {
        return false;
      }
      pauses := pauses + [HomepageWait];
      r := Send(Get(BrowserSearchUrl(term)));
      if !r.ok {
        return false;
      }
      pauses := pauses + [SearchWait];
    }

    /** The page loop of `scrape_search_page` */
    method ScrapePages(term: string, maxPages: int) returns (products: seq<ProductRecord>)
      requires Valid()
      modifies this
      ensures Listing(products, Now()) == PagesFrom(browser, increment, bound, Keeps(extract, term), maxPages, 1, [], old(Now()))
    {
      products := [];
      var page := 1;
      while page <= maxPages
        invariant PagesFrom(browser, increment, bound, Keeps(extract, term), maxPages, 1, [], old(Now())) ==
          PagesFrom(browser, increment, bound, Keeps(extract, term), maxPages, page, products, Now())
        decreases maxPages - page
      {
        var more;
        products, more := ScrapeResultsPage(term, maxPages, page, products);
        if !more {
          return;
        }
        page := page + 1;
      }
    }

    /** `scrape_all_categories()` */
    method ScrapeAllCategories() returns (all: seq<ProductRecord>)
      requires ListValid()
      modifies this
      ensures Listing(all, Now()) == BrowserAllFrom(list, SearchTerms, 0, [], old(Now()))
    {
      all := [];
      for k := 0 to |SearchTerms|
        invariant BrowserAllFrom(list, SearchTerms, 0, [], old(Now())) == BrowserAllFrom(list, SearchTerms, k, all, Now())
      {
        var products := SearchCategory(SearchTerms[k], SearchTerms[k] != SearchTerms[|SearchTerms| - 1]);
        all := all + products;
      }
    }

    /** One pass of the `for term in self.search_terms` loop: the search, then the long pause unless it is the last term */
    method SearchCategory(term: string, pause: bool) returns (products: seq<ProductRecord>)
      requires ListValid()
      modifies this
      ensures var l := list(term, old(Now()));
        products == l.products && Now() == if pause then Paused(l.session, BrowserCategoryWait) else l.session
    {
      products := ScrapeSearchPage(term, CategoryPages);
      if pause {
        pauses := pauses + [BrowserCategoryWait];
      }
    }

    /** `close()`: quit the driver if there is one; false when `quit` raised */
    method Close() returns (ok: bool)
      modifies this
      ensures old(driver) ==> Now() == Issue(old(Now()), Quit) && ok == Answer(browser, old(Now())).ok
      ensures !old(driver) ==> Now() == old(Now()) && ok
    {
      ok := true;
      if driver {
        var r := Send(Quit);
        ok := r.ok;
      }
    }
  }
}
