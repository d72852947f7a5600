/**
 * What the Selenium scraper guarantees, for any browser: the scroll loop visits the
 * positions `0, k, 2k, …` below the height last read and stops at the bottom or at the first
 * failing script; a search reads at most `max_pages` pages and clicks at most
 * `max_pages - 1` times; its products are the records of the pages read, in order, all of the
 * search term; the driver is set up only when there is none; the categories come in
 * `search_terms` order with the long pause between them.
 */
module BrowserProperties {
  import opened Wrappers
  import opened Strings
  import opened Dom
  import opened Selectors
  import opened Url
  import opened Product
  import opened Site
  import opened Pacing
  import opened BrowserExtract
  import opened BrowserScraper
  import RequestsScraper
  import RequestsProperties

  // ----- the scroll loop -----

  /**
   * The commands from index `m` on are rounds of the scroll loop from position `current` with
   * step `k`: a scroll, then a height read; the first scroll goes to `current` and each next
   * one `k` further down.
   */
  predicate ScrollRounds(cmds: seq<Command>, m: nat, current: int, k: int) {
    && (forall n | m <= n < |cmds| :: cmds[n].ScrollTo? <==> (n - m) % 2 == 0)
    && (forall n | m <= n < |cmds| :: (n - m) % 2 == 1 ==> cmds[n] == ReadHeight)
    && (|cmds| > m ==> cmds[m] == ScrollTo(current))
    && (forall n | m <= n && n + 2 < |cmds| && cmds[n].ScrollTo? :: cmds[n + 2] == ScrollTo(cmds[n].y + k))
  }

  /** The scroll loop only appends, and leaves the driver alone. */
  lemma {:induction false} ScrollFromExtends(browser: nat -> Reply, bound: int, k: int, current: int, total: int, s: Session)
    requires k > 0 && total <= bound && HeightsBounded(browser, bound)
    ensures var r := ScrollFrom(browser, bound, k, current, total, s);
      && RequestsProperties.IsPrefix(s.commands, r.session.commands)
      && RequestsProperties.IsPrefix(s.pauses, r.session.pauses)
      && r.session.driver == s.driver
    decreases bound - current
  {
    if current < total && Answer(browser, s).ok {
      var s2 := Paused(Issue(s, ScrollTo(current)), ScrollWait);
      var s3 := Issue(s2, ReadHeight);
      if Answer(browser, s2).ok {
        ScrollFromExtends(browser, bound, k, current + k, Answer(browser, s2).height, s3);
        var c := ScrollFrom(browser, bound, k, current + k, Answer(browser, s2).height, s3).session;
        assert c.commands[..|s.commands|] == s3.commands[..|s3.commands|][..|s.commands|];
        assert c.pauses[..|s.pauses|] == s3.pauses[..|s3.pauses|][..|s.pauses|];
      }
    }
  }

  /** A scroll to `current` and a height read, then rounds from `current + k`, are rounds from `current`. */
  lemma RoundsPrepend(cmds: seq<Command>, m: nat, current: int, k: int)
    requires |cmds| >= m + 2 && cmds[m] == ScrollTo(current) && cmds[m + 1] == ReadHeight
    requires ScrollRounds(cmds, m + 2, current + k, k)
    ensures ScrollRounds(cmds, m, current, k)
  {
  }

  /** The scroll loop sends rounds of a scroll and a height read, `k` further down each round. */
  lemma {:induction false} ScrollFromCommands(browser: nat -> Reply, bound: int, k: int, current: int, total: int, s: Session)
    requires k > 0 && total <= bound && HeightsBounded(browser, bound)
    ensures ScrollRounds(ScrollFrom(browser, bound, k, current, total, s).session.commands, |s.commands|, current, k)
    decreases bound - current
  {
    var m := |s.commands|;
    if current < total && Answer(browser, s).ok {
      var s2 := Paused(Issue(s, ScrollTo(current)), ScrollWait);
      var s3 := Issue(s2, ReadHeight);
      if Answer(browser, s2).ok {
        var h := Answer(browser, s2).height;
        ScrollFromCommands(browser, bound, k, current + k, h, s3);
        ScrollFromExtends(browser, bound, k, current + k, h, s3);
        var c := ScrollFrom(browser, bound, k, current + k, h, s3).session.commands;
        assert c[m] == s3.commands[m] && c[m + 1] == s3.commands[m + 1];
        RoundsPrepend(c, m, current, k);
      }
    }
  }

  /** The scroll loop pauses once after each scroll that succeeded: one pause per height read. */
  lemma {:induction false} ScrollFromPauses(browser: nat -> Reply, bound: int, k: int, current: int, total: int, s: Session)
    requires k > 0 && total <= bound && HeightsBounded(browser, bound)
    ensures var r := ScrollFrom(browser, bound, k, current, total, s);
      && |r.session.commands| >= |s.commands|
      && r.session.pauses == s.pauses + Repeat(ScrollWait, (|r.session.commands| - |s.commands|) / 2)
    decreases bound - current
  {
    var m := |s.commands|;
    if current < total && Answer(browser, s).ok {
      var s2 := Paused(Issue(s, ScrollTo(current)), ScrollWait);
      var s3 := Issue(s2, ReadHeight);
      if Answer(browser, s2).ok {
        var h := Answer(browser, s2).height;
        ScrollFromPauses(browser, bound, k, current + k, h, s3);
        var c := ScrollFrom(browser, bound, k, current + k, h, s3).session;
        var w := (|c.commands| - m - 2) / 2;
        assert (|c.commands| - m) / 2 == w + 1;
        assert [ScrollWait] + Repeat(ScrollWait, w) == Repeat(ScrollWait, w + 1);
        assert c.pauses == s.pauses + ([ScrollWait] + Repeat(ScrollWait, w));
      }
    }
  }

  /**
   * Every scroll goes to a position below the height read just before it (the first height
   * for the first scroll), and a loop that ends normally ends, after its last scroll, a step
   * `k` past the latest height read.
   */
  lemma ScrollFromHeights(browser: nat -> Reply, bound: int, k: int, current: int, total: int, s: Session)
    requires k > 0 && total <= bound && HeightsBounded(browser, bound)
    ensures var r := ScrollFrom(browser, bound, k, current, total, s);
      var m := |s.commands|;
      var c := r.session.commands;
      && (forall n | m <= n < |c| && c[n].ScrollTo? :: c[n].y < if n == m then total else browser(n - 1).height)
      && (r.ok && |c| == m ==> current >= total)
      && (r.ok && |c| > m ==> |c| >= m + 2 && c[|c| - 2].ScrollTo? && c[|c| - 2].y + k >= browser(|c| - 1).height)
  {
    ScrollFromBelow(browser, bound, k, current, total, s);
    ScrollFromLast(browser, bound, k, current, total, s);
  }

  /** Every scroll goes to a position below the height read just before it. */
  lemma {:induction false} ScrollFromBelow(browser: nat -> Reply, bound: int, k: int, current: int, total: int, s: Session)
    requires k > 0 && total <= bound && HeightsBounded(browser, bound)
    ensures var r := ScrollFrom(browser, bound, k, current, total, s);
      var m := |s.commands|;
      var c := r.session.commands;
      forall n | m <= n < |c| && c[n].ScrollTo? :: c[n].y < if n == m then total else browser(n - 1).height
    decreases bound - current
  {
    var m := |s.commands|;
    if current < total && Answer(browser, s).ok {
      var s2 := Paused(Issue(s, ScrollTo(current)), ScrollWait);
      var s3 := Issue(s2, ReadHeight);
      if Answer(browser, s2).ok {
        var h := Answer(browser, s2).height;
        ScrollFromBelow(browser, bound, k, current + k, h, s3);
        ScrollFromExtends(browser, bound, k, current + k, h, s3);
        var r := ScrollFrom(browser, bound, k, current + k, h, s3);
        assert r == ScrollFrom(browser, bound, k, current, total, s);
        assert r.session.commands[m] == s3.commands[m] && r.session.commands[m + 1] == s3.commands[m + 1];
      }
    }
  }

  /** A loop that ends normally either sent nothing or ends, after its last scroll, a step `k` past the latest height. */
  lemma {:induction false} ScrollFromLast(browser: nat -> Reply, bound: int, k: int, current: int, total: int, s: Session)
    requires k > 0 && total <= bound && HeightsBounded(browser, bound)
    ensures var r := ScrollFrom(browser, bound, k, current, total, s);
      var m := |s.commands|;
      var c := r.session.commands;
      && (r.ok && |c| == m ==> current >= total)
      && (r.ok && |c| > m ==> |c| >= m + 2 && c[|c| - 2].ScrollTo? && c[|c| - 2].y + k >= browser(|c| - 1).height)
    decreases bound - current
  {
    var m := |s.commands|;
    if current < total && Answer(browser, s).ok {
      var s2 := Paused(Issue(s, ScrollTo(current)), ScrollWait);
      var s3 := Issue(s2, ReadHeight);
      if Answer(browser, s2).ok {
        var h := Answer(browser, s2).height;
        ScrollFromLast(browser, bound, k, current + k, h, s3);
        ScrollFromExtends(browser, bound, k, current + k, h, s3);
        var r := ScrollFrom(browser, bound, k, current + k, h, s3);
        assert r == ScrollFrom(browser, bound, k, current, total, s);
        assert r.session.commands[m] == s3.commands[m] && r.session.commands[m + 1] == s3.commands[m + 1];
      }
    }
  }

  /** The scroll loop ends normally exactly when every script it ran succeeded; a failure is always its last command. */
  lemma {:induction false} ScrollFromReplies(browser: nat -> Reply, bound: int, k: int, current: int, total: int, s: Session)
    requires k > 0 && total <= bound && HeightsBounded(browser, bound)
    ensures var r := ScrollFrom(browser, bound, k, current, total, s);
      var m := |s.commands|;
      var e := |r.session.commands|;
      && (forall n | m <= n < e - 1 :: browser(n).ok)
      && (r.ok <==> forall n | m <= n < e :: browser(n).ok)
    decreases bound - current
  {
    if current < total && Answer(browser, s).ok {
      var s2 := Paused(Issue(s, ScrollTo(current)), ScrollWait);
      var s3 := Issue(s2, ReadHeight);
      if Answer(browser, s2).ok {
        ScrollFromReplies(browser, bound, k, current + k, Answer(browser, s2).height, s3);
      }
    }
  }

  /**
   * `_human_like_scroll()` reads the height, then scrolls from the top in rounds `k` apart,
   * `k` between 300 and 600, pausing after each scroll; the driver is left alone.
   */
  lemma ScrollSpec(browser: nat -> Reply, increment: nat -> int, bound: int, s: Session)
    requires IncrementsValid(increment) && HeightsBounded(browser, bound)
    ensures var r := Scroll(browser, increment, bound, s);
      var m := |s.commands|;
      var c := r.session.commands;
      && 300 <= increment(m) <= 600
      && RequestsProperties.IsPrefix(s.commands, c) && |c| > m && c[m] == ReadHeight
      && r.session.driver == s.driver
      && ScrollRounds(c, m + 1, 0, increment(m))
      && r.session.pauses == s.pauses + Repeat(ScrollWait, (|c| - m - 1) / 2)
  {
    var m := |s.commands|;
    var s1 := Issue(s, ReadHeight);
    if browser(m).ok {
      ScrollFromExtends(browser, bound, increment(m), 0, browser(m).height, s1);
      ScrollFromCommands(browser, bound, increment(m), 0, browser(m).height, s1);
      ScrollFromPauses(browser, bound, increment(m), 0, browser(m).height, s1);
      var c := Scroll(browser, increment, bound, s).session.commands;
      assert c[m] == s1.commands[m];
      assert c[..m] == s1.commands[..|s1.commands|][..m];
    }
  }

  /**
   * Every scroll of `_human_like_scroll()` goes to a position below the height read just
   * before it; the scroll ends normally exactly when every script succeeds, and then at the
   * top of an empty page or one step past the latest height read.
   */
  lemma ScrollEnds(browser: nat -> Reply, increment: nat -> int, bound: int, s: Session)
    requires IncrementsValid(increment) && HeightsBounded(browser, bound)
    ensures var r := Scroll(browser, increment, bound, s);
      var m := |s.commands|;
      var c := r.session.commands;
      && (forall n | m < n < |c| && c[n].ScrollTo? :: c[n].y < browser(n - 1).height)
      && (r.ok <==> forall n | m <= n < |c| :: browser(n).ok)
      && (r.ok ==>
            || (|c| == m + 1 && browser(m).height <= 0)
            || (|c| >= m + 3 && c[|c| - 2].ScrollTo? && c[|c| - 2].y + increment(m) >= browser(|c| - 1).height))
  {
    var m := |s.commands|;
    var s1 := Issue(s, ReadHeight);
    if browser(m).ok {
      ScrollFromHeights(browser, bound, increment(m), 0, browser(m).height, s1);
      ScrollFromReplies(browser, bound, increment(m), 0, browser(m).height, s1);
      ScrollFromExtends(browser, bound, increment(m), 0, browser(m).height, s1);
    }
  }

  // ----- one results page -----

  /** The commands of the page loop */
  predicate PageCommand(c: Command) {
    c == WaitForBody || c.ScrollTo? || c == ReadHeight || c == ReadPage || c == Click
  }

  /**
   * `s2` is `s1` with page-loop commands and pauses other than the wait between categories
   * appended, and the same driver
   */
  predicate PageGrowth(s1: Session, s2: Session) {
    && s2.driver == s1.driver
    && RequestsProperties.IsPrefix(s1.commands, s2.commands) && RequestsProperties.IsPrefix(s1.pauses, s2.pauses)
    && (forall n | |s1.commands| <= n < |s2.commands| :: PageCommand(s2.commands[n]))
    && (forall n | |s1.pauses| <= n < |s2.pauses| :: s2.pauses[n] != BrowserCategoryWait)
  }

  lemma PageGrowthTrans(s1: Session, s2: Session, s3: Session)
    requires PageGrowth(s1, s2) && PageGrowth(s2, s3)
    ensures PageGrowth(s1, s3)
  {
    assert s3.commands[..|s1.commands|] == s3.commands[..|s2.commands|][..|s1.commands|];
    PrefixTrans(s1.pauses, s2.pauses, s3.pauses);
    forall n | |s1.commands| <= n < |s2.commands|
      ensures PageCommand(s3.commands[n])
    {
      assert s3.commands[n] == s2.commands[n];
    }
    forall n | |s1.pauses| <= n < |s2.pauses|
      ensures s3.pauses[n] != BrowserCategoryWait
    {
      assert s3.pauses[n] == s2.pauses[n];
    }
  }

  /** The scroll sends only height reads and scrolls. */
  lemma ScrollGrowth(browser: nat -> Reply, increment: nat -> int, bound: int, s: Session)
    requires IncrementsValid(increment) && HeightsBounded(browser, bound)
    ensures var c := Scroll(browser, increment, bound, s).session.commands;
      && PageGrowth(s, Scroll(browser, increment, bound, s).session)
      && forall n | |s.commands| <= n < |c| :: c[n].ScrollTo? || c[n] == ReadHeight
  {
    ScrollSpec(browser, increment, bound, s);
    var r := Scroll(browser, increment, bound, s).session;
    var m := |s.commands|;
    forall n | m <= n < |r.commands|
      ensures r.commands[n].ScrollTo? || r.commands[n] == ReadHeight
    {
      if n > m && (n - m - 1) % 2 == 1 {
        assert r.commands[n] == ReadHeight;
      }
    }
    forall n | |s.pauses| <= n < |r.pauses|
      ensures r.pauses[n] == ScrollWait
    {
      assert r.pauses[n] == Repeat(ScrollWait, (|r.commands| - m - 1) / 2)[n - |s.pauses|];
    }
  }

  /**
   * Below the last page the loop goes on exactly when a next button exists, is enabled and
   * the click on it succeeds; on the last page it goes on (and then ends) with nothing sent.
   */
  lemma FollowNextSpec(browser: nat -> Reply, maxPages: int, page: int, ps: seq<ProductRecord>, root: Node, s: Session)
    ensures var st := FollowNext(browser, maxPages, page, ps, root, s);
      var b := Find(root, IsNextButton);
      && st.products == ps && PageGrowth(s, st.session)
      && (page >= maxPages ==> st.more && st.session == s)
      && (page < maxPages ==> (st.more <==> b.Some? && Enabled(b.value) && browser(|s.commands|).ok))
      && (st.session.commands == s.commands
          || (page < maxPages && b.Some? && Enabled(b.value) && st.session.commands == s.commands + [Click]))
  {
    var st := FollowNext(browser, maxPages, page, ps, root, s);
    if st.session.commands != s.commands {
      assert st.session.commands == s.commands + [Click];
      assert st.session.commands[|s.commands|] == Click;
    }
  }

  /** The records of the page the browser shows at its `n`-th reply, as a function of `n` */
  function PageAt(browser: nat -> Reply, keep: Node -> seq<ProductRecord>): nat -> seq<ProductRecord> {
    (n: nat) => keep(browser(n).page)
  }

  /** `f(n)` for every `ReadPage` command among `cmds`, which is the `n`-th of the session, in order; `cmds[0]` is the `base`-th command */
  function Gather<T>(f: nat -> seq<T>, cmds: seq<Command>, base: nat): seq<T>
    decreases |cmds|
  {
    if cmds == [] then []
    else
      var n := |cmds| - 1;
      Gather(f, cmds[..n], base) + (if cmds[n] == ReadPage then f(base + n) else [])
  }

  /** The records of the pages read by the `ReadPage` commands among `cmds` */
  function Harvested(browser: nat -> Reply, keep: Node -> seq<ProductRecord>, cmds: seq<Command>, base: nat): seq<ProductRecord> {
    Gather(PageAt(browser, keep), cmds, base)
  }

  lemma {:induction false} GatherAppend<T>(f: nat -> seq<T>, a: seq<Command>, b: seq<Command>, base: nat)
    ensures Gather(f, a + b, base) == Gather(f, a, base) + Gather(f, b, base + |a|)
    decreases |b|
  {
    if b == [] {
      assert a + b == a;
    } else {
      var n := |b| - 1;
      assert (a + b)[..|a + b| - 1] == a + b[..n];
      assert (a + b)[|a + b| - 1] == b[n];
      GatherAppend(f, a, b[..n], base);
    }
  }

  lemma {:induction false} GatherNone<T>(f: nat -> seq<T>, cmds: seq<Command>, base: nat)
    requires ReadPage !in cmds
    ensures Gather(f, cmds, base) == []
    decreases |cmds|
  {
    if cmds != [] {
      assert ReadPage !in cmds[..|cmds| - 1];
      GatherNone(f, cmds[..|cmds| - 1], base);
    }
  }

  /**
   * Once the page is read, the pass adds the page's records and sends at most a click, and
   * only below the last page; it goes on only past a page that gave records.
   */
  lemma PageReadShape(browser: nat -> Reply, keep: Node -> seq<ProductRecord>, maxPages: int, page: int,
    products: seq<ProductRecord>, root: Node, s: Session) returns (z: seq<Command>)
    ensures var st := PageRead(browser, keep, maxPages, page, products, root, s);
      && PageGrowth(s, st.session)
      && st.session.commands == s.commands + z
      && (z == [] || z == [Click]) && (z != [] ==> page < maxPages)
      && st.products == products + keep(root)
      && (st.more ==> keep(root) != [])
  {
    z := [];
    var taken := keep(root);
    if taken != [] {
      FollowNextSpec(browser, maxPages, page, products + taken, root, s);
      z := FollowNext(browser, maxPages, page, products + taken, root, s).session.commands[|s.commands|..];
    }
  }

  /** The wait for the page and the scroll that follows it */
  lemma WaitAndScroll(browser: nat -> Reply, increment: nat -> int, bound: int, s: Session) returns (x: seq<Command>)
    requires IncrementsValid(increment) && HeightsBounded(browser, bound)
    ensures var sc := Scroll(browser, increment, bound, Issue(s, WaitForBody)).session;
      && PageGrowth(s, sc)
      && sc.commands == s.commands + [WaitForBody] + x
      && forall i | 0 <= i < |x| :: x[i].ScrollTo? || x[i] == ReadHeight
  {
    var m := |s.commands|;
    var s1 := Issue(s, WaitForBody);
    var sc := Scroll(browser, increment, bound, s1).session;
    ScrollGrowth(browser, increment, bound, s1);
    PageGrowthTrans(s, s1, sc);
    x := sc.commands[m + 1..];
    assert sc.commands == sc.commands[..m + 1] + x;
  }

  /** One pass of the page loop only appends page commands and pauses other than the category pause. */
  lemma ResultsPageGrowth(browser: nat -> Reply, increment: nat -> int, bound: int, keep: Node -> seq<ProductRecord>, maxPages: int, page: int,
    products: seq<ProductRecord>, s: Session)
    requires IncrementsValid(increment) && HeightsBounded(browser, bound)
    ensures PageGrowth(s, ResultsPage(browser, increment, bound, keep, maxPages, page, products, s).session)
  {
    var x := WaitAndScroll(browser, increment, bound, s);
    var sc := Scroll(browser, increment, bound, Issue(s, WaitForBody));
    if browser(|s.commands|).ok && sc.ok {
      var root := browser(|sc.session.commands|).page;
      var s2 := Issue(sc.session, ReadPage);
      PageGrowthTrans(s, sc.session, s2);
      var z := PageReadShape(browser, keep, maxPages, page, products, root, s2);
      PageGrowthTrans(s, s2, PageRead(browser, keep, maxPages, page, products, root, s2).session);
    }
  }

  /**
   * One pass of the page loop waits for the page, then sends only scrolls and height reads,
   * at most one page read, and a click only after a page read and below the last page; it
   * adds the records of the page it read, and goes on only past a page that gave records.
   */
  lemma ResultsPageShape(browser: nat -> Reply, increment: nat -> int, bound: int, keep: Node -> seq<ProductRecord>, maxPages: int, page: int,
    products: seq<ProductRecord>, s: Session) returns (x: seq<Command>, y: seq<Command>, z: seq<Command>)
    requires IncrementsValid(increment) && HeightsBounded(browser, bound)
    ensures var st := ResultsPage(browser, increment, bound, keep, maxPages, page, products, s);
      && st.session.commands == s.commands + [WaitForBody] + x + y + z
      && (forall i | 0 <= i < |x| :: x[i].ScrollTo? || x[i] == ReadHeight)
      && (y == [] || y == [ReadPage]) && (z == [] || z == [Click])
      && (z != [] ==> y != [] && page < maxPages)
      && st.products == products + (if y == [] then [] else keep(browser(|s.commands| + 1 + |x|).page))
      && (st.more ==> y != [] && keep(browser(|s.commands| + 1 + |x|).page) != [])
  {
    var m := |s.commands|;
    x, y, z := [], [], [];
    if browser(m).ok {
      x := WaitAndScroll(browser, increment, bound, s);
      var sc := Scroll(browser, increment, bound, Issue(s, WaitForBody));
      if sc.ok {
        var root := browser(|sc.session.commands|).page;
        y := [ReadPage];
        z := PageReadShape(browser, keep, maxPages, page, products, root, Issue(sc.session, ReadPage));
      }
    }
  }

  /** The commands a pass appended to `a` */
  lemma PassAppended(a: seq<Command>, x: seq<Command>, y: seq<Command>, z: seq<Command>, c: seq<Command>)
    requires c == a + [WaitForBody] + x + y + z
    ensures c[|a|..] == [WaitForBody] + x + y + z
  {
    assert c == a + ([WaitForBody] + x + y + z);
  }

  /** What a pass of the given shape gathers: the records of its one page read, if it has one */
  lemma PassGather<T>(f: nat -> seq<T>, x: seq<Command>, y: seq<Command>, z: seq<Command>, m: nat)
    requires forall i | 0 <= i < |x| :: x[i].ScrollTo? || x[i] == ReadHeight
    requires (y == [] || y == [ReadPage]) && (z == [] || z == [Click])
    ensures Gather(f, [WaitForBody] + x + y + z, m) == (if y == [] then [] else f(m + 1 + |x|))
  {
    var pre := [WaitForBody] + x;
    assert ReadPage !in pre by {
      forall i | 0 <= i < |pre|
        ensures pre[i] != ReadPage
      {
        if i > 0 {
          assert pre[i] == x[i - 1];
        }
      }
    }
    var gy := if y == [] then [] else f(m + 1 + |x|);
    assert Gather(f, pre, m) == [] by {
      GatherNone(f, pre, m);
    }
    assert Gather(f, z, m + |pre| + |y|) == [] by {
      GatherNone(f, z, m + |pre| + |y|);
    }
    assert Gather(f, y, m + |pre|) == gy by {
      if y != [] {
        assert y[..0] == [];
      }
    }
    assert Gather(f, pre + y, m) == gy by {
      GatherAppend(f, pre, y, m);
    }
    assert pre + y + z == [WaitForBody] + x + y + z;
    GatherAppend(f, pre + y, z, m);
  }

  /** One pass of the page loop adds exactly the records of the pages it read, and goes on only past a page that gave records. */
  lemma ResultsPageSpec(browser: nat -> Reply, increment: nat -> int, bound: int, keep: Node -> seq<ProductRecord>, maxPages: int, page: int,
    products: seq<ProductRecord>, s: Session)
    requires IncrementsValid(increment) && HeightsBounded(browser, bound)
    ensures var st := ResultsPage(browser, increment, bound, keep, maxPages, page, products, s);
      var m := |s.commands|;
      && |st.session.commands| >= m
      && st.products == products + Harvested(browser, keep, st.session.commands[m..], m)
      && (st.more ==> |st.products| > |products|)
  {
    var m := |s.commands|;
    var x, y, z := ResultsPageShape(browser, increment, bound, keep, maxPages, page, products, s);
    var st := ResultsPage(browser, increment, bound, keep, maxPages, page, products, s);
    PassAppended(s.commands, x, y, z, st.session.commands);
    var f := PageAt(browser, keep);
    PassGather(f, x, y, z, m);
    assert Harvested(browser, keep, st.session.commands[m..], m) == Gather(f, [WaitForBody] + x + y + z, m);
  }

  /** The commands of a pass, as its shape gives them, wait for the page once and click at most once. */
  lemma PassCounts(x: seq<Command>, y: seq<Command>, z: seq<Command>)
    requires forall i | 0 <= i < |x| :: x[i].ScrollTo? || x[i] == ReadHeight
    requires (y == [] || y == [ReadPage]) && (z == [] || z == [Click])
    ensures Count([WaitForBody] + x + y + z, WaitForBody) == 1
    ensures Count([WaitForBody] + x + y + z, Click) == |z|
  {
    PassWaits(x, y, z);
    PassClicks(x, y, z);
  }

  /** A pass waits for the page exactly once. */
  lemma PassWaits(x: seq<Command>, y: seq<Command>, z: seq<Command>)
    requires forall i | 0 <= i < |x| :: x[i].ScrollTo? || x[i] == ReadHeight
    requires (y == [] || y == [ReadPage]) && (z == [] || z == [Click])
    ensures Count([WaitForBody] + x + y + z, WaitForBody) == 1
  {
    assert WaitForBody !in x by {
      forall i | 0 <= i < |x|
        ensures x[i] != WaitForBody
      {
      }
    }
    PassCount(x, y, z, WaitForBody, 1, 0, 0);
  }

  /** A pass clicks exactly as often as its tail says. */
  lemma PassClicks(x: seq<Command>, y: seq<Command>, z: seq<Command>)
    requires forall i | 0 <= i < |x| :: x[i].ScrollTo? || x[i] == ReadHeight
    requires (y == [] || y == [ReadPage]) && (z == [] || z == [Click])
    ensures Count([WaitForBody] + x + y + z, Click) == |z|
  {
    assert Click !in x by {
      forall i | 0 <= i < |x|
        ensures x[i] != Click
      {
      }
    }
    PassCount(x, y, z, Click, 0, 0, |z|);
  }

  /** Counting one command over the four parts of a pass */
  lemma PassCount(x: seq<Command>, y: seq<Command>, z: seq<Command>, w: Command, c0: nat, cy: nat, cz: nat)
    requires w !in x && Count([WaitForBody], w) == c0 && Count(y, w) == cy && Count(z, w) == cz
    ensures Count([WaitForBody] + x + y + z, w) == c0 + cy + cz
  {
    CountAppend([WaitForBody], x, w);
    CountAppend([WaitForBody] + x, y, w);
    CountAppend([WaitForBody] + x + y, z, w);
  }

  /** One pass of the page loop waits for the page once and clicks at most once, and never on the last page. */
  lemma ResultsPageCounts(browser: nat -> Reply, increment: nat -> int, bound: int, keep: Node -> seq<ProductRecord>, maxPages: int, page: int,
    products: seq<ProductRecord>, s: Session)
    requires IncrementsValid(increment) && HeightsBounded(browser, bound)
    ensures var st := ResultsPage(browser, increment, bound, keep, maxPages, page, products, s);
      var m := |s.commands|;
      && |st.session.commands| >= m
      && Count(st.session.commands[m..], WaitForBody) == 1
      && Count(st.session.commands[m..], Click) <= (if page < maxPages then 1 else 0)
  {
    var x, y, z := ResultsPageShape(browser, increment, bound, keep, maxPages, page, products, s);
    var c := ResultsPage(browser, increment, bound, keep, maxPages, page, products, s).session.commands;
    var w := [WaitForBody] + x + y + z;
    assert c[|s.commands|..] == w;
    assert |z| <= (if page < maxPages then 1 else 0);
    PassCounts(x, y, z);
  }

  /** A sequence that extends `a` is `a` followed by what was appended. */
  lemma PrefixSplit<T>(a: seq<T>, b: seq<T>, m: nat)
    requires RequestsProperties.IsPrefix(a, b) && m <= |a|
    ensures b[m..] == a[m..] + b[|a|..]
  {
    assert b[m..] == b[m..|a|] + b[|a|..];
  }

  // ----- the page loop -----

  /** The page loop only appends page commands and pauses other than the category pause, and keeps the driver. */
  lemma {:induction false} PagesFromGrowth(browser: nat -> Reply, increment: nat -> int, bound: int, keep: Node -> seq<ProductRecord>, maxPages: int, page: int,
    products: seq<ProductRecord>, s: Session)
    requires IncrementsValid(increment) && HeightsBounded(browser, bound)
    ensures PageGrowth(s, PagesFrom(browser, increment, bound, keep, maxPages, page, products, s).session)
    decreases maxPages - page
  {
    if page <= maxPages {
      var st := ResultsPage(browser, increment, bound, keep, maxPages, page, products, s);
      ResultsPageGrowth(browser, increment, bound, keep, maxPages, page, products, s);
      if st.more {
        PagesFromGrowth(browser, increment, bound, keep, maxPages, page + 1, st.products, st.session);
        var l := PagesFrom(browser, increment, bound, keep, maxPages, page + 1, st.products, st.session);
        assert PagesFrom(browser, increment, bound, keep, maxPages, page, products, s) == l;
        PageGrowthTrans(s, st.session, l.session);
      } else {
        assert PagesFrom(browser, increment, bound, keep, maxPages, page, products, s) == Listing(st.products, st.session);
      }
    } else {
      assert s.commands[..|s.commands|] == s.commands && s.pauses[..|s.pauses|] == s.pauses;
    }
  }

  /** Records gathered over a prefix and then over the rest are those gathered over the whole. */
  lemma GatherStep<T>(f: nat -> seq<T>, c1: seq<Command>, c2: seq<Command>, m: nat, p0: seq<T>, p1: seq<T>, p2: seq<T>)
    requires RequestsProperties.IsPrefix(c1, c2) && m <= |c1|
    requires p1 == p0 + Gather(f, c1[m..], m) && p2 == p1 + Gather(f, c2[|c1|..], |c1|)
    ensures p2 == p0 + Gather(f, c2[m..], m)
  {
    var a, b := c1[m..], c2[|c1|..];
    var g1, g2 := Gather(f, a, m), Gather(f, b, |c1|);
    assert Gather(f, c2[m..], m) == g1 + g2 by {
      PrefixSplit(c1, c2, m);
      GatherAppend(f, a, b, m);
    }
  }

  /** The page loop adds exactly the records of the pages it read, in order, whatever ended it. */
  lemma {:induction false} PagesFromSpec(browser: nat -> Reply, increment: nat -> int, bound: int, keep: Node -> seq<ProductRecord>, maxPages: int, page: int,
    products: seq<ProductRecord>, s: Session)
    requires IncrementsValid(increment) && HeightsBounded(browser, bound)
    ensures var l := PagesFrom(browser, increment, bound, keep, maxPages, page, products, s);
      var m := |s.commands|;
      && PageGrowth(s, l.session)
      && l.products == products + Harvested(browser, keep, l.session.commands[m..], m)
    decreases maxPages - page
  {
    PagesFromGrowth(browser, increment, bound, keep, maxPages, page, products, s);
    var m := |s.commands|;
    if page <= maxPages {
      var st := ResultsPage(browser, increment, bound, keep, maxPages, page, products, s);
      ResultsPageSpec(browser, increment, bound, keep, maxPages, page, products, s);
      if st.more {
        PagesFromSpec(browser, increment, bound, keep, maxPages, page + 1, st.products, st.session);
        var l := PagesFrom(browser, increment, bound, keep, maxPages, page + 1, st.products, st.session);
        assert PagesFrom(browser, increment, bound, keep, maxPages, page, products, s) == l;
        GatherStep(PageAt(browser, keep), st.session.commands, l.session.commands, m, products, st.products, l.products);
      } else {
        assert PagesFrom(browser, increment, bound, keep, maxPages, page, products, s) == Listing(st.products, st.session);
      }
    } else {
      assert s.commands[m..] == [];
    }
  }

  /** From page `page` on, the page loop reads at most `max_pages - page + 1` pages and clicks at most `max_pages - page` times. */
  lemma {:induction false} PagesFromCounts(browser: nat -> Reply, increment: nat -> int, bound: int, keep: Node -> seq<ProductRecord>, maxPages: int, page: int,
    products: seq<ProductRecord>, s: Session)
    requires IncrementsValid(increment) && HeightsBounded(browser, bound)
    ensures var l := PagesFrom(browser, increment, bound, keep, maxPages, page, products, s);
      var m := |s.commands|;
      && |l.session.commands| >= m
      && Count(l.session.commands[m..], WaitForBody) <= (if page <= maxPages then maxPages - page + 1 else 0)
      && Count(l.session.commands[m..], Click) <= (if page < maxPages then maxPages - page else 0)
    decreases maxPages - page
  {
    var m := |s.commands|;
    if page <= maxPages {
      var st := ResultsPage(browser, increment, bound, keep, maxPages, page, products, s);
      ResultsPageCounts(browser, increment, bound, keep, maxPages, page, products, s);
      ResultsPageSpec(browser, increment, bound, keep, maxPages, page, products, s);
      if st.more {
        PagesFromCounts(browser, increment, bound, keep, maxPages, page + 1, st.products, st.session);
        PagesFromSpec(browser, increment, bound, keep, maxPages, page + 1, st.products, st.session);
        var l := PagesFrom(browser, increment, bound, keep, maxPages, page + 1, st.products, st.session);
        var m1 := |st.session.commands|;
        PrefixSplit(st.session.commands, l.session.commands, m);
        CountAppend(st.session.commands[m..], l.session.commands[m1..], WaitForBody);
        CountAppend(st.session.commands[m..], l.session.commands[m1..], Click);
      }
    } else {
      assert s.commands[m..] == [];
    }
  }

  // ----- one search -----

  /** When every container yields a well-formed record of the term or nothing, so do the records taken. */
  lemma {:induction false} RecordsOf(cs: seq<Node>, f: Node -> Option<ProductRecord>, term: string)
    requires forall c :: f(c).Some? ==> WellFormedRecord(f(c).value) && f(c).value.category == term
    ensures RequestsProperties.AllOf(RequestsScraper.Records(cs, f), term)
  {
    if cs != [] {
      RecordsOf(cs[1..], f, term);
      var rest := RequestsScraper.Records(cs[1..], f);
      if f(cs[0]).Some? {
        RequestsProperties.AllOfAppend([f(cs[0]).value], rest, term);
      }
    }
  }

  /** The records of a page all carry the search term and are well formed. */
  lemma PageRecordsOf(extract: (Node, string) -> Option<ProductRecord>, root: Node, term: string)
    requires ExtractsRecords(extract)
    ensures RequestsProperties.AllOf(PageRecords(extract, root, term), term)
  {
    var f := Extractor(extract, term);
    forall c | f(c).Some?
      ensures WellFormedRecord(f(c).value) && f(c).value.category == term
    {
      BrowserRecordSpec(c, term);
    }
    RecordsOf(FirstNonEmpty(root, BrowserContainerSelectors), f, term);
  }

  /** When every page's records carry the term, so do the records of the pages read. */
  lemma {:induction false} HarvestedOf(browser: nat -> Reply, keep: Node -> seq<ProductRecord>, cmds: seq<Command>, base: nat, term: string)
    requires forall page :: RequestsProperties.AllOf(keep(page), term)
    ensures RequestsProperties.AllOf(Harvested(browser, keep, cmds, base), term)
    decreases |cmds|
  {
    if cmds != [] {
      var n := |cmds| - 1;
      HarvestedOf(browser, keep, cmds[..n], base, term);
      var last := if cmds[n] == ReadPage then keep(browser(base + n).page) else [];
      RequestsProperties.AllOfAppend(Harvested(browser, keep, cmds[..n], base), last, term);
    }
  }

  /** `_setup_driver()` starts Chrome, then hides the automation flag only if Chrome started; a started Chrome is kept. */
  lemma SetupSpec(browser: nat -> Reply, s: Session)
    ensures var st := DriverSetup(browser, s);
      var m := |s.commands|;
      && st.session.pauses == s.pauses
      && st.session.commands == s.commands + (if browser(m).ok then [Launch, HideWebdriver] else [Launch])
      && (st.session.driver <==> s.driver || browser(m).ok)
      && (st.ok <==> browser(m).ok && browser(m + 1).ok)
  {
  }

  // ----- one search -----

  /** A command the search sends before its page loop: the driver setup and the two `get`s */
  predicate SetupCommand(c: Command) {
    c == Launch || c == HideWebdriver || c.Get?
  }

  /**
   * Opening the search from `s` sends the commands `pre`: one `Launch` exactly when there was
   * no driver, then the pages it opens. An opened search has just sent the homepage and then
   * the search URL.
   */
  lemma OpenSearchShape(browser: nat -> Reply, term: string, s: Session) returns (pre: seq<Command>)
    ensures var o := OpenSearch(browser, term, s);
      && o.session.commands == s.commands + pre && (forall i | 0 <= i < |pre| :: SetupCommand(pre[i]))
      && Count(pre, Launch) == (if s.driver then 0 else 1)
      && (o.ok ==> |pre| >= 2 && pre[|pre| - 2] == Get(Base(BaseOrigin)) && pre[|pre| - 1] == Get(BrowserSearchUrl(term)))
  {
    var setup := DriverCommands(browser, s);
    var tail := OpenCommands(browser, term, s);
    pre := setup + tail;
    Joined(s.commands, setup, tail, OpenSearch(browser, term, s).session.commands);
    CountAppend(setup, tail, Launch);
    if OpenSearch(browser, term, s).ok {
      assert pre[|pre| - 2] == tail[0] && pre[|pre| - 1] == tail[1];
    }
  }

  /** The driver setup of a search sends one `Launch`, and only when there is no driver. */
  lemma DriverCommands(browser: nat -> Reply, s: Session) returns (setup: seq<Command>)
    ensures (if s.driver then s else DriverSetup(browser, s).session).commands == s.commands + setup
    ensures (forall i | 0 <= i < |setup| :: SetupCommand(setup[i])) && Count(setup, Launch) == (if s.driver then 0 else 1)
  {
    SetupSpec(browser, s);
    var m := |s.commands|;
    setup := if s.driver then [] else DriverSetup(browser, s).session.commands[m..];
    if !s.driver {
      assert setup == [Launch] || setup == [Launch, HideWebdriver];
      assert setup[1..] == [] || setup[1..] == [HideWebdriver];
    }
  }

  /** After the driver setup, the search opens the homepage and then the search URL, stopping at the first that fails. */
  lemma OpenCommands(browser: nat -> Reply, term: string, s: Session) returns (tail: seq<Command>)
    ensures var s0 := if s.driver then s else DriverSetup(browser, s).session;
      var o := OpenSearch(browser, term, s);
      && o.session.commands == s0.commands + tail
      && (forall i | 0 <= i < |tail| :: tail[i].Get?)
      && (o.ok ==> tail == [Get(Base(BaseOrigin)), Get(BrowserSearchUrl(term))])
  {
    var s0 := if s.driver then s else DriverSetup(browser, s).session;
    if !s.driver && !DriverSetup(browser, s).ok {
      tail := [];
    } else if !browser(|s0.commands|).ok {
      tail := [Get(Base(BaseOrigin))];
    } else {
      tail := [Get(Base(BaseOrigin)), Get(BrowserSearchUrl(term))];
    }
  }

  /** Commands made of setup commands, appended in two steps */
  lemma Joined(a: seq<Command>, b: seq<Command>, c: seq<Command>, d: seq<Command>)
    requires d == a + b + c
    requires forall i | 0 <= i < |b| :: SetupCommand(b[i])
    requires forall i | 0 <= i < |c| :: SetupCommand(c[i])
    ensures d == a + (b + c) && forall i | 0 <= i < |b + c| :: SetupCommand((b + c)[i])
  {
  }

  /** Opening the search appends pauses other than the category pause, keeps a driver, and has one after launching it; an opened search has one. */
  lemma OpenSearchSession(browser: nat -> Reply, term: string, s: Session) returns (early: seq<Pause>)
    ensures var o := OpenSearch(browser, term, s);
      && o.session.pauses == s.pauses + early && BrowserCategoryWait !in early
      && (s.driver ==> o.session.driver)
      && (!s.driver ==> (o.session.driver <==> browser(|s.commands|).ok))
      && (o.ok ==> o.session.driver)
  {
    SetupSpec(browser, s);
    var o := OpenSearch(browser, term, s);
    early := o.session.pauses[|s.pauses|..];
    assert o.session.pauses == s.pauses + early;
  }

  /**
   * What a search may do to the session: append commands other than `quit` and pauses other
   * than the category pause, and keep a driver that is there
   */
  predicate SearchKept(s1: Session, s2: Session) {
    && RequestsProperties.IsPrefix(s1.commands, s2.commands) && RequestsProperties.IsPrefix(s1.pauses, s2.pauses)
    && (s1.driver ==> s2.driver)
    && Quit !in s2.commands[|s1.commands|..]
    && BrowserCategoryWait !in s2.pauses[|s1.pauses|..]
  }

  /** What the page loop appends holds neither `launch` nor `quit`, nor the category pause. */
  lemma GrowthAppends(o: Session, l: Session)
    requires PageGrowth(o, l)
    ensures l.commands == o.commands + l.commands[|o.commands|..] && l.pauses == o.pauses + l.pauses[|o.pauses|..]
    ensures Launch !in l.commands[|o.commands|..] && Quit !in l.commands[|o.commands|..]
    ensures BrowserCategoryWait !in l.pauses[|o.pauses|..]
  {
    var rest := l.commands[|o.commands|..];
    forall i | 0 <= i < |rest|
      ensures rest[i] != Launch && rest[i] != Quit
    {
      assert PageCommand(l.commands[|o.commands| + i]);
    }
    var later := l.pauses[|o.pauses|..];
    forall i | 0 <= i < |later|
      ensures later[i] != BrowserCategoryWait
    {
      assert later[i] == l.pauses[|o.pauses| + i];
    }
  }

  /** Setup commands are not `quit`, nor commands of the page loop. */
  lemma SetupOnly(pre: seq<Command>)
    requires forall i | 0 <= i < |pre| :: SetupCommand(pre[i])
    ensures Quit !in pre && ReadPage !in pre && WaitForBody !in pre && Click !in pre
  {
  }

  /** A session kept by opening the search, then grown by the page loop, is kept by the search. */
  lemma OpenThenPages(s: Session, o: Session, l: Session, pre: seq<Command>, early: seq<Pause>, rest: seq<Command>, later: seq<Pause>)
    requires o.commands == s.commands + pre && Quit !in pre
    requires o.pauses == s.pauses + early && BrowserCategoryWait !in early
    requires s.driver ==> o.driver
    requires l.commands == o.commands + rest && Launch !in rest && Quit !in rest
    requires l.pauses == o.pauses + later && BrowserCategoryWait !in later && l.driver == o.driver
    ensures SearchKept(s, l)
    ensures Count(l.commands[|s.commands|..], Launch) == Count(pre, Launch)
  {
    assert l.commands == s.commands + (pre + rest);
    assert l.commands[|s.commands|..] == pre + rest;
    assert l.pauses == s.pauses + (early + later);
    assert l.pauses[|s.pauses|..] == early + later;
    CountAppend(pre, rest, Launch);
  }

  /**
   * A search appends commands other than `quit` and pauses other than the category pause,
   * keeps a driver that is there, launches the browser exactly when there was no driver, and
   * then has one exactly when the launch succeeded.
   */
  lemma SearchPageSession(browser: nat -> Reply, increment: nat -> int, bound: int, extract: (Node, string) -> Option<ProductRecord>,
    term: string, maxPages: int, s: Session)
    requires IncrementsValid(increment) && HeightsBounded(browser, bound)
    ensures var l := SearchPage(browser, increment, bound, extract, term, maxPages, s);
      var m := |s.commands|;
      && SearchKept(s, l.session)
      && Count(l.session.commands[m..], Launch) == (if s.driver then 0 else 1)
      && (!s.driver ==> (l.session.driver <==> browser(m).ok))
  {
    var o := OpenSearch(browser, term, s);
    var pre := OpenSearchShape(browser, term, s);
    var early := OpenSearchSession(browser, term, s);
    var l := SearchPage(browser, increment, bound, extract, term, maxPages, s);
    SetupOnly(pre);
    if o.ok {
      PagesFromGrowth(browser, increment, bound, Keeps(extract, term), maxPages, 1, [], o.session);
      GrowthAppends(o.session, l.session);
      OpenThenPages(s, o.session, l.session, pre, early, l.session.commands[|o.session.commands|..], l.session.pauses[|o.session.pauses|..]);
    } else {
      assert l.session == o.session;
      OpenThenPages(s, o.session, l.session, pre, early, [], []);
    }
  }

  /**
   * The products of a search are the records of the pages it read, in order; each is a
   * well-formed record of the search term.
   */
  lemma SearchPageProducts(browser: nat -> Reply, increment: nat -> int, bound: int, extract: (Node, string) -> Option<ProductRecord>,
    term: string, maxPages: int, s: Session)
    requires IncrementsValid(increment) && HeightsBounded(browser, bound) && ExtractsRecords(extract)
    ensures var l := SearchPage(browser, increment, bound, extract, term, maxPages, s);
      var m := |s.commands|;
      && |l.session.commands| >= m
      && l.products == Harvested(browser, Keeps(extract, term), l.session.commands[m..], m)
      && RequestsProperties.AllOf(l.products, term)
  {
    var m := |s.commands|;
    var keep := Keeps(extract, term);
    var f := PageAt(browser, keep);
    var o := OpenSearch(browser, term, s);
    var pre := OpenSearchShape(browser, term, s);
    SetupOnly(pre);
    var l := SearchPage(browser, increment, bound, extract, term, maxPages, s);
    assert o.session.commands[m..] == pre;
    GatherNone(f, pre, m);
    if o.ok {
      PagesFromSpec(browser, increment, bound, keep, maxPages, 1, [], o.session);
      GatherStep(f, o.session.commands, l.session.commands, m, [], [], l.products);
    } else {
      assert l == Listing([], o.session);
    }
    forall page
      ensures RequestsProperties.AllOf(keep(page), term)
    {
      PageRecordsOf(extract, page, term);
    }
    HarvestedOf(browser, keep, l.session.commands[m..], m, term);
  }

  /** A search reads at most `max_pages` pages and clicks at most `max_pages - 1` times. */
  lemma SearchPageCounts(browser: nat -> Reply, increment: nat -> int, bound: int, extract: (Node, string) -> Option<ProductRecord>,
    term: string, maxPages: int, s: Session)
    requires IncrementsValid(increment) && HeightsBounded(browser, bound)
    ensures var l := SearchPage(browser, increment, bound, extract, term, maxPages, s);
      var m := |s.commands|;
      && |l.session.commands| >= m
      && Count(l.session.commands[m..], WaitForBody) <= (if maxPages >= 1 then maxPages else 0)
      && Count(l.session.commands[m..], Click) <= (if maxPages > 1 then maxPages - 1 else 0)
  {
    var m := |s.commands|;
    var o := OpenSearch(browser, term, s);
    var pre := OpenSearchShape(browser, term, s);
    SetupOnly(pre);
    var l := SearchPage(browser, increment, bound, extract, term, maxPages, s);
    assert o.session.commands[m..] == pre;
    if o.ok {
      var keep := Keeps(extract, term);
      PagesFromCounts(browser, increment, bound, keep, maxPages, 1, [], o.session);
      PagesFromGrowth(browser, increment, bound, keep, maxPages, 1, [], o.session);
      var rest := l.session.commands[|o.session.commands|..];
      PrefixSplit(o.session.commands, l.session.commands, m);
      CountAppend(pre, rest, WaitForBody);
      CountAppend(pre, rest, Click);
    } else {
      assert l == Listing([], o.session);
    }
  }

  /** A search that found products has a driver and opened the homepage and then the search URL. */
  lemma SearchPageOpens(browser: nat -> Reply, increment: nat -> int, bound: int, extract: (Node, string) -> Option<ProductRecord>,
    term: string, maxPages: int, s: Session)
    requires IncrementsValid(increment) && HeightsBounded(browser, bound)
    ensures var l := SearchPage(browser, increment, bound, extract, term, maxPages, s);
      var c := l.session.commands;
      l.products != [] ==>
        && l.session.driver
        && exists i | |s.commands| <= i < |c| - 1 :: c[i] == Get(Base(BaseOrigin)) && c[i + 1] == Get(BrowserSearchUrl(term))
  {
    var o := OpenSearch(browser, term, s);
    var pre := OpenSearchShape(browser, term, s);
    var early := OpenSearchSession(browser, term, s);
    var l := SearchPage(browser, increment, bound, extract, term, maxPages, s);
    if o.ok {
      PagesFromGrowth(browser, increment, bound, Keeps(extract, term), maxPages, 1, [], o.session);
      var i := |s.commands| + |pre| - 2;
      assert l.session.commands[i] == o.session.commands[i] == pre[|pre| - 2];
      assert l.session.commands[i + 1] == o.session.commands[i + 1] == pre[|pre| - 1];
    }
  }

  // ----- the categories -----

  /**
   * What `scrape_search_page(c, 3)` guarantees from session `s`: well-formed records of `c`;
   * a kept session; one launch exactly when there was no driver; at most three pages read
   */
  predicate CategorySearch(l: Listing, c: string, s: Session) {
    && RequestsProperties.AllOf(l.products, c)
    && SearchKept(s, l.session)
    && Count(l.session.commands[|s.commands|..], Launch) == (if s.driver then 0 else 1)
    && Count(l.session.commands[|s.commands|..], WaitForBody) <= CategoryPages
  }

  /** Every search of the Selenium scraper guarantees what a category search does. */
  lemma SearchIsCategorySearch(browser: nat -> Reply, increment: nat -> int, bound: int, extract: (Node, string) -> Option<ProductRecord>,
    c: string, s: Session)
    requires IncrementsValid(increment) && HeightsBounded(browser, bound) && ExtractsRecords(extract)
    ensures CategorySearch(SearchPage(browser, increment, bound, extract, c, CategoryPages, s), c, s)
  {
    SearchPageSession(browser, increment, bound, extract, c, CategoryPages, s);
    SearchPageProducts(browser, increment, bound, extract, c, CategoryPages, s);
    SearchPageCounts(browser, increment, bound, extract, c, CategoryPages, s);
  }

  /** `s2` continues `s1`: commands and pauses appended, a driver kept, no `quit` sent */
  predicate Continues(s1: Session, s2: Session) {
    && RequestsProperties.IsPrefix(s1.commands, s2.commands) && RequestsProperties.IsPrefix(s1.pauses, s2.pauses)
    && (s1.driver ==> s2.driver)
    && Quit !in s2.commands[|s1.commands|..]
  }

  /** Counting what was appended over two steps */
  lemma CountSplit<T>(a: seq<T>, b: seq<T>, c: seq<T>, x: T)
    requires RequestsProperties.IsPrefix(a, b) && RequestsProperties.IsPrefix(b, c)
    ensures RequestsProperties.IsPrefix(a, c)
    ensures Count(c[|a|..], x) == Count(b[|a|..], x) + Count(c[|b|..], x)
  {
    assert c[..|a|] == c[..|b|][..|a|];
    PrefixSplit(b, c, |a|);
    CountAppend(b[|a|..], c[|b|..], x);
  }

  lemma PrefixTrans<T>(a: seq<T>, b: seq<T>, c: seq<T>)
    requires RequestsProperties.IsPrefix(a, b) && RequestsProperties.IsPrefix(b, c)
    ensures RequestsProperties.IsPrefix(a, c)
  {
    assert c[..|a|] == c[..|b|][..|a|];
  }

  lemma ContinuesTrans(s1: Session, s2: Session, s3: Session)
    requires Continues(s1, s2) && Continues(s2, s3)
    ensures Continues(s1, s3)
    ensures Count(s3.commands[|s1.commands|..], Launch) == Count(s2.commands[|s1.commands|..], Launch) + Count(s3.commands[|s2.commands|..], Launch)
    ensures Count(s3.commands[|s1.commands|..], WaitForBody) == Count(s2.commands[|s1.commands|..], WaitForBody) + Count(s3.commands[|s2.commands|..], WaitForBody)
  {
    CountSplit(s1.commands, s2.commands, s3.commands, Launch);
    CountSplit(s1.commands, s2.commands, s3.commands, WaitForBody);
    CountSplit(s1.commands, s2.commands, s3.commands, Quit);
    PrefixTrans(s1.pauses, s2.pauses, s3.pauses);
  }

  /** One step of the category loop: the search of term `k`, then the long pause unless it is the last term */
  lemma CategoryStep(list: (string, Session) -> Listing, terms: seq<string>, k: nat, s: Session)
    requires k < |terms|
    requires CategorySearch(list(terms[k], s), terms[k], s)
    ensures var lk := list(terms[k], s);
      var s1 := if terms[k] != terms[|terms| - 1] then Paused(lk.session, BrowserCategoryWait) else lk.session;
      && Continues(s, s1) && s1.commands == lk.session.commands
      && Count(s1.commands[|s.commands|..], Launch) <= 1
      && (s.driver ==> Count(s1.commands[|s.commands|..], Launch) == 0)
      && Count(s1.commands[|s.commands|..], WaitForBody) <= CategoryPages
  {
    var lk := list(terms[k], s);
    assert lk.session.pauses[..|s.pauses|] == s.pauses;
    assert (lk.session.pauses + [BrowserCategoryWait])[..|s.pauses|] == lk.session.pauses[..|s.pauses|];
  }

  /**
   * The category loop from term `k` on continues the session, launches the browser at most
   * once per remaining term and never when there is a driver, and reads at most three pages
   * per remaining term.
   */
  lemma {:induction false} BrowserAllFromSession(list: (string, Session) -> Listing, terms: seq<string>, k: nat,
    products: seq<ProductRecord>, s: Session)
    requires k <= |terms|
    requires forall c, s :: CategorySearch(list(c, s), c, s)
    ensures var l := BrowserAllFrom(list, terms, k, products, s);
      var m := |s.commands|;
      && Continues(s, l.session)
      && Count(l.session.commands[m..], Launch) <= |terms| - k
      && (s.driver ==> Count(l.session.commands[m..], Launch) == 0)
      && Count(l.session.commands[m..], WaitForBody) <= CategoryPages * (|terms| - k)
    decreases |terms| - k
  {
    var l := BrowserAllFrom(list, terms, k, products, s);
    if k < |terms| {
      var lk := list(terms[k], s);
      var s1 := if terms[k] != terms[|terms| - 1] then Paused(lk.session, BrowserCategoryWait) else lk.session;
      var m, m1 := |s.commands|, |s1.commands|;
      assert l == BrowserAllFrom(list, terms, k + 1, products + lk.products, s1);
      assert && Continues(s, s1)
             && Count(s1.commands[m..], Launch) <= 1
             && (s.driver ==> Count(s1.commands[m..], Launch) == 0)
             && Count(s1.commands[m..], WaitForBody) <= CategoryPages by {
        assert CategorySearch(lk, terms[k], s);
        CategoryStep(list, terms, k, s);
      }
      assert && Continues(s1, l.session)
             && Count(l.session.commands[m1..], Launch) <= |terms| - (k + 1)
             && (s1.driver ==> Count(l.session.commands[m1..], Launch) == 0)
             && Count(l.session.commands[m1..], WaitForBody) <= CategoryPages * (|terms| - (k + 1)) by {
        BrowserAllFromSession(list, terms, k + 1, products + lk.products, s1);
      }
      ContinuesTrans(s, s1, l.session);
      assert CategoryPages * (|terms| - k) == CategoryPages + CategoryPages * (|terms| - (k + 1));
    } else {
      assert l.session == s;
      assert s.commands[|s.commands|..] == [];
      assert s.commands[..|s.commands|] == s.commands && s.pauses[..|s.pauses|] == s.pauses;
    }
  }

  /** The category loop from term `k` on appends, for each remaining term in order, well-formed records of that term. */
  lemma {:induction false} BrowserAllFromProducts(list: (string, Session) -> Listing, terms: seq<string>, k: nat,
    products: seq<ProductRecord>, s: Session)
    requires k <= |terms| && Distinct(terms)
    requires forall c, s :: CategorySearch(list(c, s), c, s)
    ensures var l := BrowserAllFrom(list, terms, k, products, s);
      && RequestsProperties.IsPrefix(products, l.products)
      && RequestsProperties.FromTerms(l.products[|products|..], terms, k)
      && RequestsProperties.InTermOrder(l.products[|products|..], terms)
    decreases |terms| - k
  {
    var l := BrowserAllFrom(list, terms, k, products, s);
    if k < |terms| {
      var lk := list(terms[k], s);
      var s1 := if terms[k] != terms[|terms| - 1] then Paused(lk.session, BrowserCategoryWait) else lk.session;
      var more := products + lk.products;
      assert CategorySearch(lk, terms[k], s);
      BrowserAllFromProducts(list, terms, k + 1, more, s1);
      assert l == BrowserAllFrom(list, terms, k + 1, more, s1);
      var rest := l.products[|more|..];
      PrefixSplit(more, l.products, |products|);
      assert more[|products|..] == lk.products;
      RequestsProperties.BlockAppend(lk.products, rest, terms, k);
      assert l.products[..|products|] == l.products[..|more|][..|products|];
    } else {
      assert l.products[|products|..] == [];
    }
  }

  /** With distinct terms, the long pause is taken after every category but the last. */
  lemma {:induction false} BrowserAllFromPauses(list: (string, Session) -> Listing, terms: seq<string>, k: nat,
    products: seq<ProductRecord>, s: Session)
    requires k <= |terms| && Distinct(terms)
    requires forall c, s :: CategorySearch(list(c, s), c, s)
    ensures var l := BrowserAllFrom(list, terms, k, products, s);
      Count(l.session.pauses, BrowserCategoryWait) == Count(s.pauses, BrowserCategoryWait) + (if k < |terms| then |terms| - 1 - k else 0)
    decreases |terms| - k
  {
    if k < |terms| {
      var lk := list(terms[k], s);
      var s1 := if terms[k] != terms[|terms| - 1] then Paused(lk.session, BrowserCategoryWait) else lk.session;
      assert CategorySearch(lk, terms[k], s);
      var added := lk.session.pauses[|s.pauses|..];
      assert lk.session.pauses == s.pauses + added;
      CountAppend(s.pauses, added, BrowserCategoryWait);
      CountAppend(lk.session.pauses, [BrowserCategoryWait], BrowserCategoryWait);
      assert terms[k] != terms[|terms| - 1] <==> k < |terms| - 1;
      BrowserAllFromPauses(list, terms, k + 1, products + lk.products, s1);
    }
  }

  /**
   * The category loop over the site's search terms, for any searches that behave as category
   * searches: records of the terms, in term order; a continued session, at most one launch per
   * term and none when there is a driver; at most three pages read per term; five long
   * pauses, one between each two of the six categories.
   */
  lemma BrowserCategoriesSpec(list: (string, Session) -> Listing, s: Session)
    requires forall c, s :: CategorySearch(list(c, s), c, s)
    ensures var l := BrowserAllFrom(list, SearchTerms, 0, [], s);
      var m := |s.commands|;
      && (forall i | 0 <= i < |l.products| :: WellFormedRecord(l.products[i]) && l.products[i].category in SearchTerms)
      && RequestsProperties.InTermOrder(l.products, SearchTerms)
      && Continues(s, l.session)
      && Count(l.session.commands[m..], Launch) <= |SearchTerms|
      && (s.driver ==> Count(l.session.commands[m..], Launch) == 0)
      && Count(l.session.commands[m..], WaitForBody) <= CategoryPages * |SearchTerms|
      && Count(l.session.pauses, BrowserCategoryWait) == Count(s.pauses, BrowserCategoryWait) + |SearchTerms| - 1
  {
    SiteConstantsWellFormed();
    var l := BrowserAllFrom(list, SearchTerms, 0, [], s);
    BrowserAllFromProducts(list, SearchTerms, 0, [], s);
    BrowserAllFromSession(list, SearchTerms, 0, [], s);
    BrowserAllFromPauses(list, SearchTerms, 0, [], s);
    assert l.products[0..] == l.products;
  }

  /** Every search of a scraper whose searches are `scrape_search_page(c, 3)` behaves as a category search. */
  lemma ScraperSearches(sc: SeleniumScraper)
    requires sc.ListValid()
    ensures forall c, s :: CategorySearch(sc.list(c, s), c, s)
  {
    forall c, s
      ensures CategorySearch(sc.list(c, s), c, s)
    {
      assert sc.list(c, s) == SearchPage(sc.browser, sc.increment, sc.bound, sc.extract, c, CategoryPages, s);
      SearchIsCategorySearch(sc.browser, sc.increment, sc.bound, sc.extract, c, s);
    }
  }

  /** Every search of `SearchList` with the scraper's extractor behaves as a category search. */
  lemma ListSearches(browser: nat -> Reply, increment: nat -> int, bound: int)
    requires IncrementsValid(increment) && HeightsBounded(browser, bound)
    ensures forall c, s :: CategorySearch(SearchList(browser, increment, bound, BrowserExtractor)(c, s), c, s)
  {
    assert ExtractsRecords(BrowserExtractor);
    forall c, s
      ensures CategorySearch(SearchList(browser, increment, bound, BrowserExtractor)(c, s), c, s)
    {
      SearchIsCategorySearch(browser, increment, bound, BrowserExtractor, c, s);
    }
  }

  /**
   * `scrape_all_categories()` of a new scraper: well-formed records of the six search terms,
   * in term order; no `quit`; at most six launches and 18 pages read; five long pauses.
   */
  lemma ScrapeAllCategoriesSpec(sc: SeleniumScraper)
    requires sc.ListValid()
    ensures var l := BrowserAllFrom(sc.list, SearchTerms, 0, [], Session(false, [], []));
      && (forall i | 0 <= i < |l.products| :: WellFormedRecord(l.products[i]) && l.products[i].category in SearchTerms)
      && RequestsProperties.InTermOrder(l.products, SearchTerms)
      && Quit !in l.session.commands
      && Count(l.session.commands, Launch) <= 6
      && Count(l.session.commands, WaitForBody) <= 18
      && Count(l.session.pauses, BrowserCategoryWait) == 5
  {
    SiteConstantsWellFormed();
    ScraperSearches(sc);
    var s := Session(false, [], []);
    BrowserCategoriesSpec(sc.list, s);
    var l := BrowserAllFrom(sc.list, SearchTerms, 0, [], s);
    assert l.session.commands[0..] == l.session.commands;
  }
}
