/**
 * The retry loop of `get_page_content`: up to `retries` GETs of one URL, each answered by the
 * site with a response that the loop either accepts, rejects for good, or retries after a
 * pause. Parsing and decoding are outcomes carried by the response: the tree BeautifulSoup
 * builds (or nothing, if it raised) and the result of each of the three fallback decodings.
 */
module Fetch {
  import opened Wrappers
  import opened Strings
  import opened Dom
  import opened Pacing

  /** A successful `bytes.decode`: the text, and the tree `BeautifulSoup(text, 'lxml')` builds (None if it raised). */
  datatype Decoding = Decoding(text: string, tree: Option<Node>)

  /**
   * A response body: the tree `BeautifulSoup(content, 'html')` builds (None if it raised) and
   * the decodings as UTF-8, ISO-8859-1 and cp1252 (None for a `UnicodeDecodeError`).
   */
  datatype Body = Body(tree: Option<Node>, utf8: Option<Decoding>, latin1: Option<Decoding>, cp1252: Option<Decoding>)

  /** What one `session.get` gives: a `RequestException`, or a reply with its Content-Type ("" when absent). */
  datatype Response =
    | TransportError
    | Reply(status: int, contentType: string, body: Body)

  /** The fallback decodings, in the order they are tried */
  function Decodings(b: Body): seq<Option<Decoding>> {
    [b.utf8, b.latin1, b.cp1252]
  }

  /** `raise_for_status()` raises */
  predicate IsHttpError(status: int) {
    400 <= status < 600
  }

  function Prefix(s: string, n: nat): (r: string)
    ensures |r| == (if |s| < n then |s| else n)
    ensures r == s[..|r|]
  {
    if |s| <= n then s else s[..n]
  }

  const AntiBotIndicators: seq<string> := [
    "checking your browser", "cloudflare", "captcha", "bot detection",
    "access denied", "blocked", "security check"]

  predicate IsTitle(n: Node) {
    IsTag(n, "title")
  }

  /** The lower-cased text of the first `title` element, or "" */
  function TitleText(tree: Node): string {
    match Find(tree, IsTitle)
    case None => ""
    case Some(t) => Lower(TextOf(t))
  }

  /** The title names one of the anti-bot indicators. */
  predicate IsAntiBot(tree: Node) {
    exists k | 0 <= k < |AntiBotIndicators| :: Contains(TitleText(tree), AntiBotIndicators[k])
  }

  /** The first 500 characters of the page text hold a mis-decoding marker or fewer than 100 non-blank characters. */
  predicate IsGarbled(tree: Node) {
    var text := Prefix(TextOf(tree), 500);
    Contains(text, "Ž") || Contains(text, "äo") || Contains(text, "MûÓ") || |Strip(text)| < 100
  }

  /** A decoding good enough to be returned: "html" among the first 200 lower-cased characters and over 100 non-blank ones. */
  predicate LooksLikeHtml(text: string) {
    Contains(Prefix(Lower(text), 200), "html") && |Strip(text)| > 100
  }

  /** A decoding that succeeded and looks like HTML */
  predicate Usable(d: Option<Decoding>) {
    d.Some? && LooksLikeHtml(d.value.text)
  }

  /**
   * The last-resort decoding: the first decoding that succeeds and looks like HTML decides;
   * its tree is returned, or nothing if parsing it raised.
   */
  function RedecodeResult(ds: seq<Option<Decoding>>): Option<Node> {
    if ds == [] then None
    else if Usable(ds[0]) then ds[0].value.tree
    else RedecodeResult(ds[1..])
  }

  /** The fallback decodings give a tree only from the first usable decoding, and nothing when none is usable. */
  lemma {:induction false} RedecodeResultIsFirstUsable(ds: seq<Option<Decoding>>)
    ensures var r := RedecodeResult(ds);
      r.Some? ==> exists k | 0 <= k < |ds| ::
        Usable(ds[k]) && r == ds[k].value.tree && forall j | 0 <= j < k :: !Usable(ds[j])
    ensures (forall k | 0 <= k < |ds| :: !Usable(ds[k])) ==> RedecodeResult(ds).None?
  {
    if ds != [] && !Usable(ds[0]) {
      var rest := ds[1..];
      RedecodeResultIsFirstUsable(rest);
      var r := RedecodeResult(ds);
      assert r == RedecodeResult(rest);
      if r.Some? {
        var k :| 0 <= k < |rest| && Usable(rest[k]) && r == rest[k].value.tree && forall j | 0 <= j < k :: !Usable(rest[j]);
        assert ds[k + 1] == rest[k];
        assert forall j | 0 <= j < k + 1 :: !Usable(ds[j]) by {
          forall j | 0 <= j < k + 1 ensures !Usable(ds[j]) {
            if j > 0 { assert ds[j] == rest[j - 1]; }
          }
        }
      }
      if forall k | 0 <= k < |ds| :: !Usable(ds[k]) {
        assert forall k | 0 <= k < |rest| :: !Usable(rest[k]) by {
          forall k | 0 <= k < |rest| ensures !Usable(rest[k]) { assert rest[k] == ds[k + 1]; }
        }
      }
    }
  }

  /** The `for encoding in [...]` loop of the garbled-content branch */
  method Redecode(b: Body) returns (doc: Option<Node>)
    ensures doc == RedecodeResult(Decodings(b))
  {
    var ds := Decodings(b);
    var i := 0;
    while i < |ds|
      invariant 0 <= i <= |ds|
      invariant RedecodeResult(ds[i..]) == RedecodeResult(ds)
    {
      var d := ds[i];
      if Usable(d) {
        return d.value.tree;
      }
      assert ds[i..][1..] == ds[i + 1..];
      i := i + 1;
    }
    return None;
  }

  /** What one response amounts to, by the checks of the retry loop in the order they are made */
  datatype Outcome =
    | Failed            // a `RequestException`, or `raise_for_status` raised
    | Forbidden         // 403
    | RateLimited       // 429
    | NotHtml           // no "html" in the Content-Type
    | Unparsable        // BeautifulSoup raised
    | AntiBot           // the title names an anti-bot indicator
    | Garbled(redecoded: Option<Node>)  // the text looks mis-decoded; what the fallback decodings give
    | Page(tree: Node)  // accepted

  function Classify(resp: Response): Outcome {
    match resp
    case TransportError => Failed
    case Reply(status, contentType, body) =>
      if status == 403 then Forbidden
      else if status == 429 then RateLimited
      else if IsHttpError(status) then Failed
      else if !Contains(Lower(contentType), "html") then NotHtml
      else if body.tree.None? then Unparsable
      else if IsAntiBot(body.tree.value) then AntiBot
      else if IsGarbled(body.tree.value) then Garbled(RedecodeResult(Decodings(body)))
      else Page(body.tree.value)
  }

  /** What one attempt decides: give back a document (or nothing) now, or go on after an optional pause. */
  datatype Verdict = Done(doc: Option<Node>) | Retry(pause: Option<Pause>)

  /** The exit table of the retry loop; `attempt` counts from 0, `last` marks the final attempt. */
  function Judge(o: Outcome, attempt: nat, last: bool): Verdict {
    match o
    case Failed => if last then Retry(None) else Retry(Some(TransportWait(attempt + 1)))
    case Forbidden => if last then Done(None) else Retry(Some(ForbiddenWait))
    case RateLimited => Retry(Some(RateLimitWait))
    case NotHtml => if last then Done(None) else Retry(Some(RandomDelay))
    case Unparsable => if last then Done(None) else Retry(Some(RandomDelay))
    case AntiBot => if last then Done(None) else Retry(Some(AntiBotWait))
    case Garbled(redecoded) => if last then Done(redecoded) else Retry(Some(RandomDelay))
    case Page(tree) => Done(Some(tree))
  }

  /** A response the loop accepts as it is, on any attempt. */
  predicate IsGoodPage(resp: Response) {
    && resp.Reply? && resp.status != 403 && resp.status != 429 && !IsHttpError(resp.status)
    && Contains(Lower(resp.contentType), "html")
    && resp.body.tree.Some? && !IsAntiBot(resp.body.tree.value) && !IsGarbled(resp.body.tree.value)
  }

  /** The outcome of the whole loop: the document, how many requests were made, the pauses taken. */
  datatype Run = Run(doc: Option<Node>, requests: nat, pauses: seq<Pause>)

  function PauseList(p: Option<Pause>): seq<Pause> {
    if p.Some? then [p.value] else []
  }

  /** How the checks read each response of a site: the n-th request's response, classified */
  function Outcomes(server: nat -> Response): nat -> Outcome {
    (n: nat) => Classify(server(n))
  }

  /**
   * The `for attempt in range(retries)` loop from attempt `attempt` on, attempt `a` being
   * answered with `outcomes(start + a)`; `pauses` are those taken by the earlier attempts.
   */
  function FetchFrom(outcomes: nat -> Outcome, start: nat, attempt: nat, retries: nat, pauses: seq<Pause>): Run
    decreases retries - attempt
  {
    if attempt >= retries then Run(None, attempt, pauses)
    else match Judge(outcomes(start + attempt), attempt, attempt == retries - 1)
      case Done(doc) => Run(doc, attempt + 1, pauses)
      case Retry(p) => FetchFrom(outcomes, start, attempt + 1, retries, pauses + PauseList(p))
  }

  /** `get_page_content(url, retries)`, its first request being the session's request number `start` */
  function GetPage(outcomes: nat -> Outcome, start: nat, retries: nat): Run {
    FetchFrom(outcomes, start, 0, retries, [])
  }

  /**
   * At most `retries` requests are made, and at least one if `retries` is positive; every
   * request but the last is followed by at most one pause.
   */
  lemma {:induction false} FetchFromBounded(outcomes: nat -> Outcome, start: nat, attempt: nat, retries: nat, pauses: seq<Pause>)
    requires attempt <= retries && |pauses| <= attempt
    ensures var run := FetchFrom(outcomes, start, attempt, retries, pauses);
      && attempt <= run.requests <= retries
      && (attempt < retries ==> run.requests > attempt)
      && |pauses| <= |run.pauses| <= run.requests
      && run.pauses[..|pauses|] == pauses
    decreases retries - attempt
  {
    if attempt < retries {
      var v := Judge(outcomes(start + attempt), attempt, attempt == retries - 1);
      if v.Retry? {
        var more := pauses + PauseList(v.pause);
        FetchFromBounded(outcomes, start, attempt + 1, retries, more);
        var run := FetchFrom(outcomes, start, attempt + 1, retries, more);
        assert run.pauses[..|pauses|] == more[..|more|][..|pauses|];
      }
    }
  }

  /** `get_page_content` makes between 1 and `retries` requests, and fewer pauses than requests. */
  lemma GetPageBounded(outcomes: nat -> Outcome, start: nat, retries: nat)
    requires retries > 0
    ensures var run := GetPage(outcomes, start, retries);
      1 <= run.requests <= retries && |run.pauses| <= run.requests
  {
    FetchFromBounded(outcomes, start, 0, retries, []);
  }

  /** The pauses the retry loop takes: the waits of the exit table, never a pause between categories */
  predicate IsRetryWait(p: Pause) {
    p.RandomDelay? || p.ForbiddenWait? || p.RateLimitWait? || p.AntiBotWait? || p.TransportWait?
  }

  /** Every pause of the retry loop is one of its waits. */
  lemma {:induction false} FetchFromWaits(outcomes: nat -> Outcome, start: nat, attempt: nat, retries: nat, pauses: seq<Pause>)
    requires forall k | 0 <= k < |pauses| :: IsRetryWait(pauses[k])
    ensures var run := FetchFrom(outcomes, start, attempt, retries, pauses);
      forall k | 0 <= k < |run.pauses| :: IsRetryWait(run.pauses[k])
    decreases retries - attempt
  {
    if attempt < retries {
      var v := Judge(outcomes(start + attempt), attempt, attempt == retries - 1);
      if v.Retry? {
        var more := pauses + PauseList(v.pause);
        assert forall k | 0 <= k < |more| :: IsRetryWait(more[k]);
        FetchFromWaits(outcomes, start, attempt + 1, retries, more);
        assert FetchFrom(outcomes, start, attempt, retries, pauses) == FetchFrom(outcomes, start, attempt + 1, retries, more);
      } else {
        assert FetchFrom(outcomes, start, attempt, retries, pauses).pauses == pauses;
      }
    } else {
      assert FetchFrom(outcomes, start, attempt, retries, pauses).pauses == pauses;
    }
  }

  /** The responses the checks let through are exactly the good pages. */
  lemma GoodPageIsAccepted(resp: Response)
    ensures Classify(resp).Page? <==> IsGoodPage(resp)
    ensures IsGoodPage(resp) ==> Classify(resp) == Page(resp.body.tree.value)
  {
  }

  /**
   * The exit table: before the final attempt only a page ends the loop; on the final attempt
   * only a transport or HTTP error and a 429 do not.
   */
  lemma ExitTable(o: Outcome, attempt: nat)
    ensures Judge(o, attempt, false).Done? <==> o.Page?
    ensures Judge(o, attempt, true).Retry? <==> o.Failed? || o.RateLimited?
    ensures Judge(o, attempt, true).Retry? ==> Judge(o, attempt, true).pause == if o.Failed? then None else Some(RateLimitWait)
  {
  }

  /** On the final attempt a 403, a non-HTML reply or an anti-bot page ends the loop with nothing. */
  lemma FinalAttemptRejects(resp: Response, attempt: nat)
    requires resp.Reply?
    requires || resp.status == 403
             || (resp.status != 429 && !IsHttpError(resp.status) && !Contains(Lower(resp.contentType), "html"))
             || (resp.status != 429 && !IsHttpError(resp.status) && resp.body.tree.Some? && IsAntiBot(resp.body.tree.value))
    ensures Judge(Classify(resp), attempt, true) == Done(None)
  {
  }

  /** A 403 before the final attempt is retried after the long wait. */
  lemma ForbiddenIsRetried(resp: Response, attempt: nat)
    requires resp.Reply? && resp.status == 403
    ensures Judge(Classify(resp), attempt, false) == Retry(Some(ForbiddenWait))
  {
  }

  /** Two 403 replies followed by a good page: the third attempt returns the page. */
  lemma ForbiddenTwiceThenPage(server: nat -> Response, start: nat)
    requires server(start).Reply? && server(start).status == 403
    requires server(start + 1).Reply? && server(start + 1).status == 403
    requires IsGoodPage(server(start + 2))
    ensures GetPage(Outcomes(server), start, 3) == Run(server(start + 2).body.tree, 3, [ForbiddenWait, ForbiddenWait])
  {
    var outcomes := Outcomes(server);
    ForbiddenIsRetried(server(start), 0);
    assert outcomes(start + 0) == Classify(server(start));
    ForbiddenIsRetried(server(start + 1), 1);
    assert outcomes(start + 1) == Classify(server(start + 1));
    GoodPageIsAccepted(server(start + 2));
    assert outcomes(start + 2) == Classify(server(start + 2));
    assert [] + [ForbiddenWait] + [ForbiddenWait] == [ForbiddenWait, ForbiddenWait];
  }

  /** A site that answers 429 to everything: every attempt waits, and the loop ends with nothing. */
  lemma {:induction false} AlwaysRateLimited(server: nat -> Response, start: nat, attempt: nat, retries: nat, pauses: seq<Pause>)
    requires forall i: nat :: server(i).Reply? && server(i).status == 429
    requires attempt <= retries
    ensures FetchFrom(Outcomes(server), start, attempt, retries, pauses)
      == Run(None, retries, pauses + Repeat(RateLimitWait, retries - attempt))
    decreases retries - attempt
  {
    if attempt < retries {
      assert Outcomes(server)(start + attempt) == Classify(server(start + attempt));
      AlwaysRateLimited(server, start, attempt + 1, retries, pauses + [RateLimitWait]);
      assert pauses + [RateLimitWait] + Repeat(RateLimitWait, retries - attempt - 1)
        == pauses + Repeat(RateLimitWait, retries - attempt);
    } else {
      assert pauses + [] == pauses;
    }
  }

  /** Under constant rate limiting `get_page_content` makes all its attempts, waits after each, and gives nothing. */
  lemma RateLimitedPage(server: nat -> Response, start: nat, retries: nat)
    requires forall i: nat :: server(i).Reply? && server(i).status == 429
    ensures GetPage(Outcomes(server), start, retries) == Run(None, retries, Repeat(RateLimitWait, retries))
  {
    AlwaysRateLimited(server, start, 0, retries, []);
    assert [] + Repeat(RateLimitWait, retries) == Repeat(RateLimitWait, retries);
  }

  /** A title holding "Cloudflare" in any capitalisation marks an anti-bot page. */
  lemma CloudflareInAnyCase(tree: Node, w: string)
    requires Find(tree, IsTitle).Some? && Contains(TextOf(Find(tree, IsTitle).value), w)
    requires Lower(w) == "cloudflare"
    ensures IsAntiBot(tree)
  {
    var t := TextOf(Find(tree, IsTitle).value);
    var i :| 0 <= i <= |t| - |w| && OccursAt(t, w, i);
    LowerSlice(t, i, i + |w|);
    assert OccursAt(TitleText(tree), AntiBotIndicators[1], i);
  }

  /** A garbled page on the final attempt whose decodings all fail or do not look like HTML gives nothing. */
  lemma GarbledWithoutGoodDecoding(resp: Response, attempt: nat)
    requires resp.Reply? && resp.status != 403 && resp.status != 429 && !IsHttpError(resp.status)
    requires Contains(Lower(resp.contentType), "html") && resp.body.tree.Some?
    requires !IsAntiBot(resp.body.tree.value) && IsGarbled(resp.body.tree.value)
    requires forall k | 0 <= k < 3 :: !Usable(Decodings(resp.body)[k])
    ensures Judge(Classify(resp), attempt, true) == Done(None)
    ensures Judge(Classify(resp), attempt, false) == Retry(Some(RandomDelay))
  {
    RedecodeResultIsFirstUsable(Decodings(resp.body));
  }
}
