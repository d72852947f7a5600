/**
 * The pauses both scrapers take. The amount slept is random; what the model keeps is which
 * pause was taken, in order, and the range its length is drawn from.
 */
module Pacing {

  datatype Pause =
    | RandomDelay           // requests `_random_delay()`: 2 to 5 s
    | ForbiddenWait         // after a 403: 10 to 20 s
    | RateLimitWait         // after a 429: 30 to 60 s
    | AntiBotWait           // after an anti-bot page: 20 to 40 s
    | TransportWait(attempt: nat)  // after a request error on 1-based attempt `attempt`: 5 to 15 s times `attempt`
    | CategoryWait          // requests scraper, between categories: 10 to 20 s
    | HomepageWait          // Selenium, after the homepage: 3 to 7 s
    | SearchWait            // Selenium, after the search page: 3 to 5 s
    | NextPageWait          // Selenium, after clicking next: 3 to 6 s
    | ScrollWait            // Selenium, after each scroll step: 0.5 to 1.5 s
    | BrowserCategoryWait   // Selenium, between categories: 15 to 30 s

  datatype Range = Range(lo: real, hi: real)

  /** The bounds `random.uniform` is called with for each pause. */
  function Bounds(p: Pause): (r: Range)
    ensures 0.0 <= r.lo <= r.hi
  {
    match p
    case RandomDelay => Range(2.0, 5.0)
    case ForbiddenWait => Range(10.0, 20.0)
    case RateLimitWait => Range(30.0, 60.0)
    case AntiBotWait => Range(20.0, 40.0)
    case TransportWait(k) => Range(5.0 * k as real, 15.0 * k as real)
    case CategoryWait => Range(10.0, 20.0)
    case HomepageWait => Range(3.0, 7.0)
    case SearchWait => Range(3.0, 5.0)
    case NextPageWait => Range(3.0, 6.0)
    case ScrollWait => Range(0.5, 1.5)
    case BrowserCategoryWait => Range(15.0, 30.0)
  }
}
