# Castorama material scraper, modelled in Dafny

The scraper collects building-material products (tiles, sinks, toilets, paint, vanities,
showers) from the search pages of castorama.fr. Each product becomes a record with eight
fields: name, category, price, currency, product URL, brand, unit and image URL. There are two
scrapers and an entry point:

- `CastoramaScraper` (src/scraper.py) uses an HTTP session.
  - It visits the homepage once, then walks the search pages of each of six terms, at most ten
    pages and 100 products per term.
  - Every page is fetched by a retry loop (`get_page_content`) with three attempts. It waits
    after a 403, a 429, an anti-bot page, a non-HTML or garbled reply, or a transport error. As
    a last resort it re-decodes a garbled body.
  - It reads each product card with a chain of BeautifulSoup lookups (`extract_product_data`)
    and reads the price with a regular expression (`extract_price`).
- `CastoramaSeleniumScraper` (src/selenium_scraper.py, copied byte for byte in
  src/material_scraper/) drives Chrome.
  - It starts the driver when there is none.
  - It opens the homepage and then the search, and reads at most three result pages per term.
    For each page it waits for the body, scrolls gradually to the bottom, reads the product
    elements and clicks "next".
  - It pauses between terms.
  - `close` quits the driver.
- `main()` in main.py runs the Selenium scraper and saves a non-empty result. It prints how
  many products each category has, in first-appearance order, and the first three products.
  The exit code is 0, or 1 when nothing was scraped.

The model keeps the program's structure:

- **Pure code becomes functions and lemmas:** the price rule, the record extraction, the
  selectors, URL resolution, the regular expressions the code relies on, and the decision
  table of the retry loop.
- **Each scraper becomes a `class`.** Its methods append to a session history, and each
  method is proved equal to a function of the old history. Those functions are then proved
  to keep the invariants the program relies on. The requests scraper's history records the
  URLs requested, the header re-randomisations, the Referer flag, the homepage flag and the
  pauses. The Selenium scraper's history records the driver flag, the commands sent and the
  pauses.
- **The outside world is an oracle indexed by position in the history:**
  - the site is `server(n)`, the response to the n-th request;
  - the browser is `browser(n)`, the reply to the n-th command;
  - `random.randint(300, 600)` is `increment(n)`.
- Pauses are recorded by kind together with the range their length is drawn from. No number
  of seconds is kept.

Some of what the proofs establish:

- Both price readers read `12,50 €` as 12.5, `1 234,00` as 1234.0 and `1.234,56` as 1.234.
  A no-break space ends the number.
- The `primary-price` lookup inside `extract_product_data` can never find anything.
- A product link `//[host` whose bracket never closes makes `urljoin` raise, and the
  `except Exception` around the card then discards it. A link `/a/../b` resolves to `/b`.
- No record of the requests scraper ever has the unit "lot". The pattern tries "l" first at
  the same place, and a name containing an l already makes the card's text mention a unit.
- The Selenium scroll loop only scrolls to positions below the height it last read.
- A failing browser command ends a search but keeps the products collected so far.
- Both scrapers return well-formed records in `search_terms` order. Over the six categories
  they take five long pauses in all, and none inside a category's scrape.
- `main()`'s tally lists search terms in the order of `search_terms`. Its counts are positive
  and add up to the number of products. The exit code is 1 exactly when the Selenium run
  returned nothing.

An HTTP status of 400 to 599, other than 403 and 429, makes `raise_for_status` raise a
`requests.RequestException` (src/scraper.py:106). The `except requests.RequestException`
branch catches it and retries after the usual transport wait (src/scraper.py:182-188). Such a
reply is therefore retried like a transport error.

## Model

| member | source | states |
|---|---|---|
| Site.SiteConstantsWellFormed | src/scraper.py:13-34 | the base URL is `https://www.castorama.fr` and is a well-formed origin; there are six search terms and no two are equal |
| Url.ResolveIsAbsolute | src/scraper.py:328-330 | when `urljoin(base_url, ref)` does not raise, it gives a reference naming another scheme as written, and otherwise a URL that starts with the base's scheme and `://` |
| Url.ResolveAuthority | src/scraper.py:330 | a resolved reference on the base's scheme carries the reference's own authority, or the base's host without one, followed by nothing or by `/`, `?` or `#` |
| Url.ResolveOnSite | src/scraper.py:330 | a reference without an authority or a scheme of its own never raises and resolves onto the base's origin |
| Url.ResolveFails | src/scraper.py:328-330 | `urljoin` raises exactly when the reference is non-empty and its authority fails `urlsplit`'s bracket checks, and then the reference holds a `[` or a `]` |
| Url.ResolveAbsolutePath | src/scraper.py:330 | an absolute path is appended to the base's origin with its dot segments removed |
| Url.ResolvePlainPath | src/scraper.py:330 | an absolute path without dot segments, query, fragment or parameters is appended to the origin unchanged |
| Url.NoDotSegments | src/scraper.py:330 | a resolved path holds no `.` or `..` segment |
| Url.DotDotDropsSegment | src/scraper.py:330 | `/a/../b` resolves to the path `/b` |
| Site.ProductPathResolves | src/scraper.py:328-330 | a product path `/p/<digits>` resolves to `https://www.castorama.fr/p/<digits>` |
| Site.UnclosedBracketExample | src/scraper.py:328-330 | a link `//[host` whose bracket never closes makes `urljoin` raise |
| Strings.StripSpace | src/scraper.py:290-294 | `strip()` gives "" exactly for all-white-space text, and otherwise text that neither starts nor ends with white space |
| Strings.StripKeeps | src/selenium_scraper.py:214 | every character of the stripped text comes from the original |
| Strings.RemoveKeeps | src/scraper.py:196 | `replace(' ', '')` keeps every other character |
| Strings.RemoveBetween | src/scraper.py:196 | deleting the one space between two space-free strings joins them |
| Strings.NatToStringRoundTrip | src/scraper.py:211 | the page number written into the URL reads back as the same number |
| Dom.Find | src/scraper.py:282 | `find` gives nothing exactly when no descendant matches; otherwise it gives a matching descendant that is the first in document order |
| Dom.FindAll | src/scraper.py:239 | `find_all` gives matching descendants, every matching descendant among them, and [] exactly when `find` gives nothing |
| Dom.FindAllInOrder | src/scraper.py:239 | `find_all` lists the matching descendants in document order, each once |
| Dom.FindString | src/scraper.py:312 | `find(text=...)` gives a string of the subtree that matches, and nothing exactly when no string of the subtree matches |
| Dom.FindInsideDescendant | src/scraper.py:301-305 | what cannot be found from a node cannot be found from inside one of its descendants |
| Dom.StrippedTextFromStrings | src/scraper.py:294 | every character of `get_text(strip=True)` comes from one of the subtree's strings |
| Dom.Attr | src/scraper.py:329 | `get(key)` gives a value exactly when the element has that attribute |
| Selectors.FirstNonEmptyIsFirstMatch | src/scraper.py:237-244 | the container list is empty exactly when no selector finds anything, and otherwise it is what the first selector that finds something finds |
| Selectors.SelectContainers | src/selenium_scraper.py:141-152 | the container loop returns the result of the first selector that finds something |
| Selectors.FirstSomeByIsFirst | src/selenium_scraper.py:232-245 | a first-hit loop gives nothing exactly when every candidate gives nothing, and otherwise gives the first candidate's value |
| Regex.Search | src/scraper.py:363-364 | `re.search` over alternatives fails exactly when no alternative occurs, and otherwise reports the leftmost position with the first alternative that occurs there |
| Regex.Group | src/scraper.py:363-366 | `group(1)` is the matched text at the leftmost-first hit, and there is none exactly when nothing matches |
| Regex.LeftmostFirstUnique | src/scraper.py:363-364 | the leftmost-first hit is unique |
| Regex.ShadowedAlternative | src/scraper.py:359-364 | an alternative written after a prefix of itself is never reported |
| Regex.GroupIsAlternative | src/scraper.py:363-366 | a case-insensitive match, lower-cased, is the alternative that matched |
| Regex.GroupNonEmpty | src/scraper.py:363-366 | with no empty alternative a match is never empty |
| Price.SearchNumeral | src/scraper.py:196 | `re.search(r'(\d+[,.]?\d*)', t)` fails exactly when `t` has no digit, and otherwise gives the greedy match at the leftmost digit |
| Price.MatchAtIsGreedy | src/scraper.py:196 | the match read at a digit is well formed, written out there, and cannot be extended |
| Price.LeftmostMatchUnique | src/scraper.py:196 | the leftmost match is determined by the text: its position and parts are unique |
| Price.ExtractPrice | src/scraper.py:193-199 | `extract_price` is None exactly when the text has no digit; otherwise it is the non-negative value of the leftmost match in the space-free text, with the separator read as a decimal point |
| Price.PriceValue | src/selenium_scraper.py:236-243 | the Selenium scraper's inline price rule: None exactly without a digit, otherwise the value of the leftmost match after spaces are deleted |
| Price.ExtractPriceIsPriceValue | src/scraper.py:193-199 | the two scrapers read every price text alike: the empty-text test of `extract_price` changes nothing |
| Price.PriceFromMatch | src/scraper.py:196-198 | once the leftmost match is known, the price is its value |
| Price.RemoveKeepsDigits | src/scraper.py:196 | deleting spaces neither creates nor destroys a digit |
| Price.ExtractPriceCommaExample | src/scraper.py:193-199 | `12,50 €` reads as 12.5 |
| Price.ExtractPriceSpacedThousandsExample | src/scraper.py:193-199 | `1 234,00` reads as 1234.0 |
| Price.ExtractPriceDottedThousandsExample | src/scraper.py:193-199 | `1.234,56` reads as 1.234: the dot is the decimal point and the comma ends the match |
| Price.ExtractPriceNoBreakSpaceExample | src/scraper.py:193-199 | a no-break space is not deleted, so `1 234` reads as 1.0 |
| Price.ExtractPriceNoDigitExample | src/scraper.py:194-199 | "" and "€" have no price |
| Extract.NameElement | src/scraper.py:281-288 | the name element, when there is one, lies inside the card |
| Extract.PrimaryPriceLookupIsDead | src/scraper.py:296-314 | the lookup inside `primary-price` never finds anything, so the price element is the test id, else the price class, else the parent of the first euro string |
| Extract.UrlElement | src/scraper.py:322-326 | the link found is an anchor, either the name element or inside the card; there is one whenever the name element is an anchor, and, for a name element inside the card, none exactly when the card holds no anchor |
| Extract.ProductUrl | src/scraper.py:328-330 | the product URL is "" exactly when there is no link with a non-empty `href`; `urljoin` raises exactly when the `href`'s authority fails the bracket checks; otherwise the URL is absolute |
| Extract.ImageSource | src/scraper.py:344-356 | the image reference is `src` if non-empty, else `data-src` if non-empty, else the piece of `srcset` before its first comma or space, and nothing when that piece is empty; it is never "" |
| Extract.ImageElement | src/scraper.py:340-342 | the image element is an image inside the card, and there is none exactly when the card holds no image |
| Extract.ImageUrl | src/scraper.py:339-356 | the image URL is "" exactly when there is no image or no usable source, absent exactly when `urljoin` raises on the source, and otherwise absolute |
| Extract.UnitAlternativesShape | src/scraper.py:359-360 | the unit pattern has eight non-empty alternatives, "l" comes before "lot", and "lot" is the only "lot" |
| Extract.UnitFromText | src/scraper.py:358-366 | a unit is read from the card's text exactly when some string of the card mentions one |
| Extract.Unit | src/scraper.py:358-372 | a unit read from the card's text wins; the unit is "" exactly when the text gives none and the lower-cased name holds none of kit, lot, pack, set |
| Extract.Brand | src/scraper.py:333-337 | the seller-info paragraph's text wins when there is one; the brand is "" when neither the seller-info paragraph nor a brand-like class is found |
| Extract.ExtractProductDataSpec | src/scraper.py:279-387 | a record comes out exactly when the name element has text, the price element reads as a positive number and neither `urljoin` raises (the `except Exception` discards the card); it is well formed, carries the category, and its fields are the ones the lookups give |
| Extract.BlankNameDiscards | src/scraper.py:282-291 | a blank `product-name` paragraph discards the card: no later name candidate is tried |
| Extract.RecordUrlsAbsolute | src/scraper.py:328-356 | the product and image URLs of a record are present, and each is "" or absolute |
| Extract.UnitMatchNeverLot | src/scraper.py:359-366 | a unit read from a string is never "lot" in any case |
| Extract.NameUnitNeverLot | src/scraper.py:368-372 | the name fallback is used only when the card's text mentions no unit, and then it never gives "lot" |
| Extract.RecordUnitNeverLot | src/scraper.py:358-372 | no record carries the unit "lot", in any case |
| Extract.UnitNeverLot | src/scraper.py:358-372 | the unit worked out from a card and any of its element texts is never "lot" |
| Fetch.Redecode | src/scraper.py:158-170 | the `for encoding in ...` loop gives the fallback result over the three decodings of the body, the first usable one as the next row states |
| Fetch.RedecodeResultIsFirstUsable | src/scraper.py:158-170 | the fallback gives a tree only from the first usable decoding, and nothing when none is usable |
| Fetch.GoodPageIsAccepted | src/scraper.py:92-173 | the replies the checks let through are exactly those with status neither 403, 429 nor 4xx/5xx, an HTML content type, a parsed tree, no anti-bot title and no garbled text |
| Fetch.ExitTable | src/scraper.py:93-188 | before the final attempt only an accepted page ends the loop; on the final attempt only a transport or HTTP error and a 429 fall through to the loop's end, a 429 after its long wait and an error without a wait |
| Fetch.FinalAttemptRejects | src/scraper.py:93-148 | on the final attempt a 403, a non-HTML reply or an anti-bot page ends the loop with nothing |
| Fetch.ForbiddenIsRetried | src/scraper.py:93-98 | a 403 before the final attempt is retried after the 10–20 s wait |
| Fetch.GarbledWithoutGoodDecoding | src/scraper.py:150-170 | a garbled page is retried after a short delay, and on the final attempt gives nothing when no decoding is usable |
| Fetch.CloudflareInAnyCase | src/scraper.py:128-142 | a title holding "Cloudflare" in any capitalisation marks an anti-bot page |
| Fetch.FetchFromBounded | src/scraper.py:79-191 | the loop makes at most `retries` requests, at least one when `retries` is positive, and takes at most one pause per request but the last |
| Fetch.GetPageBounded | src/scraper.py:78-191 | `get_page_content` makes between 1 and `retries` requests and takes at most one pause per request |
| Fetch.FetchFromWaits | src/scraper.py:79-188 | every pause of the retry loop is one of its waits, never the pause between categories |
| Fetch.ForbiddenTwiceThenPage | src/scraper.py:79-173 | two 403 replies then a good page: three requests, two long waits, and the page is returned |
| Fetch.AlwaysRateLimited | src/scraper.py:101-104 | under constant 429 replies every remaining attempt requests and waits, and nothing is returned |
| Fetch.RateLimitedPage | src/scraper.py:78-191 | under constant 429 replies `get_page_content` makes all its attempts, waits after each, and returns None |
| RequestsScraper.RecordsExtracted | src/scraper.py:257-264 | every record gathered from a page is what one of its containers yields |
| RequestsScraper.HarvestIsPrefix | src/scraper.py:256-264 | the records taken from a page are the first `max_products - len(products)` of its records, or all of them when there are fewer |
| RequestsScraper.CollectRecords | src/scraper.py:257-264 | the container loop takes exactly the harvest of the page |
| RequestsScraper.PageRecords | src/scraper.py:237-264 | the selector loop and the container loop together keep the harvest of the first selector that finds containers, and nothing when none does |
| RequestsScraper.CardClassesOnTwoLines | src/scraper.py:229-230 | a `div` whose classes `product` and `card` are written on two lines is a product card, because the pattern is tried on the classes joined by a space |
| RequestsScraper.ExtractedWellFormed | src/scraper.py:261-263 | records yielded for a category are well formed and carry it |
| RequestsScraper.Scraper.constructor | src/scraper.py:12-38 | a new scraper has requested nothing, re-randomised nothing, set no Referer, not visited the homepage and paused never |
| RequestsScraper.Scraper.GetHomepageFirst | src/scraper.py:65-76 | true exactly when the homepage answered 200; one request for the homepage, then a short pause only on success |
| RequestsScraper.Scraper.GetPageContent | src/scraper.py:78-191 | the document and the new session are those of the retry loop run on the site's responses |
| RequestsScraper.Scraper.Attempt | src/scraper.py:80-188 | one attempt re-randomises the headers unless it is the first, sets the Referer for a search URL, requests the URL and gives the exit table's verdict on the reply |
| RequestsScraper.Scraper.ScrapePage | src/scraper.py:210-272 | one pass of the page loop: fetch the search page, stop without a page or without records, else add them and pause |
| RequestsScraper.Scraper.ScrapeProductList | src/scraper.py:201-277 | `scrape_product_list` visits the homepage once per session, then runs the page loop from page 1 |
| RequestsScraper.Scraper.ScrapePages | src/scraper.py:210-277 | the `while` loop runs passes until the limit is reached, a pass stops it, or page 10 is done |
| RequestsScraper.Scraper.ScrapeAllCategories | src/scraper.py:389-408 | the category loop scrapes every search term in order with at most 100 products and pauses after every term but the last |
| RequestsScraper.Scraper.ScrapeCategory | src/scraper.py:393-406 | one category: its scrape, then the long pause unless it is the last term |
| RequestsProperties.PageStepProducts | src/scraper.py:256-264 | a page with room left adds at most the room, all well-formed records of the category |
| RequestsProperties.PageStepRequests | src/scraper.py:211-215 | a page is requested under its search URL at most three times and nothing else is requested |
| RequestsProperties.PageStepPauses | src/scraper.py:266-272 | a page takes only retry waits and the short pause after a page of records |
| RequestsProperties.ListFromProducts | src/scraper.py:210-277 | the page loop only appends products, never more than `max_products`, all of the category |
| RequestsProperties.ListFromRequests | src/scraper.py:210-277 | the page loop requests only its category's search URLs from the current page up to page 10, at most three requests per page, and leaves the homepage flag alone |
| RequestsProperties.ListFromPauses | src/scraper.py:210-277 | the page loop takes no pause between categories |
| RequestsProperties.OpenedSpec | src/scraper.py:205-208 | the homepage is requested exactly when it was not visited yet, and afterwards it counts as visited |
| RequestsProperties.ScrapeListSpec | src/scraper.py:201-277 | one category scrape: at most `max_products` well-formed products of the category, the homepage first only on the first visit, at most 30 other requests, each a search URL of the category, and no pause between categories |
| RequestsProperties.SearchUrlNotHome | src/scraper.py:211 | no search URL is the homepage |
| RequestsProperties.ScrapeListIsCategoryScrape | src/scraper.py:201-277 | every category scrape of the session gives what the category loop relies on |
| RequestsProperties.AllFromProducts | src/scraper.py:389-408 | the category loop appends, term after term, at most 100 well-formed products of each term |
| RequestsProperties.AllFromRequests | src/scraper.py:389-408 | the homepage is requested only as the very first request and only if it was not visited; afterwards it counts as visited; at most 31 requests per term |
| RequestsProperties.AllFromPauses | src/scraper.py:400-406 | with distinct terms, and category scrapes that take no long pause of their own, the category loop from term k adds exactly `len(terms) - 1 - k` long pauses |
| RequestsProperties.HarvestOfCategory | src/scraper.py:256-264 | a page's records, as the scraper computes them, all carry the category |
| RequestsProperties.ScrapeAllSpec | src/scraper.py:389-408 | `scrape_all_categories()` on a fresh session: at most 600 well-formed products of the search terms in `search_terms` order, the homepage requested first and never again, at most 31 requests per term, five long pauses |
| BrowserExtract.ExtractProductFromElement | src/selenium_scraper.py:196-280 | the method follows the name loop, the price loop, the link and the image exactly as the record function states them |
| BrowserExtract.ReadName | src/selenium_scraper.py:200-218 | the name loop stops at the first selector whose element has text |
| BrowserExtract.ReadPrice | src/selenium_scraper.py:224-245 | the price loop stops at the first selector whose element text holds a number |
| BrowserExtract.NameIsFirstWithText | src/selenium_scraper.py:200-221 | the name is "" exactly when no selector finds an element with text; otherwise it is the text of the first selector that does |
| BrowserExtract.PriceIsFirstWithNumber | src/selenium_scraper.py:224-248 | the price candidate is what the first selector giving a number gives; the selectors before it give nothing |
| BrowserExtract.PriceAtSpec | src/selenium_scraper.py:234-243 | a selector gives a number exactly when it finds an element whose text holds a digit; the number is never negative |
| BrowserExtract.PriceNonNegative | src/selenium_scraper.py:232-245 | the price candidate is never negative |
| BrowserExtract.Href | src/selenium_scraper.py:250-258 | `get_attribute("href")` is None exactly without an `href`, "" for an empty one, and otherwise absolute or, where it does not resolve, as written |
| BrowserExtract.PageUrl | src/selenium_scraper.py:254-263 | an attribute URL as the browser reports it is absolute when it resolves, and as written otherwise |
| BrowserExtract.BrowserRecordSpec | src/selenium_scraper.py:196-280 | a record comes out exactly when a name is found and the first number found is not zero; it is well formed, has empty brand and unit, and its link is "" without an anchor and otherwise absent, absolute, or as written when it does not resolve |
| BrowserExtract.ZeroPriceDiscards | src/selenium_scraper.py:241-248 | a zero from the first selector with a number discards the element, whatever later selectors hold |
| BrowserScraper.SeleniumScraper.constructor | src/selenium_scraper.py:19-31 | a new scraper has no driver, has sent nothing and has paused never; its searches are `scrape_search_page(c, 3)` |
| BrowserScraper.SeleniumScraper.SetupDriver | src/selenium_scraper.py:33-72 | `_setup_driver` launches Chrome and, if that worked, hides the automation flag; true when both succeed; a launched Chrome stays as the driver |
| BrowserScraper.SeleniumScraper.HumanLikeScroll | src/selenium_scraper.py:79-95 | the method does exactly what the scroll function states |
| BrowserScraper.SeleniumScraper.ExtractAll | src/selenium_scraper.py:158-169 | the element loop keeps the records of the elements in order |
| BrowserScraper.SeleniumScraper.ScrapeResultsPage | src/selenium_scraper.py:117-189 | one pass of the page loop: wait, scroll, read, keep records, maybe click next |
| BrowserScraper.SeleniumScraper.ReadResults | src/selenium_scraper.py:141-189 | after the page is read: no containers or no records end the loop, else the records are added and the next page is sought |
| BrowserScraper.SeleniumScraper.ClickNext | src/selenium_scraper.py:177-189 | below the last page the next button is clicked if it exists and is enabled (any element but a form control, or a form control without `disabled`), otherwise the loop ends |
| BrowserScraper.SeleniumScraper.OpenSearchPage | src/selenium_scraper.py:99-115 | the driver is set up when missing, then the homepage and the search are opened with their pauses |
| BrowserScraper.SeleniumScraper.ScrapeSearchPage | src/selenium_scraper.py:97-194 | `scrape_search_page` gives [] when the search cannot be opened, else the products of the page loop |
| BrowserScraper.SeleniumScraper.ScrapePages | src/selenium_scraper.py:117-189 | the `for page` loop runs passes until one stops it or `max_pages` is done |
| BrowserScraper.SeleniumScraper.ScrapeAllCategories | src/selenium_scraper.py:282-298 | every search term in order, with a long pause after every term but the last |
| BrowserScraper.SeleniumScraper.SearchCategory | src/selenium_scraper.py:286-296 | one term: its search, then the long pause unless it is the last term |
| BrowserScraper.SeleniumScraper.Close | src/selenium_scraper.py:311-315 | with a driver, `quit` is sent and the result says whether it succeeded; without one nothing happens |
| BrowserProperties.ScrollFromCommands | src/selenium_scraper.py:87-95 | the scroll loop sends rounds of a scroll and a height read, each scroll `increment` below the previous one |
| BrowserProperties.ScrollFromPauses | src/selenium_scraper.py:87-95 | one short pause after each successful scroll |
| BrowserProperties.ScrollFromHeights | src/selenium_scraper.py:87-95 | every scroll goes below the height read just before it (the first below the starting height); when a loop that scrolled ends normally, its last scroll plus one step reaches the latest height |
| BrowserProperties.ScrollFromReplies | src/selenium_scraper.py:87-95 | the loop ends normally exactly when every script succeeded, and a failure is always its last command |
| BrowserProperties.ScrollSpec | src/selenium_scraper.py:79-95 | `_human_like_scroll` reads the height, then scrolls from the top in steps of 300 to 600, pausing after each scroll, and leaves the driver alone |
| BrowserProperties.ScrollEnds | src/selenium_scraper.py:79-95 | every scroll is below the latest height read; the scroll ends normally exactly when every script succeeds, either at once on a page of height 0 or less, or with a last scroll that one more step would take past the latest height |
| BrowserProperties.ScrollGrowth | src/selenium_scraper.py:79-95 | the scroll sends only height reads and scrolls |
| BrowserProperties.FollowNextSpec | src/selenium_scraper.py:176-189 | below the last page the loop goes on exactly when a next button exists, is enabled (any element but a form control, or a form control without `disabled`) and the click succeeds; on the last page it goes on with nothing sent |
| BrowserScraper.DisabledNextLinkIsEnabled | src/selenium_scraper.py:179-183 | an `a` next link carrying `disabled` is still enabled, so it is clicked |
| BrowserProperties.PageReadShape | src/selenium_scraper.py:154-189 | once the page is read, a pass adds its records and sends at most one click, only below the last page; it goes on only past a page with records |
| BrowserProperties.ResultsPageGrowth | src/selenium_scraper.py:117-189 | a pass only appends page-loop commands and pauses other than the category pause |
| BrowserProperties.ResultsPageShape | src/selenium_scraper.py:117-189 | a pass waits once, then sends scrolls and height reads, at most one page read and a click only after a page read below the last page |
| BrowserProperties.ResultsPageSpec | src/selenium_scraper.py:158-174 | a pass adds exactly the records of the page it read, and goes on only past a page that gave records |
| BrowserProperties.ResultsPageCounts | src/selenium_scraper.py:117-189 | a pass waits for the page once and clicks at most once, never on the last page |
| BrowserProperties.PagesFromGrowth | src/selenium_scraper.py:117-189 | the page loop only appends page-loop commands and pauses, and keeps the driver |
| BrowserProperties.PagesFromSpec | src/selenium_scraper.py:117-189 | the page loop adds exactly the records of the pages it read, in order, whatever ended it |
| BrowserProperties.PagesFromCounts | src/selenium_scraper.py:117-189 | from page p the loop reads at most `max_pages - p + 1` pages and clicks at most `max_pages - p` times |
| BrowserProperties.PageRecordsOf | src/selenium_scraper.py:158-169 | the records of a page are well-formed records of the search term |
| BrowserProperties.SetupSpec | src/selenium_scraper.py:60-72 | `_setup_driver` launches, sends the hiding script only after a successful launch, succeeds exactly when both succeed, and afterwards has a driver exactly when one was there or the launch succeeded |
| BrowserProperties.OpenSearchShape | src/selenium_scraper.py:99-115 | opening a search launches once exactly when there was no driver; an opened search has just sent the homepage and then the search URL |
| BrowserProperties.OpenSearchSession | src/selenium_scraper.py:99-115 | opening a search keeps a driver, has one after a successful launch, and an opened search always has one |
| BrowserProperties.SearchPageSession | src/selenium_scraper.py:97-194 | a search appends no `quit` and no category pause, keeps a driver, launches exactly when there was none, and then has one exactly when the launch succeeded |
| BrowserProperties.SearchPageProducts | src/selenium_scraper.py:97-194 | the products of a search are the records of the pages it read, in order, each a well-formed record of the term |
| BrowserProperties.SearchPageCounts | src/selenium_scraper.py:117-189 | a search reads at most `max_pages` pages and clicks at most `max_pages - 1` times |
| BrowserProperties.SearchPageOpens | src/selenium_scraper.py:105-115 | a search that found products has a driver and opened the homepage and then the search URL |
| BrowserProperties.SearchIsCategorySearch | src/selenium_scraper.py:97-194 | every search with three pages gives what the category loop relies on |
| BrowserProperties.BrowserAllFromSession | src/selenium_scraper.py:282-298 | the category loop only appends, keeps a driver, sends no `quit`, launches at most once per remaining term and never when a driver is there, and reads at most three pages per term |
| BrowserProperties.BrowserAllFromProducts | src/selenium_scraper.py:282-298 | the category loop appends, term after term, well-formed records of each term |
| BrowserProperties.BrowserAllFromPauses | src/selenium_scraper.py:292-296 | with distinct terms, and searches that take no long pause of their own, the category loop from term k adds exactly `len(terms) - 1 - k` long pauses |
| BrowserProperties.BrowserCategoriesSpec | src/selenium_scraper.py:282-298 | over the six terms: well-formed records of the terms in term order, no `quit`, at most six launches and none with a driver already there, at most 18 pages read, five long pauses |
| BrowserProperties.ScrapeAllCategoriesSpec | src/selenium_scraper.py:282-298 | `scrape_all_categories()` of a new scraper: records of the six terms in term order, no `quit`, at most six launches and 18 pages read, five long pauses |
| Entry.RunSeleniumScraper | main.py:17-34 | `run_selenium_scraper` returns the scrape when it is non-empty, `close` succeeded and the file was saved, and [] otherwise |
| Entry.SeleniumScrapeSpec | main.py:21-22 | the category loop of a new scraper gives well-formed records of the search terms, in term order |
| Entry.SeleniumRunSpec | main.py:17-34 | the result is well-formed records of the search terms in term order; a non-empty result is the whole scrape and was saved; closing and saving successfully give the whole scrape |
| Entry.FirstAppearances | main.py:44-49 | the key order of the tally has no repetitions and holds exactly the categories that occur |
| Entry.TallyCategories | main.py:44-49 | the loop gives the keys in first-appearance order; a key is present exactly when its category occurs, with its number of products (at least 1), and the counts add up to the number of products |
| Entry.TotalOfFirstAppearances | main.py:44-53 | the counts of the distinct categories add up to the number of products |
| Entry.FirstAppearancesInTermOrder | main.py:44-53 | for products in term order the categories first appear in strictly increasing term position |
| Entry.TallyReport | main.py:44-53 | for products of the terms in term order, the report has one line per category with products, in term order, at most one per term, with counts that add up to the number of products |
| Entry.ReportSpec | main.py:41-53 | the report printed after a Selenium run lists search terms with products in `search_terms` order, at most six, with counts adding up to the number of products |
| Entry.Samples | main.py:56 | `products[:3]` is the first three products, or all when there are fewer |
| Entry.RunMain | main.py:37-67 | the exit code is 1 exactly when the Selenium run returned nothing and 0 otherwise; with products the tally and the samples are those of the products |

## Left out

- The network, Chrome and the file system. The site is the oracle `server(n)` and the browser is the oracle `browser(n)`. A reply carries its status, content type and the parsed tree, or the page the browser shows.
- HTML parsing. The tree BeautifulSoup builds and each fallback decoding are part of the response. Parser differences between `html` and `lxml` are not modelled. The tree has one kind of string: comments, `<script>` and `<style>` contents are assumed absent. BeautifulSoup skips them in `get_text()` but matches them in `find(text=...)`, so `<span><!-- 12 € --></span>` gives no price in the program.
- Selenium's CSS engine. `.text` is the stripped text of the subtree, its strings joined as they are, with no CSS visibility. WebDriver collapses runs of white space and puts line breaks between block children, which the model does not.
- BrowserScraper.Enabled: `is_enabled()` is true for every element that is not a form control (button, input, select, textarea, optgroup, option), and for a form control exactly when it has no `disabled` attribute. WebDriver also reports as disabled a form control inside a `<fieldset disabled>` (outside its first legend) and an option inside a disabled optgroup; the model does not, and clicks such a next button where the program stops.
- ClickNext (BrowserScraper.SeleniumScraper.ClickNext): inherits the BrowserScraper.Enabled gap, so a next button disabled only through an enclosing fieldset or optgroup is clicked in the model but not in the program.
- FollowNextSpec (BrowserProperties.FollowNextSpec): states "enabled" as BrowserScraper.Enabled does, with the same fieldset and optgroup gap.
- BrowserExtract.PageUrl: `get_attribute("href")` and `get_attribute("src")` are modelled as `urljoin` against the site's origin, with the attribute as written where that raises. A browser resolves a non-empty attribute by the URL standard against the current page, so a relative path is read against the search page's path rather than the origin. An empty attribute is returned as "" in both.
- Each `ReadPage` command reads one snapshot of the page. `find_elements` and `find_element` as used here never raise, so the exception branch at src/selenium_scraper.py:151-152 cannot be taken. No product element raises while it is read, so the branch at src/selenium_scraper.py:167-169 cannot be taken either.
- Sleeps and randomness. The length of a pause is not kept, only its kind and the range it is drawn from (Pacing.Bounds). The user agent chosen by `_setup_session` is not kept, only how often the headers were re-randomised. The header values themselves are left out.
- The scroll step of `_human_like_scroll` comes from an oracle whose values lie in 300..600.
- BrowserScraper.SeleniumScraper: the class, its constructor and every method that scrolls, together with the functions Scroll, ScrollFrom, ResultsPage, PagesFrom, SearchPage and SearchList and every BrowserProperties lemma about them (ScrollSpec and the page, search and category lemmas), assume that the browser never reports a page height above a fixed bound (HeightsBounded). On a page that keeps growing, `_human_like_scroll` never returns; the model needs the bound to terminate and says nothing about that case.
- Prices are exact decimals (`real`). The rounding of `float()` is not modelled.
- Price.PriceValue: a digit is an ASCII `0`-`9` (Strings.IsDigit), and so for Price.ExtractPrice and BrowserExtract.PriceAt. Python's `\d` and `float()` also accept every other Unicode decimal digit, so full-width `１２,５０ €` reads as 12.5 in the program and as no price in the model; "no digit" in the Price rows means no ASCII digit.
- Case-insensitive matching (`re.I`, `lower()`) folds only ASCII and Latin-1 letters.
- Url.Resolve: `urljoin` is modelled only for the bare `https` origin these scrapers pass as the base, so a base with a path, query or fragment is left out.
- Url.Resolve: `urlsplit`'s NFKC check on a non-ASCII authority (`_checknetloc`) is not modelled. Such an authority, which raises ValueError when a character normalises to `/`, `?`, `#`, `@` or `:`, resolves in the model.
- RequestsProperties.AllFromPauses: the number of long pauses is proved, not where each falls. That one follows every category but the last is what the category loop's definition (AllFrom) states.
- BrowserProperties.BrowserAllFromPauses: the number of long pauses is proved, not where each falls. That one follows every term but the last is what BrowserAllFrom states.
- `save_to_json` is the `saved` parameter, true when writing the file succeeded. The JSON layout and the timestamp are not modelled.
- `print` output is not modelled. RunMain returns the tally and samples that `main()` prints, and the `or 'N/A'` formatting is left out.
- The `except ImportError` branch of `run_selenium_scraper` is left out, because the model of the Selenium scraper is always present.
- An exception from `close()` is modelled as `Close` returning false, which makes `run_selenium_scraper` return [].
- `run_requests_scraper` (main.py:5-14) is not modelled. `main()` never calls it, and the requests scraper it drives is modelled on its own.
- `scrape_search_terms` and `scrape_single_search` (src/scraper.py:410-429) are not modelled. The first calls `.items()` on a list and passes three arguments to a two-argument method. The second passes three arguments to the same method. Both raise before doing any work.
- The duplicate src/material_scraper/selenium_scraper.py is byte-identical to src/selenium_scraper.py, so the one model covers both. The package `__init__` files only re-export names and are not modelled.
