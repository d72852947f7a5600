/**
 * `_extract_product_from_element` of the Selenium scraper: one product element becomes a
 * record or nothing. The name is the first selector whose element has text, the price the
 * first selector whose element text holds a number; link and image are read as attributes;
 * brand and unit are always empty.
 */
module BrowserExtract {
  import opened Wrappers
  import opened Strings
  import opened Dom
  import opened Selectors
  import opened Url
  import opened Price
  import opened Product
  import opened Site
  import Extract

  /** `element.text.strip()`: the text of the element, stripped */
  function ElementText(e: Node): string {
    Strip(TextOf(e))
  }

  // ----- name -----

  predicate IsProductNameClass(n: Node) {
    HasClass(n, "product-name")
  }

  predicate IsProductTitleClass(n: Node) {
    HasClass(n, "product-title")
  }

  predicate IsH3(n: Node) {
    IsTag(n, "h3")
  }

  predicate IsH2(n: Node) {
    IsTag(n, "h2")
  }

  /** `name_selectors`: `p[data-testid='product-name']`, `.product-name`, `.product-title`, `h3`, `h2`, `a` */
  const NameSelectors: seq<Node -> bool> :=
    [Extract.IsNameByTestId, IsProductNameClass, IsProductTitleClass, IsH3, IsH2, Extract.IsLink]

  /** The stripped text of the element a selector finds in `c`, "" when it finds none */
  function NameText(c: Node): (Node -> bool) -> string {
    (sel: Node -> bool) => if Find(c, sel).Some? then ElementText(Find(c, sel).value) else ""
  }

  /** The name: the text of the first selector that finds an element with text, or "" */
  function Name(c: Node): string {
    FirstNonEmptyBy(NameText(c), NameSelectors)
  }

  // ----- price -----

  predicate IsPriceClass(n: Node) {
    HasClass(n, "price")
  }

  predicate IsProductPriceClass(n: Node) {
    HasClass(n, "product-price")
  }

  /** `*[class*='price']` */
  predicate IsAnyPriceClass(n: Node) {
    ClassHasSubstring(n, "price")
  }

  /** `price_selectors`: `span[data-testid='product-price']`, `.price`, `.product-price`, `*[class*='price']` */
  const PriceSelectors: seq<Node -> bool> :=
    [Extract.IsPriceByTestId, IsPriceClass, IsProductPriceClass, IsAnyPriceClass]

  /** The number in the text of the element a selector finds in `c`, if it finds one and the text holds digits */
  function PriceAt(c: Node, sel: Node -> bool): Option<real> {
    match Find(c, sel)
    case None => None
    case Some(e) => PriceValue(ElementText(e))
  }

  /** The number a selector gives in `c`, as a function of the selector */
  function PriceIn(c: Node): (Node -> bool) -> Option<real> {
    (sel: Node -> bool) => PriceAt(c, sel)
  }

  /** The price candidate: the number of the first selector that gives one */
  function PriceOf(c: Node): Option<real> {
    FirstSomeBy(PriceIn(c), PriceSelectors)
  }

  // ----- link and image -----

  /**
   * A URL attribute as the browser reports it: resolved against the site's origin, or as
   * written where it does not parse
   */
  function PageUrl(ref: string): (r: string)
    ensures Resolve(BaseOrigin, ref).Some? ==> Resolved(BaseOrigin, r)
    ensures Resolve(BaseOrigin, ref).None? ==> r == ref
  {
    BaseOriginValid();
    ResolveIsAbsolute(BaseOrigin, ref);
    Resolve(BaseOrigin, ref).GetOr(ref)
  }

  /**
   * `get_attribute("href")`: None without an `href`, "" for an empty one (the browser resolves
   * only a non-empty link), and otherwise the link resolved
   */
  function Href(a: Node): (r: Option<string>)
    ensures r.None? <==> Attr(a, "href").None?
    ensures Attr(a, "href") == Some("") ==> r == Some("")
    ensures r.Some? && r.value != "" ==> Resolved(BaseOrigin, r.value) || Resolve(BaseOrigin, r.value).None?
  {
    if HasValue(a, "href") then Some(PageUrl(Attr(a, "href").value)) else Attr(a, "href")
  }

  /** `get_attribute("src") or get_attribute("data-src")`: a non-empty `src`, resolved, else `data-src` as written */
  function ImageAttr(img: Node): Option<string> {
    if HasValue(img, "src") then Some(PageUrl(Attr(img, "src").value)) else Attr(img, "data-src")
  }

  /** The product URL: "" without a link, else its `href` */
  function LinkUrl(c: Node): Option<string> {
    match Find(c, Extract.IsLink)
    case None => Some("")
    case Some(a) => Href(a)
  }

  /** A link is "" without an `a` element, and otherwise absent, absolute, or as written when it does not parse. */
  lemma LinkUrlShape(c: Node)
    ensures var u := LinkUrl(c);
      && (Find(c, Extract.IsLink).None? ==> u == Some(""))
      && (u.Some? && u.value != "" ==> Resolved(BaseOrigin, u.value) || Resolve(BaseOrigin, u.value).None?)
  {
  }

  /** The image URL: "" without an image, else its `src` or `data-src` */
  function ImageUrl(c: Node): Option<string> {
    match Find(c, Extract.IsImage)
    case None => Some("")
    case Some(img) => ImageAttr(img)
  }

  // ----- the record -----

  /** What `_extract_product_from_element(element, category)` returns */
  function BrowserRecord(c: Node, category: string): Option<ProductRecord> {
    var name := Name(c);
    if name == "" then None
    else
      match PriceOf(c)
      case None => None
      case Some(price) =>
        if price == 0.0 then None
        else Some(ProductRecord(name, category, price, Currency, LinkUrl(c), "", "", ImageUrl(c)))
  }

  /** `_extract_product_from_element(element, category)`: the name loop, the price loop, link and image */
  method ExtractProductFromElement(element: Node, category: string) returns (r: Option<ProductRecord>)
    ensures r == BrowserRecord(element, category)
  {
    var name := ReadName(element);
    if name == "" {
      return None;
    }
    var price := ReadPrice(element);
    if price.None? || price.value == 0.0 {
      return None;
    }
    var productUrl := Some("");
    var link := Find(element, Extract.IsLink);
    if link.Some? {
      productUrl := Href(link.value);
    }
    var imageUrl := Some("");
    var img := Find(element, Extract.IsImage);
    if img.Some? {
      imageUrl := ImageAttr(img.value);
    }
    r := Some(ProductRecord(name, category, price.value, Currency, productUrl, "", "", imageUrl));
  }

  /** The `for selector in name_selectors` loop: stop at the first element with text */
  method ReadName(element: Node) returns (name: string)
    ensures name == Name(element)
  {
    name := "";
    for i := 0 to |NameSelectors|
      invariant name == ""
      invariant Name(element) == FirstNonEmptyBy(NameText(element), NameSelectors[i..])
    {
      var found := Find(element, NameSelectors[i]);
      if found.Some? {
        name := ElementText(found.value);
        if name != "" {
          return;
        }
      }
      assert NameSelectors[i..][1..] == NameSelectors[i + 1..];
    }
  }

  /** The `for selector in price_selectors` loop: stop at the first element whose text holds a number */
  method ReadPrice(element: Node) returns (price: Option<real>)
    ensures price == PriceOf(element)
  {
    price := None;
    for i := 0 to |PriceSelectors|
      invariant price.None?
      invariant PriceOf(element) == FirstSomeBy(PriceIn(element), PriceSelectors[i..])
    {
      var found := Find(element, PriceSelectors[i]);
      if found.Some? {
        var value := PriceValue(ElementText(found.value));
        if value.Some? {
          price := value;
          return;
        }
      }
      assert PriceSelectors[i..][1..] == PriceSelectors[i + 1..];
    }
  }

  // ----- what the record is -----

  /**
   * The name is "" exactly when no selector finds an element with text, and is otherwise the
   * text of the first selector that does; selectors before it find nothing or only blank text.
   */
  lemma NameIsFirstWithText(c: Node)
    ensures Name(c) == "" <==> forall k | 0 <= k < |NameSelectors| :: NameText(c)(NameSelectors[k]) == ""
    ensures Name(c) != "" ==> exists k | 0 <= k < |NameSelectors| ::
      && Find(c, NameSelectors[k]).Some? && ElementText(Find(c, NameSelectors[k]).value) == Name(c)
      && forall j | 0 <= j < k :: NameText(c)(NameSelectors[j]) == ""
  {
    FirstNonEmptyByIsFirst(NameText(c), NameSelectors);
  }

  /**
   * The price candidate is what the first selector that gives a number gives; selectors
   * before it find nothing or text without digits.
   */
  lemma PriceIsFirstWithNumber(c: Node)
    ensures PriceOf(c).None? <==> forall k | 0 <= k < |PriceSelectors| :: PriceAt(c, PriceSelectors[k]).None?
    ensures PriceOf(c).Some? ==> exists k | 0 <= k < |PriceSelectors| ::
      PriceOf(c) == PriceAt(c, PriceSelectors[k]) && forall j | 0 <= j < k :: PriceAt(c, PriceSelectors[j]).None?
  {
    FirstSomeByIsFirst(PriceIn(c), PriceSelectors);
  }

  /** A selector gives a number exactly when it finds an element whose text holds a digit; the number is never negative. */
  lemma PriceAtSpec(c: Node, sel: Node -> bool)
    ensures PriceAt(c, sel).Some? <==> Find(c, sel).Some? && HasDigit(ElementText(Find(c, sel).value))
    ensures PriceAt(c, sel).Some? ==> PriceAt(c, sel) == PriceValue(ElementText(Find(c, sel).value)) && PriceAt(c, sel).value >= 0.0
  {
  }

  /** The price candidate is never negative. */
  lemma PriceNonNegative(c: Node)
    ensures PriceOf(c).Some? ==> PriceOf(c).value >= 0.0
  {
    PriceIsFirstWithNumber(c);
    if PriceOf(c).Some? {
      var k :| 0 <= k < |PriceSelectors| && PriceOf(c) == PriceAt(c, PriceSelectors[k]);
      PriceAtSpec(c, PriceSelectors[k]);
    }
  }

  /**
   * A record comes out exactly when some selector gives a name and the first number found
   * is not zero; it carries the category, euros, an empty brand and unit, and a link that is
   * "" without an `a` element and otherwise absent, absolute, or as written when it does not
   * parse.
   */
  lemma BrowserRecordSpec(c: Node, category: string)
    ensures var r := BrowserRecord(c, category);
      && (r.Some? <==> Name(c) != "" && PriceOf(c).Some? && PriceOf(c).value != 0.0)
      && (r.Some? ==> WellFormedRecord(r.value) && r.value.category == category)
      && (r.Some? ==> r.value.name == Name(c) && PriceOf(c) == Some(r.value.price))
      && (r.Some? ==> r.value.brand == "" && r.value.unit == "")
      && (r.Some? && Find(c, Extract.IsLink).None? ==> r.value.productUrl == Some(""))
      && (r.Some? && Find(c, Extract.IsImage).None? ==> r.value.imageUrl == Some(""))
      && (r.Some? && r.value.productUrl.Some? && r.value.productUrl.value != "" ==>
            Resolved(BaseOrigin, r.value.productUrl.value) || Resolve(BaseOrigin, r.value.productUrl.value).None?)
  {
    PriceNonNegative(c);
    LinkUrlShape(c);
  }

  /**
   * A zero from the first selector whose text holds a number discards the element, whatever
   * later selectors would give.
   */
  lemma ZeroPriceDiscards(c: Node, category: string, k: nat)
    requires k < |PriceSelectors| && PriceAt(c, PriceSelectors[k]) == Some(0.0)
    requires forall j | 0 <= j < k :: PriceAt(c, PriceSelectors[j]).None?
    ensures BrowserRecord(c, category).None?
  {
    PriceIsFirstWithNumber(c);
    assert PriceOf(c).Some?;
    var k' :| 0 <= k' < |PriceSelectors| && PriceOf(c) == PriceAt(c, PriceSelectors[k']) && forall j | 0 <= j < k' :: PriceAt(c, PriceSelectors[j]).None?;
    if k' < k || k < k' {
      assert false;
    }
    assert PriceOf(c) == Some(0.0);
  }
}
