/**
 * `extract_product_data` of the requests scraper: one product card (a container element)
 * becomes a record or nothing. Each field is read through an ordered fallback chain of
 * `find` queries, the first one that finds an element winning.
 */
module Extract {
  import opened Wrappers
  import opened Strings
  import opened Dom
  import opened Selectors
  import opened Url
  import opened Price
  import opened Regex
  import opened Product
  import opened Site

  // ----- name -----

  predicate IsNameByTestId(n: Node) {
    TagWithAttr(n, "p", "data-testid", "product-name")
  }

  /** `re.compile(r'title|name|product', re.I)` */
  predicate NamePattern(cls: string) {
    SearchCI(cls, "title") || SearchCI(cls, "name") || SearchCI(cls, "product")
  }

  predicate IsNameByClass(n: Node) {
    TagsWithClass(n, {"h3", "h2", "h4", "span", "a"}, NamePattern)
  }

  predicate IsLink(n: Node) {
    IsTag(n, "a")
  }

  /** The name element: by test id, else a heading, span or link whose class looks like a name, else the first link. */
  function NameElement(c: Node): (r: Option<Node>)
    ensures r.Some? ==> IsDescendant(r.value, c)
  {
    if Find(c, IsNameByTestId).Some? then Find(c, IsNameByTestId)
    else if Find(c, IsNameByClass).Some? then Find(c, IsNameByClass)
    else Find(c, IsLink)
  }

  // ----- price -----

  predicate IsPriceByTestId(n: Node) {
    TagWithAttr(n, "span", "data-testid", "product-price")
  }

  predicate IsPrimaryPrice(n: Node) {
    TagWithAttr(n, "span", "data-testid", "primary-price")
  }

  /** `re.compile(r'price', re.I)` */
  predicate PricePattern(cls: string) {
    SearchCI(cls, "price")
  }

  predicate IsPriceByClass(n: Node) {
    TagsWithClass(n, {"span", "div"}, PricePattern)
  }

  /** `re.compile(r'€')` */
  predicate HasEuro(s: string) {
    Contains(s, "€")
  }

  /** The product-price span looked up inside the primary-price span */
  function NestedPrice(c: Node): Option<Node> {
    match Find(c, IsPrimaryPrice)
    case None => None
    case Some(p) => Find(p, IsPriceByTestId)
  }

  /** The element holding the first string that contains a euro sign */
  function EuroParent(c: Node): Option<Node> {
    match FindString(c, HasEuro)
    case None => None
    case Some(v) => Some(v.parent)
  }

  /** The price element: by test id, else inside primary-price, else by class, else around a euro sign. */
  function PriceElement(c: Node): Option<Node> {
    if Find(c, IsPriceByTestId).Some? then Find(c, IsPriceByTestId)
    else if NestedPrice(c).Some? then NestedPrice(c)
    else if Find(c, IsPriceByClass).Some? then Find(c, IsPriceByClass)
    else EuroParent(c)
  }

  /** `price_elem.get_text(strip=True) if price_elem else ""` */
  function PriceText(c: Node): string {
    match PriceElement(c)
    case None => ""
    case Some(e) => StrippedText(e)
  }

  /**
   * The lookup inside `primary-price` can never find anything: it is reached only when no
   * `product-price` span exists anywhere in the card, and the primary-price span is part of
   * the card. So the price chain behaves as if that step were not there.
   */
  lemma PrimaryPriceLookupIsDead(c: Node)
    ensures Find(c, IsPriceByTestId).None? ==> NestedPrice(c).None?
    ensures PriceElement(c) == (
      if Find(c, IsPriceByTestId).Some? then Find(c, IsPriceByTestId)
      else if Find(c, IsPriceByClass).Some? then Find(c, IsPriceByClass)
      else EuroParent(c))
  {
    if Find(c, IsPriceByTestId).None? && Find(c, IsPrimaryPrice).Some? {
      FindInsideDescendant(c, Find(c, IsPrimaryPrice).value, IsPriceByTestId);
    }
  }

  // ----- url -----

  predicate IsProductLink(n: Node) {
    TagWithAttr(n, "a", "data-testid", "product-link")
  }

  /**
   * The link element: by test id, else the name element when it is a link, else the first link.
   * It is always an anchor, either the name element or one inside the card, and for a name
   * element of the card there is none exactly when the card holds no anchor at all.
   */
  function UrlElement(c: Node, nameElem: Node): (r: Option<Node>)
    ensures r.Some? ==> IsLink(r.value)
    ensures r.Some? ==> r.value == nameElem || IsDescendant(r.value, c)
    ensures IsLink(nameElem) ==> r.Some?
    ensures IsDescendant(nameElem, c) ==> (r.None? <==> Find(c, IsLink).None?)
  {
    match Find(c, IsProductLink)
    case Some(u) =>
      assert Find(c, IsLink).Some? by { DescendantFound(c, u, IsLink); }
      Some(u)
    case None =>
      if IsLink(nameElem) then
        assert IsDescendant(nameElem, c) ==> Find(c, IsLink).Some? by {
          if IsDescendant(nameElem, c) { DescendantFound(c, nameElem, IsLink); }
        }
        Some(nameElem)
      else Find(c, IsLink)
  }

  /**
   * A present, non-empty `href` resolved against the base URL, otherwise "". None where
   * `urljoin` raises, which discards the card.
   */
  function ProductUrl(urlElem: Option<Node>): (r: Option<string>)
    ensures r.Some? && r.value != "" ==> Resolved(BaseOrigin, r.value)
    ensures r == Some("") <==> !(urlElem.Some? && HasValue(urlElem.value, "href"))
    ensures r.None? <==> urlElem.Some? && HasValue(urlElem.value, "href") && !NetlocValid(RefAuthority(Attr(urlElem.value, "href").value))
  {
    BaseOriginValid();
    if urlElem.Some? && HasValue(urlElem.value, "href") then
      var ref := Attr(urlElem.value, "href").value;
      ResolveIsAbsolute(BaseOrigin, ref);
      ResolveFails(BaseOrigin, ref);
      assert Resolve(BaseOrigin, ref).Some? ==> Resolve(BaseOrigin, ref).value != [] by {
          if Resolve(BaseOrigin, ref).Some? { ResolvedNonEmpty(BaseOrigin, Resolve(BaseOrigin, ref).value); }
        }
      Resolve(BaseOrigin, ref)
    else Some("")
  }

  // ----- brand -----

  predicate IsSellerInfo(n: Node) {
    TagWithAttr(n, "p", "data-testid", "seller-info")
  }

  /** `re.compile(r'brand|marque|seller', re.I)` */
  predicate BrandPattern(cls: string) {
    SearchCI(cls, "brand") || SearchCI(cls, "marque") || SearchCI(cls, "seller")
  }

  predicate IsBrandByClass(n: Node) {
    TagsWithClass(n, {"span", "div", "p"}, BrandPattern)
  }

  /** The seller-info paragraph, else a span, div or paragraph whose class looks like a brand; its stripped text or "". */
  function Brand(c: Node): (r: string)
    ensures Find(c, IsSellerInfo).Some? ==> r == StrippedText(Find(c, IsSellerInfo).value)
    ensures Find(c, IsSellerInfo).None? && Find(c, IsBrandByClass).None? ==> r == ""
  {
    if Find(c, IsSellerInfo).Some? then StrippedText(Find(c, IsSellerInfo).value)
    else if Find(c, IsBrandByClass).Some? then StrippedText(Find(c, IsBrandByClass).value)
    else ""
  }

  // ----- image -----

  predicate IsProductImage(n: Node) {
    TagWithAttr(n, "img", "data-testid", "product-image")
  }

  predicate IsImage(n: Node) {
    IsTag(n, "img")
  }

  /** The reference an image is read from: `src`, else `data-src`, else the first URL of `srcset`. */
  function ImageSource(img: Node): (r: Option<string>)
    ensures r.Some? ==> r.value != ""
    ensures HasValue(img, "src") ==> r == Attr(img, "src")
    ensures !HasValue(img, "src") && HasValue(img, "data-src") ==> r == Attr(img, "data-src")
    ensures !HasValue(img, "src") && !HasValue(img, "data-src") && r.Some? ==>
      HasValue(img, "srcset") && ',' !in r.value && ' ' !in r.value
      && StartsWith(Attr(img, "srcset").value, r.value)
      && (|r.value| == |Attr(img, "srcset").value| || Attr(img, "srcset").value[|r.value|] in {',', ' '})
    ensures !HasValue(img, "src") && !HasValue(img, "data-src") && r.None? ==>
      !HasValue(img, "srcset") || Attr(img, "srcset").value[0] in {',', ' '}
  {
    if HasValue(img, "src") then Attr(img, "src")
    else if HasValue(img, "data-src") then Attr(img, "data-src")
    else if HasValue(img, "srcset") then
      var set_ := Attr(img, "srcset").value;
      var upToComma := Before(set_, ',');
      var first := Before(upToComma, ' ');
      assert set_[..|first|] == upToComma[..|first|];
      assert |first| < |set_| ==> set_[|first|] in {',', ' '} by {
        if |first| < |upToComma| {
          assert set_[|first|] == upToComma[|first|];
        }
      }
      if first != "" then Some(first) else None
    else None
  }

  /** The image element: by test id, else the first image */
  function ImageElement(c: Node): (r: Option<Node>)
    ensures r.Some? ==> IsImage(r.value) && IsDescendant(r.value, c)
    ensures r.None? <==> Find(c, IsImage).None?
  {
    match Find(c, IsProductImage)
    case Some(img) =>
      assert Find(c, IsImage).Some? by { DescendantFound(c, img, IsImage); }
      Some(img)
    case None => Find(c, IsImage)
  }

  /**
   * The image's source resolved, or "" without an image or a source. None where `urljoin`
   * raises, which discards the card.
   */
  function ImageUrl(c: Node): (r: Option<string>)
    ensures r.Some? && r.value != "" ==> Resolved(BaseOrigin, r.value)
    ensures r == Some("") <==> ImageElement(c).None? || ImageSource(ImageElement(c).value).None?
    ensures r.None? <==> (ImageElement(c).Some? && ImageSource(ImageElement(c).value).Some?
      && !NetlocValid(RefAuthority(ImageSource(ImageElement(c).value).value)))
  {
    BaseOriginValid();
    match ImageElement(c)
    case None => Some("")
    case Some(img) =>
      match ImageSource(img)
      case None => Some("")
      case Some(ref) =>
        ResolveIsAbsolute(BaseOrigin, ref);
        ResolveFails(BaseOrigin, ref);
        assert Resolve(BaseOrigin, ref).Some? ==> Resolve(BaseOrigin, ref).value != [] by {
          if Resolve(BaseOrigin, ref).Some? { ResolvedNonEmpty(BaseOrigin, Resolve(BaseOrigin, ref).value); }
        }
        Resolve(BaseOrigin, ref)
  }

  // ----- unit -----

  /** `(m²|m2|pièce|unité|l|kg|kit|lot)` */
  const UnitAlternatives: seq<string> := ["m²", "m2", "pièce", "unité", "l", "kg", "kit", "lot"]

  /** `(kit|lot|pack|set)` */
  const NameUnitAlternatives: seq<string> := ["kit", "lot", "pack", "set"]

  /** What the proofs use of the unit pattern: no empty alternative, and "l" before "lot", the only "lot". */
  lemma UnitAlternativesShape()
    ensures |UnitAlternatives| == 8
    ensures forall a | 0 <= a < 8 :: UnitAlternatives[a] != []
    ensures UnitAlternatives[4] == "l" && UnitAlternatives[7] == "lot"
    ensures UnitAlternatives[7][..|UnitAlternatives[4]|] == UnitAlternatives[4]
    ensures forall a | 0 <= a < 7 :: UnitAlternatives[a] != "lot"
  {
    assert UnitAlternatives[7][..1] == "l";
  }

  /** The case-insensitive unit pattern finds a match in `s`. */
  predicate MentionsUnit(s: string) {
    Matches(Lower(s), UnitAlternatives)
  }

  /** The unit written in the first string that mentions one, as written there */
  function UnitFromText(c: Node): (r: string)
    ensures r != "" <==> FindString(c, MentionsUnit).Some?
  {
    match FindString(c, MentionsUnit)
    case None => ""
    case Some(v) =>
      var s := v.node.content;
      UnitAlternativesShape();
      GroupNonEmpty(s, Lower(s), UnitAlternatives);
      Group(s, Lower(s), UnitAlternatives).value
  }

  /** The unit of a card: from its text, else kit/lot/pack/set in the lower-cased name, else "". */
  function Unit(c: Node, name: string): (r: string)
    ensures UnitFromText(c) != "" ==> r == UnitFromText(c)
    ensures r == "" <==> UnitFromText(c) == "" && !Matches(Lower(name), NameUnitAlternatives)
  {
    GroupNonEmpty(Lower(name), Lower(name), NameUnitAlternatives);
    var fromText := UnitFromText(c);
    if fromText != "" then fromText
    else Group(Lower(name), Lower(name), NameUnitAlternatives).GetOr("")
  }

  // ----- the record -----

  /** Everything the record depends on: a name element with text and a positive price. */
  predicate HasNameAndPrice(c: Node) {
    && NameElement(c).Some? && StrippedText(NameElement(c).value) != ""
    && ExtractPrice(PriceText(c)).Some? && ExtractPrice(PriceText(c)).value > 0.0
  }

  /** `urljoin` raises on neither the link nor the image of a card whose name element is `nameElem` */
  predicate LinksResolve(c: Node, nameElem: Node) {
    ProductUrl(UrlElement(c, nameElem)).Some? && ImageUrl(c).Some?
  }

  /** `extract_product_data(container, category_name)` */
  function ExtractProductData(c: Node, category: string): Option<ProductRecord> {
    match NameElement(c)
    case None => None
    case Some(nameElem) =>
      var name := StrippedText(nameElem);
      if name == "" then None
      else
        match ExtractPrice(PriceText(c))
        case None => None
        case Some(price) =>
          if price == 0.0 then None
          else
            match ProductUrl(UrlElement(c, nameElem))
            case None => None
            case Some(url) =>
              match ImageUrl(c)
              case None => None
              case Some(image) =>
                Some(ProductRecord(name, category, price, Currency, Some(url), Brand(c), Unit(c, name), Some(image)))
  }

  /**
   * A record comes out exactly when the chosen name element has text, the chosen price
   * element reads as a positive number and `urljoin` accepts the link and the image; brand,
   * a missing link and a missing image only leave fields empty and never discard the card.
   */
  lemma ExtractProductDataSpec(c: Node, category: string)
    ensures var r := ExtractProductData(c, category);
      && (r.Some? <==> HasNameAndPrice(c) && LinksResolve(c, NameElement(c).value))
      && (r.Some? ==> WellFormedRecord(r.value) && r.value.category == category)
      && (r.Some? ==> (r.value.name == StrippedText(NameElement(c).value)
        && ExtractPrice(PriceText(c)) == Some(r.value.price)
        && r.value.productUrl == ProductUrl(UrlElement(c, NameElement(c).value))
        && r.value.brand == Brand(c) && r.value.imageUrl == ImageUrl(c)
        && r.value.unit == Unit(c, r.value.name)))
  {
  }

  /** The name is taken from the first candidate even when it is blank: no later candidate is tried. */
  lemma BlankNameDiscards(c: Node, category: string)
    requires Find(c, IsNameByTestId).Some? && StrippedText(Find(c, IsNameByTestId).value) == ""
    ensures ExtractProductData(c, category).None?
  {
  }

  /** Links and images of a record are "" or absolute URLs on the site's scheme. */
  lemma RecordUrlsAbsolute(c: Node, category: string)
    requires ExtractProductData(c, category).Some?
    ensures var r := ExtractProductData(c, category).value;
      && r.productUrl.Some? && r.imageUrl.Some?
      && (r.productUrl.value == "" || Resolved(BaseOrigin, r.productUrl.value))
      && (r.imageUrl.value == "" || Resolved(BaseOrigin, r.imageUrl.value))
  {
  }

  /** A unit read from a string is never "lot", in any case: "l" is tried first at the same place. */
  lemma UnitMatchNeverLot(s: string)
    requires Group(s, Lower(s), UnitAlternatives).Some?
    ensures Lower(Group(s, Lower(s), UnitAlternatives).value) != "lot"
  {
    GroupIsAlternative(s, UnitAlternatives);
    var h :| IsLeftmostFirst(Lower(s), UnitAlternatives, h)
      && Lower(Group(s, Lower(s), UnitAlternatives).value) == UnitAlternatives[h.alt];
    UnitAlternativesShape();
    ShadowedAlternative(Lower(s), UnitAlternatives, h, 4, 7);
  }

  /** The unit taken from the card's text is never "lot", in any case. */
  lemma TextUnitNeverLot(c: Node)
    ensures Lower(UnitFromText(c)) != "lot"
  {
    if FindString(c, MentionsUnit).Some? {
      UnitMatchNeverLot(FindString(c, MentionsUnit).value.node.content);
    }
  }

  /** A letter l, of either case, in the name means the card's text mentions a unit. */
  lemma LetterLInNameMentionsUnit(c: Node, e: Node, j: nat)
    requires IsDescendant(e, c) && j < |StrippedText(e)| && LowerChar(StrippedText(e)[j]) == 'l'
    ensures FindString(c, MentionsUnit).Some?
  {
    var ch := StrippedText(e)[j];
    NameCharInCardString(c, e, ch);
    var k :| 0 <= k < |Walk(c)| && Walk(c)[k].node.TextNode? && ch in Walk(c)[k].node.content;
    var s := Walk(c)[k].node.content;
    assert MentionsUnit(s) by {
      var i :| 0 <= i < |s| && s[i] == ch;
      MentionsUnitByL(s, i);
    }
  }

  /** A character of a descendant's stripped text is a character of one of the card's strings. */
  lemma NameCharInCardString(c: Node, e: Node, ch: char)
    requires IsDescendant(e, c) && ch in StrippedText(e)
    ensures exists k | 0 <= k < |Walk(c)| :: Walk(c)[k].node.TextNode? && ch in Walk(c)[k].node.content
  {
    StrippedTextFromStrings(e, ch);
    StringInsideDescendant(c, e, ch);
  }

  /** An l at `i` is already a match of the unit pattern. */
  lemma MentionsUnitByL(s: string, i: nat)
    requires i < |s| && LowerChar(s[i]) == 'l'
    ensures MentionsUnit(s)
  {
    assert Lower(s)[i..i + 1] == "l";
    assert UnitAlternatives[4] == "l";
    assert OccursAt(Lower(s), UnitAlternatives[4], i);
    assert AnyAltAt(Lower(s), UnitAlternatives, i);
  }

  lemma LowerCharL(ch: char)
    requires LowerChar(ch) == 'l'
    ensures ch == 'l' || ch == 'L'
  {
  }

  /**
   * The name fallback yields "lot" only when the name holds an l, and then the card's text
   * already mentions a unit, so the fallback is not used.
   */
  lemma NameUnitNeverLot(c: Node, e: Node)
    requires IsDescendant(e, c)
    ensures || FindString(c, MentionsUnit).Some?
            || Lower(Group(Lower(StrippedText(e)), Lower(StrippedText(e)), NameUnitAlternatives).GetOr("")) != "lot"
  {
    var name := StrippedText(e);
    if j :| 0 <= j < |name| && LowerChar(name[j]) == 'l' {
      LetterLInNameMentionsUnit(c, e, j);
    } else {
      NoLetterLNoLot(name);
    }
  }

  /** Without an l in the name, the name fallback never yields "lot". */
  lemma NoLetterLNoLot(name: string)
    requires forall j | 0 <= j < |name| :: LowerChar(name[j]) != 'l'
    ensures Lower(Group(Lower(name), Lower(name), NameUnitAlternatives).GetOr("")) != "lot"
  {
    GroupAvoidsL(name, NameUnitAlternatives);
  }

  /** A match found in a lower-cased string without an l does not start with one, once lower-cased. */
  lemma GroupAvoidsL(name: string, alts: seq<string>)
    requires forall j | 0 <= j < |name| :: LowerChar(name[j]) != 'l'
    ensures Lower(Group(Lower(name), Lower(name), alts).GetOr("")) != "lot"
  {
    var key := Lower(name);
    var g := Group(key, key, alts);
    if g.Some? && g.value != [] {
      var h :| IsLeftmostFirst(key, alts, h) && g.value == key[h.pos..h.pos + |alts[h.alt]|];
      var x := name[h.pos];
      assert g.value[0] == LowerChar(x);
      assert Lower(g.value)[0] == LowerChar(LowerChar(x));
      if LowerChar(LowerChar(x)) == 'l' {
        LowerCharL(LowerChar(x));
      }
    }
  }

  /** No record ever carries the unit "lot", in any case: whichever branch supplies the unit. */
  lemma RecordUnitNeverLot(c: Node, category: string)
    requires ExtractProductData(c, category).Some?
    ensures Lower(ExtractProductData(c, category).value.unit) != "lot"
  {
    ExtractProductDataSpec(c, category);
    UnitNeverLot(c, NameElement(c).value);
  }

  /** The unit worked out from a card and the text of any of its elements is never "lot". */
  lemma UnitNeverLot(c: Node, e: Node)
    requires IsDescendant(e, c)
    ensures Lower(Unit(c, StrippedText(e))) != "lot"
  {
    TextUnitNeverLot(c);
    NameUnitNeverLot(c, e);
  }
}
