/**
 * What the two scrapers share about the site they visit: its origin and the six search terms,
 * in the order both scrapers walk them.
 */
module Site {
  import opened Wrappers
  import opened Strings
  import opened Url

  /** `self.base_url` */
  const BaseOrigin: Origin := Origin("https", "www.castorama.fr")

  /** `self.search_terms`: tiles, sinks, toilets, paint, vanities, showers */
  const SearchTerms: seq<string> := ["carrelage", "evier", "toilettes", "peinture", "meuble vasque", "douche"]

  /** The base URL is a well-formed origin and no search term occurs twice. */
  lemma SiteConstantsWellFormed()
    ensures WebOrigin(BaseOrigin) && Base(BaseOrigin) == "https://www.castorama.fr"
    ensures |SearchTerms| == 6 && Distinct(SearchTerms)
  {
    BaseOriginValid();
    BaseUrl();
    SearchTermsDistinct();
  }

  lemma BaseOriginValid()
    ensures WebOrigin(BaseOrigin)
  {
  }

  lemma BaseUrl()
    ensures Base(BaseOrigin) == "https://www.castorama.fr"
  {
    assert "https" + "://" == "https://";
  }

  /** The search terms start with six different letters. */
  lemma SearchTermsDistinct()
    ensures |SearchTerms| == 6 && Distinct(SearchTerms)
  {
    var initials := "cetpmd";
    assert forall k | 0 <= k < 6 :: SearchTerms[k] != [] && SearchTerms[k][0] == initials[k];
    assert Distinct(initials);
  }

  // ----- how links on the site resolve -----

  /** A product path `/p/<digits>` is appended to the site's origin. */
  lemma ProductPathResolves(id: string)
    requires forall k | 0 <= k < |id| :: IsDigit(id[k])
    ensures Resolve(BaseOrigin, "/p/" + id) == Some("https://www.castorama.fr/p/" + id)
  {
    var ref := "/p/" + id;
    BaseOriginValid();
    assert ref[..1] == "/" && ref[1] == 'p';
    assert forall k | 0 <= k < |ref| :: ref[k] == '/' || ref[k] == 'p' || IsDigit(ref[k]);
    NoDotNoDotSegment(ref);
    ResolvePlainPath(BaseOrigin, ref);
    BaseUrl();
    ProductPrefix();
    Regroup("https://www.castorama.fr", "/p/", id, "https://www.castorama.fr/p/");
  }

  lemma Regroup(a: string, b: string, c: string, ab: string)
    requires a + b == ab
    ensures a + (b + c) == ab + c
  {
  }

  lemma ProductPrefix()
    ensures "https://www.castorama.fr" + "/p/" == "https://www.castorama.fr/p/"
  {
  }

  /** A link `//[host` opens a `[` it never closes: `urljoin` raises, and the card is lost. */
  lemma UnclosedBracketExample(host: string)
    requires forall k | 0 <= k < |host| :: !EndsAuthority(host[k]) && !IsUnsafe(host[k]) && host[k] != ']'
    ensures Resolve(BaseOrigin, "//[" + host).None?
  {
    var ref := "//[" + host;
    var auth := "[" + host;
    assert forall k | 3 <= k < |ref| :: ref[k] == host[k - 3];
    assert forall k | 1 <= k < |auth| :: auth[k] == host[k - 1];
    assert ref[2..] == auth;
    AuthorityWhole(auth);
    BaseOriginValid();
    CleanKeeps(ref);
    assert SplitScheme(ref) == ([], ref);
    assert SplitNetloc(ref).0 == auth;
    assert '[' in auth && ']' !in auth;
    ResolveFails(BaseOrigin, ref);
  }
}
