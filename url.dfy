/**
 * Reference resolution as CPython 3.12's `urllib.parse.urljoin(base, ref)` performs it when the
 * base is an http or https origin such as `https://www.castorama.fr`.
 *
 * `urlsplit` strips leading C0 controls and spaces, removes every tab, CR and LF, reads a scheme
 * before the first colon, an authority after `//`, then the fragment, the query and the
 * parameters. An authority whose brackets do not pair up, or whose bracketed host is neither an
 * IPv6 address nor an IPvFuture literal, raises ValueError: `Resolve` gives None there. A
 * reference naming another scheme is returned as written, one with its own authority is put
 * back together, and every other one is resolved against the origin with its dot segments
 * removed.
 */
module Url {
  import opened Wrappers
  import opened Strings

  /** A base URL made of a scheme and an authority, with empty path, parameters, query and fragment. */
  datatype Origin = Origin(scheme: string, host: string)

  function Base(o: Origin): string {
    o.scheme + "://" + o.host
  }

  /**
   * The bases this model resolves against: `http` or `https`, which are among the schemes
   * `urljoin` resolves relative references for, with an authority and parameters, and a host.
   */
  predicate WebOrigin(o: Origin) {
    (o.scheme == "http" || o.scheme == "https") && o.host != []
  }

  predicate StartsWith(s: string, w: string) {
    |w| <= |s| && s[..|w|] == w
  }

  // ----- cleaning -----

  /** `_WHATWG_C0_CONTROL_OR_SPACE` */
  predicate IsC0OrSpace(c: char) {
    c <= ' '
  }

  /** `_UNSAFE_URL_BYTES_TO_REMOVE`: tab, carriage return and line feed */
  predicate IsUnsafe(c: char) {
    c == '\t' || c == '\r' || c == '\n'
  }

  /** `url.lstrip(_WHATWG_C0_CONTROL_OR_SPACE)` */
  function LStripC0(s: string): (r: string)
    ensures |r| <= |s| && r == s[|s| - |r|..]
    ensures r == [] || !IsC0OrSpace(r[0])
    ensures forall k | 0 <= k < |s| - |r| :: IsC0OrSpace(s[k])
    decreases |s|
  {
    if s != [] && IsC0OrSpace(s[0]) then
      var r := LStripC0(s[1..]);
      assert forall k | 1 <= k < |s| - |r| :: s[k] == s[1..][k - 1];
      r
    else s
  }

  /** The text `urlsplit` reads: leading C0 controls and spaces stripped, then tabs, CRs and LFs removed. */
  function Clean(ref: string): (r: string)
    ensures forall k | 0 <= k < |r| :: !IsUnsafe(r[k])
  {
    var tabs := Remove(LStripC0(ref), '\t');
    var crs := Remove(tabs, '\r');
    RemoveKeeps(tabs, '\r', '\t');
    RemoveKeeps(crs, '\n', '\t');
    RemoveKeeps(crs, '\n', '\r');
    Remove(crs, '\n')
  }

  /** A reference that starts with a visible character and holds no tab, CR or LF is read as written. */
  lemma CleanKeeps(ref: string)
    requires ref == [] || !IsC0OrSpace(ref[0])
    requires forall k | 0 <= k < |ref| :: !IsUnsafe(ref[k])
    ensures Clean(ref) == ref
  {
    assert forall c | IsUnsafe(c) :: c !in ref;
    RemoveAbsent(ref, '\t');
    RemoveAbsent(ref, '\r');
    RemoveAbsent(ref, '\n');
  }

  // ----- splitting -----

  predicate IsAlpha(c: char) {
    'a' <= c <= 'z' || 'A' <= c <= 'Z'
  }

  /** `scheme_chars` */
  predicate IsSchemeChar(c: char) {
    IsAlpha(c) || IsDigit(c) || c == '+' || c == '-' || c == '.'
  }

  /**
   * The scheme `urlsplit` reads, lower-cased, and the text after its colon, or ("", url): the
   * text before the first colon is a scheme when it is non-empty, starts with an ASCII letter
   * and holds only scheme characters.
   */
  function SplitScheme(url: string): (r: (string, string))
    ensures r.0 == [] ==> r.1 == url
    ensures r.0 != [] ==> |r.0| < |url| && url == url[..|r.0|] + [':'] + r.1 && r.0 == Lower(url[..|r.0|]) && ':' !in url[..|r.0|]
    ensures (url == [] || !IsAlpha(url[0])) ==> r == ([], url)
  {
    var i := |Before(url, ':')|;
    if 0 < i < |url| && IsAlpha(url[0]) && forall k | 0 <= k < i :: IsSchemeChar(url[k]) then
      assert url == url[..i] + [':'] + url[i + 1..];
      (Lower(url[..i]), url[i + 1..])
    else ([], url)
  }

  /** A `/`, `?` or `#`: one of the characters `_splitnetloc` stops at. */
  predicate EndsAuthority(c: char) {
    c == '/' || c == '?' || c == '#'
  }

  /** The text up to the first `/`, `?` or `#` */
  function Authority(s: string): (r: string)
    ensures |r| <= |s| && r == s[..|r|]
    ensures forall k | 0 <= k < |r| :: !EndsAuthority(r[k])
    ensures |r| < |s| ==> EndsAuthority(s[|r|])
    decreases |s|
  {
    if s == [] || EndsAuthority(s[0]) then [] else [s[0]] + Authority(s[1..])
  }

  /** Text holding no `/`, `?` or `#` is an authority as a whole. */
  lemma AuthorityWhole(s: string)
    requires forall k | 0 <= k < |s| :: !EndsAuthority(s[k])
    ensures Authority(s) == s
  {
  }

  /** `_splitnetloc(url, 2)` after a leading `//`: the authority and what follows it; ("", url) without `//`. */
  function SplitNetloc(url: string): (r: (string, string))
    ensures url == (if StartsWith(url, "//") then "//" else []) + r.0 + r.1
    ensures r.1 == [] || EndsAuthority(r.1[0]) || !StartsWith(url, "//")
  {
    if StartsWith(url, "//") then
      var netloc := Authority(url[2..]);
      assert url == "//" + url[2..] && url[2..] == netloc + url[2 + |netloc|..];
      (netloc, url[2 + |netloc|..])
    else ([], url)
  }

  /** `s.partition(sep)` without the separator: the text before the first `sep` and the text after it, "" without one */
  function Cut(s: string, sep: char): (r: (string, string))
    ensures sep !in r.0
    ensures sep in s ==> s == r.0 + [sep] + r.1
    ensures sep !in s ==> r == (s, [])
  {
    var h := Before(s, sep);
    if |h| < |s| then
      assert s == h + [sep] + s[|h| + 1..];
      (h, s[|h| + 1..])
    else (s, [])
  }

  /** `s.rpartition(sep)[2]`: the text after the last `sep`, or `s` without one */
  function AfterLast(s: string, sep: char): (r: string)
    ensures |r| <= |s| && r == s[|s| - |r|..] && sep !in r
    ensures |r| < |s| ==> s[|s| - |r| - 1] == sep
    decreases |s|
  {
    if s == [] || s[|s| - 1] == sep then []
    else
      var p := s[..|s| - 1];
      var r := AfterLast(p, sep);
      assert s[|s| - |r| - 1..] == p[|p| - |r|..] + [s[|s| - 1]];
      r + [s[|s| - 1]]
  }

  // ----- the bracket checks -----

  /** `IPv4Address._parse_octet`: one to three ASCII digits, no leading zero, at most 255 */
  predicate IsOctet(s: string) {
    && 0 < |s| <= 3
    && (forall k | 0 <= k < |s| :: IsDigit(s[k]))
    && (s == "0" || s[0] != '0')
    && DigitsValue(s) <= 255
  }

  /** `IPv4Address(s)` parses: four octets separated by dots */
  predicate IsIPv4(s: string) {
    var octets := Split(s, '.');
    |octets| == 4 && forall k | 0 <= k < 4 :: IsOctet(octets[k])
  }

  /** `IPv6Address._HEX_DIGITS` */
  predicate IsHexDigit(c: char) {
    IsDigit(c) || 'a' <= c <= 'f' || 'A' <= c <= 'F'
  }

  /** `IPv6Address._parse_hextet`: one to four hex digits */
  predicate IsHextet(s: string) {
    0 < |s| <= 4 && forall k | 0 <= k < |s| :: IsHexDigit(s[k])
  }

  /** The first empty part at index `i` or later that is not the last part, or `|ps| - 1` when there is none */
  function InnerEmpty(ps: seq<string>, i: nat): (r: nat)
    requires ps != []
    ensures r < |ps| && (i < |ps| ==> i <= r)
    ensures r < |ps| - 1 ==> ps[r] == []
    ensures forall j | i <= j < r :: ps[j] != []
    decreases |ps| - i
  {
    if i >= |ps| - 1 then |ps| - 1 else if ps[i] == [] then i else InnerEmpty(ps, i + 1)
  }

  /**
   * The layout `IPv6Address._ip_int_from_string` accepts, its IPv4 tail already converted to two
   * hextets: at most nine parts and at most one `::`. With a `::`, a leading or trailing empty
   * part only as part of it, at least one hextet left to it, and the parts before and after it
   * hextets. Without one, exactly eight hextets.
   */
  predicate HextetsValid(ps: seq<string>) {
    var n := |ps|;
    0 < n <= 9 &&
    var skip := InnerEmpty(ps, 1);
    if skip < n - 1 then
      var hi := if ps[0] == [] then skip - 1 else skip;
      var lo := if ps[n - 1] == [] then n - skip - 2 else n - skip - 1;
      && InnerEmpty(ps, skip + 1) == n - 1
      && (ps[0] == [] ==> hi == 0)
      && (ps[n - 1] == [] ==> lo == 0)
      && hi + lo < 8
      && (forall k | 0 <= k < hi :: IsHextet(ps[k]))
      && (forall k | n - lo <= k < n :: IsHextet(ps[k]))
    else
      n == 8 && ps[0] != [] && ps[n - 1] != [] && forall k | 0 <= k < n :: IsHextet(ps[k])
  }

  /**
   * `IPv6Address(h)` parses: a zone after `%` is non-empty and holds no other `%`, the address
   * has at least three parts between colons, and a last part holding a dot is an IPv4 address
   * that stands for two hextets.
   */
  predicate IsIPv6(h: string) {
    var zone := Cut(h, '%');
    var parts := Split(zone.0, ':');
    var last := parts[|parts| - 1];
    && ('%' in h ==> zone.1 != [] && '%' !in zone.1)
    && |parts| >= 3
    && ('.' in last ==> IsIPv4(last))
    && HextetsValid(if '.' in last then parts[..|parts| - 1] + ["0", "0"] else parts)
  }

  /** The hex digits at the start of `s` */
  function HexRun(s: string): (r: string)
    ensures |r| <= |s| && r == s[..|r|]
    ensures forall k | 0 <= k < |r| :: IsHexDigit(r[k])
    ensures |r| < |s| ==> !IsHexDigit(s[|r|])
    decreases |s|
  {
    if s == [] || !IsHexDigit(s[0]) then [] else [s[0]] + HexRun(s[1..])
  }

  /** `\Av[a-fA-F0-9]+\..+\Z`: `v`, hex digits, a dot and at least one more character */
  predicate IsIPvFuture(h: string) {
    h != [] && h[0] == 'v' &&
    var n := |HexRun(h[1..])|;
    n >= 1 && n + 2 < |h| && h[n + 1] == '.'
  }

  /** `_check_bracketed_host(hostname)` passes: an IPvFuture literal after `v`, otherwise an IPv6 and not an IPv4 address */
  predicate BracketedHostValid(h: string) {
    if h != [] && h[0] == 'v' then IsIPvFuture(h) else !IsIPv4(h) && IsIPv6(h)
  }

  /**
   * `_check_bracketed_netloc(netloc)` passes. After the last `@`, a `[` must come first; what
   * follows its `]` is empty or a port after `:`; the text between is a valid bracketed host.
   */
  predicate BracketedNetlocValid(netloc: string) {
    var hostPort := AfterLast(netloc, '@');
    var open := Cut(hostPort, '[');
    if '[' in hostPort then
      var close := Cut(open.1, ']');
      open.0 == [] && (close.1 == [] || close.1[0] == ':') && BracketedHostValid(close.0)
    else BracketedHostValid(Cut(hostPort, ']').0)
  }

  /** The authority passes `urlsplit`'s checks: `[` and `]` occur together, and then the brackets are valid */
  predicate NetlocValid(netloc: string) {
    ('[' in netloc <==> ']' in netloc) && ('[' in netloc ==> BracketedNetlocValid(netloc))
  }

  // ----- parsing and putting together -----

  /** The six fields of `urlparse`'s result */
  datatype UrlParts = UrlParts(scheme: string, netloc: string, path: string, params: string, query: string, fragment: string)

  /** `uses_params` */
  const UsesParams: set<string> :=
    {"", "ftp", "hdl", "prospero", "http", "imap", "https", "shttp", "rtsp", "rtsps", "rtspu", "sip", "sips", "mms", "sftp", "tel"}

  /**
   * `_splitparams(path)`: the parameters follow the first `;` after the last `/`, and hold no `/`;
   * (path, "") without such a `;`.
   */
  function SplitParams(path: string): (r: (string, string))
    ensures |r.0| <= |path| && r.0 == path[..|r.0|]
    ensures r == (path, []) || path == r.0 + [';'] + r.1
    ensures '/' !in r.1
  {
    var tail := AfterLast(path, '/');
    var j := |path| - |tail|;
    var c := Cut(tail, ';');
    if ';' in tail then
      var head := path[..j] + c.0;
      SuffixSplit(path, tail, c.0, c.1);
      (head, c.1)
    else (path, [])
  }

  /** A suffix split at one of its characters splits the whole string at the same place. */
  lemma SuffixSplit(s: string, tail: string, a: string, b: string)
    requires |tail| <= |s| && tail == s[|s| - |tail|..]
    requires tail == a + [';'] + b && '/' !in tail
    ensures s == (s[..|s| - |tail|] + a) + [';'] + b
    ensures '/' !in b
    ensures var head := s[..|s| - |tail|] + a; |head| <= |s| && head == s[..|head|]
  {
    var j := |s| - |tail|;
    var head := s[..j] + a;
    assert s == s[..j] + tail;
    assert s == head + [';'] + b;
    assert forall k | 0 <= k < |head| :: s[k] == head[k];
    assert forall k | 0 <= k < |b| :: b[k] == tail[|a| + 1 + k];
  }

  /** `urlparse(url, default)` on a cleaned URL, or None where `urlsplit` raises ValueError */
  function Parse(url: string, default: string): (r: Option<UrlParts>)
    ensures r.Some? ==> '?' !in r.value.path && '#' !in r.value.path && '#' !in r.value.query
    ensures r.Some? ==> r.value.scheme == (if SplitScheme(url).0 == [] then default else SplitScheme(url).0)
    ensures r.Some? ==> r.value.netloc == SplitNetloc(SplitScheme(url).1).0
    ensures r.None? <==> !NetlocValid(SplitNetloc(SplitScheme(url).1).0)
  {
    var sp := SplitScheme(url);
    var scheme := if sp.0 == [] then default else sp.0;
    var nl := SplitNetloc(sp.1);
    if !NetlocValid(nl.0) then None
    else
      var frag := Cut(nl.1, '#');
      var query := Cut(frag.0, '?');
      var params := if scheme in UsesParams && ';' in query.0 then SplitParams(query.0) else (query.0, []);
      assert forall x | x in params.0 :: x in query.0;
      Some(UrlParts(scheme, nl.0, params.0, params.1, query.1, frag.1))
  }

  /** A path with a `/` put before it unless it is empty or already starts with one */
  function Rooted(path: string): (r: string)
    ensures r == [] || r[0] == '/'
  {
    if path != [] && path[0] != '/' then "/" + path else path
  }

  /**
   * `urlunparse(p)` for parts with a scheme and an authority: the path, its parameters after `;`
   * and a `/` before them when they do not start with one, then `?query` and `#fragment` when
   * non-empty.
   */
  function Unparse(p: UrlParts): (r: string)
    requires p.scheme != [] && p.netloc != []
    ensures StartsWith(r, p.scheme + "://" + p.netloc)
    ensures var tail := r[|p.scheme + "://" + p.netloc|..]; tail == [] || tail[0] == '/' || tail[0] == '?' || tail[0] == '#'
  {
    var path := if p.params != [] then p.path + ";" + p.params else p.path;
    var rooted := Rooted(path);
    var query := if p.query != [] then "?" + p.query else [];
    var fragment := if p.fragment != [] then "#" + p.fragment else [];
    var head := p.scheme + "://" + p.netloc;
    var tail := rooted + query + fragment;
    AppendParts(head, tail);
    head + tail
  }

  lemma AppendParts(h: string, t: string)
    ensures (h + t)[..|h|] == h && (h + t)[|h|..] == t
  {
  }

  // ----- dot segments -----

  predicate IsDotSegment(seg: string) {
    seg == "." || seg == ".."
  }

  /** The walk over the segments: `..` drops the last kept segment if there is one, `.` is skipped, the rest is kept. */
  function RemoveDots(kept: seq<string>, segs: seq<string>): seq<string>
    decreases |segs|
  {
    if segs == [] then kept
    else if segs[0] == ".." then RemoveDots(if kept == [] then [] else kept[..|kept| - 1], segs[1..])
    else if segs[0] == "." then RemoveDots(kept, segs[1..])
    else RemoveDots(kept + [segs[0]], segs[1..])
  }

  /** `filter(None, xs)`: the non-empty strings, in order */
  function NonEmpty(xs: seq<string>): (r: seq<string>)
    ensures |r| <= |xs|
    ensures forall k | 0 <= k < |r| :: r[k] != [] && r[k] in xs
  {
    if xs == [] then [] else if xs[0] == [] then NonEmpty(xs[1..]) else [xs[0]] + NonEmpty(xs[1..])
  }

  /**
   * The segments `urljoin` walks against the empty base path: those of an absolute path, else
   * an empty segment and the reference's segments with the empty ones between the first and
   * the last dropped.
   */
  function Segments(path: string): (r: seq<string>)
    ensures r != [] && forall k | 0 <= k < |r| :: '/' !in r[k]
  {
    var parts := Split(path, '/');
    if StartsWith(path, "/") then parts else [[]] + NonEmpty(parts[..|parts| - 1]) + [parts[|parts| - 1]]
  }

  /** The resolved path: the walked segments joined by `/`, with an empty one after a final dot segment, or "/" */
  function MergePath(path: string): (r: string)
    ensures r != []
  {
    var segs := Segments(path);
    var kept := RemoveDots([], segs);
    var resolved := if IsDotSegment(segs[|segs| - 1]) then kept + [[]] else kept;
    var joined := Join(resolved, '/');
    if joined == [] then "/" else joined
  }

  // ----- resolution -----

  /** The authority `urlsplit` reads in a reference, "" without one */
  function RefAuthority(ref: string): string {
    SplitNetloc(SplitScheme(Clean(ref)).1).0
  }

  /** The cleaned reference names a scheme other than the origin's: `urljoin` hands it back as written. */
  predicate OtherScheme(o: Origin, ref: string) {
    var s := SplitScheme(Clean(ref)).0;
    s != [] && s != o.scheme
  }

  /**
   * The parts `urljoin` puts back together for a reference on the origin's scheme: its own
   * authority as it is; otherwise the origin's host, with the path resolved unless the reference
   * has neither path nor parameters.
   */
  function Target(o: Origin, p: UrlParts): (t: UrlParts)
    requires WebOrigin(o)
    ensures t.scheme == p.scheme && t.netloc == (if p.netloc == [] then o.host else p.netloc)
    ensures t.params == p.params && t.query == p.query && t.fragment == p.fragment
  {
    if p.netloc != [] then p
    else if p.path == [] && p.params == [] then p.(netloc := o.host)
    else p.(netloc := o.host, path := MergePath(p.path))
  }

  /** `urljoin(Base(o), ref)`, or None where it raises ValueError */
  function Resolve(o: Origin, ref: string): Option<string>
    requires WebOrigin(o)
  {
    if ref == [] then Some(Base(o))
    else
      match Parse(Clean(ref), o.scheme)
      case None => None
      case Some(p) => if p.scheme != o.scheme then Some(ref) else Some(Unparse(Target(o, p)))
  }

  /** What a resolved URL looks like: on the origin's scheme with an authority, or a reference naming another scheme */
  predicate Resolved(o: Origin, u: string) {
    StartsWith(u, o.scheme + "://") || OtherScheme(o, u)
  }

  // ----- properties -----

  /** A resolved URL is never empty. */
  lemma ResolvedNonEmpty(o: Origin, u: string)
    requires Resolved(o, u)
    ensures u != []
  {
  }

  /** Segments that are not dot segments and hold no `/` */
  predicate CleanSegments(xs: seq<string>) {
    forall k | 0 <= k < |xs| :: !IsDotSegment(xs[k]) && '/' !in xs[k]
  }

  predicate NoSlash(xs: seq<string>) {
    forall k | 0 <= k < |xs| :: '/' !in xs[k]
  }

  /** The walk keeps no dot segment and makes no segment with a `/`. */
  lemma {:induction false} RemoveDotsClean(kept: seq<string>, segs: seq<string>)
    requires CleanSegments(kept) && NoSlash(segs)
    ensures CleanSegments(RemoveDots(kept, segs))
    decreases |segs|
  {
    if segs != [] {
      assert NoSlash(segs[1..]) by {
        assert forall k | 0 <= k < |segs[1..]| :: segs[1..][k] == segs[k + 1];
      }
      if segs[0] == ".." {
        var shorter := if kept == [] then [] else kept[..|kept| - 1];
        assert CleanSegments(shorter) by {
          assert forall k | 0 <= k < |shorter| :: shorter[k] == kept[k];
        }
        RemoveDotsClean(shorter, segs[1..]);
      } else if segs[0] == "." {
        RemoveDotsClean(kept, segs[1..]);
      } else {
        var longer := kept + [segs[0]];
        assert CleanSegments(longer) by {
          assert forall k | 0 <= k < |longer| :: longer[k] == if k < |kept| then kept[k] else segs[0];
        }
        RemoveDotsClean(longer, segs[1..]);
      }
    }
  }

  /** Without dot segments the walk keeps every segment, in order. */
  lemma {:induction false} RemoveDotsKeeps(kept: seq<string>, segs: seq<string>)
    requires forall k | 0 <= k < |segs| :: !IsDotSegment(segs[k])
    ensures RemoveDots(kept, segs) == kept + segs
    decreases |segs|
  {
    if segs != [] {
      assert !IsDotSegment(segs[0]);
      assert forall k | 0 <= k < |segs[1..]| :: segs[1..][k] == segs[k + 1];
      RemoveDotsKeeps(kept + [segs[0]], segs[1..]);
      assert kept + [segs[0]] + segs[1..] == kept + segs;
    }
  }

  lemma SplitRoot()
    ensures Split("/", '/') == [[], []]
  {
    assert Before("/", '/') == [];
    assert "/"[1..] == [];
  }

  /** The segments the walk leaves, with an empty one after a final dot segment, are clean. */
  lemma ResolvedSegmentsClean(path: string)
    ensures var segs := Segments(path);
      var kept := RemoveDots([], segs);
      CleanSegments(if IsDotSegment(segs[|segs| - 1]) then kept + [[]] else kept)
  {
    var segs := Segments(path);
    var kept := RemoveDots([], segs);
    RemoveDotsClean([], segs);
    if IsDotSegment(segs[|segs| - 1]) {
      assert forall k | 0 <= k < |kept| :: (kept + [[]])[k] == kept[k];
    }
  }

  /** A resolved path holds no `.` or `..` segment. */
  lemma NoDotSegments(path: string)
    ensures var segs := Split(MergePath(path), '/');
      forall k | 0 <= k < |segs| :: !IsDotSegment(segs[k])
  {
    var segs := Segments(path);
    var kept := RemoveDots([], segs);
    var resolved := if IsDotSegment(segs[|segs| - 1]) then kept + [[]] else kept;
    ResolvedSegmentsClean(path);
    assert CleanSegments(resolved);
    if Join(resolved, '/') == [] {
      assert MergePath(path) == "/";
      SplitRoot();
    } else {
      assert MergePath(path) == Join(resolved, '/');
      assert resolved != [];
      JoinSplit(resolved, '/');
    }
  }

  /** An absolute path without dot segments is its own resolved path. */
  lemma MergeKeepsPlainPath(path: string)
    requires StartsWith(path, "/") && CleanSegments(Split(path, '/'))
    ensures MergePath(path) == path
  {
    var segs := Split(path, '/');
    assert Segments(path) == segs;
    RemoveDotsKeeps([], segs);
    assert [] + segs == segs;
    SplitJoin(path, '/');
  }

  /** No `.` in a path, so no dot segment in it. */
  lemma {:induction false} NoDotNoDotSegment(path: string)
    requires '.' !in path
    ensures CleanSegments(Split(path, '/'))
    decreases |path|
  {
    var h := Before(path, '/');
    assert '.' !in h by {
      assert forall k | 0 <= k < |h| :: h[k] == path[k];
    }
    assert !IsDotSegment(h) by {
      assert h != [] ==> h[0] != '.';
    }
    if |h| < |path| {
      var rest := path[|h| + 1..];
      assert '.' !in rest by {
        assert forall k | 0 <= k < |rest| :: rest[k] == path[|h| + 1 + k];
      }
      NoDotNoDotSegment(rest);
    }
  }

  lemma PrefixOfPrefix(u: string, a: string, b: string)
    requires StartsWith(u, a + b)
    ensures StartsWith(u, a)
  {
    assert u[..|a|] == (a + b)[..|a|];
  }

  /** Every resolved reference is absolute, and one naming another scheme is handed back as written. */
  lemma ResolveIsAbsolute(o: Origin, ref: string)
    requires WebOrigin(o)
    ensures Resolve(o, ref).Some? ==> Resolved(o, Resolve(o, ref).value)
    ensures Resolve(o, ref).Some? && OtherScheme(o, ref) ==> Resolve(o, ref).value == ref
    ensures Resolve(o, ref).Some? && !OtherScheme(o, ref) ==> StartsWith(Resolve(o, ref).value, o.scheme + "://")
  {
    var r := Resolve(o, ref);
    if r.Some? && !OtherScheme(o, ref) {
      ResolveAuthority(o, ref);
      PrefixOfPrefix(r.value, o.scheme + "://", if RefAuthority(ref) == [] then o.host else RefAuthority(ref));
    }
  }

  /**
   * A reference on the origin's scheme keeps its own authority, or takes the origin's host
   * without one, and what follows the authority is empty or starts with `/`, `?` or `#`.
   */
  lemma ResolveAuthority(o: Origin, ref: string)
    requires WebOrigin(o) && !OtherScheme(o, ref) && Resolve(o, ref).Some?
    ensures var auth := if RefAuthority(ref) == [] then o.host else RefAuthority(ref);
      var u := Resolve(o, ref).value;
      && StartsWith(u, o.scheme + "://" + auth)
      && var tail := u[|o.scheme + "://" + auth|..]; tail == [] || tail[0] == '/' || tail[0] == '?' || tail[0] == '#'
  {
    if ref == [] {
      assert Clean(ref) == [] by { assert LStripC0(ref) == []; }
      assert Base(o)[|Base(o)|..] == [];
    } else {
      var p := Parse(Clean(ref), o.scheme).value;
      assert p.scheme == o.scheme && p.netloc == RefAuthority(ref);
      assert Resolve(o, ref).value == Unparse(Target(o, p));
    }
  }

  /** A reference without an authority of its own, on the origin's scheme, resolves onto the origin. */
  lemma ResolveOnSite(o: Origin, ref: string)
    requires WebOrigin(o) && !OtherScheme(o, ref) && RefAuthority(ref) == []
    ensures Resolve(o, ref).Some?
    ensures var u := Resolve(o, ref).value;
      && StartsWith(u, Base(o))
      && var tail := u[|Base(o)|..]; tail == [] || tail[0] == '/' || tail[0] == '?' || tail[0] == '#'
  {
    assert NetlocValid([]);
    ResolveAuthority(o, ref);
  }

  /** The characters of a reference's authority are characters of the reference as read. */
  lemma AuthorityInRef(ref: string)
    ensures forall x | x in RefAuthority(ref) :: x in Clean(ref)
  {
    var url := Clean(ref);
    var sp := SplitScheme(url);
    assert forall x | x in sp.1 :: x in url by {
      if sp.0 != [] {
        assert url == url[..|sp.0|] + [':'] + sp.1;
      }
    }
    var nl := SplitNetloc(sp.1);
    assert forall x | x in nl.0 :: x in sp.1 by {
      assert sp.1 == (if StartsWith(sp.1, "//") then "//" else []) + nl.0 + nl.1;
    }
  }

  /**
   * `urljoin` raises exactly for a non-empty reference whose authority fails the bracket checks,
   * so only a reference holding `[` or `]` can fail.
   */
  lemma ResolveFails(o: Origin, ref: string)
    requires WebOrigin(o)
    ensures Resolve(o, ref).None? <==> ref != [] && !NetlocValid(RefAuthority(ref))
    ensures Resolve(o, ref).None? ==> '[' in Clean(ref) || ']' in Clean(ref)
  {
    AuthorityInRef(ref);
  }

  /** An absolute path with no authority, query, fragment or parameters parses as just a path. */
  lemma ParsePlainPath(url: string, default: string)
    requires StartsWith(url, "/") && !StartsWith(url, "//")
    requires '?' !in url && '#' !in url && ';' !in url
    ensures Parse(url, default) == Some(UrlParts(default, [], url, [], [], []))
  {
    assert SplitScheme(url) == ([], url);
    assert SplitNetloc(url) == ([], url);
    assert NetlocValid([]);
  }

  /** Parts with nothing after the path put back together are the origin followed by the path, rooted. */
  lemma UnparsePath(o: Origin, path: string)
    requires WebOrigin(o)
    ensures Unparse(UrlParts(o.scheme, o.host, path, [], [], [])) == Base(o) + Rooted(path)
  {
  }

  /** An absolute path with no authority, no query, fragment or parameters and nothing `urlsplit` strips */
  predicate AbsolutePath(ref: string) {
    && StartsWith(ref, "/") && !StartsWith(ref, "//")
    && (forall k | 0 <= k < |ref| :: !IsUnsafe(ref[k]))
    && '?' !in ref && '#' !in ref && ';' !in ref
  }

  /** Such a path is resolved and appended to the origin. */
  lemma ResolveAbsolutePath(o: Origin, ref: string)
    requires WebOrigin(o) && AbsolutePath(ref)
    ensures Resolve(o, ref) == Some(Base(o) + Rooted(MergePath(ref)))
  {
    CleanKeeps(ref);
    ParsePlainPath(ref, o.scheme);
    var p := UrlParts(o.scheme, [], ref, [], [], []);
    assert Target(o, p) == UrlParts(o.scheme, o.host, MergePath(ref), [], [], []);
    UnparsePath(o, MergePath(ref));
  }

  /** An absolute path without dot segments, and with nothing `urlsplit` would split off or strip */
  predicate PlainPath(ref: string) {
    AbsolutePath(ref) && CleanSegments(Split(ref, '/'))
  }

  /** A plain path is appended to the origin unchanged. */
  lemma ResolvePlainPath(o: Origin, ref: string)
    requires WebOrigin(o) && PlainPath(ref)
    ensures Resolve(o, ref) == Some(Base(o) + ref)
  {
    ResolveAbsolutePath(o, ref);
    MergeKeepsPlainPath(ref);
  }

  lemma DotDotWalk(a: string, b: string)
    requires !IsDotSegment(a) && !IsDotSegment(b)
    ensures RemoveDots([], [[], a, "..", b]) == [[], b]
  {
    var segs: seq<string> := [[], a, "..", b];
    var none: seq<string> := [];
    assert segs[0] == [] && segs[1..] == [a, "..", b];
    assert [a, "..", b][1..] == ["..", b] && ["..", b][1..] == [b] && [b][1..] == [];
    calc {
      RemoveDots([], segs);
      RemoveDots(none + [[]], [a, "..", b]);
      { assert none + [[]] == [[]]; }
      RemoveDots([[]], [a, "..", b]);
      RemoveDots([[]] + [a], ["..", b]);
      { assert [[]] + [a] == [[], a] && [[], a][..1] == [[]]; }
      RemoveDots([[]], [b]);
      RemoveDots([[]] + [b], []);
      { assert [[]] + [b] == [[], b]; }
      [[], b];
    }
  }

  lemma SlashRegroup(w: string, x: string, y: string, z: string)
    ensures w + "/" + x + "/" + y + "/" + z == w + ['/'] + (x + ['/'] + (y + ['/'] + z))
  {
    assert w + "/" + x + "/" + y + "/" + z == w + "/" + x + "/" + (y + "/" + z);
    assert w + "/" + x + "/" + (y + "/" + z) == w + "/" + (x + "/" + (y + "/" + z));
  }

  lemma SplitTwo(y: string, z: string)
    requires '/' !in y && '/' !in z
    ensures Split(y + ['/'] + z, '/') == [y, z]
  {
    SplitStep(y, '/', z);
    SplitNone(z, '/');
  }

  lemma SplitThree(x: string, y: string, z: string)
    requires '/' !in x && '/' !in y && '/' !in z
    ensures Split(x + ['/'] + (y + ['/'] + z), '/') == [x, y, z]
  {
    SplitStep(x, '/', y + ['/'] + z);
    SplitTwo(y, z);
  }

  lemma SplitFour(w: string, x: string, y: string, z: string)
    requires '/' !in w && '/' !in x && '/' !in y && '/' !in z
    ensures Split(w + "/" + x + "/" + y + "/" + z, '/') == [w, x, y, z]
  {
    SlashRegroup(w, x, y, z);
    var rest := x + ['/'] + (y + ['/'] + z);
    assert Split(w + ['/'] + rest, '/') == [w] + [x, y, z] by {
      SplitStep(w, '/', rest);
      SplitThree(x, y, z);
    }
  }

  /** `..` drops the segment before it: `/a/../b` resolves to `/b`. */
  lemma DotDotDropsSegment(a: string, b: string)
    requires a != [] && b != [] && '/' !in a && '/' !in b && !IsDotSegment(a) && !IsDotSegment(b)
    ensures MergePath("/" + a + "/" + ".." + "/" + b) == "/" + b
  {
    var path := "/" + a + "/" + ".." + "/" + b;
    var segs: seq<string> := [[], a, "..", b];
    assert Segments(path) == segs by {
      SplitFour([], a, "..", b);
      assert [] + "/" == "/";
      assert StartsWith(path, "/");
    }
    DotDotWalk(a, b);
    assert Join([[], b], '/') == [] + ['/'] + b by {
      assert [[], b][1..] == [b];
    }
  }
}
