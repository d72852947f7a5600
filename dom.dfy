/**
 * The parsed page as both scrapers see it: a tree of elements and text strings, searched
 * in document order. BeautifulSoup's `find`, `find_all`, `find(text=...)`, `get_text()` and
 * `get_text(strip=True)`, and Selenium's `find_element(By.CSS_SELECTOR, ...)` and `.text`
 * are all stated over this one tree.
 */
module Dom {
  import opened Wrappers
  import opened Strings

  /**
   * An element with its tag name, attributes and children, or a text string. Attribute values
   * are the text written in the page; the class patterns split `class` into classes.
   */
  datatype Node =
    | Element(tag: string, attrs: map<string, string>, children: seq<Node>)
    | TextNode(content: string)

  /** A proper descendant together with the element it is a child of. */
  datatype Visit = Visit(parent: Node, node: Node)

  /** Every proper descendant of `n`, in document (pre-)order, each with its parent. */
  function Walk(n: Node): seq<Visit>
  {
    match n
    case TextNode(_) => []
    case Element(_, _, cs) => WalkChildren(n, cs)
  }

  function WalkChildren(parent: Node, cs: seq<Node>): seq<Visit>
    decreases cs
  {
    if cs == [] then [] else [Visit(parent, cs[0])] + Walk(cs[0]) + WalkChildren(parent, cs[1..])
  }

  /** `d` is a proper descendant of `n` */
  predicate IsDescendant(d: Node, n: Node) {
    exists i | 0 <= i < |Walk(n)| :: Walk(n)[i].node == d
  }

  /** A descendant's own descendants are descendants: the walk of a visited node lies in the walk. */
  lemma {:induction false} WalkClosed(n: Node, i: nat)
    requires i < |Walk(n)|
    ensures forall w | w in Walk(Walk(n)[i].node) :: w in Walk(n)
    decreases n, 1
  {
    match n
    case Element(_, _, cs) => WalkChildrenClosed(n, cs, i);
  }

  lemma {:induction false} WalkChildrenClosed(parent: Node, cs: seq<Node>, i: nat)
    requires i < |WalkChildren(parent, cs)|
    ensures forall w | w in Walk(WalkChildren(parent, cs)[i].node) :: w in WalkChildren(parent, cs)
    decreases cs, 0
  {
    var all := WalkChildren(parent, cs);
    var head, tail := Walk(cs[0]), WalkChildren(parent, cs[1..]);
    assert all == [Visit(parent, cs[0])] + head + tail;
    if i == 0 {
    } else if i <= |head| {
      assert all[i] == head[i - 1];
      WalkClosed(cs[0], i - 1);
    } else {
      assert all[i] == tail[i - 1 - |head|];
      WalkChildrenClosed(parent, cs[1..], i - 1 - |head|);
    }
  }

  /** Index of the first visit whose node satisfies `p`. */
  function FirstIndex(vs: seq<Visit>, p: Node -> bool): (r: Option<nat>)
    ensures r.None? <==> forall k | 0 <= k < |vs| :: !p(vs[k].node)
    ensures r.Some? ==> r.value < |vs| && p(vs[r.value].node)
    ensures r.Some? ==> forall k | 0 <= k < r.value :: !p(vs[k].node)
  {
    if vs == [] then None
    else if p(vs[0].node) then Some(0)
    else match FirstIndex(vs[1..], p)
      case None => None
      case Some(k) => Some(k + 1)
  }

  /** BeautifulSoup's `n.find(...)` and Selenium's `n.find_element(...)`: the first descendant satisfying `p`. */
  function Find(n: Node, p: Node -> bool): (r: Option<Node>)
    ensures r.None? <==> forall k | 0 <= k < |Walk(n)| :: !p(Walk(n)[k].node)
    ensures r.Some? ==> p(r.value) && IsDescendant(r.value, n)
    ensures r.Some? ==> exists k | 0 <= k < |Walk(n)| :: IsFirstHit(Walk(n), p, k) && Walk(n)[k].node == r.value
  {
    var vs := Walk(n);
    var i := FirstIndex(vs, p);
    if i.None? then None
    else
      assert p(vs[i.value].node) && IsFirstHit(vs, p, i.value);
      Some(vs[i.value].node)
  }

  /** `vs[k]` is the first visit whose node satisfies `p` */
  predicate IsFirstHit(vs: seq<Visit>, p: Node -> bool, k: int) {
    0 <= k < |vs| && p(vs[k].node) && forall j | 0 <= j < k :: !p(vs[j].node)
  }

  /** What `find` returns from inside a descendant can be found from the ancestor too. */
  lemma FindInsideDescendant(n: Node, d: Node, p: Node -> bool)
    requires IsDescendant(d, n) && Find(n, p).None?
    ensures Find(d, p).None?
  {
    var i :| 0 <= i < |Walk(n)| && Walk(n)[i].node == d;
    WalkClosed(n, i);
    forall k | 0 <= k < |Walk(d)| ensures !p(Walk(d)[k].node) {
      assert Walk(d)[k] in Walk(n);
    }
  }

  /** A descendant satisfying `p` means `find` finds something. */
  lemma DescendantFound(n: Node, d: Node, p: Node -> bool)
    requires IsDescendant(d, n) && p(d)
    ensures Find(n, p).Some?
  {
    var i :| 0 <= i < |Walk(n)| && Walk(n)[i].node == d;
    assert p(Walk(n)[i].node);
  }

  /** BeautifulSoup's `n.find_all(...)`: every descendant satisfying `p`, in document order. */
  function FindAll(n: Node, p: Node -> bool): (r: seq<Node>)
    ensures forall k | 0 <= k < |r| :: p(r[k]) && IsDescendant(r[k], n)
    ensures forall k | 0 <= k < |Walk(n)| && p(Walk(n)[k].node) :: Walk(n)[k].node in r
    ensures r == [] <==> Find(n, p).None?
  {
    FilterNodes(Walk(n), p)
  }

  /** The nodes of `vs` that satisfy `p`, in order */
  function FilterNodes(vs: seq<Visit>, p: Node -> bool): (r: seq<Node>)
    ensures forall k | 0 <= k < |r| :: p(r[k]) && exists j | 0 <= j < |vs| :: vs[j].node == r[k]
    ensures forall k | 0 <= k < |vs| && p(vs[k].node) :: vs[k].node in r
    ensures r == [] <==> forall k | 0 <= k < |vs| :: !p(vs[k].node)
  {
    if vs == [] then []
    else
      var rest := FilterNodes(vs[1..], p);
      assert forall k | 1 <= k < |vs| :: vs[k] == vs[1..][k - 1];
      if p(vs[0].node) then [vs[0].node] + rest else rest
  }

  /** The positions of `vs` from `i` on whose node satisfies `p`, in increasing order */
  function HitsFrom(vs: seq<Visit>, p: Node -> bool, i: nat): (h: seq<nat>)
    requires i <= |vs|
    ensures forall a | 0 <= a < |h| :: i <= h[a] < |vs| && p(vs[h[a]].node)
    ensures forall a, b | 0 <= a < b < |h| :: h[a] < h[b]
    ensures forall k | i <= k < |vs| && p(vs[k].node) :: k in h
    decreases |vs| - i
  {
    if i == |vs| then []
    else (if p(vs[i].node) then [i] else []) + HitsFrom(vs, p, i + 1)
  }

  /**
   * `find_all` keeps document order: its result is the walk's nodes at exactly the positions
   * whose node matches, taken in increasing order.
   */
  lemma FindAllInOrder(n: Node, p: Node -> bool)
    ensures var h := HitsFrom(Walk(n), p, 0);
      |FindAll(n, p)| == |h| && forall a | 0 <= a < |h| :: FindAll(n, p)[a] == Walk(n)[h[a]].node
  {
    var vs := Walk(n);
    FilterMatchesHits(vs, p, 0);
    assert vs[0..] == vs;
  }

  lemma {:induction false} FilterMatchesHits(vs: seq<Visit>, p: Node -> bool, i: nat)
    requires i <= |vs|
    ensures var r, h := FilterNodes(vs[i..], p), HitsFrom(vs, p, i);
      |r| == |h| && forall a | 0 <= a < |h| :: r[a] == vs[h[a]].node
    decreases |vs| - i
  {
    if i < |vs| {
      var r, rest := FilterNodes(vs[i..], p), FilterNodes(vs[i + 1..], p);
      var h, h1 := HitsFrom(vs, p, i), HitsFrom(vs, p, i + 1);
      assert r == (if p(vs[i].node) then [vs[i].node] + rest else rest) by {
        assert vs[i..][1..] == vs[i + 1..] && vs[i..][0] == vs[i];
      }
      FilterMatchesHits(vs, p, i + 1);
      if p(vs[i].node) {
        forall a | 0 <= a < |h| ensures r[a] == vs[h[a]].node {
          if a > 0 {
            assert r[a] == rest[a - 1] && h[a] == h1[a - 1];
          }
        }
      } else {
        assert r == rest && h == h1;
      }
    }
  }

  /** BeautifulSoup's `n.find(text=...)`: the first descendant string satisfying `p`, with its parent. */
  function FindString(n: Node, p: string -> bool): (r: Option<Visit>)
    ensures r.Some? ==> r.value in Walk(n) && r.value.node.TextNode? && p(r.value.node.content)
    ensures r.None? <==> forall k | 0 <= k < |Walk(n)| :: !(Walk(n)[k].node.TextNode? && p(Walk(n)[k].node.content))
  {
    match FirstIndex(Walk(n), (d: Node) => d.TextNode? && p(d.content))
    case None => None
    case Some(k) => Some(Walk(n)[k])
  }

  /** BeautifulSoup's `get_text()` and `.text`: all strings of the subtree concatenated. */
  function TextOf(n: Node): string
  {
    match n
    case TextNode(s) => s
    case Element(_, _, cs) => TextOfAll(cs)
  }

  function TextOfAll(cs: seq<Node>): string
  {
    if cs == [] then "" else TextOf(cs[0]) + TextOfAll(cs[1..])
  }

  /** BeautifulSoup's `get_text(strip=True)`: every string stripped, then concatenated. */
  function StrippedText(n: Node): string
  {
    match n
    case TextNode(s) => Strip(s)
    case Element(_, _, cs) => StrippedTextAll(cs)
  }

  function StrippedTextAll(cs: seq<Node>): string
  {
    if cs == [] then "" else StrippedText(cs[0]) + StrippedTextAll(cs[1..])
  }

  /** The character `ch` occurs in `n` itself, if a string, or in some string below `n`. */
  predicate InSomeString(n: Node, ch: char) {
    || (n.TextNode? && ch in n.content)
    || exists k | 0 <= k < |Walk(n)| :: Walk(n)[k].node.TextNode? && ch in Walk(n)[k].node.content
  }

  /** Every character of `get_text(strip=True)` comes from one of the subtree's strings. */
  lemma {:induction false} StrippedTextFromStrings(n: Node, ch: char)
    requires ch in StrippedText(n)
    ensures InSomeString(n, ch)
    decreases n, 1
  {
    match n
    case TextNode(s) => StripKeeps(s, ch);
    case Element(_, _, cs) =>
      StrippedTextAllFromStrings(n, cs, ch);
      assert Walk(n) == WalkChildren(n, cs);
  }

  lemma {:induction false} StrippedTextAllFromStrings(parent: Node, cs: seq<Node>, ch: char)
    requires ch in StrippedTextAll(cs)
    ensures exists k | 0 <= k < |WalkChildren(parent, cs)| ::
      WalkChildren(parent, cs)[k].node.TextNode? && ch in WalkChildren(parent, cs)[k].node.content
    decreases cs, 0
  {
    var all := WalkChildren(parent, cs);
    var head, tail := Walk(cs[0]), WalkChildren(parent, cs[1..]);
    assert all == [Visit(parent, cs[0])] + head + tail;
    if ch in StrippedText(cs[0]) {
      StrippedTextFromStrings(cs[0], ch);
      if cs[0].TextNode? && ch in cs[0].content {
        assert all[0].node == cs[0];
      } else {
        var k :| 0 <= k < |head| && head[k].node.TextNode? && ch in head[k].node.content;
        assert all[1 + k] == head[k];
      }
    } else {
      assert ch in StrippedTextAll(cs[1..]);
      StrippedTextAllFromStrings(parent, cs[1..], ch);
      var k :| 0 <= k < |tail| && tail[k].node.TextNode? && ch in tail[k].node.content;
      assert all[1 + |head| + k] == tail[k];
    }
  }

  /** A string found below a descendant is found below the ancestor too. */
  lemma StringInsideDescendant(n: Node, d: Node, ch: char)
    requires IsDescendant(d, n) && InSomeString(d, ch)
    ensures exists k | 0 <= k < |Walk(n)| :: Walk(n)[k].node.TextNode? && ch in Walk(n)[k].node.content
  {
    var i :| 0 <= i < |Walk(n)| && Walk(n)[i].node == d;
    if !(d.TextNode? && ch in d.content) {
      WalkClosed(n, i);
      var k :| 0 <= k < |Walk(d)| && Walk(d)[k].node.TextNode? && ch in Walk(d)[k].node.content;
      assert Walk(d)[k] in Walk(n);
    }
  }

  /** `n.get(key)` */
  function Attr(n: Node, key: string): (r: Option<string>)
    ensures r.Some? <==> n.Element? && key in n.attrs
  {
    if n.Element? && key in n.attrs then Some(n.attrs[key]) else None
  }

  /** `n.get(key)` is truthy: present and not empty */
  predicate HasValue(n: Node, key: string) {
    Attr(n, key).Some? && Attr(n, key).value != ""
  }

  predicate IsTag(n: Node, tag: string) {
    n.Element? && n.tag == tag
  }

  /** `find(tag, {key: value})` for a single-valued attribute */
  predicate TagWithAttr(n: Node, tag: string, key: string, value: string) {
    IsTag(n, tag) && Attr(n, key) == Some(value)
  }
}
