/**
 * The pieces both scrapers select elements with: the case-insensitive class patterns handed to
 * BeautifulSoup (`re.compile(..., re.I)`), the CSS class selectors handed to Selenium, ordered
 * fallback chains of matchers, and "the first selector that matches anything".
 */
module Selectors {
  import opened Wrappers
  import opened Strings
  import opened Dom

  /** `re.search(w, s, re.I)` for a pattern `w` that is a lower-case literal */
  predicate SearchCI(s: string, w: string) {
    Contains(Lower(s), w)
  }

  /** `re.search(a + '.*' + b, s, re.I)` for lower-case literals `a`, `b`: `.` does not match a newline. */
  predicate SearchThenCI(s: string, a: string, b: string) {
    exists i, j | 0 <= i && i + |a| <= j <= |s| - |b| ::
      OccursAt(Lower(s), a, i) && OccursAt(Lower(s), b, j) && '\n' !in s[i + |a|..j]
  }

  /**
   * `class_=re.compile(...)`: BeautifulSoup splits the class attribute at white space and the
   * pattern must find a match in one of the classes or in the classes joined by single spaces.
   */
  predicate ClassMatches(n: Node, pattern: string -> bool) {
    Attr(n, "class").Some? &&
    var classes := Words(Attr(n, "class").value);
    (exists k | 0 <= k < |classes| :: pattern(classes[k])) || pattern(Join(classes, ' '))
  }

  /** A tag from `tags` whose class matches `pattern`: `find([t1, t2, ...], class_=pattern)`. */
  predicate TagsWithClass(n: Node, tags: set<string>, pattern: string -> bool) {
    n.Element? && n.tag in tags && ClassMatches(n, pattern)
  }

  /** White space as CSS separates class names with */
  predicate IsCssSpace(c: char) {
    c == ' ' || c == '\t' || c == '\n' || c == '\r' || c == '\U{0C}'
  }

  /** `w` is one of the white-space separated tokens of `s` */
  predicate HasToken(s: string, w: string) {
    exists i | 0 <= i <= |s| - |w| ::
      OccursAt(s, w, i)
      && (i == 0 || IsCssSpace(s[i - 1]))
      && (i + |w| == |s| || IsCssSpace(s[i + |w|]))
  }

  /** CSS `.name` */
  predicate HasClass(n: Node, name: string) {
    Attr(n, "class").Some? && HasToken(Attr(n, "class").value, name)
  }

  /** CSS `[class*='w']`: the class attribute contains `w`, case-sensitively. */
  predicate ClassHasSubstring(n: Node, w: string) {
    Attr(n, "class").Some? && Contains(Attr(n, "class").value, w)
  }

  /** What `f` gives for the first of `selectors` for which it gives anything, or None. */
  function FirstSomeBy<S, T>(f: S -> Option<T>, selectors: seq<S>): Option<T> {
    if selectors == [] then None
    else if f(selectors[0]).Some? then f(selectors[0])
    else FirstSomeBy(f, selectors[1..])
  }

  /** `FirstSomeBy` is None exactly when every selector gives None, and is otherwise what the first selector that gives a value gives. */
  lemma {:induction false} FirstSomeByIsFirst<S, T>(f: S -> Option<T>, selectors: seq<S>)
    ensures var r := FirstSomeBy(f, selectors);
      (r.None? <==> forall k | 0 <= k < |selectors| :: f(selectors[k]).None?) &&
      (r.Some? ==> exists k | 0 <= k < |selectors| ::
        r == f(selectors[k]) && forall j | 0 <= j < k :: f(selectors[j]).None?)
  {
    if selectors != [] && f(selectors[0]).None? {
      var rest := selectors[1..];
      var r := FirstSomeBy(f, rest);
      FirstSomeByIsFirst(f, rest);
      assert forall k | 0 <= k < |rest| :: rest[k] == selectors[k + 1];
      if r.Some? {
        var k :| 0 <= k < |rest| && r == f(rest[k]) && forall j | 0 <= j < k :: f(rest[j]).None?;
        assert forall j | 0 <= j < k + 1 :: f(selectors[j]).None? by {
          forall j | 0 <= j < k + 1 ensures f(selectors[j]).None? {
            if j > 0 { assert selectors[j] == rest[j - 1]; }
          }
        }
      }
    }
  }

  /** A matcher that looks for the first descendant satisfying `p` */
  function Finder(p: Node -> bool): Node -> Option<Node> {
    n => Find(n, p)
  }

  /** What `find` gives for the first of `selectors` for which it gives anything, or `[]`. */
  function FirstNonEmptyBy<S, T>(find: S -> seq<T>, selectors: seq<S>): seq<T> {
    if selectors == [] then []
    else if find(selectors[0]) != [] then find(selectors[0])
    else FirstNonEmptyBy(find, selectors[1..])
  }

  /** `root.find_all` as a function of the selector */
  function FindAllIn(root: Node): (Node -> bool) -> seq<Node> {
    (p: Node -> bool) => FindAll(root, p)
  }

  /** `find_all` with the first of `selectors` that matches anything, as both container loops do. */
  function FirstNonEmpty(root: Node, selectors: seq<Node -> bool>): seq<Node> {
    FirstNonEmptyBy(FindAllIn(root), selectors)
  }

  lemma {:induction false} FirstNonEmptyByIsFirst<S, T>(find: S -> seq<T>, selectors: seq<S>)
    ensures var r := FirstNonEmptyBy(find, selectors);
      (r == [] <==> forall k | 0 <= k < |selectors| :: find(selectors[k]) == []) &&
      (r != [] ==> exists k | 0 <= k < |selectors| ::
        r == find(selectors[k]) && forall j | 0 <= j < k :: find(selectors[j]) == [])
  {
    if selectors != [] && find(selectors[0]) == [] {
      var rest := selectors[1..];
      var r := FirstNonEmptyBy(find, rest);
      FirstNonEmptyByIsFirst(find, rest);
      assert forall k | 0 <= k < |rest| :: rest[k] == selectors[k + 1];
      if r != [] {
        var k :| 0 <= k < |rest| && r == find(rest[k]) && forall j | 0 <= j < k :: find(rest[j]) == [];
        assert forall j | 0 <= j < k + 1 :: find(selectors[j]) == [] by {
          forall j | 0 <= j < k + 1 ensures find(selectors[j]) == [] {
            if j > 0 { assert selectors[j] == rest[j - 1]; }
          }
        }
      }
    }
  }

  /**
   * `FirstNonEmpty` is empty exactly when no selector finds anything, and is otherwise what the
   * first selector that finds something finds.
   */
  lemma FirstNonEmptyIsFirstMatch(root: Node, selectors: seq<Node -> bool>)
    ensures var r := FirstNonEmpty(root, selectors);
      (r == [] <==> forall k | 0 <= k < |selectors| :: FindAll(root, selectors[k]) == []) &&
      (r != [] ==> exists k | 0 <= k < |selectors| ::
        r == FindAll(root, selectors[k]) && forall j | 0 <= j < k :: FindAll(root, selectors[j]) == [])
  {
    FirstNonEmptyByIsFirst(FindAllIn(root), selectors);
  }

  /**
   * The container loop of both scrapers: try each selector in turn and keep the first
   * non-empty result.
   */
  method SelectContainers(root: Node, selectors: seq<Node -> bool>) returns (containers: seq<Node>)
    ensures containers == FirstNonEmpty(root, selectors)
  {
    containers := [];
    for i := 0 to |selectors|
      invariant forall j | 0 <= j < i :: FindAll(root, selectors[j]) == []
      invariant FirstNonEmpty(root, selectors) == FirstNonEmptyBy(FindAllIn(root), selectors[i..])
    {
      var found := FindAll(root, selectors[i]);
      if found != [] {
        containers := found;
        return;
      }
      assert selectors[i..][1..] == selectors[i + 1..];
    }
  }
}
