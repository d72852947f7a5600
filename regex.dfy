/**
 * `re.search` for a group of literal alternatives, `(a|b|c)`: the regex engine tries every
 * start position from the left and, at each one, the alternatives in the order written, so
 * the match is the first alternative at the leftmost position where any alternative occurs.
 */
module Regex {
  import opened Wrappers
  import opened Strings

  /** Where a match starts and which alternative matched. */
  datatype Hit = Hit(pos: nat, alt: nat)

  predicate AnyAltAt(key: string, alts: seq<string>, i: int) {
    exists a | 0 <= a < |alts| :: OccursAt(key, alts[a], i)
  }

  /** `h` is the match `re.search` reports: leftmost position, then first alternative. */
  predicate IsLeftmostFirst(key: string, alts: seq<string>, h: Hit) {
    && h.alt < |alts| && OccursAt(key, alts[h.alt], h.pos)
    && (forall i | 0 <= i < h.pos :: !AnyAltAt(key, alts, i))
    && (forall b | 0 <= b < h.alt :: !OccursAt(key, alts[b], h.pos))
  }

  /** The first alternative that occurs at `i` */
  function FirstAltAt(key: string, alts: seq<string>, i: int): (r: Option<nat>)
    ensures r.None? <==> !AnyAltAt(key, alts, i)
    ensures r.Some? ==> (r.value < |alts| && OccursAt(key, alts[r.value], i)
      && forall b | 0 <= b < r.value :: !OccursAt(key, alts[b], i))
  {
    if alts == [] then None
    else if OccursAt(key, alts[0], i) then Some(0)
    else match FirstAltAt(key, alts[1..], i)
      case None => None
      case Some(b) => Some(b + 1)
  }

  /** The leftmost-first match at or after `from` */
  function SearchFrom(key: string, alts: seq<string>, from: nat): (r: Option<Hit>)
    ensures r.None? <==> forall i | from <= i <= |key| :: !AnyAltAt(key, alts, i)
    ensures r.Some? ==> (from <= r.value.pos && r.value.alt < |alts|
      && OccursAt(key, alts[r.value.alt], r.value.pos)
      && (forall i | from <= i < r.value.pos :: !AnyAltAt(key, alts, i))
      && (forall b | 0 <= b < r.value.alt :: !OccursAt(key, alts[b], r.value.pos)))
    decreases |key| - from
  {
    if from > |key| then None
    else match FirstAltAt(key, alts, from)
      case Some(a) => Some(Hit(from, a))
      case None => SearchFrom(key, alts, from + 1)
  }

  /** Whether `re.search` finds any match: some alternative occurs somewhere. */
  predicate Matches(key: string, alts: seq<string>) {
    exists i | 0 <= i <= |key| :: AnyAltAt(key, alts, i)
  }

  /** `re.search((alts), key)`, as a position and an alternative */
  function Search(key: string, alts: seq<string>): (r: Option<Hit>)
    ensures r.None? <==> !Matches(key, alts)
    ensures r.Some? ==> IsLeftmostFirst(key, alts, r.value)
  {
    SearchFrom(key, alts, 0)
  }

  /**
   * `match.group(1)`: the matched part of `text`, where the match was found in `key`, which
   * is `text` itself or, for `re.I`, its lower-case form of the same length.
   */
  function Group(text: string, key: string, alts: seq<string>): (r: Option<string>)
    requires |key| == |text|
    ensures r.None? <==> !Matches(key, alts)
    ensures r.Some? ==> exists h :: IsLeftmostFirst(key, alts, h) && r.value == text[h.pos..h.pos + |alts[h.alt]|]
  {
    match Search(key, alts)
    case None => None
    case Some(h) => Some(text[h.pos..h.pos + |alts[h.alt]|])
  }

  /** With no empty alternative, a match is never empty. */
  lemma GroupNonEmpty(text: string, key: string, alts: seq<string>)
    requires |key| == |text| && forall a | 0 <= a < |alts| :: alts[a] != []
    ensures Group(text, key, alts).Some? ==> Group(text, key, alts).value != []
  {
  }

  /** The match is unique: any two leftmost-first hits coincide. */
  lemma LeftmostFirstUnique(key: string, alts: seq<string>, h: Hit, h': Hit)
    requires IsLeftmostFirst(key, alts, h) && IsLeftmostFirst(key, alts, h')
    ensures h == h'
  {
    assert AnyAltAt(key, alts, h.pos) && AnyAltAt(key, alts, h'.pos);
  }

  /**
   * An alternative written after a prefix of itself is never reported: wherever it occurs,
   * the shorter one occurs too and is tried first.
   */
  lemma ShadowedAlternative(key: string, alts: seq<string>, h: Hit, a: nat, b: nat)
    requires IsLeftmostFirst(key, alts, h)
    requires a < b < |alts| && |alts[a]| <= |alts[b]| && alts[b][..|alts[a]|] == alts[a]
    ensures h.alt != b
  {
    if OccursAt(key, alts[b], h.pos) {
      assert key[h.pos..h.pos + |alts[a]|] == key[h.pos..h.pos + |alts[b]|][..|alts[a]|];
    }
  }

  /** A case-insensitive match, lower-cased, is the alternative that matched. */
  lemma GroupIsAlternative(text: string, alts: seq<string>)
    requires Group(text, Lower(text), alts).Some?
    ensures exists h :: (IsLeftmostFirst(Lower(text), alts, h)
      && Lower(Group(text, Lower(text), alts).value) == alts[h.alt])
  {
    var h := Search(Lower(text), alts).value;
    LowerSlice(text, h.pos, h.pos + |alts[h.alt]|);
  }
}
