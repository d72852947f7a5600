/**
 * Reading a price out of the text of a price element, as `extract_price` does in the requests
 * scraper and the inline code of the Selenium scraper does: delete every U+0020 space, take the
 * leftmost match of `\d+[,.]?\d*`, read a comma as the decimal point. The value is kept as an
 * exact decimal.
 */
module Price {
  import opened Wrappers
  import opened Strings

  predicate IsSeparator(c: char) {
    c == ',' || c == '.'
  }

  predicate AllDigits(s: string) {
    forall k | 0 <= k < |s| :: IsDigit(s[k])
  }

  /** The text of one match of `\d+[,.]?\d*`: whole digits, the separator if any ("" or one character), fraction digits. */
  datatype Numeral = Numeral(whole: string, sep: string, frac: string)

  function Render(m: Numeral): string {
    m.whole + m.sep + m.frac
  }

  /** `m` is something `\d+[,.]?\d*` can match */
  predicate WellFormed(m: Numeral) {
    && m.whole != [] && AllDigits(m.whole)
    && (m.sep == [] || (|m.sep| == 1 && IsSeparator(m.sep[0])))
    && AllDigits(m.frac)
    && (m.sep == [] ==> m.frac == [])
  }

  /** `m` is well formed and written out at index `i` of `t`, and the character after it cannot extend it */
  predicate GreedyAt(t: string, i: nat, m: Numeral) {
    && WellFormed(m) && i + |Render(m)| <= |t| && t[i..i + |Render(m)|] == Render(m)
    && var after := i + |Render(m)|;
       after == |t| || (!IsDigit(t[after]) && (m.sep == [] ==> !IsSeparator(t[after])))
  }

  /**
   * The greedy match read at index `i` of `t` is `m`: no digit before `i`, `m` written out at `i`,
   * and the character after it cannot extend it.
   */
  predicate LeftmostMatchAt(t: string, i: int, m: Numeral) {
    0 <= i <= |t| && !HasDigit(t[..i]) && GreedyAt(t, i, m)
  }

  /** Length of the run of digits at the start of `t` */
  function DigitRun(t: string): (n: nat)
    ensures n <= |t| && AllDigits(t[..n]) && (n == |t| || !IsDigit(t[n]))
  {
    if t == [] || !IsDigit(t[0]) then 0
    else
      var n := 1 + DigitRun(t[1..]);
      assert t[..n] == [t[0]] + t[1..][..n - 1];
      n
  }

  /** End of the run of digits that starts at index `i` of `t` */
  function RunEnd(t: string, i: nat): (e: nat)
    requires i <= |t|
    ensures i <= e <= |t| && AllDigits(t[i..e]) && (e == |t| || !IsDigit(t[e]))
  {
    var w := DigitRun(t[i..]);
    assert t[i..i + w] == t[i..][..w];
    i + w
  }

  /** The greedy match at index `i`, which holds a digit. */
  function MatchAt(t: string, i: nat): Numeral
    requires i < |t| && IsDigit(t[i])
  {
    var j := RunEnd(t, i);
    if j < |t| && IsSeparator(t[j]) then Numeral(t[i..j], [t[j]], t[j + 1..RunEnd(t, j + 1)])
    else Numeral(t[i..j], "", "")
  }

  /** A slice is the slice before `j`, the character at `j` and the slice after it. */
  lemma SliceAround(t: string, i: nat, j: nat, e: nat)
    requires i <= j < e <= |t|
    ensures t[i..e] == t[i..j] + [t[j]] + t[j + 1..e]
  {
  }

  /** The match at `i` is written out at `i`, and the character after it cannot extend it. */
  lemma MatchAtIsGreedy(t: string, i: nat)
    requires i < |t| && IsDigit(t[i])
    ensures GreedyAt(t, i, MatchAt(t, i))
  {
    var j := RunEnd(t, i);
    if j < |t| && IsSeparator(t[j]) {
      var e := RunEnd(t, j + 1);
      SeparatedMatch(t, i, j, e);
    } else {
      WholeMatch(t, i, j);
    }
  }

  /** A match with a separator: digits `t[i..j]`, the separator `t[j]`, digits `t[j + 1..e]` */
  lemma SeparatedMatch(t: string, i: nat, j: nat, e: nat)
    requires i < j < e <= |t| && AllDigits(t[i..j]) && IsSeparator(t[j]) && AllDigits(t[j + 1..e])
    requires e == |t| || !IsDigit(t[e])
    ensures GreedyAt(t, i, Numeral(t[i..j], [t[j]], t[j + 1..e]))
  {
    var m := Numeral(t[i..j], [t[j]], t[j + 1..e]);
    assert |Render(m)| == e - i;
    SliceAround(t, i, j, e);
  }

  /** A match without a separator: the digits `t[i..j]`, followed by neither a digit nor a separator */
  lemma WholeMatch(t: string, i: nat, j: nat)
    requires i < j <= |t| && AllDigits(t[i..j])
    requires j == |t| || (!IsDigit(t[j]) && !IsSeparator(t[j]))
    ensures GreedyAt(t, i, Numeral(t[i..j], "", ""))
  {
    assert t[i..j] + "" + "" == t[i..j];
  }

  /** Index of the leftmost digit of `t` */
  function FirstDigit(t: string): (r: Option<nat>)
    ensures r.None? <==> !HasDigit(t)
    ensures r.Some? ==> r.value < |t| && IsDigit(t[r.value]) && !HasDigit(t[..r.value])
  {
    if t == [] then None
    else if IsDigit(t[0]) then Some(0)
    else match FirstDigit(t[1..])
      case None => None
      case Some(k) =>
        assert t[..k + 1] == [t[0]] + t[1..][..k];
        Some(k + 1)
  }

  /** `re.search(r'(\d+[,.]?\d*)', t)`: the leftmost match, if there is one. */
  function SearchNumeral(t: string): (r: Option<Numeral>)
    ensures r.None? <==> !HasDigit(t)
    ensures r.Some? ==> exists i | 0 <= i < |t| :: LeftmostMatchAt(t, i, r.value)
  {
    match FirstDigit(t)
    case None => None
    case Some(i) =>
      var m := MatchAt(t, i);
      MatchAtIsGreedy(t, i);
      assert LeftmostMatchAt(t, i, m);
      Some(m)
  }

  function Pow10(n: nat): (p: nat)
    ensures p >= 1
  {
    if n == 0 then 1 else 10 * Pow10(n - 1)
  }

  /** `float(text.replace(',', '.'))` of a match, exactly: the separator, comma or dot, is the decimal point. */
  function Value(m: Numeral): (v: real)
    requires WellFormed(m)
    ensures v >= 0.0
  {
    DigitsValue(m.whole) as real + DigitsValue(m.frac) as real / Pow10(|m.frac|) as real
  }

  /** The numeric part of the requests scraper's price rule and of the Selenium scraper's inline copy. */
  function PriceValue(text: string): (r: Option<real>)
    ensures r.None? <==> !HasDigit(text)
    ensures r.Some? ==> r.value >= 0.0
    ensures r.Some? ==> exists i, m | 0 <= i < |Remove(text, ' ')| ::
      LeftmostMatchAt(Remove(text, ' '), i, m) && r.value == Value(m)
  {
    var t := Remove(text, ' ');
    RemoveKeepsDigits(text);
    match SearchNumeral(t)
    case None => None
    case Some(m) => Some(Value(m))
  }

  /** `extract_price`: empty text gives None, otherwise the value of the leftmost number. */
  function ExtractPrice(text: string): (r: Option<real>)
    ensures r.None? <==> !HasDigit(text)
    ensures r.Some? ==> r.value >= 0.0
    ensures r.Some? ==> exists i, m | 0 <= i < |Remove(text, ' ')| ::
      LeftmostMatchAt(Remove(text, ' '), i, m) && r.value == Value(m)
  {
    if text == "" then None else PriceValue(text)
  }

  /** The empty-text test of `extract_price` changes nothing: both scrapers read prices alike. */
  lemma ExtractPriceIsPriceValue(text: string)
    ensures ExtractPrice(text) == PriceValue(text)
  {
  }

  /** Deleting spaces neither creates nor destroys a digit. */
  lemma RemoveKeepsDigits(s: string)
    ensures HasDigit(Remove(s, ' ')) <==> HasDigit(s)
  {
    var r := Remove(s, ' ');
    if HasDigit(s) {
      var k :| 0 <= k < |s| && IsDigit(s[k]);
      RemoveKeeps(s, ' ', s[k]);
      var j :| 0 <= j < |r| && r[j] == s[k];
    }
    if HasDigit(r) {
      var k :| 0 <= k < |r| && IsDigit(r[k]);
      RemoveKeeps(s, ' ', r[k]);
      var j :| 0 <= j < |s| && s[j] == r[k];
    }
  }

  /** `m` is the greedy match at the very start of `u` */
  predicate PrefixMatch(u: string, m: Numeral) {
    && WellFormed(m)
    && |Render(m)| <= |u| && u[..|Render(m)|] == Render(m)
    && (|Render(m)| == |u| || (!IsDigit(u[|Render(m)|]) && (m.sep == [] ==> !IsSeparator(u[|Render(m)|]))))
  }

  /** The leftmost match is unique: the characterisation determines where it starts and what it is. */
  lemma LeftmostMatchUnique(t: string, i: int, m: Numeral, i': int, m': Numeral)
    requires LeftmostMatchAt(t, i, m) && LeftmostMatchAt(t, i', m')
    ensures i == i' && m == m'
  {
    assert t[i] == t[i..i + |Render(m)|][0] == m.whole[0];
    assert t[i'] == t[i'..i' + |Render(m')|][0] == m'.whole[0];
    assert forall k | 0 <= k < i :: t[..i][k] == t[k];
    assert forall k | 0 <= k < i' :: t[..i'][k] == t[k];
    assert i == i';
    assert t[i..][..|Render(m)|] == t[i..i + |Render(m)|];
    assert t[i..][..|Render(m')|] == t[i..i + |Render(m')|];
    PrefixMatchUnique(t[i..], m, m');
  }

  /** What `u` holds where a prefix match `m` is written out */
  lemma PrefixMatchParts(u: string, m: Numeral)
    requires PrefixMatch(u, m)
    ensures forall k | 0 <= k < |m.whole| :: u[k] == m.whole[k]
    ensures m.sep != [] ==> u[|m.whole|] == m.sep[0]
    ensures m.sep != [] ==> |m.whole| + 1 + |m.frac| <= |u|
    ensures forall k | 0 <= k < |m.frac| :: u[|m.whole| + 1 + k] == m.frac[k]
  {
    var r := Render(m);
    assert forall k | 0 <= k < |r| :: u[k] == u[..|r|][k] == r[k];
    assert forall k | 0 <= k < |m.whole| :: r[k] == m.whole[k];
    if m.sep != [] {
      assert r[|m.whole|] == m.sep[0];
      assert forall k | 0 <= k < |m.frac| :: r[|m.whole| + 1 + k] == m.frac[k];
    }
  }

  lemma PrefixMatchUnique(u: string, m: Numeral, m': Numeral)
    requires PrefixMatch(u, m) && PrefixMatch(u, m')
    ensures m == m'
  {
    PrefixMatchParts(u, m);
    PrefixMatchParts(u, m');
    WholeUnique(u, m, m');
    var a := |m.whole|;
    if m.sep != [] && m'.sep != [] {
      var v := u[a + 1..];
      assert forall k | 0 <= k < |m.frac| :: v[k] == m.frac[k];
      assert forall k | 0 <= k < |m'.frac| :: v[k] == m'.frac[k];
      assert v[..|m.frac|] == m.frac && v[..|m'.frac|] == m'.frac;
      FracUnique(v, m.frac, m'.frac);
    }
  }

  lemma WholeUnique(u: string, m: Numeral, m': Numeral)
    requires PrefixMatch(u, m) && PrefixMatch(u, m')
    ensures m.whole == m'.whole
  {
    PrefixMatchParts(u, m);
    PrefixMatchParts(u, m');
    var a, b := |m.whole|, |m'.whole|;
    assert a == |u| || !IsDigit(u[a]);
    assert b == |u| || !IsDigit(u[b]);
    assert m.whole == u[..a] && m'.whole == u[..b];
  }

  lemma FracUnique(t: string, f: string, f': string)
    requires AllDigits(f) && AllDigits(f')
    requires |f| <= |t| && t[..|f|] == f && (|f| == |t| || !IsDigit(t[|f|]))
    requires |f'| <= |t| && t[..|f'|] == f' && (|f'| == |t| || !IsDigit(t[|f'|]))
    ensures f == f'
  {
  }

  /** The price read from `text` once its leftmost match is known */
  lemma PriceFromMatch(text: string, i: int, m: Numeral)
    requires LeftmostMatchAt(Remove(text, ' '), i, m)
    ensures ExtractPrice(text) == Some(Value(m))
  {
    assert IsDigit(Remove(text, ' ')[i]) by {
      assert Remove(text, ' ')[i] == Remove(text, ' ')[i..i + |Render(m)|][0];
    }
    RemoveKeepsDigits(text);
    var r := ExtractPrice(text);
    var i', m' :| 0 <= i' < |Remove(text, ' ')| && LeftmostMatchAt(Remove(text, ' '), i', m') && r.value == Value(m');
    LeftmostMatchUnique(Remove(text, ' '), i, m, i', m');
  }

  lemma CommaValue()
    ensures Value(Numeral("12", ",", "50")) == 12.5
  {
    assert DigitsValue("1") == 1 && DigitsValue("5") == 5;
    assert DigitsValue("12") == 12 && DigitsValue("50") == 50 && Pow10(2) == 100;
  }

  lemma CommaRemoved()
    ensures Remove("12,50 €", ' ') == "12,50€"
  {
    RemoveBetween("12,50", "€", ' ');
    assert "12,50" + [' '] + "€" == "12,50 €";
    assert "12,50" + "€" == "12,50€";
  }

  lemma CommaMatch()
    ensures LeftmostMatchAt("12,50€", 0, Numeral("12", ",", "50"))
  {
    assert "12,50€"[..0] == [];
  }

  /** A French price with a decimal comma and a currency sign */
  lemma ExtractPriceCommaExample()
    ensures ExtractPrice("12,50 €") == Some(12.5)
  {
    CommaValue();
    CommaRemoved();
    CommaMatch();
    PriceFromMatch("12,50 €", 0, Numeral("12", ",", "50"));
  }

  lemma SpacedThousandsValue()
    ensures Value(Numeral("1234", ",", "00")) == 1234.0
  {
    assert "1234"[..3] == "123" && "123"[..2] == "12" && "12"[..1] == "1" && "1"[..0] == "";
    assert DigitsValue("1") == 1 && DigitsValue("12") == 12;
    assert DigitsValue("123") == 123;
    assert DigitsValue("1234") == 1234;
    assert "00"[..1] == "0" && "0"[..0] == "";
    assert DigitsValue("0") == 0 && DigitsValue("00") == 0;
  }

  lemma SpacedThousandsRemoved()
    ensures Remove("1 234,00", ' ') == "1234,00"
  {
    RemoveBetween("1", "234,00", ' ');
    assert "1" + [' '] + "234,00" == "1 234,00";
    assert "1" + "234,00" == "1234,00";
  }

  lemma SpacedThousandsMatch()
    ensures LeftmostMatchAt("1234,00", 0, Numeral("1234", ",", "00"))
  {
    assert "1234,00"[..0] == [];
  }

  /** U+0020 thousands separators are deleted before matching */
  lemma ExtractPriceSpacedThousandsExample()
    ensures ExtractPrice("1 234,00") == Some(1234.0)
  {
    SpacedThousandsValue();
    SpacedThousandsRemoved();
    SpacedThousandsMatch();
    PriceFromMatch("1 234,00", 0, Numeral("1234", ",", "00"));
  }

  lemma DottedThousandsValue()
    ensures Value(Numeral("1", ".", "234")) == 1.234
  {
    assert DigitsValue("1") == 1 && DigitsValue("2") == 2 && DigitsValue("23") == 23;
    assert DigitsValue("234") == 234;
    assert Pow10(1) == 10 && Pow10(2) == 100 && Pow10(3) == 1000;
    assert 234.0 / 1000.0 == 0.234;
  }

  lemma DottedThousandsRemoved()
    ensures Remove("1.234,56", ' ') == "1.234,56"
  {
    RemoveAbsent("1.234,56", ' ');
  }

  lemma DottedThousandsMatch()
    ensures LeftmostMatchAt("1.234,56", 0, Numeral("1", ".", "234"))
  {
    assert "1.234,56"[..0] == [];
  }

  /** A dot is read as the decimal point and the match stops at the comma after it */
  lemma ExtractPriceDottedThousandsExample()
    ensures ExtractPrice("1.234,56") == Some(1.234)
  {
    DottedThousandsValue();
    DottedThousandsRemoved();
    DottedThousandsMatch();
    PriceFromMatch("1.234,56", 0, Numeral("1", ".", "234"));
  }

  /** A non-breaking space is not deleted, so it ends the match */
  lemma ExtractPriceNoBreakSpaceExample()
    ensures ExtractPrice("1\U{A0}234") == Some(1.0)
  {
    var m := Numeral("1", "", "");
    assert Value(m) == 1.0 by {
      assert DigitsValue("1") == 1;
    }
    assert Remove("1\U{A0}234", ' ') == "1\U{A0}234" by {
      RemoveAbsent("1\U{A0}234", ' ');
    }
    assert LeftmostMatchAt("1\U{A0}234", 0, m) by {
      assert "1\U{A0}234"[..0] == [];
    }
    PriceFromMatch("1\U{A0}234", 0, m);
  }

  /** Text without a digit has no price */
  lemma ExtractPriceNoDigitExample()
    ensures ExtractPrice("") == None && ExtractPrice("€") == None
  {
    assert !HasDigit("€");
  }
}
