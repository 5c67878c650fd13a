/**
 * utils/finance_utils.py: `parse_dollar_amount`, which turns the text of a
 * dollar amount ("$1,000", "$1 million", "$1.5 billion", "$1.5M") into its
 * value. Values are exact reals.
 */
module FinanceUtils {
  import opened Wrappers
  import opened Ascii
  import opened Seqs

  predicate IsNotDollar(c: char) { c != '$' }

  predicate IsNotComma(c: char) { c != ',' }

  /** `s.replace('$', '').replace(',', '')` */
  function RemoveSymbols(s: string): (r: string)
    ensures |r| <= |s|
    ensures forall c :: c in r <==> c in s && c != '$' && c != ','
  {
    FilterMultiset(s, IsNotDollar);
    FilterMultiset(Filter(s, IsNotDollar), IsNotComma);
    Filter(Filter(s, IsNotDollar), IsNotComma)
  }

  /** Every `$` and every comma is deleted, and every other character occurs as often as in `s`. */
  lemma RemoveSymbolsMultiset(s: string)
    ensures forall c :: multiset(RemoveSymbols(s))[c] == if c == '$' || c == ',' then 0 else multiset(s)[c]
  {
    FilterMultiset(s, IsNotDollar);
    FilterMultiset(Filter(s, IsNotDollar), IsNotComma);
  }

  /** The symbols themselves leave nothing. */
  lemma RemoveSymbolsOfSymbol(c: char)
    requires c == '$' || c == ','
    ensures RemoveSymbols([c]) == []
  {
    assert [c][1..] == [];
  }

  /** Deletion works character by character, so the other characters keep their order. */
  lemma RemoveSymbolsConcat(a: string, b: string)
    ensures RemoveSymbols(a + b) == RemoveSymbols(a) + RemoveSymbols(b)
  {
    FilterConcat(a, b, IsNotDollar);
    FilterConcat(Filter(a, IsNotDollar), Filter(b, IsNotDollar), IsNotComma);
  }

  /** A string holding neither symbol is left as it is. */
  lemma RemoveSymbolsNone(s: string)
    requires forall i :: 0 <= i < |s| ==> s[i] != '$' && s[i] != ','
    ensures RemoveSymbols(s) == s
  {
    FilterAll(s, IsNotDollar);
    FilterAll(s, IsNotComma);
  }

  /** The end of `s` once its trailing whitespace is cut off. */
  function TrimEnd(s: string): (j: nat)
    ensures j <= |s|
    ensures AllSpaces(s[j..])
    ensures j == 0 || !IsSpace(s[j - 1])
  {
    if s != [] && IsSpace(s[|s| - 1]) then
      var j := TrimEnd(s[..|s| - 1]);
      assert s[j..] == s[..|s| - 1][j..] + [s[|s| - 1]];
      j
    else |s|
  }

  /** `r` is `s` with some whitespace cut from each end. */
  ghost predicate TrimmedFrom(s: string, r: string)
  {
    exists i :: 0 <= i <= |s| - |r| && s[i..i + |r|] == r && AllSpaces(s[..i]) && AllSpaces(s[i + |r|..])
  }

  /**
   * `str.strip()`: all the whitespace at either end is cut off, so the
   * result neither starts nor ends with whitespace.
   */
  function Strip(s: string): (r: string)
    ensures r == [] || (!IsSpace(r[0]) && !IsSpace(r[|r| - 1]))
    ensures forall c :: c in r ==> c in s
  {
    var i := SpaceRunEnd(s, 0);
    var t := s[i..];
    t[..TrimEnd(t)]
  }

  /** What strip cuts off is whitespace, and it only cuts: every character kept comes from `s`. */
  lemma StripTrims(s: string)
    ensures TrimmedFrom(s, Strip(s))
    ensures multiset(Strip(s)) <= multiset(s)
  {
    var i := SpaceRunEnd(s, 0);
    var t := s[i..];
    var j := TrimEnd(t);
    assert s[i..i + j] == t[..j];
    assert s[i + j..] == t[j..];
    assert s == s[..i] + t[..j] + t[j..];
  }

  /** A string that neither starts nor ends with whitespace is its own strip. */
  lemma StripUnchanged(s: string)
    requires s == [] || (!IsSpace(s[0]) && !IsSpace(s[|s| - 1]))
    ensures Strip(s) == s
  {
    assert s[0..] == s;
  }

  /** Stripping twice cuts nothing more. */
  lemma StripIdempotent(s: string)
    ensures Strip(Strip(s)) == Strip(s)
  {
    StripUnchanged(Strip(s));
  }

  /** `s` holds `sub` at position `k`. */
  predicate OccursAt(s: string, sub: string, k: int)
  {
    0 <= k <= |s| - |sub| && s[k..k + |sub|] == sub
  }

  /** Python's `sub in s` for a substring. */
  predicate Contains(s: string, sub: string)
  {
    exists k :: 0 <= k <= |s| - |sub| && OccursAt(s, sub, k)
  }

  /** A string containing `sub` contains its first character. */
  lemma ContainsFirst(s: string, sub: string)
    requires sub != []
    ensures Contains(s, sub) ==> sub[0] in s
  {
    if Contains(s, sub) {
      var k :| 0 <= k <= |s| - |sub| && OccursAt(s, sub, k);
      assert s[k..k + |sub|][0] == s[k];
    }
  }

  /** `any(c.isalpha() for c in s)` */
  predicate HasLetter(s: string)
  {
    exists k :: 0 <= k < |s| && IsAlpha(s[k])
  }

  /**
   * The multiplier of the lower-cased text: a million when it holds an `m`
   * or `million`, otherwise a billion when it holds a `b` or `billion`,
   * otherwise a thousand when it holds a `k` or `thousand`, otherwise 1;
   * none when, in that last case, it holds a letter (the amount is invalid).
   */
  function Multiplier(s: string): (m: Option<real>)
    ensures m.Some? ==> IsFactor(m.value)
    ensures m.None? ==> HasLetter(s)
  {
    if 'm' in s || Contains(s, "million") then Some(1000000.0)
    else if 'b' in s || Contains(s, "billion") then Some(1000000000.0)
    else if 'k' in s || Contains(s, "thousand") then Some(1000.0)
    else if HasLetter(s) then None
    else Some(1.0)
  }

  /**
   * The word tests add nothing to the letter tests but `thousand`, and the
   * letters take priority in the order `m`, `b`, `k`. There is no multiplier
   * exactly when the text holds a letter and none of these; otherwise it is
   * at least 1.
   */
  lemma MultiplierCases(s: string)
    ensures Multiplier(s).None? <==> !('m' in s || 'b' in s || 'k' in s || Contains(s, "thousand")) && HasLetter(s)
    ensures Multiplier(s).Some? ==> IsFactor(Multiplier(s).value)
    ensures 'm' in s ==> Multiplier(s) == Some(1000000.0)
    ensures 'm' !in s && 'b' in s ==> Multiplier(s) == Some(1000000000.0)
    ensures 'm' !in s && 'b' !in s && ('k' in s || Contains(s, "thousand")) ==> Multiplier(s) == Some(1000.0)
    ensures !HasLetter(s) ==> Multiplier(s) == Some(1.0)
  {
    ContainsFirst(s, "million");
    ContainsFirst(s, "billion");
    ContainsFirst(s, "thousand");
    assert 'm' in s || 'b' in s || 'k' in s || 't' in s ==> HasLetter(s);
  }

  /** A match of `\d+(\.\d+)?`: where it starts, its digits, and the digits after the point, if any. */
  datatype Decimal = Decimal(start: nat, whole: string, fraction: Option<string>)

  function DecimalText(d: Decimal): string
  {
    d.whole + (if d.fraction.Some? then ['.'] + d.fraction.value else [])
  }

  /** `float(...)` of the literal, exactly. */
  function DecimalValue(d: Decimal): (v: real)
    ensures v >= 0.0
  {
    DigitsValue(d.whole) as real + (if d.fraction.Some? then FractionValue(d.fraction.value) else 0.0)
  }

  /** The position of the first digit of `s` at or after `i`, or |s| when there is none. */
  function FirstDigit(s: string, i: nat): (k: nat)
    requires i <= |s|
    ensures i <= k <= |s|
    ensures forall p :: i <= p < k ==> !IsDigit(s[p])
    ensures k < |s| ==> IsDigit(s[k])
    decreases |s| - i
  {
    if i == |s| || IsDigit(s[i]) then i else FirstDigit(s, i + 1)
  }

  /**
   * `re.search(r'\d+(\.\d+)?', s)`: the literal starts at the leftmost digit,
   * takes every digit that follows, and takes a point with every digit after
   * it when a digit follows the point. There is none when `s` has no digit.
   */
  function FirstDecimal(s: string): (r: Option<Decimal>)
    ensures r.None? <==> forall p :: 0 <= p < |s| ==> !IsDigit(s[p])
    ensures r.Some? ==> r.value.start < |s| && IsDigit(s[r.value.start])
  {
    var k := FirstDigit(s, 0);
    if k == |s| then None
    else
      var e := DigitRunEnd(s, k);
      if e + 1 < |s| && s[e] == '.' && IsDigit(s[e + 1]) then
        Some(Decimal(k, s[k..e], Some(s[e + 1..DigitRunEnd(s, e + 1)])))
      else
        Some(Decimal(k, s[k..e], None))
  }

  /** `s` holds the literal `d` at its start. */
  ghost predicate WrittenAt(s: string, d: Decimal)
  {
    |d.whole| >= 1 && AllDigits(d.whole) &&
    (d.fraction.Some? ==> |d.fraction.value| >= 1 && AllDigits(d.fraction.value)) &&
    d.start + |DecimalText(d)| <= |s| && s[d.start..d.start + |DecimalText(d)|] == DecimalText(d)
  }

  /**
   * `d` is as long as `\d+(\.\d+)?` makes it: no digit follows its digits,
   * it has a fraction exactly when a point and a digit follow them, and no
   * digit follows the fraction.
   */
  ghost predicate Greedy(s: string, d: Decimal)
    requires WrittenAt(s, d)
  {
    var e := d.start + |d.whole|;
    (e == |s| || !IsDigit(s[e])) &&
    (d.fraction.Some? <==> e + 1 < |s| && s[e] == '.' && IsDigit(s[e + 1])) &&
    (d.start + |DecimalText(d)| == |s| || !IsDigit(s[d.start + |DecimalText(d)|]))
  }

  /**
   * The literal found is written in `s` at its start, no digit comes before
   * it, and it is as long as the pattern makes it.
   */
  lemma FirstDecimalLeftmost(s: string)
    requires FirstDecimal(s).Some?
    ensures var d := FirstDecimal(s).value;
      WrittenAt(s, d) && Greedy(s, d) && forall p :: 0 <= p < d.start ==> !IsDigit(s[p])
  {
    var k := FirstDigit(s, 0);
    var e := DigitRunEnd(s, k);
    if e + 1 < |s| && s[e] == '.' && IsDigit(s[e + 1]) {
      var d := Decimal(k, s[k..e], Some(s[e + 1..DigitRunEnd(s, e + 1)]));
      assert FirstDecimal(s) == Some(d);
      LiteralWithFraction(s, k, e);
    } else {
      var d := Decimal(k, s[k..e], None);
      assert FirstDecimal(s) == Some(d);
      LiteralWithoutFraction(s, k, e);
    }
  }

  lemma LiteralWithoutFraction(s: string, k: nat, e: nat)
    requires k < |s| && IsDigit(s[k]) && e == DigitRunEnd(s, k)
    requires !(e + 1 < |s| && s[e] == '.' && IsDigit(s[e + 1]))
    ensures var d := Decimal(k, s[k..e], None);
      WrittenAt(s, d) && Greedy(s, d)
  {
    var d := Decimal(k, s[k..e], None);
    assert e == DigitRunEnd(s, k + 1);
    assert DecimalText(d) == s[k..e];
    assert |DecimalText(d)| == e - k;
    assert WrittenAt(s, d);
  }

  lemma LiteralWithFraction(s: string, k: nat, e: nat)
    requires k < |s| && IsDigit(s[k]) && e == DigitRunEnd(s, k)
    requires e + 1 < |s| && s[e] == '.' && IsDigit(s[e + 1])
    ensures var d := Decimal(k, s[k..e], Some(s[e + 1..DigitRunEnd(s, e + 1)]));
      WrittenAt(s, d) && Greedy(s, d)
  {
    var f := DigitRunEnd(s, e + 1);
    var d := Decimal(k, s[k..e], Some(s[e + 1..f]));
    assert DecimalText(d) == s[k..e] + ['.'] + s[e + 1..f];
    assert s[k..f] == s[k..e] + ['.'] + s[e + 1..f];
  }

  /**
   * In a text that starts with a decimal literal and goes on with neither a
   * digit nor a point, the literal found is that one, whole.
   */
  lemma FirstDecimalOf(w: string, f: Option<string>, rest: string)
    requires |w| >= 1 && AllDigits(w)
    requires f.Some? ==> |f.value| >= 1 && AllDigits(f.value)
    requires rest == [] || (!IsDigit(rest[0]) && rest[0] != '.')
    ensures FirstDecimal(DecimalText(Decimal(0, w, f)) + rest) == Some(Decimal(0, w, f))
  {
    var d := Decimal(0, w, f);
    var s := DecimalText(d) + rest;
    assert s[0] == w[0];
    assert s[..|w|] == w;
    var n := |w|;
    if f.Some? {
      var v := f.value;
      assert s[n] == '.' && s[n + 1] == v[0];
      assert s[n + 1..n + 1 + |v|] == v;
      DigitRunEndExact(s, 0, n);
      DigitRunEndExact(s, n + 1, n + 1 + |v|);
    } else {
      assert n < |s| ==> s[n] == rest[0];
      DigitRunEndExact(s, 0, n);
    }
  }

  /** `detected_string.replace('$', '').replace(',', '').strip().lower()` */
  function CleanText(s: string): (r: string)
    ensures |r| <= |s|
    ensures '$' !in r && ',' !in r
    ensures r == [] || (!IsSpace(r[0]) && !IsSpace(r[|r| - 1]))
  {
    var t := Strip(RemoveSymbols(s));
    assert forall i :: 0 <= i < |t| ==> t[i] in RemoveSymbols(s);
    Lower(t)
  }

  /**
   * The value of cleaned text: the first decimal literal times the
   * multiplier; 0 when the text holds a letter that names no multiplier,
   * and 0 when it holds no digit.
   */
  function ParseCleaned(t: string): (v: real)
    ensures v >= 0.0
  {
    MultiplierCases(t);
    match Multiplier(t)
    case None => 0.0
    case Some(mult) =>
      match FirstDecimal(t)
      case None => 0.0
      case Some(d) => ScaleBy(DecimalValue(d), mult)
  }

  /** One of the four factors a multiplier can be. */
  predicate IsFactor(mult: real)
  {
    mult == 1.0 || mult == 1000.0 || mult == 1000000.0 || mult == 1000000000.0
  }

  /** `value * multiplier`, case by case, so that each product is with a constant. */
  function ScaleBy(v: real, mult: real): (r: real)
    requires IsFactor(mult)
    ensures v >= 0.0 ==> r >= v
  {
    if mult == 1000.0 then v * 1000.0
    else if mult == 1000000.0 then v * 1000000.0
    else if mult == 1000000000.0 then v * 1000000000.0
    else v
  }

  /** `parse_dollar_amount`: clean the text, then read its value. It is never negative. */
  function ParseDollarAmount(s: string): (v: real)
    ensures v >= 0.0
  {
    ParseCleaned(CleanText(s))
  }

  /** The value once the multiplier and the literal of the cleaned text are known. */
  lemma ParseOfCleaned(s: string, t: string, mult: real, d: Decimal, v: real)
    requires CleanText(s) == t
    requires Multiplier(t) == Some(mult) && FirstDecimal(t) == Some(d) && DecimalValue(d) == v
    ensures ParseDollarAmount(s) == ScaleBy(v, mult)
  {
    ParseCleanedValue(t, mult, d);
  }

  lemma ParseCleanedValue(t: string, mult: real, d: Decimal)
    requires Multiplier(t) == Some(mult) && FirstDecimal(t) == Some(d)
    ensures ParseCleaned(t) == ScaleBy(DecimalValue(d), mult)
  {
    assert Multiplier(t).value == mult;
    assert FirstDecimal(t).value == d;
  }

  /** A digit of the cleaned text is a digit of the original one. */
  lemma DigitSurvives(s: string, p: nat)
    requires var t := CleanText(s); p < |t| && IsDigit(t[p])
    ensures exists q :: 0 <= q < |s| && IsDigit(s[q])
  {
    var u := Strip(RemoveSymbols(s));
    RemoveSymbolsMultiset(s);
    StripTrims(RemoveSymbols(s));
    var c := u[p];
    assert IsDigit(c);
    assert c in multiset(u);
    assert c in multiset(s);
    var q :| 0 <= q < |s| && s[q] == c;
  }

  /** Text with no digit is worth nothing. */
  lemma NoDigitIsZero(s: string)
    requires forall p :: 0 <= p < |s| ==> !IsDigit(s[p])
    ensures ParseDollarAmount(s) == 0.0
  {
    var t := CleanText(s);
    if FirstDecimal(t).Some? {
      DigitSurvives(s, FirstDecimal(t).value.start);
    }
  }

  /**
   * A letter other than `m`, `b` or `k`, with no `thousand`, makes the amount
   * invalid: its value is 0 whatever number it holds.
   */
  lemma UnknownLetterIsZero(s: string)
    requires var t := CleanText(s);
      HasLetter(t) && 'm' !in t && 'b' !in t && 'k' !in t && !Contains(t, "thousand")
    ensures ParseDollarAmount(s) == 0.0
  {
    MultiplierCases(CleanText(s));
  }

  /** "$5xyz" is not an amount. */
  lemma InvalidExample(s: string)
    requires s == "$5xyz"
    ensures ParseDollarAmount(s) == 0.0
  {
    var tail := s[1..];
    assert s == "$" + tail;
    assert !IsUpper(tail[0]) && !IsUpper(tail[1]) && !IsUpper(tail[2]) && !IsUpper(tail[3]);
    CleanedPlain(tail);
    assert IsAlpha(tail[1]);
    assert !Contains(tail, "thousand");
    UnknownLetterIsZero(s);
  }

  /** A `$` followed by text with no symbol, no edge whitespace and no upper case cleans to that text. */
  lemma CleanedPlain(tail: string)
    requires forall i :: 0 <= i < |tail| ==> tail[i] != '$' && tail[i] != ',' && !IsUpper(tail[i])
    requires tail == [] || (!IsSpace(tail[0]) && !IsSpace(tail[|tail| - 1]))
    ensures CleanText("$" + tail) == tail
  {
    RemoveSymbolsOfSymbol('$');
    RemoveSymbolsNone(tail);
    RemoveSymbolsConcat("$", tail);
    StripUnchanged(tail);
    LowerNoUpper(tail);
  }
}
