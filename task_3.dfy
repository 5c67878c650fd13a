/**
 * tasks/task_3.py: the total of every dollar amount written in the corpus,
 * reported in billions. Every match of `dollar_pattern` in every text is
 * parsed with `parse_dollar_amount` and added up.
 */
module Task3 {
  import opened Wrappers
  import opened Ascii
  import opened Seqs
  import opened DollarPattern
  import opened FinanceUtils

  /* ---- What the parser makes of a match ---- */

  lemma {:induction false} RemoveSymbolsOfGroups(groups: seq<string>)
    requires forall k :: 0 <= k < |groups| ==> AllDigits(groups[k])
    ensures RemoveSymbols(GroupsText(groups)) == GroupDigits(groups)
  {
    if groups != [] {
      var g, rest := groups[0], groups[1..];
      calc {
        RemoveSymbols(GroupsText(groups));
        RemoveSymbols(([','] + g) + GroupsText(rest));
        { RemoveSymbolsConcat([','] + g, GroupsText(rest)); }
        RemoveSymbols([','] + g) + RemoveSymbols(GroupsText(rest));
        { RemoveSymbolsConcat([','], g); RemoveSymbolsOfSymbol(','); RemoveSymbolsNone(g); }
        g + RemoveSymbols(GroupsText(rest));
        { RemoveSymbolsOfGroups(rest); }
        g + GroupDigits(rest);
      }
    }
  }

  /** The amount's characters stay, in order, with the commas left out. */
  lemma RemoveSymbolsOfNumeral(n: Numeral)
    requires ValidNumeral(n)
    ensures RemoveSymbols(NumeralText(n)) == IntegerDigits(n) + FractionText(n.fraction)
  {
    RemoveSymbolsNone(n.lead);
    RemoveSymbolsOfGroups(n.groups);
    var ft := FractionText(n.fraction);
    forall i | 0 <= i < |ft|
      ensures ft[i] != '$' && ft[i] != ','
    {
      if i > 0 {
        assert ft[i] == n.fraction.value[i - 1];
      }
    }
    RemoveSymbolsNone(ft);
    RemoveSymbolsConcat(n.lead, GroupsText(n.groups));
    RemoveSymbolsConcat(n.lead + GroupsText(n.groups), FractionText(n.fraction));
  }

  /** Deleting `$` and commas from a match leaves its digits, its point and its suffix. */
  lemma RemoveSymbolsOfMatch(m: DollarMatch)
    requires ValidMatch(m)
    ensures RemoveSymbols(MatchText(m)) ==
      IntegerDigits(m.number) + FractionText(m.number.fraction) + SuffixText(m.suffix)
  {
    var a, x := NumeralText(m.number), SuffixText(m.suffix);
    calc {
      RemoveSymbols(MatchText(m));
      RemoveSymbols(("$" + a) + x);
      { RemoveSymbolsConcat("$" + a, x); }
      RemoveSymbols("$" + a) + RemoveSymbols(x);
      { RemoveSymbolsConcat("$", a); RemoveSymbolsOfSymbol('$'); }
      RemoveSymbols(a) + RemoveSymbols(x);
      { RemoveSymbolsOfNumeral(m.number); RemoveSymbolsOfSuffix(m.suffix); }
      IntegerDigits(m.number) + FractionText(m.number.fraction) + x;
    }
  }

  /** A suffix holds no `$` and no comma. */
  lemma RemoveSymbolsOfSuffix(x: Suffix)
    requires ValidSuffix(x)
    ensures RemoveSymbols(SuffixText(x)) == SuffixText(x)
  {
    var t := SuffixText(x);
    SuffixChars(x);
    forall i | 0 <= i < |t|
      ensures t[i] != '$' && t[i] != ','
    {
      assert t[i] in t;
    }
    RemoveSymbolsNone(t);
  }

  /** The digits and the point of an amount, as the parser sees them. */
  function NumberPart(n: Numeral): string
  {
    IntegerDigits(n) + FractionText(n.fraction)
  }

  lemma NumberPartChars(n: Numeral)
    requires ValidNumeral(n)
    ensures var d := NumberPart(n); |d| >= 1 && IsDigit(d[0]) && IsDigit(d[|d| - 1])
    ensures forall c :: c in NumberPart(n) ==> IsDigit(c) || c == '.'
  {
    IntegerDigitsAreDigits(n);
    var w := IntegerDigits(n);
    var d := NumberPart(n);
    forall c | c in d
      ensures IsDigit(c) || c == '.'
    {
      var j :| 0 <= j < |d| && d[j] == c;
      if j >= |w| + 1 {
        assert c == n.fraction.value[j - |w| - 1];
      }
    }
  }

  /**
   * Stripping changes nothing, since a match starts with a digit and ends
   * with a digit or a letter; lower-casing changes only the suffix.
   */
  lemma CleanedMatch(m: DollarMatch)
    requires ValidMatch(m)
    ensures CleanText(MatchText(m)) == NumberPart(m.number) + Lower(SuffixText(m.suffix))
  {
    var d := NumberPart(m.number);
    var x := SuffixText(m.suffix);
    calc {
      CleanText(MatchText(m));
      Lower(Strip(RemoveSymbols(MatchText(m))));
      { RemoveSymbolsOfMatch(m); }
      Lower(Strip(d + x));
      { MatchEdges(m); StripUnchanged(d + x); }
      Lower(d + x);
      { LowerConcat(d, x); NumberPartLower(m.number); }
      d + Lower(x);
    }
  }

  /** With `$` and commas gone, a match starts with a digit and ends with a digit or a letter. */
  lemma MatchEdges(m: DollarMatch)
    requires ValidMatch(m)
    ensures var u := NumberPart(m.number) + SuffixText(m.suffix);
      u != [] && !IsSpace(u[0]) && !IsSpace(u[|u| - 1])
  {
    var d := NumberPart(m.number);
    var x := SuffixText(m.suffix);
    var u := d + x;
    NumberPartChars(m.number);
    SuffixChars(m.suffix);
    assert u[0] == d[0];
    assert x == [] ==> u[|u| - 1] == d[|d| - 1];
    assert x != [] ==> u[|u| - 1] == x[|x| - 1];
  }

  lemma NumberPartLower(n: Numeral)
    requires ValidNumeral(n)
    ensures Lower(NumberPart(n)) == NumberPart(n)
  {
    var d := NumberPart(n);
    NumberPartChars(n);
    assert forall i :: 0 <= i < |d| ==> d[i] in d;
    LowerNoUpper(d);
  }

  /** The suffix decides the multiplier: its letters are the only ones in the cleaned text. */
  lemma MultiplierOfMatch(d: string, x: Suffix)
    requires forall c :: c in d ==> IsDigit(c) || c == '.'
    requires ValidSuffix(x)
    ensures Multiplier(d + Lower(SuffixText(x))) == Some(Scale(x))
  {
    match x
    case NoSuffix =>
      assert d + Lower(SuffixText(x)) == d;
      MultiplierWithoutLetters(d);
    case Letter(c) =>
      MultiplierOfLetter(d, c);
    case Word(before, hyphen, after, word) =>
      MultiplierOfWordSuffix(d, before, hyphen, after, word);
  }

  lemma MultiplierOfLetter(d: string, c: char)
    requires forall c :: c in d ==> IsDigit(c) || c == '.'
    requires LowerChar(c) in "mbk"
    ensures Multiplier(d + Lower([c])) == Some(Scale(Letter(c)))
  {
    var w := [LowerChar(c)];
    assert Lower([c]) == w;
    assert d + w == d + [] + w;
    MultiplierOfWord(d, [], w);
  }

  lemma MultiplierOfWordSuffix(d: string, before: string, hyphen: bool, after: string, word: string)
    requires forall c :: c in d ==> IsDigit(c) || c == '.'
    requires ValidSuffix(Word(before, hyphen, after, word))
    ensures Multiplier(d + Lower(SuffixText(Word(before, hyphen, after, word)))) ==
      Some(Scale(Word(before, hyphen, after, word)))
  {
    var gap := before + HyphenText(hyphen) + after;
    GapChars(before, hyphen, after);
    LowerConcat(gap, word);
    LowerNoUpper(gap);
    assert d + Lower(gap + word) == d + gap + Lower(word);
    MultiplierOfWord(d, gap, Lower(word));
  }

  lemma GapChars(before: string, hyphen: bool, after: string)
    requires AllSpaces(before) && AllSpaces(after)
    ensures forall c :: c in before + HyphenText(hyphen) + after ==> IsSpace(c) || c == '-'
  {
    var gap := before + HyphenText(hyphen) + after;
    forall c | c in gap
      ensures IsSpace(c) || c == '-'
    {
      var j :| 0 <= j < |gap| && gap[j] == c;
      if j < |before| {
        assert c == before[j];
      } else if j >= |before| + |HyphenText(hyphen)| {
        assert c == after[j - |before| - |HyphenText(hyphen)|];
      }
    }
  }

  lemma MultiplierWithoutLetters(t: string)
    requires forall c :: c in t ==> IsDigit(c) || c == '.'
    ensures Multiplier(t) == Some(1.0)
  {
    MultiplierCases(t);
    assert !HasLetter(t) by {
      forall k | 0 <= k < |t|
        ensures !IsAlpha(t[k])
      {
        assert t[k] in t;
      }
    }
  }

  /**
   * After the amount and a gap of whitespace and hyphen come the letters of
   * the suffix, lower-cased: a single `m`, `b` or `k`, or one of the words.
   */
  lemma MultiplierOfWord(d: string, gap: string, w: string)
    requires forall c :: c in d ==> IsDigit(c) || c == '.'
    requires forall c :: c in gap ==> IsSpace(c) || c == '-'
    requires w == "m" || w == "b" || w == "k" || w in SuffixWords
    ensures Multiplier(d + gap + w) == Some(
      if w == "m" || w == "million" then 1000000.0
      else if w == "k" || w == "thousand" then 1000.0
      else 1000000000.0)
  {
    var t := d + gap + w;
    var p := |d + gap|;
    LettersOfWord(d, gap, w);
    MultiplierCases(t);
    if w == "thousand" {
      assert t[p..p + |w|] == w;
      assert OccursAt(t, "thousand", p);
    }
  }

  /** The letters of the text are those of the word, and the word starts at `|d + gap|`. */
  lemma LettersOfWord(d: string, gap: string, w: string)
    requires forall c :: c in d ==> IsDigit(c) || c == '.'
    requires forall c :: c in gap ==> IsSpace(c) || c == '-'
    requires w != []
    ensures var t := d + gap + w;
      t[|d + gap|] == w[0] && forall e :: e in t && IsAlpha(e) ==> e in w
  {
  }

  /**
   * The parser reads a match as the value of its amount times the factor of
   * its suffix: the "letters make it invalid" branch never applies to a match.
   */
  lemma ParseOfMatch(m: DollarMatch)
    requires ValidMatch(m)
    ensures ParseDollarAmount(MatchText(m)) == MatchValue(m)
  {
    ParseOfMatchParts(m, NumeralValue(m.number), Scale(m.suffix));
  }

  /** What a match stands for: its amount times the factor of its suffix. */
  function MatchValue(m: DollarMatch): real
  {
    ScaleBy(NumeralValue(m.number), Scale(m.suffix))
  }

  /** `ParseOfMatch` with the value and the scale named, which keeps the proof small. */
  lemma ParseOfMatchParts(m: DollarMatch, v: real, k: real)
    requires ValidMatch(m) && v == NumeralValue(m.number) && k == Scale(m.suffix)
    ensures IsFactor(k) && ParseDollarAmount(MatchText(m)) == ScaleBy(v, k)
  {
    var n := m.number;
    var t := NumberPart(n) + Lower(SuffixText(m.suffix));
    var dec := Decimal(0, IntegerDigits(n), n.fraction);
    CleanedMatch(m);
    NumberPartChars(n);
    MultiplierOfMatch(NumberPart(n), m.suffix);
    DecimalOfMatch(m);
    ParseOfCleaned(MatchText(m), t, k, dec, v);
  }

  /** The literal the parser finds in a cleaned match is the whole amount, with its value. */
  lemma DecimalOfMatch(m: DollarMatch)
    requires ValidMatch(m)
    ensures var dec := Decimal(0, IntegerDigits(m.number), m.number.fraction);
      FirstDecimal(NumberPart(m.number) + Lower(SuffixText(m.suffix))) == Some(dec) &&
      DecimalValue(dec) == NumeralValue(m.number)
  {
    var n := m.number;
    var l := Lower(SuffixText(m.suffix));
    IntegerDigitsAreDigits(n);
    SuffixChars(m.suffix);
    if l != [] {
      var c := SuffixText(m.suffix)[0];
      assert c in SuffixText(m.suffix);
      assert l[0] == LowerChar(c);
    }
    var dec := Decimal(0, IntegerDigits(n), n.fraction);
    assert DecimalText(dec) == NumberPart(n);
    FirstDecimalOf(IntegerDigits(n), n.fraction, l);
  }

  /* ---- The total ---- */

  /** `match.group()` for each of the matches `ms` of `text`. */
  function Groups(text: string, ms: seq<DollarMatch>): (gs: seq<string>)
    requires forall k :: 0 <= k < |ms| ==> ms[k].start <= ms[k].end <= |text|
    ensures |gs| == |ms|
  {
    seq(|ms|, k requires 0 <= k < |ms| => text[ms[k].start..ms[k].end])
  }

  /** The parsed values of `gs`, added up in order. */
  function SumParsed(gs: seq<string>, parse: string -> real): real
  {
    if gs == [] then 0.0 else SumParsed(gs[..|gs| - 1], parse) + parse(gs[|gs| - 1])
  }

  lemma {:induction false} SumParsedNonNegative(gs: seq<string>, parse: string -> real)
    requires forall g :: parse(g) >= 0.0
    ensures SumParsed(gs, parse) >= 0.0
  {
    if gs != [] {
      SumParsedNonNegative(gs[..|gs| - 1], parse);
    }
  }

  /** Adding one more parsed value. */
  lemma SumParsedStep(gs: seq<string>, j: nat, parse: string -> real)
    requires j < |gs|
    ensures SumParsed(gs[..j + 1], parse) == SumParsed(gs[..j], parse) + parse(gs[j])
  {
    assert gs[..j + 1][..j] == gs[..j];
  }

  /** The total of one text: every match the pattern finds in it, parsed and added up. */
  function TextTotal(text: string): (total: real)
    ensures total >= 0.0
  {
    var ms := Matches(text);
    SumParsedNonNegative(Groups(text, ms), ParseDollarAmount);
    SumParsed(Groups(text, ms), ParseDollarAmount)
  }

  /** The total over the texts, text after text. */
  function CorpusTotal(texts: seq<string>): (total: real)
    ensures total >= 0.0
  {
    if texts == [] then 0.0
    else CorpusTotal(texts[..|texts| - 1]) + TextTotal(texts[|texts| - 1])
  }

  /** Each match's amount times the factor of its suffix, added up. */
  function ValuesOf(ms: seq<DollarMatch>): real
  {
    if ms == [] then 0.0
    else
      ValuesOf(ms[..|ms| - 1]) + MatchValue(ms[|ms| - 1])
  }

  /** Parsing the text of each well-formed match gives its value. */
  lemma {:induction false} AmountsAreValues(text: string, ms: seq<DollarMatch>)
    requires forall k :: 0 <= k < |ms| ==> MatchIn(text, ms[k])
    requires forall k :: 0 <= k < |ms| ==> ms[k].start <= ms[k].end <= |text|
    ensures SumParsed(Groups(text, ms), ParseDollarAmount) == ValuesOf(ms)
  {
    if ms != [] {
      var n := |ms| - 1;
      var init, m := ms[..n], ms[n];
      var gs := Groups(text, ms);
      AmountsAreValues(text, init);
      assert gs[..n] == Groups(text, init);
      var a := SumParsed(gs[..n], ParseDollarAmount);
      var p := ParseDollarAmount(gs[n]);
      assert gs[n] == MatchText(m) by {
        GroupIsMatchText(text, m);
      }
      ParseOfMatch(m);
      SumStep(SumParsed(gs, ParseDollarAmount), a, p,
        ValuesOf(ms), ValuesOf(init), MatchValue(m));
    }
  }

  /** Two sums of equal terms are equal. */
  lemma SumStep(s: real, a: real, p: real, t: real, b: real, q: real)
    requires s == a + p && t == b + q && a == b && p == q
    ensures s == t
  {
  }

  /** `match.group()` of a well-formed match is its text. */
  lemma GroupIsMatchText(text: string, m: DollarMatch)
    requires MatchIn(text, m)
    ensures m.start <= m.end <= |text| && text[m.start..m.end] == MatchText(m)
  {
  }

  /**
   * The total of a text is the sum, over the matches the pattern finds, of
   * each amount times the factor of its suffix.
   */
  lemma TextTotalIsValues(text: string)
    ensures TextTotal(text) == ValuesOf(Matches(text))
  {
    FindAllMatchIn(text, 0);
    AmountsAreValues(text, Matches(text));
  }

  /** A text with no `$` followed by a digit adds nothing. */
  lemma NoDollarAddsNothing(text: string)
    requires forall p :: 0 <= p < |text| ==> !DollarAt(text, p)
    ensures TextTotal(text) == 0.0
  {
    NoMatchIffNoDollar(text, 0);
    assert Groups(text, Matches(text)) == [];
  }

  /** The total of two lists of texts is the sum of their totals. */
  lemma {:induction false} CorpusTotalConcat(a: seq<string>, b: seq<string>)
    ensures CorpusTotal(a + b) == CorpusTotal(a) + CorpusTotal(b)
    decreases |b|
  {
    if b == [] {
      assert a + b == a;
    } else {
      var init := b[..|b| - 1];
      assert (a + b)[..|a + b| - 1] == a + init;
      CorpusTotalConcat(a, init);
    }
  }

  lemma CorpusTotalStep(texts: seq<string>, i: nat)
    requires i < |texts|
    ensures CorpusTotal(texts[..i + 1]) == CorpusTotal(texts[..i]) + TextTotal(texts[i])
  {
    assert texts[..i + 1][..i] == texts[..i];
  }

  /* ---- Worked examples ---- */

  /** A match known in advance gives the parser's result for its text. */
  lemma ParsesTo(m: DollarMatch, t: string, v: real)
    requires ValidMatch(m) && MatchText(m) == t && MatchValue(m) == v
    ensures ParseDollarAmount(t) == v
  {
    ParseOfMatch(m);
  }

  /** The formats the parser documents: `"$1.5M"` is 1,500,000. */
  lemma ParseOneAndAHalfM()
    ensures ParseDollarAmount("$1.5M") == 1500000.0
  {
    var m := DollarMatch(0, 5, Numeral("1", [], Some("5")), Letter('M'));
    assert MatchText(m) == "$1.5M";
    assert NumeralValue(m.number) == 1.5;
    ParsesTo(m, "$1.5M", 1500000.0);
  }

  /** `"$1.5 billion"` is 1,500,000,000. */
  lemma ParseOneAndAHalfBillion()
    ensures ParseDollarAmount("$1.5 billion") == 1500000000.0
  {
    var m := DollarMatch(0, 12, Numeral("1", [], Some("5")), Word(" ", false, "", "billion"));
    assert MatchText(m) == "$1.5 billion";
    assert NumeralValue(m.number) == 1.5;
    LowerNoUpper("billion");
    ParsesTo(m, "$1.5 billion", 1500000000.0);
  }

  /** `"$1 million"` is 1,000,000. */
  lemma ParseOneMillion()
    ensures ParseDollarAmount("$1 million") == 1000000.0
  {
    var m := DollarMatch(0, 10, Numeral("1", [], None), Word(" ", false, "", "million"));
    assert MatchText(m) == "$1 million";
    LowerNoUpper("million");
    ParsesTo(m, "$1 million", 1000000.0);
  }

  /** `"$1,000"` is 1,000: the comma is a thousands separator. */
  lemma ParseOneThousand()
    ensures ParseDollarAmount("$1,000") == 1000.0
  {
    var m := DollarMatch(0, 6, Numeral("1", ["000"], None), NoSuffix);
    assert MatchText(m) == "$1,000";
    assert IntegerDigits(m.number) == "1000";
    assert "1000"[..3] == "100" && "100"[..2] == "10" && "10"[..1] == "1" && "1"[..0] == [];
    ParsesTo(m, "$1,000", 1000.0);
  }

  /** The two matches of the text `"$1,000 and $2 million"`. */
  const Thousand: DollarMatch := DollarMatch(0, 6, Numeral("1", ["000"], None), NoSuffix)
  const TwoMillion: DollarMatch := DollarMatch(11, 21, Numeral("2", [], None), Word(" ", false, "", "million"))


  /** `$1,000 a` at the start of `s`. */
  predicate ThousandWritten(s: string)
  {
    |s| > 7 && s[0] == '$' && s[1] == '1' && s[2] == ',' && s[3] == '0' && s[4] == '0' && s[5] == '0' &&
    s[6] == ' ' && s[7] == 'a'
  }

  lemma SampleGroups(s: string)
    requires ThousandWritten(s)
    ensures ScanGroups(s, 2) == ["000"]
  {
    assert !IsGroupAt(s, 6);
    assert ScanGroups(s, 6) == [];
    assert IsGroupAt(s, 2);
    assert s[3..6] == "000";
  }

  lemma SampleNumeralOne(s: string)
    requires ThousandWritten(s)
    ensures ScanNumeral(s, 1) == Thousand.number
  {
    assert DigitRunEnd(s, 2) == 2;
    assert LeadEnd(s, 1) == 2;
    SampleGroups(s);
    assert ScanFraction(s, 6) == None;
    assert s[1..2] == "1";
  }

  lemma NotSpelled(s: string, k: nat, v: string)
    requires k < |s| && v != [] && LowerChar(s[k]) != v[0]
    ensures !SpellsAt(s, k, v)
  {
    if k + |v| <= |s| {
      assert Lower(s[k..k + |v|])[0] == LowerChar(s[k]);
    }
  }

  lemma SampleNoSuffix(s: string)
    requires ThousandWritten(s)
    ensures ScanSuffix(s, 6) == NoSuffix
  {
    assert SpaceRunEnd(s, 7) == 7;
    assert SpaceRunEnd(s, 6) == 7;
    assert WordStart(s, 6) == 7;
    forall v | v in SuffixWords
      ensures !SpellsAt(s, 7, v)
    {
      NotSpelled(s, 7, v);
    }
  }

  lemma SampleThousand(s: string)
    requires ThousandWritten(s)
    ensures MatchAt(s, 0) == Some(Thousand)
  {
    SampleNumeralOne(s);
    SampleNoSuffix(s);
  }

  /** `$2 million` ends the 21 characters of `s`. */
  predicate MillionWritten(s: string)
  {
    |s| == 21 && s[11] == '$' && s[12] == '2' && s[13] == ' ' && s[14..21] == "million"
  }

  lemma SampleMillion(s: string)
    requires MillionWritten(s)
    ensures MatchAt(s, 11) == Some(TwoMillion)
  {
    assert DigitRunEnd(s, 13) == 13;
    assert LeadEnd(s, 12) == 13;
    assert ScanGroups(s, 13) == [];
    assert ScanFraction(s, 13) == None;
    assert s[12..13] == "2";
    assert ScanNumeral(s, 12) == TwoMillion.number;
    SampleWord(s);
  }

  lemma SampleWord(s: string)
    requires MillionWritten(s)
    ensures ScanSuffix(s, 13) == TwoMillion.suffix
  {
    assert SpaceRunEnd(s, 14) == 14;
    assert SpaceRunEnd(s, 13) == 14;
    assert WordStart(s, 13) == 14;
    LowerNoUpper(s[14..21]);
    assert SpellsAt(s, 14, "million");
    assert FirstWord(s, 14, SuffixWords) == Some("million");
    assert s[13..14] == " ";
  }

  /** `s` reads `$1,000 and $2 million`, character by character. */
  predicate SampleWritten(s: string)
  {
    ThousandWritten(s) && MillionWritten(s) && s[8] == 'n' && s[9] == 'd' && s[10] == ' '
  }

  lemma SampleIsWritten(s: string)
    requires s == "$1,000 and $2 million"
    ensures SampleWritten(s)
  {
    assert s[14..21] == "million";
  }

  lemma SampleMatches(s: string)
    requires SampleWritten(s)
    ensures Matches(s) == [Thousand, TwoMillion]
  {
    SampleThousand(s);
    SampleGap(s);
    assert FindAll(s, 0) == [Thousand] + FindAll(s, 6);
  }

  lemma SampleGap(s: string)
    requires SampleWritten(s)
    ensures FindAll(s, 6) == [TwoMillion]
  {
    SampleLast(s);
    forall p | 6 <= p < 11
      ensures s[p] != '$'
    {
      assert p == 6 || p == 7 || p == 8 || p == 9 || p == 10;
    }
    SkipTo(s, 6, 11);
  }

  lemma SampleLast(s: string)
    requires MillionWritten(s)
    ensures FindAll(s, 11) == [TwoMillion]
  {
    SampleMillion(s);
    assert FindAll(s, 21) == [];
  }

  lemma SampleValues()
    ensures ValuesOf([Thousand, TwoMillion]) == 2001000.0
  {
    assert IntegerDigits(Thousand.number) == "1000";
    assert "1000"[..3] == "100" && "100"[..2] == "10" && "10"[..1] == "1" && "1"[..0] == [];
    assert DigitsValue("1000") == 1000;
    assert MatchValue(Thousand) == 1000.0;
    LowerNoUpper("million");
    assert MatchValue(TwoMillion) == 2000000.0;
    assert [Thousand, TwoMillion][..1] == [Thousand];
    assert [Thousand][..0] == [];
    assert ValuesOf([Thousand]) == 1000.0;
  }

  /**
   * The text `"$1,000 and $2 million"` holds two amounts, 1,000 and
   * 2,000,000; the corpus made of it totals 2,001,000, which the table
   * reports as 0.002001 billion.
   */
  lemma WorkedExample(s: string)
    requires s == "$1,000 and $2 million"
    ensures CorpusTotal([s]) == 2001000.0
    ensures CorpusTotal([s]) / 1000000000.0 == 0.002001
  {
    SampleIsWritten(s);
    SampleMatches(s);
    TextTotalIsValues(s);
    SampleValues();
    assert [s][..0] == [];
  }

  /** The table `prepare_string_output_format` builds: one column, one value. */
  datatype AmountTable = AmountTable(column: string, values: seq<real>)

  /**
   * `_task_method`: parse every match of every text, add the amounts that
   * are not zero, and report the total in billions.
   */
  method TotalDollarAmount(texts: seq<string>) returns (table: AmountTable)
    ensures table.column == "Total Dollar Amount Billion $"
    ensures |table.values| == 1 && table.values[0] == CorpusTotal(texts) / 1000000000.0
  {
    var parse := ParseDollarAmount;
    var totalSum := 0.0;
    for i := 0 to |texts|
      invariant totalSum == CorpusTotal(texts[..i])
    {
      var text := texts[i];
      var matches := Matches(text);
      ghost var groups := Groups(text, matches);
      for j := 0 to |matches|
        invariant totalSum == CorpusTotal(texts[..i]) + SumParsed(groups[..j], parse)
      {
        var m := matches[j];
        var dollarValue := parse(text[m.start..m.end]);
        if dollarValue != 0.0 {
          totalSum := totalSum + dollarValue;
        }
        SumParsedStep(groups, j, parse);
      }
      assert groups[..|matches|] == groups;
      CorpusTotalStep(texts, i);
    }
    assert texts[..|texts|] == texts;
    table := AmountTable("Total Dollar Amount Billion $", [totalSum / 1000000000.0]);
  }
}
