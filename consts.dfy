/**
 * utils/consts.py: the `dollar_pattern` regular expression, compiled with
 * `re.IGNORECASE`, written out as the left-to-right scanner Python's
 * backtracking matcher amounts to.
 *
 * The optional suffix group always lets the match succeed once the first
 * alternative of the amount has matched, and that alternative matches as soon
 * as a digit follows the `$`; so the matcher never backtracks into the amount,
 * and each repetition takes the longest run it can (`$12345` matches `$123`).
 * The second and third alternatives of the amount are never used.
 *
 * A match is returned as a parse tree, a `DollarMatch`, whose `MatchText` is
 * the matched substring.
 */
module DollarPattern {
  import opened Wrappers
  import opened Ascii

  /** The amount: `\d{1,3}`, then `(?:,\d{3})*`, then `(?:\.\d+)?`. */
  datatype Numeral = Numeral(lead: string, groups: seq<string>, fraction: Option<string>)

  predicate ValidNumeral(n: Numeral)
  {
    1 <= |n.lead| <= 3 && AllDigits(n.lead) &&
    (forall k :: 0 <= k < |n.groups| ==> |n.groups[k]| == 3 && AllDigits(n.groups[k])) &&
    (n.fraction.Some? ==> |n.fraction.value| >= 1 && AllDigits(n.fraction.value))
  }

  function GroupsText(groups: seq<string>): string
  {
    if groups == [] then [] else [','] + groups[0] + GroupsText(groups[1..])
  }

  function FractionText(fraction: Option<string>): string
  {
    if fraction.Some? then ['.'] + fraction.value else []
  }

  function NumeralText(n: Numeral): string
  {
    n.lead + GroupsText(n.groups) + FractionText(n.fraction)
  }

  /** The digits of the groups with their commas left out. */
  function GroupDigits(groups: seq<string>): string
  {
    if groups == [] then [] else groups[0] + GroupDigits(groups[1..])
  }

  /** The integer digits of an amount: the leading digits and those of every group. */
  function IntegerDigits(n: Numeral): string
  {
    n.lead + GroupDigits(n.groups)
  }

  /** The exact value the amount denotes. */
  function NumeralValue(n: Numeral): (v: real)
    ensures v >= 0.0
  {
    DigitsValue(IntegerDigits(n)) as real +
      (if n.fraction.Some? then FractionValue(n.fraction.value) else 0.0)
  }

  /**
   * The optional second group: a single letter `M`, `B` or `K`, or a word
   * after optional whitespace, an optional hyphen and optional whitespace.
   */
  datatype Suffix =
    | NoSuffix
    | Letter(letter: char)
    | Word(before: string, hyphen: bool, after: string, word: string)

  /** The word alternatives, in the order the matcher tries them. */
  const SuffixWords: seq<string> := ["million", "billion", "thousand", "bill", "bn"]

  predicate ValidSuffix(x: Suffix)
  {
    match x
    case NoSuffix => true
    case Letter(c) => LowerChar(c) in "mbk"
    case Word(before, hyphen, after, word) =>
      AllSpaces(before) && AllSpaces(after) && (!hyphen ==> after == []) && Lower(word) in SuffixWords
  }

  function HyphenText(hyphen: bool): string
  {
    if hyphen then "-" else []
  }

  function SuffixText(x: Suffix): string
  {
    match x
    case NoSuffix => []
    case Letter(c) => [c]
    case Word(before, hyphen, after, word) => before + HyphenText(hyphen) + after + word
  }

  /** The factor a suffix stands for: a thousand, a million or a billion. */
  function Scale(x: Suffix): real
  {
    match x
    case NoSuffix => 1.0
    case Letter(c) =>
      if LowerChar(c) == 'm' then 1000000.0 else if LowerChar(c) == 'b' then 1000000000.0 else 1000.0
    case Word(_, _, _, word) =>
      if Lower(word) == "million" then 1000000.0 else if Lower(word) == "thousand" then 1000.0 else 1000000000.0
  }

  /** The suffix words are spelt with lower-case letters only. */
  lemma SuffixWordLetters(w: string)
    requires w in SuffixWords
    ensures forall j :: 0 <= j < |w| ==> IsLowerLetter(w[j])
  {
  }

  /** A string whose lower-case form is a suffix word is made of letters. */
  lemma WordLetters(word: string)
    requires Lower(word) in SuffixWords
    ensures word != [] && forall j :: 0 <= j < |word| ==> IsAlpha(word[j])
  {
    SuffixWordLetters(Lower(word));
    forall j | 0 <= j < |word|
      ensures IsAlpha(word[j])
    {
      assert IsLowerLetter(LowerChar(word[j]));
    }
  }

  /**
   * A suffix is written with letters, whitespace and hyphens only, so it holds
   * no digit and no point; when there is one, it ends with a letter.
   */
  lemma SuffixChars(x: Suffix)
    requires ValidSuffix(x)
    ensures forall c :: c in SuffixText(x) ==> IsAlpha(c) || IsSpace(c) || c == '-'
    ensures var t := SuffixText(x); t != [] ==> IsAlpha(t[|t| - 1])
  {
    match x
    case NoSuffix =>
    case Letter(c) =>
      assert IsLowerLetter(LowerChar(c));
    case Word(before, hyphen, after, word) =>
      WordLetters(word);
      var t := SuffixText(x);
      assert t[|t| - 1] == word[|word| - 1];
      forall c | c in t
        ensures IsAlpha(c) || IsSpace(c) || c == '-'
      {
        var j :| 0 <= j < |t| && t[j] == c;
        if j >= |t| - |word| {
          assert c == word[j - (|t| - |word|)];
        } else if j >= |before| + |HyphenText(hyphen)| {
          assert c == after[j - |before| - |HyphenText(hyphen)|];
        } else if j < |before| {
          assert c == before[j];
        }
      }
  }

  lemma {:induction false} GroupDigitsAreDigits(groups: seq<string>)
    requires forall k :: 0 <= k < |groups| ==> AllDigits(groups[k])
    ensures AllDigits(GroupDigits(groups))
  {
    if groups != [] {
      GroupDigitsAreDigits(groups[1..]);
      var t := GroupDigits(groups);
      assert t == groups[0] + GroupDigits(groups[1..]);
      assert forall j :: |groups[0]| <= j < |t| ==> t[j] == GroupDigits(groups[1..])[j - |groups[0]|];
    }
  }

  /** The integer digits of an amount are digits, and there is at least one. */
  lemma IntegerDigitsAreDigits(n: Numeral)
    requires ValidNumeral(n)
    ensures |IntegerDigits(n)| >= 1 && AllDigits(IntegerDigits(n))
  {
    GroupDigitsAreDigits(n.groups);
    var t := IntegerDigits(n);
    assert forall j :: |n.lead| <= j < |t| ==> t[j] == GroupDigits(n.groups)[j - |n.lead|];
  }

  /** One match: where it starts and ends (`match.start()`, `match.end()`), its amount and its suffix. */
  datatype DollarMatch = DollarMatch(start: nat, end: nat, number: Numeral, suffix: Suffix)

  predicate ValidMatch(m: DollarMatch)
  {
    ValidNumeral(m.number) && ValidSuffix(m.suffix)
  }

  /** `match.group()` */
  function MatchText(m: DollarMatch): string
  {
    "$" + NumeralText(m.number) + SuffixText(m.suffix)
  }

  /** `\d{1,3}` at `i`, greedy: the end of at most three digits. */
  function LeadEnd(s: string, i: nat): (j: nat)
    requires i < |s| && IsDigit(s[i])
    ensures i < j <= i + 3 && j <= |s|
    ensures AllDigits(s[i..j])
    ensures j < i + 3 ==> j == |s| || !IsDigit(s[j])
  {
    var run := DigitRunEnd(s, i);
    if run <= i + 3 then run
    else
      AllDigitsPrefix(s, i, i + 3, run);
      i + 3
  }

  lemma AllDigitsPrefix(s: string, i: nat, j: nat, k: nat)
    requires i <= j <= k <= |s| && AllDigits(s[i..k])
    ensures AllDigits(s[i..j])
  {
    assert forall p :: 0 <= p < j - i ==> s[i..j][p] == s[i..k][p];
  }

  /** `s` holds the text `t` at position `i`. */
  predicate Spans(s: string, i: nat, t: string)
  {
    i + |t| <= |s| && s[i..i + |t|] == t
  }

  lemma SpansSlice(s: string, i: nat, j: nat)
    requires i <= j <= |s|
    ensures Spans(s, i, s[i..j])
  {
  }

  lemma SpansConcat(s: string, i: nat, a: string, b: string)
    requires Spans(s, i, a) && Spans(s, i + |a|, b)
    ensures Spans(s, i, a + b)
  {
    assert s[i..i + |a| + |b|] == s[i..i + |a|] + s[i + |a|..i + |a| + |b|];
  }

  /** A comma followed by three digits starts at `j`. */
  predicate IsGroupAt(s: string, j: nat)
  {
    j + 4 <= |s| && s[j] == ',' && IsDigit(s[j + 1]) && IsDigit(s[j + 2]) && IsDigit(s[j + 3])
  }

  /** `(?:,\d{3})*` at `j`, greedy: every group that follows, and nothing after them is a group. */
  function ScanGroups(s: string, j: nat): (groups: seq<string>)
    requires j <= |s|
    ensures forall k :: 0 <= k < |groups| ==> |groups[k]| == 3 && AllDigits(groups[k])
    ensures |GroupsText(groups)| == 4 * |groups|
    ensures Spans(s, j, GroupsText(groups))
    ensures !IsGroupAt(s, j + 4 * |groups|)
    decreases |s| - j
  {
    if IsGroupAt(s, j) then
      var rest := ScanGroups(s, j + 4);
      var g := s[j + 1..j + 4];
      var groups := [g] + rest;
      assert groups[1..] == rest;
      assert s[j..j + 4] == [','] + g;
      SpansSlice(s, j, j + 4);
      SpansConcat(s, j, [','] + g, GroupsText(rest));
      groups
    else []
  }

  /** `(?:\.\d+)?` at `k`: a point and every digit after it, when a digit follows the point. */
  function ScanFraction(s: string, k: nat): (f: Option<string>)
    requires k <= |s|
    ensures f.Some? <==> k + 1 < |s| && s[k] == '.' && IsDigit(s[k + 1])
    ensures f.Some? ==> |f.value| >= 1 && AllDigits(f.value)
    ensures Spans(s, k, FractionText(f))
    ensures f.Some? ==> k + |FractionText(f)| == |s| || !IsDigit(s[k + |FractionText(f)|])
  {
    if k + 1 < |s| && s[k] == '.' && IsDigit(s[k + 1]) then
      var e := DigitRunEnd(s, k + 1);
      assert s[k..k + 1] == ['.'];
      assert s[k..e] == s[k..k + 1] + s[k + 1..e];
      Some(s[k + 1..e])
    else None
  }

  /**
   * The amount at `i`: up to three digits, every group that follows, and a
   * fraction when a point and a digit follow. Each part is as long as it can be.
   */
  function ScanNumeral(s: string, i: nat): (n: Numeral)
    requires i < |s| && IsDigit(s[i])
    ensures ValidNumeral(n)
    ensures Spans(s, i, NumeralText(n))
  {
    var j := LeadEnd(s, i);
    var groups := ScanGroups(s, j);
    var k := j + 4 * |groups|;
    var f := ScanFraction(s, k);
    SpansSlice(s, i, j);
    SpansConcat(s, i, s[i..j], GroupsText(groups));
    SpansConcat(s, i, s[i..j] + GroupsText(groups), FractionText(f));
    Numeral(s[i..j], groups, f)
  }

  /**
   * Each part of the amount is as long as it can be: fewer than three leading
   * digits only when no digit follows, no group after the groups, and the
   * fraction is whatever follows them.
   */
  lemma ScanNumeralGreedy(s: string, i: nat)
    requires i < |s| && IsDigit(s[i])
    ensures var n := ScanNumeral(s, i);
      (|n.lead| < 3 ==> i + |n.lead| == |s| || !IsDigit(s[i + |n.lead|])) &&
      !IsGroupAt(s, i + |n.lead| + |GroupsText(n.groups)|) &&
      n.fraction == ScanFraction(s, i + |n.lead| + |GroupsText(n.groups)|)
  {
    var j := LeadEnd(s, i);
    var groups := ScanGroups(s, j);
    var n := ScanNumeral(s, i);
    assert n == Numeral(s[i..j], groups, ScanFraction(s, j + 4 * |groups|));
    assert |n.lead| == j - i;
    assert i + |n.lead| + |GroupsText(n.groups)| == j + 4 * |groups|;
  }

  /** `s` spells the lower-case word `w` at `k`, ignoring case. */
  predicate SpellsAt(s: string, k: nat, w: string)
  {
    k + |w| <= |s| && Lower(s[k..k + |w|]) == w
  }

  /** The first of `words` that `s` spells at `k`, as it is written in `s`. */
  function FirstWord(s: string, k: nat, words: seq<string>): (w: Option<string>)
    ensures w.Some? ==> Spans(s, k, w.value) && Lower(w.value) in words
    ensures w.Some? ==> SpellsAt(s, k, Lower(w.value))
    ensures w.None? <==> forall v :: v in words ==> !SpellsAt(s, k, v)
  {
    if words == [] then None
    else if SpellsAt(s, k, words[0]) then Some(s[k..k + |words[0]|])
    else
      assert forall v :: v in words ==> v == words[0] || v in words[1..];
      FirstWord(s, k, words[1..])
  }

  /**
   * The word found is the first in list order that `s` spells at `k`: no
   * earlier word of the list is spelled there, so `billion` wins over `bill`.
   */
  lemma {:induction false} FirstWordIsFirst(s: string, k: nat, words: seq<string>)
    requires FirstWord(s, k, words).Some?
    ensures var w := FirstWord(s, k, words).value;
      exists j :: 0 <= j < |words| && Lower(w) == words[j] && SpellsAt(s, k, words[j]) &&
        forall i :: 0 <= i < j ==> !SpellsAt(s, k, words[i])
  {
    var w := FirstWord(s, k, words).value;
    if SpellsAt(s, k, words[0]) {
      assert Lower(w) == words[0];
    } else {
      FirstWordIsFirst(s, k, words[1..]);
      var j :| 0 <= j < |words[1..]| && Lower(w) == words[1..][j] && SpellsAt(s, k, words[1..][j]) &&
        forall i :: 0 <= i < j ==> !SpellsAt(s, k, words[1..][i]);
      assert forall i :: 0 <= i < j + 1 ==> !SpellsAt(s, k, words[i]) by {
        forall i | 0 <= i < j + 1 ensures !SpellsAt(s, k, words[i]) {
          if i > 0 { assert words[i] == words[1..][i - 1]; }
        }
      }
      assert Lower(w) == words[j + 1];
    }
  }

  /**
   * Where the word of a word suffix must begin: after the whitespace at `k`,
   * and when a hyphen follows it, after the hyphen and the whitespace after that.
   */
  function WordStart(s: string, k: nat): (l: nat)
    requires k <= |s|
    ensures k <= l <= |s|
  {
    var j := SpaceRunEnd(s, k);
    if j < |s| && s[j] == '-' then SpaceRunEnd(s, j + 1) else j
  }

  /**
   * The suffix at `k`: a letter `m`, `b` or `k` in either case is tried first;
   * otherwise a word, in the order of `SuffixWords`, at `WordStart`;
   * otherwise no suffix.
   */
  function ScanSuffix(s: string, k: nat): (x: Suffix)
    requires k <= |s|
    ensures ValidSuffix(x)
    ensures Spans(s, k, SuffixText(x))
  {
    if k < |s| && LowerChar(s[k]) in "mbk" then Letter(s[k])
    else
      var j := SpaceRunEnd(s, k);
      var hyphen := j < |s| && s[j] == '-';
      var l := WordStart(s, k);
      match FirstWord(s, l, SuffixWords)
      case None => NoSuffix
      case Some(w) =>
        var after := if hyphen then s[j + 1..l] else [];
        WordSpans(s, k, j, l, hyphen, w);
        Word(s[k..j], hyphen, after, w)
  }

  /**
   * Which suffix the scan finds: a letter exactly when `m`, `b` or `k` follows
   * the amount; otherwise the first word of `SuffixWords` spelled at
   * `WordStart`, ending with it; otherwise none.
   */
  lemma ScanSuffixChoice(s: string, k: nat)
    requires k <= |s|
    ensures var x := ScanSuffix(s, k);
      (x.Letter? <==> k < |s| && LowerChar(s[k]) in "mbk") &&
      (x.Word? ==> k + |SuffixText(x)| == WordStart(s, k) + |x.word|) &&
      (x.Word? ==>
        exists j :: 0 <= j < |SuffixWords| && Lower(x.word) == SuffixWords[j] &&
          SpellsAt(s, WordStart(s, k), SuffixWords[j]) &&
          forall i :: 0 <= i < j ==> !SpellsAt(s, WordStart(s, k), SuffixWords[i])) &&
      (x.NoSuffix? <==>
        !(k < |s| && LowerChar(s[k]) in "mbk") && forall v :: v in SuffixWords ==> !SpellsAt(s, WordStart(s, k), v))
  {
    if !(k < |s| && LowerChar(s[k]) in "mbk") {
      var j := SpaceRunEnd(s, k);
      var hyphen := j < |s| && s[j] == '-';
      var l := WordStart(s, k);
      if FirstWord(s, l, SuffixWords).Some? {
        GapSpans(s, k, j, l, hyphen);
        FirstWordIsFirst(s, l, SuffixWords);
      }
    }
  }

  /** The gap before a word suffix, then the word. */
  lemma WordSpans(s: string, k: nat, j: nat, l: nat, hyphen: bool, w: string)
    requires k <= j <= l <= |s|
    requires hyphen ==> j < l && s[j] == '-'
    requires !hyphen ==> l == j
    requires Spans(s, l, w)
    ensures Spans(s, k, s[k..j] + HyphenText(hyphen) + (if hyphen then s[j + 1..l] else []) + w)
  {
    var gap := s[k..j] + HyphenText(hyphen) + (if hyphen then s[j + 1..l] else []);
    GapSpans(s, k, j, l, hyphen);
    SpansConcat(s, k, gap, w);
  }

  /** The whitespace, the hyphen and the whitespace before a word suffix. */
  lemma GapSpans(s: string, k: nat, j: nat, l: nat, hyphen: bool)
    requires k <= j <= l <= |s|
    requires hyphen ==> j < l && s[j] == '-'
    requires !hyphen ==> l == j
    ensures var gap := s[k..j] + HyphenText(hyphen) + (if hyphen then s[j + 1..l] else []);
      |gap| == l - k && Spans(s, k, gap)
  {
    SpansSlice(s, k, j);
    if hyphen {
      assert s[j..j + 1] == HyphenText(hyphen);
      SpansSlice(s, j, j + 1);
      SpansSlice(s, j + 1, l);
      SpansConcat(s, k, s[k..j], HyphenText(hyphen));
      SpansConcat(s, k, s[k..j] + HyphenText(hyphen), s[j + 1..l]);
    } else {
      assert s[k..j] + HyphenText(hyphen) + [] == s[k..j];
    }
  }

  /** A `$` followed by a digit: where every match starts. */
  predicate DollarAt(s: string, i: int)
  {
    0 <= i && i + 1 < |s| && s[i] == '$' && IsDigit(s[i + 1])
  }

  /** The match the pattern finds when tried at `i`, if any. */
  function MatchAt(s: string, i: nat): (r: Option<DollarMatch>)
    ensures r.Some? <==> DollarAt(s, i)
    ensures r.Some? ==> r.value.start == i < r.value.end <= |s| && MatchIn(s, r.value)
  {
    if DollarAt(s, i) then
      var n := ScanNumeral(s, i + 1);
      var x := ScanSuffix(s, i + 1 + |NumeralText(n)|);
      MatchFrom(s, i, n, x);
      Some(DollarMatch(i, i + 1 + |NumeralText(n)| + |SuffixText(x)|, n, x))
    else None
  }

  /** An amount and a suffix written one after the other behind a `$` make a match. */
  lemma MatchFrom(s: string, i: nat, n: Numeral, x: Suffix)
    requires DollarAt(s, i) && ValidNumeral(n) && ValidSuffix(x)
    requires Spans(s, i + 1, NumeralText(n))
    requires Spans(s, i + 1 + |NumeralText(n)|, SuffixText(x))
    ensures var m := DollarMatch(i, i + 1 + |NumeralText(n)| + |SuffixText(x)|, n, x);
      i < m.end <= |s| && MatchIn(s, m)
  {
    assert s[i..i + 1] == "$";
    SpansSlice(s, i, i + 1);
    SpansConcat(s, i, "$", NumeralText(n));
    SpansConcat(s, i, "$" + NumeralText(n), SuffixText(x));
  }

  /**
   * `m` is a well-formed match of `s`: it starts at a `$` followed by a digit,
   * `s` holds its text there, and it ends where its text ends.
   */
  predicate MatchIn(s: string, m: DollarMatch)
  {
    ValidMatch(m) && DollarAt(s, m.start) && Spans(s, m.start, MatchText(m)) &&
    m.end == m.start + |MatchText(m)|
  }

  /**
   * `finditer` from position `i`: the leftmost match first, then the search
   * resumes where that match ends, so matches are in order and never overlap.
   */
  function FindAll(s: string, i: nat): (ms: seq<DollarMatch>)
    requires i <= |s|
    ensures forall k :: 0 <= k < |ms| ==> i <= ms[k].start < ms[k].end <= |s|
    ensures forall k, l :: 0 <= k < l < |ms| ==> ms[k].end <= ms[l].start
    decreases |s| - i
  {
    if i == |s| then []
    else
      match MatchAt(s, i)
      case None => FindAll(s, i + 1)
      case Some(m) =>
        var rest := FindAll(s, m.end);
        PrependOrdered(m, rest, i, |s|);
        [m] + rest
  }

  /** A match that ends before an ordered list of matches begins can go in front of it. */
  lemma PrependOrdered(m: DollarMatch, rest: seq<DollarMatch>, i: nat, n: nat)
    requires i <= m.start < m.end <= n
    requires forall k :: 0 <= k < |rest| ==> m.end <= rest[k].start < rest[k].end <= n
    requires forall k, l :: 0 <= k < l < |rest| ==> rest[k].end <= rest[l].start
    ensures var ms := [m] + rest;
      (forall k :: 0 <= k < |ms| ==> i <= ms[k].start < ms[k].end <= n) &&
      (forall k, l :: 0 <= k < l < |ms| ==> ms[k].end <= ms[l].start)
  {
    var ms := [m] + rest;
    assert forall k :: 1 <= k < |ms| ==> ms[k] == rest[k - 1];
  }

  /** Every match the search returns is a well-formed match of `s`. */
  lemma {:induction false} FindAllMatchIn(s: string, i: nat)
    requires i <= |s|
    ensures forall k :: 0 <= k < |FindAll(s, i)| ==> MatchIn(s, FindAll(s, i)[k])
    decreases |s| - i
  {
    if i < |s| {
      var r := MatchAt(s, i);
      if r.None? {
        assert FindAll(s, i) == FindAll(s, i + 1);
        FindAllMatchIn(s, i + 1);
      } else {
        var rest := FindAll(s, r.value.end);
        assert FindAll(s, i) == [r.value] + rest;
        FindAllMatchIn(s, r.value.end);
        PrependMatchIn(s, r.value, rest);
      }
    }
  }

  lemma PrependMatchIn(s: string, m: DollarMatch, rest: seq<DollarMatch>)
    requires MatchIn(s, m)
    requires forall k :: 0 <= k < |rest| ==> MatchIn(s, rest[k])
    ensures forall k :: 0 <= k < |[m] + rest| ==> MatchIn(s, ([m] + rest)[k])
  {
    var ms := [m] + rest;
    forall k | 0 <= k < |ms|
      ensures MatchIn(s, ms[k])
    {
      if k > 0 {
        assert ms[k] == rest[k - 1];
      }
    }
  }

  /** The search passes over a stretch without `$`: it finds nothing there. */
  lemma {:induction false} SkipTo(s: string, i: nat, j: nat)
    requires i <= j <= |s|
    requires forall p :: i <= p < j ==> s[p] != '$'
    ensures FindAll(s, i) == FindAll(s, j)
    decreases j - i
  {
    if i < j {
      assert MatchAt(s, i) == None;
      SkipTo(s, i + 1, j);
    }
  }

  /** `dollar_pattern.finditer(text)` */
  function Matches(text: string): (ms: seq<DollarMatch>)
    ensures forall k :: 0 <= k < |ms| ==> ms[k].start < ms[k].end <= |text|
    ensures forall k, l :: 0 <= k < l < |ms| ==> ms[k].end <= ms[l].start
  {
    FindAll(text, 0)
  }

  /** Position `p` lies inside one of the matches. */
  predicate Covered(ms: seq<DollarMatch>, p: int)
  {
    exists k :: 0 <= k < |ms| && ms[k].start <= p < ms[k].end
  }

  /** Every `$` followed by a digit at or after `i` lies inside a match found from `i`. */
  ghost predicate CoversFrom(s: string, i: nat)
    requires i <= |s|
  {
    forall p :: i <= p && DollarAt(s, p) ==> Covered(FindAll(s, i), p)
  }

  /** No `$` followed by a digit is skipped: each lies inside some match. */
  lemma {:induction false} FindAllCovers(s: string, i: nat)
    requires i <= |s|
    ensures CoversFrom(s, i)
    decreases |s| - i, 1
  {
    if i < |s| {
      match MatchAt(s, i)
      case None => CoversAfterSkip(s, i);
      case Some(m) => CoversAfterMatch(s, i, m);
    }
  }

  lemma CoversAfterSkip(s: string, i: nat)
    requires i < |s| && MatchAt(s, i).None?
    ensures CoversFrom(s, i)
    decreases |s| - i, 0
  {
    FindAllCovers(s, i + 1);
    forall p | i <= p && DollarAt(s, p)
      ensures Covered(FindAll(s, i), p)
    {
      assert p != i;
      assert Covered(FindAll(s, i + 1), p);
    }
  }

  lemma CoversAfterMatch(s: string, i: nat, m: DollarMatch)
    requires i < |s| && MatchAt(s, i) == Some(m)
    ensures CoversFrom(s, i)
    decreases |s| - i, 0
  {
    FindAllCovers(s, m.end);
    var rest := FindAll(s, m.end);
    assert FindAll(s, i) == [m] + rest;
    forall p | i <= p && DollarAt(s, p)
      ensures Covered([m] + rest, p)
    {
      CoveredPrepend(m, rest, p);
    }
  }

  lemma CoveredPrepend(m: DollarMatch, rest: seq<DollarMatch>, p: int)
    requires m.start <= p < m.end || Covered(rest, p)
    ensures Covered([m] + rest, p)
  {
    var ms := [m] + rest;
    if m.start <= p < m.end {
      assert ms[0].start <= p < ms[0].end;
    } else {
      var k :| 0 <= k < |rest| && rest[k].start <= p < rest[k].end;
      assert ms[k + 1] == rest[k];
    }
  }

  /** The search finds nothing exactly when no `$` is followed by a digit. */
  lemma NoMatchIffNoDollar(s: string, i: nat)
    requires i <= |s|
    ensures FindAll(s, i) == [] <==> forall p :: i <= p ==> !DollarAt(s, p)
  {
    var ms := FindAll(s, i);
    FindAllCovers(s, i);
    assert CoversFrom(s, i);
    FindAllMatchIn(s, i);
    if ms != [] {
      assert i <= ms[0].start && DollarAt(s, ms[0].start);
    }
  }

  /** The characters an amount is written with: digits, commas and the point. */
  lemma {:induction false} GroupsTextChars(groups: seq<string>)
    requires forall k :: 0 <= k < |groups| ==> AllDigits(groups[k])
    ensures forall c :: c in GroupsText(groups) ==> IsDigit(c) || c == ','
  {
    if groups != [] {
      GroupsTextChars(groups[1..]);
      var t := GroupsText(groups);
      assert t == [','] + groups[0] + GroupsText(groups[1..]);
      forall c | c in t
        ensures IsDigit(c) || c == ','
      {
        if c in groups[0] {
          var j :| 0 <= j < |groups[0]| && groups[0][j] == c;
        }
      }
    }
  }

  lemma NumeralChars(n: Numeral)
    requires ValidNumeral(n)
    ensures forall c :: c in NumeralText(n) ==> IsDigit(c) || c == ',' || c == '.'
  {
    GroupsTextChars(n.groups);
    forall c | c in NumeralText(n)
      ensures IsDigit(c) || c == ',' || c == '.'
    {
      if c in n.lead {
        var j :| 0 <= j < |n.lead| && n.lead[j] == c;
      } else if n.fraction.Some? && c in n.fraction.value {
        var j :| 0 <= j < |n.fraction.value| && n.fraction.value[j] == c;
      }
    }
  }

  /** The only letters a match contains are those of its suffix. */
  lemma MatchLetters(m: DollarMatch)
    requires ValidMatch(m)
    ensures forall c :: c in MatchText(m) && IsAlpha(c) ==> c in SuffixText(m.suffix)
  {
    NumeralChars(m.number);
  }

  /**
   * A word suffix with nothing before it is always `thousand`: the letter
   * alternative claims any `m`, `b` or `k` that directly follows the amount.
   */
  lemma AdjacentWordIsThousand(s: string, k: nat)
    requires k <= |s|
    requires ScanSuffix(s, k).Word? && ScanSuffix(s, k).before == [] && !ScanSuffix(s, k).hyphen
    ensures Lower(ScanSuffix(s, k).word) == "thousand"
  {
    var x := ScanSuffix(s, k);
    ScanSuffixChoice(s, k);
    var w := x.word;
    assert SuffixText(x) == w;
    assert s[k] == w[0];
    assert Lower(w)[0] == LowerChar(w[0]);
  }
}
