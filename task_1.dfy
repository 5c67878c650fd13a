/**
 * tasks/task_1.py: the ten most common dictionary words of at least five
 * letters that begin and end with a consonant, over the texts written by
 * women aged 20 to 30.
 */
module Task1 {
  import opened Seqs
  import opened Sorting
  import opened TextProcessing
  import opened Corpus

  predicate IsSelected(row: Row)
  {
    row.gender == "female" && 20 <= row.age <= 30
  }

  /** `preprocess_data`: the texts of the selected rows, in row order. */
  function SelectTexts(rows: seq<Row>): (texts: seq<string>)
    ensures |texts| <= |rows|
    ensures forall t :: t in texts <==> exists row :: row in rows && IsSelected(row) && row.text == t
  {
    if rows == [] then []
    else
      assert rows == [rows[0]] + rows[1..];
      (if IsSelected(rows[0]) then [rows[0].text] else []) + SelectTexts(rows[1..])
  }

  /** Selection works row by row, so the selected texts keep their relative order. */
  lemma {:induction false} SelectTextsConcat(a: seq<Row>, b: seq<Row>)
    ensures SelectTexts(a + b) == SelectTexts(a) + SelectTexts(b)
  {
    if a == [] {
      assert a + b == b;
    } else {
      var head := if IsSelected(a[0]) then [a[0].text] else [];
      calc {
        SelectTexts(a + b);
        { assert (a + b)[0] == a[0]; assert (a + b)[1..] == a[1..] + b; }
        head + SelectTexts(a[1..] + b);
        { SelectTextsConcat(a[1..], b); }
        head + (SelectTexts(a[1..]) + SelectTexts(b));
        (head + SelectTexts(a[1..])) + SelectTexts(b);
      }
    }
  }

  /** At least five characters, and neither the first nor the last is a lower-case vowel. */
  predicate IsKeyword(w: string)
  {
    |w| >= 5 && w[|w| - 1] !in "aeiou" && w[0] !in "aeiou"
  }

  /** `all_words` after the loop: the keywords of every text, text after text. */
  function AllKeywords(texts: seq<string>, dictionary: set<string>): (words: seq<string>)
    ensures forall w :: w in words ==> w in dictionary && IsKeyword(w)
  {
    if texts == [] then []
    else
      var cleaned := CleanedWords(texts[|texts| - 1], dictionary);
      FilterMultiset(cleaned, IsKeyword);
      AllKeywords(texts[..|texts| - 1], dictionary) + Filter(cleaned, IsKeyword)
  }

  datatype WordCount = WordCount(word: string, count: nat)

  /**
   * `Counter(words).items()`: one entry per distinct word, in order of first
   * occurrence, holding the number of times the word occurs.
   */
  function Counter(words: seq<string>): (counts: seq<WordCount>)
    ensures |counts| == |set w | w in words|
    ensures forall k :: 0 <= k < |counts| ==> counts[k].word in words && counts[k].count == multiset(words)[counts[k].word]
    ensures forall w :: w in words ==> WordCount(w, multiset(words)[w]) in counts
    ensures forall i, j :: 0 <= i < j < |counts| ==> FirstIndex(words, counts[i].word) < FirstIndex(words, counts[j].word)
  {
    var d := Distinct(words);
    NoDupCardinality(d);
    assert (set w | w in d) == set w | w in words;
    var counts := seq(|d|, k requires 0 <= k < |d| => WordCount(d[k], multiset(words)[d[k]]));
    assert forall w :: w in words ==> WordCount(w, multiset(words)[w]) in counts by {
      forall w | w in words
        ensures WordCount(w, multiset(words)[w]) in counts
      {
        var k :| 0 <= k < |d| && d[k] == w;
        assert counts[k] == WordCount(w, multiset(words)[w]);
      }
    }
    counts
  }

  /** Sorting key of `most_common`: larger counts first. */
  function ByCountDescending(c: WordCount): real
  {
    -(c.count as real)
  }

  /**
   * `most_common(n)`: the first `n` entries of a stable sort by descending
   * count. Counts do not increase, an entry left out counts no more than any
   * entry kept, and for each count the entries kept are the first ones of
   * that count in input order.
   */
  function MostCommon(counts: seq<WordCount>, n: nat): (top: seq<WordCount>)
    ensures |top| == Min(n, |counts|)
    ensures multiset(top) <= multiset(counts)
    ensures forall i, j :: 0 <= i < j < |top| ==> top[i].count >= top[j].count
    ensures forall x, k :: x in counts && x !in top && 0 <= k < |top| ==> x.count <= top[k].count
    ensures forall v :: WithKey(top, ByCountDescending, v) <= WithKey(counts, ByCountDescending, v)
  {
    var sorted := StableSort(counts, ByCountDescending);
    var m := Min(n, |sorted|);
    Truncation(counts, sorted, m);
    sorted[..m]
  }

  /** What taking the first `m` entries of the sorted counts keeps. */
  lemma Truncation(counts: seq<WordCount>, sorted: seq<WordCount>, m: nat)
    requires sorted == StableSort(counts, ByCountDescending) && m <= |sorted|
    ensures var top := sorted[..m];
      multiset(top) <= multiset(counts) &&
      (forall i, j :: 0 <= i < j < |top| ==> top[i].count >= top[j].count) &&
      (forall x, k :: x in counts && x !in top && 0 <= k < |top| ==> x.count <= top[k].count) &&
      (forall v :: WithKey(top, ByCountDescending, v) <= WithKey(counts, ByCountDescending, v))
  {
    var top := sorted[..m];
    StableSortSorted(counts, ByCountDescending);
    StableSortStable(counts, ByCountDescending);
    TruncationKeepsFirstOfEachKey(counts, sorted, m);
    TruncationLeavesOutSmaller(counts, sorted, m);
    PrefixSubMultiset(sorted, m);
    forall i, j | 0 <= i < j < |top|
      ensures top[i].count >= top[j].count
    {
      assert ByCountDescending(sorted[i]) <= ByCountDescending(sorted[j]);
    }
  }

  lemma PrefixSubMultiset(s: seq<WordCount>, m: nat)
    requires m <= |s|
    ensures multiset(s[..m]) <= multiset(s)
  {
    assert s == s[..m] + s[m..];
  }

  lemma TruncationKeepsFirstOfEachKey(counts: seq<WordCount>, sorted: seq<WordCount>, m: nat)
    requires m <= |sorted|
    requires forall v :: WithKey(sorted, ByCountDescending, v) == WithKey(counts, ByCountDescending, v)
    ensures forall v :: WithKey(sorted[..m], ByCountDescending, v) <= WithKey(counts, ByCountDescending, v)
  {
    assert sorted == sorted[..m] + sorted[m..];
    forall v
      ensures WithKey(sorted[..m], ByCountDescending, v) <= WithKey(counts, ByCountDescending, v)
    {
      WithKeyConcat(sorted[..m], sorted[m..], ByCountDescending, v);
    }
  }

  lemma TruncationLeavesOutSmaller(counts: seq<WordCount>, sorted: seq<WordCount>, m: nat)
    requires m <= |sorted|
    requires multiset(sorted) == multiset(counts) && SortedBy(sorted, ByCountDescending)
    ensures forall x, k :: x in counts && x !in sorted[..m] && 0 <= k < m ==> x.count <= sorted[k].count
  {
    forall x, k | x in counts && x !in sorted[..m] && 0 <= k < m
      ensures x.count <= sorted[k].count
    {
      assert x in multiset(sorted);
      var j :| 0 <= j < |sorted| && sorted[j] == x;
      assert ByCountDescending(sorted[k]) <= ByCountDescending(sorted[j]);
    }
  }

  /** `w` is the word of some entry of `top`. */
  predicate Reported(top: seq<WordCount>, w: string)
  {
    exists k :: 0 <= k < |top| && top[k].word == w
  }

  /**
   * `Counter(words).most_common(n)` reports min(n, number of distinct words)
   * entries, and none exactly when there are no words.
   */
  lemma MostCommonSize(words: seq<string>, n: nat)
    ensures |MostCommon(Counter(words), n)| == Min(n, |set w | w in words|)
    ensures MostCommon(Counter(words), n) == [] <==> words == [] || n == 0
  {
    if words != [] {
      assert words[0] in set w | w in words;
    }
  }

  /** Every entry reported is a word of the input with its exact number of occurrences. */
  lemma MostCommonCounts(words: seq<string>, n: nat)
    ensures var top := MostCommon(Counter(words), n);
      forall k :: 0 <= k < |top| ==> top[k].word in words && top[k].count == multiset(words)[top[k].word]
  {
    var counts := Counter(words);
    var top := MostCommon(counts, n);
    forall k | 0 <= k < |top|
      ensures top[k].word in words && top[k].count == multiset(words)[top[k].word]
    {
      assert top[k] in multiset(counts);
    }
  }

  /** No word is reported twice. */
  lemma MostCommonDistinct(words: seq<string>, n: nat)
    ensures var top := MostCommon(Counter(words), n);
      forall i, j :: 0 <= i < j < |top| ==> top[i].word != top[j].word
  {
    var counts := Counter(words);
    var top := MostCommon(counts, n);
    MostCommonCounts(words, n);
    forall i, j | 0 <= i < j < |top|
      ensures top[i].word != top[j].word
    {
      if top[i].word == top[j].word {
        assert top[i] == top[j];
        TwiceInMultiset(top, i, j);
        NoDupOccursOnce(counts, top[i]);
        assert false;
      }
    }
  }

  lemma TwiceInMultiset(s: seq<WordCount>, i: nat, j: nat)
    requires i < j < |s| && s[i] == s[j]
    ensures multiset(s)[s[i]] >= 2
  {
    assert s == s[..j] + [s[j]] + s[j + 1..];
    assert s[i] in s[..j];
  }

  lemma {:induction false} NoDupOccursOnce(counts: seq<WordCount>, x: WordCount)
    requires forall a, b :: 0 <= a < b < |counts| ==> counts[a].word != counts[b].word
    ensures multiset(counts)[x] <= 1
  {
    if counts != [] {
      var init := counts[..|counts| - 1];
      assert counts == init + [counts[|counts| - 1]];
      NoDupOccursOnce(init, x);
      if counts[|counts| - 1] == x {
        assert x !in init;
      }
    }
  }

  /** Entries with equal counts are reported in order of their word's first occurrence. */
  lemma MostCommonTieOrder(words: seq<string>, n: nat)
    ensures var top := MostCommon(Counter(words), n);
      forall i, j :: 0 <= i < j < |top| && top[i].count == top[j].count ==>
        FirstIndex(words, top[i].word) < FirstIndex(words, top[j].word)
  {
    var counts := Counter(words);
    var rank := (c: WordCount) => FirstIndex(words, c.word);
    StableSortTiesOrdered(counts, ByCountDescending, rank);
    var sorted := StableSort(counts, ByCountDescending);
    var m := Min(n, |counts|);
    assert MostCommon(counts, n) == sorted[..m];
    PrefixTieOrder(words, sorted, m, rank);
  }

  lemma PrefixTieOrder(words: seq<string>, sorted: seq<WordCount>, m: nat, rank: WordCount -> int)
    requires m <= |sorted| && TiesOrderedBy(sorted, ByCountDescending, rank)
    requires forall c :: rank(c) == FirstIndex(words, c.word)
    ensures var top := sorted[..m];
      forall i, j :: 0 <= i < j < |top| && top[i].count == top[j].count ==>
        FirstIndex(words, top[i].word) < FirstIndex(words, top[j].word)
  {
    forall i, j | 0 <= i < j < m && sorted[i].count == sorted[j].count
      ensures FirstIndex(words, sorted[i].word) < FirstIndex(words, sorted[j].word)
    {
      assert ByCountDescending(sorted[i]) == ByCountDescending(sorted[j]);
      assert rank(sorted[i]) < rank(sorted[j]);
    }
  }

  /** No word left out of the report occurs more often than a word in it. */
  lemma MostCommonLeftOut(words: seq<string>, n: nat)
    ensures var top := MostCommon(Counter(words), n);
      forall w, k :: w in words && !Reported(top, w) && 0 <= k < |top| ==> multiset(words)[w] <= top[k].count
  {
    var counts := Counter(words);
    var top := MostCommon(counts, n);
    forall w, k | w in words && !Reported(top, w) && 0 <= k < |top|
      ensures multiset(words)[w] <= top[k].count
    {
      var x := WordCount(w, multiset(words)[w]);
      assert x in counts;
    }
  }

  /** The table `prepare_dataframe_output_format` builds: columns `word` and `count`. */
  datatype FrequencyTable = FrequencyTable(columns: seq<string>, rows: seq<WordCount>)

  /**
   * `_task_method`: collect the keywords of every text into one list, count
   * them and report the ten most common.
   */
  method MostCommonWords(texts: seq<string>, dictionary: set<string>) returns (table: FrequencyTable)
    ensures table.columns == ["word", "count"]
    ensures table.rows == MostCommon(Counter(AllKeywords(texts, dictionary)), 10)
  {
    var allWords: seq<string> := [];
    for i := 0 to |texts|
      invariant allWords == AllKeywords(texts[..i], dictionary)
    {
      var cleaned := CleanedWords(texts[i], dictionary);
      cleaned := Filter(cleaned, IsKeyword);
      assert texts[..i + 1][..i] == texts[..i];
      allWords := allWords + cleaned;
    }
    assert texts[..|texts|] == texts;
    var wordCounts := Counter(allWords);
    var mostCommon := MostCommon(wordCounts, 10);
    table := FrequencyTable(["word", "count"], mostCommon);
  }
}
