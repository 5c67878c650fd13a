/**
 * tasks/task_2.py: the fifty most similar word pairs of the corpus. The
 * embedding model and the nearest-neighbour search are not part of this
 * model: their result, two neighbours per word with their cosine distances,
 * is an input.
 */
module Task2 {
  import opened Wrappers
  import opened Seqs
  import opened Sorting
  import opened TextProcessing

  /** Between 6 and 45 characters, the length of the longest English word. */
  predicate IsLongWord(w: string)
  {
    6 <= |w| <= 45
  }

  /** `all_words` after the loop: the long words of every text, text after text. */
  function LongWords(texts: seq<string>, dictionary: set<string>): (words: seq<string>)
    ensures forall w :: w in words ==> w in dictionary && IsLongWord(w)
  {
    if texts == [] then []
    else
      var cleaned := CleanedWords(texts[|texts| - 1], dictionary);
      FilterMultiset(cleaned, IsLongWord);
      LongWords(texts[..|texts| - 1], dictionary) + Filter(cleaned, IsLongWord)
  }

  lemma LongWordsStep(texts: seq<string>, i: nat, dictionary: set<string>)
    requires i < |texts|
    ensures LongWords(texts[..i + 1], dictionary) ==
      LongWords(texts[..i], dictionary) + Filter(CleanedWords(texts[i], dictionary), IsLongWord)
  {
    assert texts[..i + 1][..i] == texts[..i];
  }

  /**
   * One row of `zip(distances, indices)`: the distances to the two nearest
   * neighbours of a word, and their positions in the vocabulary. Column 0 is
   * normally the word itself.
   */
  type Row = ((real, real), (nat, nat))

  /** The output of `kneighbors` with two neighbours per point. */
  datatype Neighbours = Neighbours(distances: seq<(real, real)>, indices: seq<(nat, nat)>)

  /**
   * What the nearest-neighbour search guarantees for `n` points: one row per
   * point, two different neighbours per row, valid positions and cosine
   * distances in [0, 2].
   */
  predicate WellShaped(nn: Neighbours, n: nat)
  {
    |nn.distances| == n && |nn.indices| == n &&
    (forall k :: 0 <= k < n ==> nn.indices[k].0 < n && nn.indices[k].1 < n && nn.indices[k].0 != nn.indices[k].1) &&
    (forall k :: 0 <= k < n ==> 0.0 <= nn.distances[k].0 <= 2.0 && 0.0 <= nn.distances[k].1 <= 2.0)
  }

  function Zip(nn: Neighbours): (rows: seq<Row>)
    requires |nn.distances| == |nn.indices|
    ensures |rows| == |nn.distances|
    ensures forall k :: 0 <= k < |rows| ==> rows[k] == (nn.distances[k], nn.indices[k])
  {
    seq(|nn.distances|, k requires 0 <= k < |nn.distances| => (nn.distances[k], nn.indices[k]))
  }

  /** The sorting key `x[0][1]`: the distance to the second neighbour. */
  function NeighbourDistance(row: Row): real
  {
    row.0.1
  }

  /**
   * `sorted_distances`: the rows in ascending order of neighbour distance; rows
   * with equal distances keep their original order.
   */
  function RankedRows(nn: Neighbours): (ranked: seq<Row>)
    requires |nn.distances| == |nn.indices|
    ensures |ranked| == |nn.distances|
    ensures multiset(ranked) == multiset(Zip(nn))
    ensures forall i, j :: 0 <= i < j < |ranked| ==> ranked[i].0.1 <= ranked[j].0.1
    ensures forall v :: WithKey(ranked, NeighbourDistance, v) == WithKey(Zip(nn), NeighbourDistance, v)
  {
    StableSortSorted(Zip(nn), NeighbourDistance);
    StableSortStable(Zip(nn), NeighbourDistance);
    StableSort(Zip(nn), NeighbourDistance)
  }

  /** Every row of the ranking is a row of the input. */
  lemma RankedRowFromInput(nn: Neighbours, k: nat)
    requires |nn.distances| == |nn.indices| && k < |nn.distances|
    ensures exists r :: 0 <= r < |nn.distances| && RankedRows(nn)[k] == (nn.distances[r], nn.indices[r])
  {
    var ranked := RankedRows(nn);
    assert ranked[k] in multiset(Zip(nn));
    var r :| 0 <= r < |Zip(nn)| && Zip(nn)[r] == ranked[k];
  }

  /** The first `m` ranked rows have the `m` least neighbour distances. */
  lemma RankedPrefixLeast(nn: Neighbours, m: nat)
    requires |nn.distances| == |nn.indices| && m <= |nn.distances|
    ensures var ranked := RankedRows(nn);
      forall x, k :: x in multiset(Zip(nn)) - multiset(ranked[..m]) && 0 <= k < m ==> ranked[k].0.1 <= x.0.1
  {
    var ranked := RankedRows(nn);
    SortedPrefixLeast(Zip(nn), NeighbourDistance, m);
    assert ranked == StableSort(Zip(nn), NeighbourDistance);
    forall x, k | x in multiset(Zip(nn)) - multiset(ranked[..m]) && 0 <= k < m
      ensures ranked[k].0.1 <= x.0.1
    {
      assert NeighbourDistance(ranked[k]) <= NeighbourDistance(x);
    }
  }

  /** The ranked rows are the input rows, so their positions are valid. */
  lemma RankedRowsValid(nn: Neighbours, n: nat)
    requires WellShaped(nn, n)
    ensures forall k :: 0 <= k < n ==> RankedRows(nn)[k].1.0 < n && RankedRows(nn)[k].1.1 < n
  {
    forall k | 0 <= k < n
      ensures RankedRows(nn)[k].1.0 < n && RankedRows(nn)[k].1.1 < n
    {
      RankedRowFromInput(nn, k);
    }
  }

  /** A row of the result: `word1`, `word2`, `distance`. */
  datatype SimilarPair = SimilarPair(word1: string, word2: string, distance: real)

  /** `p` holds the two words and the neighbour distance of row `r`. */
  predicate PairOfRow(unique: seq<string>, nn: Neighbours, r: int, p: SimilarPair)
  {
    0 <= r < |nn.indices| && r < |nn.distances| &&
    nn.indices[r].0 < |unique| && nn.indices[r].1 < |unique| &&
    p == SimilarPair(unique[nn.indices[r].0], unique[nn.indices[r].1], nn.distances[r].1)
  }

  /** `p` holds the words and the neighbour distance of some row. */
  predicate FromSomeRow(unique: seq<string>, nn: Neighbours, p: SimilarPair)
  {
    exists r :: 0 <= r < |unique| && PairOfRow(unique, nn, r, p)
  }

  /** How many pairs are reported. */
  const Top: nat := 50

  /**
   * `most_similar_pairs` as written: the k-th pair takes its distance from the
   * k-th ranked row but its words from the k-th row of the unranked `indices`.
   */
  function SimilarPairs(unique: seq<string>, nn: Neighbours): (pairs: seq<SimilarPair>)
    requires WellShaped(nn, |unique|)
    ensures |pairs| == Min(Top, |unique|)
    ensures forall k :: 0 <= k < |pairs| ==>
      pairs[k].word1 == unique[nn.indices[k].0] && pairs[k].word2 == unique[nn.indices[k].1] &&
      pairs[k].distance == RankedRows(nn)[k].0.1
    ensures forall i, j :: 0 <= i < j < |pairs| ==> pairs[i].distance <= pairs[j].distance
  {
    var ranked := RankedRows(nn);
    var m := Min(Top, |ranked|);
    seq(m, k requires 0 <= k < m =>
      SimilarPair(unique[nn.indices[k].0], unique[nn.indices[k].1], ranked[k].0.1))
  }

  /**
   * Every reported word is in the vocabulary, the two words of a pair differ,
   * every distance is a neighbour distance of some row and lies in [0, 2], and
   * the first distance is the least neighbour distance of all.
   */
  lemma SimilarPairsWords(unique: seq<string>, nn: Neighbours)
    requires NoDup(unique) && WellShaped(nn, |unique|)
    ensures var pairs := SimilarPairs(unique, nn);
      forall k :: 0 <= k < |pairs| ==>
        pairs[k].word1 in unique && pairs[k].word2 in unique && pairs[k].word1 != pairs[k].word2 &&
        0.0 <= pairs[k].distance <= 2.0 &&
        exists r :: 0 <= r < |unique| && pairs[k].distance == nn.distances[r].1
  {
    var pairs := SimilarPairs(unique, nn);
    forall k | 0 <= k < |pairs|
      ensures pairs[k].word1 in unique && pairs[k].word2 in unique && pairs[k].word1 != pairs[k].word2
      ensures 0.0 <= pairs[k].distance <= 2.0
      ensures exists r :: 0 <= r < |unique| && pairs[k].distance == nn.distances[r].1
    {
      RankedRowFromInput(nn, k);
    }
  }

  /** The first reported distance is the least neighbour distance of all rows. */
  lemma SimilarPairsFirstIsLeast(unique: seq<string>, nn: Neighbours)
    requires WellShaped(nn, |unique|) && |unique| > 0
    ensures forall r :: 0 <= r < |unique| ==> SimilarPairs(unique, nn)[0].distance <= nn.distances[r].1
  {
    var ranked := RankedRows(nn);
    forall r | 0 <= r < |unique|
      ensures ranked[0].0.1 <= nn.distances[r].1
    {
      assert Zip(nn)[r] in multiset(ranked);
      var j :| 0 <= j < |ranked| && ranked[j] == Zip(nn)[r];
    }
  }

  /**
   * The pairs as the comment above the comprehension intends: words and
   * distance both taken from the k-th ranked row.
   */
  function AlignedPairs(unique: seq<string>, nn: Neighbours): (pairs: seq<SimilarPair>)
    requires WellShaped(nn, |unique|)
    ensures |pairs| == Min(Top, |unique|)
    ensures forall i, j :: 0 <= i < j < |pairs| ==> pairs[i].distance <= pairs[j].distance
    ensures forall k :: 0 <= k < |pairs| ==> FromSomeRow(unique, nn, pairs[k])
  {
    var m := Min(Top, |unique|);
    var pairs := seq(m, k requires 0 <= k < m => RankedPair(unique, nn, k));
    assert forall k :: 0 <= k < |pairs| ==> pairs[k] == RankedPair(unique, nn, k);
    pairs
  }

  /** The words and the neighbour distance of the k-th ranked row. */
  function RankedPair(unique: seq<string>, nn: Neighbours, k: nat): (p: SimilarPair)
    requires WellShaped(nn, |unique|) && k < |unique|
    ensures var row := RankedRows(nn)[k];
      row.1.0 < |unique| && row.1.1 < |unique| &&
      p == SimilarPair(unique[row.1.0], unique[row.1.1], row.0.1)
    ensures FromSomeRow(unique, nn, p)
  {
    var row := RankedRows(nn)[k];
    RankedRowFromInput(nn, k);
    var r :| 0 <= r < |unique| && row == (nn.distances[r], nn.indices[r]);
    assert PairOfRow(unique, nn, r, SimilarPair(unique[row.1.0], unique[row.1.1], row.0.1));
    SimilarPair(unique[row.1.0], unique[row.1.1], row.0.1)
  }

  /** Pair `k` holds the two words and the neighbour distance of the k-th ranked row. */
  lemma AlignedPairsRanked(unique: seq<string>, nn: Neighbours)
    requires WellShaped(nn, |unique|)
    ensures var pairs, ranked := AlignedPairs(unique, nn), RankedRows(nn);
      forall k :: 0 <= k < |pairs| ==>
        ranked[k].1.0 < |unique| && ranked[k].1.1 < |unique| &&
        pairs[k] == SimilarPair(unique[ranked[k].1.0], unique[ranked[k].1.1], ranked[k].0.1)
  {
    var pairs, ranked := AlignedPairs(unique, nn), RankedRows(nn);
    forall k | 0 <= k < |pairs|
      ensures ranked[k].1.0 < |unique| && ranked[k].1.1 < |unique|
      ensures pairs[k] == SimilarPair(unique[ranked[k].1.0], unique[ranked[k].1.1], ranked[k].0.1)
    {
      assert pairs[k] == RankedPair(unique, nn, k);
    }
  }

  /** The first `m` aligned pairs come from the `m` rows of least neighbour distance. */
  lemma AlignedPairsLeast(unique: seq<string>, nn: Neighbours)
    requires WellShaped(nn, |unique|)
    ensures var pairs := AlignedPairs(unique, nn);
      forall x, k :: x in multiset(Zip(nn)) - multiset(RankedRows(nn)[..|pairs|]) && 0 <= k < |pairs| ==>
        pairs[k].distance <= x.0.1
  {
    RankedPrefixLeast(nn, Min(Top, |unique|));
  }

  /**
   * Three words where the first word's nearest neighbour lies at 0.5 and the
   * other two are 0.1 apart: ranking puts the row of the second word first.
   */
  const ExampleWords: seq<string> := ["barrel", "castle", "dragon"]
  const ExampleNeighbours: Neighbours :=
    Neighbours([(0.0, 0.5), (0.0, 0.1), (0.0, 0.1)], [(0, 1), (1, 2), (2, 1)])

  lemma ExampleRanking()
    ensures RankedRows(ExampleNeighbours) ==
      [((0.0, 0.1), (1, 2)), ((0.0, 0.1), (2, 1)), ((0.0, 0.5), (0, 1))]
  {
    var a, b, c := ((0.0, 0.5), (0, 1)), ((0.0, 0.1), (1, 2)), ((0.0, 0.1), (2, 1));
    assert Zip(ExampleNeighbours) == [a, b, c];
    SortThree(a, b, c, NeighbourDistance);
    ExampleInserts(a, b, c);
  }

  /** Sorting three rows inserts the second and then the third into the first. */
  lemma SortThree<T>(a: T, b: T, c: T, key: T -> real)
    ensures StableSort([a, b, c], key) == Insert(c, Insert(b, [a], key), key)
  {
    assert [a, b] + [c] == [a, b, c];
    StableSortSnoc([a, b], c, key);
    SortTwo(a, b, key);
  }

  lemma SortTwo<T>(a: T, b: T, key: T -> real)
    ensures StableSort([a, b], key) == Insert(b, [a], key)
  {
    assert [a] + [b] == [a, b];
    StableSortSnoc([a], b, key);
    SortOne(a, key);
  }

  lemma SortOne<T>(a: T, key: T -> real)
    ensures StableSort([a], key) == [a]
  {
    assert [] + [a] == [a];
    StableSortSnoc([], a, key);
  }

  lemma ExampleInserts(a: Row, b: Row, c: Row)
    requires a == ((0.0, 0.5), (0, 1)) && b == ((0.0, 0.1), (1, 2)) && c == ((0.0, 0.1), (2, 1))
    ensures Insert(c, Insert(b, [a], NeighbourDistance), NeighbourDistance) == [b, c, a]
  {
    var key := NeighbourDistance;
    assert Insert(b, [a], key) == [b, a];
    assert Insert(c, [a], key) == [c, a];
    assert Insert(c, [b, a], key) == [b] + Insert(c, [a], key);
  }

  /**
   * As written, the first reported pair is `barrel`/`castle` with distance
   * 0.1, although the neighbour search put those two words 0.5 apart; the
   * aligned pairs report `castle`/`dragon` at 0.1.
   */
  lemma MisalignedPairExample()
    ensures SimilarPairs(ExampleWords, ExampleNeighbours)[0] == SimilarPair("barrel", "castle", 0.1)
    ensures ExampleNeighbours.indices[0] == (0, 1) && ExampleNeighbours.distances[0].1 == 0.5
    ensures AlignedPairs(ExampleWords, ExampleNeighbours)[0] == SimilarPair("castle", "dragon", 0.1)
  {
    ExampleRanking();
  }

  /** `set(all_words)`: the distinct long words of the texts. */
  function Vocabulary(texts: seq<string>, dictionary: set<string>): (vocabulary: set<string>)
    ensures forall w :: w in vocabulary <==> w in LongWords(texts, dictionary)
  {
    set w | w in LongWords(texts, dictionary)
  }

  /** `unique` lists the elements of `words`, each once, in some order. */
  ghost predicate Enumerates(unique: seq<string>, words: set<string>)
  {
    NoDup(unique) && forall w :: w in unique <==> w in words
  }

  lemma EnumerationSize(vocabulary: set<string>, unique: seq<string>)
    requires Enumerates(unique, vocabulary)
    ensures |unique| == |vocabulary|
  {
    NoDupCardinality(unique);
    assert (set w | w in unique) == vocabulary;
  }

  datatype Task2Error = InsufficientVocabulary

  /** The table `prepare_string_output_format` builds: columns `word1`, `word2`, `distance`. */
  datatype SimilarityTable = SimilarityTable(columns: seq<string>, rows: seq<SimilarPair>)

  /**
   * `_task_method`. `enumerate` stands for `list(set(...))`, whose order
   * Python leaves open, and `kneighbors` for the embedding model and the
   * nearest-neighbour search; fewer than two distinct words leave no
   * neighbour to find and the run fails. The pairs are the aligned ones:
   * `SimilarPairs` keeps the comprehension as written, which mixes rows.
   */
  method SimilarWordPairs(
    texts: seq<string>, dictionary: set<string>,
    enumerate: set<string> -> seq<string>, kneighbors: seq<string> -> Neighbours)
    returns (result: Result<SimilarityTable, Task2Error>)
    requires forall words :: Enumerates(enumerate(words), words)
    requires forall unique :: |unique| >= 2 ==> WellShaped(kneighbors(unique), |unique|)
    ensures result.Failure? <==> |Vocabulary(texts, dictionary)| < 2
    ensures var unique := enumerate(Vocabulary(texts, dictionary));
      && (result.Failure? <==> |unique| < 2)
      && (result.Success? ==>
        result.value == SimilarityTable(["word1", "word2", "distance"], AlignedPairs(unique, kneighbors(unique))))
  {
    var allWords: seq<string> := [];
    for i := 0 to |texts|
      invariant allWords == LongWords(texts[..i], dictionary)
    {
      var cleaned := CleanedWords(texts[i], dictionary);
      cleaned := Filter(cleaned, IsLongWord);
      LongWordsStep(texts, i, dictionary);
      allWords := allWords + cleaned;
    }
    assert texts[..|texts|] == texts;
    var vocabulary := set w | w in allWords;
    var unique := enumerate(vocabulary);
    EnumerationSize(vocabulary, unique);
    assert vocabulary == Vocabulary(texts, dictionary);
    if |unique| < 2 {
      return Failure(InsufficientVocabulary);
    }
    var nn := kneighbors(unique);
    var pairs := AlignedPairs(unique, nn);
    result := Success(SimilarityTable(["word1", "word2", "distance"], pairs));
  }
}
