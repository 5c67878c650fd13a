# Blog authorship corpus analytics, modelled in Dafny

The repository runs three analyses over a table of blog posts. Each row of the table holds a text, the author's gender and the author's age.

- **Task 1** (`tasks/task_1.py`) selects the texts written by women aged 20 to 30. It tokenizes them and reports the ten most common dictionary words that have at least five letters and begin and end with a consonant.
- **Task 2** (`tasks/task_2.py`) collects the distinct dictionary words of 6 to 45 letters. It embeds them, finds each word's nearest neighbour and sorts the rows by that distance. The program then pairs the 50 smallest distances with the words of the first 50 rows *before* sorting (`tasks/task_2.py:99-101`), so a reported pair's words and distance can come from different rows (see "## Findings"). `Task2.SimilarPairs` keeps that behaviour as written; `Task2.SimilarWordPairs` returns the corrected pairing `Task2.AlignedPairs`, where pair k holds the words and the distance of the k-th ranked row.
- **Task 3** (`tasks/task_3.py`) finds every dollar amount written in the texts with one regular expression (`utils/consts.py`). It parses each amount (`utils/finance_utils.py`), adds them up and reports the total in billions.

Tasks 1 and 2 share one tokenizer (`utils/text_processing.py`). It deletes every character that is neither a word character nor whitespace, splits on whitespace, lowercases each piece and keeps the pieces found in the dictionary.

Modules:

- `Ascii`, `Seqs`, `Sorting`, `Wrappers`: shared helpers. `Sorting` holds a stable insertion sort, which stands for both `Counter.most_common` and Python's `sorted`.
- `TextProcessing`: the tokenizer.
- `Corpus`: the rows and `data['text'].tolist()`.
- `Task1`, `Task2`, `Task3`: the three analyses.
- `DollarPattern`: the dollar regular expression, written as the scanner the matcher amounts to.
- `FinanceUtils`: `parse_dollar_amount`.

Loops in the source are methods with loop invariants: `Task1.MostCommonWords`, `Task2.SimilarWordPairs` and `Task3.TotalDollarAmount`. Each is proved against the functions that specify it. Everything else in the core is expressions, comprehensions and library calls, so it is modelled as functions and lemmas.

The tokenizer tests the lowercased piece against the dictionary exactly as loaded (`utils/text_processing.py:8`, `24`). The dictionary is used as loaded, without lowercasing it, so a dictionary word with a capital letter is never matched.

## Model

| member | source | states |
|---|---|---|
| `TextProcessing.RemovePunctuation` | utils/text_processing.py:21 | every word character and whitespace character is kept as often as it occurs; every other character is deleted, so the text never grows |
| `TextProcessing.RemovePunctuationConcat` | utils/text_processing.py:21 | deletion works character by character, so kept characters stay in order |
| `TextProcessing.ApostropheIsDeleted` | utils/text_processing.py:21 | `Don't` becomes `Dont`: the apostrophe is deleted, not replaced by a space |
| `TextProcessing.ApostropheWord` | utils/text_processing.py:21-24 | so `Don't` yields the single word `dont` when the dictionary holds it |
| `TextProcessing.SplitWhitespace` | utils/text_processing.py:24 | `str.split()`: pieces are non-empty, contain no whitespace, and are made of characters of the input |
| `TextProcessing.SplitWhitespaceConcat` | utils/text_processing.py:24 | the pieces, joined, are exactly the non-whitespace characters of the input, in order |
| `TextProcessing.SplitJoin` | utils/text_processing.py:24 | splitting pieces that were joined with spaces gives the same pieces back |
| `TextProcessing.SplitAfterPiece` | utils/text_processing.py:24 | a piece followed by whitespace or the end of the text is the first piece of the split |
| `TextProcessing.KnownWordsMembers` | utils/text_processing.py:24 | a word is returned exactly when it is in the dictionary and some piece lowercases to it; the result is empty exactly when no lowercased piece is in the dictionary |
| `TextProcessing.KnownWordsConcat` | utils/text_processing.py:24 | the comprehension keeps the order of the pieces: the words of two lists of pieces are the words of each, one after the other |
| `TextProcessing.CleanedWords` | utils/text_processing.py:10-26 | every returned word is in the dictionary, is non-empty, is its own lowercase form and holds only word characters; there are at most as many words as pieces; the list is empty exactly when no lowercased piece is in the dictionary |
| `Ascii.Lower` | utils/text_processing.py:24 | `str.lower()` on ASCII: the same length, and each upper-case letter is moved to lower case while every other character stays |
| `Ascii.LowerConcat` | utils/text_processing.py:24 | lowercasing works character by character |
| `Ascii.LowerNoUpper` | utils/text_processing.py:24 | text without upper-case letters is its own lowercase form |
| `Corpus.AllTexts` | tasks/task_3.py:49 | `preprocess_data` of tasks 2 and 3: every text, in row order, with no filter |
| `Task1.IsSelected` | tasks/task_1.py:51 | (definition) a row is selected exactly when its gender is `female` and its age lies from 20 to 30 inclusive |
| `Task1.SelectTexts` | tasks/task_1.py:51-52 | a text is selected exactly when some row with gender `female` and age from 20 to 30 holds it |
| `Task1.SelectTextsConcat` | tasks/task_1.py:51-52 | selection works row by row, so selected texts keep their row order |
| `Task1.IsKeyword` | tasks/task_1.py:73-75 | (definition) a keyword has at least five characters and neither its first nor its last character is a lower-case vowel |
| `Task1.AllKeywords` | tasks/task_1.py:69-76 | every collected word is a dictionary word of at least five characters whose first and last characters are not `a`, `e`, `i`, `o` or `u` |
| `Task1.Counter` | tasks/task_1.py:81 | one entry per distinct word, in order of first occurrence; each entry's count is the number of occurrences of its word |
| `Task1.MostCommon` | tasks/task_1.py:84 | `most_common(n)` returns min(n, number of entries) entries taken from the input; counts do not increase; an entry left out counts no more than any entry kept; for each count, the entries kept are the first of that count in input order |
| `Task1.MostCommonSize` | tasks/task_1.py:81-84 | the result has min(n, number of distinct words) rows; it is empty exactly when there are no words or n is 0 |
| `Task1.MostCommonCounts` | tasks/task_1.py:76-84 | each reported count is the number of occurrences of its word in all collected words |
| `Task1.MostCommonDistinct` | tasks/task_1.py:81-84 | the reported words are distinct |
| `Task1.MostCommonTieOrder` | tasks/task_1.py:81-84 | words with equal counts are reported in order of their first occurrence |
| `Task1.MostCommonLeftOut` | tasks/task_1.py:84 | a word that is not reported occurs no more often than any reported word |
| `Task1.MostCommonWords` | tasks/task_1.py:66-85 | the loop collects the keywords text after text; the table has columns `word` and `count` and holds the ten most common keywords |
| `Task2.IsLongWord` | tasks/task_2.py:76-78 | (definition) a long word has from 6 to 45 characters |
| `Task2.LongWords` | tasks/task_2.py:70-79 | every collected word is a dictionary word of 6 to 45 characters, and the texts are taken in order |
| `Task2.LongWordsStep` | tasks/task_2.py:76-79 | one loop iteration appends the long words of the next text, in their order |
| `Task2.Vocabulary` | tasks/task_2.py:82 | `set(all_words)` holds exactly the collected words |
| `Task2.EnumerationSize` | tasks/task_2.py:82 | `list(set(...))`, which has no duplicates and the same elements, is as long as the set |
| `Task2.Zip` | tasks/task_2.py:97 | `zip(distances, indices)` pairs the k-th distances with the k-th indices |
| `Task2.RankedRows` | tasks/task_2.py:97 | the rows sorted by their column-1 distance: a permutation of the zipped rows, non-decreasing in that distance, and stable (rows of equal distance keep their order) |
| `Task2.RankedRowFromInput` | tasks/task_2.py:97 | each ranked row is one of the input rows |
| `Task2.RankedPrefixLeast` | tasks/task_2.py:97-100 | any row outside the first m ranked rows has a distance at least that of each of them |
| `Task2.RankedRowsValid` | tasks/task_2.py:97-100 | the indices of every ranked row are positions in the vocabulary |
| `Task2.SimilarPairs` | tasks/task_2.py:99-101 | the comprehension as written: min(50, vocabulary size) pairs; pair k takes its words from the unsorted k-th row of `indices` and its distance from the k-th ranked row; distances do not decrease |
| `Task2.SimilarPairsWords` | tasks/task_2.py:100 | every reported word is in the vocabulary, the two words of a pair differ, and each distance is a cosine distance of some row |
| `Task2.SimilarPairsFirstIsLeast` | tasks/task_2.py:97-100 | the first reported distance is the least neighbour distance of all rows |
| `Task2.AlignedPairs` | tasks/task_2.py:96-101 | the pairs the comment intends: min(50, vocabulary size) pairs, distances non-decreasing, and each pair's words and distance come from one and the same row |
| `Task2.RankedPair` | tasks/task_2.py:100 | the two words indexed by the k-th ranked row and that row's neighbour distance, which together belong to one input row |
| `Task2.AlignedPairsRanked` | tasks/task_2.py:97-101 | pair k of the corrected pairing is exactly the words and the neighbour distance of the k-th ranked row |
| `Task2.AlignedPairsLeast` | tasks/task_2.py:97-101 | the aligned pairs come from the rows of least neighbour distance |
| `Task2.ExampleRanking` | tasks/task_2.py:97 | on a three-word example, the stable sort puts the two rows at distance 0.1 first, in their input order |
| `Task2.MisalignedPairExample` | tasks/task_2.py:100 | on that example the first pair as written is `barrel`/`castle` at 0.1, although those words are 0.5 apart; the aligned first pair is `castle`/`dragon` at 0.1 |
| `Task2.SimilarWordPairs` | tasks/task_2.py:57-102 | the loop collects the long words; the run fails exactly when there are fewer than two distinct words; otherwise the table has columns `word1`, `word2`, `distance` and holds the aligned pairs (see Findings) |
| `Sorting.Insert` | tasks/task_1.py:84 | inserting adds exactly one element: the result is a permutation of the input plus the new element |
| `Sorting.InsertSorted` | tasks/task_1.py:84 | insertion into a sorted list keeps it sorted |
| `Sorting.InsertWithKey` | tasks/task_1.py:84 | insertion appends the new element after the elements with the same key |
| `Sorting.StableSort` | tasks/task_2.py:97 | the sorted list is a permutation of the input |
| `Sorting.StableSortSorted` | tasks/task_2.py:97 | the sorted list is ordered by the key |
| `Sorting.StableSortStable` | tasks/task_2.py:97 | for every key value, the elements with that key appear in input order |
| `Sorting.StableSortTiesOrdered` | tasks/task_1.py:84 | if the input is ordered by a rank, elements with equal keys stay ordered by that rank |
| `Sorting.SortedPrefixLeast` | tasks/task_1.py:84 | any element outside the first m sorted elements has a key at least that of each of them |
| `Seqs.FilterMultiset` | tasks/task_2.py:76-78 | the comprehension keeps each element that passes as often as it occurs, and no other |
| `Seqs.FilterConcat` | tasks/task_2.py:76-78 | the comprehension keeps input order |
| `Seqs.Distinct` | tasks/task_1.py:81 | the distinct elements, each once, in order of first occurrence |
| `Seqs.FirstIndex` | tasks/task_1.py:81-84 | the position of the first occurrence, or the length when there is none |
| `Seqs.NoDupCardinality` | tasks/task_2.py:82 | a list without duplicates is as long as the set of its elements |
| `DollarPattern.LeadEnd` | utils/consts.py:8 | `\d{1,3}` takes one to three digits, and fewer than three only when no digit follows |
| `DollarPattern.ScanGroups` | utils/consts.py:8 | `(?:,\d{3})*` takes every following group of a comma and exactly three digits, and stops where no such group follows (`$1,00` matches `$1`) |
| `DollarPattern.ScanFraction` | utils/consts.py:8 | `(?:\.\d+)?` takes a point and all the digits after it exactly when a digit follows the point |
| `DollarPattern.ScanNumeral` | utils/consts.py:8 | the amount is a valid numeral written at the scan position |
| `DollarPattern.ScanNumeralGreedy` | utils/consts.py:8 | each part of the amount is as long as it can be: a run of more than three digits is cut after the third (`$12345` matches `$123`) |
| `DollarPattern.FirstWord` | utils/consts.py:8-9 | the first suffix word spelled at a position, ignoring case, as written in the text; none exactly when no suffix word is spelled there |
| `DollarPattern.FirstWordIsFirst` | utils/consts.py:8-9 | the word found is the first of the list spelled at the position: no earlier word of the list is spelled there, so `billion` is taken before `bill` |
| `DollarPattern.ScanSuffix` | utils/consts.py:8-9 | the suffix is valid and written right after the amount |
| `DollarPattern.ScanSuffixChoice` | utils/consts.py:8-9 | a letter `m`, `b` or `k` in either case is taken exactly when it follows the amount (`$3bn` matches `$3b`); otherwise the first word of the alternation's order spelled after optional whitespace, hyphen and whitespace; otherwise no suffix |
| `DollarPattern.AdjacentWordIsThousand` | utils/consts.py:8-9 | a word suffix right after the amount can only be `thousand`, since the letters `m` and `b` are taken first |
| `DollarPattern.MatchAt` | utils/consts.py:7-9 | the pattern matches at a position exactly when a `$` followed by a digit is there; the match starts there and is written there |
| `DollarPattern.Matches` | tasks/task_3.py:66 | `finditer` over a whole text: every match lies inside the text, and the matches come in text order without overlapping |
| `DollarPattern.FindAll` | utils/consts.py:7-9 | `finditer`: matches lie inside the text, in order, and never overlap |
| `DollarPattern.FindAllMatchIn` | utils/consts.py:7-9 | every match found is a well-formed match of the text |
| `DollarPattern.FindAllCovers` | utils/consts.py:7-9 | no `$` followed by a digit is skipped: each lies inside some match |
| `DollarPattern.NoMatchIffNoDollar` | utils/consts.py:7-9 | there is no match exactly when no `$` is followed by a digit |
| `DollarPattern.SkipTo` | utils/consts.py:7-9 | the search passes over a stretch without `$` and finds nothing there |
| `DollarPattern.NumeralChars` | utils/consts.py:8 | the amount holds only digits, commas and a point |
| `DollarPattern.SuffixChars` | utils/consts.py:8-9 | a suffix holds only letters, whitespace and a hyphen, and ends with a letter |
| `DollarPattern.MatchLetters` | utils/consts.py:8 | the only letters of a match are those of its suffix |
| `FinanceUtils.RemoveSymbols` | utils/finance_utils.py:21 | the text never grows, and a character is kept exactly when it occurs in the input and is neither `$` nor a comma |
| `FinanceUtils.RemoveSymbolsMultiset` | utils/finance_utils.py:21 | every `$` and comma is deleted, and every other character is kept as often as it occurs |
| `FinanceUtils.RemoveSymbolsConcat` | utils/finance_utils.py:21 | deletion works character by character |
| `FinanceUtils.Strip` | utils/finance_utils.py:22 | `strip()` leaves no whitespace at either end |
| `FinanceUtils.CleanText` | utils/finance_utils.py:21-22 | the cleaned text is no longer than the input, holds no `$` and no comma, and neither starts nor ends with whitespace |
| `FinanceUtils.StripTrims` | utils/finance_utils.py:22 | the stripped text is the input without whitespace at its ends |
| `FinanceUtils.StripIdempotent` | utils/finance_utils.py:22 | stripping twice is stripping once |
| `FinanceUtils.Multiplier` | utils/finance_utils.py:24-36 | a multiplier found is 1, 1000, a million or a billion; none is found only when the text holds a letter |
| `FinanceUtils.MultiplierCases` | utils/finance_utils.py:24-36 | multiplier priority: any `m` gives a million, otherwise any `b` a billion, otherwise `k` or `thousand` a thousand, otherwise 1; the amount is invalid exactly when it holds a letter and none of these |
| `FinanceUtils.FirstDecimal` | utils/finance_utils.py:39 | `re.search(r'\d+(\.\d+)?')` finds a literal exactly when the text holds a digit, and it starts at a digit |
| `FinanceUtils.FirstDecimalLeftmost` | utils/finance_utils.py:39 | the literal is written in the text, no digit comes before it, and it is as long as the pattern makes it |
| `FinanceUtils.ParseDollarAmount` | utils/finance_utils.py:4-45 | the parsed value is never negative |
| `FinanceUtils.ParseCleaned` | utils/finance_utils.py:24-45 | the value of cleaned text is never negative, whichever branch returns it (the values of the branches are stated by `FinanceUtils.ParseCleanedValue`) |
| `FinanceUtils.ParseCleanedValue` | utils/finance_utils.py:38-41 | with a multiplier and a literal, the value is the literal's exact value times the multiplier |
| `FinanceUtils.NoDigitIsZero` | utils/finance_utils.py:39-45 | a text with no digit parses to 0 |
| `FinanceUtils.UnknownLetterIsZero` | utils/finance_utils.py:32-36 | a text whose letters name no multiplier parses to 0 |
| `FinanceUtils.InvalidExample` | utils/finance_utils.py:32-36 | `$5xyz` parses to 0 |
| `FinanceUtils.CleanedPlain` | utils/finance_utils.py:20-22 | cleaning removes the leading `$` from text that is already clean |
| `Task3.RemoveSymbolsOfMatch` | utils/finance_utils.py:21 | cleaning a match removes its `$` and its thousands separators and nothing else |
| `Task3.CleanedMatch` | utils/finance_utils.py:20-22 | a cleaned match is its amount without commas, followed by its lowercased suffix |
| `Task3.MultiplierOfMatch` | utils/finance_utils.py:24-31 | the multiplier the parser finds in a match is the factor its suffix names |
| `Task3.DecimalOfMatch` | utils/finance_utils.py:39-41 | the literal the parser finds in a match is the whole amount, with the same value |
| `Task3.ParseOfMatch` | tasks/task_3.py:68-70 | parsing a match gives its amount times the factor of its suffix; the "letters make it invalid" branch never applies to a match |
| `Task3.ParseOneAndAHalfM` | utils/finance_utils.py:12 | `$1.5M` parses to 1,500,000 |
| `Task3.ParseOneAndAHalfBillion` | utils/finance_utils.py:11 | `$1.5 billion` parses to 1,500,000,000 |
| `Task3.ParseOneMillion` | utils/finance_utils.py:10 | `$1 million` parses to 1,000,000 |
| `Task3.ParseOneThousand` | utils/finance_utils.py:9 | `$1,000` parses to 1,000 |
| `Task3.TextTotal` | tasks/task_3.py:64-72 | the sum over one text is never negative |
| `Task3.AmountsAreValues` | tasks/task_3.py:66-72 | parsing and adding up the well-formed matches of a text gives the sum of their values |
| `Task3.TextTotalIsValues` | tasks/task_3.py:64-72 | the total of a text is the sum, over the matches found, of each amount times the factor of its suffix |
| `Task3.NoDollarAddsNothing` | tasks/task_3.py:66-67 | a text with no `$` followed by a digit adds nothing |
| `Task3.CorpusTotal` | tasks/task_3.py:62-72 | the total over all texts is never negative |
| `Task3.CorpusTotalConcat` | tasks/task_3.py:64 | the total of two lists of texts is the sum of their totals |
| `Task3.CorpusTotalStep` | tasks/task_3.py:64-72 | one iteration of the outer loop adds the total of the next text |
| `Task3.WorkedExample` | tasks/task_3.py:62-87 | the text `$1,000 and $2 million` totals 2,001,000, reported as 0.002001 billion |
| `Task3.TotalDollarAmount` | tasks/task_3.py:53-88 | the loops add every non-zero parsed match of every text; the table has the single column `Total Dollar Amount Billion $` holding the total divided by 10^9 |

## Left out

- Characters are ASCII only. `\w` is taken as `[A-Za-z0-9_]`, `\s` and `str.isspace` as space, 9 to 13 and 28 to 31, and `lower()` changes only `A`–`Z`. Python's Unicode classes and case mappings are not modelled.
- The word list (`nltk.corpus.words`) and its download are I/O. The dictionary is a parameter.
- `gensim.models.FastText` and `sklearn.neighbors.NearestNeighbors` are outside the model. Their result enters `Task2.SimilarWordPairs` as the parameter `kneighbors`. Its requires states what the search guarantees: one row per word, two different neighbours per row, valid positions, and distances in [0, 2].
- The order of `list(set(all_words))` is left open by Python, so it is the parameter `enumerate`. The only assumption is that it lists each element exactly once.
- Task2.SimilarWordPairs: with fewer than two distinct words the source fails inside the neighbour search. The model returns `Failure(InsufficientVocabulary)` instead of modelling the library's exception.
- Dollar values are exact reals, not IEEE doubles. `float(...)`, the `* multiplier` and the `/ 1e9` do not round. A literal too long for a double is not modelled.
- Task3.TotalDollarAmount: the Python total starts as the integer 0, and `parse_dollar_amount` returns the integer 0 on invalid input. The model makes both 0.0, because the integer-or-float type changes no value that is added.
- The second and third alternatives of the amount in `utils/consts.py:8` can never be used, because the first always matches once a digit follows `$`. The scanner therefore has no branch for them.
- The DataFrame that each `prepare_*_output_format` builds is modelled as column names plus rows. `to_csv`, `results/` and pandas types are left out.
- Logging (`utils/logging_utils.py`), `tqdm` progress bars, `tasks/task.py`, `main.py`, `config.py`, the dataset loaders, `utils/openai.py` and `web_app/app.py` are not part of this model.
- Corpus.AllTexts: the `preprocess_data` of tasks 2 and 3 and its texts are modelled. The pandas column selection is not.

## Findings

| source | as written | input that shows it | evidently intended | confidence | as-written member | corrected member |
|---|---|---|---|---|---|---|
| tasks/task_2.py:100 | the k-th pair takes its words from `indices[k]` of the unsorted rows, but its distance from the k-th row of `sorted_distances` | words `barrel`, `castle`, `dragon`; neighbour rows (0.5 → `castle`), (0.1 → `dragon`), (0.1 → `castle`): the first pair is `barrel`/`castle` at 0.1, but those words are 0.5 apart | the words and the distance come from the same ranked row (`castle`/`dragon` at 0.1) | high; not executed | `Task2.MisalignedPairExample` (on `Task2.SimilarPairs`) | `Task2.AlignedPairs` |
