# Word-frequency pipeline of the text-analysis app

The app fetches a web page, extracts its text, segments it into words with `jieba`,
counts the words and charts the 20 most frequent. This project models the counting
part of `main()` in `app.py`, lines 78-87. It is written as Dafny functions, with
lemmas that prove what each step guarantees:

1. **Token filter** (`Tokens.FilterTokens`). It keeps a segmented word when
   `len(w) > 1 and w.strip()`. `str.strip()` is modelled exactly: it removes
   leading and trailing whitespace, meaning the characters Python's `str.isspace()`
   accepts (`Tokens.IsWhitespace`).
2. **Frequency table** (`Frequency.CountTokens`), modelling `Counter(words)`.
   A `Counter` is a dictionary, and Python dictionaries keep their keys in
   insertion order. That order decides ties later, so the table is a sequence of
   `Entry(word, count)` in insertion order. Each step of the count is
   `Frequency.Bump`: an existing key is incremented where it stands, and a new key
   is appended with count 1. `Frequency.Lookup` models `counter[w]`, which is 0
   for a missing key.
3. **Threshold** (`Frequency.Threshold`), modelling
   `Counter({k: v for k, v in counter.items() if v >= min_freq})`. It keeps the
   qualifying items in their original order. `min_freq` comes from a slider with
   range 1 to 15 and default 2 (`Pipeline.MinFreq`, `Pipeline.DefaultMinFreq`).
4. **Ranking** (`Ranking.MostCommon`), modelling `most_common(20)`. This is
   `heapq.nlargest(20, items, key=count)`, and Python documents that as
   `sorted(items, key=count, reverse=True)[:20]`. That is a stable sort by
   descending count, cut to 20 entries. Here it is a stable insertion sort
   (`Ranking.SortByCount`) followed by a prefix. The ranking order is stated as
   `Ranking.Precedes`: a larger count comes first, and equal counts come in the
   order their words first appear.
5. **Split** into `labels` and `values` (`Frequency.Keys`, `Frequency.Counts`).
   `Pipeline.Zip` is the inverse of the split.

`Pipeline.Analyze` chains the five steps. Its input is the segmenter's output, an
arbitrary `seq<string>`. Dafny functions are deterministic, so running the
pipeline twice on the same segmenter output gives the same table and the same ranking.

Two details of `app.py` shape the model:

- `app.py` has no cleaning step: the text goes from `soup.get_text()` (line 75)
  straight into `jieba.lcut` (line 78), so no cleaner is modelled.
- The length test measures the unstripped word; `strip()` is used only for the
  blank test, so `" a"` survives (`Tokens.KeepMeasuresUnstripped`).

## Model

| member | source | states |
|---|---|---|
| Tokens.IsWhitespace | app.py:79 | the characters `str.strip()` removes, Python's `str.isspace()` set; its consequences are stated by `Tokens.StripLeftSpec`, `Tokens.StripRightSpec` and `Tokens.StripEmptyIffBlank` |
| Tokens.StripLeft | app.py:79 | `lstrip`, the first half of `strip()`; its contract is `Tokens.StripLeftSpec` |
| Tokens.StripRight | app.py:79 | `rstrip`, the second half of `strip()`; its contract is `Tokens.StripRightSpec` |
| Tokens.Strip | app.py:79 | `w.strip()`; `Tokens.StripEmptyIffBlank` states when it is empty, which is all the filter asks of it |
| Tokens.Keep | app.py:79 | the comprehension's test `len(w) > 1 and w.strip()`; `Tokens.KeepIff` restates it as length and non-blankness |
| Tokens.FilterTokens | app.py:79 | the comprehension: never longer than its input; `Tokens.FilterTokensKeep`, `Tokens.FilterTokensSubsequence`, `Tokens.FilterTokensCounts` and `Tokens.FilterTokensFirstIndex` state which tokens survive and in what order |
| Tokens.StripLeftSpec | app.py:79 | `lstrip` leaves a suffix; what it removed is all whitespace; the result is empty or starts with a non-whitespace character |
| Tokens.StripRightSpec | app.py:79 | `rstrip` leaves a prefix; what it removed is all whitespace; the result is empty or ends with a non-whitespace character |
| Tokens.StripEmptyIffBlank | app.py:79 | `w.strip()` is empty (falsy) exactly when every character of `w` is whitespace |
| Tokens.KeepIff | app.py:79 | a word passes the filter exactly when it is longer than one character and not made only of whitespace |
| Tokens.KeepMeasuresUnstripped | app.py:79 | the length test applies to the unstripped word: `" a"` passes although it strips to one character |
| Tokens.FilterTokensKeep | app.py:79 | every surviving token is longer than one character and not blank |
| Tokens.FilterTokensSubsequence | app.py:79 | the surviving tokens are an order-preserving subsequence of the segmenter output |
| Tokens.FilterTokensCounts | app.py:79 | every occurrence of a passing word survives and no occurrence of a failing word does, so a token is dropped only for failing the test |
| Tokens.FilterTokensMembers | app.py:79 | a word is among the survivors exactly when it occurs in the input and passes the test |
| Tokens.FilterTokensAppend | app.py:79 | the filter works token by token: it distributes over concatenation |
| Tokens.FilterTokensIdempotent | app.py:79 | filtering the filtered list changes nothing |
| Tokens.FilterTokensFirstIndex | app.py:79 | of two passing words, the one seen first in the segmenter output is seen first in the filtered list, and conversely |
| Frequency.Lookup | app.py:82-83 | `counter[w]`: a positive result means `w` is a key, and a missing key reads 0; `Frequency.CountTokensLookup` and `Frequency.ThresholdLookup` state its values |
| Frequency.CountTokens | app.py:82 | `Counter(words)`: at most one entry per token; `Frequency.CountTokensKeys`, `Frequency.CountTokensLookup`, `Frequency.CountTokensTotal` and `Frequency.CountTokensFirstSeen` state its keys, counts and order |
| Frequency.Bump | app.py:82 | one counting step: an existing key keeps its slot, a new key is appended with count 1, no key changes its position, the total grows by one |
| Frequency.BumpLookup | app.py:82 | one counting step adds one to the count of the word and leaves every other count unchanged |
| Frequency.BumpKeys | app.py:82 | one counting step adds the word to the keys, adds no other key, and keeps keys distinct |
| Frequency.BumpFirstSeen | app.py:82 | one counting step keeps the keys in order of first occurrence |
| Frequency.CountTokensKeys | app.py:82 | the keys of `Counter(words)` are distinct and are exactly the words that occur |
| Frequency.CountTokensLookup | app.py:82 | `counter[w]` equals the number of occurrences of `w`, for every `w` |
| Frequency.CountTokensTotal | app.py:82 | the counts sum to the number of tokens counted |
| Frequency.CountTokensEntries | app.py:82 | every entry's count is its word's number of occurrences and is at least 1 |
| Frequency.CountTokensFirstSeen | app.py:82 | the keys of `Counter(words)` are in the order the words were first seen |
| Frequency.Threshold | app.py:83 | an entry is kept exactly when it is in the table and its count is at least `min_freq` |
| Frequency.ThresholdSubsequence | app.py:83 | the filtered table is a sub-table of the full one: same entries, same counts, same order |
| Frequency.ThresholdFirstSeen | app.py:83 | the filtered table keeps the first-seen order of its keys |
| Frequency.ThresholdLookup | app.py:83 | read through `counter[w]`, the threshold keeps a count that reaches `min_freq` and turns any other count into 0 |
| Frequency.ThresholdKeepsAll | app.py:83 | a threshold that no count falls below keeps the whole table |
| Frequency.ThresholdOneIsIdentity | app.py:82-83 | with `min_freq = 1`, the slider's minimum, the threshold leaves `Counter(words)` unchanged |
| Frequency.Keys | app.py:86 | `labels[i]` is the word of the `i`-th ranked pair, and there are as many labels as pairs |
| Frequency.Counts | app.py:87 | `values[i]` is the count of the `i`-th ranked pair, and there are as many values as pairs |
| Ranking.MostCommon | app.py:84 | `most_common(n)`: at most `n` entries and no more than the table has; `Ranking.MostCommonPrefix`, `Ranking.MostCommonRanked` and `Ranking.MostCommonLeftOut` state which entries and in what order |
| Ranking.Insert | app.py:84 | inserting into a list sorted by non-increasing count keeps it sorted and adds exactly the entry |
| Ranking.SortByCount | app.py:84 | the sort gives a permutation of the table, with counts non-increasing |
| Ranking.SortByCountRanked | app.py:84 | the sort is stable: a table in first-seen order comes out ranked by count, with equal counts in first-seen order |
| Ranking.SortByCountDistinct | app.py:84 | sorting a table with distinct keys keeps them distinct |
| Ranking.MostCommonPrefix | app.py:84 | `most_common(n)` returns `min(n, size)` entries, all from the table |
| Ranking.MostCommonRanked | app.py:84 | `most_common(n)` has distinct words, non-increasing counts, and equal counts in first-seen order |
| Ranking.MostCommonLeftOut | app.py:84 | an entry that `most_common(n)` leaves out ranks after every returned entry, so exactly `n` were returned and its count is at most the last returned count |
| Pipeline.Zip | app.py:86-87 | pairing `labels[i]` with `values[i]` rebuilds the `i`-th pair |
| Pipeline.ZipKeysCounts | app.py:86-87 | splitting the ranked pairs into labels and values and zipping them back gives the pairs |
| Pipeline.KeysCountsZip | app.py:86-87 | zipping labels and values and splitting the result gives them back |
| Pipeline.KeptTable | app.py:78-83 | the threshold-filtered `Counter` of the filtered tokens, at most one entry per token; `Pipeline.KeptTableEntries`, `Pipeline.KeptTableSize` and `Pipeline.KeptTableFirstSeen` state its contents and order |
| Pipeline.Analyze | app.py:78-87 | the pipeline: `top20`, `labels` and `values` have one common length, at most 20; the `Pipeline.Analyze…` lemmas below state the rest |
| Pipeline.DefaultMinFreqDropsSingletons | app.py:44-47 | with the slider at its initial value 2 (`Pipeline.DefaultMinFreq`, within the range 1 to 15 of `Pipeline.MinFreq`), a word that occurs once is never a label |
| Pipeline.FirstSeenThroughFilter | app.py:79-82 | a table in first-seen order relative to the filtered tokens is in first-seen order relative to the segmenter output |
| Pipeline.KeptTableFirstSeen | app.py:78-83 | the threshold-filtered table lists its words in the order they first appear in the segmenter output |
| Pipeline.KeptTableEntries | app.py:78-83 | the threshold-filtered table holds exactly the words that pass the filter and occur at least `min_freq` times, each with its number of occurrences |
| Pipeline.KeptTableSize | app.py:78-83 | the threshold-filtered table has one entry per qualifying word |
| Pipeline.AnalyzeShape | app.py:78-87 | the result has `min(20, number of qualifying words)` pairs, `labels` and `values` have that length, and `(labels[i], values[i])` is the `i`-th pair |
| Pipeline.AnalyzeEntries | app.py:78-87 | every label occurs in the segmenter output, is longer than one character and is not blank; its value is its number of occurrences and is at least `min_freq` |
| Pipeline.AnalyzeOrder | app.py:84-87 | labels are distinct and values are non-increasing |
| Pipeline.AnalyzeTies | app.py:82-87 | labels with equal values appear in the order their words first occur in the segmenter output |
| Pipeline.AnalyzeComplete | app.py:83-87 | a qualifying word missing from `labels` means 20 pairs were returned, and every returned pair ranks before it: a larger count, or an equal count and an earlier first occurrence |
| Pipeline.AnalyzeEmpty | app.py:78-87 | an empty token sequence gives an empty table and empty `labels` and `values` |
| Pipeline.CatDogScenario | app.py:78-87 | tokens `猫狗 猫 狗 狗` give `[("猫狗", 1)]` with `min_freq = 1`, and nothing with the default `min_freq = 2` |

## Left out

- Page setup, sidebar, layout, the result table and the error display (app.py:14-66, 90-95, 175) are user interface. The model takes `min_freq` as a parameter of type `MinFreq`, the slider's range.
- The HTTP fetch with its 10-second timeout, and the `apparent_encoding` guess (app.py:72-73), are network I/O and a library heuristic.
- The BeautifulSoup text extraction (app.py:74-75) is a foreign HTML parser. Its output is only the input of segmentation.
- The `jieba.lcut` segmentation (app.py:78) is a statistical segmenter reached through a foreign call. The model takes its output as an arbitrary `seq<string>`.
- All chart construction and rendering (app.py:99-172) is presentation. This includes the radar chart's `max(values)+5` bound. What a chart shows for an empty result is not modelled.
- The catch-all `except Exception` (app.py:174) reports errors and does no logic.
- Characters are Unicode scalar values. Python strings can also hold lone surrogates, which `len` counts as one character each. Decoded page text is not expected to contain them, and the model does not represent them.
- `heapq.nlargest` is modelled by what Python documents it to return, a stable descending sort cut to `n`. Its heap-based algorithm is not modelled.
