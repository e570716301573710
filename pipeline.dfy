/**
 * The word-frequency pipeline as a whole: the segmenter's output goes through the
 * token filter, `Counter`, the `min_freq` threshold and `most_common(20)`, and the
 * ranked pairs are split into the `labels` and `values` the charts consume.
 */
module Pipeline {
  import opened Tokens
  import opened Frequency
  import opened Ranking

  /** The values the `min_freq` slider offers: 1 to 15. */
  type MinFreq = x: int | 1 <= x <= 15 witness 2

  /** The slider's initial position. */
  const DefaultMinFreq: MinFreq := 2

  /** How many ranked entries the pipeline keeps. */
  const TopN: nat := 20

  /** What the pipeline hands to the table and the charts. */
  datatype Analysis = Analysis(top20: Table, labels: seq<string>, values: seq<nat>)

  /** Pairs `labels[i]` with `values[i]`: the inverse of splitting a table into words and counts. */
  function Zip(labels: seq<string>, values: seq<nat>): (t: Table)
    requires |labels| == |values|
    ensures |t| == |labels|
    ensures forall i :: 0 <= i < |t| ==> t[i] == Entry(labels[i], values[i])
  {
    if labels == [] then [] else [Entry(labels[0], values[0])] + Zip(labels[1..], values[1..])
  }

  /** Splitting a table into labels and values and zipping them back gives the table. */
  lemma ZipKeysCounts(t: Table)
    ensures Zip(Keys(t), Counts(t)) == t
  {
  }

  /** Zipping labels and values and splitting the result gives them back. */
  lemma KeysCountsZip(labels: seq<string>, values: seq<nat>)
    requires |labels| == |values|
    ensures Keys(Zip(labels, values)) == labels
    ensures Counts(Zip(labels, values)) == values
  {
  }

  /** The threshold-filtered frequency table of the segmenter's output. */
  function KeptTable(segments: seq<string>, minFreq: int): (r: Table)
    ensures |r| <= |segments|
  {
    Threshold(CountTokens(FilterTokens(segments)), minFreq)
  }

  /** The pipeline from the segmenter's output to the chart input. */
  function Analyze(segments: seq<string>, minFreq: MinFreq): (a: Analysis)
    ensures |a.labels| == |a.top20| == |a.values| <= TopN
  {
    var top20 := MostCommon(KeptTable(segments, minFreq), TopN);
    Analysis(top20, Keys(top20), Counts(top20))
  }

  /** A word makes it into the threshold-filtered table: it passes the filter and occurs often enough. */
  predicate Qualifies(segments: seq<string>, minFreq: int, w: string) {
    Keep(w) && multiset(segments)[w] >= minFreq
  }

  /** First-seen order in the filtered list is first-seen order in the segmenter's output. */
  lemma FirstSeenThroughFilter(t: Table, segments: seq<string>)
    requires FirstSeenOrdered(t, FilterTokens(segments))
    ensures FirstSeenOrdered(t, segments)
  {
    var words := FilterTokens(segments);
    forall i | 0 <= i < |t| ensures t[i].word in segments && Keep(t[i].word) {
      FilterTokensMembers(segments, t[i].word);
    }
    forall i, j | 0 <= i < j < |t|
      ensures FirstIndex(segments, t[i].word) < FirstIndex(segments, t[j].word)
    {
      FilterTokensFirstIndex(segments, t[i].word, t[j].word);
    }
  }

  /** The threshold-filtered table keeps its keys in the order the words were first seen. */
  lemma KeptTableFirstSeen(segments: seq<string>, minFreq: MinFreq)
    ensures FirstSeenOrdered(KeptTable(segments, minFreq), segments)
  {
    var words := FilterTokens(segments);
    var counter := CountTokens(words);
    CountTokensFirstSeen(words);
    FirstSeenThroughFilter(counter, segments);
    ThresholdFirstSeen(counter, minFreq, segments);
  }

  /** The entries of the threshold-filtered table: each qualifying word with its number of occurrences. */
  lemma KeptTableEntries(segments: seq<string>, minFreq: MinFreq)
    ensures forall e :: e in KeptTable(segments, minFreq) <==>
      Qualifies(segments, minFreq, e.word) && e.count == multiset(segments)[e.word]
  {
    var words := FilterTokens(segments);
    var counter := CountTokens(words);
    var kept := KeptTable(segments, minFreq);
    CountTokensEntries(words);
    CountTokensKeys(words);
    forall e ensures e in kept <==> Qualifies(segments, minFreq, e.word) && e.count == multiset(segments)[e.word] {
      FilterTokensCounts(segments, e.word);
      if e in kept {
        var i :| 0 <= i < |counter| && counter[i] == e;
      }
      if Qualifies(segments, minFreq, e.word) && e.count == multiset(segments)[e.word] {
        assert e.word in words;
        var i := IndexOfWord(counter, e.word);
        assert counter[i] == e;
      }
    }
  }

  /** The words of a table with distinct keys, as a set. */
  function KeySet(t: Table): (r: set<string>)
    requires DistinctWords(t)
    ensures |r| == |t|
    ensures forall w :: w in r <==> w in Keys(t)
  {
    if t == [] then {}
    else
      assert DistinctWords(t[1..]);
      assert t[0].word !in Keys(t[1..]);
      {t[0].word} + KeySet(t[1..])
  }

  /** The threshold-filtered table has one entry per qualifying word. */
  lemma KeptTableSize(segments: seq<string>, minFreq: MinFreq)
    ensures |KeptTable(segments, minFreq)| == |set w | w in segments && Qualifies(segments, minFreq, w)|
  {
    var kept := KeptTable(segments, minFreq);
    KeptTableEntries(segments, minFreq);
    KeptTableFirstSeen(segments, minFreq);
    FirstSeenDistinct(kept, segments);
    var keys := KeySet(kept);
    var qualifying := set w | w in segments && Qualifies(segments, minFreq, w);
    forall w ensures w in keys <==> w in qualifying {
      if w in keys {
        var i :| 0 <= i < |kept| && Keys(kept)[i] == w;
        assert kept[i] in kept;
      }
      if w in qualifying {
        assert Entry(w, multiset(segments)[w]) in kept;
        var i :| 0 <= i < |kept| && kept[i] == Entry(w, multiset(segments)[w]);
        assert Keys(kept)[i] == w;
      }
    }
    assert keys == qualifying;
  }

  /**
   * Shape of the result: at most 20 ranked pairs, no more than the qualifying words,
   * and `labels[i], values[i]` is the `i`-th pair.
   */
  lemma AnalyzeShape(segments: seq<string>, minFreq: MinFreq)
    ensures var a := Analyze(segments, minFreq);
      var size := |set w | w in segments && Qualifies(segments, minFreq, w)|;
      && |a.top20| == (if size < TopN then size else TopN)
      && |a.labels| == |a.top20| && |a.values| == |a.top20|
      && (forall i :: 0 <= i < |a.top20| ==> a.top20[i] == Entry(a.labels[i], a.values[i]))
      && Zip(a.labels, a.values) == a.top20
  {
    var kept := KeptTable(segments, minFreq);
    KeptTableFirstSeen(segments, minFreq);
    KeptTableSize(segments, minFreq);
    MostCommonPrefix(kept, TopN);
    ZipKeysCounts(MostCommon(kept, TopN));
  }

  /**
   * Every returned label is a word of the segmenter's output that passes the filter,
   * its value is its number of occurrences, and that number reaches `min_freq`.
   */
  lemma AnalyzeEntries(segments: seq<string>, minFreq: MinFreq)
    ensures var a := Analyze(segments, minFreq);
      && |a.labels| == |a.values|
      && forall i :: 0 <= i < |a.labels| ==>
        && a.labels[i] in segments
        && |a.labels[i]| > 1 && !IsBlank(a.labels[i])
        && a.values[i] == multiset(segments)[a.labels[i]]
        && a.values[i] >= minFreq
  {
    var kept := KeptTable(segments, minFreq);
    var top20 := MostCommon(kept, TopN);
    KeptTableEntries(segments, minFreq);
    MostCommonPrefix(kept, TopN);
    forall i | 0 <= i < |top20|
      ensures top20[i].word in segments && |top20[i].word| > 1 && !IsBlank(top20[i].word)
    {
      assert top20[i] in top20;
      KeepIff(top20[i].word);
    }
  }

  /** Order of the result: distinct labels and non-increasing values. */
  lemma AnalyzeOrder(segments: seq<string>, minFreq: MinFreq)
    ensures var a := Analyze(segments, minFreq);
      && |a.labels| == |a.values|
      && (forall i, j :: 0 <= i < j < |a.labels| ==> a.labels[i] != a.labels[j])
      && (forall i, j :: 0 <= i < j < |a.values| ==> a.values[i] >= a.values[j])
  {
    KeptTableFirstSeen(segments, minFreq);
    MostCommonRanked(KeptTable(segments, minFreq), TopN, segments);
  }

  /**
   * The tie-break: pairs with equal values come in the order their words first
   * appear in the segmenter's output.
   */
  lemma AnalyzeTies(segments: seq<string>, minFreq: MinFreq)
    ensures var a := Analyze(segments, minFreq);
      && |a.labels| == |a.values|
      && forall i, j :: 0 <= i < j < |a.labels| && a.values[i] == a.values[j] ==>
           FirstIndex(segments, a.labels[i]) < FirstIndex(segments, a.labels[j])
  {
    KeptTableFirstSeen(segments, minFreq);
    MostCommonRanked(KeptTable(segments, minFreq), TopN, segments);
  }

  /**
   * Completeness of the ranking: a qualifying word left out ranks after every
   * returned pair, so its count is at most the last value; and when fewer than 20
   * pairs come back, no qualifying word is left out.
   */
  lemma AnalyzeComplete(segments: seq<string>, minFreq: MinFreq, w: string)
    requires Qualifies(segments, minFreq, w)
    requires w !in Analyze(segments, minFreq).labels
    ensures var a := Analyze(segments, minFreq);
      && |a.labels| == TopN == |a.values|
      && forall i :: 0 <= i < |a.labels| ==>
        || a.values[i] > multiset(segments)[w]
        || (a.values[i] == multiset(segments)[w]
            && FirstIndex(segments, a.labels[i]) < FirstIndex(segments, w))
  {
    var kept := KeptTable(segments, minFreq);
    var top20 := MostCommon(kept, TopN);
    var e := Entry(w, multiset(segments)[w]);
    KeptTableEntries(segments, minFreq);
    KeptTableFirstSeen(segments, minFreq);
    assert e in kept;
    assert e !in top20;
    MostCommonLeftOut(kept, TopN, segments, e);
  }

  /**
   * With the slider at its initial position, a word that occurs only once never
   * becomes a label.
   */
  lemma DefaultMinFreqDropsSingletons(segments: seq<string>, w: string)
    requires multiset(segments)[w] == 1
    ensures w !in Analyze(segments, DefaultMinFreq).labels
  {
    AnalyzeEntries(segments, DefaultMinFreq);
  }

  /** No text, no tokens, no pairs. */
  lemma AnalyzeEmpty(minFreq: MinFreq)
    ensures Analyze([], minFreq) == Analysis([], [], [])
  {
  }

  /** `猫狗 猫 狗 狗`: the one-character words drop out and `猫狗` is counted once. */
  lemma CatDogScenario()
    ensures Analyze(["猫狗", "猫", "狗", "狗"], 1) == Analysis([Entry("猫狗", 1)], ["猫狗"], [1])
    ensures Analyze(["猫狗", "猫", "狗", "狗"], DefaultMinFreq) == Analysis([], [], [])
  {
    var segments := ["猫狗", "猫", "狗", "狗"];
    var e := Entry("猫狗", 1);
    assert Keep("猫狗") by { KeepIff("猫狗"); assert !IsWhitespace("猫狗"[0]); }
    assert segments[1..] == ["猫", "狗", "狗"];
    assert segments[1..][1..] == ["狗", "狗"];
    assert segments[1..][1..][1..] == ["狗"];
    assert FilterTokens(["狗"]) == [];
    assert FilterTokens(["狗", "狗"]) == [];
    assert FilterTokens(["猫", "狗", "狗"]) == [];
    assert FilterTokens(segments) == ["猫狗"];
    assert CountTokens(["猫狗"]) == [e];
    assert Threshold([e], 1) == [e];
    assert Threshold([e], DefaultMinFreq) == [];
    assert SortByCount([e]) == [e];
  }
}
