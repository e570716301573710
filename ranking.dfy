/**
 * The ranking step of the word-frequency pipeline: `counter.most_common(20)`.
 *
 * `Counter.most_common(n)` is `heapq.nlargest(n, items, key=count)`, which is
 * documented to equal `sorted(items, key=count, reverse=True)[:n]`: a stable sort
 * by descending count, so items of equal count keep their table order, cut to the
 * first `n`. The sort is modelled as a stable insertion sort.
 */
module Ranking {
  import opened Tokens
  import opened Frequency

  /** Every count in `s` is at least the count after it. */
  predicate NonIncreasing(s: Table) {
    forall i, j :: 0 <= i < j < |s| ==> s[i].count >= s[j].count
  }

  /** The slot where `x` goes in front of a sorted `s`: after every entry with a larger count. */
  function InsertPos(x: Entry, s: Table): (k: nat)
    ensures k <= |s|
    ensures forall i :: 0 <= i < k ==> s[i].count > x.count
    ensures k < |s| ==> s[k].count <= x.count
  {
    if s == [] || s[0].count <= x.count then 0 else 1 + InsertPos(x, s[1..])
  }

  /** `x` placed at its slot; it goes before the entries of equal count, which came after it. */
  function Insert(x: Entry, s: Table): (r: Table)
    requires NonIncreasing(s)
    ensures NonIncreasing(r)
    ensures multiset(r) == multiset(s) + multiset{x}
  {
    var k := InsertPos(x, s);
    assert s == s[..k] + s[k..];
    s[..k] + [x] + s[k..]
  }

  /** `sorted(t, key=count, reverse=True)`, as a stable insertion sort. */
  function SortByCount(t: Table): (r: Table)
    ensures NonIncreasing(r)
    ensures multiset(r) == multiset(t)
  {
    if t == [] then []
    else
      assert t == [t[0]] + t[1..];
      Insert(t[0], SortByCount(t[1..]))
  }

  /** `counter.most_common(n)`. */
  function MostCommon(t: Table, n: nat): (r: Table)
    ensures |r| <= n && |r| <= |t|
  {
    var sorted := SortByCount(t);
    assert |sorted| == |multiset(sorted)| == |multiset(t)| == |t|;
    sorted[..if n < |sorted| then n else |sorted|]
  }

  /**
   * The ranking order: a larger count first, and of two equal counts the word seen
   * first in `words` first.
   */
  predicate Precedes(a: Entry, b: Entry, words: seq<string>) {
    || a.count > b.count
    || (a.count == b.count && FirstIndex(words, a.word) < FirstIndex(words, b.word))
  }

  /** `s` is in strict ranking order. */
  predicate Ranked(s: Table, words: seq<string>) {
    && (forall i :: 0 <= i < |s| ==> s[i].word in words)
    && (forall i, j :: 0 <= i < j < |s| ==> Precedes(s[i], s[j], words))
  }

  /** Where the entries of `Insert(x, s)` come from. */
  lemma InsertAt(x: Entry, s: Table, i: nat)
    requires NonIncreasing(s)
    requires i <= |s|
    ensures var k := InsertPos(x, s);
      Insert(x, s)[i] == if i < k then s[i] else if i == k then x else s[i - 1]
  {
  }

  /** Inserting an entry seen before all of a ranked `s` keeps it ranked. */
  lemma InsertRanked(x: Entry, s: Table, words: seq<string>)
    requires Ranked(s, words) && NonIncreasing(s)
    requires x.word in words
    requires forall e :: e in s ==> FirstIndex(words, x.word) < FirstIndex(words, e.word)
    ensures Ranked(Insert(x, s), words)
  {
    var k := InsertPos(x, s);
    var r := Insert(x, s);
    forall i | 0 <= i < |r| ensures r[i].word in words {
      InsertAt(x, s, i);
    }
    forall i, j | 0 <= i < j < |r| ensures Precedes(r[i], r[j], words) {
      InsertAt(x, s, i);
      InsertAt(x, s, j);
      if i == k {
        assert s[j - 1] in s;
        assert s[k].count <= x.count;
      }
    }
  }

  /**
   * The sort is stable: a table in first-seen order comes out ranked, so equal counts
   * stay in first-seen order.
   */
  lemma {:induction false} SortByCountRanked(t: Table, words: seq<string>)
    requires FirstSeenOrdered(t, words)
    ensures Ranked(SortByCount(t), words)
  {
    if t != [] {
      var rest := t[1..];
      assert FirstSeenOrdered(rest, words);
      SortByCountRanked(rest, words);
      var s := SortByCount(rest);
      forall e | e in s ensures FirstIndex(words, t[0].word) < FirstIndex(words, e.word) {
        assert e in multiset(rest);
        var m :| 0 <= m < |rest| && rest[m] == e;
        assert t[m + 1] == e;
      }
      InsertRanked(t[0], s, words);
    }
  }

  /** Inserting an entry whose word is new keeps the words distinct. */
  lemma InsertDistinct(x: Entry, s: Table)
    requires NonIncreasing(s) && DistinctWords(s)
    requires forall e :: e in s ==> e.word != x.word
    ensures DistinctWords(Insert(x, s))
  {
  }

  /** Sorting a table with distinct keys leaves the keys distinct. */
  lemma {:induction false} SortByCountDistinct(t: Table)
    requires DistinctWords(t)
    ensures DistinctWords(SortByCount(t))
  {
    if t != [] {
      var rest := t[1..];
      SortByCountDistinct(rest);
      var s := SortByCount(rest);
      forall e | e in s ensures e.word != t[0].word {
        assert e in multiset(rest);
        var m :| 0 <= m < |rest| && rest[m] == e;
        assert t[m + 1] == e;
      }
      InsertDistinct(t[0], s);
    }
  }

  /** `most_common(n)` is the first `min(n, |t|)` entries of the sorted table. */
  lemma MostCommonPrefix(t: Table, n: nat)
    ensures |MostCommon(t, n)| == if n < |t| then n else |t|
    ensures forall e :: e in MostCommon(t, n) ==> e in t
  {
    var sorted := SortByCount(t);
    assert |sorted| == |multiset(sorted)| == |t|;
    forall e | e in MostCommon(t, n) ensures e in t {
      assert e in sorted;
      assert e in multiset(t);
    }
  }

  /**
   * `most_common(n)` of a table in first-seen order has distinct words and is in
   * ranking order, so counts never increase and equal counts keep first-seen order.
   */
  lemma MostCommonRanked(t: Table, n: nat, words: seq<string>)
    requires FirstSeenOrdered(t, words)
    ensures DistinctWords(MostCommon(t, n))
    ensures NonIncreasing(MostCommon(t, n))
    ensures Ranked(MostCommon(t, n), words)
  {
    var sorted := SortByCount(t);
    SortByCountRanked(t, words);
    FirstSeenDistinct(t, words);
    SortByCountDistinct(t);
    PrefixRanked(sorted, if n < |sorted| then n else |sorted|, words);
  }

  /** A prefix of a sorted, ranked table with distinct words is all three. */
  lemma PrefixRanked(s: Table, k: nat, words: seq<string>)
    requires k <= |s|
    requires DistinctWords(s) && NonIncreasing(s) && Ranked(s, words)
    ensures DistinctWords(s[..k]) && NonIncreasing(s[..k]) && Ranked(s[..k], words)
  {
  }

  /**
   * An entry `most_common(n)` leaves out ranks after everything it returns, which
   * means `n` entries were returned and its count is at most the last of them.
   */
  lemma MostCommonLeftOut(t: Table, n: nat, words: seq<string>, e: Entry)
    requires FirstSeenOrdered(t, words)
    requires e in t && e !in MostCommon(t, n)
    ensures |MostCommon(t, n)| == n
    ensures forall i :: 0 <= i < n ==> Precedes(MostCommon(t, n)[i], e, words)
    ensures n > 0 ==> e.count <= MostCommon(t, n)[n - 1].count
  {
    var sorted := SortByCount(t);
    var r := MostCommon(t, n);
    SortByCountRanked(t, words);
    assert e in multiset(sorted);
    var k :| 0 <= k < |sorted| && sorted[k] == e;
    assert k >= |r|;
    assert |r| == n;
    forall i | 0 <= i < n ensures Precedes(r[i], e, words) {
      assert r[i] == sorted[i];
    }
  }
}
