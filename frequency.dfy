/**
 * The frequency table of the word-frequency pipeline: `Counter(words)` and the
 * threshold filter `Counter({k: v for k, v in counter.items() if v >= min_freq})`.
 *
 * A `Counter` is a dictionary, and a Python dictionary remembers the order in which
 * its keys were first inserted; that order decides the ranking of equal counts, so
 * the table is modelled as a sequence of entries in insertion order.
 */
module Frequency {
  import opened Tokens

  /** One `(word, count)` item of a `Counter`. */
  datatype Entry = Entry(word: string, count: nat)

  /** A `Counter`'s items in insertion order. */
  type Table = seq<Entry>

  /** The keys of a table, in order; for the ranked pairs these are the `labels`. */
  function Keys(t: Table): (r: seq<string>)
    ensures |r| == |t|
    ensures forall i :: 0 <= i < |t| ==> r[i] == t[i].word
  {
    if t == [] then [] else [t[0].word] + Keys(t[1..])
  }

  /** The counts of a table, in order. */
  function Counts(t: Table): (r: seq<nat>)
    ensures |r| == |t|
    ensures forall i :: 0 <= i < |t| ==> r[i] == t[i].count
  {
    if t == [] then [] else [t[0].count] + Counts(t[1..])
  }

  /** A dictionary holds each key once. */
  predicate DistinctWords(t: Table) {
    forall i, j :: 0 <= i < j < |t| ==> t[i].word != t[j].word
  }

  /** The slot holding key `w` in `t`, or `|t|` when `w` is not a key. */
  function IndexOfWord(t: Table, w: string): (k: nat)
    ensures k <= |t|
    ensures k < |t| ==> t[k].word == w
    ensures forall i :: 0 <= i < k ==> t[i].word != w
  {
    if t == [] then 0
    else if t[0].word == w then 0
    else 1 + IndexOfWord(t[1..], w)
  }

  /** `w in counter`. */
  predicate HasKey(t: Table, w: string) {
    IndexOfWord(t, w) < |t|
  }

  /** `counter[w]`: the count stored for `w`, and 0 for a missing key. */
  function Lookup(t: Table, w: string): (r: nat)
    ensures r > 0 ==> HasKey(t, w)
  {
    var k := IndexOfWord(t, w);
    if k < |t| then t[k].count else 0
  }

  /** `sum(counter.values())`. */
  function Total(t: Table): nat {
    if t == [] then 0 else t[0].count + Total(t[1..])
  }

  lemma {:induction false} TotalAppend(t: Table, e: Entry)
    ensures Total(t + [e]) == Total(t) + e.count
  {
    if t != [] {
      assert (t + [e])[1..] == t[1..] + [e];
      TotalAppend(t[1..], e);
    }
  }

  lemma {:induction false} TotalUpdate(t: Table, k: nat, e: Entry)
    requires k < |t|
    ensures Total(t[k := e]) == Total(t) - t[k].count + e.count
  {
    if k > 0 {
      assert t[k := e][1..] == t[1..][k - 1 := e];
      TotalUpdate(t[1..], k - 1, e);
    }
  }

  /**
   * One step of `Counter(words)`: `counter[w] = counter.get(w, 0) + 1`. An existing
   * key keeps its slot; a new key goes at the end with count 1.
   */
  function Bump(t: Table, w: string): (r: Table)
    ensures |r| == if IndexOfWord(t, w) < |t| then |t| else |t| + 1
    ensures forall i :: 0 <= i < |t| ==> r[i].word == t[i].word
    ensures IndexOfWord(t, w) == |t| ==> r[|t|] == Entry(w, 1)
    ensures Total(r) == Total(t) + 1
  {
    var k := IndexOfWord(t, w);
    if k < |t| then
      TotalUpdate(t, k, Entry(w, t[k].count + 1));
      t[k := Entry(w, t[k].count + 1)]
    else
      TotalAppend(t, Entry(w, 1));
      t + [Entry(w, 1)]
  }

  /** A bump adds one to the count of `w` and leaves every other count alone. */
  lemma BumpLookup(t: Table, w: string, v: string)
    ensures Lookup(Bump(t, w), v) == Lookup(t, v) + (if v == w then 1 else 0)
  {
  }

  /** `Counter(words)`: the words counted from left to right. */
  function CountTokens(words: seq<string>): (r: Table)
    ensures |r| <= |words|
  {
    if words == [] then []
    else Bump(CountTokens(words[..|words| - 1]), words[|words| - 1])
  }

  /** A bump adds `w` to the keys, keeps them distinct and adds no other key. */
  lemma BumpKeys(t: Table, w: string)
    requires DistinctWords(t)
    ensures DistinctWords(Bump(t, w))
    ensures forall v :: HasKey(Bump(t, w), v) <==> HasKey(t, v) || v == w
  {
  }

  /** The keys of `Counter(words)` are exactly the distinct words, each held once. */
  lemma {:induction false} CountTokensKeys(words: seq<string>)
    ensures DistinctWords(CountTokens(words))
    ensures forall w :: HasKey(CountTokens(words), w) <==> w in words
  {
    if words != [] {
      var p, w := words[..|words| - 1], words[|words| - 1];
      assert words == p + [w];
      CountTokensKeys(p);
      BumpKeys(CountTokens(p), w);
    }
  }

  /** `counter[w]` is the number of occurrences of `w` in `words`. */
  lemma {:induction false} CountTokensLookup(words: seq<string>, v: string)
    ensures Lookup(CountTokens(words), v) == multiset(words)[v]
  {
    if words != [] {
      var p, w := words[..|words| - 1], words[|words| - 1];
      assert words == p + [w];
      CountTokensLookup(p, v);
      BumpLookup(CountTokens(p), w, v);
    }
  }

  /** The counts add up to the number of words counted. */
  lemma {:induction false} CountTokensTotal(words: seq<string>)
    ensures Total(CountTokens(words)) == |words|
  {
    if words != [] {
      CountTokensTotal(words[..|words| - 1]);
    }
  }

  /** Each entry holds the number of occurrences of its word, which is at least 1. */
  lemma CountTokensEntries(words: seq<string>)
    ensures forall i :: 0 <= i < |CountTokens(words)| ==>
      CountTokens(words)[i].count == multiset(words)[CountTokens(words)[i].word] >= 1
  {
    var t := CountTokens(words);
    CountTokensKeys(words);
    forall i | 0 <= i < |t| ensures t[i].count == multiset(words)[t[i].word] >= 1 {
      CountTokensLookup(words, t[i].word);
      assert IndexOfWord(t, t[i].word) == i;
    }
  }

  /** Every key of `t` occurs in `words`, and the keys appear in order of first occurrence. */
  predicate FirstSeenOrdered(t: Table, words: seq<string>) {
    && (forall i :: 0 <= i < |t| ==> t[i].word in words)
    && (forall i, j :: 0 <= i < j < |t| ==>
          FirstIndex(words, t[i].word) < FirstIndex(words, t[j].word))
  }

  /** A bump keeps the keys in first-seen order when the bumped word is appended to the words. */
  lemma BumpFirstSeen(t: Table, p: seq<string>, w: string)
    requires FirstSeenOrdered(t, p)
    requires forall v :: HasKey(t, v) <==> v in p
    ensures FirstSeenOrdered(Bump(t, w), p + [w])
  {
    var r := Bump(t, w);
    forall i | 0 <= i < |t| ensures FirstIndex(p + [w], r[i].word) == FirstIndex(p, t[i].word) {
      FirstIndexAppend(p, w, t[i].word);
    }
    if IndexOfWord(t, w) == |t| {
      assert w !in p;
      assert (p + [w])[|p|] == w;
      assert FirstIndex(p + [w], w) == |p|;
    }
  }

  /** `Counter(words)` holds its keys in the order the words were first seen. */
  lemma {:induction false} CountTokensFirstSeen(words: seq<string>)
    ensures FirstSeenOrdered(CountTokens(words), words)
  {
    if words != [] {
      var p, w := words[..|words| - 1], words[|words| - 1];
      assert words == p + [w];
      CountTokensFirstSeen(p);
      CountTokensKeys(p);
      BumpFirstSeen(CountTokens(p), p, w);
    }
  }

  /** Keys in first-seen order are distinct keys. */
  lemma FirstSeenDistinct(t: Table, words: seq<string>)
    requires FirstSeenOrdered(t, words)
    ensures DistinctWords(t)
  {
  }

  /**
   * `{k: v for k, v in counter.items() if v >= min_freq}`, fed back to `Counter`:
   * the items whose count reaches the threshold, in their original order.
   */
  function Threshold(t: Table, minFreq: int): (r: Table)
    ensures |r| <= |t|
    ensures forall e :: e in r <==> e in t && e.count >= minFreq
  {
    if t == [] then []
    else if t[0].count >= minFreq then [t[0]] + Threshold(t[1..], minFreq)
    else Threshold(t[1..], minFreq)
  }

  /** The kept items are a sub-table of the original: same entries, same order. */
  lemma {:induction false} ThresholdSubsequence(t: Table, minFreq: int)
    ensures IsSubsequence(Threshold(t, minFreq), t)
  {
    if t != [] {
      ThresholdSubsequence(t[1..], minFreq);
      var rest := Threshold(t[1..], minFreq);
      if t[0].count >= minFreq {
        assert ([t[0]] + rest)[1..] == rest;
      }
    }
  }

  /** An entry seen before all of a table in first-seen order can go in front of it. */
  lemma ConsFirstSeen(x: Entry, rest: Table, words: seq<string>)
    requires FirstSeenOrdered(rest, words) && x.word in words
    requires forall e :: e in rest ==> FirstIndex(words, x.word) < FirstIndex(words, e.word)
    ensures FirstSeenOrdered([x] + rest, words)
  {
  }

  /** The threshold keeps the first-seen order of the keys. */
  lemma {:induction false} ThresholdFirstSeen(t: Table, minFreq: int, words: seq<string>)
    requires FirstSeenOrdered(t, words)
    ensures FirstSeenOrdered(Threshold(t, minFreq), words)
  {
    if t != [] {
      var rest := Threshold(t[1..], minFreq);
      assert FirstSeenOrdered(t[1..], words);
      ThresholdFirstSeen(t[1..], minFreq, words);
      if t[0].count >= minFreq {
        forall e | e in rest ensures FirstIndex(words, t[0].word) < FirstIndex(words, e.word) {
          var m :| 0 <= m < |t[1..]| && t[1..][m] == e;
          assert t[m + 1] == e;
        }
        ConsFirstSeen(t[0], rest, words);
      }
    }
  }

  /** Read through `counter[w]`, the threshold zeroes exactly the counts below it. */
  lemma ThresholdLookup(t: Table, minFreq: int, w: string)
    requires DistinctWords(t)
    requires minFreq >= 1
    ensures Lookup(Threshold(t, minFreq), w) == if Lookup(t, w) >= minFreq then Lookup(t, w) else 0
  {
  }

  /** A threshold no count falls below keeps the whole table. */
  lemma {:induction false} ThresholdKeepsAll(t: Table, minFreq: int)
    requires forall i :: 0 <= i < |t| ==> t[i].count >= minFreq
    ensures Threshold(t, minFreq) == t
  {
    if t != [] {
      ThresholdKeepsAll(t[1..], minFreq);
      assert t == [t[0]] + t[1..];
    }
  }

  /** With `min_freq = 1` the threshold filter is the identity on `Counter(words)`. */
  lemma ThresholdOneIsIdentity(words: seq<string>)
    ensures Threshold(CountTokens(words), 1) == CountTokens(words)
  {
    CountTokensEntries(words);
    ThresholdKeepsAll(CountTokens(words), 1);
  }
}
