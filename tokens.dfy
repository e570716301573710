/**
 * The token filter of the word-frequency pipeline: the comprehension that keeps a
 * segmented word only when it is longer than one character and `strip()` leaves
 * something of it.
 */
module Tokens {

  /** `w` is an order-preserving subsequence of `s` (some elements of `s` removed). */
  predicate IsSubsequence<T(==)>(w: seq<T>, s: seq<T>)
    decreases |s|
  {
    if w == [] then true
    else if s == [] then false
    else if w[0] == s[0] then IsSubsequence(w[1..], s[1..])
    else IsSubsequence(w, s[1..])
  }

  /**
   * The characters Python's `str.isspace()` accepts, which is the set `str.strip()`
   * with no argument removes: the C0 separators and controls U+0009..U+000D and
   * U+001C..U+001F, the space, NEL, NBSP, OGHAM SPACE MARK, the spaces
   * U+2000..U+200A, the line and paragraph separators, NNBSP, MMSP and the
   * ideographic space.
   */
  predicate IsWhitespace(c: char) {
    || ('\t' <= c <= '\r')
    || ('\U{1C}' <= c <= '\U{1F}')
    || c == ' '
    || c == '\U{85}'
    || c == '\U{A0}'
    || c == '\U{1680}'
    || ('\U{2000}' <= c <= '\U{200A}')
    || c == '\U{2028}'
    || c == '\U{2029}'
    || c == '\U{202F}'
    || c == '\U{205F}'
    || c == '\U{3000}'
  }

  /** Every character of `s` is whitespace (vacuously true of the empty string). */
  predicate IsBlank(s: string) {
    forall i :: 0 <= i < |s| ==> IsWhitespace(s[i])
  }

  /** `s.lstrip()`: `s` without its leading whitespace. */
  function StripLeft(s: string): string {
    if |s| > 0 && IsWhitespace(s[0]) then StripLeft(s[1..]) else s
  }

  /** `s.rstrip()`: `s` without its trailing whitespace. */
  function StripRight(s: string): string {
    if |s| > 0 && IsWhitespace(s[|s| - 1]) then StripRight(s[..|s| - 1]) else s
  }

  /** `s.strip()`: leading and trailing whitespace removed. */
  function Strip(s: string): string {
    StripRight(StripLeft(s))
  }

  /** `lstrip` removes a blank prefix and stops at the first non-whitespace character. */
  lemma {:induction false} StripLeftSpec(s: string)
    ensures var r := StripLeft(s);
      && |r| <= |s| && r == s[|s| - |r|..]
      && IsBlank(s[..|s| - |r|])
      && (r == [] || !IsWhitespace(r[0]))
  {
    if |s| > 0 && IsWhitespace(s[0]) {
      StripLeftSpec(s[1..]);
      var r := StripLeft(s);
      assert s[..|s| - |r|] == [s[0]] + s[1..][..|s| - 1 - |r|];
    }
  }

  /** `rstrip` removes a blank suffix and stops at the last non-whitespace character. */
  lemma {:induction false} StripRightSpec(s: string)
    ensures var r := StripRight(s);
      && |r| <= |s| && r == s[..|r|]
      && IsBlank(s[|r|..])
      && (r == [] || !IsWhitespace(r[|r| - 1]))
  {
    if |s| > 0 && IsWhitespace(s[|s| - 1]) {
      StripRightSpec(s[..|s| - 1]);
      var r := StripRight(s);
      assert s[|r|..] == s[..|s| - 1][|r|..] + [s[|s| - 1]];
    }
  }

  /** `s.strip()` is empty, i.e. falsy, exactly when `s` is made only of whitespace. */
  lemma StripEmptyIffBlank(s: string)
    ensures Strip(s) == [] <==> IsBlank(s)
  {
    var l := StripLeft(s);
    var k := |s| - |l|;
    StripLeftSpec(s);
    StripRightSpec(l);
    if Strip(s) == [] {
      // `l.rstrip()` is empty, so all of `l` is whitespace, so `l` itself is empty
      assert l[0..] == l;
      assert s[..k] == s;
    }
  }

  /** The test of the comprehension: `len(w) > 1 and w.strip()`. */
  predicate Keep(w: string) {
    |w| > 1 && Strip(w) != []
  }

  /** A word survives exactly when it is longer than one character and not blank. */
  lemma KeepIff(w: string)
    ensures Keep(w) <==> |w| > 1 && !IsBlank(w)
  {
    StripEmptyIffBlank(w);
  }

  /**
   * The length test is applied to the word as segmented, not to its stripped form:
   * `" a"` is two characters long and not blank, so it is kept although it strips
   * to one character.
   */
  lemma KeepMeasuresUnstripped()
    ensures Keep(" a") && |Strip(" a")| == 1
  {
  }

  /** `[w for w in words if len(w) > 1 and w.strip()]` over the segmenter's output. */
  function FilterTokens(words: seq<string>): (r: seq<string>)
    ensures |r| <= |words|
  {
    if words == [] then []
    else if Keep(words[0]) then [words[0]] + FilterTokens(words[1..])
    else FilterTokens(words[1..])
  }

  /** Every survivor passes the test. */
  lemma {:induction false} FilterTokensKeep(words: seq<string>)
    ensures forall i :: 0 <= i < |FilterTokens(words)| ==> Keep(FilterTokens(words)[i])
  {
    if words != [] {
      FilterTokensKeep(words[1..]);
    }
  }

  /** The survivors keep the order they had in the segmenter's output. */
  lemma {:induction false} FilterTokensSubsequence(words: seq<string>)
    ensures IsSubsequence(FilterTokens(words), words)
  {
    if words != [] {
      var rest := FilterTokens(words[1..]);
      FilterTokensSubsequence(words[1..]);
      FilterTokensKeep(words[1..]);
      if Keep(words[0]) {
        assert ([words[0]] + rest)[1..] == rest;
      }
    }
  }

  /**
   * A word is dropped only when it fails the test: every occurrence of a word that
   * passes survives, and no occurrence of one that fails does.
   */
  lemma {:induction false} FilterTokensCounts(words: seq<string>, w: string)
    ensures multiset(FilterTokens(words))[w] == if Keep(w) then multiset(words)[w] else 0
  {
    if words != [] {
      assert words == [words[0]] + words[1..];
      FilterTokensCounts(words[1..], w);
    }
  }

  /** The filter works word by word: it distributes over concatenation. */
  lemma {:induction false} FilterTokensAppend(a: seq<string>, b: seq<string>)
    ensures FilterTokens(a + b) == FilterTokens(a) + FilterTokens(b)
  {
    if a == [] {
      assert a + b == b;
    } else {
      var ab := a + b;
      assert ab[0] == a[0] && ab[1..] == a[1..] + b;
      FilterTokensAppend(a[1..], b);
      if Keep(a[0]) {
        calc {
          FilterTokens(ab);
          [a[0]] + FilterTokens(a[1..] + b);
          [a[0]] + (FilterTokens(a[1..]) + FilterTokens(b));
          ([a[0]] + FilterTokens(a[1..])) + FilterTokens(b);
        }
      }
    }
  }

  /** Filtering an already filtered list changes nothing. */
  lemma {:induction false} FilterTokensIdempotent(words: seq<string>)
    ensures FilterTokens(FilterTokens(words)) == FilterTokens(words)
  {
    if words != [] {
      FilterTokensIdempotent(words[1..]);
    }
  }

  /** A word is kept exactly when it occurs in the input and passes the test. */
  lemma FilterTokensMembers(words: seq<string>, w: string)
    ensures w in FilterTokens(words) <==> w in words && Keep(w)
  {
  }

  /** `words.index(w)`, the first index of `w` in `words`, or `|words|` when it does not occur. */
  function FirstIndex(words: seq<string>, w: string): (k: nat)
    ensures k <= |words|
    ensures k < |words| ==> words[k] == w
    ensures forall i :: 0 <= i < k ==> words[i] != w
  {
    if words == [] then 0
    else if words[0] == w then 0
    else 1 + FirstIndex(words[1..], w)
  }

  /** Appending a word leaves the first index of the words already there unchanged. */
  lemma FirstIndexAppend(words: seq<string>, w: string, v: string)
    requires v in words
    ensures FirstIndex(words + [w], v) == FirstIndex(words, v)
  {
    var k, k' := FirstIndex(words, v), FirstIndex(words + [w], v);
    assert (words + [w])[k] == v;
    assert k' < |words| ==> words[k'] == v;
  }

  /**
   * The filter keeps first-seen order: of two words that pass, the one seen first in
   * the segmenter's output is also seen first in the filtered list.
   */
  lemma {:induction false} FilterTokensFirstIndex(words: seq<string>, u: string, v: string)
    requires Keep(u) && Keep(v)
    ensures FirstIndex(FilterTokens(words), u) < FirstIndex(FilterTokens(words), v)
        <==> FirstIndex(words, u) < FirstIndex(words, v)
  {
    if words != [] {
      FilterTokensFirstIndex(words[1..], u, v);
    }
  }
}
