/**
 * src/checker.py, get_ngrams: the text is split into words at whitespace
 * (str.split with no argument), and every window of n consecutive words,
 * joined with single spaces, is kept with its starting word position when it
 * has at least min_chars characters.
 */
module CheckerNgrams {

  /** The defaults get_ngrams is called with, line 37. */
  const MinChars: int := 5
  const N: nat := 5

  /** The characters str.isspace() accepts. */
  predicate IsSpace(c: char)
  {
    || c == ' ' || c == '\t' || c == '\n' || c == '\r' || c == '\U{0b}' || c == '\U{0c}'
    || '\U{1c}' <= c <= '\U{1f}' || c == '\U{85}' || c == '\U{a0}' || c == '\U{1680}'
    || '\U{2000}' <= c <= '\U{200a}' || c == '\U{2028}' || c == '\U{2029}' || c == '\U{202f}'
    || c == '\U{205f}' || c == '\U{3000}'
  }

  /** The end of the run of non-space characters starting at i. */
  function WordEnd(s: string, i: nat): (k: nat)
    requires i <= |s|
    ensures i <= k <= |s|
    ensures forall j :: i <= j < k ==> !IsSpace(s[j])
    ensures k < |s| ==> IsSpace(s[k])
    decreases |s| - i
  {
    if i == |s| || IsSpace(s[i]) then i else WordEnd(s, i + 1)
  }

  /** str.split(): the maximal runs of non-space characters, in order. */
  function Words(s: string): seq<string>
    decreases |s|
  {
    if s == [] then []
    else if IsSpace(s[0]) then Words(s[1..])
    else
      var k := WordEnd(s, 1);
      [s[..k]] + Words(s[k..])
  }

  predicate IsWord(w: string)
  {
    |w| > 0 && forall j :: 0 <= j < |w| ==> !IsSpace(w[j])
  }

  /** Every word is non-empty and holds no whitespace, and a text without whitespace is one word. */
  lemma {:induction false} WordsAreWords(s: string)
    ensures forall w :: w in Words(s) ==> IsWord(w)
    ensures |s| > 0 && (forall j :: 0 <= j < |s| ==> !IsSpace(s[j])) ==> Words(s) == [s]
  {
    if s != [] {
      if IsSpace(s[0]) {
        WordsAreWords(s[1..]);
      } else {
        var k := WordEnd(s, 1);
        WordsAreWords(s[k..]);
        assert IsWord(s[..k]);
        if forall j :: 0 <= j < |s| ==> !IsSpace(s[j]) {
          assert k == |s|;
          assert s[..k] == s && s[k..] == [];
        }
      }
    }
  }

  /** ' '.join(ws). */
  function Join(ws: seq<string>): string
  {
    if ws == [] then ""
    else if |ws| == 1 then ws[0]
    else Join(ws[..|ws| - 1]) + " " + ws[|ws| - 1]
  }

  /** The window of n words at position i, joined. */
  function Window(words: seq<string>, i: nat, n: nat): string
    requires i + n <= |words|
  {
    Join(words[i..i + n])
  }

  /** len(range(len(words) - n + 1)): the number of windows. */
  function WindowCount(words: seq<string>, n: nat): nat
  {
    if |words| >= n then |words| - n + 1 else 0
  }

  /** The kept windows among the first m positions. */
  function NgramsUpTo(words: seq<string>, minChars: int, n: nat, m: nat): seq<(string, int)>
    requires m <= WindowCount(words, n)
  {
    if m == 0 then []
    else
      var i := m - 1;
      NgramsUpTo(words, minChars, n, i) + if |Window(words, i, n)| >= minChars then [(Window(words, i, n), i)] else []
  }

  /** The result of get_ngrams on a text's words. */
  function NgramsOf(words: seq<string>, minChars: int, n: nat): seq<(string, int)>
  {
    NgramsUpTo(words, minChars, n, WindowCount(words, n))
  }

  /**
   * Lines 37-45: the loop over the window positions.
   */
  method GetNgrams(text: string, minChars: int, n: nat) returns (ngrams: seq<(string, int)>)
    ensures ngrams == NgramsOf(Words(text), minChars, n)
  {
    var words := Words(text);
    ngrams := [];
    var count := if |words| >= n then |words| - n + 1 else 0;
    for i := 0 to count
      invariant ngrams == NgramsUpTo(words, minChars, n, i)
    {
      var ngram := Join(words[i..i + n]);
      if |ngram| >= minChars {
        ngrams := ngrams + [(ngram, i)];
      }
    }
  }

  /**
   * Each kept entry is the joined window at its position, long enough, at a
   * position that has a window; positions strictly increase, so there are
   * at most as many entries as windows; and a position is kept exactly when
   * its window has at least minChars characters.
   */
  lemma {:induction false} NgramsUpToFacts(words: seq<string>, minChars: int, n: nat, m: nat)
    requires m <= WindowCount(words, n)
    ensures var r := NgramsUpTo(words, minChars, n, m);
      && |r| <= m
      && (forall k :: 0 <= k < |r| ==>
            && 0 <= r[k].1 < m
            && r[k].0 == Window(words, r[k].1, n)
            && |r[k].0| >= minChars)
      && (forall k, l :: 0 <= k < l < |r| ==> r[k].1 < r[l].1)
      && (forall i :: 0 <= i < m && |Window(words, i, n)| >= minChars ==>
            exists k :: 0 <= k < |r| && r[k].1 == i)
  {
    if m > 0 {
      NgramsUpToFacts(words, minChars, n, m - 1);
      var prev := NgramsUpTo(words, minChars, n, m - 1);
      var r := NgramsUpTo(words, minChars, n, m);
      assert forall k :: 0 <= k < |prev| ==> r[k] == prev[k];
      forall i | 0 <= i < m && |Window(words, i, n)| >= minChars
        ensures exists k :: 0 <= k < |r| && r[k].1 == i
      {
        if i < m - 1 {
          var k :| 0 <= k < |prev| && prev[k].1 == i;
          assert r[k].1 == i;
        } else {
          assert r[|r| - 1].1 == i;
        }
      }
    }
  }

  /** The kept positions of get_ngrams are exactly the windows with at least minChars characters. */
  lemma NgramsOfKept(words: seq<string>, minChars: int, n: nat, i: int)
    requires 0 <= i && i + n <= |words|
    ensures (exists k :: 0 <= k < |NgramsOf(words, minChars, n)| && NgramsOf(words, minChars, n)[k].1 == i)
            <==> |Window(words, i, n)| >= minChars
  {
    NgramsUpToFacts(words, minChars, n, WindowCount(words, n));
    var r := NgramsOf(words, minChars, n);
    if exists k :: 0 <= k < |r| && r[k].1 == i {
      var k :| 0 <= k < |r| && r[k].1 == i;
      assert r[k].0 == Window(words, i, n);
    }
  }

  /** Fewer words than n give no n-grams. */
  lemma NgramsOfShortText(words: seq<string>, minChars: int, n: nat)
    requires |words| < n
    ensures NgramsOf(words, minChars, n) == []
  {
  }
}
