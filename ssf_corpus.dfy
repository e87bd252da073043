/**
 * backend/app/utils/ssf.py, lines 27-36: the combined text. Every paragraph
 * is followed by one separator character chr(1), and every offset of the
 * combined text, separator included, is owned by the paragraph it follows.
 */
module SsfCorpus {

  /** The separator `chr(1)` appended after every paragraph. */
  const Separator: char := '\U{1}'

  /** Where paragraph i starts in the combined text: the sum of len(p) + 1 over earlier paragraphs. */
  function ParagraphStart(ps: seq<string>, i: nat): nat
    requires i <= |ps|
  {
    if i == 0 then 0 else ParagraphStart(ps, i - 1) + |ps[i - 1]| + 1
  }

  /** combined_text: every paragraph followed by the separator. */
  function Corpus(ps: seq<string>): string
  {
    if ps == [] then [] else Corpus(ps[..|ps| - 1]) + ps[|ps| - 1] + [Separator]
  }

  /** [x] * n */
  function Repeat(x: nat, n: nat): (r: seq<nat>)
    ensures |r| == n && forall k :: 0 <= k < n ==> r[k] == x
  {
    if n == 0 then [] else Repeat(x, n - 1) + [x]
  }

  /** paragraph_indices: the owning paragraph of every offset of the combined text. */
  function Owners(ps: seq<string>): seq<nat>
  {
    if ps == [] then [] else Owners(ps[..|ps| - 1]) + Repeat(|ps| - 1, |ps[|ps| - 1]| + 1)
  }

  lemma {:induction false} ParagraphStartOfPrefix(ps: seq<string>, n: nat, i: nat)
    requires i <= n <= |ps|
    ensures ParagraphStart(ps[..n], i) == ParagraphStart(ps, i)
  {
    if i > 0 {
      ParagraphStartOfPrefix(ps, n, i - 1);
      assert ps[..n][i - 1] == ps[i - 1];
    }
  }

  lemma {:induction false} CorpusLength(ps: seq<string>)
    ensures |Corpus(ps)| == |Owners(ps)| == ParagraphStart(ps, |ps|)
  {
    if ps != [] {
      CorpusLength(ps[..|ps| - 1]);
      ParagraphStartOfPrefix(ps, |ps| - 1, |ps| - 1);
    }
  }

  /**
   * Paragraph k sits at ParagraphStart(ps, k) of the combined text and is
   * followed there by the separator.
   */
  lemma {:induction false} CorpusAt(ps: seq<string>, k: nat, j: nat)
    requires k < |ps| && j <= |ps[k]|
    ensures ParagraphStart(ps, k) + j < |Corpus(ps)|
    ensures Corpus(ps)[ParagraphStart(ps, k) + j] == if j < |ps[k]| then ps[k][j] else Separator
  {
    var n := |ps| - 1;
    var init := ps[..n];
    CorpusLength(ps);
    CorpusLength(init);
    ParagraphStartOfPrefix(ps, n, n);
    assert Corpus(ps) == Corpus(init) + ps[n] + [Separator];
    if k < n {
      CorpusAt(init, k, j);
      ParagraphStartOfPrefix(ps, n, k);
      assert init[k] == ps[k];
    }
  }

  /** An offset of the combined text is owned by the paragraph whose span (separator included) holds it. */
  lemma {:induction false} OwnerAt(ps: seq<string>, o: nat)
    requires o < |Owners(ps)|
    ensures Owners(ps)[o] < |ps|
    ensures ParagraphStart(ps, Owners(ps)[o]) <= o <= ParagraphStart(ps, Owners(ps)[o]) + |ps[Owners(ps)[o]]|
  {
    var n := |ps| - 1;
    var init := ps[..n];
    CorpusLength(init);
    ParagraphStartOfPrefix(ps, n, n);
    var w := Owners(ps);
    assert w == Owners(init) + Repeat(n, |ps[n]| + 1);
    if o < |Owners(init)| {
      OwnerAt(init, o);
      assert w[o] == Owners(init)[o];
      ParagraphStartOfPrefix(ps, n, w[o]);
      assert init[w[o]] == ps[w[o]];
    }
  }

  /**
   * The building loop of lines 31-36: append each paragraph and its
   * separator to combined_text, and one owner entry per appended character.
   */
  method BuildCorpus(ps: seq<string>) returns (combined: string, owners: seq<nat>)
    ensures combined == Corpus(ps)
    ensures owners == Owners(ps)
  {
    combined, owners := "", [];
    for i := 0 to |ps|
      invariant combined == Corpus(ps[..i])
      invariant owners == Owners(ps[..i])
    {
      assert ps[..i + 1][..i] == ps[..i];
      combined := combined + ps[i] + [Separator];
      owners := owners + Repeat(i, |ps[i]| + 1);
    }
    assert ps[..|ps|] == ps;
  }
}
