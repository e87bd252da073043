/**
 * backend/app/utils/ssf.py, find_exact_same_segments and
 * longest_common_prefix_length: the exact-match engine, modelled as the code
 * runs it. The "suffix array" is the offsets sorted stably by the single
 * character at each offset (so by character, then offset), LCP values do not
 * stop at the separator, adjacent cross-paragraph pairs with a long enough
 * common prefix become candidates, and candidates are accepted longest first
 * unless the same string, or a string containing it, was accepted before.
 */
module SsfEngine {
  import opened Wrappers
  import Sorting
  import opened SsfCorpus

  /** (paragraph_index, start_index, ratio) */
  datatype Occurrence = Occurrence(paragraph: nat, start: int, ratio: real)

  /** One entry of potential_segments: the segment and its two occurrences. */
  datatype Candidate = Candidate(segment: string, first: Occurrence, second: Occurrence)

  /** The ZeroDivisionError of lines 54 and 58, raised for an empty paragraph. */
  datatype EngineError = EmptyParagraph(paragraph: nat)

  /** The result dictionary: its keys in insertion order, and the occurrence lists. */
  datatype SegmentTable = SegmentTable(order: seq<string>, occurrences: map<string, seq<Occurrence>>)

  ghost predicate Distinct<T>(s: seq<T>)
  {
    forall i, j :: 0 <= i < j < |s| ==> s[i] != s[j]
  }

  ghost predicate WellFormed(t: SegmentTable)
  {
    Distinct(t.order) && forall k :: k in t.order <==> k in t.occurrences
  }

  /** s[j:j + m] */
  function Slice(s: string, j: int, m: int): string
    requires 0 <= j && 0 <= m && j + m <= |s|
  {
    s[j..j + m]
  }

  ghost predicate IsSubstring(a: string, s: string)
  {
    exists j :: 0 <= j <= |s| - |a| && Slice(s, j, |a|) == a
  }

  ghost predicate ProperSubstring(a: string, s: string)
  {
    |a| < |s| && IsSubstring(a, s)
  }

  // ---------------------------------------------------------------------
  // longest_common_prefix_length

  /** The length of the longest common prefix of text[i..] and text[j..]. */
  function Lcp(text: string, i: nat, j: nat): (k: nat)
    ensures k > 0 ==> i + k <= |text| && j + k <= |text|
    decreases |text| - i
  {
    if i < |text| && j < |text| && text[i] == text[j] then 1 + Lcp(text, i + 1, j + 1) else 0
  }

  /** The Lcp characters agree, and the next pair of characters, when both exist, differs. */
  lemma {:induction false} LcpFacts(text: string, i: nat, j: nat)
    ensures var k := Lcp(text, i, j);
      && (k > 0 ==> text[i..i + k] == text[j..j + k])
      && (i + k >= |text| || j + k >= |text| || text[i + k] != text[j + k])
    decreases |text| - i
  {
    if i < |text| && j < |text| && text[i] == text[j] {
      LcpFacts(text, i + 1, j + 1);
      ConsSlices(text, i, j, Lcp(text, i + 1, j + 1));
    }
  }

  /** Equal slices stay equal when both are extended by the same character in front. */
  lemma ConsSlices(text: string, i: nat, j: nat, r: nat)
    requires i + 1 + r <= |text| && j + 1 + r <= |text| && text[i] == text[j]
    requires r > 0 ==> text[i + 1..i + 1 + r] == text[j + 1..j + 1 + r]
    ensures text[i..i + 1 + r] == text[j..j + 1 + r]
  {
    assert text[i..i + 1 + r] == [text[i]] + text[i + 1..i + 1 + r];
    assert text[j..j + 1 + r] == [text[j]] + text[j + 1..j + 1 + r];
  }

  /** The counter loop of lines 100-107. */
  method LongestCommonPrefixLength(text: string, i: nat, j: nat) returns (length: nat)
    ensures length == Lcp(text, i, j)
  {
    length := 0;
    var a, b := i, j;
    while a < |text| && b < |text| && text[a] == text[b]
      invariant a == i + length && b == j + length
      invariant Lcp(text, i, j) == length + Lcp(text, a, b)
      decreases |text| - a
    {
      length, a, b := length + 1, a + 1, b + 1;
    }
  }

  // ---------------------------------------------------------------------
  // the "suffix array" of line 38

  function CharKey(text: string): int -> int
  {
    o => if 0 <= o < |text| then text[o] as int else -1
  }

  /** sorted(range(len(text)), key=text.__getitem__) */
  function SuffixOrder(text: string): (sa: seq<int>)
    ensures |sa| == |text|
  {
    OffsetsSorted(text, |text|)
  }

  /** The stable sort of range(n) by character, unrolled: offset n-1 is inserted into the sorted 0 .. n-2. */
  function OffsetsSorted(text: string, n: nat): (sa: seq<int>)
    ensures |sa| == n
  {
    if n == 0 then [] else Sorting.InsertBy(n - 1, OffsetsSorted(text, n - 1), CharKey(text))
  }

  /** The unrolled sort is Python's stable sort of range(n) by the key. */
  lemma {:induction false} OffsetsSortedIsSortBy(text: string, n: nat)
    ensures OffsetsSorted(text, n) == Sorting.SortBy(Sorting.Range(n), CharKey(text))
  {
    if n > 0 {
      OffsetsSortedIsSortBy(text, n - 1);
      assert Sorting.Range(n)[..n - 1] == Sorting.Range(n - 1);
    }
  }

  /** Offsets ordered by the character there, then by the offset: not by suffix. */
  ghost predicate IsSuffixOrder(text: string, sa: seq<int>)
  {
    && |sa| == |text|
    && (forall i :: 0 <= i < |sa| ==> 0 <= sa[i] < |text|)
    && forall i, j :: 0 <= i < j < |sa| ==>
         text[sa[i]] < text[sa[j]] || (text[sa[i]] == text[sa[j]] && sa[i] < sa[j])
  }

  lemma SuffixOrderIsCharThenOffset(text: string)
    ensures IsSuffixOrder(text, SuffixOrder(text))
  {
    var sa := SuffixOrder(text);
    SuffixOrderInRange(text);
    OffsetsSortedIsSortBy(text, |text|);
    Sorting.SortByKeepsTies(Sorting.Range(|text|), CharKey(text));
    forall i, j | 0 <= i < j < |sa|
      ensures text[sa[i]] < text[sa[j]] || (text[sa[i]] == text[sa[j]] && sa[i] < sa[j])
    {
      assert Sorting.Before(sa[i], sa[j], CharKey(text));
    }
  }

  /** The order holds every offset of the text. */
  lemma SuffixOrderInRange(text: string)
    ensures forall i :: 0 <= i < |SuffixOrder(text)| ==> 0 <= SuffixOrder(text)[i] < |text|
  {
    var r, sa := Sorting.Range(|text|), SuffixOrder(text);
    OffsetsSortedIsSortBy(text, |text|);
    forall i | 0 <= i < |sa| ensures 0 <= sa[i] < |text| {
      assert sa[i] in multiset(sa);
      assert sa[i] in multiset(r);
      var k :| 0 <= k < |r| && r[k] == sa[i];
    }
  }

  // ---------------------------------------------------------------------
  // the LCP array of lines 40-44

  method BuildLcpArray(text: string, sa: seq<int>) returns (lcp: array<nat>)
    requires IsSuffixOrder(text, sa)
    ensures lcp.Length == |text|
    ensures |text| > 0 ==> lcp[0] == 0
    ensures forall i :: 1 <= i < |text| ==> lcp[i] == Lcp(text, sa[i - 1], sa[i])
  {
    lcp := new nat[|text|](_ => 0);
    var i := 1;
    while i < |text|
      invariant 1 <= i <= |text| || |text| == 0
      invariant |text| > 0 ==> lcp[0] == 0
      invariant forall m :: 1 <= m < i && m < |text| ==> lcp[m] == Lcp(text, sa[m - 1], sa[m])
    {
      lcp[i] := LongestCommonPrefixLength(text, sa[i - 1], sa[i]);
      i := i + 1;
    }
  }

  // ---------------------------------------------------------------------
  // candidates, lines 46-63

  /** An occurrence of segment: in range, at the right place of the combined text, with its ratio. */
  ghost predicate OccursAt(ps: seq<string>, segment: string, o: Occurrence)
  {
    && o.paragraph < |ps|
    && 0 <= o.start <= |ps[o.paragraph]|
    && |ps[o.paragraph]| > 0
    && o.ratio == |segment| as real / |ps[o.paragraph]| as real
    && var g := ParagraphStart(ps, o.paragraph) + o.start;
       g + |segment| <= |Corpus(ps)| && Corpus(ps)[g..g + |segment|] == segment
  }

  ghost predicate ValidCandidate(ps: seq<string>, minLen: nat, c: Candidate)
  {
    && |c.segment| >= minLen
    && OccursAt(ps, c.segment, c.first)
    && OccursAt(ps, c.segment, c.second)
    && c.first.paragraph != c.second.paragraph
  }

  /** The occurrence recorded for global offset g: its owner, its local start, its ratio. */
  function OccurrenceAt(ps: seq<string>, owners: seq<nat>, g: int, length: nat): Occurrence
    requires 0 <= g < |owners| && owners[g] < |ps| && |ps[owners[g]]| > 0
  {
    var p := owners[g];
    Occurrence(p, g - ParagraphStart(ps, p), length as real / |ps[p]| as real)
  }

  /** Adjacent pair i of the suffix order exists, and both its offsets have an owner. */
  ghost predicate PairInRange(ps: seq<string>, i: int)
  {
    var c, sa, w := Corpus(ps), SuffixOrder(Corpus(ps)), Owners(ps);
    && 1 <= i < |c| && |w| == |c|
    && 0 <= sa[i - 1] < |c| && 0 <= sa[i] < |c|
    && w[sa[i - 1]] < |ps| && w[sa[i]] < |ps|
  }

  /** Adjacent pair i has a common prefix of at least minLen characters. */
  ghost predicate LongPair(ps: seq<string>, minLen: nat, i: int)
  {
    var c, sa := Corpus(ps), SuffixOrder(Corpus(ps));
    PairInRange(ps, i) && Lcp(c, sa[i - 1], sa[i]) >= minLen
  }

  /** The two offsets of adjacent pair i belong to different paragraphs. */
  ghost predicate CrossPair(ps: seq<string>, i: int)
  {
    var sa, w := SuffixOrder(Corpus(ps)), Owners(ps);
    PairInRange(ps, i) && w[sa[i - 1]] != w[sa[i]]
  }

  /** One offset of adjacent pair i is owned by an empty paragraph. */
  ghost predicate TouchesEmpty(ps: seq<string>, i: int)
  {
    var sa, w := SuffixOrder(Corpus(ps)), Owners(ps);
    PairInRange(ps, i) && (|ps[w[sa[i - 1]]]| == 0 || |ps[w[sa[i]]]| == 0)
  }

  lemma OwnersFacts(ps: seq<string>)
    ensures |Owners(ps)| == |Corpus(ps)|
    ensures forall o :: 0 <= o < |Owners(ps)| ==> Owners(ps)[o] < |ps|
  {
    CorpusLength(ps);
    forall o | 0 <= o < |Owners(ps)| ensures Owners(ps)[o] < |ps| {
      OwnerAt(ps, o);
    }
  }

  /** Offsets g1 and g2 of the combined text are owned by non-empty paragraphs. */
  ghost predicate OwnedPair(ps: seq<string>, g1: int, g2: int)
  {
    var c, w := Corpus(ps), Owners(ps);
    && |w| == |c| && 0 <= g1 < |c| && 0 <= g2 < |c|
    && w[g1] < |ps| && w[g2] < |ps| && |ps[w[g1]]| > 0 && |ps[w[g2]]| > 0
  }

  /** Lines 49-63 for offsets g1 and g2: the common prefix read at g2, and an occurrence at each offset. */
  ghost function CandidateAt(ps: seq<string>, g1: int, g2: int): Candidate
    requires OwnedPair(ps, g1, g2)
  {
    var c, w := Corpus(ps), Owners(ps);
    var length := Lcp(c, g1, g2);
    Candidate(c[g2..g2 + length], OccurrenceAt(ps, w, g1, length), OccurrenceAt(ps, w, g2, length))
  }

  /** The candidate that lines 49-63 build for adjacent pair i. */
  ghost function PairCandidate(ps: seq<string>, i: int): Candidate
    requires CrossPair(ps, i) && !TouchesEmpty(ps, i)
  {
    var sa := SuffixOrder(Corpus(ps));
    CandidateAt(ps, sa[i - 1], sa[i])
  }

  /** The occurrence recorded for offset g satisfies OccursAt when the segment is read there. */
  lemma OccurrenceAtIsValid(ps: seq<string>, g: int, segment: string)
    requires 0 <= g < |Owners(ps)| && Owners(ps)[g] < |ps| && |ps[Owners(ps)[g]]| > 0
    requires g + |segment| <= |Corpus(ps)| && Corpus(ps)[g..g + |segment|] == segment
    ensures OccursAt(ps, segment, OccurrenceAt(ps, Owners(ps), g, |segment|))
  {
    OwnerAt(ps, g);
  }

  /** The predicates on adjacent pairs, read off the arrays the method holds. */
  lemma PairFacts(ps: seq<string>, text: string, owners: seq<nat>, sa: seq<int>, lcp: seq<nat>, minLen: nat, i: int)
    requires text == Corpus(ps) && owners == Owners(ps) && sa == SuffixOrder(text)
    requires IsSuffixOrder(text, sa)
    requires |lcp| == |text| && forall m :: 1 <= m < |text| ==> lcp[m] == Lcp(text, sa[m - 1], sa[m])
    requires 1 <= i < |text|
    ensures |owners| == |text| && owners[sa[i - 1]] < |ps| && owners[sa[i]] < |ps|
    ensures LongPair(ps, minLen, i) <==> lcp[i] >= minLen
    ensures CrossPair(ps, i) <==> owners[sa[i - 1]] != owners[sa[i]]
    ensures TouchesEmpty(ps, i) <==> |ps[owners[sa[i - 1]]]| == 0 || |ps[owners[sa[i]]]| == 0
  {
    OwnersFacts(ps);
  }

  /** The candidate recorded for a long cross-paragraph pair is valid. */
  lemma PairCandidateValid(ps: seq<string>, minLen: nat, i: int)
    requires LongPair(ps, minLen, i) && CrossPair(ps, i) && !TouchesEmpty(ps, i)
    ensures ValidCandidate(ps, minLen, PairCandidate(ps, i))
  {
    var sa := SuffixOrder(Corpus(ps));
    PairOccurrencesValid(ps, minLen, sa[i - 1], sa[i]);
  }

  /** Two offsets in different, non-empty paragraphs whose common prefix is long enough give a valid candidate. */
  lemma PairOccurrencesValid(ps: seq<string>, minLen: nat, g1: int, g2: int)
    requires OwnedPair(ps, g1, g2) && Owners(ps)[g1] != Owners(ps)[g2]
    requires Lcp(Corpus(ps), g1, g2) >= minLen
    ensures ValidCandidate(ps, minLen, CandidateAt(ps, g1, g2))
  {
    var c := Corpus(ps);
    var length := Lcp(c, g1, g2);
    LcpSlices(c, g1, g2);
    var segment := c[g2..g2 + length];
    OccurrenceAtIsValid(ps, g1, segment);
    OccurrenceAtIsValid(ps, g2, segment);
  }

  /** Both offsets of a pair are followed by the same Lcp characters. */
  lemma LcpSlices(text: string, i: nat, j: nat)
    requires i < |text| && j < |text|
    ensures var k := Lcp(text, i, j);
      i + k <= |text| && j + k <= |text| && text[i..i + k] == text[j..j + k]
  {
    LcpFacts(text, i, j);
  }

  /** The candidate of a long cross-paragraph pair, as the method builds it. */
  lemma PairCandidateFacts(ps: seq<string>, text: string, owners: seq<nat>, sa: seq<int>, lcp: seq<nat>, minLen: nat, i: int)
    requires text == Corpus(ps) && owners == Owners(ps) && sa == SuffixOrder(text)
    requires IsSuffixOrder(text, sa)
    requires |lcp| == |text| && forall m :: 1 <= m < |text| ==> lcp[m] == Lcp(text, sa[m - 1], sa[m])
    requires 1 <= i < |text| && lcp[i] >= minLen
    requires |owners| == |text| && owners[sa[i - 1]] < |ps| && owners[sa[i]] < |ps|
    requires owners[sa[i - 1]] != owners[sa[i]] && |ps[owners[sa[i - 1]]]| > 0 && |ps[owners[sa[i]]]| > 0
    ensures sa[i] + lcp[i] <= |text|
    ensures CrossPair(ps, i) && !TouchesEmpty(ps, i)
    ensures PairCandidate(ps, i) == Candidate(text[sa[i]..sa[i] + lcp[i]],
      OccurrenceAt(ps, owners, sa[i - 1], lcp[i]), OccurrenceAt(ps, owners, sa[i], lcp[i]))
  {
    OwnersFacts(ps);
  }

  /** The paragraph whose ratio raises first: the one owning the earlier offset if it is empty. */
  ghost function EmptyOwner(ps: seq<string>, i: int): nat
    requires TouchesEmpty(ps, i)
  {
    var sa, w := SuffixOrder(Corpus(ps)), Owners(ps);
    if |ps[w[sa[i - 1]]]| == 0 then w[sa[i - 1]] else w[sa[i]]
  }

  /** What one iteration of lines 46-63 does to the candidates gathered so far. */
  ghost function PairOutcome(ps: seq<string>, minLen: nat, i: int, cands: seq<Candidate>): Result<seq<Candidate>, EngineError>
  {
    if !LongPair(ps, minLen, i) then Ok(cands)
    else if TouchesEmpty(ps, i) then Err(EmptyParagraph(EmptyOwner(ps, i)))
    else if CrossPair(ps, i) then Ok(cands + [PairCandidate(ps, i)])
    else Ok(cands)
  }

  /** The candidates after the iterations for pairs 1 .. n-1, or the error that stopped them. */
  ghost function CandidatesUpTo(ps: seq<string>, minLen: nat, n: nat): Result<seq<Candidate>, EngineError>
  {
    if n <= 1 then Ok([])
    else match CandidatesUpTo(ps, minLen, n - 1)
      case Err(e) => Err(e)
      case Ok(cands) => PairOutcome(ps, minLen, n - 1, cands)
  }

  lemma {:induction false} CandidatesErrStays(ps: seq<string>, minLen: nat, n: nat, m: nat)
    requires n <= m && CandidatesUpTo(ps, minLen, n).Err?
    ensures CandidatesUpTo(ps, minLen, m) == CandidatesUpTo(ps, minLen, n)
    decreases m
  {
    if n < m {
      CandidatesErrStays(ps, minLen, n, m - 1);
    }
  }

  /** One more iteration fails exactly when the earlier ones did or its own pair touches an empty paragraph. */
  lemma CandidatesStep(ps: seq<string>, minLen: nat, n: nat)
    requires n > 1
    ensures CandidatesUpTo(ps, minLen, n).Err? <==>
      CandidatesUpTo(ps, minLen, n - 1).Err? || (LongPair(ps, minLen, n - 1) && TouchesEmpty(ps, n - 1))
  {
  }

  /** The collection fails exactly when some long pair touches an empty paragraph. */
  lemma {:induction false} CandidatesErr(ps: seq<string>, minLen: nat, n: nat)
    ensures CandidatesUpTo(ps, minLen, n).Err? <==>
      exists i :: 1 <= i < n && LongPair(ps, minLen, i) && TouchesEmpty(ps, i)
  {
    if n > 1 {
      CandidatesErr(ps, minLen, n - 1);
      CandidatesStep(ps, minLen, n);
      var failed := LongPair(ps, minLen, n - 1) && TouchesEmpty(ps, n - 1);
      if exists i :: 1 <= i < n && LongPair(ps, minLen, i) && TouchesEmpty(ps, i) {
        var i :| 1 <= i < n && LongPair(ps, minLen, i) && TouchesEmpty(ps, i);
        if i < n - 1 {
          assert CandidatesUpTo(ps, minLen, n - 1).Err?;
        }
      } else {
        assert !failed by {
          assert !(1 <= n - 1 < n && LongPair(ps, minLen, n - 1) && TouchesEmpty(ps, n - 1));
        }
      }
    }
  }

  /** Every gathered candidate is valid. */
  lemma {:induction false} CandidatesValid(ps: seq<string>, minLen: nat, n: nat)
    requires CandidatesUpTo(ps, minLen, n).Ok?
    ensures forall c :: c in CandidatesUpTo(ps, minLen, n).value ==> ValidCandidate(ps, minLen, c)
  {
    if n > 1 {
      CandidatesValid(ps, minLen, n - 1);
      var i := n - 1;
      if LongPair(ps, minLen, i) && !TouchesEmpty(ps, i) && CrossPair(ps, i) {
        PairCandidateValid(ps, minLen, i);
      }
    }
  }

  /** Every gathered candidate is the one recorded for some long cross-paragraph pair. */
  lemma {:induction false} CandidatesFrom(ps: seq<string>, minLen: nat, n: nat)
    requires CandidatesUpTo(ps, minLen, n).Ok?
    ensures forall c :: c in CandidatesUpTo(ps, minLen, n).value ==>
      exists i :: 1 <= i < n && LongPair(ps, minLen, i) && CrossPair(ps, i) && !TouchesEmpty(ps, i) && c == PairCandidate(ps, i)
  {
    if n > 1 {
      CandidatesFrom(ps, minLen, n - 1);
    }
  }

  /** Every long cross-paragraph pair contributes its candidate. */
  lemma {:induction false} CandidatesCover(ps: seq<string>, minLen: nat, n: nat)
    requires CandidatesUpTo(ps, minLen, n).Ok?
    ensures forall i :: 1 <= i < n && LongPair(ps, minLen, i) && CrossPair(ps, i) ==>
      !TouchesEmpty(ps, i) && PairCandidate(ps, i) in CandidatesUpTo(ps, minLen, n).value
  {
    if n > 1 {
      var prev := CandidatesUpTo(ps, minLen, n - 1);
      assert prev.Ok?;
      CandidatesCover(ps, minLen, n - 1);
      var cur := CandidatesUpTo(ps, minLen, n).value;
      assert cur == PairOutcome(ps, minLen, n - 1, prev.value).value;
      assert forall c :: c in prev.value ==> c in cur;
      forall i | 1 <= i < n && LongPair(ps, minLen, i) && CrossPair(ps, i)
        ensures !TouchesEmpty(ps, i) && PairCandidate(ps, i) in cur
      {
        if i == n - 1 {
          assert cur == prev.value + [PairCandidate(ps, i)];
        }
      }
    }
  }

  /**
   * One iteration of lines 46-63, for adjacent pair i: a pair whose common
   * prefix is at least minLen long and spans two paragraphs adds its segment
   * and both occurrences; computing a ratio for an empty paragraph raises.
   */
  method CollectPair(ps: seq<string>, text: string, owners: seq<nat>, sa: seq<int>, lcp: seq<nat>, minLen: nat,
                     i: int, cands: seq<Candidate>)
    returns (r: Result<seq<Candidate>, EngineError>)
    requires text == Corpus(ps) && owners == Owners(ps) && sa == SuffixOrder(text)
    requires IsSuffixOrder(text, sa)
    requires |lcp| == |text| && forall m :: 1 <= m < |text| ==> lcp[m] == Lcp(text, sa[m - 1], sa[m])
    requires 1 <= i < |text|
    ensures r == PairOutcome(ps, minLen, i, cands)
  {
    PairFacts(ps, text, owners, sa, lcp, minLen, i);
    if lcp[i] >= minLen {
      var p1, p2 := owners[sa[i - 1]], owners[sa[i]];
      if |ps[p1]| == 0 {
        return Err(EmptyParagraph(p1));
      }
      if |ps[p2]| == 0 {
        return Err(EmptyParagraph(p2));
      }
      if p1 != p2 {
        PairCandidateFacts(ps, text, owners, sa, lcp, minLen, i);
        var segment := text[sa[i]..sa[i] + lcp[i]];
        var c := Candidate(segment, OccurrenceAt(ps, owners, sa[i - 1], lcp[i]), OccurrenceAt(ps, owners, sa[i], lcp[i]));
        return Ok(cands + [c]);
      }
    }
    return Ok(cands);
  }

  /** Lines 46-63: the loop over all adjacent pairs. */
  method CollectCandidates(ps: seq<string>, text: string, owners: seq<nat>, sa: seq<int>, lcp: seq<nat>, minLen: nat)
    returns (r: Result<seq<Candidate>, EngineError>)
    requires text == Corpus(ps) && owners == Owners(ps) && sa == SuffixOrder(text)
    requires IsSuffixOrder(text, sa)
    requires |lcp| == |text| && forall i :: 1 <= i < |text| ==> lcp[i] == Lcp(text, sa[i - 1], sa[i])
    ensures r == CandidatesUpTo(ps, minLen, |text|)
  {
    var cands: seq<Candidate> := [];
    var i := 1;
    while i < |text|
      invariant i == 1 || 1 <= i <= |text|
      invariant CandidatesUpTo(ps, minLen, i) == Ok(cands)
    {
      var step := CollectPair(ps, text, owners, sa, lcp, minLen, i, cands);
      assert CandidatesUpTo(ps, minLen, i + 1) == step;
      if step.Err? {
        CandidatesErrStays(ps, minLen, i + 1, |text|);
        return step;
      }
      cands := step.value;
      i := i + 1;
    }
    return Ok(cands);
  }
}
