/**
 * backend/app/utils/ssf.py, lines 65-97 of find_exact_same_segments, and the
 * whole function put together: candidates are taken longest first, a
 * candidate whose segment was already processed is skipped, an accepted
 * segment keeps the two occurrences of its candidate and marks itself and all
 * its proper substrings as processed; duplicates are then removed and only
 * entries with more than one occurrence are returned.
 */
module SsfSelect {
  import opened Wrappers
  import Sorting
  import opened SsfCorpus
  import opened SsfEngine

  // ---------------------------------------------------------------------
  // marking substrings, lines 82-85

  /** The substrings that lines 83-85 mark: every length from 1 to len-1, at every start. */
  ghost function ProperSubstrings(s: string): set<string>
  {
    set m, j | 1 <= m < |s| && 0 <= j <= |s| - m :: Slice(s, j, m)
  }

  /** What the marking loops have added after reaching length i, start j. */
  ghost function Marked(s: string, i: int, j: int): set<string>
  {
    set m, j' | 1 <= m < |s| && 0 <= j' <= |s| - m && (m < i || (m == i && j' < j)) :: Slice(s, j', m)
  }

  lemma MarkedStep(s: string, i: int, j: int)
    requires 1 <= i < |s| && 0 <= j <= |s| - i
    ensures Marked(s, i, j + 1) == Marked(s, i, j) + {Slice(s, j, i)}
  {
  }

  lemma MarkedRow(s: string, i: int)
    requires 1 <= i < |s|
    ensures Marked(s, i, |s| - i + 1) == Marked(s, i + 1, 0)
  {
  }

  lemma MarkedAll(s: string)
    ensures Marked(s, if |s| < 1 then 1 else |s|, 0) == ProperSubstrings(s)
  {
  }

  /** The nested loops of lines 83-85. */
  method MarkSubstrings(processed: set<string>, segment: string) returns (marked: set<string>)
    ensures marked == processed + ProperSubstrings(segment)
  {
    marked := processed;
    var i := 1;
    assert Marked(segment, 1, 0) == {};
    while i < |segment|
      invariant 1 <= i <= |segment| || |segment| < 1
      invariant marked == processed + Marked(segment, i, 0)
    {
      var j := 0;
      while j < |segment| - i + 1
        invariant 0 <= j <= |segment| - i + 1
        invariant marked == processed + Marked(segment, i, j)
      {
        MarkedStep(segment, i, j);
        marked := marked + {Slice(segment, j, i)};
        j := j + 1;
      }
      MarkedRow(segment, i);
      i := i + 1;
    }
    MarkedAll(segment);
  }

  /** The marked strings are exactly the non-empty proper substrings. */
  lemma ProperSubstringsAre(a: string, s: string)
    ensures a in ProperSubstrings(s) <==> |a| >= 1 && ProperSubstring(a, s)
  {
    if |a| >= 1 && ProperSubstring(a, s) {
      var j :| 0 <= j <= |s| - |a| && Slice(s, j, |a|) == a;
      assert a == Slice(s, j, |a|);
    }
  }

  // ---------------------------------------------------------------------
  // maximal selection, lines 65-81

  /** Everything marked once the given keys have been accepted. */
  ghost function Covered(keys: set<string>): set<string>
  {
    keys + set k, a | k in keys && a in ProperSubstrings(k) :: a
  }

  lemma CoveredHas(keys: set<string>, k: string, a: string)
    requires k in keys && a in ProperSubstrings(k)
    ensures a in Covered(keys)
  {
  }

  lemma CoveredAdd(keys: set<string>, k: string)
    ensures Covered(keys + {k}) == Covered(keys) + {k} + ProperSubstrings(k)
  {
  }

  /** cands[idx] is the first candidate whose segment is k. */
  ghost predicate FirstWith(cands: seq<Candidate>, k: string, idx: int)
  {
    0 <= idx < |cands| && cands[idx].segment == k && forall m :: 0 <= m < idx ==> cands[m].segment != k
  }

  /** The sort key of line 69, negated so that ascending order is longest first. */
  function ByLength(c: Candidate): int
  {
    -|c.segment|
  }

  /** The loop state of lines 65-81: maximal_segments in insertion order, and processed_segments. */
  datatype Selection = Selection(order: seq<string>, table: map<string, seq<Occurrence>>, processed: set<string>)

  /** The state after the loop has seen cands[..n]. */
  ghost function SelectUpTo(cands: seq<Candidate>, n: nat): Selection
    requires n <= |cands|
  {
    if n == 0 then Selection([], map[], {})
    else
      var s := SelectUpTo(cands, n - 1);
      var c := cands[n - 1];
      if c.segment in s.processed then s
      else
        var existing := if c.segment in s.table then s.table[c.segment] else [];
        Selection(if c.segment in s.table then s.order else s.order + [c.segment],
                  s.table[c.segment := existing + [c.first, c.second]],
                  s.processed + {c.segment} + ProperSubstrings(c.segment))
  }

  /** The keys are listed once each, processed is what they cover, and every candidate seen is processed. */
  lemma SelectKeys(cands: seq<Candidate>, n: nat)
    requires n <= |cands|
    ensures var s := SelectUpTo(cands, n);
      && Distinct(s.order)
      && (forall k :: k in s.order <==> k in s.table)
      && s.processed == Covered(s.table.Keys)
      && forall m :: 0 <= m < n ==> cands[m].segment in s.processed
  {
    SelectOrder(cands, n);
    SelectProcessed(cands, n);
    SelectSeen(cands, n);
  }

  /** One step of the loop: a processed candidate changes nothing, another adds its key and marks. */
  lemma SelectStep(cands: seq<Candidate>, n: nat)
    requires 0 < n <= |cands|
    ensures var s, s', a := SelectUpTo(cands, n - 1), SelectUpTo(cands, n), cands[n - 1].segment;
      if a in s.processed then s' == s
      else
        && s'.order == (if a in s.table then s.order else s.order + [a])
        && s'.table.Keys == s.table.Keys + {a}
        && s'.processed == s.processed + {a} + ProperSubstrings(a)
  {
  }

  lemma {:induction false} SelectOrder(cands: seq<Candidate>, n: nat)
    requires n <= |cands|
    ensures var s := SelectUpTo(cands, n);
      Distinct(s.order) && forall k :: k in s.order <==> k in s.table
  {
    if n > 0 {
      SelectOrder(cands, n - 1);
      SelectStep(cands, n);
    }
  }

  lemma {:induction false} SelectProcessed(cands: seq<Candidate>, n: nat)
    requires n <= |cands|
    ensures var s := SelectUpTo(cands, n);
      s.processed == Covered(s.table.Keys)
  {
    if n > 0 {
      SelectProcessed(cands, n - 1);
      SelectStep(cands, n);
      var s := SelectUpTo(cands, n - 1);
      var a := cands[n - 1].segment;
      if a !in s.processed {
        assert a !in s.table;
        CoveredAdd(s.table.Keys, a);
      }
    }
  }

  lemma {:induction false} SelectSeen(cands: seq<Candidate>, n: nat)
    requires n <= |cands|
    ensures var s := SelectUpTo(cands, n);
      forall m :: 0 <= m < n ==> cands[m].segment in s.processed
  {
    if n > 0 {
      SelectSeen(cands, n - 1);
      SelectStep(cands, n);
      var s, s' := SelectUpTo(cands, n - 1), SelectUpTo(cands, n);
      assert s.processed <= s'.processed;
      forall m | 0 <= m < n ensures cands[m].segment in s'.processed {
        if m < n - 1 {
          assert cands[m].segment in s.processed;
        }
      }
    }
  }

  /** A candidate that is not yet processed is the first with its segment, and its segment is no key yet. */
  lemma UnprocessedIsFirst(cands: seq<Candidate>, n: nat)
    requires 0 < n <= |cands|
    requires cands[n - 1].segment !in SelectUpTo(cands, n - 1).processed
    ensures cands[n - 1].segment !in SelectUpTo(cands, n - 1).table
    ensures FirstWith(cands, cands[n - 1].segment, n - 1)
  {
    SelectProcessed(cands, n - 1);
    SelectSeen(cands, n - 1);
    var s := SelectUpTo(cands, n - 1);
    assert s.table.Keys <= Covered(s.table.Keys);
    forall m | 0 <= m < n - 1 ensures cands[m].segment != cands[n - 1].segment {
      assert cands[m].segment in s.processed;
    }
  }

  /** Each key keeps exactly the two occurrences of the first candidate carrying it. */
  lemma {:induction false} SelectFirst(cands: seq<Candidate>, n: nat)
    requires n <= |cands|
    ensures var s := SelectUpTo(cands, n);
      forall k :: k in s.table ==>
        exists idx :: idx < n && FirstWith(cands, k, idx) && s.table[k] == [cands[idx].first, cands[idx].second]
  {
    if n > 0 {
      SelectFirst(cands, n - 1);
      SelectStep(cands, n);
      var s := SelectUpTo(cands, n - 1);
      var c := cands[n - 1];
      if c.segment !in s.processed {
        UnprocessedIsFirst(cands, n);
        var t := SelectUpTo(cands, n).table;
        assert [] + [c.first, c.second] == [c.first, c.second];
        assert t == s.table[c.segment := [c.first, c.second]];
        forall k | k in t
          ensures exists idx :: idx < n && FirstWith(cands, k, idx) && t[k] == [cands[idx].first, cands[idx].second]
        {
          if k != c.segment {
            var idx :| idx < n - 1 && FirstWith(cands, k, idx) && s.table[k] == [cands[idx].first, cands[idx].second];
            assert t[k] == s.table[k];
          }
        }
      } else {
        assert SelectUpTo(cands, n) == s;
      }
    }
  }

  /** An unprocessed candidate is no longer than any key and is no proper substring of one. */
  lemma NewKeyFits(cands: seq<Candidate>, n: nat, k: string)
    requires 0 < n <= |cands| && Sorting.SortedBy(cands, ByLength)
    requires cands[n - 1].segment !in SelectUpTo(cands, n - 1).processed
    requires k in SelectUpTo(cands, n - 1).table
    ensures |cands[n - 1].segment| <= |k|
    ensures |cands[n - 1].segment| > 0 ==> !ProperSubstring(cands[n - 1].segment, k)
  {
    var s := SelectUpTo(cands, n - 1);
    var a := cands[n - 1].segment;
    SelectFirst(cands, n - 1);
    var idx :| idx < n - 1 && FirstWith(cands, k, idx) && s.table[k] == [cands[idx].first, cands[idx].second];
    assert ByLength(cands[idx]) <= ByLength(cands[n - 1]);
    if |a| > 0 && ProperSubstring(a, k) {
      ProperSubstringsAre(a, k);
      CoveredHas(s.table.Keys, k, a);
      SelectKeys(cands, n - 1);
    }
  }

  /** With candidates longest first, no key is a proper substring of another. */
  lemma {:induction false} SelectMaximalKeys(cands: seq<Candidate>, n: nat)
    requires n <= |cands| && Sorting.SortedBy(cands, ByLength)
    ensures var s := SelectUpTo(cands, n);
      forall k1, k2 :: k1 in s.table && k2 in s.table && |k1| > 0 ==> !ProperSubstring(k1, k2)
  {
    if n > 0 {
      SelectMaximalKeys(cands, n - 1);
      var s := SelectUpTo(cands, n - 1);
      var a := cands[n - 1].segment;
      if a !in s.processed {
        var t := SelectUpTo(cands, n).table;
        assert t.Keys == s.table.Keys + {a};
        forall k1, k2 | k1 in t && k2 in t && |k1| > 0 ensures !ProperSubstring(k1, k2) {
          if k1 == a && k2 != a {
            NewKeyFits(cands, n, k2);
          } else if k2 == a && k1 != a {
            NewKeyFits(cands, n, k1);
          }
        }
      }
    }
  }

  /** Every candidate seen so far is a substring of some key. */
  lemma SelectCovers(cands: seq<Candidate>, n: nat)
    requires n <= |cands|
    ensures var s := SelectUpTo(cands, n);
      forall m :: 0 <= m < n ==> exists k :: k in s.table && IsSubstring(cands[m].segment, k)
  {
    SelectKeys(cands, n);
    var s := SelectUpTo(cands, n);
    forall m | 0 <= m < n ensures exists k :: k in s.table && IsSubstring(cands[m].segment, k) {
      var a := cands[m].segment;
      if a in s.table {
        assert Slice(a, 0, |a|) == a;
      } else {
        var k :| k in s.table && a in ProperSubstrings(k);
        ProperSubstringsAre(a, k);
      }
    }
  }

  /**
   * Lines 65-81: walk the candidates longest first; skip one whose segment
   * was processed; otherwise record its two occurrences under its segment
   * and mark the segment and every proper substring of it as processed.
   */
  method SelectMaximal(cands: seq<Candidate>) returns (t: SegmentTable)
    ensures t == SegmentTable(SelectUpTo(cands, |cands|).order, SelectUpTo(cands, |cands|).table)
  {
    var order: seq<string> := [];
    var table: map<string, seq<Occurrence>> := map[];
    var processed: set<string> := {};
    var i := 0;
    while i < |cands|
      invariant 0 <= i <= |cands|
      invariant Selection(order, table, processed) == SelectUpTo(cands, i)
    {
      var c := cands[i];
      if c.segment in processed {
        i := i + 1;
        continue;
      }
      var existing := if c.segment in table then table[c.segment] else [];
      if c.segment !in table {
        order := order + [c.segment];
      }
      table := table[c.segment := existing + [c.first, c.second]];
      processed := processed + {c.segment};
      processed := MarkSubstrings(processed, c.segment);
      i := i + 1;
    }
    t := SegmentTable(order, table);
  }
  // ---------------------------------------------------------------------
  // duplicate removal, lines 87-95, and the final filter of line 97

  function Position(o: Occurrence): (nat, int)
  {
    (o.paragraph, o.start)
  }

  /** The positions of a list of occurrences: the seen set of lines 90-94 after the list. */
  function SeenPositions(os: seq<Occurrence>): set<(nat, int)>
  {
    if os == [] then {} else SeenPositions(os[..|os| - 1]) + {Position(os[|os| - 1])}
  }

  lemma {:induction false} SeenPositionsAre(os: seq<Occurrence>)
    ensures forall p :: p in SeenPositions(os) <==> exists m :: 0 <= m < |os| && Position(os[m]) == p
  {
    if os != [] {
      var init := os[..|os| - 1];
      SeenPositionsAre(init);
      forall p | p in SeenPositions(init) ensures exists m :: 0 <= m < |os| && Position(os[m]) == p {
        var m :| 0 <= m < |init| && Position(init[m]) == p;
        assert os[m] == init[m];
      }
      forall p | (exists m :: 0 <= m < |os| && Position(os[m]) == p) ensures p in SeenPositions(os) {
        var m :| 0 <= m < |os| && Position(os[m]) == p;
        if m < |init| {
          assert init[m] == os[m];
        }
      }
    }
  }

  /** Keep the first occurrence of every (paragraph, start) pair, in order. */
  function UniqueOccurrences(os: seq<Occurrence>): seq<Occurrence>
  {
    if os == [] then []
    else
      var init := os[..|os| - 1];
      var last := os[|os| - 1];
      if Position(last) in SeenPositions(init) then UniqueOccurrences(init)
      else UniqueOccurrences(init) + [last]
  }

  ghost predicate DistinctPositions(os: seq<Occurrence>)
  {
    forall i, j :: 0 <= i < j < |os| ==> Position(os[i]) != Position(os[j])
  }

  /** The result draws from the input and keeps every position of it. */
  lemma {:induction false} UniqueOccurrencesFrom(os: seq<Occurrence>)
    ensures forall o :: o in UniqueOccurrences(os) ==> o in os
    ensures SeenPositions(UniqueOccurrences(os)) == SeenPositions(os)
  {
    if os != [] {
      var init := os[..|os| - 1];
      UniqueOccurrencesFrom(init);
      assert forall o :: o in init ==> o in os;
    }
  }

  /** The result repeats no position. */
  lemma {:induction false} UniqueOccurrencesDistinct(os: seq<Occurrence>)
    ensures DistinctPositions(UniqueOccurrences(os))
  {
    if os != [] {
      var init, last := os[..|os| - 1], os[|os| - 1];
      UniqueOccurrencesDistinct(init);
      var u := UniqueOccurrences(init);
      if Position(last) !in SeenPositions(init) {
        UniqueOccurrencesFrom(init);
        SeenPositionsAre(u);
        var u' := u + [last];
        forall i, j | 0 <= i < j < |u'| ensures Position(u'[i]) != Position(u'[j]) {
          if j == |u'| - 1 {
            assert u'[i] == u[i];
            assert Position(u[i]) in SeenPositions(u);
          } else {
            assert u'[i] == u[i] && u'[j] == u[j];
          }
        }
      }
    }
  }

  /** A list whose positions are already distinct is kept as it is. */
  lemma {:induction false} UniqueOfDistinct(os: seq<Occurrence>)
    requires DistinctPositions(os)
    ensures UniqueOccurrences(os) == os
  {
    if os != [] {
      var init := os[..|os| - 1];
      UniqueOfDistinct(init);
      SeenPositionsAre(init);
      assert os == init + [os[|os| - 1]];
    }
  }

  method RemoveDuplicateOccurrences(os: seq<Occurrence>) returns (unique: seq<Occurrence>)
    ensures unique == UniqueOccurrences(os)
  {
    unique := [];
    var seen: set<(nat, int)> := {};
    for i := 0 to |os|
      invariant unique == UniqueOccurrences(os[..i])
      invariant seen == SeenPositions(os[..i])
    {
      assert os[..i + 1][..i] == os[..i];
      if (os[i].paragraph, os[i].start) !in seen {
        unique := unique + [os[i]];
        seen := seen + {(os[i].paragraph, os[i].start)};
      }
    }
    assert os[..|os|] == os;
  }

  method DeduplicateTable(t: SegmentTable) returns (d: SegmentTable)
    requires WellFormed(t)
    ensures d.order == t.order && d.occurrences.Keys == t.occurrences.Keys
    ensures forall k :: k in d.occurrences ==> d.occurrences[k] == UniqueOccurrences(t.occurrences[k])
  {
    var table := t.occurrences;
    for i := 0 to |t.order|
      invariant table.Keys == t.occurrences.Keys
      invariant forall k :: k in table ==>
        table[k] == if k in t.order[..i] then UniqueOccurrences(t.occurrences[k]) else t.occurrences[k]
    {
      var segment := t.order[i];
      var unique := RemoveDuplicateOccurrences(table[segment]);
      table := table[segment := unique];
    }
    assert t.order[..|t.order|] == t.order;
    d := SegmentTable(t.order, table);
  }

  /** The keys of t whose occurrence list has more than one entry, in order. */
  function RepeatedKeys(order: seq<string>, occ: map<string, seq<Occurrence>>): (r: seq<string>)
    ensures forall k :: k in r <==> k in order && k in occ && |occ[k]| > 1
  {
    if order == [] then []
    else
      var rest := RepeatedKeys(order[1..], occ);
      assert forall k :: k in order <==> k == order[0] || k in order[1..];
      if order[0] in occ && |occ[order[0]]| > 1 then [order[0]] + rest else rest
  }

  lemma {:induction false} RepeatedKeysDistinct(order: seq<string>, occ: map<string, seq<Occurrence>>)
    requires Distinct(order)
    ensures Distinct(RepeatedKeys(order, occ))
  {
    if order != [] {
      RepeatedKeysDistinct(order[1..], occ);
      assert order[0] !in order[1..];
    }
  }

  lemma {:induction false} RepeatedKeysAll(order: seq<string>, occ: map<string, seq<Occurrence>>)
    requires forall k :: k in order ==> k in occ && |occ[k]| > 1
    ensures RepeatedKeys(order, occ) == order
  {
    if order != [] {
      RepeatedKeysAll(order[1..], occ);
      assert order == [order[0]] + order[1..];
    }
  }

  /** Line 97: keep the entries with more than one occurrence. */
  function KeepRepeated(t: SegmentTable): (r: SegmentTable)
    ensures forall k :: k in r.occurrences <==> k in t.occurrences && |t.occurrences[k]| > 1
    ensures forall k :: k in r.occurrences ==> r.occurrences[k] == t.occurrences[k]
  {
    SegmentTable(RepeatedKeys(t.order, t.occurrences),
                 map k | k in t.occurrences && |t.occurrences[k]| > 1 :: t.occurrences[k])
  }

  lemma KeepRepeatedWellFormed(t: SegmentTable)
    requires WellFormed(t)
    ensures WellFormed(KeepRepeated(t))
  {
    RepeatedKeysDistinct(t.order, t.occurrences);
  }

  /** A table all of whose entries are repeated passes the filter unchanged. */
  lemma KeepRepeatedAll(t: SegmentTable)
    requires WellFormed(t) && forall k :: k in t.occurrences ==> |t.occurrences[k]| > 1
    ensures KeepRepeated(t) == t
  {
    RepeatedKeysAll(t.order, t.occurrences);
  }

  // ---------------------------------------------------------------------
  // find_exact_same_segments, lines 9-97

  /** Every entry holds two occurrences in different paragraphs. */
  ghost predicate PairEntries(t: SegmentTable)
  {
    forall k :: k in t.occurrences ==>
      |t.occurrences[k]| == 2 && t.occurrences[k][0].paragraph != t.occurrences[k][1].paragraph
  }

  /** Duplicate removal changes nothing in a table of two-paragraph pairs. */
  lemma DedupOfPairs(t: SegmentTable, d: SegmentTable)
    requires PairEntries(t)
    requires d.order == t.order && d.occurrences.Keys == t.occurrences.Keys
    requires forall k :: k in d.occurrences ==> d.occurrences[k] == UniqueOccurrences(t.occurrences[k])
    ensures d == t
  {
    forall k | k in t.occurrences ensures d.occurrences[k] == t.occurrences[k] {
      UniqueOfDistinct(t.occurrences[k]);
    }
  }

  /** Key k of the result is the segment of the long cross-paragraph pair i, with its two occurrences. */
  ghost predicate EntryOfPair(ps: seq<string>, minLen: nat, t: SegmentTable, k: string, i: int)
  {
    && LongPair(ps, minLen, i) && CrossPair(ps, i) && !TouchesEmpty(ps, i)
    && PairCandidate(ps, i).segment == k
    && k in t.occurrences
    && t.occurrences[k] == [PairCandidate(ps, i).first, PairCandidate(ps, i).second]
  }

  /** What an entry taken from pair i holds: two occurrences of its key, in different paragraphs. */
  lemma EntryFacts(ps: seq<string>, minLen: nat, t: SegmentTable, k: string, i: int)
    requires EntryOfPair(ps, minLen, t, k, i)
    ensures |k| >= minLen && |t.occurrences[k]| == 2
    ensures t.occurrences[k][0].paragraph != t.occurrences[k][1].paragraph
    ensures OccursAt(ps, k, t.occurrences[k][0]) && OccursAt(ps, k, t.occurrences[k][1])
  {
    PairCandidateValid(ps, minLen, i);
  }

  /** The candidates of pairs 1 .. n-1, longest first, in a stable order (line 69). */
  ghost function Ranked(ps: seq<string>, minLen: nat, n: nat): seq<Candidate>
    requires CandidatesUpTo(ps, minLen, n).Ok?
  {
    Sorting.SortBy(CandidatesUpTo(ps, minLen, n).value, ByLength)
  }

  /** The table the selection loop leaves over the sorted candidates of pairs 1 .. n-1. */
  ghost function SelectedTable(ps: seq<string>, minLen: nat, n: nat): SegmentTable
    requires CandidatesUpTo(ps, minLen, n).Ok?
  {
    var s := SelectUpTo(Ranked(ps, minLen, n), |Ranked(ps, minLen, n)|);
    SegmentTable(s.order, s.table)
  }

  /** One key of the selection comes from a long cross-paragraph pair. */
  lemma SelectedEntry(ps: seq<string>, minLen: nat, n: nat, k: string)
    requires CandidatesUpTo(ps, minLen, n).Ok?
    requires k in SelectedTable(ps, minLen, n).occurrences
    ensures exists i :: 1 <= i < n && EntryOfPair(ps, minLen, SelectedTable(ps, minLen, n), k, i)
  {
    var cands := CandidatesUpTo(ps, minLen, n).value;
    var sorted := Sorting.SortBy(cands, ByLength);
    var t := SelectedTable(ps, minLen, n);
    SelectFirst(sorted, |sorted|);
    assert t.occurrences == SelectUpTo(sorted, |sorted|).table;
    var idx :| idx < |sorted| && FirstWith(sorted, k, idx) && t.occurrences[k] == [sorted[idx].first, sorted[idx].second];
    assert sorted[idx] in multiset(cands);
    var c := sorted[idx];
    assert c in cands;
    CandidatesFrom(ps, minLen, n);
    var i :| 1 <= i < n && LongPair(ps, minLen, i) && CrossPair(ps, i) && !TouchesEmpty(ps, i) && sorted[idx] == PairCandidate(ps, i);
    assert EntryOfPair(ps, minLen, t, k, i);
  }

  /** One long cross-paragraph pair lies inside some key of the selection. */
  lemma SelectedCovers(ps: seq<string>, minLen: nat, n: nat, i: int)
    requires CandidatesUpTo(ps, minLen, n).Ok?
    requires 1 <= i < n && LongPair(ps, minLen, i) && CrossPair(ps, i)
    ensures !TouchesEmpty(ps, i)
    ensures exists k :: k in SelectedTable(ps, minLen, n).occurrences && IsSubstring(PairCandidate(ps, i).segment, k)
  {
    var cands := CandidatesUpTo(ps, minLen, n).value;
    var sorted := Sorting.SortBy(cands, ByLength);
    CandidatesCover(ps, minLen, n);
    SelectCovers(sorted, |sorted|);
    assert PairCandidate(ps, i) in multiset(sorted);
    var m :| 0 <= m < |sorted| && sorted[m] == PairCandidate(ps, i);
  }

  /** Everything the selection guarantees, read off as a table. */
  lemma SelectedFacts(ps: seq<string>, minLen: nat, n: nat)
    requires CandidatesUpTo(ps, minLen, n).Ok?
    ensures var t := SelectedTable(ps, minLen, n);
      && WellFormed(t)
      && PairEntries(t)
      && (forall k :: k in t.occurrences ==> exists i :: EntryOfPair(ps, minLen, t, k, i))
      && (forall k1, k2 :: k1 in t.occurrences && k2 in t.occurrences && |k1| > 0 ==> !ProperSubstring(k1, k2))
      && forall i :: 1 <= i < n && LongPair(ps, minLen, i) && CrossPair(ps, i) ==>
           !TouchesEmpty(ps, i) && exists k :: k in t.occurrences && IsSubstring(PairCandidate(ps, i).segment, k)
  {
    var sorted := Sorting.SortBy(CandidatesUpTo(ps, minLen, n).value, ByLength);
    var t := SelectedTable(ps, minLen, n);
    SelectKeys(sorted, |sorted|);
    SelectMaximalKeys(sorted, |sorted|);
    forall k | k in t.occurrences
      ensures (exists i :: EntryOfPair(ps, minLen, t, k, i))
      ensures |t.occurrences[k]| == 2 && t.occurrences[k][0].paragraph != t.occurrences[k][1].paragraph
    {
      SelectedEntry(ps, minLen, n, k);
      var i :| 1 <= i < n && EntryOfPair(ps, minLen, t, k, i);
      EntryFacts(ps, minLen, t, k, i);
    }
    forall i | 1 <= i < n && LongPair(ps, minLen, i) && CrossPair(ps, i)
      ensures !TouchesEmpty(ps, i) && exists k :: k in t.occurrences && IsSubstring(PairCandidate(ps, i).segment, k)
    {
      SelectedCovers(ps, minLen, n, i);
    }
  }

  /** The first candidate whose segment is k, if any. */
  function FirstSegment(cands: seq<Candidate>, k: string): Option<Candidate>
  {
    if cands == [] then None
    else if cands[0].segment == k then Some(cands[0])
    else FirstSegment(cands[1..], k)
  }

  lemma {:induction false} FirstWithSegment(cands: seq<Candidate>, k: string, idx: int)
    requires FirstWith(cands, k, idx)
    ensures FirstSegment(cands, k) == Some(cands[idx])
  {
    if idx > 0 {
      assert FirstWith(cands[1..], k, idx - 1);
      FirstWithSegment(cands[1..], k, idx - 1);
    }
  }

  lemma {:induction false} SegmentFirstWith(cands: seq<Candidate>, k: string)
    requires FirstSegment(cands, k).Some?
    ensures exists idx :: FirstWith(cands, k, idx) && cands[idx] == FirstSegment(cands, k).value
  {
    if cands[0].segment != k {
      SegmentFirstWith(cands[1..], k);
      var idx :| FirstWith(cands[1..], k, idx) && cands[1..][idx] == FirstSegment(cands[1..], k).value;
      assert FirstWith(cands, k, idx + 1);
    } else {
      assert FirstWith(cands, k, 0);
    }
  }

  /** Candidates of other lengths never come first for k, so dropping them changes nothing. */
  lemma {:induction false} FirstSegmentOfLength(cands: seq<Candidate>, k: string)
    ensures FirstSegment(Sorting.KeyFilter(cands, ByLength, -|k|), k) == FirstSegment(cands, k)
  {
    if cands != [] && cands[0].segment != k {
      var c, rest := cands[0], cands[1..];
      var kept := Sorting.KeyFilter(rest, ByLength, -|k|);
      FirstSegmentOfLength(rest, k);
      if ByLength(c) == -|k| {
        assert ([c] + kept)[0] == c && ([c] + kept)[1..] == kept;
      } else {
        assert [] + kept == kept;
      }
    }
  }

  /** The first candidate with segment k after the stable sort is the first one before it. */
  lemma SortedFirstIsCollectedFirst(cands: seq<Candidate>, k: string, idx: int)
    requires FirstWith(Sorting.SortBy(cands, ByLength), k, idx)
    ensures exists j :: FirstWith(cands, k, j) && cands[j] == Sorting.SortBy(cands, ByLength)[idx]
  {
    var sorted := Sorting.SortBy(cands, ByLength);
    Sorting.SortByStable(cands, ByLength, ByLength(sorted[idx]));
    SameLengthSameFirst(sorted, cands, k, idx);
  }

  /** Two sequences that agree on the candidates of k's length agree on the first one with segment k. */
  lemma SameLengthSameFirst(a: seq<Candidate>, b: seq<Candidate>, k: string, idx: int)
    requires FirstWith(a, k, idx)
    requires Sorting.KeyFilter(a, ByLength, ByLength(a[idx])) == Sorting.KeyFilter(b, ByLength, ByLength(a[idx]))
    ensures exists j :: FirstWith(b, k, j) && b[j] == a[idx]
  {
    FirstWithSegment(a, k, idx);
    FirstSegmentOfLength(a, k);
    FirstSegmentOfLength(b, k);
    SegmentFirstWith(b, k);
  }

  /** For every sort key v (minus a length), the sort of line 69 keeps the candidates with key v in collection order. */
  lemma RankedStable(ps: seq<string>, minLen: nat, n: nat, v: int)
    requires CandidatesUpTo(ps, minLen, n).Ok?
    ensures Sorting.KeyFilter(Ranked(ps, minLen, n), ByLength, v)
         == Sorting.KeyFilter(CandidatesUpTo(ps, minLen, n).value, ByLength, v)
  {
    Sorting.SortByStable(CandidatesUpTo(ps, minLen, n).value, ByLength, v);
  }

  /**
   * Each key of the selection holds the occurrences of the first candidate
   * with that segment, both in the longest-first order and, since the sort is
   * stable and equal segments have equal lengths, in collection order.
   */
  lemma SelectedIsFirst(ps: seq<string>, minLen: nat, n: nat, k: string)
    requires CandidatesUpTo(ps, minLen, n).Ok?
    requires k in SelectedTable(ps, minLen, n).occurrences
    ensures exists idx ::
      && FirstWith(Ranked(ps, minLen, n), k, idx)
      && SelectedTable(ps, minLen, n).occurrences[k] == [Ranked(ps, minLen, n)[idx].first, Ranked(ps, minLen, n)[idx].second]
    ensures exists j ::
      && FirstWith(CandidatesUpTo(ps, minLen, n).value, k, j)
      && SelectedTable(ps, minLen, n).occurrences[k]
         == [CandidatesUpTo(ps, minLen, n).value[j].first, CandidatesUpTo(ps, minLen, n).value[j].second]
  {
    var sorted := Ranked(ps, minLen, n);
    var cands := CandidatesUpTo(ps, minLen, n).value;
    SelectFirst(sorted, |sorted|);
    assert k in SelectUpTo(sorted, |sorted|).table;
    var occ := SelectedTable(ps, minLen, n).occurrences[k];
    var idx :| FirstWith(sorted, k, idx) && occ == [sorted[idx].first, sorted[idx].second];
    SortedFirstIsCollectedFirst(cands, k, idx);
  }

  /** The table find_exact_same_segments returns, as a function of the paragraphs. */
  ghost function ExactSameSegments(ps: seq<string>, minLen: nat): Result<SegmentTable, EngineError>
  {
    if |ps| < 2 then Ok(SegmentTable([], map[]))
    else
      var found := CandidatesUpTo(ps, minLen, |Corpus(ps)|);
      if found.Err? then Err(found.error) else Ok(SelectedTable(ps, minLen, |Corpus(ps)|))
  }

  /**
   * find_exact_same_segments: fewer than two paragraphs give an empty
   * result; otherwise the result fails exactly when a long pair touches an
   * empty paragraph, and each key is the segment of a long cross-paragraph
   * pair with that pair's two occurrences, no key is a proper substring of
   * another, and every long cross-paragraph segment lies inside some key.
   */
  method FindExactSameSegments(ps: seq<string>, minLen: nat) returns (r: Result<SegmentTable, EngineError>)
    ensures r == ExactSameSegments(ps, minLen)
    ensures |ps| < 2 ==> r == Ok(SegmentTable([], map[]))
    ensures |ps| >= 2 ==> (r.Err? <==> exists i :: LongPair(ps, minLen, i) && TouchesEmpty(ps, i))
    ensures r.Ok? ==> WellFormed(r.value)
    ensures r.Ok? ==> forall k :: k in r.value.occurrences ==> exists i :: EntryOfPair(ps, minLen, r.value, k, i)
    ensures r.Ok? ==> forall k :: k in r.value.occurrences ==>
      && |k| >= minLen && |r.value.occurrences[k]| == 2
      && r.value.occurrences[k][0].paragraph != r.value.occurrences[k][1].paragraph
      && OccursAt(ps, k, r.value.occurrences[k][0]) && OccursAt(ps, k, r.value.occurrences[k][1])
    ensures r.Ok? ==> forall k1, k2 :: k1 in r.value.occurrences && k2 in r.value.occurrences && |k1| > 0 ==>
      !ProperSubstring(k1, k2)
    ensures r.Ok? && |ps| >= 2 ==> forall i :: LongPair(ps, minLen, i) && CrossPair(ps, i) ==>
      !TouchesEmpty(ps, i) && exists k :: k in r.value.occurrences && IsSubstring(PairCandidate(ps, i).segment, k)
  {
    if |ps| < 2 {
      return Ok(SegmentTable([], map[]));
    }
    var text, owners := BuildCorpus(ps);
    var sa := SuffixOrder(text);
    SuffixOrderIsCharThenOffset(text);
    var lcp := BuildLcpArray(text, sa);
    var found := CollectCandidates(ps, text, owners, sa, lcp[..], minLen);
    CandidatesErr(ps, minLen, |text|);
    forall i | LongPair(ps, minLen, i) ensures 1 <= i < |text| { }
    if found.Err? {
      return Err(found.error);
    }
    var cands := Sorting.SortBy(found.value, ByLength);
    var selected := SelectMaximal(cands);
    SelectedFacts(ps, minLen, |text|);
    assert selected == SelectedTable(ps, minLen, |text|);
    var unique := DeduplicateTable(selected);
    DedupOfPairs(selected, unique);
    KeepRepeatedAll(unique);
    r := Ok(KeepRepeated(unique));
    forall k | k in selected.occurrences
      ensures |k| >= minLen && OccursAt(ps, k, selected.occurrences[k][0]) && OccursAt(ps, k, selected.occurrences[k][1])
    {
      var i :| EntryOfPair(ps, minLen, selected, k, i);
      EntryFacts(ps, minLen, selected, k, i);
    }
  }
}
