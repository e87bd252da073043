/**
 * src/checker.py, calculate_pairwise_overlap: the positions of every
 * document's identical n-grams are gathered, and for every pair of documents
 * that have any, in the order those documents were first met, both cells of
 * the pair get the first document's number of shared n-grams as a
 * percentage of the two documents' average n-gram count.
 */
module CheckerOverlap {
  import opened CheckerNgrams
  import opened CheckerIndex

  // ---------------------------------------------------------------------
  // doc_positions, lines 76-80

  /** The (ngram, pos) pairs of document d among the locations, in order. */
  function DocPositions(locs: seq<Loc>, d: string): seq<(string, int)>
  {
    if locs == [] then []
    else
      var l := locs[|locs| - 1];
      DocPositions(locs[..|locs| - 1], d) + if l.doc == d then [(l.ngram, l.pos)] else []
  }

  /** doc_positions and the order in which its keys were first inserted. */
  datatype Positions = Positions(byDoc: map<string, seq<(string, int)>>, order: seq<string>)

  function PositionsAfter(locs: seq<Loc>): Positions
  {
    if locs == [] then Positions(map[], [])
    else
      var ps := PositionsAfter(locs[..|locs| - 1]);
      var l := locs[|locs| - 1];
      if l.doc in ps.byDoc then Positions(ps.byDoc[l.doc := ps.byDoc[l.doc] + [(l.ngram, l.pos)]], ps.order)
      else Positions(ps.byDoc[l.doc := [(l.ngram, l.pos)]], ps.order + [l.doc])
  }

  /** The locations of the identical buckets, bucket by bucket in the dict's order. */
  function FlatLocs(ix: Index, order: seq<string>): seq<Loc>
    requires forall g :: g in order ==> g in ix.buckets
  {
    if order == [] then [] else FlatLocs(ix, order[..|order| - 1]) + ix.buckets[order[|order| - 1]]
  }

  /**
   * doc_positions has a key for exactly the documents that own some
   * location, listed once each in first-occurrence order, and holds each
   * document's pairs in location order.
   */
  lemma {:induction false} PositionsAfterFacts(locs: seq<Loc>)
    ensures Distinct(PositionsAfter(locs).order)
    ensures forall d :: d in PositionsAfter(locs).byDoc <==> d in PositionsAfter(locs).order
    ensures forall d :: d in PositionsAfter(locs).byDoc <==> exists k :: 0 <= k < |locs| && locs[k].doc == d
    ensures forall d :: d in PositionsAfter(locs).byDoc ==> PositionsAfter(locs).byDoc[d] == DocPositions(locs, d)
  {
    if locs != [] {
      var init := locs[..|locs| - 1];
      var l := locs[|locs| - 1];
      PositionsAfterFacts(init);
      var ps := PositionsAfter(locs);
      forall d | d in ps.byDoc ensures exists k :: 0 <= k < |locs| && locs[k].doc == d {
        if d != l.doc {
          var k :| 0 <= k < |init| && init[k].doc == d;
          assert locs[k] == init[k];
        }
      }
      forall d | exists k :: 0 <= k < |locs| && locs[k].doc == d
        ensures d in ps.byDoc
      {
        var k :| 0 <= k < |locs| && locs[k].doc == d;
        if k < |init| {
          assert init[k] == locs[k];
        }
      }
      forall d | d !in PositionsAfter(init).byDoc ensures DocPositions(init, d) == [] {
        DocPositionsEmpty(init, d);
      }
    }
  }

  lemma {:induction false} DocPositionsEmpty(locs: seq<Loc>, d: string)
    requires forall k :: 0 <= k < |locs| ==> locs[k].doc != d
    ensures DocPositions(locs, d) == []
  {
    if locs != [] {
      DocPositionsEmpty(locs[..|locs| - 1], d);
    }
  }

  /** The number of a document's pairs is the number of its locations. */
  lemma {:induction false} DocPositionsCount(locs: seq<Loc>, d: string)
    ensures |DocPositions(locs, d)| == |set k | 0 <= k < |locs| && locs[k].doc == d|
  {
    if locs != [] {
      var init := locs[..|locs| - 1];
      DocPositionsCount(init, d);
      var before := set k | 0 <= k < |init| && init[k].doc == d;
      var after := set k | 0 <= k < |locs| && locs[k].doc == d;
      if locs[|locs| - 1].doc == d {
        assert after == before + {|locs| - 1};
      } else {
        assert after == before;
      }
    }
  }

  /** Lines 78-80 for one bucket. */
  method AddBucket(ps0: Positions, ghost before: seq<Loc>, locations: seq<Loc>) returns (ps: Positions)
    requires ps0 == PositionsAfter(before)
    ensures ps == PositionsAfter(before + locations)
  {
    ps := ps0;
    assert before + locations[..0] == before;
    for k := 0 to |locations|
      invariant ps == PositionsAfter(before + locations[..k])
    {
      var loc := locations[k];
      assert (before + locations[..k + 1])[..|before| + k] == before + locations[..k];
      assert (before + locations[..k + 1])[|before| + k] == loc;
      if loc.doc in ps.byDoc {
        ps := Positions(ps.byDoc[loc.doc := ps.byDoc[loc.doc] + [(loc.ngram, loc.pos)]], ps.order);
      } else {
        ps := Positions(ps.byDoc[loc.doc := [(loc.ngram, loc.pos)]], ps.order + [loc.doc]);
      }
    }
    assert locations[..|locations|] == locations;
  }

  /** Lines 76-80: doc_positions. */
  method CollectPositions(identical: Index) returns (ps: Positions)
    requires ValidIndex(identical)
    ensures ps == PositionsAfter(FlatLocs(identical, identical.order))
  {
    ps := Positions(map[], []);
    for k := 0 to |identical.order|
      invariant ps == PositionsAfter(FlatLocs(identical, identical.order[..k]))
    {
      assert identical.order[..k + 1][..k] == identical.order[..k];
      var ngramHash := identical.order[k];
      ps := AddBucket(ps, FlatLocs(identical, identical.order[..k]), identical.buckets[ngramHash]);
    }
    assert identical.order[..|identical.order|] == identical.order;
  }

  // ---------------------------------------------------------------------
  // the matrix, lines 70-93

  /** list.index as a total function: the first position of x, or -1. */
  function Rank(s: seq<string>, x: string): (k: int)
    ensures -1 <= k < |s|
    ensures k == -1 <==> x !in s
    ensures k >= 0 ==> s[k] == x
  {
    if s == [] then -1
    else if s[0] == x then 0
    else
      var r := Rank(s[1..], x);
      if r < 0 then -1 else r + 1
  }

  lemma RankDistinct(s: seq<string>, k: int)
    requires Distinct(s) && 0 <= k < |s|
    ensures Rank(s, s[k]) == k
  {
    var r := Rank(s, s[k]);
    assert s[r] == s[k];
  }

  /** Line 89: the first document's shared count as a percentage of the average count, 0 when that average is not positive. */
  function Overlap(shared: nat, count1: int, count2: int): real
  {
    var avg := (count1 + count2) as real / 2.0;
    if avg > 0.0 then (shared as real / avg) * 100.0 else 0.0
  }

  /** The overlap times the average count is the shared count in percent, and 0 when the average is not positive. */
  lemma OverlapFacts(shared: nat, count1: int, count2: int)
    ensures var avg := (count1 + count2) as real / 2.0;
      && (avg > 0.0 ==> Overlap(shared, count1, count2) * avg == shared as real * 100.0)
      && (avg <= 0.0 ==> Overlap(shared, count1, count2) == 0.0)
  {
  }

  /**
   * What ends up in cell (x, y): nothing unless both documents have shared
   * n-grams and differ; otherwise the overlap computed for the pair in
   * the order doc_positions met them, the earlier one's count shared.
   */
  function Cell(names: seq<string>, counts: seq<int>, ps: Positions, x: int, y: int): real
    requires |counts| == |names| && 0 <= x < |names| && 0 <= y < |names|
    requires forall d :: d in ps.order ==> d in ps.byDoc
  {
    var p, q := Rank(ps.order, names[x]), Rank(ps.order, names[y]);
    if p < 0 || q < 0 || p == q then 0.0
    else if p < q then Overlap(|ps.byDoc[names[x]]|, counts[x], counts[y])
    else Overlap(|ps.byDoc[names[y]]|, counts[y], counts[x])
  }

  /** The matrix is symmetric, its diagonal is 0, and a non-zero cell is the earlier document's shared count over the average count. */
  lemma CellFacts(names: seq<string>, counts: seq<int>, ps: Positions, x: int, y: int)
    requires |counts| == |names| && 0 <= x < |names| && 0 <= y < |names|
    requires forall d :: d in ps.order ==> d in ps.byDoc
    ensures Cell(names, counts, ps, x, y) == Cell(names, counts, ps, y, x)
    ensures Cell(names, counts, ps, x, x) == 0.0
    ensures Cell(names, counts, ps, x, y) != 0.0 ==>
      && names[x] in ps.order && names[y] in ps.order && names[x] != names[y]
      && (counts[x] + counts[y]) as real / 2.0 > 0.0
      && var first := if Rank(ps.order, names[x]) < Rank(ps.order, names[y]) then names[x] else names[y];
         Cell(names, counts, ps, x, y) == Overlap(|ps.byDoc[first]|, counts[x], counts[y])
  {
    CellSymmetric(names, counts, ps, x, y);
    var p, q := Rank(ps.order, names[x]), Rank(ps.order, names[y]);
    if p >= 0 && q >= 0 && p < q {
      OverlapFacts(|ps.byDoc[names[x]]|, counts[x], counts[y]);
    } else if p >= 0 && q >= 0 && q < p {
      OverlapFacts(|ps.byDoc[names[y]]|, counts[y], counts[x]);
      OverlapSwap(|ps.byDoc[names[y]]|, counts[y], counts[x]);
    }
  }

  lemma OverlapSwap(shared: nat, count1: int, count2: int)
    ensures Overlap(shared, count1, count2) == Overlap(shared, count2, count1)
  {
    assert (count1 + count2) as real == (count2 + count1) as real;
  }

  lemma CellSymmetric(names: seq<string>, counts: seq<int>, ps: Positions, x: int, y: int)
    requires |counts| == |names| && 0 <= x < |names| && 0 <= y < |names|
    requires forall d :: d in ps.order ==> d in ps.byDoc
    ensures Cell(names, counts, ps, x, y) == Cell(names, counts, ps, y, x)
    ensures Cell(names, counts, ps, x, x) == 0.0
  {
    assert (counts[x] + counts[y]) as real == (counts[y] + counts[x]) as real;
  }

  /** The pair of cells (x, y) and (y, x) belongs to a pair of doc_positions handled before pair (a, b). */
  ghost predicate DoneBefore(names: seq<string>, ps: Positions, x: int, y: int, a: int, b: int)
    requires 0 <= x < |names| && 0 <= y < |names|
  {
    var p, q := Rank(ps.order, names[x]), Rank(ps.order, names[y]);
    var lo, hi := if p < q then p else q, if p < q then q else p;
    p >= 0 && q >= 0 && p != q && (lo < a || (lo == a && hi < b))
  }

  ghost predicate MatrixUpTo(m: array2<real>, names: seq<string>, counts: seq<int>, ps: Positions, a: int, b: int)
    requires |counts| == |names| && m.Length0 == |names| && m.Length1 == |names|
    requires forall d :: d in ps.order ==> d in ps.byDoc
    reads m
  {
    forall x, y :: 0 <= x < |names| && 0 <= y < |names| ==>
      m[x, y] == if DoneBefore(names, ps, x, y, a, b) then Cell(names, counts, ps, x, y) else 0.0
  }

  /** Lines 84-91 for the pair (a, b) of doc_positions' keys. */
  method FillPair(m: array2<real>, names: seq<string>, counts: seq<int>, ps: Positions, a: int, b: int)
    requires |counts| == |names| && m.Length0 == |names| && m.Length1 == |names|
    requires Distinct(names) && Distinct(ps.order)
    requires forall d :: d in ps.order ==> d in ps.byDoc && d in names
    requires 0 <= a < b < |ps.order|
    requires MatrixUpTo(m, names, counts, ps, a, b)
    modifies m
    ensures MatrixUpTo(m, names, counts, ps, a, b + 1)
  {
    var doc1, doc2 := ps.order[a], ps.order[b];
    var i := IndexOf(names, doc1);
    var j := IndexOf(names, doc2);
    var shared := |ps.byDoc[doc1]|;
    var avg := (counts[i] + counts[j]) as real / 2.0;
    if avg > 0.0 {
      var overlap := (shared as real / avg) * 100.0;
      m[i, j] := overlap;
      m[j, i] := overlap;
    }
    assert forall x, y :: 0 <= x < |names| && 0 <= y < |names| && (x, y) != (i, j) && (x, y) != (j, i) ==>
      m[x, y] == old(m[x, y]);
    forall x, y | 0 <= x < |names| && 0 <= y < |names|
      ensures m[x, y] == if DoneBefore(names, ps, x, y, a, b + 1) then Cell(names, counts, ps, x, y) else 0.0
    {
      CellStep(names, counts, ps, a, b, i, j, x, y, old(m[x, y]), m[x, y]);
    }
  }

  /** One cell before and after pair (a, b): its own two cells get the overlap when the average is positive, every other cell keeps its value. */
  lemma CellStep(names: seq<string>, counts: seq<int>, ps: Positions, a: int, b: int, i: int, j: int, x: int, y: int, before: real, after: real)
    requires |counts| == |names| && Distinct(names) && Distinct(ps.order) && 0 <= a < b < |ps.order|
    requires forall d :: d in ps.order ==> d in ps.byDoc
    requires 0 <= i < |names| && names[i] == ps.order[a] && 0 <= j < |names| && names[j] == ps.order[b]
    requires 0 <= x < |names| && 0 <= y < |names|
    requires before == if DoneBefore(names, ps, x, y, a, b) then Cell(names, counts, ps, x, y) else 0.0
    requires (x, y) == (i, j) || (x, y) == (j, i) ==>
      after == if (counts[i] + counts[j]) as real / 2.0 > 0.0 then (|ps.byDoc[ps.order[a]]| as real / ((counts[i] + counts[j]) as real / 2.0)) * 100.0 else before
    requires (x, y) != (i, j) && (x, y) != (j, i) ==> after == before
    ensures after == if DoneBefore(names, ps, x, y, a, b + 1) then Cell(names, counts, ps, x, y) else 0.0
  {
    PairStep(names, ps, a, b, i, j, x, y);
    if (x, y) == (i, j) || (x, y) == (j, i) {
      PairCell(names, counts, ps, a, b, i, j);
      RankDistinct(ps.order, a);
      RankDistinct(ps.order, b);
    }
  }

  /** Both cells of pair (a, b) hold the overlap of its first document with its second. */
  lemma PairCell(names: seq<string>, counts: seq<int>, ps: Positions, a: int, b: int, i: int, j: int)
    requires |counts| == |names| && Distinct(ps.order) && 0 <= a < b < |ps.order|
    requires forall d :: d in ps.order ==> d in ps.byDoc
    requires 0 <= i < |names| && names[i] == ps.order[a] && 0 <= j < |names| && names[j] == ps.order[b]
    ensures Cell(names, counts, ps, i, j) == Overlap(|ps.byDoc[ps.order[a]]|, counts[i], counts[j])
    ensures Cell(names, counts, ps, j, i) == Overlap(|ps.byDoc[ps.order[a]]|, counts[i], counts[j])
  {
    RankDistinct(ps.order, a);
    RankDistinct(ps.order, b);
  }

  /** Pair (a, b) finishes the two cells of its documents and leaves every other cell as it was. */
  lemma PairStep(names: seq<string>, ps: Positions, a: int, b: int, i: int, j: int, x: int, y: int)
    requires Distinct(names) && Distinct(ps.order) && 0 <= a < b < |ps.order|
    requires 0 <= i < |names| && names[i] == ps.order[a] && 0 <= j < |names| && names[j] == ps.order[b]
    requires 0 <= x < |names| && 0 <= y < |names|
    ensures (x, y) == (i, j) || (x, y) == (j, i) ==> DoneBefore(names, ps, x, y, a, b + 1)
    ensures (x, y) != (i, j) && (x, y) != (j, i) ==>
      (DoneBefore(names, ps, x, y, a, b + 1) <==> DoneBefore(names, ps, x, y, a, b))
  {
    DoneStep(names, ps, x, y, a, b);
    if (x, y) != (i, j) && (x, y) != (j, i) {
      assert names[x] == ps.order[a] ==> x == i;
      assert names[x] == ps.order[b] ==> x == j;
      assert names[y] == ps.order[a] ==> y == i;
      assert names[y] == ps.order[b] ==> y == j;
    }
  }

  /** Handling pair (a, b) adds exactly its two cells to the finished ones. */
  lemma DoneStep(names: seq<string>, ps: Positions, x: int, y: int, a: int, b: int)
    requires Distinct(ps.order) && 0 <= a < b < |ps.order|
    requires 0 <= x < |names| && 0 <= y < |names|
    ensures DoneBefore(names, ps, x, y, a, b + 1) <==>
      || DoneBefore(names, ps, x, y, a, b)
      || (names[x] == ps.order[a] && names[y] == ps.order[b])
      || (names[x] == ps.order[b] && names[y] == ps.order[a])
  {
    RankDistinct(ps.order, a);
    RankDistinct(ps.order, b);
  }

  /** list.index on the document names. */
  method IndexOf(s: seq<string>, x: string) returns (i: int)
    requires x in s
    ensures i == Rank(s, x)
  {
    i := 0;
    while s[i] != x
      invariant 0 <= i <= Rank(s, x)
      invariant Rank(s, x) == i + Rank(s[i..], x)
      decreases |s| - i
    {
      assert s[i..][1..] == s[i + 1..];
      i := i + 1;
    }
  }

  /** Lines 82-91: every pair of doc_positions' keys, in combinations order. */
  method FillOverlap(m: array2<real>, names: seq<string>, counts: seq<int>, ps: Positions)
    requires |counts| == |names| && m.Length0 == |names| && m.Length1 == |names|
    requires Distinct(names) && Distinct(ps.order)
    requires forall d :: d in ps.order ==> d in ps.byDoc && d in names
    requires forall x, y :: 0 <= x < |names| && 0 <= y < |names| ==> m[x, y] == 0.0
    modifies m
    ensures forall x, y :: 0 <= x < |names| && 0 <= y < |names| ==> m[x, y] == Cell(names, counts, ps, x, y)
  {
    for a := 0 to |ps.order|
      invariant MatrixUpTo(m, names, counts, ps, a, 0)
    {
      assert MatrixUpTo(m, names, counts, ps, a, a + 1);
      for b := a + 1 to |ps.order|
        invariant MatrixUpTo(m, names, counts, ps, a, b)
      {
        FillPair(m, names, counts, ps, a, b);
      }
      assert MatrixUpTo(m, names, counts, ps, a + 1, 0);
    }
    forall x, y | 0 <= x < |names| && 0 <= y < |names|
      ensures m[x, y] == Cell(names, counts, ps, x, y)
    {
      if !DoneBefore(names, ps, x, y, |ps.order|, 0) {
        assert Cell(names, counts, ps, x, y) == 0.0;
      }
    }
  }

  function Names(docs: seq<DocText>): (names: seq<string>)
    ensures |names| == |docs| && forall k :: 0 <= k < |docs| ==> names[k] == docs[k].name
  {
    seq(|docs|, k requires 0 <= k < |docs| => docs[k].name)
  }

  /** Every location create_index adds belongs to one of the documents. */
  lemma {:induction false} AllLocsNamed(docs: seq<DocText>)
    ensures forall l :: l in AllLocs(docs) ==> l.doc in Names(docs)
  {
    if docs != [] {
      var init, last := docs[..|docs| - 1], docs[|docs| - 1];
      AllLocsNamed(init);
      forall l | l in AllLocs(docs) ensures l.doc in Names(docs) {
        if l in AllLocs(init) {
          var k :| 0 <= k < |init| && Names(init)[k] == l.doc;
          assert Names(docs)[k] == l.doc;
        } else {
          assert l in DocLocs(last.name, DocNgrams(last));
          assert Names(docs)[|docs| - 1] == l.doc;
        }
      }
    }
  }

  /**
   * Buckets kept unchanged from the index of the documents name only those
   * documents: what calculate_pairwise_overlap needs of the result of
   * find_identical_ngrams(create_index(docs)).
   */
  lemma IdenticalNamed(docs: seq<DocText>, identical: Index)
    requires forall g :: g in identical.buckets ==>
      g in IndexAfter(AllLocs(docs)).buckets && identical.buckets[g] == IndexAfter(AllLocs(docs)).buckets[g]
    ensures forall g, l :: g in identical.buckets && l in identical.buckets[g] ==> l.doc in Names(docs)
  {
    AllLocsNamed(docs);
    forall g, l | g in identical.buckets && l in identical.buckets[g] ensures l.doc in Names(docs) {
      BucketsHoldTheirNgram(AllLocs(docs), g, l);
    }
  }

  /** The documents' n-gram counts, line 75. */
  function Counts(docs: seq<DocText>): (counts: seq<int>)
    ensures |counts| == |docs| && forall k :: 0 <= k < |docs| ==> counts[k] == |DocNgrams(docs[k])|
  {
    seq(|docs|, k requires 0 <= k < |docs| => |DocNgrams(docs[k])|)
  }

  /** Line 74: the documents' names. */
  method DocNames(docs: seq<DocText>) returns (docNames: seq<string>)
    ensures docNames == Names(docs)
  {
    docNames := [];
    for k := 0 to |docs|
      invariant docNames == Names(docs[..k])
    {
      docNames := docNames + [docs[k].name];
    }
    assert docs[..|docs|] == docs;
  }

  /** Line 75: the documents' n-gram counts. */
  method NgramCounts(docs: seq<DocText>) returns (counts: seq<int>)
    ensures counts == Counts(docs)
  {
    counts := [];
    for k := 0 to |docs|
      invariant counts == Counts(docs[..k])
    {
      var ngrams := GetNgrams(docs[k].text, MinChars, N);
      counts := counts + [|ngrams|];
    }
    assert docs[..|docs|] == docs;
  }

  /** The keys of doc_positions are listed once each, and each is a document name and has a list. */
  lemma PositionsKnown(docs: seq<DocText>, identical: Index)
    requires ValidIndex(identical)
    requires forall g, l :: g in identical.buckets && l in identical.buckets[g] ==> l.doc in Names(docs)
    ensures Distinct(PositionsAfter(FlatLocs(identical, identical.order)).order)
    ensures var ps := PositionsAfter(FlatLocs(identical, identical.order));
      forall d :: d in ps.order ==> d in ps.byDoc && d in Names(docs)
  {
    var flat := FlatLocs(identical, identical.order);
    PositionsAfterFacts(flat);
    forall d | d in PositionsAfter(flat).order ensures d in Names(docs) {
      var k :| 0 <= k < |flat| && flat[k].doc == d;
      FlatLocsFrom(identical, identical.order, k);
    }
  }

  /** Lines 68-93. The documents of identical are among doc_texts, as create_index over the same texts makes them. */
  method CalculatePairwiseOverlap(docs: seq<DocText>, identical: Index) returns (matrix: array2<real>, docNames: seq<string>)
    requires Distinct(Names(docs)) && ValidIndex(identical)
    requires forall g, l :: g in identical.buckets && l in identical.buckets[g] ==> l.doc in Names(docs)
    ensures fresh(matrix) && docNames == Names(docs)
    ensures matrix.Length0 == |docs| && matrix.Length1 == |docs|
    ensures var ps := PositionsAfter(FlatLocs(identical, identical.order));
      && (forall d :: d in ps.order ==> d in ps.byDoc)
      && forall x, y :: 0 <= x < |docs| && 0 <= y < |docs| ==> matrix[x, y] == Cell(docNames, Counts(docs), ps, x, y)
  {
    docNames := DocNames(docs);
    var counts := NgramCounts(docs);
    var ps := CollectPositions(identical);
    PositionsKnown(docs, identical);
    var nDocs := |docNames|;
    matrix := new real[nDocs, nDocs]((i, j) => 0.0);
    assert forall x, y :: 0 <= x < nDocs && 0 <= y < nDocs ==> matrix[x, y] == 0.0;
    FillOverlap(matrix, docNames, counts, ps);
  }

  /** Each flattened location comes from one of the buckets. */
  lemma {:induction false} FlatLocsFrom(ix: Index, order: seq<string>, k: int)
    requires forall g :: g in order ==> g in ix.buckets
    requires 0 <= k < |FlatLocs(ix, order)|
    ensures exists g :: g in ix.buckets && FlatLocs(ix, order)[k] in ix.buckets[g]
  {
    var init := order[..|order| - 1];
    var g := order[|order| - 1];
    if k < |FlatLocs(ix, init)| {
      FlatLocsFrom(ix, init, k);
    } else {
      assert FlatLocs(ix, order)[k] == ix.buckets[g][k - |FlatLocs(ix, init)|];
    }
  }

  /**
   * The shared count of a pair is all the first document's identical
   * locations, whoever it shares them with: for the identical buckets
   * "x": A, B and "y": B, C, doc_positions is the value below, and cell
   * (A, C) is 100 although A and C share nothing.
   */
  lemma UnrelatedPairOverlaps()
    ensures var ps := Positions(map["A" := [("x", 0)], "B" := [("x", 0), ("y", 1)], "C" := [("y", 1)]], ["A", "B", "C"]);
      Cell(["A", "B", "C"], [1, 1, 1], ps, 0, 2) == 100.0
  {
    var order := ["A", "B", "C"];
    assert Rank(order, "A") == 0;
    assert Rank(order, "C") == 2 by {
      assert order[1..] == ["B", "C"] && order[1..][1..] == ["C"];
    }
  }
}
