/**
 * src/checker.py, create_index and find_identical_ngrams: every n-gram of
 * every document becomes a location (document, n-gram, position) in the
 * bucket of its n-gram, each bucket a SortedList; the buckets whose
 * locations name more than one document are the identical n-grams. The md5
 * key of a bucket is modelled by the n-gram itself (md5 taken as injective).
 */
module CheckerIndex {
  import opened CheckerNgrams

  /** One (doc_name, text) item of doc_texts. */
  datatype DocText = DocText(name: string, text: string)

  /** A (doc_name, ngram, pos) tuple of the index. */
  datatype Loc = Loc(doc: string, ngram: string, pos: int)

  // ---------------------------------------------------------------------
  // the order SortedList keeps: tuples compared field by field, strings by code point

  predicate StrLt(a: string, b: string)
  {
    if b == [] then false
    else if a == [] then true
    else if a[0] != b[0] then a[0] < b[0]
    else StrLt(a[1..], b[1..])
  }

  /** Two different strings are ordered one way or the other. */
  lemma {:induction false} StrLtTotal(a: string, b: string)
    ensures a == b || StrLt(a, b) || StrLt(b, a)
  {
    if a != [] && b != [] && a[0] == b[0] {
      StrLtTotal(a[1..], b[1..]);
      if a[1..] == b[1..] {
        assert a == [a[0]] + a[1..] && b == [b[0]] + b[1..];
      }
    }
  }

  predicate LocLe(x: Loc, y: Loc)
  {
    || StrLt(x.doc, y.doc)
    || (x.doc == y.doc && (StrLt(x.ngram, y.ngram) || (x.ngram == y.ngram && x.pos <= y.pos)))
  }

  lemma LocLeTotal(x: Loc, y: Loc)
    ensures LocLe(x, y) || LocLe(y, x)
  {
    StrLtTotal(x.doc, y.doc);
    StrLtTotal(x.ngram, y.ngram);
  }

  ghost predicate Sorted(s: seq<Loc>)
  {
    forall i :: 0 <= i < |s| - 1 ==> LocLe(s[i], s[i + 1])
  }

  /** SortedList.add: x goes after every element not greater than it. */
  function Insert(x: Loc, s: seq<Loc>): (r: seq<Loc>)
    ensures multiset(r) == multiset(s) + multiset{x}
    ensures |r| == |s| + 1 && (r[0] == x || (s != [] && r[0] == s[0]))
  {
    if s == [] then [x]
    else if LocLe(s[0], x) then
      assert s == [s[0]] + s[1..];
      [s[0]] + Insert(x, s[1..])
    else [x] + s
  }

  /** Adding to a sorted list keeps it sorted. */
  lemma {:induction false} InsertSorted(x: Loc, s: seq<Loc>)
    requires Sorted(s)
    ensures Sorted(Insert(x, s))
  {
    if s != [] {
      if LocLe(s[0], x) {
        InsertSorted(x, s[1..]);
        var r := Insert(x, s);
        var rest := Insert(x, s[1..]);
        forall i | 0 <= i < |r| - 1 ensures LocLe(r[i], r[i + 1]) {
          if i > 0 {
            assert r[i] == rest[i - 1] && r[i + 1] == rest[i];
          }
        }
      } else {
        LocLeTotal(s[0], x);
      }
    }
  }

  // ---------------------------------------------------------------------
  // the index

  /** A dict of buckets, with its keys in insertion order. */
  datatype Index = Index(buckets: map<string, seq<Loc>>, order: seq<string>)

  ghost predicate Distinct(s: seq<string>)
  {
    forall i, j :: 0 <= i < j < |s| ==> s[i] != s[j]
  }

  /** What any dict is: its key order lists every key once. */
  ghost predicate ValidIndex(ix: Index)
  {
    Distinct(ix.order) && forall g :: g in ix.buckets <==> g in ix.order
  }

  /** Line 55 for one location; a missing bucket starts empty (defaultdict). */
  function AddLoc(ix: Index, l: Loc): Index
  {
    var g := l.ngram;
    if g in ix.buckets then Index(ix.buckets[g := Insert(l, ix.buckets[g])], ix.order)
    else Index(ix.buckets[g := Insert(l, [])], ix.order + [g])
  }

  function IndexAfter(locs: seq<Loc>): Index
  {
    if locs == [] then Index(map[], [])
    else AddLoc(IndexAfter(locs[..|locs| - 1]), locs[|locs| - 1])
  }

  /** The locations of one document's n-grams. */
  function DocLocs(name: string, ngrams: seq<(string, int)>): (ls: seq<Loc>)
    ensures |ls| == |ngrams| && forall k :: 0 <= k < |ngrams| ==> ls[k] == Loc(name, ngrams[k].0, ngrams[k].1)
  {
    seq(|ngrams|, k requires 0 <= k < |ngrams| => Loc(name, ngrams[k].0, ngrams[k].1))
  }

  function DocNgrams(d: DocText): seq<(string, int)>
  {
    NgramsOf(Words(d.text), MinChars, N)
  }

  /** The locations create_index adds, in the order it adds them. */
  function AllLocs(docs: seq<DocText>): seq<Loc>
  {
    if docs == [] then [] else AllLocs(docs[..|docs| - 1]) + DocLocs(docs[|docs| - 1].name, DocNgrams(docs[|docs| - 1]))
  }

  /** The locations of the n-gram g, in the order they are added. */
  function Select(locs: seq<Loc>, g: string): seq<Loc>
  {
    if locs == [] then []
    else Select(locs[..|locs| - 1], g) + if locs[|locs| - 1].ngram == g then [locs[|locs| - 1]] else []
  }

  lemma {:induction false} SelectHolds(locs: seq<Loc>, g: string)
    ensures forall l :: l in Select(locs, g) <==> l in locs && l.ngram == g
  {
    if locs != [] {
      SelectHolds(locs[..|locs| - 1], g);
      assert locs == locs[..|locs| - 1] + [locs[|locs| - 1]];
    }
  }

  /**
   * The index holds a bucket for exactly the n-grams that occur, its keys in
   * first-occurrence order (a key listed earlier occurs before every location
   * of a key listed later); each bucket is sorted and holds exactly the
   * locations of its n-gram.
   */
  lemma IndexAfterFacts(locs: seq<Loc>)
    ensures ValidIndex(IndexAfter(locs))
    ensures forall g :: g in IndexAfter(locs).buckets <==> Select(locs, g) != []
    ensures forall g :: g in IndexAfter(locs).buckets ==>
      Sorted(IndexAfter(locs).buckets[g]) && multiset(IndexAfter(locs).buckets[g]) == multiset(Select(locs, g))
    ensures forall i, j :: 0 <= i < j < |IndexAfter(locs).order| ==>
      OccursFirst(locs, IndexAfter(locs).order[i], IndexAfter(locs).order[j])
  {
    IndexAfterKeys(locs);
    IndexAfterBuckets(locs);
    IndexAfterOrder(locs);
  }

  /** Some location of g comes before every location of h. */
  ghost predicate OccursFirst(locs: seq<Loc>, g: string, h: string)
  {
    exists p :: 0 <= p < |locs| && locs[p].ngram == g && forall q :: 0 <= q < |locs| && locs[q].ngram == h ==> p < q
  }

  lemma {:induction false} IndexAfterOrder(locs: seq<Loc>)
    ensures forall i, j :: 0 <= i < j < |IndexAfter(locs).order| ==>
      OccursFirst(locs, IndexAfter(locs).order[i], IndexAfter(locs).order[j])
  {
    if locs != [] {
      var init := locs[..|locs| - 1];
      var l := locs[|locs| - 1];
      var ix := IndexAfter(init);
      IndexAfterOrder(init);
      IndexAfterKeys(init);
      SelectHolds(init, l.ngram);
      var order := IndexAfter(locs).order;
      forall i, j | 0 <= i < j < |order| ensures OccursFirst(locs, order[i], order[j]) {
        var g, h := order[i], order[j];
        if j < |ix.order| {
          var p :| 0 <= p < |init| && init[p].ngram == g && forall q :: 0 <= q < |init| && init[q].ngram == h ==> p < q;
          assert locs[p] == init[p];
          forall q | 0 <= q < |locs| && locs[q].ngram == h ensures p < q {
            if q < |init| {
              assert init[q] == locs[q];
            }
          }
        } else {
          assert h == l.ngram && l.ngram !in ix.buckets;
          forall q | 0 <= q < |init| ensures init[q].ngram != h {
            assert init[q] in init;
          }
          SelectHolds(init, g);
          var p :| 0 <= p < |init| && init[p] == Select(init, g)[0];
          assert locs[p] == init[p];
          assert forall q :: 0 <= q < |init| ==> locs[q] == init[q];
        }
      }
    }
  }

  lemma {:induction false} IndexAfterKeys(locs: seq<Loc>)
    ensures ValidIndex(IndexAfter(locs))
    ensures forall g :: g in IndexAfter(locs).buckets <==> Select(locs, g) != []
  {
    if locs != [] {
      var init := locs[..|locs| - 1];
      var l := locs[|locs| - 1];
      IndexAfterKeys(init);
      forall g | g != l.ngram
        ensures Select(locs, g) == Select(init, g)
      {
      }
    }
  }

  lemma {:induction false} IndexAfterBuckets(locs: seq<Loc>)
    ensures forall g :: g in IndexAfter(locs).buckets ==>
      Sorted(IndexAfter(locs).buckets[g]) && multiset(IndexAfter(locs).buckets[g]) == multiset(Select(locs, g))
  {
    if locs != [] {
      var init := locs[..|locs| - 1];
      var l := locs[|locs| - 1];
      IndexAfterBuckets(init);
      IndexAfterKeys(init);
      var ix := IndexAfter(init);
      if l.ngram in ix.buckets {
        InsertSorted(l, ix.buckets[l.ngram]);
      } else {
        assert Select(init, l.ngram) == [];
      }
      forall g | g != l.ngram
        ensures Select(locs, g) == Select(init, g)
      {
      }
    }
  }

  lemma {:induction false} AllLocsAre(docs: seq<DocText>)
    ensures forall d, k :: 0 <= d < |docs| && 0 <= k < |DocNgrams(docs[d])| ==>
      Loc(docs[d].name, DocNgrams(docs[d])[k].0, DocNgrams(docs[d])[k].1) in AllLocs(docs)
  {
    if docs != [] {
      var init := docs[..|docs| - 1];
      AllLocsAre(init);
      forall d, k | 0 <= d < |docs| && 0 <= k < |DocNgrams(docs[d])|
        ensures Loc(docs[d].name, DocNgrams(docs[d])[k].0, DocNgrams(docs[d])[k].1) in AllLocs(docs)
      {
        if d < |init| {
          assert docs[d] == init[d];
        } else {
          assert DocLocs(docs[d].name, DocNgrams(docs[d]))[k] == Loc(docs[d].name, DocNgrams(docs[d])[k].0, DocNgrams(docs[d])[k].1);
        }
      }
    }
  }

  /** Every n-gram get_ngrams gives for every document is in its n-gram's bucket, at its position. */
  lemma IndexComplete(docs: seq<DocText>, d: int, k: int)
    requires 0 <= d < |docs| && 0 <= k < |DocNgrams(docs[d])|
    ensures var (g, pos) := DocNgrams(docs[d])[k];
      g in IndexAfter(AllLocs(docs)).buckets && Loc(docs[d].name, g, pos) in IndexAfter(AllLocs(docs)).buckets[g]
  {
    var (g, pos) := DocNgrams(docs[d])[k];
    var locs := AllLocs(docs);
    AllLocsAre(docs);
    SelectHolds(locs, g);
    IndexAfterFacts(locs);
    var l := Loc(docs[d].name, g, pos);
    assert l in Select(locs, g);
    assert l in multiset(IndexAfter(locs).buckets[g]);
  }

  /** A bucket holds only locations of its own n-gram. */
  lemma BucketsHoldTheirNgram(locs: seq<Loc>, g: string, l: Loc)
    requires g in IndexAfter(locs).buckets && l in IndexAfter(locs).buckets[g]
    ensures l.ngram == g && l in locs
  {
    IndexAfterFacts(locs);
    SelectHolds(locs, g);
    assert l in multiset(Select(locs, g));
  }

  /** Lines 53-55: one document's n-grams added to the index. */
  method AddDocument(index0: Index, ghost before: seq<Loc>, docName: string, ngrams: seq<(string, int)>) returns (index: Index)
    requires index0 == IndexAfter(before)
    ensures index == IndexAfter(before + DocLocs(docName, ngrams))
  {
    index := index0;
    assert before + DocLocs(docName, ngrams[..0]) == before;
    for k := 0 to |ngrams|
      invariant index == IndexAfter(before + DocLocs(docName, ngrams[..k]))
    {
      var (ngram, pos) := ngrams[k];
      var loc := Loc(docName, ngram, pos);
      ghost var done := before + DocLocs(docName, ngrams[..k]);
      assert before + DocLocs(docName, ngrams[..k + 1]) == done + [loc];
      IndexAfterSnoc(done, loc);
      if ngram in index.buckets {
        index := index.(buckets := index.buckets[ngram := Insert(loc, index.buckets[ngram])]);
      } else {
        index := Index(index.buckets[ngram := Insert(loc, [])], index.order + [ngram]);
      }
    }
    assert ngrams[..|ngrams|] == ngrams;
  }

  lemma IndexAfterSnoc(locs: seq<Loc>, l: Loc)
    ensures IndexAfter(locs + [l]) == AddLoc(IndexAfter(locs), l)
  {
    assert (locs + [l])[..|locs|] == locs;
  }

  /** Lines 48-56: the loop over the documents. */
  method CreateIndex(docs: seq<DocText>) returns (index: Index)
    ensures index == IndexAfter(AllLocs(docs))
  {
    index := Index(map[], []);
    for d := 0 to |docs|
      invariant index == IndexAfter(AllLocs(docs[..d]))
    {
      assert docs[..d + 1][..d] == docs[..d];
      var docName, text := docs[d].name, docs[d].text;
      var ngrams := GetNgrams(text, MinChars, N);
      index := AddDocument(index, AllLocs(docs[..d]), docName, ngrams);
    }
    assert docs[..|docs|] == docs;
  }

  // ---------------------------------------------------------------------
  // find_identical_ngrams, lines 59-65

  /** The locations name at least two different documents. */
  ghost predicate MultiDoc(locs: seq<Loc>)
  {
    exists i, j :: 0 <= i < |locs| && 0 <= j < |locs| && locs[i].doc != locs[j].doc
  }

  /** Line 63's test: more than one document name in the set of the locations' names. */
  lemma DocSetAboveOne(locs: seq<Loc>)
    ensures |set l | l in locs :: l.doc| > 1 <==> MultiDoc(locs)
  {
    var docs := set l | l in locs :: l.doc;
    if MultiDoc(locs) {
      var i, j :| 0 <= i < |locs| && 0 <= j < |locs| && locs[i].doc != locs[j].doc;
      assert {locs[i].doc, locs[j].doc} <= docs;
      assert |{locs[i].doc, locs[j].doc}| == 2;
      SubsetSize({locs[i].doc, locs[j].doc}, docs);
    }
    if |docs| > 1 {
      var a :| a in docs;
      assert |docs - {a}| == |docs| - 1;
      var b :| b in docs - {a};
      var la :| la in locs && la.doc == a;
      var lb :| lb in locs && lb.doc == b;
      var i :| 0 <= i < |locs| && locs[i] == la;
      var j :| 0 <= j < |locs| && locs[j] == lb;
    }
  }

  lemma SubsetSize<T>(a: set<T>, b: set<T>)
    requires a <= b
    ensures |a| <= |b|
  {
    assert b == a + (b - a);
  }

  /** The keys kept, in the index's order. */
  function KeptOrder(ix: Index, order: seq<string>): seq<string>
    requires forall g :: g in order ==> g in ix.buckets
  {
    if order == [] then []
    else
      var g := order[|order| - 1];
      KeptOrder(ix, order[..|order| - 1]) + if |set l | l in ix.buckets[g] :: l.doc| > 1 then [g] else []
  }

  lemma {:induction false} KeptOrderHolds(ix: Index, order: seq<string>)
    requires forall g :: g in order ==> g in ix.buckets
    ensures forall g :: g in KeptOrder(ix, order) <==> g in order && MultiDoc(ix.buckets[g])
    ensures Distinct(order) ==> Distinct(KeptOrder(ix, order))
  {
    if order != [] {
      var init := order[..|order| - 1];
      var g := order[|order| - 1];
      KeptOrderHolds(ix, init);
      DocSetAboveOne(ix.buckets[g]);
      assert order == init + [g];
    }
  }

  lemma KeptOrderSnoc(ix: Index, order: seq<string>, k: int)
    requires 0 <= k < |order| && forall g :: g in order ==> g in ix.buckets
    ensures KeptOrder(ix, order[..k + 1]) ==
      KeptOrder(ix, order[..k]) + if |set l | l in ix.buckets[order[k]] :: l.doc| > 1 then [order[k]] else []
  {
    assert order[..k + 1][..k] == order[..k];
  }

  /**
   * Lines 59-65: a bucket is kept, with its locations unchanged, exactly
   * when its locations name at least two documents; the kept keys stay in
   * the index's order.
   */
  method FindIdenticalNgrams(index: Index) returns (identical: Index)
    requires ValidIndex(index)
    ensures ValidIndex(identical)
    ensures forall g :: g in identical.buckets <==> g in index.buckets && MultiDoc(index.buckets[g])
    ensures forall g :: g in identical.buckets ==> identical.buckets[g] == index.buckets[g]
    ensures identical.order == KeptOrder(index, index.order)
  {
    identical := Index(map[], []);
    for k := 0 to |index.order|
      invariant identical.order == KeptOrder(index, index.order[..k])
      invariant forall g :: g in identical.buckets <==> g in identical.order
      invariant forall g :: g in identical.buckets ==> g in index.buckets && identical.buckets[g] == index.buckets[g]
    {
      KeptOrderSnoc(index, index.order, k);
      var ngramHash := index.order[k];
      var locations := index.buckets[ngramHash];
      if |set loc | loc in locations :: loc.doc| > 1 {
        identical := Index(identical.buckets[ngramHash := locations], identical.order + [ngramHash]);
      }
    }
    assert index.order[..|index.order|] == index.order;
    KeptOrderHolds(index, index.order);
  }
}
