/**
 * backend/app/utils/pdf_show.py: the cache of open PDF documents (PdfCache)
 * and the page and box selection of render_image. Opening a document is an
 * input function from an absolute path to a document; rendering, drawing and
 * PNG encoding are left out, and render_image is modelled up to the page it
 * renders and the rectangles it draws on it.
 */
module PdfShow {
  import opened Wrappers
  import FileMan

  const MaxNum: nat := 8

  // ---------------------------------------------------------------------
  // the recency list

  /** del s[s.index(x)]: s without the first occurrence of x. */
  function Remove(s: seq<string>, x: string): (r: seq<string>)
    ensures x in s ==> |r| == |s| - 1
    ensures x !in s ==> r == s
  {
    if s == [] then []
    else if s[0] == x then s[1..]
    else [s[0]] + Remove(s[1..], x)
  }

  /** Removing x keeps every other element and adds none. */
  lemma {:induction false} RemoveMembers(s: seq<string>, x: string)
    ensures forall y :: y in Remove(s, x) ==> y in s
    ensures forall y :: y in s && y != x ==> y in Remove(s, x)
  {
    if s != [] && s[0] != x {
      RemoveMembers(s[1..], x);
      assert s == [s[0]] + s[1..];
    }
  }

  ghost predicate Distinct(s: seq<string>)
  {
    forall i, j :: 0 <= i < j < |s| ==> s[i] != s[j]
  }

  /** Removing from a distinct list keeps it distinct and removes the element. */
  lemma {:induction false} RemoveDistinct(s: seq<string>, x: string)
    requires Distinct(s)
    ensures Distinct(Remove(s, x)) && x !in Remove(s, x)
  {
    if s != [] {
      assert s[0] !in s[1..] by {
        forall j | 1 <= j < |s| ensures s[j] != s[0] { }
      }
      if s[0] != x {
        RemoveDistinct(s[1..], x);
        RemoveMembers(s[1..], x);
        var t := Remove(s[1..], x);
        forall i, j | 0 <= i < j < |t| + 1 ensures ([s[0]] + t)[i] != ([s[0]] + t)[j] {
          if i == 0 {
            assert t[j - 1] in t;
          }
        }
      }
    }
  }

  /** Removing from a concatenation removes from the part that holds the element. */
  lemma {:induction false} RemoveAppend(a: seq<string>, b: seq<string>, x: string)
    ensures Remove(a + b, x) == if x in a then Remove(a, x) + b else a + Remove(b, x)
  {
    if a == [] {
      assert a + b == b;
    } else {
      RemoveAppend(a[1..], b, x);
      if a[0] == x {
        assert (a + b)[1..] == a[1..] + b;
      } else if x in a[1..] {
        RemoveAppendLater(a, b, x);
      } else {
        NotInCons(a, x);
        RemoveAppendAbsent(a, b, x);
      }
    }
  }

  lemma RemoveAppendLater(a: seq<string>, b: seq<string>, x: string)
    requires a != [] && a[0] != x && x in a[1..]
    requires Remove(a[1..] + b, x) == Remove(a[1..], x) + b
    ensures Remove(a + b, x) == Remove(a, x) + b
  {
    var t := a[1..];
    assert (a + b)[1..] == t + b;
    assert Remove(a + b, x) == [a[0]] + (Remove(t, x) + b);
  }

  lemma RemoveAppendAbsent(a: seq<string>, b: seq<string>, x: string)
    requires a != [] && a[0] != x
    requires Remove(a[1..] + b, x) == a[1..] + Remove(b, x)
    ensures Remove(a + b, x) == a + Remove(b, x)
  {
    var t, r := a[1..], Remove(b, x);
    assert (a + b)[1..] == t + b;
    assert a == [a[0]] + t;
    assert [a[0]] + (t + r) == ([a[0]] + t) + r;
  }

  lemma NotInCons(a: seq<string>, x: string)
    requires a != [] && a[0] != x && x !in a[1..]
    ensures x !in a
  {
    assert a == [a[0]] + a[1..];
  }

  /**
   * update_cache on the recency list: a hit moves fn to the end; a miss
   * first drops the oldest key when more than MaxNum are held, then
   * appends fn.
   */
  function Access(keys: seq<string>, fn: string): seq<string>
  {
    if fn in keys then Remove(keys, fn) + [fn]
    else (if |keys| > MaxNum then keys[1..] else keys) + [fn]
  }

  /** The recency list after a sequence of gets on an empty cache. */
  function KeysAfter(trace: seq<string>): seq<string>
  {
    if trace == [] then [] else Access(KeysAfter(trace[..|trace| - 1]), trace[|trace| - 1])
  }

  /** Every document ever asked for, each once, from least to most recently asked for. */
  function Recency(trace: seq<string>): seq<string>
  {
    if trace == [] then [] else Remove(Recency(trace[..|trace| - 1]), trace[|trace| - 1]) + [trace[|trace| - 1]]
  }

  /** The last n elements of s (all of s when it is shorter). */
  function LastN(s: seq<string>, n: nat): (r: seq<string>)
    ensures |r| <= n && |r| <= |s|
    ensures r == s[|s| - |r|..]
    ensures |s| >= n ==> |r| == n
  {
    if |s| <= n then s else s[|s| - n..]
  }

  lemma {:induction false} RecencyDistinct(trace: seq<string>)
    ensures Distinct(Recency(trace))
  {
    if trace != [] {
      var init := trace[..|trace| - 1];
      var x := trace[|trace| - 1];
      RecencyDistinct(init);
      RemoveDistinct(Recency(init), x);
    }
  }

  /** The two parts of a distinct list share no element. */
  lemma DistinctParts(a: seq<string>, b: seq<string>, x: string)
    requires Distinct(a + b) && x in a
    ensures x !in b
  {
    var i :| 0 <= i < |a| && a[i] == x;
    forall j | 0 <= j < |b| ensures b[j] != x {
      assert (a + b)[i] == x && (a + b)[|a| + j] == b[j];
    }
  }

  /** An access to a key older than the last MaxNum+1 ones. */
  lemma AccessOld(a: seq<string>, b: seq<string>, fn: string)
    requires |b| == MaxNum + 1 && fn in a && fn !in b
    ensures Access(b, fn) == LastN(Remove(a + b, fn) + [fn], MaxNum + 1)
  {
    RemoveAppend(a, b, fn);
    var rm := Remove(a, fn) + b + [fn];
    assert Remove(a + b, fn) + [fn] == rm;
    assert rm[|rm| - |b|..] == b[1..] + [fn];
  }

  /** An access to one of the last MaxNum+1 keys. */
  lemma AccessRecent(a: seq<string>, b: seq<string>, fn: string)
    requires |b| <= MaxNum + 1 && (|b| < MaxNum + 1 ==> a == []) && fn !in a && fn in b
    ensures Access(b, fn) == LastN(Remove(a + b, fn) + [fn], MaxNum + 1)
  {
    RemoveAppend(a, b, fn);
    var rm := a + (Remove(b, fn) + [fn]);
    assert Remove(a + b, fn) + [fn] == rm;
    assert rm[|rm| - |b|..] == Remove(b, fn) + [fn];
  }

  /** An access to a key never asked for before. */
  lemma AccessNew(a: seq<string>, b: seq<string>, fn: string)
    requires |b| <= MaxNum + 1 && (|b| < MaxNum + 1 ==> a == []) && fn !in a && fn !in b
    ensures Access(b, fn) == LastN(Remove(a + b, fn) + [fn], MaxNum + 1)
  {
    assert Remove(a + b, fn) == a + b by {
      assert fn !in a + b;
    }
    if |b| == MaxNum + 1 {
      var rm := a + b + [fn];
      assert rm[|rm| - |b|..] == b[1..] + [fn];
    } else {
      assert a + b == b;
    }
  }

  /** One access on the last MaxNum+1 recent keys gives the last MaxNum+1 recent keys after it. */
  lemma AccessLastN(r: seq<string>, fn: string)
    requires Distinct(r)
    ensures Access(LastN(r, MaxNum + 1), fn) == LastN(Remove(r, fn) + [fn], MaxNum + 1)
  {
    var b := LastN(r, MaxNum + 1);
    var a := r[..|r| - |b|];
    assert r == a + b;
    if fn in a {
      DistinctParts(a, b, fn);
      AccessOld(a, b, fn);
    } else if fn in b {
      AccessRecent(a, b, fn);
    } else {
      AccessNew(a, b, fn);
    }
  }

  /**
   * With the eviction test len(keys) > MAX_NUM the cache behaves as a
   * least-recently-used cache of MAX_NUM+1 documents: after any sequence of
   * gets the recency list holds the last MAX_NUM+1 distinct documents asked
   * for, least recent first.
   */
  lemma {:induction false} KeysAfterIsLru(trace: seq<string>)
    ensures KeysAfter(trace) == LastN(Recency(trace), MaxNum + 1)
  {
    if trace != [] {
      var init := trace[..|trace| - 1];
      KeysAfterIsLru(init);
      RecencyDistinct(init);
      AccessLastN(Recency(init), trace[|trace| - 1]);
    }
  }

  // ---------------------------------------------------------------------
  // the cache

  /** The absolute path get opens, lines 33-36. */
  function AbsPath(cwd: string, fn: string): string
  {
    if |fn| > 0 && fn[0] == '/' then fn else FileMan.PathJoin(cwd, fn)
  }

  /** The PdfCache object: documents by file name, and their names from least to most recently used. */
  class PdfCache<Doc> {
    var cache: map<string, Doc>
    var keys: seq<string>

    /** keys lists each cached name once, and at most MaxNum+1 of them. */
    ghost predicate Valid()
      reads this
    {
      && Distinct(keys)
      && (forall k :: k in keys <==> k in cache)
      && |keys| <= MaxNum + 1
    }

    constructor ()
      ensures Valid() && cache == map[] && keys == []
    {
      cache := map[];
      keys := [];
    }

    /**
     * Lines 40-48. A hit needs fn in keys (keys.index raises otherwise); a
     * miss that evicts needs the oldest key in the cache (del raises otherwise).
     */
    method UpdateCache(fn: string, hit: bool)
      requires hit ==> fn in keys
      requires !hit && |keys| > MaxNum ==> keys[0] in cache
      modifies this
      ensures hit ==> keys == Remove(old(keys), fn) + [fn] && cache == old(cache)
      ensures !hit && |old(keys)| > MaxNum ==> keys == old(keys)[1..] + [fn] && cache == old(cache) - {old(keys)[0]}
      ensures !hit && |old(keys)| <= MaxNum ==> keys == old(keys) + [fn] && cache == old(cache)
    {
      if hit {
        var i := IndexOf(keys, fn);
        keys := keys[..i] + keys[i + 1..];
        keys := keys + [fn];
      } else {
        if |keys| > MaxNum {
          cache := cache - {keys[0]};
          keys := keys[1..];
        }
        keys := keys + [fn];
      }
    }

    /**
     * Lines 27-38: a hit returns the cached document and makes fn the most
     * recent; a miss updates the recency list first, then opens the document
     * and caches it.
     */
    method Get(fn: string, cwd: string, open: string -> Doc) returns (doc: Doc)
      requires Valid()
      modifies this
      ensures Valid()
      ensures keys == Access(old(keys), fn)
      ensures fn in old(cache) ==> doc == old(cache)[fn] && cache == old(cache)
      ensures fn !in old(cache) ==>
        && doc == open(AbsPath(cwd, fn))
        && cache == (if |old(keys)| > MaxNum then old(cache) - {old(keys)[0]} else old(cache))[fn := doc]
    {
      if fn in cache {
        doc := cache[fn];
        UpdateCache(fn, true);
        RemoveDistinct(old(keys), fn);
        RemoveMembers(old(keys), fn);
        return;
      }
      UpdateCache(fn, false);
      var absFn := if |fn| > 0 && fn[0] == '/' then fn else FileMan.PathJoin(cwd, fn);
      doc := open(absFn);
      cache := cache[fn := doc];
      assert Distinct(keys) by {
        var before := if |old(keys)| > MaxNum then old(keys)[1..] else old(keys);
        assert forall y :: y in before ==> y in old(keys);
      }
    }
  }

  /** list.index: the position of the first occurrence. */
  method IndexOf(s: seq<string>, x: string) returns (i: nat)
    requires x in s
    ensures i < |s| && s[i] == x && x !in s[..i]
    ensures s[..i] + s[i + 1..] == Remove(s, x)
  {
    i := 0;
    while s[i] != x
      invariant i < |s| && x in s[i..] && forall k :: 0 <= k < i ==> s[k] != x
      decreases |s| - i
    {
      assert s[i..] == [s[i]] + s[i + 1..];
      i := i + 1;
    }
    RemoveAt(s, x, i);
  }

  /** Removing the first occurrence at position i cuts out exactly s[i]. */
  lemma {:induction false} RemoveAt(s: seq<string>, x: string, i: nat)
    requires i < |s| && s[i] == x && forall k :: 0 <= k < i ==> s[k] != x
    ensures x !in s[..i]
    ensures s[..i] + s[i + 1..] == Remove(s, x)
  {
    if i > 0 {
      RemoveAt(s[1..], x, i - 1);
      assert s[..i] == [s[0]] + s[1..][..i - 1];
      assert s[i + 1..] == s[1..][i..];
    }
  }

  // ---------------------------------------------------------------------
  // render_image's selection, lines 52-88

  datatype Bbox = Bbox(x0: real, y0: real, x1: real, y1: real)

  /** One element of page_boxes: a page number and its box, which may be None. */
  datatype PageBox = PageBox(page: int, bbox: Option<Bbox>)

  /** Lines 52-54: the box grown by 4 on every side. */
  function EnlargeBbox(b: Bbox): (e: Bbox)
    ensures e.x1 - e.x0 == b.x1 - b.x0 + 8.0 && e.y1 - e.y0 == b.y1 - b.y0 + 8.0
    ensures (e.x0 + e.x1, e.y0 + e.y1) == (b.x0 + b.x1, b.y0 + b.y1)
  {
    Bbox(b.x0 - 4.0, b.y0 - 4.0, b.x1 + 4.0, b.y1 + 4.0)
  }

  /** Lines 56-59. */
  function Delta(offset: Option<int>): int
  {
    if offset.None? then 0 else offset.value
  }

  function MinPage(pbs: seq<PageBox>): (m: int)
    requires |pbs| > 0
    ensures exists i :: 0 <= i < |pbs| && pbs[i].page == m
    ensures forall i :: 0 <= i < |pbs| ==> m <= pbs[i].page
  {
    if |pbs| == 1 then pbs[0].page
    else
      var m := MinPage(pbs[..|pbs| - 1]);
      assert forall i :: 0 <= i < |pbs| - 1 ==> pbs[..|pbs| - 1][i] == pbs[i];
      if pbs[|pbs| - 1].page < m then pbs[|pbs| - 1].page else m
  }

  function MaxPage(pbs: seq<PageBox>): (m: int)
    requires |pbs| > 0
    ensures exists i :: 0 <= i < |pbs| && pbs[i].page == m
    ensures forall i :: 0 <= i < |pbs| ==> pbs[i].page <= m
  {
    if |pbs| == 1 then pbs[0].page
    else
      var m := MaxPage(pbs[..|pbs| - 1]);
      assert forall i :: 0 <= i < |pbs| - 1 ==> pbs[..|pbs| - 1][i] == pbs[i];
      if pbs[|pbs| - 1].page > m then pbs[|pbs| - 1].page else m
  }

  /** The boxes listed for page p, in list order, skipping None. */
  function BoxesOn(pbs: seq<PageBox>, p: int): seq<Bbox>
  {
    if pbs == [] then []
    else
      var last := pbs[|pbs| - 1];
      BoxesOn(pbs[..|pbs| - 1], p) + if last.page == p && last.bbox.Some? then [last.bbox.value] else []
  }

  /** A page no entry names has no boxes. */
  lemma {:induction false} BoxesOnUnlisted(pbs: seq<PageBox>, p: int)
    requires forall i :: 0 <= i < |pbs| ==> pbs[i].page != p
    ensures BoxesOn(pbs, p) == []
  {
    if pbs != [] {
      BoxesOnUnlisted(pbs[..|pbs| - 1], p);
    }
  }

  /** Every box of BoxesOn comes from an entry for that page. */
  lemma {:induction false} BoxesOnFrom(pbs: seq<PageBox>, p: int)
    ensures forall b :: b in BoxesOn(pbs, p) <==> PageBox(p, Some(b)) in pbs
  {
    if pbs != [] {
      var init := pbs[..|pbs| - 1];
      BoxesOnFrom(init, p);
      assert pbs == init + [pbs[|pbs| - 1]];
    }
  }

  /** Lines 67-71: page_dict, a list of boxes for every page from the smallest to the largest listed. */
  method BuildPageDict(pbs: seq<PageBox>) returns (pageDict: map<int, seq<Bbox>>)
    requires |pbs| > 0
    ensures forall p :: p in pageDict <==> MinPage(pbs) <= p <= MaxPage(pbs)
    ensures forall p :: p in pageDict ==> pageDict[p] == BoxesOn(pbs, p)
  {
    var minPage, maxPage := MinPage(pbs), MaxPage(pbs);
    pageDict := map[];
    for p := minPage to maxPage + 1
      invariant forall q :: q in pageDict <==> minPage <= q < p
      invariant forall q :: q in pageDict ==> pageDict[q] == []
    {
      pageDict := pageDict[p := []];
    }
    assert forall q :: q in pageDict ==> pageDict[q] == BoxesOn(pbs[..0], q);
    for i := 0 to |pbs|
      invariant forall p :: p in pageDict <==> minPage <= p <= maxPage
      invariant forall p :: p in pageDict ==> pageDict[p] == BoxesOn(pbs[..i], p)
    {
      assert pbs[..i + 1][..i] == pbs[..i];
      var pb := pbs[i];
      if pb.bbox.Some? {
        pageDict := pageDict[pb.page := pageDict[pb.page] + [pb.bbox.value]];
      }
    }
    assert pbs[..|pbs|] == pbs;
  }

  /** Lines 75-80: the page actually rendered, clamped into the document. */
  function RenderedPage(target: int, pageCount: nat): (page: int)
    requires pageCount > 0
    ensures 0 <= page < pageCount
    ensures 0 <= target < pageCount ==> page == target
    ensures target < 0 ==> page == 0
    ensures target >= pageCount ==> page == pageCount - 1
  {
    if 0 <= target < pageCount then target
    else if target < 0 then 0
    else pageCount - 1
  }

  /** What render_image draws: the page and the rectangles drawn on it. */
  datatype Drawing = Drawing(page: nat, rectangles: seq<Bbox>)

  /** doc[page] on a document without pages raises. */
  datatype RenderError = NoPages

  function Enlarged(bs: seq<Bbox>): (es: seq<Bbox>)
    ensures |es| == |bs| && forall i :: 0 <= i < |bs| ==> es[i] == EnlargeBbox(bs[i])
  {
    seq(|bs|, i requires 0 <= i < |bs| => EnlargeBbox(bs[i]))
  }

  /**
   * Lines 56-88 without the rendering: with no boxes, page 0 plain;
   * otherwise the first entry's page moved by the offset, clamped into the
   * document, with the enlarged boxes of the unclamped page drawn on it.
   */
  method RenderSelection(pbs: seq<PageBox>, offset: Option<int>, pageCount: nat) returns (r: Result<Drawing, RenderError>)
    ensures r.Err? <==> pageCount == 0
    ensures r.Ok? && pbs == [] ==> r.value == Drawing(0, [])
    ensures r.Ok? && pbs != [] ==>
      var target := pbs[0].page + Delta(offset);
      && r.value.page == RenderedPage(target, pageCount)
      && r.value.rectangles == Enlarged(BoxesOn(pbs, target))
  {
    var delta := if offset.None? then 0 else offset.value;
    if |pbs| == 0 {
      if pageCount == 0 {
        return Err(NoPages);
      }
      return Ok(Drawing(0, []));
    }
    var pageDict := BuildPageDict(pbs);
    var page := pbs[0].page + delta;
    var rendered: nat;
    if 0 <= page < pageCount {
      rendered := page;
    } else if page < 0 {
      if pageCount == 0 {
        return Err(NoPages);
      }
      rendered := 0;
    } else {
      if pageCount == 0 {
        return Err(NoPages);
      }
      rendered := pageCount - 1;
    }
    var bboxes := if page in pageDict then pageDict[page] else [];
    if page !in pageDict {
      BoxesOnUnlisted(pbs, page);
    }
    var rectangles := EnlargeAll(bboxes);
    r := Ok(Drawing(rendered, rectangles));
  }

  /** Lines 84-88: each box of the page enlarged, in order. */
  method EnlargeAll(bboxes: seq<Bbox>) returns (rectangles: seq<Bbox>)
    ensures rectangles == Enlarged(bboxes)
  {
    rectangles := [];
    for i := 0 to |bboxes|
      invariant |rectangles| == i && forall k :: 0 <= k < i ==> rectangles[k] == EnlargeBbox(bboxes[k])
    {
      rectangles := rectangles + [EnlargeBbox(bboxes[i])];
    }
  }

  /**
   * The rectangles drawn are exactly the listed boxes of the unclamped
   * target page, so an offset that moves past the document's last page
   * renders the last page with no rectangles unless some entry names that
   * out-of-range page.
   */
  lemma HighlightsFollowTarget(pbs: seq<PageBox>, offset: Option<int>, b: Bbox)
    requires pbs != []
    ensures var target := pbs[0].page + Delta(offset);
      EnlargeBbox(b) in Enlarged(BoxesOn(pbs, target)) <==> PageBox(target, Some(b)) in pbs
  {
    var target := pbs[0].page + Delta(offset);
    BoxesOnFrom(pbs, target);
    var bs := BoxesOn(pbs, target);
    if EnlargeBbox(b) in Enlarged(bs) {
      var i :| 0 <= i < |bs| && Enlarged(bs)[i] == EnlargeBbox(b);
      assert bs[i] == b;
    }
  }
}
