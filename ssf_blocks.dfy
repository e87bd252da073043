/**
 * backend/app/utils/ssf.py, lines 113-151 of find_exact_same_substrings,
 * without the file reading: every document with a sidecar contributes the
 * concatenated text of its "text" blocks and a map from the offset at which
 * each such block starts to the block; an occurrence is mapped back to the
 * block starting at the greatest offset not after it.
 */
module SsfBlocks {
  import opened Wrappers
  import opened Sorting
  import opened FindPosition
  import opened SsfEngine

  /** One entry of metadata.text_block in a sidecar: type tag, text and geometry. */
  datatype Block = Block(kind: string, text: string, page: int, bbox: seq<real>)

  /** text, metadata, and metadata's keys in insertion order. */
  datatype Flat = Flat(text: string, metadata: map<int, Block>, starts: seq<int>)

  /** What lines 118-124 build from the blocks. */
  function FlattenOf(blocks: seq<Block>): Flat
  {
    if blocks == [] then Flat("", map[], [])
    else
      var f := FlattenOf(blocks[..|blocks| - 1]);
      var b := blocks[|blocks| - 1];
      if b.kind != "text" then f else Extend(f, b)
  }

  /** Lines 121-124 for one "text" block: its text is appended and it is filed at the offset where it starts. */
  function Extend(f: Flat, b: Block): Flat
  {
    Flat(f.text + b.text, f.metadata[|f.text| := b],
         if |f.text| in f.metadata then f.starts else f.starts + [|f.text|])
  }

  /** The loop of lines 118-124. */
  method FlattenBlocks(blocks: seq<Block>) returns (f: Flat)
    ensures f == FlattenOf(blocks)
  {
    var text := "";
    var start := 0;
    var metadata: map<int, Block> := map[];
    var starts: seq<int> := [];
    for i := 0 to |blocks|
      invariant start == |text|
      invariant Flat(text, metadata, starts) == FlattenOf(blocks[..i])
    {
      assert blocks[..i + 1][..i] == blocks[..i];
      var b := blocks[i];
      if b.kind == "text" {
        text := text + b.text;
        if start !in metadata {
          starts := starts + [start];
        }
        metadata := metadata[start := b];
        start := start + |b.text|;
      }
    }
    assert blocks[..|blocks|] == blocks;
    f := Flat(text, metadata, starts);
  }

  /**
   * The keys ascend and are exactly the keys of the map; each maps to a
   * "text" block whose text sits at that offset of the flattened text; and
   * a non-empty text has a block at offset 0.
   */
  ghost predicate Layout(text: string, metadata: map<int, Block>, starts: seq<int>)
  {
    && StrictlyIncreasing(starts)
    && (forall k :: k in starts <==> k in metadata)
    && BlocksInText(text, metadata)
    && (|text| > 0 ==> 0 in metadata)
  }

  /** Every block of the map is a "text" block whose text sits at its offset. */
  ghost predicate BlocksInText(text: string, metadata: map<int, Block>)
  {
    forall k :: k in metadata ==>
      && metadata[k].kind == "text"
      && 0 <= k && k + |metadata[k].text| <= |text|
      && text[k..k + |metadata[k].text|] == metadata[k].text
  }

  lemma ExtendBlocks(f: Flat, b: Block)
    requires BlocksInText(f.text, f.metadata) && b.kind == "text"
    ensures BlocksInText(Extend(f, b).text, Extend(f, b).metadata)
  {
    var g, t := Extend(f, b), f.text;
    forall k | k in g.metadata
      ensures g.metadata[k].kind == "text"
      ensures 0 <= k && k + |g.metadata[k].text| <= |g.text|
      ensures g.text[k..k + |g.metadata[k].text|] == g.metadata[k].text
    {
      if k == |t| {
        assert g.text[k..k + |b.text|] == b.text;
      } else {
        var len := |f.metadata[k].text|;
        assert g.text[k..k + len] == t[k..k + len];
      }
    }
  }

  lemma ExtendStarts(f: Flat, b: Block)
    requires StrictlyIncreasing(f.starts) && (forall k :: k in f.starts <==> k in f.metadata)
    requires BlocksInText(f.text, f.metadata)
    ensures StrictlyIncreasing(Extend(f, b).starts)
    ensures forall k :: k in Extend(f, b).starts <==> k in Extend(f, b).metadata
  {
    var g := Extend(f, b);
    if |f.text| !in f.metadata {
      forall i, j | 0 <= i < j < |g.starts| ensures g.starts[i] < g.starts[j] {
        if j == |g.starts| - 1 {
          assert f.starts[i] in f.metadata;
        } else {
          assert g.starts[i] == f.starts[i] && g.starts[j] == f.starts[j];
        }
      }
    }
  }

  lemma {:induction false} FlattenLayout(blocks: seq<Block>)
    ensures var f := FlattenOf(blocks); Layout(f.text, f.metadata, f.starts)
  {
    if blocks != [] {
      var f := FlattenOf(blocks[..|blocks| - 1]);
      FlattenLayout(blocks[..|blocks| - 1]);
      var b := blocks[|blocks| - 1];
      if b.kind == "text" {
        assert BlocksInText(f.text, f.metadata);
        ExtendBlocks(f, b);
        ExtendStarts(f, b);
      }
    }
  }

  // ---------------------------------------------------------------------
  // the documents, lines 113-131

  /** A (pdf_file, scaned_file) pair: the sidecar's blocks, or None when no sidecar exists. */
  datatype PdfEntry = PdfEntry(pdfFile: string, sidecar: Option<seq<Block>>)

  /** One element of text_infos. */
  datatype TextInfo = TextInfo(text: string, filename: string, metadata: map<int, Block>, starts: seq<int>)

  function InfoOf(pdfFile: string, blocks: seq<Block>): TextInfo
  {
    var f := FlattenOf(blocks);
    TextInfo(f.text, pdfFile, f.metadata, f.starts)
  }

  /** text_infos: one entry per document whose sidecar exists, in order. */
  function TextInfosOf(entries: seq<PdfEntry>): seq<TextInfo>
  {
    if entries == [] then []
    else
      var e := entries[|entries| - 1];
      TextInfosOf(entries[..|entries| - 1]) + if e.sidecar.Some? then [InfoOf(e.pdfFile, e.sidecar.value)] else []
  }

  /** paragraphs, line 131. */
  function Paragraphs(infos: seq<TextInfo>): (ps: seq<string>)
    ensures |ps| == |infos| && forall p :: 0 <= p < |infos| ==> ps[p] == infos[p].text
  {
    seq(|infos|, p requires 0 <= p < |infos| => infos[p].text)
  }

  ghost function FileSet(entries: seq<PdfEntry>): set<string>
  {
    set e | e in entries :: e.pdfFile
  }

  ghost predicate DistinctFiles(entries: seq<PdfEntry>)
  {
    forall i, j :: 0 <= i < j < |entries| ==> entries[i].pdfFile != entries[j].pdfFile
  }

  /** The loop of lines 113-129. */
  method BuildTextInfos(entries: seq<PdfEntry>) returns (infos: seq<TextInfo>)
    ensures infos == TextInfosOf(entries)
  {
    infos := [];
    for i := 0 to |entries|
      invariant infos == TextInfosOf(entries[..i])
    {
      assert entries[..i + 1][..i] == entries[..i];
      var e := entries[i];
      if e.sidecar.Some? {
        var f := FlattenBlocks(e.sidecar.value);
        infos := infos + [TextInfo(f.text, e.pdfFile, f.metadata, f.starts)];
      }
    }
    assert entries[..|entries|] == entries;
  }

  /** Every text info is laid out as flattening promises and names a document of the list. */
  lemma {:induction false} TextInfosFacts(entries: seq<PdfEntry>)
    ensures forall p :: 0 <= p < |TextInfosOf(entries)| ==>
      Layout(TextInfosOf(entries)[p].text, TextInfosOf(entries)[p].metadata, TextInfosOf(entries)[p].starts)
    ensures forall p :: 0 <= p < |TextInfosOf(entries)| ==> TextInfosOf(entries)[p].filename in FileSet(entries)
  {
    if entries != [] {
      var init := entries[..|entries| - 1];
      var e := entries[|entries| - 1];
      TextInfosFacts(init);
      var before, infos := TextInfosOf(init), TextInfosOf(entries);
      forall p | 0 <= p < |infos|
        ensures Layout(infos[p].text, infos[p].metadata, infos[p].starts) && infos[p].filename in FileSet(entries)
      {
        if p < |before| {
          assert infos[p] == before[p];
          var y :| y in init && y.pdfFile == before[p].filename;
          assert y in entries;
        } else {
          assert infos[p] == InfoOf(e.pdfFile, e.sidecar.value);
          FlattenLayout(e.sidecar.value);
          assert e in entries;
        }
      }
    }
  }

  /** Distinct document names give distinct text-info names. */
  lemma {:induction false} TextInfosDistinct(entries: seq<PdfEntry>)
    requires DistinctFiles(entries)
    ensures forall p, q :: 0 <= p < q < |TextInfosOf(entries)| ==>
      TextInfosOf(entries)[p].filename != TextInfosOf(entries)[q].filename
  {
    if entries != [] {
      var init := entries[..|entries| - 1];
      var e := entries[|entries| - 1];
      TextInfosDistinct(init);
      TextInfosFacts(init);
      var infos := TextInfosOf(init);
      forall p | 0 <= p < |infos| ensures infos[p].filename != e.pdfFile {
        assert infos[p].filename in FileSet(init);
        var x :| x in init && x.pdfFile == infos[p].filename;
        var i :| 0 <= i < |init| && init[i] == x;
      }
    }
  }

  // ---------------------------------------------------------------------
  // occurrences to blocks, lines 146-151

  /** An entry of results[segment]: the document, its block, the offset inside the block, the ratio. */
  datatype Hit = Hit(file: string, block: Block, offset: int, ratio: real)

  datatype RelationError =
    | EngineFailed(error: EngineError)      // the ZeroDivisionError of find_exact_same_segments
    | MissingParagraph(paragraph: nat)      // text_infos[para_index] out of range
    | MissingBlock(paragraph: nat, start: int)  // metadata[position] with no such key

  /**
   * Lines 148-151: the block of an occurrence is the one starting at the
   * greatest offset not after the occurrence's start.
   */
  method MapOccurrence(infos: seq<TextInfo>, o: Occurrence) returns (r: Result<Hit, RelationError>)
    ensures r.Err? <==> o.paragraph >= |infos| || FloorOrMinusOne(infos[o.paragraph].starts, o.start) !in infos[o.paragraph].metadata
    ensures r.Ok? ==>
      var info, pos := infos[o.paragraph], o.start - r.value.offset;
      && pos == FloorOrMinusOne(info.starts, o.start)
      && (-1 !in info.metadata ==> Floor(info.starts, o.start) == Some(pos))
      && pos in info.metadata && r.value.block == info.metadata[pos]
      && r.value.file == info.filename && r.value.ratio == o.ratio
  {
    if o.paragraph >= |infos| {
      return Err(MissingParagraph(o.paragraph));
    }
    var info := infos[o.paragraph];
    var position := FindIndexByValue(info.starts, o.start);
    if position !in info.metadata {
      return Err(MissingBlock(o.paragraph, o.start));
    }
    r := Ok(Hit(info.filename, info.metadata[position], o.start - position, o.ratio));
  }

  /** An occurrence inside a non-empty text always finds its block. */
  lemma MapOccurrenceFinds(info: TextInfo, start: int)
    requires Layout(info.text, info.metadata, info.starts)
    requires |info.text| > 0 && 0 <= start
    ensures FloorOrMinusOne(info.starts, start) in info.metadata
  {
    assert 0 in info.starts;
  }
}
