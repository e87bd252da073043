/**
 * backend/app/utils/ssf.py, lines 110-163, find_exact_same_substrings
 * without the file reading and printing: run the engine over the documents'
 * texts, map each occurrence back to its block, and for every pair of
 * occurrences of a segment add each side's ratio to the ratio matrix and a
 * relation entry to the relation matrix, in both directions.
 */
module SsfRelations {
  import opened Wrappers
  import opened SsfCorpus
  import opened SsfEngine
  import opened SsfSelect
  import opened SsfBlocks
  import opened FindPosition

  /** (segment, block on this side, block on the other side, ratio on this side) */
  datatype Relation = Relation(segment: string, blockA: Block, blockB: Block, ratio: real)

  /**
   * matrix and relations. Both are seeded with every (row, column) pair of
   * documents before anything is added, so each dict of dicts is modelled as
   * one map keyed by (row, column).
   */
  datatype Tables = Tables(matrix: map<(string, string), real>, relations: map<(string, string), seq<Relation>>)

  /** Every ordered pair of the given documents. */
  ghost function Grid(files: set<string>): set<(string, string)>
  {
    Cross(files, files)
  }

  ghost predicate Seeded(files: set<string>, t: Tables)
  {
    forall a, b :: a in files && b in files ==> (a, b) in t.matrix && (a, b) in t.relations
  }

  function SumRatios(rs: seq<Relation>): real
  {
    if rs == [] then 0.0 else SumRatios(rs[..|rs| - 1]) + rs[|rs| - 1].ratio
  }

  /**
   * matrix[a][b] is the sum of the ratios recorded in relations[a][b], and
   * relations[a][b] and relations[b][a] hold equally many entries.
   */
  ghost predicate Balanced(files: set<string>, t: Tables)
  {
    Seeded(files, t) && forall a, b :: a in files && b in files ==>
      t.matrix[(a, b)] == SumRatios(t.relations[(a, b)]) && |t.relations[(a, b)]| == |t.relations[(b, a)]|
  }

  /** Nothing is recorded between a document and itself. */
  ghost predicate ZeroDiagonal(files: set<string>, t: Tables)
  {
    Seeded(files, t) && forall f :: f in files ==> t.matrix[(f, f)] == 0.0 && t.relations[(f, f)] == []
  }

  // ---------------------------------------------------------------------
  // seeding, lines 133-142

  /** The (row, column) pairs with the row from rows and the column from cols. */
  ghost function Cross(rows: set<string>, cols: set<string>): set<(string, string)>
  {
    set a, b | a in rows && b in cols :: (a, b)
  }

  lemma CrossAddRow(rows: set<string>, r: string, cols: set<string>)
    ensures Cross(rows + {r}, cols) == Cross(rows, cols) + Cross({r}, cols)
  {
  }

  lemma CrossAddColumn(r: string, cols: set<string>, c: string)
    ensures Cross({r}, cols + {c}) == Cross({r}, cols) + {(r, c)}
  {
  }

  lemma FileSetSnoc(entries: seq<PdfEntry>, i: nat)
    requires i < |entries|
    ensures FileSet(entries[..i + 1]) == FileSet(entries[..i]) + {entries[i].pdfFile}
  {
    assert entries[..i + 1] == entries[..i] + [entries[i]];
  }

  /** Lines 136-142: every ordered pair of documents starts at 0.0 and []. */
  method SeedTables(entries: seq<PdfEntry>) returns (t: Tables)
    ensures t.matrix.Keys == Grid(FileSet(entries)) && t.relations.Keys == Grid(FileSet(entries))
    ensures forall a, b :: a in FileSet(entries) && b in FileSet(entries) ==>
      t.matrix[(a, b)] == 0.0 && t.relations[(a, b)] == []
    ensures t == Seed(FileSet(entries))
  {
    var matrix: map<(string, string), real> := map[];
    var relations: map<(string, string), seq<Relation>> := map[];
    assert entries[..0] == [];
    for i := 0 to |entries|
      invariant matrix.Keys == relations.Keys == Cross(FileSet(entries[..i]), FileSet(entries))
      invariant forall k :: k in matrix ==> matrix[k] == 0.0 && relations[k] == []
    {
      var row := entries[i].pdfFile;
      ghost var rows := FileSet(entries[..i]);
      for j := 0 to |entries|
        invariant matrix.Keys == relations.Keys == Cross(rows, FileSet(entries)) + Cross({row}, FileSet(entries[..j]))
        invariant forall k :: k in matrix ==> matrix[k] == 0.0 && relations[k] == []
      {
        FileSetSnoc(entries, j);
        CrossAddColumn(row, FileSet(entries[..j]), entries[j].pdfFile);
        matrix := matrix[(row, entries[j].pdfFile) := 0.0];
        relations := relations[(row, entries[j].pdfFile) := []];
      }
      assert entries[..|entries|] == entries;
      FileSetSnoc(entries, i);
      CrossAddRow(rows, row, FileSet(entries));
    }
    assert entries[..|entries|] == entries;
    t := Tables(matrix, relations);
    assert t.matrix == Seed(FileSet(entries)).matrix && t.relations == Seed(FileSet(entries)).relations;
  }

  /** The tables of lines 136-142: every ordered pair of the documents at 0.0 and []. */
  ghost function Seed(files: set<string>): Tables
  {
    Tables(map k | k in Grid(files) :: 0.0, map k | k in Grid(files) :: [])
  }

  lemma SeedSeeded(files: set<string>)
    ensures Seeded(files, Seed(files))
  {
    forall a, b | a in files && b in files ensures (a, b) in Grid(files) {
    }
  }

  lemma SeededBalanced(files: set<string>, t: Tables)
    requires Seeded(files, t)
    requires forall a, b :: a in files && b in files ==> t.matrix[(a, b)] == 0.0 && t.relations[(a, b)] == []
    ensures Balanced(files, t) && ZeroDiagonal(files, t)
  {
  }

  // ---------------------------------------------------------------------
  // accumulation, lines 153-157

  /** The four updates of lines 154-157 for one pair of hits. */
  function RecordPair(t: Tables, segment: string, h1: Hit, h2: Hit): (r: Tables)
    requires (h1.file, h2.file) in t.matrix && (h2.file, h1.file) in t.matrix
    requires (h1.file, h2.file) in t.relations && (h2.file, h1.file) in t.relations
    ensures r.matrix.Keys == t.matrix.Keys && r.relations.Keys == t.relations.Keys
  {
    var ab, ba := (h1.file, h2.file), (h2.file, h1.file);
    var m1 := t.matrix[ab := t.matrix[ab] + h1.ratio];
    var r1 := t.relations[ab := t.relations[ab] + [Relation(segment, h1.block, h2.block, h1.ratio)]];
    Tables(m1[ba := m1[ba] + h2.ratio], r1[ba := r1[ba] + [Relation(segment, h2.block, h1.block, h2.ratio)]])
  }

  /** Both hits of every pair name documents of the list. */
  ghost predicate HitsIn(pairs: seq<(Hit, Hit)>, files: set<string>)
  {
    forall p :: p in pairs ==> p.0.file in files && p.1.file in files
  }

  /** The tables after recording the pairs in order. */
  function RecordAll(t: Tables, segment: string, pairs: seq<(Hit, Hit)>, ghost files: set<string>): (r: Tables)
    requires Seeded(files, t) && HitsIn(pairs, files)
    ensures Seeded(files, r)
  {
    if pairs == [] then t
    else
      var init, last := pairs[..|pairs| - 1], pairs[|pairs| - 1];
      assert last in pairs;
      assert forall p :: p in init ==> p in pairs;
      var before := RecordAll(t, segment, init, files);
      RecordPair(before, segment, last.0, last.1)
  }

  /** The pairs (hits[i], hits[j]) with j running over i+1 .. end-1. */
  function Row(hits: seq<Hit>, i: int, end: int): (r: seq<(Hit, Hit)>)
    requires 0 <= i < |hits| && i < end <= |hits|
    ensures |r| == end - i - 1 && forall k :: 0 <= k < |r| ==> r[k] == (hits[i], hits[i + 1 + k])
  {
    seq(end - i - 1, k requires 0 <= k < end - i - 1 => (hits[i], hits[i + 1 + k]))
  }

  /** The pairs of combinations(hits, 2) whose first element comes before position n. */
  function PairsBefore(hits: seq<Hit>, n: nat): seq<(Hit, Hit)>
    requires n <= |hits|
  {
    if n == 0 then [] else PairsBefore(hits, n - 1) + Row(hits, n - 1, |hits|)
  }

  /** combinations(hits, 2), in the order itertools produces them. */
  function Combinations(hits: seq<Hit>): seq<(Hit, Hit)>
  {
    PairsBefore(hits, |hits|)
  }

  /** Every pair (hits[a], hits[b]) with a < n and a < b is among the pairs before position n. */
  lemma {:induction false} PairsBeforeComplete(hits: seq<Hit>, n: nat)
    requires n <= |hits|
    ensures forall a, b :: 0 <= a < n && a < b < |hits| ==> (hits[a], hits[b]) in PairsBefore(hits, n)
  {
    if n > 0 {
      PairsBeforeComplete(hits, n - 1);
      var prev, row := PairsBefore(hits, n - 1), Row(hits, n - 1, |hits|);
      assert PairsBefore(hits, n) == prev + row;
      forall a, b | 0 <= a < n && a < b < |hits| ensures (hits[a], hits[b]) in prev + row {
        if a == n - 1 {
          assert row[b - n] == (hits[a], hits[b]);
        } else {
          assert (hits[a], hits[b]) in prev;
        }
      }
    }
  }

  /** Every pair before position n is (hits[a], hits[b]) for some a < b. */
  lemma {:induction false} PairsBeforeSound(hits: seq<Hit>, n: nat)
    requires n <= |hits|
    ensures forall p :: p in PairsBefore(hits, n) ==>
      exists a, b :: 0 <= a < b < |hits| && p.0 == hits[a] && p.1 == hits[b]
  {
    if n > 0 {
      PairsBeforeSound(hits, n - 1);
      var prev, row := PairsBefore(hits, n - 1), Row(hits, n - 1, |hits|);
      assert PairsBefore(hits, n) == prev + row;
      forall p: (Hit, Hit) | p in prev + row ensures exists a, b :: 0 <= a < b < |hits| && p.0 == hits[a] && p.1 == hits[b] {
        if p !in prev {
          var k :| 0 <= k < |row| && row[k] == p;
          assert p.0 == hits[n - 1] && p.1 == hits[n + k];
        }
      }
    }
  }

  lemma PairsBeforeHits(hits: seq<Hit>, n: nat, files: set<string>)
    requires n <= |hits| && forall h :: h in hits ==> h.file in files
    ensures HitsIn(PairsBefore(hits, n), files)
  {
    PairsBeforeSound(hits, n);
  }

  lemma RecordAllSnoc(t: Tables, segment: string, pairs: seq<(Hit, Hit)>, x: (Hit, Hit), files: set<string>)
    requires Seeded(files, t) && HitsIn(pairs + [x], files)
    ensures HitsIn(pairs, files) && x.0.file in files && x.1.file in files
    ensures RecordAll(t, segment, pairs + [x], files) == RecordPair(RecordAll(t, segment, pairs, files), segment, x.0, x.1)
  {
    var all := pairs + [x];
    assert all[..|all| - 1] == pairs && all[|all| - 1] == x;
    assert x in all;
    assert forall p :: p in pairs ==> p in all;
  }

  lemma RowSnoc(hits: seq<Hit>, i: int, j: int)
    requires 0 <= i < j < |hits|
    ensures Row(hits, i, j + 1) == Row(hits, i, j) + [(hits[i], hits[j])]
  {
    assert Row(hits, i, j + 1)[j - i - 1] == (hits[i], hits[j]);
  }

  /** Lines 154-157: the four in-place updates for one pair of hits. */
  method AddPair(matrix0: map<(string, string), real>, relations0: map<(string, string), seq<Relation>>,
                 segment: string, h1: Hit, h2: Hit)
    returns (matrix: map<(string, string), real>, relations: map<(string, string), seq<Relation>>)
    requires (h1.file, h2.file) in matrix0 && (h2.file, h1.file) in matrix0
    requires (h1.file, h2.file) in relations0 && (h2.file, h1.file) in relations0
    ensures Tables(matrix, relations) == RecordPair(Tables(matrix0, relations0), segment, h1, h2)
  {
    matrix, relations := matrix0, relations0;
    matrix := matrix[(h1.file, h2.file) := matrix[(h1.file, h2.file)] + h1.ratio];
    matrix := matrix[(h2.file, h1.file) := matrix[(h2.file, h1.file)] + h2.ratio];
    relations := relations[(h1.file, h2.file) :=
      relations[(h1.file, h2.file)] + [Relation(segment, h1.block, h2.block, h1.ratio)]];
    relations := relations[(h2.file, h1.file) :=
      relations[(h2.file, h1.file)] + [Relation(segment, h2.block, h1.block, h2.ratio)]];
  }

  /** The pairs of combinations(hits, 2) before (hits[i], hits[j]). */
  function Done(hits: seq<Hit>, i: int, j: int): seq<(Hit, Hit)>
    requires 0 <= i < j <= |hits|
  {
    PairsBefore(hits, i) + Row(hits, i, j)
  }

  lemma DoneBounds(hits: seq<Hit>, i: int)
    requires 0 <= i < |hits|
    ensures Done(hits, i, i + 1) == PairsBefore(hits, i)
    ensures Done(hits, i, |hits|) == PairsBefore(hits, i + 1)
  {
  }

  lemma DoneStep(t0: Tables, segment: string, hits: seq<Hit>, i: int, j: int, files: set<string>)
    requires 0 <= i < j < |hits| && Seeded(files, t0) && forall h :: h in hits ==> h.file in files
    requires HitsIn(Done(hits, i, j), files)
    ensures HitsIn(Done(hits, i, j + 1), files)
    ensures (hits[i].file, hits[j].file) in RecordAll(t0, segment, Done(hits, i, j), files).matrix
    ensures (hits[j].file, hits[i].file) in RecordAll(t0, segment, Done(hits, i, j), files).matrix
    ensures RecordAll(t0, segment, Done(hits, i, j + 1), files) ==
      RecordPair(RecordAll(t0, segment, Done(hits, i, j), files), segment, hits[i], hits[j])
  {
    RowSnoc(hits, i, j);
    assert Done(hits, i, j) + [(hits[i], hits[j])] == Done(hits, i, j + 1);
    assert hits[i] in hits && hits[j] in hits;
    RecordAllSnoc(t0, segment, Done(hits, i, j), (hits[i], hits[j]), files);
  }

  /** Lines 153-157 for the pairs whose first hit is hits[i]: the inner loop of combinations. */
  method RecordRow(matrix0: map<(string, string), real>, relations0: map<(string, string), seq<Relation>>,
                   ghost t0: Tables, segment: string, hits: seq<Hit>, i: nat, ghost files: set<string>)
    returns (matrix: map<(string, string), real>, relations: map<(string, string), seq<Relation>>)
    requires i < |hits| && Seeded(files, t0) && forall h :: h in hits ==> h.file in files
    requires HitsIn(PairsBefore(hits, i), files)
    requires Tables(matrix0, relations0) == RecordAll(t0, segment, PairsBefore(hits, i), files)
    ensures HitsIn(PairsBefore(hits, i + 1), files)
    ensures Tables(matrix, relations) == RecordAll(t0, segment, PairsBefore(hits, i + 1), files)
  {
    matrix, relations := matrix0, relations0;
    DoneBounds(hits, i);
    for j := i + 1 to |hits|
      invariant HitsIn(Done(hits, i, j), files)
      invariant Tables(matrix, relations) == RecordAll(t0, segment, Done(hits, i, j), files)
    {
      DoneStep(t0, segment, hits, i, j, files);
      matrix, relations := AddPair(matrix, relations, segment, hits[i], hits[j]);
    }
  }

  /** Lines 153-157: the nested iteration over combinations(hits, 2). */
  method RecordSegment(t0: Tables, segment: string, hits: seq<Hit>, ghost files: set<string>) returns (t: Tables)
    requires Seeded(files, t0) && forall h :: h in hits ==> h.file in files
    ensures HitsIn(Combinations(hits), files)
    ensures t == RecordAll(t0, segment, Combinations(hits), files)
  {
    var matrix, relations := t0.matrix, t0.relations;
    for i := 0 to |hits|
      invariant HitsIn(PairsBefore(hits, i), files)
      invariant Tables(matrix, relations) == RecordAll(t0, segment, PairsBefore(hits, i), files)
    {
      matrix, relations := RecordRow(matrix, relations, t0, segment, hits, i, files);
    }
    t := Tables(matrix, relations);
  }

  lemma SumRatiosSnoc(rs: seq<Relation>, e: Relation)
    ensures SumRatios(rs + [e]) == SumRatios(rs) + e.ratio
  {
    assert (rs + [e])[..|rs|] == rs;
  }

  /** Recording one pair keeps the matrix equal to the relation sums and the two directions equally long. */
  lemma RecordPairBalanced(files: set<string>, t: Tables, segment: string, h1: Hit, h2: Hit)
    requires Balanced(files, t) && h1.file in files && h2.file in files
    ensures Balanced(files, RecordPair(t, segment, h1, h2))
  {
    forall a, b | a in files && b in files
      ensures RecordPair(t, segment, h1, h2).matrix[(a, b)] == SumRatios(RecordPair(t, segment, h1, h2).relations[(a, b)])
      ensures |RecordPair(t, segment, h1, h2).relations[(a, b)]| == |RecordPair(t, segment, h1, h2).relations[(b, a)]|
    {
      RecordPairCell(files, t, segment, h1, h2, a, b);
    }
  }

  /** Cell (a, b) after recording one pair: its sum and its length against cell (b, a). */
  lemma RecordPairCell(files: set<string>, t: Tables, segment: string, h1: Hit, h2: Hit, a: string, b: string)
    requires Balanced(files, t) && h1.file in files && h2.file in files && a in files && b in files
    ensures RecordPair(t, segment, h1, h2).matrix[(a, b)] == SumRatios(RecordPair(t, segment, h1, h2).relations[(a, b)])
    ensures |RecordPair(t, segment, h1, h2).relations[(a, b)]| == |RecordPair(t, segment, h1, h2).relations[(b, a)]|
  {
    var r := RecordPair(t, segment, h1, h2);
    var e1 := Relation(segment, h1.block, h2.block, h1.ratio);
    var e2 := Relation(segment, h2.block, h1.block, h2.ratio);
    var f1, f2 := h1.file, h2.file;
    if (a, b) == (f1, f2) && f1 != f2 {
      assert r.relations[(a, b)] == t.relations[(a, b)] + [e1];
      assert r.relations[(b, a)] == t.relations[(b, a)] + [e2];
      SumRatiosSnoc(t.relations[(a, b)], e1);
    } else if (a, b) == (f2, f1) && f1 != f2 {
      assert r.relations[(a, b)] == t.relations[(a, b)] + [e2];
      assert r.relations[(b, a)] == t.relations[(b, a)] + [e1];
      SumRatiosSnoc(t.relations[(a, b)], e2);
    } else if a == b == f1 == f2 {
      var base := t.relations[(a, a)];
      assert r.relations[(a, a)] == base + [e1] + [e2];
      SumRatiosSnoc(base, e1);
      SumRatiosSnoc(base + [e1], e2);
    } else {
      assert r.relations[(a, b)] == t.relations[(a, b)];
      assert r.relations[(b, a)] == t.relations[(b, a)];
    }
  }

  lemma {:induction false} RecordAllBalanced(files: set<string>, t: Tables, segment: string, pairs: seq<(Hit, Hit)>)
    requires Balanced(files, t) && HitsIn(pairs, files)
    ensures Balanced(files, RecordAll(t, segment, pairs, files))
  {
    if pairs != [] {
      var init, last := pairs[..|pairs| - 1], pairs[|pairs| - 1];
      assert last in pairs;
      assert forall p :: p in init ==> p in pairs;
      RecordAllBalanced(files, t, segment, init);
      RecordPairBalanced(files, RecordAll(t, segment, init, files), segment, last.0, last.1);
    }
  }

  /** A pair between two different documents leaves the diagonal alone. */
  lemma RecordPairDiagonal(files: set<string>, t: Tables, segment: string, h1: Hit, h2: Hit)
    requires ZeroDiagonal(files, t) && h1.file in files && h2.file in files && h1.file != h2.file
    ensures ZeroDiagonal(files, RecordPair(t, segment, h1, h2))
  {
  }

  lemma {:induction false} RecordAllDiagonal(files: set<string>, t: Tables, segment: string, pairs: seq<(Hit, Hit)>)
    requires ZeroDiagonal(files, t) && HitsIn(pairs, files)
    requires forall p :: p in pairs ==> p.0.file != p.1.file
    ensures ZeroDiagonal(files, RecordAll(t, segment, pairs, files))
  {
    if pairs != [] {
      var init, last := pairs[..|pairs| - 1], pairs[|pairs| - 1];
      assert last in pairs;
      assert forall p :: p in init ==> p in pairs;
      RecordAllDiagonal(files, t, segment, init);
      RecordPairDiagonal(files, RecordAll(t, segment, init, files), segment, last.0, last.1);
    }
  }

  /** Hits in pairwise different documents make pairs between different documents. */
  lemma CombinationsAcross(hits: seq<Hit>)
    requires forall a, b :: 0 <= a < b < |hits| ==> hits[a].file != hits[b].file
    ensures forall p :: p in Combinations(hits) ==> p.0.file != p.1.file
  {
    PairsBeforeSound(hits, |hits|);
  }

  // ---------------------------------------------------------------------
  // find_exact_same_substrings

  /** An occurrence whose lookup on lines 148-151 fails: no text info, or no block at the floor offset. */
  ghost predicate Unmapped(infos: seq<TextInfo>, o: Occurrence)
  {
    o.paragraph >= |infos| || FloorOrMinusOne(infos[o.paragraph].starts, o.start) !in infos[o.paragraph].metadata
  }

  /** The entry lines 148-151 append for an occurrence that maps. */
  ghost function HitAt(infos: seq<TextInfo>, o: Occurrence): Hit
    requires !Unmapped(infos, o)
  {
    var info := infos[o.paragraph];
    var pos := FloorOrMinusOne(info.starts, o.start);
    Hit(info.filename, info.metadata[pos], o.start - pos, o.ratio)
  }

  /** Lines 146-151 for one segment: the hits of its occurrences, in order. */
  method MapOccurrences(infos: seq<TextInfo>, occurrences: seq<Occurrence>) returns (r: Result<seq<Hit>, RelationError>)
    ensures r.Err? <==> exists m :: 0 <= m < |occurrences| && Unmapped(infos, occurrences[m])
    ensures r.Ok? ==> |r.value| == |occurrences| && forall m :: 0 <= m < |occurrences| ==>
      !Unmapped(infos, occurrences[m]) && r.value[m] == HitAt(infos, occurrences[m])
  {
    var hits: seq<Hit> := [];
    for k := 0 to |occurrences|
      invariant |hits| == k
      invariant forall m :: 0 <= m < k ==> !Unmapped(infos, occurrences[m]) && hits[m] == HitAt(infos, occurrences[m])
    {
      var hit := MapOccurrence(infos, occurrences[k]);
      if hit.Err? {
        return Err(hit.error);
      }
      hits := hits + [hit.value];
    }
    r := Ok(hits);
  }

  /** Every text info is laid out as flattening promises and names one of the files. */
  ghost predicate LaidOut(infos: seq<TextInfo>, files: set<string>)
  {
    forall p :: 0 <= p < |infos| ==>
      Layout(infos[p].text, infos[p].metadata, infos[p].starts) && infos[p].filename in files
  }

  /**
   * An occurrence the engine reports always maps: its paragraph exists and
   * is not empty, so the block list has a block at offset 0.
   */
  lemma OccurrenceMaps(infos: seq<TextInfo>, files: set<string>, segment: string, o: Occurrence)
    requires LaidOut(infos, files) && OccursAt(Paragraphs(infos), segment, o)
    ensures !Unmapped(infos, o)
    ensures HitAt(infos, o).block.kind == "text" && HitAt(infos, o).file in files
  {
    MapOccurrenceFinds(infos[o.paragraph], o.start);
  }

  /** An entry of results[segment] is the hit of an occurrence of the segment the engine reported. */
  ghost predicate Located(infos: seq<TextInfo>, segment: string, h: Hit)
  {
    exists o :: OccursAt(Paragraphs(infos), segment, o) && !Unmapped(infos, o) && h == HitAt(infos, o)
  }

  /**
   * The returned dictionary: same_segments, with order listing its keys in
   * insertion order, and ratio_matrix and relation_matrix.
   */
  datatype Report = Report(results: map<string, seq<Hit>>, order: seq<string>, tables: Tables)

  /** The minimum segment length find_exact_same_substrings runs the engine with (the default of min_len). */
  const MinLen: nat := 4

  /** What the report promises about results: two located hits in "text" blocks for each segment. */
  ghost predicate ResultsFacts(infos: seq<TextInfo>, files: set<string>, results: map<string, seq<Hit>>)
  {
    forall s :: s in results ==>
      && |s| >= MinLen && |results[s]| == 2
      && forall m :: 0 <= m < 2 ==>
        Located(infos, s, results[s][m]) && results[s][m].block.kind == "text" && results[s][m].file in files
  }

  /** An occurrence that maps to a hit in a "text" block of one of the files. */
  ghost predicate Maps(infos: seq<TextInfo>, files: set<string>, o: Occurrence)
  {
    !Unmapped(infos, o) && HitAt(infos, o).block.kind == "text" && HitAt(infos, o).file in files
  }

  /** Lines 146-151 for one segment the engine reported: its two occurrences become two hits. */
  method SegmentHits(infos: seq<TextInfo>, ghost files: set<string>, occurrences: seq<Occurrence>)
    returns (hits: seq<Hit>)
    requires |occurrences| == 2 && occurrences[0].paragraph != occurrences[1].paragraph
    requires Maps(infos, files, occurrences[0]) && Maps(infos, files, occurrences[1])
    ensures |hits| == 2 && hits[0] == HitAt(infos, occurrences[0]) && hits[1] == HitAt(infos, occurrences[1])
    ensures (forall p, q :: 0 <= p < q < |infos| ==> infos[p].filename != infos[q].filename) ==> hits[0].file != hits[1].file
  {
    assert forall m :: 0 <= m < |occurrences| ==> !Unmapped(infos, occurrences[m]) by {
      forall m | 0 <= m < |occurrences| ensures !Unmapped(infos, occurrences[m]) {
        assert m == 0 || m == 1;
      }
    }
    var mapped := MapOccurrences(infos, occurrences);
    hits := mapped.value;
    assert hits[0] == HitAt(infos, occurrences[0]) && hits[1] == HitAt(infos, occurrences[1]);
  }

  /** What the engine promises about a segment table it returns, as far as lines 144-157 rely on it. */
  ghost predicate Reported(ps: seq<string>, segments: SegmentTable)
  {
    && WellFormed(segments)
    && forall k :: k in segments.occurrences ==>
      && |k| >= MinLen && |segments.occurrences[k]| == 2
      && segments.occurrences[k][0].paragraph != segments.occurrences[k][1].paragraph
      && OccursAt(ps, k, segments.occurrences[k][0]) && OccursAt(ps, k, segments.occurrences[k][1])
  }

  /** Every segment of the table has two occurrences in different paragraphs, each mapping to a hit. */
  ghost predicate AllMap(infos: seq<TextInfo>, files: set<string>, segments: SegmentTable)
  {
    && WellFormed(segments)
    && forall k :: k in segments.occurrences ==>
      && |segments.occurrences[k]| == 2
      && segments.occurrences[k][0].paragraph != segments.occurrences[k][1].paragraph
      && Maps(infos, files, segments.occurrences[k][0]) && Maps(infos, files, segments.occurrences[k][1])
  }

  /** The KeyError of line 151 cannot happen: every occurrence the engine reports maps. */
  lemma ReportedMaps(infos: seq<TextInfo>, files: set<string>, segments: SegmentTable)
    requires LaidOut(infos, files) && Reported(Paragraphs(infos), segments)
    ensures AllMap(infos, files, segments)
  {
    forall k, m | k in segments.occurrences && 0 <= m < 2
      ensures Maps(infos, files, segments.occurrences[k][m])
    {
      var o := segments.occurrences[k][m];
      assert OccursAt(Paragraphs(infos), k, o) by {
        assert m == 0 || m == 1;
      }
      OccurrenceMaps(infos, files, k, o);
    }
  }

  /** results[s] holds the hits of the two occurrences of s, in order. */
  ghost predicate HitsOfTable(infos: seq<TextInfo>, segments: SegmentTable, results: map<string, seq<Hit>>)
  {
    forall s :: s in results ==>
      && s in segments.occurrences && |segments.occurrences[s]| == 2 && |results[s]| == 2
      && !Unmapped(infos, segments.occurrences[s][0]) && results[s][0] == HitAt(infos, segments.occurrences[s][0])
      && !Unmapped(infos, segments.occurrences[s][1]) && results[s][1] == HitAt(infos, segments.occurrences[s][1])
  }

  lemma HitsOfTableUpdate(infos: seq<TextInfo>, segments: SegmentTable, results: map<string, seq<Hit>>,
                          segment: string, hits: seq<Hit>)
    requires HitsOfTable(infos, segments, results) && segment in segments.occurrences
    requires |segments.occurrences[segment]| == 2
    requires !Unmapped(infos, segments.occurrences[segment][0]) && !Unmapped(infos, segments.occurrences[segment][1])
    requires hits == [HitAt(infos, segments.occurrences[segment][0]), HitAt(infos, segments.occurrences[segment][1])]
    ensures HitsOfTable(infos, segments, results[segment := hits])
  {
  }

  /** Hits of reported occurrences are located, lie in "text" blocks and name one of the files. */
  lemma HitsLocated(infos: seq<TextInfo>, files: set<string>, segments: SegmentTable, results: map<string, seq<Hit>>)
    requires LaidOut(infos, files) && Reported(Paragraphs(infos), segments) && HitsOfTable(infos, segments, results)
    ensures ResultsFacts(infos, files, results)
  {
    forall s, m | s in results && 0 <= m < 2
      ensures Located(infos, s, results[s][m]) && results[s][m].block.kind == "text" && results[s][m].file in files
    {
      var o := segments.occurrences[s][m];
      assert OccursAt(Paragraphs(infos), s, o) && results[s][m] == HitAt(infos, o) by {
        assert m == 0 || m == 1;
      }
      OccurrenceMaps(infos, files, s, o);
    }
  }

  /** Lines 146-157 for one segment: its hits, then every pair of them recorded. */
  method RecordSegmentHits(infos: seq<TextInfo>, ghost files: set<string>, segment: string, occurrences: seq<Occurrence>,
                           t0: Tables)
    returns (hits: seq<Hit>, t: Tables)
    requires |occurrences| == 2 && occurrences[0].paragraph != occurrences[1].paragraph
    requires Maps(infos, files, occurrences[0]) && Maps(infos, files, occurrences[1])
    requires Seeded(files, t0)
    ensures hits == [HitAt(infos, occurrences[0]), HitAt(infos, occurrences[1])]
    ensures HitsIn(Combinations(hits), files) && t == RecordAll(t0, segment, Combinations(hits), files)
  {
    hits := SegmentHits(infos, files, occurrences);
    t := RecordSegment(t0, segment, hits, files);
  }

  /** Lines 145-157 for the i-th segment of the table: its hits go into the results and its pairs into the tables. */
  method RecordSegmentAt(infos: seq<TextInfo>, ghost files: set<string>, segments: SegmentTable, i: int,
                         results0: map<string, seq<Hit>>, t0: Tables, ghost seeded: Tables)
    returns (results: map<string, seq<Hit>>, t: Tables)
    requires AllMap(infos, files, segments) && Seeded(files, seeded) && 0 <= i < |segments.order|
    requires HitsOfTable(infos, segments, results0)
    requires t0 == RecordedUpTo(files, seeded, SegmentPairs(infos, files, segments), i)
    ensures results.Keys == results0.Keys + {segments.order[i]}
    ensures HitsOfTable(infos, segments, results)
    ensures t == RecordedUpTo(files, seeded, SegmentPairs(infos, files, segments), i + 1)
  {
    var segment := segments.order[i];
    assert segment in segments.occurrences;
    var hits;
    hits, t := RecordSegmentHits(infos, files, segment, segments.occurrences[segment], t0);
    HitsOfTableUpdate(infos, segments, results0, segment, hits);
    results := results0[segment := hits];
    CombinationsOfTwo(hits[0], hits[1]);
    assert hits == [hits[0], hits[1]];
    RecordAllOne(t0, segment, hits[0], hits[1], files);
  }

  /**
   * Lines 144-157: map every segment's occurrences to hits and record each
   * pair of hits. The tables stay balanced, and stay empty on the diagonal
   * when the documents have distinct names.
   */
  method RecordSegments(infos: seq<TextInfo>, ghost files: set<string>, segments: SegmentTable, seeded: Tables,
                        ghost distinct: bool)
    returns (results: map<string, seq<Hit>>, tables: Tables)
    requires AllMap(infos, files, segments)
    requires Balanced(files, seeded)
    requires distinct ==> ZeroDiagonal(files, seeded) && forall p, q :: 0 <= p < q < |infos| ==> infos[p].filename != infos[q].filename
    ensures Balanced(files, tables)
    ensures distinct ==> ZeroDiagonal(files, tables)
    ensures results.Keys == segments.occurrences.Keys
    ensures HitsOfTable(infos, segments, results)
    ensures tables == RecordedUpTo(files, seeded, SegmentPairs(infos, files, segments), |segments.order|)
  {
    results, tables := map[], seeded;
    for i := 0 to |segments.order|
      invariant results.Keys == KeysBefore(segments.order, i)
      invariant HitsOfTable(infos, segments, results)
      invariant tables == RecordedUpTo(files, seeded, SegmentPairs(infos, files, segments), i)
    {
      results, tables := RecordSegmentAt(infos, files, segments, i, results, tables, seeded);
    }
    KeysBeforeAll(segments);
    RecordedBalanced(files, seeded, SegmentPairs(infos, files, segments), |segments.order|);
    if distinct {
      SegmentPairsAcross(infos, files, segments);
      RecordedDiagonal(files, seeded, SegmentPairs(infos, files, segments), |segments.order|);
    }
  }

  // ---------------------------------------------------------------------
  // the tables as a function of the reported segments

  /** combinations of two hits is the one pair of them. */
  lemma CombinationsOfTwo(h1: Hit, h2: Hit)
    ensures Combinations([h1, h2]) == [(h1, h2)]
  {
    var hits := [h1, h2];
    assert PairsBefore(hits, 1) == [] + Row(hits, 0, 2);
    assert Row(hits, 1, 2) == [];
  }

  lemma RecordAllOne(t: Tables, segment: string, h1: Hit, h2: Hit, files: set<string>)
    requires Seeded(files, t) && h1.file in files && h2.file in files
    ensures HitsIn([(h1, h2)], files)
    ensures RecordAll(t, segment, [(h1, h2)], files) == RecordPair(t, segment, h1, h2)
  {
    assert [(h1, h2)][..0] == [];
  }

  /** A reported segment with the hits of its two occurrences. */
  datatype HitPair = HitPair(segment: string, first: Hit, second: Hit)

  /** Both hits of every pair name one of the files. */
  ghost predicate PairsIn(ps: seq<HitPair>, files: set<string>)
  {
    forall i :: 0 <= i < |ps| ==> ps[i].first.file in files && ps[i].second.file in files
  }

  /** The segments of the table in order, each with the hits its two occurrences map to. */
  ghost function SegmentPairs(infos: seq<TextInfo>, files: set<string>, segments: SegmentTable): (ps: seq<HitPair>)
    requires AllMap(infos, files, segments)
    ensures |ps| == |segments.order| && PairsIn(ps, files)
    ensures forall i :: 0 <= i < |ps| ==>
      && ps[i].segment == segments.order[i] && segments.order[i] in segments.occurrences
      && ps[i].first == HitAt(infos, segments.occurrences[segments.order[i]][0])
      && ps[i].second == HitAt(infos, segments.occurrences[segments.order[i]][1])
  {
    seq(|segments.order|, i requires 0 <= i < |segments.order| =>
      var s := segments.order[i];
      assert s in segments.occurrences;
      HitPair(s, HitAt(infos, segments.occurrences[s][0]), HitAt(infos, segments.occurrences[s][1])))
  }

  /** With distinct document names the two hits of every reported segment lie in different documents. */
  lemma SegmentPairsAcross(infos: seq<TextInfo>, files: set<string>, segments: SegmentTable)
    requires AllMap(infos, files, segments)
    requires forall p, q :: 0 <= p < q < |infos| ==> infos[p].filename != infos[q].filename
    ensures forall i :: 0 <= i < |segments.order| ==>
      SegmentPairs(infos, files, segments)[i].first.file != SegmentPairs(infos, files, segments)[i].second.file
  {
    var ps := SegmentPairs(infos, files, segments);
    forall i | 0 <= i < |ps| ensures ps[i].first.file != ps[i].second.file {
      var o1, o2 := segments.occurrences[segments.order[i]][0], segments.occurrences[segments.order[i]][1];
      if o1.paragraph > o2.paragraph {
        assert infos[o2.paragraph].filename != infos[o1.paragraph].filename;
      }
    }
  }

  /** The tables after the pairs ps[..n] have been recorded, one after the other, into t. */
  ghost function RecordedUpTo(files: set<string>, t: Tables, ps: seq<HitPair>, n: nat): (r: Tables)
    requires Seeded(files, t) && PairsIn(ps, files) && n <= |ps|
    ensures Seeded(files, r)
  {
    if n == 0 then t
    else RecordPair(RecordedUpTo(files, t, ps, n - 1), ps[n - 1].segment, ps[n - 1].first, ps[n - 1].second)
  }

  /** Recording the pairs keeps the matrix equal to the relation sums and the two directions equally long. */
  lemma {:induction false} RecordedBalanced(files: set<string>, t: Tables, ps: seq<HitPair>, n: nat)
    requires Balanced(files, t) && PairsIn(ps, files) && n <= |ps|
    ensures Balanced(files, RecordedUpTo(files, t, ps, n))
  {
    if n > 0 {
      RecordedBalanced(files, t, ps, n - 1);
      RecordPairBalanced(files, RecordedUpTo(files, t, ps, n - 1), ps[n - 1].segment, ps[n - 1].first, ps[n - 1].second);
    }
  }

  /** Pairs that each span two documents leave the diagonal empty. */
  lemma {:induction false} RecordedDiagonal(files: set<string>, t: Tables, ps: seq<HitPair>, n: nat)
    requires ZeroDiagonal(files, t) && PairsIn(ps, files) && n <= |ps|
    requires forall i :: 0 <= i < |ps| ==> ps[i].first.file != ps[i].second.file
    ensures ZeroDiagonal(files, RecordedUpTo(files, t, ps, n))
  {
    if n > 0 {
      RecordedDiagonal(files, t, ps, n - 1);
      RecordPairDiagonal(files, RecordedUpTo(files, t, ps, n - 1), ps[n - 1].segment, ps[n - 1].first, ps[n - 1].second);
    }
  }

  /** The relations pair p adds to cell (a, b): one per direction of it running from a to b. */
  function PairRelations(p: HitPair, a: string, b: string): seq<Relation>
  {
    (if (p.first.file, p.second.file) == (a, b) then [Relation(p.segment, p.first.block, p.second.block, p.first.ratio)] else [])
    + (if (p.second.file, p.first.file) == (a, b) then [Relation(p.segment, p.second.block, p.first.block, p.second.ratio)] else [])
  }

  /** Cell (a, b) built from the pair list alone: what ps[..n] contributes to it, in order. */
  function RelationsBetween(ps: seq<HitPair>, n: nat, a: string, b: string): seq<Relation>
    requires n <= |ps|
  {
    if n == 0 then [] else RelationsBetween(ps, n - 1, a, b) + PairRelations(ps[n - 1], a, b)
  }

  /** The number of pairs of ps[..n] with one hit in a and the other in b. */
  function PairsBetween(ps: seq<HitPair>, n: nat, a: string, b: string): nat
    requires n <= |ps|
  {
    if n == 0 then 0
    else
      var f1, f2 := ps[n - 1].first.file, ps[n - 1].second.file;
      PairsBetween(ps, n - 1, a, b) + if (f1 == a && f2 == b) || (f1 == b && f2 == a) then 1 else 0
  }

  /** Recording one pair appends to cell (a, b) exactly the relations of that pair running from a to b. */
  lemma RecordPairRelations(t: Tables, p: HitPair, a: string, b: string)
    requires (p.first.file, p.second.file) in t.matrix && (p.second.file, p.first.file) in t.matrix
    requires (p.first.file, p.second.file) in t.relations && (p.second.file, p.first.file) in t.relations
    requires (a, b) in t.relations
    ensures RecordPair(t, p.segment, p.first, p.second).relations[(a, b)] == t.relations[(a, b)] + PairRelations(p, a, b)
  {
    var e1 := Relation(p.segment, p.first.block, p.second.block, p.first.ratio);
    var e2 := Relation(p.segment, p.second.block, p.first.block, p.second.ratio);
    if (p.first.file, p.second.file) == (a, b) && (p.second.file, p.first.file) == (a, b) {
      assert RecordPair(t, p.segment, p.first, p.second).relations[(a, b)] == t.relations[(a, b)] + [e1] + [e2];
    }
  }

  /**
   * Cell (a, b) after the tables record ps[..n]: what it held, followed by
   * one relation for every direction of a pair that runs from a to b, in
   * the order of the pairs.
   */
  lemma {:induction false} RecordedRelations(files: set<string>, t: Tables, ps: seq<HitPair>, n: nat, a: string, b: string)
    requires Seeded(files, t) && PairsIn(ps, files) && n <= |ps| && a in files && b in files
    ensures RecordedUpTo(files, t, ps, n).relations[(a, b)] == t.relations[(a, b)] + RelationsBetween(ps, n, a, b)
  {
    if n > 0 {
      RecordedRelations(files, t, ps, n - 1, a, b);
      var before, p := RecordedUpTo(files, t, ps, n - 1), ps[n - 1];
      assert p.first.file in files && p.second.file in files;
      RecordPairRelations(before, p, a, b);
      assert RecordedUpTo(files, t, ps, n) == RecordPair(before, p.segment, p.first, p.second);
      var cell, earlier, added := t.relations[(a, b)], RelationsBetween(ps, n - 1, a, b), PairRelations(p, a, b);
      assert RelationsBetween(ps, n, a, b) == earlier + added;
      assert cell + earlier + added == cell + (earlier + added);
    }
  }

  /** Off the diagonal, cell (a, b) gains one relation per pair with one hit in a and the other in b. */
  lemma {:induction false} RelationsBetweenCount(ps: seq<HitPair>, n: nat, a: string, b: string)
    requires n <= |ps| && a != b
    ensures |RelationsBetween(ps, n, a, b)| == PairsBetween(ps, n, a, b)
  {
    if n > 0 {
      RelationsBetweenCount(ps, n - 1, a, b);
    }
  }

  /**
   * Starting from the seeded tables, relation_matrix[a][b] is exactly the
   * list of relations the reported segments contribute to it, and off the
   * diagonal it holds one entry per segment found in both documents.
   */
  lemma ReportedRelations(files: set<string>, ps: seq<HitPair>, a: string, b: string)
    requires PairsIn(ps, files) && a in files && b in files
    ensures Seeded(files, Seed(files))
    ensures var t := RecordedUpTo(files, Seed(files), ps, |ps|);
      && t.relations[(a, b)] == RelationsBetween(ps, |ps|, a, b)
      && (a != b ==> |t.relations[(a, b)]| == PairsBetween(ps, |ps|, a, b))
  {
    SeedSeeded(files);
    RecordedRelations(files, Seed(files), ps, |ps|, a, b);
    assert (a, b) in Grid(files);
    if a != b {
      RelationsBetweenCount(ps, |ps|, a, b);
    }
  }

  /** The segments among the first n of the order. */
  ghost function KeysBefore(order: seq<string>, n: nat): set<string>
    requires n <= |order|
  {
    if n == 0 then {} else KeysBefore(order, n - 1) + {order[n - 1]}
  }

  lemma {:induction false} KeysBeforeIn(order: seq<string>, n: nat)
    requires n <= |order|
    ensures forall k :: k in KeysBefore(order, n) <==> k in order[..n]
  {
    if n > 0 {
      KeysBeforeIn(order, n - 1);
      assert order[..n] == order[..n - 1] + [order[n - 1]];
    }
  }

  lemma KeysBeforeAll(segments: SegmentTable)
    requires WellFormed(segments)
    ensures KeysBefore(segments.order, |segments.order|) == segments.occurrences.Keys
  {
    KeysBeforeIn(segments.order, |segments.order|);
    assert segments.order[..|segments.order|] == segments.order;
  }

  /**
   * Lines 110-163. The run fails only when the engine does; otherwise the
   * matrices stay balanced, stay empty on the diagonal when the documents
   * have distinct names, and every segment the engine reports maps to two
   * hits located at occurrences of it in "text" blocks.
   */
  method FindExactSameSubstrings(entries: seq<PdfEntry>) returns (r: Result<Report, RelationError>)
    ensures r.Err? <==>
      && |Paragraphs(TextInfosOf(entries))| >= 2
      && exists i :: LongPair(Paragraphs(TextInfosOf(entries)), MinLen, i) && TouchesEmpty(Paragraphs(TextInfosOf(entries)), i)
    ensures r.Ok? ==> Balanced(FileSet(entries), r.value.tables)
    ensures r.Ok? && DistinctFiles(entries) ==> ZeroDiagonal(FileSet(entries), r.value.tables)
    ensures r.Ok? ==> ResultsFacts(TextInfosOf(entries), FileSet(entries), r.value.results)
    ensures r.Ok? ==>
      var found := ExactSameSegments(Paragraphs(TextInfosOf(entries)), MinLen);
      && found.Ok?
      && AllMap(TextInfosOf(entries), FileSet(entries), found.value)
      && r.value.order == found.value.order
      && r.value.results.Keys == found.value.occurrences.Keys
      && HitsOfTable(TextInfosOf(entries), found.value, r.value.results)
      && Seeded(FileSet(entries), Seed(FileSet(entries)))
      && r.value.tables == RecordedUpTo(FileSet(entries), Seed(FileSet(entries)),
           SegmentPairs(TextInfosOf(entries), FileSet(entries), found.value), |found.value.order|)
  {
    var infos := BuildTextInfos(entries);
    var paragraphs := Paragraphs(infos);
    var found := FindExactSameSegments(paragraphs, MinLen);
    if found.Err? {
      return Err(EngineFailed(found.error));
    }
    var segments := found.value;
    ghost var files := FileSet(entries);
    TextInfosFacts(entries);
    assert LaidOut(infos, files);
    assert Reported(paragraphs, segments);
    ReportedMaps(infos, files, segments);
    if DistinctFiles(entries) {
      TextInfosDistinct(entries);
    }
    var tables := SeedTables(entries);
    SeededBalanced(files, tables);
    var results;
    results, tables := RecordSegments(infos, files, segments, tables, DistinctFiles(entries));
    HitsLocated(infos, files, segments, results);
    r := Ok(Report(results, segments.order, tables));
  }
}
