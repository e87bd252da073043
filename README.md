# woodpecker — a verified model of the duplicate-text core

woodpecker looks for text that several documents share. The backend has three parts:

- It walks an upload folder for PDF files (`file_man.py`).
- It sends each PDF to an outside scanning service. A background loop then polls the service and keeps one status record per document (`scaner.py`).
- It finds the maximal segments that appear in the text of two or more scanned documents. Each occurrence is mapped back to the text block of the sidecar JSON file it sits in. Per-document ratios are added up in a pair matrix (`ssf.py`, which uses `find_position.py` for the block lookup).

`pdf_show.py` keeps a small cache of open PDF documents and chooses the page and boxes to highlight. `src/checker.py` is a standalone checker for Word documents. It indexes the 5-word n-grams of each document, keeps the n-grams found in more than one document, and fills a pairwise overlap matrix.

The model has one Dafny module per source file. The large files are split by stage.

| Dafny file | module | models |
|---|---|---|
| `wrappers.dfy` | `Wrappers` | `Option` and `Result` |
| `sorting.dfy` | `Sorting` | Python's stable `sorted`/`list.sort` with a key, as an insertion sort |
| `find_position.dfy` | `FindPosition` | `find_index_by_value`: the greatest element not above the target, or -1 |
| `file_man.dfy` | `FileMan` | `collect_pdf_files` over a given walk of the folder, and the sidecar name |
| `scaner.dfy` | `Scaner` | the `FileStatus` class, the per-record transition of `scan_loop`, `get_scan_status`, `start_scan` |
| `ssf_corpus.dfy` | `SsfCorpus` | the combined text and the paragraph of each offset |
| `ssf_engine.dfy` | `SsfEngine` | the suffix order, the LCP array and the candidate pairs of `find_exact_same_segments` |
| `ssf_select.dfy` | `SsfSelect` | the longest-first selection of maximal segments, the de-duplication and the final filter |
| `ssf_blocks.dfy` | `SsfBlocks` | flattening sidecar blocks into a text with block offsets, and mapping an occurrence to its block |
| `ssf_relations.dfy` | `SsfRelations` | `find_exact_same_substrings`: seeding, mapping and adding up the ratio and relation tables |
| `pdf_show.dfy` | `PdfShow` | the `PdfCache` class and the page and box choice of `render_image` |
| `checker_ngrams.dfy` | `CheckerNgrams` | `get_ngrams` with `str.split` |
| `checker_index.dfy` | `CheckerIndex` | `create_index` (SortedList buckets) and `find_identical_ngrams` |
| `checker_overlap.dfy` | `CheckerOverlap` | `calculate_pairwise_overlap` on an `array2<real>` |

Each loop in the source is a `method` with a `while`/`for` loop. Its `ensures` ties the result to a specification function on the input, for example `FindIndexByValue` against `Floor`, `CollectCandidates` against `CandidatesUpTo`, and `FillOverlap` against `Cell`. The properties are then proved as lemmas about those functions.

The two objects the source updates in place are classes:

- `Scaner.FileStatus`: `records` is the `file_status` dict, and `order` is the insertion order of its keys.
- `PdfShow.PdfCache`: `cache` and `keys`.

Some behaviours of the source are made explicit in the model. Each is proved:

- **The ratio matrix holds exactly the listed relations.** `FindExactSameSubstrings` proves that the tables are the seeded tables with every reported segment's pair recorded in order. Every ratio-matrix cell equals the sum of the ratios in the relation cell of the same pair. Each pair cell and its mirror hold the same number of relations. No document is related to itself when the file names are distinct. `ReportedRelations` reads one relation cell off the segment list alone: off the diagonal it holds one relation per segment found in both documents.
- **The result has no nested keys.** `FindExactSameSegments` proves the following:
  - Every reported segment has exactly two occurrences, which are in different paragraphs.
  - No reported segment is a proper substring of another.
  - Every adjacent suffix pair from different paragraphs with a common prefix of length `min_len` or more is covered by some reported segment.
- **An empty paragraph can raise.** An empty paragraph raises `ZeroDivisionError` at `ssf.py:54`/`:58` exactly when a long enough common prefix starts in it. The prefix can run across the separator `chr(1)`, for example when the empty paragraph is next to one that begins with the same text. The model returns `Err` in exactly that case (`CandidatesErr`).
- **The cache holds nine documents.** `PdfCache.update_cache` evicts only when more than `MAX_NUM` keys are held. So the cache behaves as a least-recently-used cache of `MAX_NUM + 1 = 9` documents (`KeysAfterIsLru`).
- **An upper-case `.PDF` is its own sidecar.** `collect_pdf_files` accepts `.PDF` names. But `str.replace(".pdf", ".pdf.json")` is case-sensitive, so such a file is paired with itself as its sidecar (`UpperCaseSidecarIsThePdf`). The scanner then sees its "sidecar" as already present.
- **`calculate_pairwise_overlap` ignores the second document's share.** It puts `len(doc_positions[doc1])` in every cell of the row pair `(doc1, doc2)`. That count covers all of doc1's n-grams that are shared with any document. `UnrelatedPairOverlaps` shows two documents with no n-gram in common getting an overlap of 100.
- **`FileStatus.collect` writes through the global.** It sets `progress = 100` through the global `g_file_status` rather than `self` (`scaner.py:38`). The only instance is the global, so the model writes to the object's own table.

## Model

| member | source | states |
|---|---|---|
| `Sorting.SortBy` | backend/app/utils/ssf.py:38 | sorting by a key returns a permutation of the input, sorted by the key |
| `Sorting.SortByKeepsTies` | backend/app/utils/ssf.py:38 | the sort is stable: offsets in increasing order with equal keys stay in increasing order |
| `Sorting.SortByStable` | backend/app/utils/ssf.py:69 | the sort is stable for any key: for every key value, the elements with that key come out in the order they went in |
| `Sorting.InsertBySorted` | backend/app/utils/ssf.py:69 | inserting into a key-sorted list keeps it sorted (the step of the stable length sort of candidates) |
| `FindPosition.Floor` | backend/app/utils/find_position.py:1-31 | None exactly when every element is above the target; otherwise an element not above the target and at least every such element |
| `FindPosition.FindIndexByValue` | backend/app/utils/find_position.py:1-31 | the sort plus binary search returns the greatest element not above the target, or -1 when there is none (including the empty list) |
| `FindPosition.FloorOfPermutation` | backend/app/utils/find_position.py:3-5 | sorting the (index, value) pairs does not change the answer: the floor depends only on the multiset of values |
| `FindPosition.AscendingFloorAt` | backend/app/utils/find_position.py:20-21 | in an ascending list, an element not above the target whose successor is above it is the floor |
| `FindPosition.AscendingNoFloor` | backend/app/utils/find_position.py:8-9 | in an ascending list whose first element is above the target (or which is empty) there is no floor |
| `FindPosition.ExampleRun` | backend/app/utils/find_position.py:34-41 | the example run on [4, 0, 9, 10] gives 4, 0, 10, -1, 4, 0 for 7, 0, 11, -1, 8, 3 |
| `FileMan.PdfNameAnyCase` | backend/app/utils/file_man.py:39 | a name is collected exactly when it ends in ".pdf" with each of p, d and f in either case |
| `FileMan.NoPdfUnchanged` | backend/app/utils/file_man.py:41 | a path without ".pdf" is its own replacement |
| `FileMan.SuffixOnlyAddsJson` | backend/app/utils/file_man.py:41 | a path whose only ".pdf" is its suffix gets the sidecar path + ".json" |
| `FileMan.UpperCaseSidecarIsThePdf` | backend/app/utils/file_man.py:39-41 | a ".PDF" file is accepted and, with no lower-case ".pdf" in its path, its sidecar is the PDF itself |
| `FileMan.CollectPdfFiles` | backend/app/utils/file_man.py:35-43 | the walk loop returns the (path, sidecar) pairs of the PDF names, directory by directory, in walk order |
| `FileMan.PdfPairsAre` | backend/app/utils/file_man.py:35-43 | a pair is collected exactly when some walked directory holds a PDF name that produces it |
| `FileMan.DirPairsAre` | backend/app/utils/file_man.py:38-42 | within one directory a pair is collected exactly when a PDF name of the directory produces it |
| `FileMan.DirPairsCount` | backend/app/utils/file_man.py:38-42 | one directory contributes exactly as many pairs as it has PDF names |
| `Scaner.BasenameIsLastComponent` | backend/app/utils/scaner.py:23 | `os.path.basename` is the slash-free tail of the path after its last '/' |
| `Scaner.BasenameOfName` | backend/app/utils/scaner.py:68 | the basename of a slash-free name is the name (the report's second basename changes nothing) |
| `Scaner.Discovered` | backend/app/utils/scaner.py:22-38 | a collected record is completed with progress 100 when its sidecar exists, pending with progress 0 otherwise, without a scan key |
| `Scaner.CollectedPaths` | backend/app/utils/scaner.py:21-22 | the table holds a record exactly for every collected PDF path |
| `Scaner.CollectedLastWins` | backend/app/utils/scaner.py:21-38 | for a path listed twice, the record comes from its last listing |
| `Scaner.FirstSeenKeys` | backend/app/utils/scaner.py:19-22 | the dict's key order lists each key once, and exactly the keys of the table |
| `Scaner.CollectedWellFormed` | backend/app/utils/scaner.py:22-38 | every collected record is well formed: progress never negative, 0 while pending, 100 once completed, name the basename of its path |
| `Scaner.FileStatus.constructor` | backend/app/utils/scaner.py:13-15 | a new status table is empty |
| `Scaner.FileStatus.Collect` | backend/app/utils/scaner.py:17-38 | collect replaces the table by the records of the collected pairs, in first-seen key order |
| `Scaner.FileStatus.Keys` | backend/app/utils/scaner.py:83 | the snapshot of keys is the key order: distinct and exactly the table's keys |
| `Scaner.ProgressPercent` | backend/app/utils/scaner.py:119-128 | with a positive total, progress is the floor of 100·page/total for the clamped page; 0 otherwise |
| `Scaner.ProgressAtMost100` | backend/app/utils/scaner.py:125-126 | progress stays at most 100 while page does not exceed total, and reaches 100 once it does |
| `Scaner.Transition` | backend/app/utils/scaner.py:90-151 | one visit keeps name, path and sidecar, never touches a completed record, never drops a scan key, and keeps a record well formed |
| `Scaner.SidecarCompletes` | backend/app/utils/scaner.py:93-98 | an unfinished record whose sidecar exists becomes completed with progress 100 |
| `Scaner.SubmitLeavesPending` | backend/app/utils/scaner.py:99-109 | an accepted submit stores the result path and leaves the record pending at 0; a refused or missing job changes nothing |
| `Scaner.StartedProgress` | backend/app/utils/scaner.py:114-133 | a started poll sets progressing with the stage message and the percentage of the clamped page; no stage gives the unknown-stage message |
| `Scaner.FinishedCompletes` | backend/app/utils/scaner.py:134-145 | a finished poll completes the record with "扫描完成！" at 100, keeping its scan key |
| `Scaner.OtherStatusKeeps` | backend/app/utils/scaner.py:113-151 | a poll whose status is none of started, finished and failed leaves the record unchanged |
| `Scaner.FailedKeepsProgress` | backend/app/utils/scaner.py:147-151 | a failed poll sets error with the service's message and keeps progress and scan key |
| `Scaner.ErrorIsPolledAgain` | backend/app/utils/scaner.py:110-151 | a record in error with a scan key is polled again and can still progress, complete or fail |
| `Scaner.FileStatus.Step` | backend/app/utils/scaner.py:87-151 | a visit ends the pass exactly when the key has left the table; otherwise it replaces that one record by its transition |
| `Scaner.FileStatus.ScanPass` | backend/app/utils/scaner.py:85-151 | one pass over a key snapshot leaves the table equal to the pass function of the old table |
| `Scaner.PassPreserves` | backend/app/utils/scaner.py:86-151 | a pass keeps the key set, completed records and scan keys, and well-formedness |
| `Scaner.PassVisitsAll` | backend/app/utils/scaner.py:86-151 | over distinct keys, each listed record ends as its own transition |
| `Scaner.PassUntouched` | backend/app/utils/scaner.py:86-151 | a record whose key is not in the snapshot is left alone |
| `Scaner.Report` | backend/app/utils/scaner.py:64-77 | the report lists every record's view in order; partial_done iff two are completed; all_done iff all are |
| `Scaner.CompletedCountAboveOne` | backend/app/utils/scaner.py:72-75 | sum(status) > 1 exactly when two distinct listed records are completed |
| `Scaner.AllCompletedByKeys` | backend/app/utils/scaner.py:76 | all(status) over the values is the same as every record being completed |
| `Scaner.ViewKeepsName` | backend/app/utils/scaner.py:67-71 | a well-formed record's view shows its name, status and progress unchanged |
| `Scaner.FileStatus.GetScanStatus` | backend/app/utils/scaner.py:55-77 | get_scan_status reports every record in key order, partial_done iff two are completed, all_done iff every record is |
| `Scaner.ScanWorker.StartScan` | backend/app/utils/scaner.py:49-52 | the loop is launched exactly when it was not started before, and it is started afterwards |
| `SsfCorpus.CorpusLength` | backend/app/utils/ssf.py:31-36 | the combined text and the owner list both have the summed length of the paragraphs plus one separator each |
| `SsfCorpus.CorpusAt` | backend/app/utils/ssf.py:34-35 | offset j of paragraph k in the combined text holds the paragraph's character, or the separator at its end |
| `SsfCorpus.OwnerAt` | backend/app/utils/ssf.py:36 | every offset is owned by a paragraph and lies within that paragraph's span including its separator |
| `SsfCorpus.BuildCorpus` | backend/app/utils/ssf.py:31-36 | the loop builds the combined text and the owner list of all paragraphs |
| `SsfEngine.LcpFacts` | backend/app/utils/ssf.py:100-107 | the common prefix length gives equal slices and stops at the end of the text or at the first mismatch |
| `SsfEngine.LongestCommonPrefixLength` | backend/app/utils/ssf.py:100-107 | the loop returns the longest common prefix length of the two suffixes |
| `SsfEngine.SuffixOrderIsCharThenOffset` | backend/app/utils/ssf.py:38 | sorting offsets by their single character is a permutation ordered by (character, offset) |
| `SsfEngine.BuildLcpArray` | backend/app/utils/ssf.py:40-44 | entry 0 is 0 and entry i is the common prefix length of the suffixes at sa[i-1] and sa[i] |
| `SsfEngine.PairCandidateValid` | backend/app/utils/ssf.py:47-63 | a long pair across two non-empty paragraphs gives a segment of at least min_len that occurs at both reported (paragraph, start, ratio) |
| `SsfEngine.CollectPair` | backend/app/utils/ssf.py:48-63 | one pair appends its candidate, skips, or fails on an empty paragraph, as the pair outcome says |
| `SsfEngine.CollectCandidates` | backend/app/utils/ssf.py:46-63 | the loop returns the candidate list of all adjacent pairs |
| `SsfEngine.CandidatesErr` | backend/app/utils/ssf.py:47-58 | collection fails exactly when some long pair touches an empty paragraph (ZeroDivisionError) |
| `SsfEngine.CandidatesValid` | backend/app/utils/ssf.py:47-63 | every collected candidate is long enough and occurs at both of its occurrences |
| `SsfEngine.CandidatesFrom` | backend/app/utils/ssf.py:47-63 | every collected candidate comes from a long pair across two paragraphs |
| `SsfEngine.CandidatesCover` | backend/app/utils/ssf.py:47-63 | every long pair across two paragraphs is collected |
| `SsfSelect.MarkSubstrings` | backend/app/utils/ssf.py:82-85 | the double loop adds exactly the non-empty proper substrings of the segment |
| `SsfSelect.ProperSubstringsAre` | backend/app/utils/ssf.py:83-85 | the marked strings are exactly the non-empty proper substrings |
| `SsfSelect.SelectStep` | backend/app/utils/ssf.py:71-85 | a processed segment is skipped; otherwise it becomes a key and it and its substrings are marked |
| `SsfSelect.SelectProcessed` | backend/app/utils/ssf.py:66-85 | the processed set is exactly the keys and their proper substrings |
| `SsfSelect.SelectSeen` | backend/app/utils/ssf.py:71-85 | every visited segment ends up processed |
| `SsfSelect.SelectFirst` | backend/app/utils/ssf.py:71-80 | each key holds exactly the two occurrences of the first candidate with that segment |
| `SsfSelect.RankedStable` | backend/app/utils/ssf.py:69 | for every length, the sorted candidates of that length are the collected candidates of that length, in collection order |
| `SsfSelect.SortedFirstIsCollectedFirst` | backend/app/utils/ssf.py:69-73 | the first candidate with a segment after the stable length sort is the first candidate with that segment as collected |
| `SsfSelect.SelectedIsFirst` | backend/app/utils/ssf.py:65-80 | each key of the selected table holds the two occurrences of the first candidate with that segment, both in the longest-first order and in the order the candidates were collected |
| `SsfSelect.SelectMaximalKeys` | backend/app/utils/ssf.py:65-85 | with candidates longest first, no key is a proper substring of another |
| `SsfSelect.SelectCovers` | backend/app/utils/ssf.py:71-85 | every candidate segment is a substring of some key |
| `SsfSelect.SelectMaximal` | backend/app/utils/ssf.py:65-85 | the selection loop returns the keys in insertion order with their occurrences, as the selection function says |
| `SsfSelect.SeenPositionsAre` | backend/app/utils/ssf.py:90-94 | the seen set holds exactly the (paragraph, start) of the occurrences |
| `SsfSelect.UniqueOccurrencesFrom` | backend/app/utils/ssf.py:88-95 | de-duplication keeps only given occurrences and loses no (paragraph, start) |
| `SsfSelect.UniqueOccurrencesDistinct` | backend/app/utils/ssf.py:88-95 | after de-duplication no two occurrences share a (paragraph, start) |
| `SsfSelect.UniqueOfDistinct` | backend/app/utils/ssf.py:88-95 | occurrences with distinct positions are kept as they are |
| `SsfSelect.RemoveDuplicateOccurrences` | backend/app/utils/ssf.py:89-95 | the loop keeps the first occurrence of each (paragraph, start), in order |
| `SsfSelect.DeduplicateTable` | backend/app/utils/ssf.py:88-95 | every key's list is de-duplicated; keys and order are kept |
| `SsfSelect.RepeatedKeys` | backend/app/utils/ssf.py:97 | a key is kept exactly when it has more than one occurrence |
| `SsfSelect.KeepRepeatedAll` | backend/app/utils/ssf.py:97 | when every key has two or more occurrences the filter changes nothing |
| `SsfSelect.SelectedFacts` | backend/app/utils/ssf.py:65-97 | the selected table: two occurrences per key in two paragraphs, no key inside another, every long cross pair covered |
| `SsfSelect.FindExactSameSegments` | backend/app/utils/ssf.py:9-97 | the result is the selection over the sorted candidates (`ExactSameSegments`), de-duplication and the repeat filter changing nothing; fewer than two paragraphs give {}; failure iff a long pair touches an empty paragraph; otherwise maximal segments of at least min_len, each occurring at both reported positions in two paragraphs, covering every long cross pair |
| `SsfBlocks.FlattenBlocks` | backend/app/utils/ssf.py:118-124 | the block loop returns the flattened text, metadata and key order |
| `SsfBlocks.FlattenLayout` | backend/app/utils/ssf.py:118-124 | the metadata keys ascend, each maps to a text block sitting at that offset of the text, and a non-empty text has a block at 0 |
| `SsfBlocks.BuildTextInfos` | backend/app/utils/ssf.py:113-129 | the loop keeps one text info per document whose sidecar exists, in order |
| `SsfBlocks.TextInfosFacts` | backend/app/utils/ssf.py:113-129 | every text info is laid out as above and names a collected PDF |
| `SsfBlocks.TextInfosDistinct` | backend/app/utils/ssf.py:113-129 | distinct PDF paths give text infos with distinct file names |
| `SsfBlocks.MapOccurrence` | backend/app/utils/ssf.py:148-151 | an occurrence maps to the block at the greatest block offset not after its start, with offset and ratio; failure iff the paragraph or that block is missing |
| `SsfBlocks.MapOccurrenceFinds` | backend/app/utils/ssf.py:148-151 | in a non-empty text every non-negative start finds its block |
| `SsfRelations.SeedTables` | backend/app/utils/ssf.py:136-142 | every pair of collected PDFs starts at ratio 0.0 with no relations, and no other pair is present (the tables `Seed`) |
| `SsfRelations.SeededBalanced` | backend/app/utils/ssf.py:136-142 | the seeded tables are balanced and have a zero diagonal |
| `SsfRelations.PairsBeforeComplete` | backend/app/utils/ssf.py:153 | every (a, b) with a < b is among the combinations |
| `SsfRelations.PairsBeforeSound` | backend/app/utils/ssf.py:153 | every combination is some (hits[a], hits[b]) with a < b |
| `SsfRelations.AddPair` | backend/app/utils/ssf.py:154-157 | one combination adds each side's ratio to its cell and appends each side's relation |
| `SsfRelations.RecordSegment` | backend/app/utils/ssf.py:153-157 | the combinations loop records every pair of the segment's hits, in order |
| `SsfRelations.RecordPairBalanced` | backend/app/utils/ssf.py:154-157 | one recorded pair keeps every cell equal to the ratio sum of its relations, and mirrored cells of equal length |
| `SsfRelations.RecordAllBalanced` | backend/app/utils/ssf.py:153-157 | recording any list of pairs keeps the tables balanced |
| `SsfRelations.RecordAllDiagonal` | backend/app/utils/ssf.py:153-157 | pairs of different files never touch the diagonal |
| `SsfRelations.CombinationsAcross` | backend/app/utils/ssf.py:153 | hits of pairwise different files give combinations of different files |
| `SsfRelations.MapOccurrences` | backend/app/utils/ssf.py:146-151 | all occurrences of a segment map to their hits in order; failure iff one of them cannot be mapped |
| `SsfRelations.OccurrenceMaps` | backend/app/utils/ssf.py:146-151 | an occurrence of a reported segment always maps to a text block of a collected PDF |
| `SsfRelations.CombinationsOfTwo` | backend/app/utils/ssf.py:153 | the combinations of a segment's two hits are the one pair of them |
| `SsfRelations.SegmentPairsAcross` | backend/app/utils/ssf.py:113-151 | with distinct document names the two hits of every segment lie in different documents |
| `SsfRelations.RecordSegmentAt` | backend/app/utils/ssf.py:145-157 | one segment adds its two hits to results and records its pair as the next step of `RecordedUpTo` |
| `SsfRelations.RecordedBalanced` | backend/app/utils/ssf.py:144-157 | recording the segments one after the other keeps every cell equal to the ratio sum of its relations, and mirrored cells of equal length |
| `SsfRelations.RecordedDiagonal` | backend/app/utils/ssf.py:144-157 | pairs spanning two documents leave the diagonal at 0.0 and [] |
| `SsfRelations.RecordPairRelations` | backend/app/utils/ssf.py:154-157 | one pair appends to cell (a, b) exactly its relations running from a to b, in order |
| `SsfRelations.RecordedRelations` | backend/app/utils/ssf.py:144-157 | after the segment loop, cell (a, b) holds what it held followed by the relations of the segments running from a to b, in segment order (`RelationsBetween`) |
| `SsfRelations.RelationsBetweenCount` | backend/app/utils/ssf.py:154-157 | off the diagonal a cell gains one relation per segment with one hit in each of its two documents |
| `SsfRelations.ReportedRelations` | backend/app/utils/ssf.py:136-157 | from the seeded tables, relation_matrix[a][b] is exactly `RelationsBetween` of the reported segments, and off the diagonal its length is the number of segments found in both a and b |
| `SsfRelations.RecordSegments` | backend/app/utils/ssf.py:144-157 | the segment loop fills results for every segment with the hits of its occurrences, leaves the tables equal to recording every segment's pair in order into the seeded tables, and keeps them balanced (and the diagonal zero for distinct files) |
| `SsfRelations.FindExactSameSubstrings` | backend/app/utils/ssf.py:110-163 | failure iff the segment search fails; otherwise same_segments has exactly the keys of the segment search, in its order, each with the hits of its two occurrences, located in text blocks; the tables are the seeded tables with every segment's pair recorded in order, balanced, with a zero diagonal when paths are distinct |
| `PdfShow.Remove` | backend/app/utils/pdf_show.py:42 | deleting the first occurrence shortens a list holding the key by one and leaves a list without it unchanged |
| `PdfShow.RemoveDistinct` | backend/app/utils/pdf_show.py:42 | removing from a duplicate-free list keeps it duplicate-free and removes the key |
| `PdfShow.IndexOf` | backend/app/utils/pdf_show.py:42 | `list.index` returns the first position of the key, and cutting it out is the removal |
| `PdfShow.KeysAfterIsLru` | backend/app/utils/pdf_show.py:40-48 | after any sequence of gets the key list holds the last MAX_NUM+1 distinct documents asked for, least recent first |
| `PdfShow.PdfCache.constructor` | backend/app/utils/pdf_show.py:23-25 | a new cache is empty |
| `PdfShow.PdfCache.UpdateCache` | backend/app/utils/pdf_show.py:40-48 | a hit moves the key to the end; a miss appends it, first evicting the oldest document when more than MAX_NUM are held |
| `PdfShow.PdfCache.Get` | backend/app/utils/pdf_show.py:27-38 | a hit returns the cached document; a miss opens the absolute path and caches it; the key list follows update_cache and stays valid while every open succeeds |
| `PdfShow.EnlargeBbox` | backend/app/utils/pdf_show.py:52-54 | the enlarged box has the same centre and is 8 wider and 8 taller |
| `PdfShow.MinPage` | backend/app/utils/pdf_show.py:67 | min(pages) is a listed page not above any listed page |
| `PdfShow.MaxPage` | backend/app/utils/pdf_show.py:67 | max(pages) is a listed page not below any listed page |
| `PdfShow.BoxesOnFrom` | backend/app/utils/pdf_show.py:69-71 | a box is listed for a page exactly when some entry gives that page and that box |
| `PdfShow.BuildPageDict` | backend/app/utils/pdf_show.py:68-71 | page_dict has every page from min to max, each with its listed boxes in order |
| `PdfShow.RenderedPage` | backend/app/utils/pdf_show.py:75-80 | the rendered page is the target when in range, else page 0 below and the last page above |
| `PdfShow.EnlargeAll` | backend/app/utils/pdf_show.py:84-88 | the drawn rectangles are the page's boxes each enlarged, in order |
| `PdfShow.RenderSelection` | backend/app/utils/pdf_show.py:56-88 | no boxes render page 0 plain; otherwise the clamped first page plus offset, with the enlarged boxes listed for the unclamped page; a document without pages fails |
| `PdfShow.HighlightsFollowTarget` | backend/app/utils/pdf_show.py:72-88 | a box is drawn exactly when an entry lists it for the unclamped target page |
| `CheckerNgrams.WordsAreWords` | src/checker.py:39 | every word of `str.split()` is non-empty and holds no whitespace; a text without whitespace is one word |
| `CheckerNgrams.GetNgrams` | src/checker.py:37-45 | the loop returns the kept windows of the text's words |
| `CheckerNgrams.NgramsUpToFacts` | src/checker.py:41-44 | each kept n-gram is the joined window at its position with at least min_chars characters; positions strictly increase; every long window is kept |
| `CheckerNgrams.NgramsOfKept` | src/checker.py:41-44 | a position is kept exactly when its window has at least min_chars characters |
| `CheckerIndex.Insert` | src/checker.py:55 | SortedList.add adds exactly the element |
| `CheckerIndex.InsertSorted` | src/checker.py:55 | SortedList.add keeps the bucket sorted by (document, n-gram, position) |
| `CheckerIndex.IndexAfterFacts` | src/checker.py:48-56 | the index has a bucket for exactly the n-grams that occur, its keys in first-occurrence order; each bucket is sorted and is a permutation of that n-gram's locations |
| `CheckerIndex.IndexComplete` | src/checker.py:48-56 | every n-gram of every document is in its bucket |
| `CheckerIndex.BucketsHoldTheirNgram` | src/checker.py:48-56 | a bucket holds only locations of its own n-gram |
| `CheckerIndex.AddDocument` | src/checker.py:53-55 | the inner loop adds every n-gram location of one document |
| `CheckerIndex.CreateIndex` | src/checker.py:48-56 | create_index returns the index of all documents' n-gram locations |
| `CheckerIndex.DocSetAboveOne` | src/checker.py:63 | more than one distinct document name exactly when two locations name different documents |
| `CheckerIndex.KeptOrderHolds` | src/checker.py:62-64 | the kept n-grams are exactly those whose bucket names two documents, without repeats |
| `CheckerIndex.FindIdenticalNgrams` | src/checker.py:59-65 | find_identical_ngrams keeps exactly the buckets naming more than one document, unchanged and in order |
| `CheckerOverlap.PositionsAfterFacts` | src/checker.py:76-80 | doc_positions has a list for exactly the documents named, in first-seen order, each being that document's (n-gram, position) pairs |
| `CheckerOverlap.DocPositionsCount` | src/checker.py:79-80 | a document's list is as long as the number of its locations |
| `CheckerOverlap.CollectPositions` | src/checker.py:76-80 | the loop builds doc_positions from all identical buckets in order |
| `CheckerOverlap.Rank` | src/checker.py:83-84 | list.index finds the position of a listed name, -1 standing for an absent one |
| `CheckerOverlap.OverlapFacts` | src/checker.py:87-91 | overlap times the average count is 100 times the shared count when the average is positive; the cell stays 0 otherwise |
| `CheckerOverlap.CellFacts` | src/checker.py:82-91 | the matrix is symmetric with a zero diagonal; a non-zero cell names two different listed documents and uses the first-listed one's shared count |
| `CheckerOverlap.FillPair` | src/checker.py:83-91 | one combination fills its two mirrored cells and nothing else |
| `CheckerOverlap.FillOverlap` | src/checker.py:82-91 | the combinations loop fills every cell with its overlap |
| `CheckerOverlap.AllLocsNamed` | src/checker.py:51-55 | every location create_index adds belongs to one of the documents |
| `CheckerOverlap.IdenticalNamed` | src/checker.py:62-65 | buckets find_identical_ngrams keeps from the documents' index name only those documents, as calculate_pairwise_overlap needs |
| `CheckerOverlap.CalculatePairwiseOverlap` | src/checker.py:68-93 | returns a fresh n×n matrix whose every cell is the overlap of its two documents, and the names in order |
| `CheckerOverlap.UnrelatedPairOverlaps` | src/checker.py:85-91 | two documents sharing no n-gram can get an overlap of 100, because only the first document's shared count is used |

## Left out

- Threads, the lock, `time.sleep`, `print` and the infinite `while True` of `scan_loop` are left out. A pass over a key snapshot is modelled, and a run is a sequence of passes.
- The scanning service (`kbport.py`) is not part of this model. Its answers to a submit and to a poll are inputs (`Scaner.Observation`). Network errors, exceptions and malformed JSON in a poll message are left out.
- Scaner.Transition: the finished branch does not model fetching the result and writing it with `json.dump`. The sidecar's later existence is an input of the next visit.
- Scaner.ProgressPercent: computes `(100 * page) / total` in exact integers. The source's float expression `int(page / total * 100)` can round one lower, for example 28 instead of 29 for page 29 and total 100.
- Scaner.StageMessage: the stage is a string, and page and total are integers. JSON values of other types, and a `page_id` that is null, are left out.
- File system access (`os.walk`, `os.path.exists`, `open`, `json.load`) is left out. The walk is an input list of (root, files), existence is an input set, and a sidecar is an input list of blocks.
- `clear_folder` and `unzip_file` in `file_man.py` are left out. They are pure file-system effects outside the duplicate-text core.
- Strings are `seq<char>`. `str.lower` is modelled for ASCII letters only, and `str.isspace` by a fixed list of Unicode whitespace.
- Ratios and overlaps are `real`, not IEEE floats, so floating-point rounding is left out. No NaN or infinity arises in the source either: an empty paragraph raises `ZeroDivisionError` before any ratio is formed (`SsfEngine.CandidatesErr`), and `calculate_pairwise_overlap` divides only when the average count is positive (`checker.py:88`).
- SsfEngine.CandidatesErr: the `ZeroDivisionError` for an empty paragraph is modelled as an `Err` result.
- SsfRelations.FindExactSameSubstrings: the matrix and relations are maps keyed by (file, file) pairs rather than nested dicts. same_segments is a map, and the insertion order of its keys is kept separately as `Report.order`. A `KeyError` for a paragraph or block that cannot be found, which the proofs show cannot happen, is an `Err`.
- The md5 hash of an n-gram is modelled by the n-gram itself, which assumes md5 has no collisions.
- `read_docx`, `is_valid_docx`, `main`, `print_overlap_matrix` and the total-proportion print of `checker.py` are left out. They are document reading and printing.
- `numpy.zeros` is an `array2<real>` filled with 0.0.
- pdfium rendering, PIL drawing and PNG encoding are left out. `render_image` is modelled up to the page it renders and the rectangles it draws. Opening a document is an input function from the absolute path to a document.
- `get_pdf_cache` (the lazily created global) and `os.getcwd()` are left out. The working directory is a parameter of `Get`.
- PdfShow.PdfCache.UpdateCache: the `ValueError` and `KeyError` the source raises on an inconsistent cache are excluded by `requires`. `Get` calls it consistently only because the model's open never fails (next line).
- PdfShow.PdfCache.Get: opening a document is total in the model. In the source, `pdfium.PdfDocument` at backend/app/utils/pdf_show.py:37 can raise after `update_cache` at line 32 has appended `fn`. That leaves `fn` in `keys` with no entry in `cache`: a later `get(fn)` appends it a second time, and evicting it raises `KeyError` at line 46. `Valid()` and `KeysAfterIsLru` hold only for runs in which every open succeeds.
- `main.py` and the web front end are not part of this model.
