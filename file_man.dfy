/**
 * backend/app/utils/file_man.py, collect_pdf_files: the walk over the upload
 * folder keeps the files whose lower-cased name ends in ".pdf" and pairs each
 * one's path with its sidecar path, the path with every ".pdf" replaced by
 * ".pdf.json". The directory walk itself is an input: one (root, file names)
 * entry per directory, in walk order.
 */
module FileMan {

  /** ASCII lower-casing of one character. */
  function LowerChar(c: char): char
  {
    if 'A' <= c <= 'Z' then (c as int + 32) as char else c
  }

  /** str.lower(), on ASCII letters. */
  function Lower(s: string): (r: string)
    ensures |r| == |s| && forall i :: 0 <= i < |s| ==> r[i] == LowerChar(s[i])
  {
    seq(|s|, i requires 0 <= i < |s| => LowerChar(s[i]))
  }

  predicate EndsWith(s: string, suffix: string)
  {
    |suffix| <= |s| && s[|s| - |suffix|..] == suffix
  }

  /** Line 39: the file is collected. */
  predicate IsPdfName(file: string)
  {
    EndsWith(Lower(file), ".pdf")
  }

  /** Line 39: a name is collected exactly when it ends in ".pdf" with each letter in either case. */
  lemma PdfNameAnyCase(file: string)
    ensures IsPdfName(file) <==>
      && |file| >= 4 && file[|file| - 4] == '.'
      && file[|file| - 3] in "pP" && file[|file| - 2] in "dD" && file[|file| - 1] in "fF"
  {
    var n := |file|;
    if n >= 4 {
      assert Lower(file)[n - 4..] == [LowerChar(file[n - 4]), LowerChar(file[n - 3]), LowerChar(file[n - 2]), LowerChar(file[n - 1])];
    }
  }

  /** os.path.join(root, file) for one component. */
  function PathJoin(root: string, file: string): string
  {
    if |file| > 0 && file[0] == '/' then file
    else if root == [] || root[|root| - 1] == '/' then root + file
    else root + "/" + file
  }

  /** str.replace(pat, rep): every non-overlapping occurrence of pat, scanning from the left. */
  function ReplaceAll(s: string, pat: string, rep: string): string
    requires |pat| > 0
    decreases |s|
  {
    if |s| < |pat| then s
    else if s[..|pat|] == pat then rep + ReplaceAll(s[|pat|..], pat, rep)
    else [s[0]] + ReplaceAll(s[1..], pat, rep)
  }

  /** Line 41: the sidecar path of a collected file. */
  function Sidecar(fullPath: string): string
  {
    ReplaceAll(fullPath, ".pdf", ".pdf.json")
  }

  /** pat occurs in s at offset k. */
  predicate MatchAt(s: string, pat: string, k: int)
  {
    0 <= k && k + |pat| <= |s| && s[k..k + |pat|] == pat
  }

  /** pat occurs in s starting at one of the offsets lo .. hi-1. */
  ghost predicate OccursBetween(s: string, pat: string, lo: int, hi: int)
  {
    exists k :: lo <= k < hi && MatchAt(s, pat, k)
  }

  lemma MatchAtTail(s: string, pat: string, k: int)
    requires |s| > 0 && 0 <= k
    ensures MatchAt(s[1..], pat, k) <==> MatchAt(s, pat, k + 1)
  {
    if k + |pat| <= |s| - 1 {
      assert s[1..][k..k + |pat|] == s[k + 1..k + 1 + |pat|];
    }
  }

  /** A path with no ".pdf" in it is its own sidecar path. */
  lemma {:induction false} NoPdfUnchanged(s: string)
    requires !OccursBetween(s, ".pdf", 0, |s|)
    ensures Sidecar(s) == s
  {
    if |s| >= 4 {
      assert !MatchAt(s, ".pdf", 0);
      assert s[..4] == s[0..0 + 4];
      assert !OccursBetween(s[1..], ".pdf", 0, |s| - 1) by {
        forall k | 0 <= k < |s| - 1
          ensures !MatchAt(s[1..], ".pdf", k)
        {
          MatchAtTail(s, ".pdf", k);
        }
      }
      NoPdfUnchanged(s[1..]);
      assert s == [s[0]] + s[1..];
    }
  }

  /** When the only ".pdf" in a path is its suffix, the sidecar path is the path plus ".json". */
  lemma {:induction false} SuffixOnlyAddsJson(s: string)
    requires EndsWith(s, ".pdf") && !OccursBetween(s, ".pdf", 0, |s| - 4)
    ensures Sidecar(s) == s + ".json"
  {
    if |s| == 4 {
      assert s[..4] == s == ".pdf";
      assert s[4..] == [];
    } else {
      assert !MatchAt(s, ".pdf", 0);
      assert s[..4] == s[0..0 + 4];
      var t := s[1..];
      assert t[|t| - 4..] == s[|s| - 4..];
      assert !OccursBetween(t, ".pdf", 0, |t| - 4) by {
        forall k | 0 <= k < |t| - 4
          ensures !MatchAt(t, ".pdf", k)
        {
          MatchAtTail(s, ".pdf", k);
        }
      }
      SuffixOnlyAddsJson(t);
      assert s == [s[0]] + t;
    }
  }

  /**
   * A name in upper case, such as "A.PDF", is collected, but with no
   * lower-case ".pdf" in its path its sidecar path is the PDF's own path.
   */
  lemma UpperCaseSidecarIsThePdf(root: string, file: string)
    requires EndsWith(file, ".PDF")
    requires !OccursBetween(PathJoin(root, file), ".pdf", 0, |PathJoin(root, file)|)
    ensures IsPdfName(file)
    ensures Sidecar(PathJoin(root, file)) == PathJoin(root, file)
  {
    var l := Lower(file);
    assert l[|l| - 4..] == ".pdf" by {
      assert file[|file| - 4..] == ".PDF";
      assert file[|file| - 4] == '.' && file[|file| - 3] == 'P' && file[|file| - 2] == 'D' && file[|file| - 1] == 'F';
    }
    NoPdfUnchanged(PathJoin(root, file));
  }

  /** One directory of the walk: its path and the names of the files in it. */
  datatype WalkEntry = WalkEntry(root: string, files: seq<string>)

  /** Lines 40-42: the pair collected for file f of directory root. */
  function PdfPair(root: string, f: string): (string, string)
  {
    (PathJoin(root, f), Sidecar(PathJoin(root, f)))
  }

  /** The pairs one directory contributes, in the order of its files. */
  function DirPairs(root: string, files: seq<string>): seq<(string, string)>
  {
    if files == [] then []
    else
      var init, f := files[..|files| - 1], files[|files| - 1];
      DirPairs(root, init) + (if IsPdfName(f) then [PdfPair(root, f)] else [])
  }

  /** The result of collect_pdf_files for the walk. */
  function PdfPairs(walk: seq<WalkEntry>): seq<(string, string)>
  {
    if walk == [] then [] else PdfPairs(walk[..|walk| - 1]) + DirPairs(walk[|walk| - 1].root, walk[|walk| - 1].files)
  }

  /** A pair of one directory is the pair of one of its PDF files, and each such file gives one. */
  lemma {:induction false} DirPairsAre(root: string, files: seq<string>)
    ensures forall p :: p in DirPairs(root, files) <==> exists f :: f in files && IsPdfName(f) && p == PdfPair(root, f)
  {
    if files != [] {
      var init, f := files[..|files| - 1], files[|files| - 1];
      DirPairsAre(root, init);
      assert files == init + [f];
      var tail := if IsPdfName(f) then [PdfPair(root, f)] else [];
      assert DirPairs(root, files) == DirPairs(root, init) + tail;
      forall p | p in DirPairs(root, files)
        ensures exists g :: g in files && IsPdfName(g) && p == PdfPair(root, g)
      {
        if p in DirPairs(root, init) {
          var g :| g in init && IsPdfName(g) && p == PdfPair(root, g);
          assert g in files;
        } else {
          assert p in tail && f in files;
        }
      }
      forall g | g in files && IsPdfName(g)
        ensures PdfPair(root, g) in DirPairs(root, files)
      {
        if g != f {
          assert g in init;
        }
      }
    }
  }

  /** A directory contributes one pair per PDF file in it. */
  lemma {:induction false} DirPairsCount(root: string, files: seq<string>)
    ensures |DirPairs(root, files)| == |set i | 0 <= i < |files| && IsPdfName(files[i])|
  {
    if files != [] {
      var init, f := files[..|files| - 1], files[|files| - 1];
      DirPairsCount(root, init);
      var before := set i | 0 <= i < |init| && IsPdfName(init[i]);
      var after := set i | 0 <= i < |files| && IsPdfName(files[i]);
      assert forall i :: 0 <= i < |init| ==> files[i] == init[i];
      if IsPdfName(f) {
        assert after == before + {|files| - 1} by {
          forall i | i in after ensures i in before + {|files| - 1} {
            if i < |init| { assert IsPdfName(init[i]); }
          }
        }
      } else {
        assert after == before by {
          forall i | i in after ensures i in before {
            assert i < |init| && IsPdfName(init[i]);
          }
        }
      }
    }
  }

  /** Lines 35-43: the nested loop over the walk. */
  method CollectPdfFiles(walk: seq<WalkEntry>) returns (pdfFiles: seq<(string, string)>)
    ensures pdfFiles == PdfPairs(walk)
  {
    pdfFiles := [];
    for d := 0 to |walk|
      invariant pdfFiles == PdfPairs(walk[..d])
    {
      assert walk[..d + 1][..d] == walk[..d];
      var root, files := walk[d].root, walk[d].files;
      for i := 0 to |files|
        invariant pdfFiles == PdfPairs(walk[..d]) + DirPairs(root, files[..i])
      {
        assert files[..i + 1][..i] == files[..i];
        var file := files[i];
        if EndsWith(Lower(file), ".pdf") {
          var fullPath := PathJoin(root, file);
          var scanedPath := ReplaceAll(fullPath, ".pdf", ".pdf.json");
          pdfFiles := pdfFiles + [(fullPath, scanedPath)];
        }
      }
      assert files[..|files|] == files;
    }
    assert walk[..|walk|] == walk;
  }

  /** Every collected pair is a PDF of some directory of the walk with its sidecar, and every such PDF is collected. */
  lemma {:induction false} PdfPairsAre(walk: seq<WalkEntry>)
    ensures forall p :: p in PdfPairs(walk) <==>
      exists w, f :: w in walk && f in w.files && IsPdfName(f) && p == PdfPair(w.root, f)
  {
    if walk != [] {
      var init, last := walk[..|walk| - 1], walk[|walk| - 1];
      PdfPairsAre(init);
      DirPairsAre(last.root, last.files);
      assert walk == init + [last];
      forall p | p in PdfPairs(walk)
        ensures exists w, f :: w in walk && f in w.files && IsPdfName(f) && p == PdfPair(w.root, f)
      {
        if p in PdfPairs(init) {
          var w, f :| w in init && f in w.files && IsPdfName(f) && p == PdfPair(w.root, f);
          assert w in walk;
        } else {
          assert p in DirPairs(last.root, last.files);
        }
      }
      forall w, f | w in walk && f in w.files && IsPdfName(f)
        ensures PdfPair(w.root, f) in PdfPairs(walk)
      {
        if w != last {
          assert w in init;
        }
      }
    }
  }
}
