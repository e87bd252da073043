/**
 * backend/app/utils/scaner.py: the table of per-document scan records
 * (FileStatus), the transition one pass of scan_loop applies to a record,
 * the status report of get_scan_status, and start_scan's one-shot start.
 *
 * The outside world is an input: whether a sidecar file exists, what the
 * scanning service answers to a submit, and what it answers to a poll.
 * Threads, the lock, sleeping, printing and writing the sidecar are left out.
 */
module Scaner {
  import opened Wrappers

  datatype State = Pending | Progressing | Completed | Error

  datatype Status = Status(state: State, message: string)

  /** One value of file_status: the dict of lines 22-32. */
  datatype Record = Record(
    name: string,
    fullname: string,
    scanedFile: string,
    scanKey: Option<string>,
    status: Status,
    progress: int)

  const FoundToScan: string := "发现待扫描的文件!"
  const FoundScanned: string := "发现已扫描的文件!"
  const Queued: string := "已将待扫描文件入队..."
  const StageUnknown: string := "扫描状态未知"
  const ScanDone: string := "扫描完成！"

  // ---------------------------------------------------------------------
  // os.path.basename

  /** The part of a path after its last '/'. */
  function Basename(p: string): string
  {
    if p == [] then []
    else if p[|p| - 1] == '/' then []
    else Basename(p[..|p| - 1]) + [p[|p| - 1]]
  }

  /** The basename is the longest suffix of the path without a '/'. */
  lemma {:induction false} BasenameIsLastComponent(p: string)
    ensures var b := Basename(p);
      && '/' !in b
      && |b| <= |p| && b == p[|p| - |b|..]
      && (|b| < |p| ==> p[|p| - |b| - 1] == '/')
  {
    if p != [] && p[|p| - 1] != '/' {
      var init := p[..|p| - 1];
      BasenameIsLastComponent(init);
      var b := Basename(init);
      var b' := b + [p[|p| - 1]];
      assert Basename(p) == b';
      assert b' == p[|p| - |b'|..] by {
        assert init[|init| - |b|..] == p[|p| - 1 - |b|..|p| - 1];
      }
      if |b'| < |p| {
        assert p[|p| - |b'| - 1] == init[|init| - |b| - 1];
      }
    }
  }

  /** A name without '/' is its own basename, so basename is idempotent. */
  lemma {:induction false} BasenameOfName(p: string)
    requires '/' !in p
    ensures Basename(p) == p
  {
    if p != [] {
      assert p[..|p| - 1] + [p[|p| - 1]] == p;
      BasenameOfName(p[..|p| - 1]);
    }
  }

  // ---------------------------------------------------------------------
  // the records

  /**
   * Progress is never negative, a record is at 0 while pending and at 100
   * once completed, and its name is the basename of its path.
   */
  ghost predicate WellFormed(r: Record)
  {
    && r.progress >= 0
    && (r.status.state == Pending ==> r.progress == 0)
    && (r.status.state == Completed ==> r.progress == 100)
    && r.name == Basename(r.fullname)
  }

  /** Lines 22-38: the record collect creates for one file. */
  function Discovered(pdfFile: string, scanedFile: string, onDisk: set<string>): (r: Record)
    ensures WellFormed(r)
    ensures r.fullname == pdfFile && r.scanedFile == scanedFile && r.scanKey == None
    ensures r.status.state == Completed <==> scanedFile in onDisk
    ensures r.status.state == Pending <==> scanedFile !in onDisk
  {
    var r := Record(Basename(pdfFile), pdfFile, scanedFile, None, Status(Pending, FoundToScan), 0);
    if scanedFile in onDisk then r.(status := Status(Completed, FoundScanned), progress := 100) else r
  }

  // ---------------------------------------------------------------------
  // the answers of the outside world

  /** The answer to a submit: single_parse_job's job, or None. */
  datatype Job = Job(accepted: bool, resultPath: string)

  /**
   * The answer to a poll. For "started", the fields of the progress message;
   * a field the message leaves out is None.
   */
  datatype Poll =
    | Started(stage: Option<string>, pageId: Option<int>, totalPage: Option<int>)
    | Finished
    | Failed(message: string)
    | OtherStatus(status: string)   // "queued", "cancelled" or anything else

  /** What one step of the pass may observe for one record. */
  datatype Observation = Observation(sidecarExists: bool, submitted: Option<Job>, polled: Poll)

  // ---------------------------------------------------------------------
  // the progress report of a started job, lines 115-128

  function Digit(d: int): char
    requires 0 <= d < 10
  {
    "0123456789"[d]
  }

  function NatToString(n: nat): (s: string)
    ensures |s| > 0
  {
    if n < 10 then [Digit(n)] else NatToString(n / 10) + [Digit(n % 10)]
  }

  /** str(n). */
  function IntToString(n: int): string
  {
    if n < 0 then "-" + NatToString(-n) else NatToString(n)
  }

  /**
   * The percentage of a started job, with the page clamped at 0: the
   * whole number of percent, rounded down, when the total is positive,
   * else 0.
   */
  function ProgressPercent(page: int, total: int): (p: int)
    ensures p >= 0
    ensures total > 0 ==> p * total <= 100 * Clamp(page) < (p + 1) * total
    ensures total <= 0 ==> p == 0
  {
    if total > 0 then (100 * Clamp(page)) / total else 0
  }

  function Clamp(page: int): (c: nat)
    ensures c == page || (page < 0 && c == 0)
  {
    if page < 0 then 0 else page
  }

  /** Up to the last page of a positive total the percentage stays at most 100; from the last page on it is at least 100. */
  lemma ProgressAtMost100(page: int, total: int)
    requires total > 0
    ensures Clamp(page) <= total ==> ProgressPercent(page, total) <= 100
    ensures Clamp(page) >= total ==> ProgressPercent(page, total) >= 100
  {
    var p, c := ProgressPercent(page, total), Clamp(page);
    if c <= total && p > 100 {
      MulMonotone(p, 100, total);
    }
    if c >= total && p + 1 < 100 {
      MulMonotone(100, p + 1, total);
    }
  }

  lemma MulMonotone(a: int, b: int, t: int)
    requires t > 0 && a > b
    ensures a * t > b * t
  {
    MulPositive(a - b, t);
    assert a * t == b * t + (a - b) * t;
  }

  lemma {:induction false} MulPositive(d: int, t: int)
    requires d > 0 && t > 0
    ensures d * t > 0
    decreases d
  {
    if d > 1 {
      MulPositive(d - 1, t);
      assert d * t == (d - 1) * t + t;
    }
  }

  function StageMessage(stage: Option<string>, page: nat, total: int): string
  {
    match stage
    case None => StageUnknown
    case Some(s) => "扫描阶段: " + s + " [" + IntToString(page) + " / " + IntToString(total) + "]"
  }

  // ---------------------------------------------------------------------
  // one record's step of scan_loop, lines 91-151

  /**
   * What one pass does to a record: a completed record is skipped; a record
   * whose sidecar exists becomes completed; a record without a scan key is
   * submitted; any other record is polled.
   */
  function Transition(r: Record, o: Observation): (r': Record)
    ensures r'.name == r.name && r'.fullname == r.fullname && r'.scanedFile == r.scanedFile
    ensures r.status.state == Completed ==> r' == r
    ensures r.scanKey.Some? ==> r'.scanKey == r.scanKey
    ensures WellFormed(r) ==> WellFormed(r')
  {
    if r.status.state == Completed then r
    else if o.sidecarExists then
      r.(status := Status(Completed, FoundScanned), progress := 100)
    else if r.scanKey == None then
      match o.submitted
      case Some(job) =>
        if job.accepted then r.(scanKey := Some(job.resultPath), status := Status(Pending, Queued), progress := 0)
        else r
      case None => r
    else
      match o.polled
      case Started(stage, pageId, totalPage) =>
        var page := Clamp(match pageId case Some(p) => p case None => 0);
        var total := match totalPage case Some(t) => t case None => 1;
        r.(status := Status(Progressing, StageMessage(stage, page, total)), progress := ProgressPercent(page, total))
      case Finished =>
        r.(status := Status(Completed, ScanDone), progress := 100)
      case Failed(message) =>
        r.(status := Status(Error, message))
      case OtherStatus(_) => r
  }

  /** Lines 93-98: a record that is not completed and whose sidecar exists becomes completed at 100. */
  lemma SidecarCompletes(r: Record, o: Observation)
    requires r.status.state != Completed && o.sidecarExists
    ensures Transition(r, o) == r.(status := Status(Completed, FoundScanned), progress := 100)
  {
  }

  /**
   * Lines 99-109: a record without a scan key is submitted; an accepted
   * submit stores the result path as its key and leaves it pending at 0,
   * anything else leaves it unchanged.
   */
  lemma SubmitLeavesPending(r: Record, o: Observation)
    requires r.status.state != Completed && !o.sidecarExists && r.scanKey == None
    ensures o.submitted.Some? && o.submitted.value.accepted ==>
      var r' := Transition(r, o);
      r'.scanKey == Some(o.submitted.value.resultPath) && r'.status == Status(Pending, Queued) && r'.progress == 0
    ensures !(o.submitted.Some? && o.submitted.value.accepted) ==> Transition(r, o) == r
  {
  }

  /**
   * Lines 91 and 110-151: a record in error keeps its scan key and is polled
   * again; only a completed record is skipped.
   */
  lemma ErrorIsPolledAgain(r: Record, o: Observation)
    requires r.status.state == Error && r.scanKey.Some? && !o.sidecarExists
    ensures o.polled.Started? ==> Transition(r, o).status.state == Progressing
    ensures o.polled.Finished? ==> Transition(r, o).status.state == Completed && Transition(r, o).progress == 100
    ensures o.polled.Failed? ==> Transition(r, o) == r.(status := Status(Error, o.polled.message))
    ensures o.polled.OtherStatus? ==> Transition(r, o) == r
  {
  }

  /** Lines 114-133: a started poll moves the record to progressing with the clamped percentage. */
  lemma StartedProgress(r: Record, o: Observation)
    requires r.status.state != Completed && !o.sidecarExists && r.scanKey.Some? && o.polled.Started?
    ensures var page := Clamp(if o.polled.pageId.Some? then o.polled.pageId.value else 0);
            var total := if o.polled.totalPage.Some? then o.polled.totalPage.value else 1;
            Transition(r, o) == r.(status := Status(Progressing, StageMessage(o.polled.stage, page, total)),
                                   progress := ProgressPercent(page, total))
    ensures o.polled.stage == None ==> Transition(r, o).status.message == StageUnknown
  {
  }

  /** Lines 147-151: a failed poll keeps progress and scan key and reports the service's message. */
  lemma FailedKeepsProgress(r: Record, o: Observation)
    requires r.status.state != Completed && !o.sidecarExists && r.scanKey.Some? && o.polled.Failed?
    ensures var r' := Transition(r, o);
      r'.status == Status(Error, o.polled.message) && r'.progress == r.progress && r'.scanKey == r.scanKey
  {
  }

  /** Lines 134-145: a finished poll completes the record at 100, keeping its scan key. */
  lemma FinishedCompletes(r: Record, o: Observation)
    requires r.status.state != Completed && !o.sidecarExists && r.scanKey.Some? && o.polled.Finished?
    ensures Transition(r, o) == r.(status := Status(Completed, ScanDone), progress := 100)
  {
  }

  /** Lines 113-151: a poll whose status is none of started, finished and failed changes nothing. */
  lemma OtherStatusKeeps(r: Record, o: Observation)
    requires r.status.state != Completed && !o.sidecarExists && r.scanKey.Some? && o.polled.OtherStatus?
    ensures Transition(r, o) == r
  {
  }

  // ---------------------------------------------------------------------
  // a pass over a snapshot of the keys, lines 83-89

  /**
   * A pass: the keys are visited in order, and the first key missing from
   * the table ends the pass.
   */
  ghost function PassOf(records: map<string, Record>, keys: seq<string>, obs: seq<Observation>): map<string, Record>
    requires |obs| == |keys|
  {
    if keys == [] || keys[0] !in records then records
    else PassOf(records[keys[0] := Transition(records[keys[0]], obs[0])], keys[1..], obs[1..])
  }

  ghost predicate AllWellFormed(records: map<string, Record>)
  {
    forall k :: k in records ==> WellFormed(records[k]) && records[k].fullname == k
  }

  /**
   * A pass keeps the keys, keeps every completed record as it was, never
   * changes a scan key once set, and keeps every record well formed.
   */
  lemma {:induction false} PassPreserves(records: map<string, Record>, keys: seq<string>, obs: seq<Observation>)
    requires |obs| == |keys|
    ensures PassOf(records, keys, obs).Keys == records.Keys
    ensures forall k :: k in records && records[k].status.state == Completed ==> PassOf(records, keys, obs)[k] == records[k]
    ensures forall k :: k in records && records[k].scanKey.Some? ==> PassOf(records, keys, obs)[k].scanKey == records[k].scanKey
    ensures AllWellFormed(records) ==> AllWellFormed(PassOf(records, keys, obs))
  {
    if keys != [] && keys[0] in records {
      var k0 := keys[0];
      var next := records[k0 := Transition(records[k0], obs[0])];
      PassPreserves(next, keys[1..], obs[1..]);
    }
  }

  /** A pass over keys that are all in the table applies the transition to each of them. */
  lemma {:induction false} PassVisitsAll(records: map<string, Record>, keys: seq<string>, obs: seq<Observation>)
    requires |obs| == |keys|
    requires forall m, n :: 0 <= m < n < |keys| ==> keys[m] != keys[n]
    requires forall m :: 0 <= m < |keys| ==> keys[m] in records
    ensures forall m :: 0 <= m < |keys| ==> keys[m] in PassOf(records, keys, obs)
    ensures forall m :: 0 <= m < |keys| ==>
      PassOf(records, keys, obs)[keys[m]] == Transition(records[keys[m]], obs[m])
  {
    if keys != [] {
      var k0 := keys[0];
      var next := records[k0 := Transition(records[k0], obs[0])];
      PassVisitsAll(next, keys[1..], obs[1..]);
      PassPreserves(next, keys[1..], obs[1..]);
      PassPreserves(records, keys, obs);
      forall m | 0 <= m < |keys|
        ensures PassOf(records, keys, obs)[keys[m]] == Transition(records[keys[m]], obs[m])
      {
        if m == 0 {
          PassUntouched(next, keys[1..], obs[1..], k0);
        } else {
          assert keys[m] == keys[1..][m - 1];
        }
      }
    }
  }

  /** A key the pass does not visit is left as it was. */
  lemma {:induction false} PassUntouched(records: map<string, Record>, keys: seq<string>, obs: seq<Observation>, k: string)
    requires |obs| == |keys| && k !in keys && k in records
    ensures k in PassOf(records, keys, obs) && PassOf(records, keys, obs)[k] == records[k]
  {
    if keys != [] && keys[0] in records {
      PassUntouched(records[keys[0] := Transition(records[keys[0]], obs[0])], keys[1..], obs[1..], k);
    }
  }

  // ---------------------------------------------------------------------
  // the status report, lines 55-77

  /** One element of the report's "files": name, status and progress. */
  datatype FileView = FileView(name: string, status: Status, progress: int)

  datatype ScanReport = ScanReport(files: seq<FileView>, partialDone: bool, allDone: bool)

  function View(r: Record): FileView
  {
    FileView(Basename(r.name), r.status, r.progress)
  }

  /** Line 68 takes the basename of a name that already is one: the report shows the record's name. */
  lemma ViewKeepsName(r: Record)
    requires WellFormed(r)
    ensures View(r) == FileView(r.name, r.status, r.progress)
  {
    BasenameIsLastComponent(r.fullname);
    BasenameOfName(r.name);
  }

  /** The record of key k is in the table and completed. */
  predicate Done(records: map<string, Record>, k: string)
  {
    k in records && records[k].status.state == Completed
  }

  /** The number of listed keys whose record is completed. */
  function CompletedCount(records: map<string, Record>, keys: seq<string>): nat
  {
    if keys == [] then 0
    else CompletedCount(records, keys[..|keys| - 1]) + if Done(records, keys[|keys| - 1]) then 1 else 0
  }

  /** Counting one more key adds one exactly when its record is completed. */
  lemma CompletedCountSnoc(records: map<string, Record>, keys: seq<string>, i: int)
    requires 0 <= i < |keys|
    ensures CompletedCount(records, keys[..i + 1]) == CompletedCount(records, keys[..i]) + if Done(records, keys[i]) then 1 else 0
  {
    assert keys[..i + 1][..i] == keys[..i];
  }

  /** Every record is completed exactly when every listed key's record is. */
  lemma AllCompletedByKeys(records: map<string, Record>, keys: seq<string>)
    requires forall k :: k in records <==> k in keys
    ensures (forall k :: k in records ==> records[k].status.state == Completed) <==>
      forall m :: 0 <= m < |keys| ==> Done(records, keys[m])
  {
    if forall m :: 0 <= m < |keys| ==> Done(records, keys[m]) {
      forall k | k in records ensures records[k].status.state == Completed {
        var m :| 0 <= m < |keys| && keys[m] == k;
        assert Done(records, keys[m]);
      }
    }
  }

  /** More than one completed record means two different positions holding completed records. */
  lemma {:induction false} CompletedCountAboveOne(records: map<string, Record>, keys: seq<string>)
    ensures CompletedCount(records, keys) > 1 <==>
      exists m, n :: 0 <= m < n < |keys| && Done(records, keys[m]) && Done(records, keys[n])
  {
    if keys != [] {
      var init := keys[..|keys| - 1];
      var last := |keys| - 1;
      CompletedCountAboveOne(records, init);
      if Done(records, keys[last]) && CompletedCount(records, init) == 1 {
        var m := CompletedWitness(records, init);
        assert Done(records, keys[m]);
      }
      if exists m, n :: 0 <= m < n < |keys| && Done(records, keys[m]) && Done(records, keys[n]) {
        var m, n :| 0 <= m < n < |keys| && Done(records, keys[m]) && Done(records, keys[n]);
        if n < last {
          assert init[m] == keys[m] && init[n] == keys[n];
        } else {
          CompletedCountPositive(records, init, m);
        }
      }
    }
  }

  lemma {:induction false} CompletedCountPositive(records: map<string, Record>, keys: seq<string>, m: int)
    requires 0 <= m < |keys| && Done(records, keys[m])
    ensures CompletedCount(records, keys) > 0
  {
    if m < |keys| - 1 {
      CompletedCountPositive(records, keys[..|keys| - 1], m);
    }
  }

  lemma {:induction false} CompletedWitness(records: map<string, Record>, keys: seq<string>) returns (m: int)
    requires CompletedCount(records, keys) > 0
    ensures 0 <= m < |keys| && Done(records, keys[m])
  {
    var last := |keys| - 1;
    if Done(records, keys[last]) {
      m := last;
    } else {
      m := CompletedWitness(records, keys[..last]);
    }
  }

  // ---------------------------------------------------------------------
  // the table, lines 12-38

  /** The records collect builds, by path; a later pair for the same path replaces the earlier one. */
  function CollectedRecords(pdfFiles: seq<(string, string)>, onDisk: set<string>): map<string, Record>
  {
    if pdfFiles == [] then map[]
    else
      var (pdf, scaned) := pdfFiles[|pdfFiles| - 1];
      CollectedRecords(pdfFiles[..|pdfFiles| - 1], onDisk)[pdf := Discovered(pdf, scaned, onDisk)]
  }

  /** The dict's key order: each path where it was first inserted. */
  function FirstSeen(pdfFiles: seq<(string, string)>): seq<string>
  {
    if pdfFiles == [] then []
    else
      var seen := FirstSeen(pdfFiles[..|pdfFiles| - 1]);
      var pdf := pdfFiles[|pdfFiles| - 1].0;
      if pdf in seen then seen else seen + [pdf]
  }

  ghost predicate Distinct(s: seq<string>)
  {
    forall m, n :: 0 <= m < n < |s| ==> s[m] != s[n]
  }

  /** The key order lists each collected path once, and the collected paths are the listed ones. */
  lemma {:induction false} FirstSeenKeys(pdfFiles: seq<(string, string)>, onDisk: set<string>)
    ensures Distinct(FirstSeen(pdfFiles))
    ensures forall k :: k in CollectedRecords(pdfFiles, onDisk) <==> k in FirstSeen(pdfFiles)
  {
    if pdfFiles != [] {
      FirstSeenKeys(pdfFiles[..|pdfFiles| - 1], onDisk);
    }
  }

  /** collect keeps a record for every listed path and for no other. */
  lemma {:induction false} CollectedPaths(pdfFiles: seq<(string, string)>, onDisk: set<string>)
    ensures forall k :: k in CollectedRecords(pdfFiles, onDisk) <==> exists i :: 0 <= i < |pdfFiles| && pdfFiles[i].0 == k
  {
    if pdfFiles != [] {
      var init := pdfFiles[..|pdfFiles| - 1];
      var last := |pdfFiles| - 1;
      CollectedPaths(init, onDisk);
      forall k | k in CollectedRecords(pdfFiles, onDisk)
        ensures exists i :: 0 <= i < |pdfFiles| && pdfFiles[i].0 == k
      {
        if k != pdfFiles[last].0 {
          assert k in CollectedRecords(init, onDisk);
          var i :| 0 <= i < |init| && init[i].0 == k;
          assert pdfFiles[i].0 == k;
        }
      }
      forall k | exists i :: 0 <= i < |pdfFiles| && pdfFiles[i].0 == k
        ensures k in CollectedRecords(pdfFiles, onDisk)
      {
        var i :| 0 <= i < |pdfFiles| && pdfFiles[i].0 == k;
        if i < last {
          assert init[i].0 == k;
        }
      }
    }
  }

  /** The record of a path is the one made from the last pair that lists it. */
  lemma {:induction false} CollectedLastWins(pdfFiles: seq<(string, string)>, onDisk: set<string>, i: int)
    requires 0 <= i < |pdfFiles|
    requires forall j :: i < j < |pdfFiles| ==> pdfFiles[j].0 != pdfFiles[i].0
    ensures pdfFiles[i].0 in CollectedRecords(pdfFiles, onDisk)
    ensures CollectedRecords(pdfFiles, onDisk)[pdfFiles[i].0] == Discovered(pdfFiles[i].0, pdfFiles[i].1, onDisk)
  {
    var init := pdfFiles[..|pdfFiles| - 1];
    if i < |init| {
      forall j | i < j < |init| ensures init[j].0 != init[i].0 {
        assert init[j] == pdfFiles[j];
      }
      CollectedLastWins(init, onDisk, i);
    }
  }

  /** Every collected record is well formed and filed under its own path. */
  lemma {:induction false} CollectedWellFormed(pdfFiles: seq<(string, string)>, onDisk: set<string>)
    ensures AllWellFormed(CollectedRecords(pdfFiles, onDisk))
  {
    if pdfFiles != [] {
      CollectedWellFormed(pdfFiles[..|pdfFiles| - 1], onDisk);
    }
  }

  /** Replacing a record by a well-formed one filed under the same path keeps the table well formed. */
  lemma UpdateWellFormed(records: map<string, Record>, key: string, r: Record)
    requires AllWellFormed(records) && key in records
    requires WellFormed(r) && r.fullname == key
    ensures AllWellFormed(records[key := r]) && records[key := r].Keys == records.Keys
  {
  }

  /** The file_status table: the records and the order in which the dict holds their keys. */
  class FileStatus {
    var records: map<string, Record>
    var order: seq<string>

    ghost predicate Valid()
      reads this
    {
      && Distinct(order)
      && (forall k :: k in records <==> k in order)
      && AllWellFormed(records)
    }

    constructor ()
      ensures Valid() && records == map[] && order == []
    {
      records := map[];
      order := [];
    }

    /** Lines 17-38: the table is rebuilt from the collected (PDF, sidecar) pairs. */
    method Collect(pdfFiles: seq<(string, string)>, onDisk: set<string>)
      modifies this
      ensures Valid()
      ensures records == CollectedRecords(pdfFiles, onDisk) && order == FirstSeen(pdfFiles)
    {
      records := map[];
      order := [];
      for i := 0 to |pdfFiles|
        invariant records == CollectedRecords(pdfFiles[..i], onDisk) && order == FirstSeen(pdfFiles[..i])
      {
        assert pdfFiles[..i + 1][..i] == pdfFiles[..i];
        var (pdfFile, scanedPdfFile) := pdfFiles[i];
        if pdfFile !in records {
          order := order + [pdfFile];
        }
        FirstSeenKeys(pdfFiles[..i], onDisk);
        var r := Record(Basename(pdfFile), pdfFile, scanedPdfFile, None, Status(Pending, FoundToScan), 0);
        if scanedPdfFile in onDisk {
          r := r.(status := Status(Completed, FoundScanned));
          r := r.(progress := 100);
        }
        assert r == Discovered(pdfFile, scanedPdfFile, onDisk);
        records := records[pdfFile := r];
      }
      assert pdfFiles[..|pdfFiles|] == pdfFiles;
      FirstSeenKeys(pdfFiles, onDisk);
      CollectedWellFormed(pdfFiles, onDisk);
    }

    /** Line 83: the snapshot of the keys a pass walks over. */
    method Keys() returns (keys: seq<string>)
      requires Valid()
      ensures keys == order
      ensures Distinct(keys) && forall k :: k in keys <==> k in records
    {
      keys := order;
    }

    /**
     * Lines 87-151 for one key: a key no longer in the table ends the pass;
     * otherwise the record takes its transition.
     */
    method Step(key: string, o: Observation) returns (endPass: bool)
      requires Valid()
      modifies this`records
      ensures Valid()
      ensures endPass <==> key !in old(records)
      ensures records == if endPass then old(records) else old(records)[key := Transition(old(records)[key], o)]
    {
      if key !in records {
        return true;
      }
      endPass := false;
      var r0 := records[key];
      var r := r0;
      if r.status.state == Completed {
        return;
      }
      if o.sidecarExists {
        r := r.(status := Status(Completed, FoundScanned), progress := 100);
      } else if r.scanKey == None {
        var job := o.submitted;
        if job.Some? && job.value.accepted {
          r := r.(scanKey := Some(job.value.resultPath), status := Status(Pending, Queued), progress := 0);
        }
      } else {
        match o.polled {
          case Started(stage, pageId, totalPage) =>
            var page := if pageId.Some? then pageId.value else 0;
            var total := if totalPage.Some? then totalPage.value else 1;
            if page < 0 {
              page := 0;
            }
            var desc := StageMessage(stage, page, total);
            var progress := if total > 0 then (100 * page) / total else 0;
            r := r.(status := Status(Progressing, desc), progress := progress);
          case Finished =>
            r := r.(status := Status(Completed, ScanDone), progress := 100);
          case Failed(message) =>
            r := r.(status := Status(Error, message));
          case OtherStatus(_) =>
        }
      }
      assert r == Transition(r0, o);
      UpdateWellFormed(records, key, r);
      records := records[key := r];
    }

    /** Lines 85-153: one pass over a snapshot of the keys, with one observation per key. */
    method ScanPass(keys: seq<string>, obs: seq<Observation>)
      requires Valid() && |obs| == |keys|
      modifies this`records
      ensures Valid()
      ensures records == PassOf(old(records), keys, obs)
    {
      var i := 0;
      while i < |keys|
        invariant 0 <= i <= |keys| && Valid()
        invariant PassOf(old(records), keys, obs) == PassOf(records, keys[i..], obs[i..])
      {
        var endPass := Step(keys[i], obs[i]);
        if endPass {
          return;
        }
        assert keys[i..][1..] == keys[i + 1..] && obs[i..][1..] == obs[i + 1..];
        i := i + 1;
      }
    }

    /** Lines 55-77: the report, in the table's key order. */
    method GetScanStatus() returns (report: ScanReport)
      requires Valid()
      ensures |report.files| == |order|
      ensures forall m :: 0 <= m < |order| ==> report.files[m] == View(records[order[m]])
      ensures report.partialDone <==>
        exists m, n :: 0 <= m < n < |order| && Done(records, order[m]) && Done(records, order[n])
      ensures report.allDone <==> forall k :: k in records ==> records[k].status.state == Completed
    {
      report := Report(records, order);
      AllCompletedByKeys(records, order);
    }
  }

  /**
   * Lines 62-77 on a snapshot of the table: one view per key in order,
   * "partial done" when more than one record is completed, "all done" when
   * every one is.
   */
  method Report(recs: map<string, Record>, keys: seq<string>) returns (report: ScanReport)
    requires forall m :: 0 <= m < |keys| ==> keys[m] in recs
    ensures |report.files| == |keys|
    ensures forall m :: 0 <= m < |keys| ==> report.files[m] == View(recs[keys[m]])
    ensures report.partialDone <==> exists m, n :: 0 <= m < n < |keys| && Done(recs, keys[m]) && Done(recs, keys[n])
    ensures report.allDone <==> forall m :: 0 <= m < |keys| ==> Done(recs, keys[m])
  {
    var files: seq<FileView> := [];
    var count := 0;
    var all := true;
    for i := 0 to |keys|
      invariant |files| == i
      invariant forall m :: 0 <= m < i ==> files[m] == View(recs[keys[m]])
      invariant count == CompletedCount(recs, keys[..i])
      invariant all <==> forall m :: 0 <= m < i ==> Done(recs, keys[m])
    {
      var scanObj := recs[keys[i]];
      files := files + [View(scanObj)];
      var done := if scanObj.status.state == Completed then 1 else 0;
      CompletedCountSnoc(recs, keys, i);
      count := count + done;
      all := all && done == 1;
    }
    assert keys[..|keys|] == keys;
    CompletedCountAboveOne(recs, keys);
    report := ScanReport(files, count > 1, all);
  }

  /** start_scan, lines 49-52 and 158-161: the worker is started at most once. */
  class ScanWorker {
    var started: bool

    constructor ()
      ensures !started
    {
      started := false;
    }

    method StartScan() returns (launched: bool)
      modifies this
      ensures started
      ensures launched <==> !old(started)
    {
      launched := !started;
      if !started {
        started := true;
      }
    }
  }
}
