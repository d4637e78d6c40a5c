/**
 * The job ledger of the web back end: jobs and their logs held in two in-memory
 * dictionaries, the updates the background tasks make to them, and the decisions of the
 * status, download and log endpoints. Clocks, identifiers and file existence are parameters.
 */
module App {
  import opened Strings
  import opened Arith

  datatype JobStatus = Running | Done | Error | Canceled
  datatype FileType = Epub | Pdf

  /** What the job is working on: a chapter label for EPUB jobs, a page number for PDF jobs. */
  datatype CurrentProgress = CurrentProgress(fileType: FileType, chapter: Option<string>, page: Option<int>)
  datatype JobStats = JobStats(translatedChunks: int, retries: int, errors: int)
  datatype LastError = LastError(errorType: string, msg: string)

  datatype TranslationJob = TranslationJob(
    id: string, fileType: FileType, targetLang: string, status: JobStatus, progress: int,
    current: Option<CurrentProgress>, stats: JobStats, lastError: Option<LastError>,
    inputPath: string, outputPath: Option<string>, createdAt: real, updatedAt: real)

  /** One keyword argument of `update_job`; `NoSuchField` is a name the job has no attribute for. */
  datatype FieldUpdate =
    | SetStatus(status: JobStatus)
    | SetProgress(progress: int)
    | SetCurrent(current: Option<CurrentProgress>)
    | SetStats(stats: JobStats)
    | SetLastError(lastError: Option<LastError>)
    | SetOutputPath(outputPath: Option<string>)
    | NoSuchField(name: string)

  /** The most log entries a job keeps. */
  const MaxLogEntries: nat := 100

  /** A new job: running, no progress, zero statistics, no output and no error. */
  function NewJob(jobId: string, fileType: FileType, targetLang: string, inputPath: string, now: real): TranslationJob
  {
    TranslationJob(jobId, fileType, targetLang, Running, 0, None, JobStats(0, 0, 0), None, inputPath, None, now, now)
  }

  /** `setattr` for one keyword argument that names an attribute; any other name is passed over. */
  function ApplyField(job: TranslationJob, u: FieldUpdate): TranslationJob
  {
    match u
    case SetStatus(s) => job.(status := s)
    case SetProgress(p) => job.(progress := p)
    case SetCurrent(c) => job.(current := c)
    case SetStats(s) => job.(stats := s)
    case SetLastError(e) => job.(lastError := e)
    case SetOutputPath(p) => job.(outputPath := p)
    case NoSuchField(_) => job
  }

  /** The keyword arguments applied in order. */
  function ApplyUpdates(job: TranslationJob, updates: seq<FieldUpdate>): TranslationJob
  {
    if updates == [] then job
    else ApplyField(ApplyUpdates(job, updates[..|updates| - 1]), updates[|updates| - 1])
  }

  /** `update_job` on the stored job: the updates, then the new `updated_at`. */
  function UpdatedJob(job: TranslationJob, updates: seq<FieldUpdate>, now: real): TranslationJob
  {
    ApplyUpdates(job, updates).(updatedAt := now)
  }

  predicate SetsStatus(u: FieldUpdate) { u.SetStatus? }
  predicate SetsOutputPath(u: FieldUpdate) { u.SetOutputPath? }

  /**
   * Updates change only the fields they name: the identity, type, language, input path and
   * creation time never change, and a field no update names keeps its value.
   */
  lemma {:induction false} ApplyUpdatesFrame(job: TranslationJob, updates: seq<FieldUpdate>)
    ensures var r := ApplyUpdates(job, updates);
      && r.id == job.id && r.fileType == job.fileType && r.targetLang == job.targetLang
      && r.inputPath == job.inputPath && r.createdAt == job.createdAt
    ensures (forall k | 0 <= k < |updates| :: !SetsStatus(updates[k])) ==> ApplyUpdates(job, updates).status == job.status
    ensures (forall k | 0 <= k < |updates| :: !SetsOutputPath(updates[k])) ==>
      ApplyUpdates(job, updates).outputPath == job.outputPath
  {
    if updates != [] {
      var init := updates[..|updates| - 1];
      assert forall k | 0 <= k < |init| :: init[k] == updates[k];
      ApplyUpdatesFrame(job, init);
    }
  }

  /** The last update of a field decides it, whatever came before: a finished job can be set running again. */
  lemma {:induction false} LastStatusWins(job: TranslationJob, updates: seq<FieldUpdate>, s: JobStatus, rest: seq<FieldUpdate>)
    requires forall k | 0 <= k < |rest| :: !SetsStatus(rest[k])
    ensures ApplyUpdates(job, updates + [SetStatus(s)] + rest).status == s
    decreases |rest|
  {
    if rest == [] {
      assert (updates + [SetStatus(s)] + rest)[..|updates|] == updates;
    } else {
      var all := updates + [SetStatus(s)] + rest;
      var init := rest[..|rest| - 1];
      assert all[..|all| - 1] == updates + [SetStatus(s)] + init;
      LastStatusWins(job, updates, s, init);
    }
  }

  /** The list after trimming: the last `MaxLogEntries` entries, in order. */
  function CapLog(entries: seq<string>): (r: seq<string>)
    ensures |r| == if |entries| > MaxLogEntries then MaxLogEntries else |entries|
    ensures r == entries[|entries| - |r|..]
  {
    if |entries| > MaxLogEntries then entries[|entries| - MaxLogEntries..] else entries
  }

  /** `f"{timestamp} - {message}"`. */
  function LogEntry(timestamp: string, message: string): string
  {
    timestamp + " - " + message
  }

  /** The log after `add_job_log` of each message in turn. */
  function LogsAfter(log: seq<string>, entries: seq<string>): seq<string>
  {
    if entries == [] then log
    else CapLog(LogsAfter(log, entries[..|entries| - 1]) + [entries[|entries| - 1]])
  }

  /** A capped log stays capped, and the most recent message is last. */
  lemma {:induction false} LogsAfterFacts(log: seq<string>, entries: seq<string>)
    requires |log| <= MaxLogEntries
    ensures |LogsAfter(log, entries)| <= MaxLogEntries
    ensures entries != [] ==>
      LogsAfter(log, entries) != [] && LogsAfter(log, entries)[|LogsAfter(log, entries)| - 1] == entries[|entries| - 1]
  {
    if entries != [] {
      LogsAfterFacts(log, entries[..|entries| - 1]);
    }
  }

  /**
   * `int(current / total * 100)`, or 0 when `total` is not positive, with Python's
   * truncation toward zero and no clamp.
   */
  function Percent(current: int, total: int): int
  {
    if total <= 0 then 0
    else if current >= 0 then current * 100 / total
    else -((-current * 100) / total)
  }

  /** Within bounds the percentage runs from 0 to 100 and grows with `current`; past `total` nothing stops it exceeding 100. */
  lemma PercentFacts(current: int, other: int, total: int)
    ensures 0 <= current <= total ==> 0 <= Percent(current, total) <= 100
    ensures 0 < total ==> Percent(total, total) == 100
    ensures 0 <= current <= other ==> Percent(current, total) <= Percent(other, total)
    ensures 0 < total && 2 * total <= current ==> Percent(current, total) >= 200
  {
    if 0 < total && 0 <= current {
      if current <= total {
        ScaledShare(current, total, total, 100);
      }
      if current <= other {
        MulLe(100, current, other);
        DivMonotone(current * 100, other * 100, total);
      }
      if 2 * total <= current {
        DivMonotone(total * 200, current * 100, total);
        DivExact(200, total);
      }
    }
    if 0 < total {
      DivExact(100, total);
    }
  }

  /** One report the processor makes through the job's callback. */
  datatype ProgressCall = ProgressCall(fileType: FileType, currentItem: string, current: int, total: int)

  /** What `progress_callback` records: a chapter label only for EPUB, a page number only for PDF. */
  function CurrentFor(call: ProgressCall): CurrentProgress
  {
    CurrentProgress(call.fileType,
      if call.fileType == Epub then Some(call.currentItem) else None,
      if call.fileType == Pdf then Some(call.current) else None)
  }

  function CallbackUpdates(call: ProgressCall): seq<FieldUpdate>
  {
    [SetProgress(Percent(call.current, call.total)), SetCurrent(Some(CurrentFor(call)))]
  }

  /** What one callback leaves in the stored job. */
  function AfterCallback(job: TranslationJob, call: ProgressCall, now: real): TranslationJob
  {
    job.(progress := Percent(call.current, call.total), current := Some(CurrentFor(call)), updatedAt := now)
  }

  /** The callback's `update_job` call sets exactly the progress, the current item and the update time. */
  lemma CallbackUpdatesApplied(job: TranslationJob, call: ProgressCall, now: real)
    ensures UpdatedJob(job, CallbackUpdates(call), now) == AfterCallback(job, call, now)
  {
    var u := CallbackUpdates(call);
    assert u[..1][..0] == [] && u[..1][0] == u[0] && u[..|u| - 1] == u[..1];
    assert ApplyUpdates(job, []) == job;
    assert ApplyUpdates(job, u[..1]) == job.(progress := Percent(call.current, call.total));
  }

  /** The stored job after each callback in turn. */
  function AfterCalls(job: TranslationJob, calls: seq<ProgressCall>, now: real): TranslationJob
  {
    if calls == [] then job
    else AfterCallback(AfterCalls(job, calls[..|calls| - 1], now), calls[|calls| - 1], now)
  }

  /** How the processor ended: its result dictionary, or an exception. */
  datatype JobOutcome = Succeeded | Failed(error: Option<string>) | Raised(message: string)

  /** `input_path.replace('.epub', '_translated.epub')`, or the same for `.pdf`. */
  function OutputPath(fileType: FileType, inputPath: string): string
  {
    if fileType == Epub then Replace(inputPath, ".epub", "_translated.epub")
    else Replace(inputPath, ".pdf", "_translated.pdf")
  }

  function OutcomeUpdates(outcome: JobOutcome, outputPath: string): seq<FieldUpdate>
  {
    match outcome
    case Succeeded => [SetStatus(Done), SetProgress(100), SetOutputPath(Some(outputPath))]
    case Failed(error) =>
      [SetStatus(Error), SetLastError(Some(LastError("Processing", if error.Some? then error.value else "Unknown error")))]
    case Raised(message) => [SetStatus(Error), SetLastError(Some(LastError("Processing", message)))]
  }

  /** The stored job once a background task has run: its callbacks, then the outcome. */
  function FinishedJob(job: TranslationJob, calls: seq<ProgressCall>, outcome: JobOutcome, outputPath: string, now: real): TranslationJob
  {
    UpdatedJob(AfterCalls(job, calls, now), OutcomeUpdates(outcome, outputPath), now)
  }

  /** Python truthiness of an optional string. */
  predicate Truthy(s: Option<string>)
  {
    s.Some? && s.value != ""
  }

  /** The output path of a non-empty input path is non-empty. */
  lemma OutputPathNonEmpty(fileType: FileType, inputPath: string)
    requires inputPath != ""
    ensures OutputPath(fileType, inputPath) != ""
  {
  }

  /**
   * A success leaves the job done at 100 with its output path set, and a failed result or an
   * exception leaves it in error with a processing error, whatever the callbacks recorded.
   */
  lemma FinishedJobFacts(job: TranslationJob, calls: seq<ProgressCall>, outcome: JobOutcome, outputPath: string, now: real)
    ensures var r := FinishedJob(job, calls, outcome, outputPath, now);
      outcome.Succeeded? ==> r.status == Done && r.progress == 100 && r.outputPath == Some(outputPath)
    ensures var r := FinishedJob(job, calls, outcome, outputPath, now);
      !outcome.Succeeded? ==> r.status == Error && r.lastError.Some? && r.lastError.value.errorType == "Processing"
    ensures var r := FinishedJob(job, calls, outcome, outputPath, now);
      r.id == job.id && r.fileType == job.fileType && r.inputPath == job.inputPath
  {
    AfterCallsKeepsIdentity(job, calls, now);
    OutcomeApplied(AfterCalls(job, calls, now), outcome, outputPath);
  }

  /** The outcome's updates, field by field. */
  lemma OutcomeApplied(j: TranslationJob, outcome: JobOutcome, path: string)
    ensures var r := ApplyUpdates(j, OutcomeUpdates(outcome, path));
      && r.id == j.id && r.fileType == j.fileType && r.inputPath == j.inputPath
      && (outcome.Succeeded? ==> r.status == Done && r.progress == 100 && r.outputPath == Some(path))
      && (outcome.Failed? ==> r.status == Error && r.lastError.Some? && r.lastError.value.errorType == "Processing")
      && (outcome.Raised? ==> r.status == Error && r.lastError == Some(LastError("Processing", outcome.message)))
  {
    var u := OutcomeUpdates(outcome, path);
    var first := ApplyUpdates(j, u[..1]);
    var status := if outcome.Succeeded? then Done else Error;
    assert u[0] == SetStatus(status);
    assert u[..1][..0] == [] && u[..1][0] == u[0];
    assert ApplyUpdates(j, []) == j;
    assert first == j.(status := status);
    if outcome.Succeeded? {
      assert u[..2][..1] == u[..1];
      assert ApplyUpdates(j, u[..2]) == first.(progress := 100);
      assert u[..2] == u[..|u| - 1];
    } else {
      assert u[..1] == u[..|u| - 1];
    }
  }

  lemma {:induction false} AfterCallsKeepsIdentity(job: TranslationJob, calls: seq<ProgressCall>, now: real)
    ensures var r := AfterCalls(job, calls, now);
      r.id == job.id && r.fileType == job.fileType && r.inputPath == job.inputPath && r.status == job.status
  {
    if calls != [] {
      AfterCallsKeepsIdentity(job, calls[..|calls| - 1], now);
    }
  }

  /** Without a lowercase `.epub` in its path the output path is the input path: `BOOK.EPUB` is translated over itself. */
  lemma OutputPathWithoutExtension(inputPath: string)
    requires !Contains(inputPath, ".epub")
    ensures OutputPath(Epub, inputPath) == inputPath
  {
    ReplaceAbsent(inputPath, ".epub", "_translated.epub");
  }

  // ----- Endpoint decisions -----

  datatype StatusReply =
    | StatusNotFound
    | StatusOk(status: JobStatus, progress: int, current: Option<CurrentProgress>, stats: JobStats,
               lastError: Option<LastError>, downloadUrl: Option<string>)

  /** `get_job_status` on what the ledger holds for the id. */
  function StatusOf(jobId: string, job: Option<TranslationJob>): (r: StatusReply)
    ensures r.StatusNotFound? <==> job.None?
    ensures r.StatusOk? ==> r.status == job.value.status && r.progress == job.value.progress
    ensures r.StatusOk? ==> (r.downloadUrl.Some? <==> job.value.status == Done && Truthy(job.value.outputPath))
    ensures r.StatusOk? && r.downloadUrl.Some? ==> r.downloadUrl.value == "/jobs/" + jobId + "/download"
  {
    match job
    case None => StatusNotFound
    case Some(j) =>
      var url := if j.status == Done && Truthy(j.outputPath) then Some("/jobs/" + jobId + "/download") else None;
      StatusOk(j.status, j.progress, j.current, j.stats, j.lastError, url)
  }

  datatype DownloadReply =
    | NotFound(detail: string)
    | BadRequest(detail: string)
    | FileReply(path: string, mediaType: string, filename: string)

  /** `os.path.basename`: the text after the last `/`. */
  function Basename(path: string): string
  {
    var parts := Split(path, '/');
    parts[|parts| - 1]
  }

  /** `download_result` on what the ledger holds for the id; `fileExists` says which paths are files. */
  function DownloadOf(job: Option<TranslationJob>, fileExists: string -> bool): (r: DownloadReply)
    ensures job.None? ==> r == NotFound("Job not found")
    ensures r.FileReply? <==> job.Some? && job.value.status == Done && Truthy(job.value.outputPath) && fileExists(job.value.outputPath.value)
    ensures job.Some? && !(job.value.status == Done && Truthy(job.value.outputPath)) ==> r == BadRequest("Translation not completed")
    ensures r.FileReply? ==> r.path == job.value.outputPath.value
    ensures r.FileReply? ==> r.mediaType == (if job.value.fileType == Epub then "application/epub+zip" else "application/pdf")
  {
    match job
    case None => NotFound("Job not found")
    case Some(j) =>
      if j.status != Done || !Truthy(j.outputPath) then BadRequest("Translation not completed")
      else if !fileExists(j.outputPath.value) then NotFound("Output file not found")
      else if j.fileType == Epub then
        FileReply(j.outputPath.value, "application/epub+zip", Replace(Basename(j.inputPath), ".epub", "_translated.epub"))
      else FileReply(j.outputPath.value, "application/pdf", Replace(Basename(j.inputPath), ".pdf", "_translated.pdf"))
  }

  /** A job that finished successfully is reported with a download link and served once its output exists. */
  lemma FinishedJobServed(jobId: string, job: TranslationJob, calls: seq<ProgressCall>, now: real, fileExists: string -> bool)
    requires job.inputPath != ""
    requires fileExists(OutputPath(job.fileType, job.inputPath))
    ensures var r := FinishedJob(job, calls, Succeeded, OutputPath(job.fileType, job.inputPath), now);
      StatusOf(jobId, Some(r)).downloadUrl == Some("/jobs/" + jobId + "/download")
    ensures var r := FinishedJob(job, calls, Succeeded, OutputPath(job.fileType, job.inputPath), now);
      DownloadOf(Some(r), fileExists).FileReply?
  {
    OutputPathNonEmpty(job.fileType, job.inputPath);
    FinishedJobFacts(job, calls, Succeeded, OutputPath(job.fileType, job.inputPath), now);
  }

  datatype LogsReply = LogsNotFound | LogsOk(logs: seq<string>)

  // ----- The ledger -----

  /** The `jobs` and `job_logs` dictionaries. */
  class JobLedger {
    var jobs: map<string, TranslationJob>
    var logs: map<string, seq<string>>

    /** Every job has a log list and no log list is longer than the cap. */
    predicate Valid()
      reads this
    {
      && jobs.Keys == logs.Keys
      && forall id | id in logs :: |logs[id]| <= MaxLogEntries
    }

    constructor()
      ensures Valid() && jobs == map[] && logs == map[]
    {
      jobs := map[];
      logs := map[];
    }

    /** `create_job`: `jobId` is the freshly generated identifier and `now` the clock. */
    method CreateJob(jobId: string, fileType: FileType, targetLang: string, inputPath: string, now: real)
      requires Valid()
      modifies this
      ensures Valid()
      ensures jobs == old(jobs)[jobId := NewJob(jobId, fileType, targetLang, inputPath, now)]
      ensures logs == old(logs)[jobId := []]
    {
      jobs := jobs[jobId := NewJob(jobId, fileType, targetLang, inputPath, now)];
      logs := logs[jobId := []];
    }

    /** `update_job`: an unknown id changes nothing; otherwise each named attribute is set in turn. */
    method UpdateJob(jobId: string, updates: seq<FieldUpdate>, now: real)
      requires Valid()
      modifies this
      ensures Valid()
      ensures jobs == if jobId in old(jobs) then old(jobs)[jobId := UpdatedJob(old(jobs)[jobId], updates, now)] else old(jobs)
      ensures logs == old(logs)
    {
      if jobId in jobs {
        var job := jobs[jobId];
        for k := 0 to |updates|
          invariant job == ApplyUpdates(jobs[jobId], updates[..k])
        {
          assert updates[..k + 1][..k] == updates[..k];
          job := ApplyField(job, updates[k]);
        }
        assert updates[..|updates|] == updates;
        jobs := jobs[jobId := job.(updatedAt := now)];
      }
    }

    /** `add_job_log`: an unknown id is passed over; otherwise the entry goes last and the list is trimmed. */
    method AddJobLog(jobId: string, message: string, timestamp: string)
      requires Valid()
      modifies this
      ensures Valid()
      ensures logs == if jobId in old(logs) then old(logs)[jobId := LogsAfter(old(logs)[jobId], [LogEntry(timestamp, message)])]
                      else old(logs)
      ensures jobs == old(jobs)
    {
      if jobId in logs {
        var entries := logs[jobId] + [LogEntry(timestamp, message)];
        if |entries| > MaxLogEntries {
          entries := entries[|entries| - MaxLogEntries..];
        }
        assert [LogEntry(timestamp, message)][..0] == [];
        logs := logs[jobId := entries];
      }
    }

    /** `progress_callback`. */
    method ProgressCallback(jobId: string, call: ProgressCall, now: real)
      requires Valid()
      modifies this
      ensures Valid()
      ensures jobs == if jobId in old(jobs) then old(jobs)[jobId := AfterCallback(old(jobs)[jobId], call, now)] else old(jobs)
      ensures logs == old(logs)
    {
      if jobId in jobs {
        CallbackUpdatesApplied(jobs[jobId], call, now);
      }
      UpdateJob(jobId, [SetProgress(Percent(call.current, call.total)), SetCurrent(Some(CurrentFor(call)))], now);
    }

    /** `process_epub_job`: its start is logged, every callback is logged, then the outcome is recorded. */
    method ProcessEpubJob(jobId: string, inputPath: string, calls: seq<ProgressCall>, outcome: JobOutcome, now: real, timestamp: string)
      requires Valid()
      modifies this
      ensures Valid()
      ensures jobId in old(jobs) ==>
        jobs == old(jobs)[jobId := FinishedJob(old(jobs)[jobId], calls, outcome, OutputPath(Epub, inputPath), now)]
      ensures jobId in old(jobs) ==> logs == old(logs)[jobId := LogsAfter(old(logs)[jobId], EpubJobLog(calls, timestamp))]
      ensures jobId !in old(jobs) ==> jobs == old(jobs) && logs == old(logs)
    {
      if jobId !in jobs {
        return;
      }
      RunLoggedCallbacks(jobId, calls, now, timestamp);
      UpdateJob(jobId, OutcomeUpdates(outcome, OutputPath(Epub, inputPath)), now);
    }

    /** The logged part of an EPUB job: the start message, then every callback with its log line. */
    method RunLoggedCallbacks(jobId: string, calls: seq<ProgressCall>, now: real, timestamp: string)
      requires Valid() && jobId in jobs
      modifies this
      ensures Valid() && jobId in jobs
      ensures jobs == old(jobs)[jobId := AfterCalls(old(jobs)[jobId], calls, now)]
      ensures logs == old(logs)[jobId := LogsAfter(old(logs)[jobId], EpubJobLog(calls, timestamp))]
    {
      ghost var log0 := logs[jobId];
      AddJobLog(jobId, "Starting EPUB processing...", timestamp);
      RunLoggingCallbacks(jobId, calls, now, timestamp);
      LogsAfterConcat(log0, [LogEntry(timestamp, "Starting EPUB processing...")], CallbackLog(calls, timestamp));
    }

    /** `process_pdf_job`: the callbacks, then the outcome; nothing is logged. */
    method ProcessPdfJob(jobId: string, inputPath: string, calls: seq<ProgressCall>, outcome: JobOutcome, now: real)
      requires Valid()
      modifies this
      ensures Valid()
      ensures jobId in old(jobs) ==>
        jobs == old(jobs)[jobId := FinishedJob(old(jobs)[jobId], calls, outcome, OutputPath(Pdf, inputPath), now)]
      ensures jobId !in old(jobs) ==> jobs == old(jobs)
      ensures logs == old(logs)
    {
      if jobId !in jobs {
        return;
      }
      RunCallbacks(jobId, calls, now);
      UpdateJob(jobId, OutcomeUpdates(outcome, OutputPath(Pdf, inputPath)), now);
    }

    /** The processor's callbacks in order, each updating the job (the PDF job's callback). */
    method RunCallbacks(jobId: string, calls: seq<ProgressCall>, now: real)
      requires Valid() && jobId in jobs
      modifies this
      ensures Valid()
      ensures jobs == old(jobs)[jobId := AfterCalls(old(jobs)[jobId], calls, now)]
      ensures logs == old(logs)
    {
      var job := jobs[jobId];
      for k := 0 to |calls|
        invariant Valid() && jobId in jobs
        invariant jobs == old(jobs)[jobId := AfterCalls(job, calls[..k], now)]
        invariant logs == old(logs)
      {
        assert calls[..k + 1][..k] == calls[..k];
        ProgressCallback(jobId, calls[k], now);
      }
      assert calls[..|calls|] == calls;
    }

    /** The processor's callbacks in order, each updating the job and logging its item (the EPUB job's callback). */
    method RunLoggingCallbacks(jobId: string, calls: seq<ProgressCall>, now: real, timestamp: string)
      requires Valid() && jobId in jobs
      modifies this
      ensures Valid()
      ensures jobs == old(jobs)[jobId := AfterCalls(old(jobs)[jobId], calls, now)]
      ensures logs == old(logs)[jobId := LogsAfter(old(logs)[jobId], CallbackLog(calls, timestamp))]
    {
      var job := jobs[jobId];
      var log := logs[jobId];
      for k := 0 to |calls|
        invariant Valid() && jobId in jobs
        invariant jobs == old(jobs)[jobId := AfterCalls(job, calls[..k], now)]
        invariant logs == old(logs)[jobId := LogsAfter(log, CallbackLog(calls[..k], timestamp))]
      {
        assert calls[..k + 1][..k] == calls[..k];
        ghost var job1 := AfterCalls(job, calls[..k + 1], now);
        ghost var log1 := LogsAfter(log, CallbackLog(calls[..k + 1], timestamp));
        ProgressCallback(jobId, calls[k], now);
        MapUpdateTwice(old(jobs), jobId, AfterCalls(job, calls[..k], now), job1);
        AddJobLog(jobId, "Processing " + calls[k].currentItem, timestamp);
        LogsAfterAppend(log, CallbackLog(calls[..k], timestamp), LogEntry(timestamp, "Processing " + calls[k].currentItem));
        MapUpdateTwice(old(logs), jobId, LogsAfter(log, CallbackLog(calls[..k], timestamp)), log1);
      }
      assert calls[..|calls|] == calls;
    }

    /** `get_job_status`: not found for an unknown id, else the job's status and progress and, when done with an output, its download link. */
    function GetJobStatus(jobId: string): (r: StatusReply)
      reads this
      ensures r.StatusNotFound? <==> jobId !in jobs
      ensures r.StatusOk? ==> r.status == jobs[jobId].status && r.progress == jobs[jobId].progress
      ensures r.StatusOk? ==> (r.downloadUrl == Some("/jobs/" + jobId + "/download") <==> jobs[jobId].status == Done && Truthy(jobs[jobId].outputPath))
    {
      StatusOf(jobId, if jobId in jobs then Some(jobs[jobId]) else None)
    }

    /** `download_result`: 404 for an unknown id, 400 until the job is done with an output, then the file if it exists. */
    function DownloadResult(jobId: string, fileExists: string -> bool): (r: DownloadReply)
      reads this
      ensures jobId !in jobs ==> r == NotFound("Job not found")
      ensures jobId in jobs && !(jobs[jobId].status == Done && Truthy(jobs[jobId].outputPath)) ==> r == BadRequest("Translation not completed")
      ensures r.FileReply? <==> jobId in jobs && jobs[jobId].status == Done && Truthy(jobs[jobId].outputPath) && fileExists(jobs[jobId].outputPath.value)
      ensures r.FileReply? ==> r.path == jobs[jobId].outputPath.value
    {
      DownloadOf(if jobId in jobs then Some(jobs[jobId]) else None, fileExists)
    }

    /** `get_job_logs`: a copy of the job's log, or not found. */
    function GetJobLogs(jobId: string): (r: LogsReply)
      reads this
      ensures r.LogsNotFound? <==> jobId !in logs
      ensures r.LogsOk? ==> r.logs == logs[jobId]
    {
      if jobId in logs then LogsOk(logs[jobId]) else LogsNotFound
    }
  }

  /** The messages an EPUB job logs for its callbacks, one per call. */
  function CallbackLog(calls: seq<ProgressCall>, timestamp: string): seq<string>
  {
    if calls == [] then []
    else CallbackLog(calls[..|calls| - 1], timestamp) + [LogEntry(timestamp, "Processing " + calls[|calls| - 1].currentItem)]
  }

  /** The messages an EPUB job logs: its start, then one per callback. */
  function EpubJobLog(calls: seq<ProgressCall>, timestamp: string): seq<string>
  {
    [LogEntry(timestamp, "Starting EPUB processing...")] + CallbackLog(calls, timestamp)
  }

  /** Logging one list after another is logging their concatenation. */
  lemma {:induction false} LogsAfterConcat(log: seq<string>, xs: seq<string>, ys: seq<string>)
    ensures LogsAfter(LogsAfter(log, xs), ys) == LogsAfter(log, xs + ys)
    decreases |ys|
  {
    if ys == [] {
      assert xs + ys == xs;
    } else {
      var init := ys[..|ys| - 1];
      assert (xs + ys)[..|xs + ys| - 1] == xs + init;
      LogsAfterConcat(log, xs, init);
    }
  }

  lemma LogsAfterAppend(log: seq<string>, entries: seq<string>, e: string)
    ensures LogsAfter(log, entries + [e]) == CapLog(LogsAfter(log, entries) + [e])
  {
    assert (entries + [e])[..|entries|] == entries;
  }

  /** Setting a key twice keeps only the second value. */
  lemma MapUpdateTwice<K, V>(m: map<K, V>, k: K, a: V, b: V)
    ensures m[k := a][k := b] == m[k := b]
  {
  }
}
