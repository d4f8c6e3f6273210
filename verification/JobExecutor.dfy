/** JobExecutor.execute: one job from its claim to its single acknowledged end, with every awaited call free to fail. */
module JobExecutors {
  import opened Options
  import opened InputState

  /** JobCancelledException, a BaseException such as asyncio's cancellation, or any other exception. */
  datatype Failure = JobCancelled | Interrupted | Error(message: string)

  datatype Outcome<+T> = Returned(value: T) | Raised(failure: Failure)

  /** A claimed job; the server may have left out the signing secret. */
  datatype Job = Job(guid: string, tool: string, previous: Option<Previous>, hasSecret: bool)

  /** A tool's result; `results` stands for its encoded text. */
  datatype JobResult = JobResult(success: bool, results: string, reportHtml: Option<string>, errorMessage: string)

  const INLINE_JSON_THRESHOLD: nat := 1024 * 1024
  const COLLECTION_TEST := "collection_test"
  const NO_SECRET := "signing_secret"
  const UNKNOWN_ERROR := "Unknown error"

  /** How everything outside the executor turns out during one job. Every entry is arbitrary. */
  datatype Script = Script(
    setup: Outcome<()>,                       // creating the signer and the other components
    config: Outcome<()>,                      // loading the configuration
    progress: Outcome<()>,                    // the first progress report
    stateHash: Outcome<Option<string>>,       // listing and hashing the inputs; None without a local path
    noChangeReady: Outcome<()>,               // progress report and signature before a NO_CHANGE completion
    noChangeCall: Outcome<()>,
    tool: Outcome<JobResult>,
    signature: Outcome<()>,                   // signing and measuring the results
    resultsUpload: Outcome<Option<string>>,   // an upload id, or None when the upload failed
    reportUpload: Outcome<Option<string>>,
    completeCall: Outcome<()>,
    failureSignature: Outcome<()>,
    failCall: Outcome<()>,                    // reporting a failed tool
    lastFailCall: Outcome<()>,                // reporting an exception, signature included
    closeInterrupted: bool)                   // the only way for closing the progress reporter to raise

  // ------------------------------------------------------------ calls that end a job

  datatype Call =
    | CompleteNoChange(guid: string, hash: string, source: string)
    | Complete(guid: string, results: Option<string>, reportHtml: Option<string>,
               resultsUploadId: Option<string>, reportUploadId: Option<string>, storedHash: Option<string>)
    | Fail(guid: string, message: string)

  /** A call, and whether the executor saw it succeed. */
  datatype Event = Event(call: Call, acknowledged: bool)

  class ApiClient {
    var log: seq<Event>

    constructor ()
      ensures log == []
    {
      log := [];
    }

    method Send(call: Call, outcome: Outcome<()>)
      modifies this
      ensures log == old(log) + [Event(call, outcome.Returned?)]
    {
      log := log + [Event(call, outcome.Returned?)];
    }
  }

  function Rank(call: Call): nat {
    match call
    case CompleteNoChange(_, _, _) => 0
    case Complete(_, _, _, _, _, _) => 1
    case Fail(_, _) => 2
  }

  /** One job's calls: all name it, nothing follows an acknowledged one, each completion is tried at most once
      and before any failure report, and a failure is reported at most twice. */
  ghost predicate Session(t: seq<Event>, guid: string) {
    && (forall i :: 0 <= i < |t| ==> t[i].call.guid == guid)
    && (forall i :: 0 <= i < |t| && t[i].acknowledged ==> i == |t| - 1)
    && (forall i, j :: 0 <= i < j < |t| ==> Rank(t[i].call) < Rank(t[j].call) || (t[i].call.Fail? && t[j].call.Fail?))
    && (forall i :: 0 <= i < |t| - 2 ==> !t[i].call.Fail?)
  }

  predicate Acknowledged(t: seq<Event>) { t != [] && t[|t| - 1].acknowledged }
  predicate Completed(t: seq<Event>) { Acknowledged(t) && !t[|t| - 1].call.Fail? }
  predicate FailureReported(t: seq<Event>) { Acknowledged(t) && t[|t| - 1].call.Fail? }

  // ------------------------------------------------------------ when a job goes through

  predicate Unchanged(job: Job, s: Script) {
    && job.tool != COLLECTION_TEST
    && s.stateHash.Returned? && s.stateHash.value.Some? && CheckNoChange(job.previous, s.stateHash.value.value)
  }

  predicate NoChangeGoesThrough(job: Job, s: Script) {
    Unchanged(job, s) && s.noChangeReady.Returned? && s.noChangeCall.Returned?
  }

  predicate NoChangeInterrupted(job: Job, s: Script) {
    || (job.tool != COLLECTION_TEST && s.stateHash == Raised(Interrupted))
    || (Unchanged(job, s) && (s.noChangeReady == Raised(Interrupted) ||
                              (s.noChangeReady.Returned? && s.noChangeCall == Raised(Interrupted))))
  }

  /** The hash stored with a full completion: the one that was found changed. A failed comparison leaves none. */
  function StoredHash(job: Job, s: Script): Option<string> {
    if job.tool != COLLECTION_TEST && s.stateHash.Returned? && !Unchanged(job, s) then s.stateHash.value else None
  }

  predicate LargeResults(result: JobResult) { |result.results| > INLINE_JSON_THRESHOLD }
  predicate HasReport(result: JobResult) { result.reportHtml.Some? && result.reportHtml.value != "" }

  predicate Uploads(upload: Outcome<Option<string>>) { upload.Returned? && upload.value.Some? }

  predicate ResultsGoThrough(s: Script) {
    && s.tool.Returned? && s.tool.value.success && s.signature.Returned?
    && (LargeResults(s.tool.value) ==> Uploads(s.resultsUpload))
    && (HasReport(s.tool.value) ==> Uploads(s.reportUpload))
    && s.completeCall.Returned?
  }

  predicate GoesThrough(job: Job, s: Script) {
    && job.hasSecret && s.setup.Returned? && s.config.Returned? && s.progress.Returned?
    && (NoChangeGoesThrough(job, s) || (!NoChangeInterrupted(job, s) && ResultsGoThrough(s)))
  }

  /** Results and report each travel once: inline or as an upload made for this job, never large results inline. */
  predicate Carries(call: Call, s: Script)
    requires call.Complete?
  {
    && s.tool.Returned? && s.tool.value.success
    && (if LargeResults(s.tool.value)
        then call.results == None && call.resultsUploadId.Some? && s.resultsUpload == Returned(call.resultsUploadId)
        else call.results == Some(s.tool.value.results) && call.resultsUploadId == None)
    && (if HasReport(s.tool.value)
        then call.reportHtml == None && call.reportUploadId.Some? && s.reportUpload == Returned(call.reportUploadId)
        else call.reportHtml == s.tool.value.reportHtml && call.reportUploadId == None)
  }

  /** What each call says about the job. */
  predicate Truthful(call: Call, job: Job, s: Script) {
    match call
    case CompleteNoChange(_, hash, source) =>
      Unchanged(job, s) && hash == s.stateHash.value.value && source == job.previous.value.guid
    case Complete(_, _, _, _, _, hash) => Carries(call, s) && hash == StoredHash(job, s) && !NoChangeGoesThrough(job, s)
    case Fail(_, _) => !GoesThrough(job, s)
  }

  ghost predicate AllTruthful(t: seq<Event>, job: Job, s: Script) {
    forall i :: 0 <= i < |t| ==> Truthful(t[i].call, job, s)
  }

  /** How a job ends: the outcome `r` and the calls `t` fit together. */
  ghost predicate JobEnds(job: Job, s: Script, r: Outcome<()>, t: seq<Event>) {
    // a normal return is an acknowledged completion, and the other way round unless closing is cut short
    && (r.Returned? <==> Completed(t) && !s.closeInterrupted)
    && (Completed(t) <==> GoesThrough(job, s))
    // an ordinary exception was reported, or the report was tried; cancellation and interruption are not reported
    && (job.hasSecret && s.setup.Returned? && r.Raised? && r.failure.Error? ==>
          && t != [] && t[|t| - 1].call.Fail?
          && t[|t| - 1].call.message in {r.failure.message, Reported(r.failure.message)})
    && (r == Raised(JobCancelled) && s.setup.Returned? && job.hasSecret ==> !Acknowledged(t))
    && (Acknowledged(t) && r.Raised? && !s.closeInterrupted ==> r.failure.Error?)
    && (!job.hasSecret ==> t == [] && r == Raised(Error(NO_SECRET)))
    && (job.hasSecret && s.setup.Raised? ==> t == [] && r == Raised(s.setup.failure))
  }

  function Completions(t: seq<Event>): nat {
    if t == [] then 0
    else
      var last := t[|t| - 1];
      Completions(t[..|t| - 1]) + if last.acknowledged && !last.call.Fail? then 1 else 0
  }

  function FailureReports(t: seq<Event>): nat {
    if t == [] then 0
    else
      var last := t[|t| - 1];
      FailureReports(t[..|t| - 1]) + if last.acknowledged && last.call.Fail? then 1 else 0
  }

  lemma {:induction false} NothingAcknowledged(t: seq<Event>)
    requires forall i :: 0 <= i < |t| ==> !t[i].acknowledged
    ensures Completions(t) == 0 && FailureReports(t) == 0
  {
    if t != [] { NothingAcknowledged(t[..|t| - 1]); }
  }

  /** One terminal outcome per job: never two acknowledged ends, and a normal return is exactly one completion. */
  lemma OneTerminalOutcome(job: Job, s: Script, r: Outcome<()>, t: seq<Event>)
    requires Session(t, job.guid) && JobEnds(job, s, r, t)
    ensures Completions(t) + FailureReports(t) <= 1
    ensures r.Returned? <==> Completions(t) == 1 && !s.closeInterrupted
    ensures r.Raised? && !s.closeInterrupted ==> Completions(t) == 0
    ensures FailureReports(t) == 1 ==> r.Raised? && (r.failure.Error? || s.closeInterrupted)
  {
    hide GoesThrough;
    if t != [] { NothingAcknowledged(t[..|t| - 1]); }
  }

  // ------------------------------------------------------------ the executor

  class JobExecutor {
    const api: ApiClient
    var cancelRequested: bool
    var currentJobGuid: Option<string>

    constructor (api: ApiClient)
      ensures this.api == api && !cancelRequested && currentJobGuid == None
    {
      this.api, cancelRequested, currentJobGuid := api, false, None;
    }

    method RequestCancellation()
      modifies this
      ensures cancelRequested && currentJobGuid == old(currentJobGuid)
    {
      cancelRequested := true;
    }

    /** The first, uninterrupted stretch of `execute`. */
    method Begin(guid: string)
      modifies this
      ensures !cancelRequested && currentJobGuid == Some(guid)
    {
      cancelRequested := false;
      currentJobGuid := Some(guid);
    }

    /** The callback of a running tool: raises in the name of the current job when cancellation was requested. */
    method SyncProgressCallback() returns (r: Outcome<()>)
      ensures r == if cancelRequested then Raised(JobCancelled) else Returned(())
    {
      if cancelRequested { return Raised(JobCancelled); }
      r := Returned(());
    }

    method CheckNoChange(job: Job, s: Script) returns (r: Outcome<(bool, Option<string>)>, ghost t: seq<Event>)
      modifies api
      ensures api.log == old(api.log) + t && |t| <= 1
      ensures r.Raised? <==> NoChangeInterrupted(job, s)
      ensures r.Raised? ==> !NoChangeGoesThrough(job, s)
      ensures r.Raised? ==> r.failure == Interrupted
      ensures r.Returned? ==> r.value.0 == NoChangeGoesThrough(job, s)
      ensures r.Returned? && !r.value.0 ==> r.value.1 == StoredHash(job, s)
      ensures forall i :: 0 <= i < |t| ==>
                t[i].call.CompleteNoChange? && t[i].call.guid == job.guid && Truthful(t[i].call, job, s)
      ensures Acknowledged(t) <==> NoChangeGoesThrough(job, s)
    {
      t := [];
      if job.tool == COLLECTION_TEST { return Returned((false, None)), t; }
      if s.stateHash.Raised? { return Swallow(s.stateHash.failure), t; }
      if s.stateHash.value.None? { return Returned((false, None)), t; }
      var current := s.stateHash.value.value;
      if job.previous.None? || job.previous.value.inputStateHash == "" { return Returned((false, Some(current))), t; }
      if !InputState.CheckNoChange(job.previous, current) { return Returned((false, Some(current))), t; }
      if s.noChangeReady.Raised? { return Swallow(s.noChangeReady.failure), t; }
      api.Send(CompleteNoChange(job.guid, current, job.previous.value.guid), s.noChangeCall);
      t := [api.log[|api.log| - 1]];
      if s.noChangeCall.Raised? { return Swallow(s.noChangeCall.failure), t; }
      r := Returned((true, Some(current)));
    }

    /** What `execute` does with a successful result. */
    method SubmitResults(job: Job, result: JobResult, hash: Option<string>, s: Script)
      returns (r: Outcome<()>, ghost t: seq<Event>)
      requires s.tool == Returned(result) && result.success && hash == StoredHash(job, s) &&
                !NoChangeGoesThrough(job, s)
      modifies api
      ensures api.log == old(api.log) + t && |t| <= 1
      ensures forall i :: 0 <= i < |t| ==>
                t[i].call.Complete? && t[i].call.guid == job.guid && Truthful(t[i].call, job, s)
      ensures r.Returned? <==> ResultsGoThrough(s)
      ensures r.Returned? <==> Acknowledged(t)
    {
      t := [];
      if s.signature.Raised? { return Raised(s.signature.failure), t; }
      var resultsChunked := |result.results| > INLINE_JSON_THRESHOLD;
      var htmlChunked := result.reportHtml.Some? && result.reportHtml.value != "";
      var resultsUploadId, reportUploadId := None, None;
      if resultsChunked {
        if s.resultsUpload.Raised? { return Raised(s.resultsUpload.failure), t; }
        if s.resultsUpload.value.None? { return Raised(Error("Chunked results upload failed")), t; }
        resultsUploadId := s.resultsUpload.value;
      }
      if htmlChunked {
        if s.reportUpload.Raised? { return Raised(s.reportUpload.failure), t; }
        if s.reportUpload.value.None? { return Raised(Error("Chunked HTML upload failed")), t; }
        reportUploadId := s.reportUpload.value;
      }
      api.Send(Complete(job.guid, if resultsChunked then None else Some(result.results),
                        if htmlChunked then None else result.reportHtml, resultsUploadId, reportUploadId, hash),
               s.completeCall);
      t := [api.log[|api.log| - 1]];
      r := s.completeCall;
    }

    /** What `execute` does with a failed result: report it, then raise it. */
    method ReportFailedTool(job: Job, result: JobResult, s: Script)
      returns (r: Outcome<()>, failureReported: bool, ghost t: seq<Event>)
      requires !result.success
      modifies api
      ensures api.log == old(api.log) + t && |t| <= 1 && r.Raised?
      ensures forall i :: 0 <= i < |t| ==> t[i].call == Fail(job.guid, Reported(result.errorMessage))
      ensures failureReported <==> Acknowledged(t)
      ensures failureReported ==> r == Raised(Error(result.errorMessage))
    {
      t := [];
      if s.failureSignature.Raised? { return Raised(s.failureSignature.failure), false, t; }
      api.Send(Fail(job.guid, Reported(result.errorMessage)), s.failCall);
      t := [api.log[|api.log| - 1]];
      if s.failCall.Raised? { return Raised(s.failCall.failure), false, t; }
      failureReported := true;
      r := Raised(Error(result.errorMessage));
    }

    /** The guarded part of `execute`: raises, or returns after an acknowledged completion. */
    method Attempt(job: Job, s: Script) returns (r: Outcome<()>, failureReported: bool, ghost t: seq<Event>)
      requires job.hasSecret && s.setup.Returned?
      modifies api
      ensures api.log == old(api.log) + t && Session(t, job.guid) && AllTruthful(t, job, s)
      ensures r.Returned? <==> GoesThrough(job, s)
      ensures r.Returned? <==> Completed(t)
      ensures failureReported <==> FailureReported(t)
      ensures failureReported ==>
                && s.tool.Returned? && r == Raised(Error(s.tool.value.errorMessage))
                && t[|t| - 1].call == Fail(job.guid, Reported(s.tool.value.errorMessage))
      ensures |t| <= 2 && forall i :: 0 <= i < |t| - 1 ==> t[i].call.CompleteNoChange?
    {
      hide ResultsGoThrough, NoChangeGoesThrough, NoChangeInterrupted, Carries;
      t, failureReported := [], false;
      if s.config.Raised? { return Raised(s.config.failure), false, t; }
      if s.progress.Raised? { return Raised(s.progress.failure), false, t; }
      var check, t1 := CheckNoChange(job, s);
      t := t1;
      if check.Raised? { return Raised(check.failure), false, t; }
      if check.value.0 { return Returned(()), false, t; }
      if s.tool.Raised? {
        NeedsResult(s);
        return Raised(s.tool.failure), false, t;
      }
      var result := s.tool.value;
      ghost var t2;
      if result.success {
        r, t2 := SubmitResults(job, result, check.value.1, s);
      } else {
        NeedsResult(s);
        r, failureReported, t2 := ReportFailedTool(job, result, s);
      }
      t := t1 + t2;
    }

    /** The handler around it: an ordinary exception is reported unless it has been, whatever becomes of the report. */
    method ReportException(job: Job, s: Script, message: string) returns (r: Outcome<()>, ghost t: seq<Event>)
      modifies api
      ensures api.log == old(api.log) + t && t == [Event(Fail(job.guid, message), s.lastFailCall.Returned?)]
      ensures r == if s.lastFailCall == Raised(Interrupted) then Raised(Interrupted) else Raised(Error(message))
    {
      api.Send(Fail(job.guid, message), s.lastFailCall);
      t := [api.log[|api.log| - 1]];
      r := if s.lastFailCall == Raised(Interrupted) then Raised(Interrupted) else Raised(Error(message));
    }

    /** Runs one job. Whatever goes wrong, at most one of its calls is acknowledged, and that one is the last. */
    method Execute(job: Job, s: Script) returns (r: Outcome<()>, ghost t: seq<Event>)
      modifies this, api
      ensures api.log == old(api.log) + t && Session(t, job.guid) && AllTruthful(t, job, s)
      ensures JobEnds(job, s, r, t)
      ensures job.hasSecret ==> !cancelRequested && currentJobGuid == if s.setup.Returned? then None else Some(job.guid)
      ensures !job.hasSecret ==> cancelRequested == old(cancelRequested) && currentJobGuid == old(currentJobGuid)
    {
      hide Carries, GoesThrough, Unchanged;
      t := [];
      if !job.hasSecret {
        NeedsSetup(job, s);
        return Raised(Error(NO_SECRET)), t;
      }
      Begin(job.guid);
      if s.setup.Raised? {
        NeedsSetup(job, s);
        return Raised(s.setup.failure), t;
      }
      var failureReported;
      r, failureReported, t := Attempt(job, s);
      if r.Raised? && r.failure.Error? && !failureReported {
        ghost var t2;
        r, t2 := ReportException(job, s, r.failure.message);
        t := t + t2;
      }
      currentJobGuid := None;
      if s.closeInterrupted { r := Raised(Interrupted); }
    }
  }

  /** The blanket handler around the comparison: a full analysis follows, unless the coroutine itself is cancelled. */
  function Swallow(failure: Failure): Outcome<(bool, Option<string>)> {
    if failure == Interrupted then Raised(Interrupted) else Returned((false, None))
  }

  lemma NeedsResult(s: Script)
    requires s.tool.Raised? || !s.tool.value.success
    ensures !ResultsGoThrough(s)
  {
  }

  lemma NeedsSetup(job: Job, s: Script)
    requires !job.hasSecret || s.setup.Raised?
    ensures !GoesThrough(job, s)
  {
  }

  function Reported(message: string): string { if message == "" then UNKNOWN_ERROR else message }

  /** Against a result recorded with its state hash, NO_CHANGE is chosen exactly when tool, files and relevant
      configuration are what they were, and the tool is not the one that always runs. */
  lemma NoChangeMeansSameInputs<V(!new)>(job: Job, s: Script, hash: string -> string, json: map<string, V> -> string,
                                         version: V, guid: string,
                                         files: seq<FileEntry>, config: map<string, V>,
                                         tool': string, files': seq<FileEntry>, config': map<string, V>)
    requires CollisionFree(hash) && Faithful(json)
    requires NewlineFree(files) && NewlineFree(files') && PathsIdentify(files)
    requires s.stateHash == Returned(Some(StateHash(hash, json, version, job.tool, files, config)))
    requires job.previous == Some(Previous(guid, StateHash(hash, json, version, tool', files', config')))
    ensures Unchanged(job, s) <==>
            job.tool != COLLECTION_TEST && job.tool == tool' && multiset(files) == multiset(files') &&
                SameRelevant(config, config')
  {
    hide StateHash, SameRelevant, InputState.CheckNoChange;
    NoChangeExactly(hash, json, version, guid, job.tool, files, config, tool', files', config');
  }
}
