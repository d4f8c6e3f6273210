/** Cancelling the running job: a command from the server, two flags, and a callback that reads one of them. */
module Cancellation {
  import opened Options
  import opened JobExecutors
  import opened PollingLoops

  const CANCEL_PREFIX := "cancel_job:"
  const COLON := ':'

  // ------------------------------------------------------------ commands

  /** `text.split(":", 1)[1]` for a text that holds a colon. */
  function AfterColon(text: string): (r: string)
    requires COLON in text
  {
    if text[0] == COLON then text[1..] else AfterColon(text[1..])
  }

  predicate IsCancel(command: string) { CANCEL_PREFIX <= command }

  function CancelTarget(command: string): string
    requires IsCancel(command)
  {
    assert command[10] == COLON;
    AfterColon(command)
  }

  lemma {:induction false} AfterColonSkips(a: string, b: string)
    requires COLON !in a
    ensures COLON in a + [COLON] + b && AfterColon(a + [COLON] + b) == b
  {
    var s := a + [COLON] + b;
    assert s[|a|] == COLON;
    if a == [] {
      assert s[1..] == b;
    } else {
      assert a[0] in a;
      assert forall x :: x in a[1..] ==> x in a;
      assert s[1..] == a[1..] + [COLON] + b;
      AfterColonSkips(a[1..], b);
    }
  }

  /** A command cancels `guid` exactly when it is the prefix followed by it, colons inside the id included. */
  lemma CancelTargetExactly(command: string, guid: string)
    ensures IsCancel(command) && CancelTarget(command) == guid <==> command == CANCEL_PREFIX + guid
  {
    var a := "cancel_job";
    assert CANCEL_PREFIX == a + [COLON];
    if IsCancel(command) {
      var rest := command[|CANCEL_PREFIX|..];
      assert command == a + [COLON] + rest;
      AfterColonSkips(a, rest);
    }
    if command == CANCEL_PREFIX + guid {
      assert command == a + [COLON] + guid;
      AfterColonSkips(a, guid);
    }
  }

  // ------------------------------------------------------------ the protocol as a state machine

  /** The loop's current job and flag, the executor's current job and flag. */
  datatype AgentState = AgentState(
    current: Option<ClaimedJob>, loopFlag: bool, executing: Option<string>, cancelRequested: bool)

  /** The stretches of code that run without interruption. */
  datatype Step =
    | Take(job: ClaimedJob)    // the loop claims a job
    | Begin(guid: string)      // the executor starts on it
    | Command(text: string)    // the heartbeat task handles a command
    | Callback                 // the tool's thread reports progress
    | Finish                   // the executor forgets the job
    | Leave                    // the loop forgets the job

  const INITIAL := AgentState(None, false, None, false)

  /** The command names the loop's current job. */
  predicate Hits(current: Option<ClaimedJob>, text: string) {
    IsCancel(text) && current.Some? && current.value.guid == Some(CancelTarget(text))
  }

  function StateAfter(s: AgentState, step: Step): AgentState {
    match step
    case Take(job) => s.(current := Some(job), loopFlag := false)
    case Begin(guid) => s.(executing := Some(guid), cancelRequested := false)
    case Command(text) => if Hits(s.current, text) then s.(loopFlag := true, cancelRequested := true) else s
    case Callback => s
    case Finish => s.(executing := None)
    case Leave => s.(current := None, loopFlag := false)
  }

  function Reached(steps: seq<Step>): AgentState {
    if steps == [] then INITIAL else StateAfter(Reached(steps[..|steps| - 1]), steps[|steps| - 1])
  }

  /** The executor begins only a job the loop has taken in the same stretch. A taken job may never be begun: without its
      id or tool it cannot be logged, without its secret it raises at once. */
  ghost predicate Orderly(steps: seq<Step>) {
    forall i :: 0 <= i < |steps| && steps[i].Begin? ==> i > 0 && steps[i - 1] == Take(ClaimedJob(Some(steps[i].guid)))
  }

  /** Where the latest execution began, or -1. */
  function LastBegin(steps: seq<Step>): (k: int)
    ensures -1 <= k < |steps|
    ensures k >= 0 ==> steps[k].Begin?
    ensures forall i :: k < i < |steps| ==> !steps[i].Begin?
  {
    if steps == [] then -1
    else if steps[|steps| - 1].Begin? then |steps| - 1
    else LastBegin(steps[..|steps| - 1])
  }

  /** The command at `c` came in for the job that was current then. */
  ghost predicate HitAt(steps: seq<Step>, c: nat) {
    c < |steps| && steps[c].Command? && Hits(Reached(steps[..c]).current, steps[c].text)
  }

  ghost predicate HitSince(steps: seq<Step>, k: int) { exists c :: k < c && HitAt(steps, c) }

  /** What the fields say about the steps. */
  ghost predicate Tracks(steps: seq<Step>) {
    var s, k := Reached(steps), LastBegin(steps);
    && (s.executing.Some? ==> k >= 0 && steps[k] == Begin(s.executing.value))
    && (s.cancelRequested <==> HitSince(steps, k))
    && (s.loopFlag ==> s.current.Some? && s.cancelRequested)
  }

  lemma HitSinceGrows(steps: seq<Step>, k: int)
    requires steps != [] && -1 <= k < |steps| - 1
    ensures HitSince(steps, k) <==> HitSince(steps[..|steps| - 1], k) || HitAt(steps, |steps| - 1)
  {
    hide Reached, Hits;
    var n := |steps| - 1;
    forall c: nat | c < n ensures HitAt(steps, c) <==> HitAt(steps[..n], c) {
      assert steps[..n][..c] == steps[..c];
    }
    if c: nat :| k < c && HitAt(steps[..n], c) { assert HitAt(steps, c); }
    if c: nat :| k < c && HitAt(steps, c) { assert c < n ==> HitAt(steps[..n], c); }
  }

  /** In every run, orderly or not: the executor's job is the last begun, and its flag says whether a command for the
      job then current has come in since. */
  lemma {:induction false} FieldsTrackSteps(steps: seq<Step>)
    requires Orderly(steps)
    ensures Tracks(steps)
  {
    hide HitSince, IsCancel, CancelTarget;
    if steps != [] {
      var n, k := |steps| - 1, LastBegin(steps);
      FieldsTrackSteps(steps[..n]);
      if k < n {
        assert LastBegin(steps[..n]) == k && (k >= 0 ==> steps[..n][k] == steps[k]);
        HitSinceGrows(steps, k);
        assert HitAt(steps, n) <==> steps[n].Command? && Hits(Reached(steps[..n]).current, steps[n].text);
      } else {
        NothingSince(steps);
        TakenBefore(steps);
      }
    } else {
      NothingSince([]);
    }
  }

  lemma NothingSince(steps: seq<Step>)
    ensures !HitSince(steps, |steps| - 1)
  {
  }

  /** The flag of the loop is down when a job begins. */
  lemma TakenBefore(steps: seq<Step>)
    requires Orderly(steps) && steps != [] && steps[|steps| - 1].Begin?
    ensures !Reached(steps).loopFlag
  {
    var n := |steps| - 1;
    assert steps[..n][|steps[..n]| - 1] == steps[n - 1];
  }

  /** Between `k` and `n` the loop does not leave its job. */
  ghost predicate StillCurrent(steps: seq<Step>, k: nat, n: nat) {
    n <= |steps| && forall i :: k < i < n ==> !steps[i].Leave?
  }

  lemma TakenAndBegun(steps: seq<Step>, k: nat)
    requires Orderly(steps) && k < |steps| && steps[k].Begin?
    ensures Reached(steps[..k + 1]).current == Some(ClaimedJob(Some(steps[k].guid)))
  {
    assert k > 0 && steps[k - 1] == Take(ClaimedJob(Some(steps[k].guid)));
    assert steps[..k + 1][..k] == steps[..k] && steps[..k + 1][k] == steps[k];
    assert steps[..k][..k - 1] == steps[..k - 1] && steps[..k][k - 1] == steps[k - 1];
    assert Reached(steps[..k]) == StateAfter(Reached(steps[..k - 1]), steps[k - 1]);
    assert Reached(steps[..k + 1]) == StateAfter(Reached(steps[..k]), steps[k]);
  }

  /** As long as no other job is taken, the job begun at `k` is current until the loop leaves it. */
  lemma {:induction false} CurrentSince(steps: seq<Step>, k: nat, n: nat)
    requires Orderly(steps) && k < n <= |steps| && steps[k].Begin? && forall i :: k < i < n ==> !steps[i].Take?
    ensures Reached(steps[..n]).current ==
            if StillCurrent(steps, k, n) then Some(ClaimedJob(Some(steps[k].guid))) else None
  {
    assert steps[..n][..n - 1] == steps[..n - 1];
    if n == k + 1 {
      TakenAndBegun(steps, k);
    } else {
      CurrentSince(steps, k, n - 1);
    }
  }

  /** After the job began at `k` and before the loop left it, a command to cancel just this job came in at `c`. */
  ghost predicate CancelledAt(steps: seq<Step>, k: nat, c: nat) {
    && k < c < |steps| && steps[k].Begin? && StillCurrent(steps, k, c)
    && steps[c].Command? && steps[c].text == CANCEL_PREFIX + steps[k].guid
  }

  /** Such a command came in for the job begun last. */
  ghost predicate JobCancelledInTime(steps: seq<Step>) {
    LastBegin(steps) >= 0 && exists c :: CancelledAt(steps, LastBegin(steps), c)
  }

  /** The executor raises cancellation for the job it is on exactly when a command to cancel that job came in after
      the job began and while it was current. A command for an earlier job, or for an earlier claim of the same job,
      never hits a later one, and none that came in time is lost. */
  lemma CallbackRaisesExactly(steps: seq<Step>, guid: string)
    requires Orderly(steps) && Reached(steps).executing == Some(guid)
    requires forall i :: LastBegin(steps) < i < |steps| ==> !steps[i].Take?
    ensures LastBegin(steps) >= 0 && steps[LastBegin(steps)] == Begin(guid)
    ensures Reached(steps).cancelRequested <==> JobCancelledInTime(steps)
  {
    hide Reached, Hits, IsCancel, CancelTarget, LastBegin;
    FieldsTrackSteps(steps);
    var k := LastBegin(steps);
    forall c: nat | k < c < |steps| ensures HitAt(steps, c) <==> CancelledAt(steps, k, c) {
      CurrentSince(steps, k, c);
      if steps[c].Command? { HitsExactly(Reached(steps[..c]).current, steps[c].text, guid); }
    }
    if Reached(steps).cancelRequested { var c: nat :| k < c && HitAt(steps, c); }
    if c: nat :| CancelledAt(steps, k, c) { assert HitAt(steps, c); }
  }

  lemma HitsExactly(current: Option<ClaimedJob>, text: string, guid: string)
    ensures current == Some(ClaimedJob(Some(guid))) ==> (Hits(current, text) <==> text == CANCEL_PREFIX + guid)
    ensures current == None ==> !Hits(current, text)
  {
    CancelTargetExactly(text, guid);
  }

  /** Giving up control between taking a job and beginning it would lose a command that came in between. */
  lemma CancelBetweenTakeAndBeginWouldBeLost(guid: string)
    ensures var job := ClaimedJob(Some(guid));
            && Reached([Take(job), Command(CANCEL_PREFIX + guid)]).cancelRequested
            && !Reached([Take(job), Command(CANCEL_PREFIX + guid), Begin(guid)]).cancelRequested
  {
    var job := ClaimedJob(Some(guid));
    var a, b := [Take(job)], [Take(job), Command(CANCEL_PREFIX + guid)];
    assert b[..1] == a && a[..0] == [];
    CancelTargetExactly(CANCEL_PREFIX + guid, guid);
  }

  // ------------------------------------------------------------ the code of the steps

  ghost function StateOf(loop: JobPollingLoop): AgentState
    reads loop, loop.executor
  {
    AgentState(loop.currentJob, loop.cancellationRequested, loop.executor.currentJobGuid, loop.executor.cancelRequested)
  }

  /** A progress report in a run: what the tool's thread gets to see of the commands. */
  method ReportProgress(loop: JobPollingLoop, ghost steps: seq<Step>, ghost guid: string) returns (r: Outcome<()>)
    requires Orderly(steps) && Reached(steps) == StateOf(loop) && loop.executor.currentJobGuid == Some(guid)
    requires forall i :: LastBegin(steps) < i < |steps| ==> !steps[i].Take?
    ensures r == Raised(JobCancelled) <==> JobCancelledInTime(steps)
    ensures r == Returned(()) <==> !JobCancelledInTime(steps)
  {
    CallbackRaisesExactly(steps, guid);
    r := loop.executor.SyncProgressCallback();
  }

  /** The agent's command handling; the loop may not have been created yet. */
  class ShutterSenseAgent {
    var pollingLoop: JobPollingLoop?

    constructor ()
      ensures pollingLoop == null
    {
      pollingLoop := null;
    }

    method HandleCancelJob(guid: string)
      modifies if pollingLoop == null then {} else {pollingLoop, pollingLoop.executor}
      ensures pollingLoop == old(pollingLoop)
      ensures pollingLoop != null ==>
                StateOf(pollingLoop) == StateAfter(old(StateOf(pollingLoop)), Command(CANCEL_PREFIX + guid))
    {
      CancelTargetExactly(CANCEL_PREFIX + guid, guid);
      if pollingLoop == null { return; }
      if pollingLoop.currentJob.Some? && pollingLoop.currentJob.value.guid == Some(guid) {
        pollingLoop.RequestJobCancellation();
      }
    }

    method ProcessCommand(command: string)
      modifies if pollingLoop == null then {} else {pollingLoop, pollingLoop.executor}
      ensures pollingLoop == old(pollingLoop)
      ensures pollingLoop != null ==> StateOf(pollingLoop) == StateAfter(old(StateOf(pollingLoop)), Command(command))
    {
      if IsCancel(command) {
        CancelTargetExactly(command, CancelTarget(command));
        HandleCancelJob(CancelTarget(command));
      }
    }
  }
}
