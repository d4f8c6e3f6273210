/** JobPollingLoop: claiming jobs one after the other, giving up after too many failures in a row. */
module PollingLoops {
  import opened Options
  import opened JobExecutors

  const MAX_POLL_FAILURES: nat := 5

  /** What the loop keeps of a claimed job; the server may have left out its id. */
  datatype ClaimedJob = ClaimedJob(guid: Option<string>)

  /** How claiming a job can end. A job without id or tool cannot even be logged. The server's "no content" may also
      come as an exception. */
  datatype Claim =
    | Claimed(job: Job, script: Script)
    | Incomplete(claimed: ClaimedJob)
    | NoJob
    | NoContent
    | ConnectionLost
    | AgentRevoked
    | AuthenticationFailed
    | OtherError
    | ClaimInterrupted

  /** One poll, and whether the wait or work of that round ends with the shutdown signal or the coroutine cancelled. */
  datatype Poll = Poll(claim: Claim, shutdown: bool, waitInterrupted: bool)

  /** What one round of the loop sees. */
  datatype Kind = Fine | LostConnection | OtherFailure | Revoked | Unauthenticated | Stopped

  /** A round, and whether the loop has been told to stop by its end. */
  datatype Round = Round(kind: Kind, stop: bool)

  // ------------------------------------------------------------ exit codes

  predicate Failing(r: Round) { r.kind.LostConnection? || r.kind.OtherFailure? }

  /** Where the loop stands: still going after so many failures in a row, or ended. */
  datatype Status = Going(failures: nat) | Exited(code: int)

  function Advance(failures: nat, r: Round): Status {
    match r.kind
    case Revoked => Exited(2)
    case Unauthenticated => Exited(3)
    case Stopped => Exited(0)
    case Fine => if r.stop then Exited(0) else Going(0)
    case LostConnection =>
      if failures + 1 >= MAX_POLL_FAILURES then Exited(4) else if r.stop then Exited(0) else Going(failures + 1)
    case OtherFailure =>
      if failures + 1 >= MAX_POLL_FAILURES then Exited(5) else if r.stop then Exited(0) else Going(failures + 1)
  }

  /** The loop's bookkeeping over the rounds so far, from a count of earlier failures. */
  function StatusAfter(start: nat, rounds: seq<Round>): Status {
    if rounds == [] then Going(start)
    else
      match StatusAfter(start, rounds[..|rounds| - 1])
      case Going(failures) => Advance(failures, rounds[|rounds| - 1])
      case Exited(code) => Exited(code)
  }

  predicate AllFail(rounds: seq<Round>, i: int, j: int)
    requires 0 <= i && j <= |rounds|
  {
    forall k :: i <= k < j ==> Failing(rounds[k])
  }

  /** Round `k` is at least the fifth failure in a row: the rounds `k - 4` to `k` failed, or all of them did and enough
      failures were counted before. */
  predicate FiveFailures(start: nat, rounds: seq<Round>, k: nat)
    requires k < |rounds|
  {
    || (k >= 4 && AllFail(rounds, k - 4, k + 1))
    || (start + k + 1 >= MAX_POLL_FAILURES && AllFail(rounds, 0, k + 1))
  }

  /** Why the loop would have to end with round `k`, reading nothing but the rounds and the earlier count. */
  function Reason(start: nat, rounds: seq<Round>, k: nat): Option<int>
    requires k < |rounds|
  {
    match rounds[k].kind
    case Revoked => Some(2)
    case Unauthenticated => Some(3)
    case Stopped => Some(0)
    case Fine => if rounds[k].stop then Some(0) else None
    case LostConnection => if FiveFailures(start, rounds, k) then Some(4) else if rounds[k].stop then Some(0) else None
    case OtherFailure => if FiveFailures(start, rounds, k) then Some(5) else if rounds[k].stop then Some(0) else None
  }

  /** The first round that gives a reason is `k`. */
  predicate EndsAt(start: nat, rounds: seq<Round>, k: nat) {
    k < |rounds| && Reason(start, rounds, k).Some? && forall j :: 0 <= j < k ==> Reason(start, rounds, j).None?
  }

  /** The count after the rounds: those failing at their end, and the earlier ones if all failed. */
  predicate CountsFailures(start: nat, rounds: seq<Round>, failures: nat) {
    if AllFail(rounds, 0, |rounds|) then failures == start + |rounds|
    else
      && failures < |rounds|
      && AllFail(rounds, |rounds| - failures, |rounds|)
      && !Failing(rounds[|rounds| - failures - 1])
  }

  ghost predicate NoReason(start: nat, rounds: seq<Round>) {
    forall j :: 0 <= j < |rounds| ==> Reason(start, rounds, j).None?
  }

  ghost predicate EndsWith(start: nat, rounds: seq<Round>, code: int) {
    exists k :: EndsAt(start, rounds, k) && Reason(start, rounds, k) == Some(code)
  }

  /** A reason depends on the rounds up to it. */
  lemma ReasonPrefix(start: nat, rounds: seq<Round>, n: nat)
    requires n <= |rounds|
    ensures forall j :: 0 <= j < n ==> Reason(start, rounds[..n], j) == Reason(start, rounds, j)
  {
  }

  /** At a failing round the count says whether it is the fifth in a row. */
  lemma CountDecides(start: nat, rounds: seq<Round>, failures: nat)
    requires rounds != [] && CountsFailures(start, rounds[..|rounds| - 1], failures)
    ensures var n := |rounds| - 1;
            && (Failing(rounds[n]) ==> (FiveFailures(start, rounds, n) <==> failures + 1 >= MAX_POLL_FAILURES))
            && CountsFailures(start, rounds, if Failing(rounds[n]) then failures + 1 else 0)
  {
    var n := |rounds| - 1;
    var before := rounds[..n];
    assert forall k :: 0 <= k < n ==> before[k] == rounds[k];
    if !AllFail(before, 0, n) {
      var k := n - failures - 1;
      assert !Failing(rounds[k]) && !AllFail(rounds, 0, n + 1);
    }
  }

  lemma {:induction false} StatusMeans(start: nat, rounds: seq<Round>)
    ensures match StatusAfter(start, rounds)
            case Going(failures) => NoReason(start, rounds) && CountsFailures(start, rounds, failures)
            case Exited(code) => EndsWith(start, rounds, code)
  {
    hide FiveFailures, CountsFailures;
    if rounds != [] {
      var n := |rounds| - 1;
      var before := rounds[..n];
      StatusMeans(start, before);
      ReasonPrefix(start, rounds, n);
      match StatusAfter(start, before)
      case Going(failures) =>
        CountDecides(start, rounds, failures);
        if Reason(start, rounds, n).Some? { assert EndsAt(start, rounds, n); }
      case Exited(code) =>
        var k :| EndsAt(start, before, k) && Reason(start, before, k) == Some(code);
        assert EndsAt(start, rounds, k);
    } else {
      NothingCounted(start);
    }
  }

  lemma NothingCounted(start: nat)
    ensures CountsFailures(start, [], start)
  {
  }

  /** The loop ends with the first round that gives a reason, and with that reason: 4 or 5 exactly at the fifth
      failure in a row, by its kind; 2 or 3 at a revocation or authentication error; 0 when stopped. */
  lemma ExitsExactly(start: nat, rounds: seq<Round>, code: int)
    ensures StatusAfter(start, rounds) == Exited(code) <==> EndsWith(start, rounds, code)
  {
    hide FiveFailures, CountsFailures;
    StatusMeans(start, rounds);
    if EndsWith(start, rounds, code) {
      var k :| EndsAt(start, rounds, k) && Reason(start, rounds, k) == Some(code);
    }
  }

  // ------------------------------------------------------------ jobs over a whole run

  function Flatten(sessions: seq<seq<Event>>): seq<Event> {
    if sessions == [] then [] else Flatten(sessions[..|sessions| - 1]) + sessions[|sessions| - 1]
  }

  function Ends(t: seq<Event>, guid: string): nat {
    if t == [] then 0
    else Ends(t[..|t| - 1], guid) + if t[|t| - 1].acknowledged && t[|t| - 1].call.guid == guid then 1 else 0
  }

  function Claims(jobs: seq<Job>, guid: string): nat {
    if jobs == [] then 0 else Claims(jobs[..|jobs| - 1], guid) + if jobs[|jobs| - 1].guid == guid then 1 else 0
  }

  ghost predicate SessionsOf(sessions: seq<seq<Event>>, jobs: seq<Job>) {
    |sessions| == |jobs| && forall k :: 0 <= k < |jobs| ==> Session(sessions[k], jobs[k].guid)
  }

  lemma {:induction false} EndsConcat(a: seq<Event>, b: seq<Event>, guid: string)
    ensures Ends(a + b, guid) == Ends(a, guid) + Ends(b, guid)
  {
    if b == [] {
      assert a + b == a;
    } else {
      assert (a + b)[..|a + b| - 1] == a + b[..|b| - 1];
      EndsConcat(a, b[..|b| - 1], guid);
    }
  }

  lemma {:induction false} NoEnds(t: seq<Event>, guid: string)
    requires forall i :: 0 <= i < |t| ==> !t[i].acknowledged || t[i].call.guid != guid
    ensures Ends(t, guid) == 0
  {
    if t != [] { NoEnds(t[..|t| - 1], guid); }
  }

  lemma SessionEndsOnce(t: seq<Event>, guid: string, g: string)
    requires Session(t, guid)
    ensures Ends(t, g) == if g == guid && Acknowledged(t) then 1 else 0
  {
    if t != [] {
      if g == guid { NoEnds(t[..|t| - 1], g); } else { NoEnds(t, g); }
    }
  }

  /** Over a whole run a job is ended, by completion or failure report, at most once for every time it was claimed. */
  lemma {:induction false} EndedOncePerClaim(sessions: seq<seq<Event>>, jobs: seq<Job>, guid: string)
    requires SessionsOf(sessions, jobs)
    ensures Ends(Flatten(sessions), guid) <= Claims(jobs, guid)
  {
    if sessions != [] {
      var n := |sessions| - 1;
      EndedOncePerClaim(sessions[..n], jobs[..n], guid);
      EndsConcat(Flatten(sessions[..n]), sessions[n], guid);
      SessionEndsOnce(sessions[n], jobs[n].guid, guid);
    }
  }

  // ------------------------------------------------------------ the loop

  /** What the server's answer to a poll means for the loop, apart from what a claimed job brings. */
  function KindOf(claim: Claim): Kind {
    match claim
    case Claimed(_, _) => Fine
    case Incomplete(_) => OtherFailure
    case NoJob => Fine
    case NoContent => Fine
    case ConnectionLost => LostConnection
    case AgentRevoked => Revoked
    case AuthenticationFailed => Unauthenticated
    case OtherError => OtherFailure
    case ClaimInterrupted => Stopped
  }

  /** The rounds made of the polls answered: a claimed job never counts as a failure, it can only be interrupted. */
  ghost predicate RoundsOf(rounds: seq<Round>, polls: seq<Poll>) {
    && |rounds| <= |polls|
    && forall k :: 0 <= k < |rounds| ==>
         && (rounds[k].kind == KindOf(polls[k].claim) || (polls[k].claim.Claimed? && rounds[k].kind == Stopped))
         && rounds[k].stop == StopsAfter(polls[k])
  }

  predicate StopsAfter(poll: Poll) { poll.shutdown || (poll.waitInterrupted && !poll.claim.Claimed?) }

  function JobsOf(polls: seq<Poll>): seq<Job> {
    if polls == [] then []
    else
      var last := polls[|polls| - 1];
      JobsOf(polls[..|polls| - 1]) + if last.claim.Claimed? then [last.claim.job] else []
  }

  class JobPollingLoop {
    const executor: JobExecutor
    var shutdown: bool
    var currentJob: Option<ClaimedJob>
    var consecutiveFailures: nat
    var cancellationRequested: bool

    constructor (executor: JobExecutor)
      ensures this.executor == executor && !shutdown && currentJob == None && consecutiveFailures == 0 &&
                !cancellationRequested
    {
      this.executor := executor;
      shutdown, currentJob, consecutiveFailures, cancellationRequested := false, None, 0, false;
    }

    method RequestJobCancellation()
      modifies this, executor
      ensures cancellationRequested == (old(cancellationRequested) || currentJob.Some?)
      ensures executor.cancelRequested == (old(executor.cancelRequested) || currentJob.Some?)
      ensures currentJob == old(currentJob) && shutdown == old(shutdown) &&
                consecutiveFailures == old(consecutiveFailures)
      ensures executor.currentJobGuid == old(executor.currentJobGuid)
    {
      if currentJob.Some? {
        cancellationRequested := true;
        executor.RequestCancellation();
      }
    }

    method ClearCancellation()
      modifies this
      ensures !cancellationRequested
      ensures currentJob == old(currentJob) && shutdown == old(shutdown) &&
                consecutiveFailures == old(consecutiveFailures)
    {
      cancellationRequested := false;
    }

    /** The stretch from a successful claim to the first await of the execution. */
    method TakeJob(job: ClaimedJob)
      modifies this
      ensures currentJob == Some(job) && !cancellationRequested
      ensures shutdown == old(shutdown) && consecutiveFailures == old(consecutiveFailures)
    {
      currentJob := Some(job);
      cancellationRequested := false;
    }

    /** Leaves no trace of a job behind, however it ended; one without id or tool stays the current one until the
        next. */
    method PollAndExecute(claim: Claim)
      returns (kind: Kind, worked: bool, ghost r: Outcome<()>, ghost sessions: seq<seq<Event>>)
      modifies this, executor, executor.api
      ensures currentJob == match claim
                            case Claimed(_, _) => None
                            case Incomplete(claimed) => Some(claimed)
                            case _ => old(currentJob)
      ensures claim.Claimed? || claim.Incomplete? ==> !cancellationRequested
      ensures shutdown == old(shutdown) && consecutiveFailures == old(consecutiveFailures)
      ensures kind == if claim.Claimed? && r == Raised(Interrupted) then Stopped else KindOf(claim)
      ensures worked <==> claim.Claimed?
      ensures executor.api.log == old(executor.api.log) + Flatten(sessions)
      ensures SessionsOf(sessions, if claim.Claimed? then [claim.job] else [])
      ensures claim.Claimed? ==>
                JobEnds(claim.job, claim.script, r, sessions[0]) && AllTruthful(sessions[0], claim.job, claim.script)
    {
      hide JobEnds, AllTruthful;
      kind, worked, r, sessions := KindOf(claim), claim.Claimed?, Returned(()), [];
      if claim.Incomplete? { TakeJob(claim.claimed); }
      if claim.Claimed? {
        TakeJob(ClaimedJob(Some(claim.job.guid)));
        var outcome, t := executor.Execute(claim.job, claim.script);
        if outcome == Raised(Interrupted) { kind := Stopped; }
        currentJob := None;
        ClearCancellation();
        r, sessions := outcome, [t];
        assert sessions[..0] == [];
      }
    }

    /** The wait between polls ends with the timeout, the shutdown signal, or the coroutine cancelled. */
    method WaitForNextPoll(poll: Poll) returns (interrupted: bool)
      modifies this`shutdown
      ensures shutdown == (old(shutdown) || poll.shutdown) && interrupted == poll.waitInterrupted
    {
      shutdown := shutdown || poll.shutdown;
      interrupted := poll.waitInterrupted;
    }

    /** The handlers of one round: counting, the exit codes, and the wait before the next poll. */
    method FinishRound(kind: Kind, worked: bool, poll: Poll) returns (exit: Option<int>)
      requires !shutdown && (worked <==> poll.claim.Claimed?) && (worked ==> kind.Fine? || kind.Stopped?)
      modifies this`shutdown, this`consecutiveFailures
      ensures match Advance(old(consecutiveFailures), Round(kind, StopsAfter(poll)))
              case Going(failures) => exit == None && !shutdown && consecutiveFailures == failures
              case Exited(code) => exit == Some(code) || (exit == None && shutdown && code == 0)
    {
      exit := None;
      var interrupted := false;
      match kind {
        case Fine =>
          consecutiveFailures := 0;
          if worked { shutdown := shutdown || poll.shutdown; } else { interrupted := WaitForNextPoll(poll); }
        case LostConnection =>
          consecutiveFailures := consecutiveFailures + 1;
          if consecutiveFailures >= MAX_POLL_FAILURES { return Some(4); }
          interrupted := WaitForNextPoll(poll);
        case Revoked => return Some(2);
        case Unauthenticated => return Some(3);
        case OtherFailure =>
          consecutiveFailures := consecutiveFailures + 1;
          if consecutiveFailures >= MAX_POLL_FAILURES { return Some(5); }
          interrupted := WaitForNextPoll(poll);
        case Stopped => return Some(0);
      }
      if interrupted { exit := Some(0); }
    }

    /** Runs against the given polls; without an exit code the loop is still going when they run out. */
    method Run(polls: seq<Poll>) returns (code: Option<int>, ghost rounds: seq<Round>, ghost sessions: seq<seq<Event>>)
      modifies this, executor, executor.api
      ensures RoundsOf(rounds, polls)
      ensures old(shutdown) ==> code == Some(0) && rounds == []
      ensures !old(shutdown) ==> (match StatusAfter(old(consecutiveFailures), rounds)
                                  case Going(_) => code == None && |rounds| == |polls|
                                  case Exited(c) => code == Some(c))
      ensures SessionsOf(sessions, JobsOf(polls[..|rounds|]))
      ensures executor.api.log == old(executor.api.log) + Flatten(sessions)
    {
      hide Session, JobEnds, Advance, StopsAfter, StatusAfter, RoundsOf, SessionsOf, JobsOf, Flatten;
      rounds, sessions := [], [];
      NothingYet(polls, consecutiveFailures);
      for i := 0 to |polls|
        invariant |rounds| == i && RoundsOf(rounds, polls)
        invariant !shutdown ==>
                    !old(shutdown) && StatusAfter(old(consecutiveFailures), rounds) == Going(consecutiveFailures)
        invariant shutdown && !old(shutdown) ==> StatusAfter(old(consecutiveFailures), rounds) == Exited(0)
        invariant old(shutdown) ==> shutdown && i == 0
        invariant SessionsOf(sessions, JobsOf(polls[..i]))
        invariant executor.api.log == old(executor.api.log) + Flatten(sessions)
      {
        if shutdown { return Some(0), rounds, sessions; }
        var poll := polls[i];
        var kind, worked, r, more := PollAndExecute(poll.claim);
        assert polls[..i + 1][..i] == polls[..i];
        SessionsGrow(sessions, more, polls[..i + 1]);
        RoundsGrow(old(consecutiveFailures), rounds, polls, kind);
        rounds, sessions := rounds + [Round(kind, StopsAfter(poll))], sessions + more;
        var exit := FinishRound(kind, worked, poll);
        if exit.Some? { return exit, rounds, sessions; }
      }
      code := if shutdown then Some(0) else None;
    }
  }

  lemma NothingYet(polls: seq<Poll>, start: nat)
    ensures RoundsOf([], polls) && StatusAfter(start, []) == Going(start)
    ensures SessionsOf([], JobsOf(polls[..0])) && Flatten([]) == []
  {
  }

  lemma RoundsGrow(start: nat, rounds: seq<Round>, polls: seq<Poll>, kind: Kind)
    requires RoundsOf(rounds, polls) && |rounds| < |polls|
    requires var claim := polls[|rounds|].claim; kind == KindOf(claim) || (claim.Claimed? && kind == Stopped)
    ensures var r := Round(kind, StopsAfter(polls[|rounds|]));
            && RoundsOf(rounds + [r], polls)
            && StatusAfter(start, rounds + [r]) == match StatusAfter(start, rounds)
                                                   case Going(failures) => Advance(failures, r)
                                                   case Exited(code) => Exited(code)
  {
    assert (rounds + [Round(kind, StopsAfter(polls[|rounds|]))])[..|rounds|] == rounds;
  }

  lemma SessionsGrow(sessions: seq<seq<Event>>, more: seq<seq<Event>>, polls: seq<Poll>)
    requires polls != [] && SessionsOf(sessions, JobsOf(polls[..|polls| - 1]))
    requires var last := polls[|polls| - 1]; SessionsOf(more, if last.claim.Claimed? then [last.claim.job] else [])
    ensures SessionsOf(sessions + more, JobsOf(polls)) && Flatten(sessions + more) == Flatten(sessions) + Flatten(more)
  {
    hide Session, Flatten, JobsOf;
    JobsGrow(polls);
    if more == [] {
      assert sessions + more == sessions;
      NothingFlattened();
    } else {
      OneMoreFlattened(sessions, more[0]);
      assert more == [more[0]];
    }
  }

  lemma JobsGrow(polls: seq<Poll>)
    requires polls != []
    ensures var last := polls[|polls| - 1];
            JobsOf(polls) == JobsOf(polls[..|polls| - 1]) + if last.claim.Claimed? then [last.claim.job] else []
  {
  }

  lemma NothingFlattened()
    ensures Flatten([]) == []
  {
  }

  lemma OneMoreFlattened(sessions: seq<seq<Event>>, t: seq<Event>)
    ensures Flatten(sessions + [t]) == Flatten(sessions) + t && Flatten([t]) == t
  {
    assert (sessions + [t])[..|sessions|] == sessions;
    assert [t][..0] == [] && Flatten([]) == [];
  }
}
