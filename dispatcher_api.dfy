/**
 * Monitoring a dispatcher task (`pollTaskStatus` in src/lib/dispatcherApi.ts).
 * Each poll asks for the task's status; SUCCESS and FAILURE end the session,
 * any other answer or a failed request schedules the next poll while fewer
 * than 60 have been scheduled. The HTTP request and the timer are not
 * modelled: the answers to successive polls are an input sequence, and the
 * callbacks the session fires are returned as a trace.
 */
module DispatcherApi {
  import opened Wrappers
  import opened Lists

  /** How many polls may be re-scheduled after the first. */
  const MaxAttempts: nat := 60

  /** The task status reported by the dispatcher; `Unlisted` is any other string the server may send. */
  datatype TaskStatus = PENDING | SUCCESS | FAILURE | RETRY | STARTED | Unlisted(name: string)

  function StatusName(status: TaskStatus): string
  {
    match status
    case PENDING => "PENDING"
    case SUCCESS => "SUCCESS"
    case FAILURE => "FAILURE"
    case RETRY => "RETRY"
    case STARTED => "STARTED"
    case Unlisted(name) => name
  }

  datatype DispatcherResult = DispatcherResult(url: Option<string>)

  /**
   * What one `checkTaskStatus` call produced: a status response, or a thrown
   * value (`message` is absent when the thrown value is not an `Error`).
   */
  datatype PollOutcome =
    | Responded(status: TaskStatus, result: Option<DispatcherResult>, error: Option<string>)
    | Threw(message: Option<string>)

  /** One invocation of a callback passed to `pollTaskStatus`. */
  datatype Callback =
    | StatusUpdate(status: TaskStatus, message: string, result: Option<DispatcherResult>)
    | Complete(result: Option<DispatcherResult>)
    | ErrorReported(message: string)

  /** `onComplete` and `onError` end a session. */
  predicate IsTerminal(c: Callback)
  {
    c.Complete? || c.ErrorReported?
  }

  /** `x || 'Unknown error'` for an optional string: a missing or empty value falls back. */
  function OrUnknown(s: Option<string>): (r: string)
    ensures r != []
    ensures s.Some? && s.value != [] ==> r == s.value
  {
    if s.Some? && s.value != [] then s.value else "Unknown error"
  }

  /**
   * `error instanceof Error ? error.message : 'Unknown error'`: an `Error`'s
   * message is kept even when it is empty.
   */
  function ThrownMessage(message: Option<string>): (r: string)
    ensures message.Some? ==> r == message.value
    ensures message.None? ==> r == "Unknown error"
  {
    if message.Some? then message.value else "Unknown error"
  }

  /** The callbacks one poll fires, and whether it schedules another poll. */
  datatype Step = Step(callbacks: seq<Callback>, reschedule: bool)

  /** One run of the inner `poll` function, `attempts` polls having been re-scheduled before it. */
  function PollStep(attempts: nat, outcome: PollOutcome): Step
  {
    match outcome
    case Responded(SUCCESS, result, _) =>
      Step([StatusUpdate(SUCCESS, "Virtual Research Environment is ready!", result), Complete(result)], false)
    case Responded(FAILURE, _, error) =>
      var msg := "Virtual Research Environment setup failed: " + OrUnknown(error);
      Step([StatusUpdate(FAILURE, msg, None), ErrorReported(msg)], false)
    case Responded(status, _, _) =>
      var waiting := if status.Unlisted? then []
                     else [StatusUpdate(status, "Task status: " + StatusName(status) + ". Please wait...", None)];
      if attempts < MaxAttempts then Step(waiting, true)
      else Step(waiting + [StatusUpdate(PENDING, "Task monitoring timeout.", None),
                           ErrorReported("Task monitoring timeout")], false)
    case Threw(message) =>
      if attempts < MaxAttempts then Step([], true)
      else
        var msg := "Error checking task status: " + ThrownMessage(message);
        Step([StatusUpdate(FAILURE, msg, None), ErrorReported(msg)], false)
  }

  /** The callbacks of a session whose polls get `outcomes` in turn; it stops early when they run out. */
  function Session(outcomes: seq<PollOutcome>, attempts: nat): seq<Callback>
    requires attempts <= MaxAttempts
    decreases |outcomes|
  {
    if outcomes == [] then []
    else
      var step := PollStep(attempts, outcomes[0]);
      if step.reschedule && attempts < MaxAttempts then step.callbacks + Session(outcomes[1..], attempts + 1)
      else step.callbacks
  }

  /** How many polls that session runs. */
  function PollCount(outcomes: seq<PollOutcome>, attempts: nat): (n: nat)
    requires attempts <= MaxAttempts
    ensures n <= |outcomes| && n <= MaxAttempts - attempts + 1
    decreases |outcomes|
  {
    if outcomes == [] then 0
    else if PollStep(attempts, outcomes[0]).reschedule && attempts < MaxAttempts then
      1 + PollCount(outcomes[1..], attempts + 1)
    else 1
  }

  /** A poll re-schedules exactly when the answer is not SUCCESS or FAILURE and fewer than 60 were scheduled. */
  lemma PollStepReschedules(attempts: nat, outcome: PollOutcome)
    ensures PollStep(attempts, outcome).reschedule <==>
      attempts < MaxAttempts && !(outcome.Responded? && outcome.status in {SUCCESS, FAILURE})
  {
  }

  /** A thrown `Error` with an empty message is reported with that empty message, not "Unknown error". */
  lemma ThrownEmptyMessageKept()
    ensures PollStep(MaxAttempts, Threw(Some(""))).callbacks
      == [StatusUpdate(FAILURE, "Error checking task status: ", None), ErrorReported("Error checking task status: ")]
  {
    assert "Error checking task status: " + "" == "Error checking task status: ";
  }

  /** The body of `poll` for one answer, apart from the attempt counter it updates. */
  method Poll(attempts: nat, outcome: PollOutcome) returns (called: seq<Callback>, reschedule: bool)
    ensures Step(called, reschedule) == PollStep(attempts, outcome)
  {
    called, reschedule := [], false;
    match outcome {
      case Responded(status, result, error) =>
        if status == SUCCESS {
          called := [StatusUpdate(SUCCESS, "Virtual Research Environment is ready!", result), Complete(result)];
          return;
        } else if status == FAILURE {
          var msg := "Virtual Research Environment setup failed: " + OrUnknown(error);
          called := [StatusUpdate(FAILURE, msg, None), ErrorReported(msg)];
          return;
        } else if !status.Unlisted? {
          called := [StatusUpdate(status, "Task status: " + StatusName(status) + ". Please wait...", None)];
        }
        if attempts < MaxAttempts {
          reschedule := true;
        } else {
          called := called + [StatusUpdate(PENDING, "Task monitoring timeout.", None),
                              ErrorReported("Task monitoring timeout")];
        }
      case Threw(message) =>
        if attempts < MaxAttempts {
          reschedule := true;
        } else {
          var msg := "Error checking task status: " + ThrownMessage(message);
          called := [StatusUpdate(FAILURE, msg, None), ErrorReported(msg)];
        }
    }
  }

  /** The session from a poll whose step fired `called` and decided `reschedule`. */
  lemma SessionAdvance(rest: seq<PollOutcome>, attempts: nat, called: seq<Callback>, reschedule: bool)
    requires rest != [] && attempts <= MaxAttempts
    requires Step(called, reschedule) == PollStep(attempts, rest[0])
    ensures reschedule ==> attempts < MaxAttempts
    ensures reschedule ==> Session(rest, attempts) == called + Session(rest[1..], attempts + 1)
    ensures reschedule ==> PollCount(rest, attempts) == 1 + PollCount(rest[1..], attempts + 1)
    ensures !reschedule ==> Session(rest, attempts) == called && PollCount(rest, attempts) == 1
    ensures !reschedule ==> called != [] && IsTerminal(called[|called| - 1])
  {
    SessionUnfold(rest, attempts);
  }

  /**
   * `pollTaskStatus`, one loop iteration per timer-driven call of `poll`.
   * `polls` is how many polls ran, `finished` whether the session ended
   * (rather than running out of answers).
   */
  method PollTaskStatus(outcomes: seq<PollOutcome>) returns (trace: seq<Callback>, polls: nat, finished: bool)
    ensures trace == Session(outcomes, 0)
    ensures polls == PollCount(outcomes, 0) && polls <= MaxAttempts + 1
    ensures finished ==> trace != [] && IsTerminal(trace[|trace| - 1])
  {
    var attempts: nat := 0;
    trace, polls, finished := [], 0, false;
    while polls < |outcomes|
      invariant polls == attempts <= MaxAttempts && polls <= |outcomes|
      invariant trace + Session(outcomes[polls..], attempts) == Session(outcomes, 0)
      invariant polls + PollCount(outcomes[polls..], attempts) == PollCount(outcomes, 0)
    {
      ghost var rest := outcomes[polls..];
      assert rest[1..] == outcomes[polls + 1..];
      var called, reschedule := Poll(attempts, outcomes[polls]);
      SessionAdvance(rest, attempts, called, reschedule);
      if reschedule {
        AppendAssoc(trace, called, Session(rest[1..], attempts + 1));
      }
      polls := polls + 1;
      trace := trace + called;
      if !reschedule {
        finished := true;
        return;
      }
      attempts := attempts + 1;
    }
    assert outcomes[polls..] == [];
  }

  /** A poll that does not re-schedule ends with `onComplete` or `onError`; one that does fires neither. */
  lemma PollStepEndsTerminal(attempts: nat, outcome: PollOutcome)
    ensures var step := PollStep(attempts, outcome);
      && (step.reschedule ==> attempts < MaxAttempts)
      && (!step.reschedule ==> step.callbacks != [] && IsTerminal(step.callbacks[|step.callbacks| - 1]))
      && (forall i :: 0 <= i < |step.callbacks| - 1 ==> !IsTerminal(step.callbacks[i]))
      && (step.reschedule ==> forall i :: 0 <= i < |step.callbacks| ==> !IsTerminal(step.callbacks[i]))
  {
  }

  /** One poll of a session, then the rest of it. */
  lemma SessionUnfold(outcomes: seq<PollOutcome>, attempts: nat)
    requires attempts <= MaxAttempts && outcomes != []
    ensures var step := PollStep(attempts, outcomes[0]);
      && (step.reschedule ==> attempts < MaxAttempts)
      && (!step.reschedule ==> step.callbacks != [] && IsTerminal(step.callbacks[|step.callbacks| - 1]))
      && Session(outcomes, attempts) ==
           (if step.reschedule then step.callbacks + Session(outcomes[1..], attempts + 1) else step.callbacks)
      && PollCount(outcomes, attempts) ==
           (if step.reschedule then 1 + PollCount(outcomes[1..], attempts + 1) else 1)
  {
    PollStepEndsTerminal(attempts, outcomes[0]);
  }

  /** How many callbacks of `trace` end a session. */
  function TerminalCount(trace: seq<Callback>): nat
  {
    if trace == [] then 0 else (if IsTerminal(trace[0]) then 1 else 0) + TerminalCount(trace[1..])
  }

  /** A trace in which only the last callback may be terminal holds at most one terminal callback. */
  lemma {:induction false} TerminalOnlyLast(trace: seq<Callback>)
    requires forall i :: 0 <= i < |trace| - 1 ==> !IsTerminal(trace[i])
    ensures TerminalCount(trace) <= 1
  {
    if |trace| > 1 {
      TerminalOnlyLast(trace[1..]);
      if TerminalCount(trace[1..]) == 1 {
        assert !IsTerminal(trace[0]);
      }
    }
  }

  /** Callbacks that are not terminal, followed by a trace terminal at most at its end, are terminal at most at their end. */
  lemma OnlyLastAppend(a: seq<Callback>, b: seq<Callback>)
    requires forall i :: 0 <= i < |a| ==> !IsTerminal(a[i])
    requires forall i :: 0 <= i < |b| - 1 ==> !IsTerminal(b[i])
    ensures forall i :: 0 <= i < |a + b| - 1 ==> !IsTerminal((a + b)[i])
  {
    forall i | 0 <= i < |a + b| - 1 ensures !IsTerminal((a + b)[i]) {
      if i >= |a| { assert (a + b)[i] == b[i - |a|]; }
    }
  }

  /** At most one of `onComplete` and `onError` fires per session, and only as the last callback. */
  lemma {:induction false} SessionTerminatesOnce(outcomes: seq<PollOutcome>, attempts: nat)
    requires attempts <= MaxAttempts
    ensures forall i :: 0 <= i < |Session(outcomes, attempts)| - 1 ==> !IsTerminal(Session(outcomes, attempts)[i])
    ensures TerminalCount(Session(outcomes, attempts)) <= 1
    decreases |outcomes|
  {
    var trace := Session(outcomes, attempts);
    if outcomes != [] {
      var step := PollStep(attempts, outcomes[0]);
      PollStepEndsTerminal(attempts, outcomes[0]);
      if step.reschedule {
        SessionTerminatesOnce(outcomes[1..], attempts + 1);
        OnlyLastAppend(step.callbacks, Session(outcomes[1..], attempts + 1));
      }
    }
    TerminalOnlyLast(trace);
  }

  /** A SUCCESS answer ends the session: the status update, then `onComplete` with the result. */
  lemma SuccessCompletes(outcomes: seq<PollOutcome>, attempts: nat, result: Option<DispatcherResult>, error: Option<string>)
    requires attempts <= MaxAttempts
    requires outcomes != [] && outcomes[0] == Responded(SUCCESS, result, error)
    ensures Session(outcomes, attempts) ==
      [StatusUpdate(SUCCESS, "Virtual Research Environment is ready!", result), Complete(result)]
    ensures PollCount(outcomes, attempts) == 1
  {
  }

  /** A FAILURE answer ends the session with `onError`, naming the server's error or "Unknown error". */
  lemma FailureReportsError(outcomes: seq<PollOutcome>, attempts: nat, result: Option<DispatcherResult>, error: Option<string>)
    requires attempts <= MaxAttempts
    requires outcomes != [] && outcomes[0] == Responded(FAILURE, result, error)
    ensures Session(outcomes, attempts)[|Session(outcomes, attempts)| - 1] ==
      ErrorReported("Virtual Research Environment setup failed: " + OrUnknown(error))
    ensures PollCount(outcomes, attempts) == 1
  {
  }

  /** The answer does not end the session by itself. */
  predicate Waits(outcome: PollOutcome)
  {
    !(outcome.Responded? && outcome.status in {SUCCESS, FAILURE})
  }

  /**
   * The two callbacks a session gives up with after `last`, the answer to its
   * final poll: a PENDING timeout update and `onError` after a response, a
   * FAILURE update and `onError` with the same message after a failed request.
   */
  function GiveUpCallbacks(last: PollOutcome): seq<Callback>
  {
    if last.Responded? then [StatusUpdate(PENDING, "Task monitoring timeout.", None), ErrorReported("Task monitoring timeout")]
    else
      var msg := "Error checking task status: " + ThrownMessage(last.message);
      [StatusUpdate(FAILURE, msg, None), ErrorReported(msg)]
  }

  /**
   * Once 61 polls have run without SUCCESS or FAILURE the session gives up:
   * it ends with the timeout status update and `onError` after answers, or
   * with the FAILURE status update and `onError` naming the last error after
   * failed requests. Sixty-one polls in all.
   */
  lemma SessionGivesUp(outcomes: seq<PollOutcome>, attempts: nat)
    requires attempts <= MaxAttempts
    requires |outcomes| >= MaxAttempts - attempts + 1
    requires forall i :: 0 <= i <= MaxAttempts - attempts ==> Waits(outcomes[i])
    ensures PollCount(outcomes, attempts) == MaxAttempts - attempts + 1
    ensures var trace := Session(outcomes, attempts);
      var last := outcomes[MaxAttempts - attempts];
      && |trace| >= 2
      && (last.Responded? ==>
            trace[|trace| - 2..] == [StatusUpdate(PENDING, "Task monitoring timeout.", None), ErrorReported("Task monitoring timeout")])
      && (last.Threw? ==>
            var msg := "Error checking task status: " + ThrownMessage(last.message);
            trace[|trace| - 2..] == [StatusUpdate(FAILURE, msg, None), ErrorReported(msg)])
  {
    var last := outcomes[MaxAttempts - attempts];
    var prefix := SessionLastPoll(outcomes, attempts);
    LastPollGivesUp(last);
    SuffixOfAppend(prefix, PollStep(MaxAttempts, last).callbacks, 2);
  }

  /** Such a session is some callbacks followed by those of its 61st poll, which runs with 60 re-scheduled before it. */
  lemma {:induction false} SessionLastPoll(outcomes: seq<PollOutcome>, attempts: nat) returns (prefix: seq<Callback>)
    requires attempts <= MaxAttempts
    requires |outcomes| >= MaxAttempts - attempts + 1
    requires forall i :: 0 <= i <= MaxAttempts - attempts ==> Waits(outcomes[i])
    ensures PollCount(outcomes, attempts) == MaxAttempts - attempts + 1
    ensures Session(outcomes, attempts) == prefix + PollStep(MaxAttempts, outcomes[MaxAttempts - attempts]).callbacks
    decreases MaxAttempts - attempts
  {
    if attempts < MaxAttempts {
      var rest := outcomes[1..];
      SessionWaits(outcomes, attempts);
      forall i | 0 <= i <= MaxAttempts - (attempts + 1) ensures Waits(rest[i]) {
        assert rest[i] == outcomes[i + 1];
      }
      var p := SessionLastPoll(rest, attempts + 1);
      assert rest[MaxAttempts - (attempts + 1)] == outcomes[MaxAttempts - attempts];
      var c := PollStep(attempts, outcomes[0]).callbacks;
      AppendAssoc(c, p, PollStep(MaxAttempts, outcomes[MaxAttempts - attempts]).callbacks);
      prefix := c + p;
    } else {
      SessionWaits(outcomes, attempts);
      prefix := [];
      assert Session(outcomes, attempts) == [] + PollStep(MaxAttempts, outcomes[0]).callbacks;
    }
  }

  /** A session whose first answer does not end it: that poll's callbacks, then the rest of the session if it re-schedules. */
  lemma SessionWaits(outcomes: seq<PollOutcome>, attempts: nat)
    requires attempts <= MaxAttempts && outcomes != [] && Waits(outcomes[0])
    ensures attempts < MaxAttempts ==>
      && Session(outcomes, attempts) == PollStep(attempts, outcomes[0]).callbacks + Session(outcomes[1..], attempts + 1)
      && PollCount(outcomes, attempts) == 1 + PollCount(outcomes[1..], attempts + 1)
    ensures attempts == MaxAttempts ==>
      Session(outcomes, attempts) == PollStep(attempts, outcomes[0]).callbacks && PollCount(outcomes, attempts) == 1
  {
    PollStepReschedules(attempts, outcomes[0]);
    SessionUnfold(outcomes, attempts);
  }

  /** The last poll, on an answer that does not end the session, ends with the two give-up callbacks. */
  lemma LastPollGivesUp(outcome: PollOutcome)
    requires Waits(outcome)
    ensures var c := PollStep(MaxAttempts, outcome).callbacks;
      |c| >= 2 && c[|c| - 2..] == GiveUpCallbacks(outcome)
  {
    var c := PollStep(MaxAttempts, outcome).callbacks;
    if outcome.Responded? && !outcome.status.Unlisted? {
      assert c[|c| - 2..] == c[1..];
    }
  }
}
