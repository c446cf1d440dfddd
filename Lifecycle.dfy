/**
 * The lifecycle of a Runner (Runner.cs) as a state machine on values: the
 * state it keeps, one transition per entry point (Run, the cancellation
 * handler and the process-exit handler), runs of those transitions in any
 * sequential order, and what they guarantee.
 */
module Lifecycle {
  import opened Events

  /**
   * The three flags of a Runner, everything it has logged and called so far,
   * and the code it has passed to Environment.Exit, if any.
   */
  datatype RunState = RunState(
    taskComplete: bool,
    taskInterrupt: bool,
    hasGracefullyShutdown: bool,
    history: seq<Event>,
    exitCode: Option<int>)

  /** A freshly constructed Runner: all three flags false, nothing logged. */
  function Initial(): RunState {
    RunState(false, false, false, [], None)
  }

  /** What `after` has logged and called since `before`. */
  function Since(before: RunState, after: RunState): seq<Event>
    requires before.history <= after.history
  {
    after.history[|before.history|..]
  }

  // ---------------------------------------------------------------------
  // The private callers: each wraps one hook so that a fault is logged and
  // never propagates.
  // ---------------------------------------------------------------------

  /** `_CallerToCustomGracefulShutdown`: what it logs and calls; it returns `hook.Ok?`. */
  function ShutdownHookEvents(hook: Outcome): (es: seq<Event>)
    ensures 2 <= |es|
    ensures es[0] == Entry(Information, TaskCleanUp) && es[1] == Call(CustomGracefulShutdown, hook)
    ensures hook.Threw? ==> Last(es) == Entry(Warning, ShutdownDidNotComplete(hook.fault))
  {
    [Entry(Information, TaskCleanUp)] + [Call(CustomGracefulShutdown, hook)]
      + (if hook.Ok? then [] else [Entry(Warning, ShutdownDidNotComplete(hook.fault))])
  }

  /** `_CallerToCustomCancellation`: what it logs and calls. */
  function CancellationHookEvents(hook: Outcome): (es: seq<Event>)
    ensures 1 <= |es| && es[0] == Call(CustomCancellation, hook)
    ensures hook.Threw? ==> Last(es) == Entry(Error, CancellationFailed(hook.fault))
  {
    [Call(CustomCancellation, hook)]
      + (if hook.Ok? then [] else [Entry(Error, CancellationFailed(hook.fault))])
  }

  /** `_CallerToCustomExit`: what it logs and calls. */
  function ExitHookEvents(hook: Outcome): (es: seq<Event>)
    ensures 1 <= |es| && es[0] == Call(CustomExit, hook)
    ensures hook.Threw? ==> Last(es) == Entry(Error, ExitFailed(hook.fault))
  {
    [Call(CustomExit, hook)]
      + (if hook.Ok? then [] else [Entry(Error, ExitFailed(hook.fault))])
  }

  /**
   * The graceful-shutdown caller calls its hook once and nothing else, and
   * a fault from the hook becomes a warning in the log.
   */
  lemma ShutdownHookContained(hook: Outcome)
    ensures Calls(ShutdownHookEvents(hook)) == [CustomGracefulShutdown]
    ensures Outcomes(ShutdownHookEvents(hook), CustomGracefulShutdown) == [hook]
    ensures LoggedAt(ShutdownHookEvents(hook), Warning) <==> hook.Threw?
    ensures !LoggedAt(ShutdownHookEvents(hook), Error) && !LoggedAt(ShutdownHookEvents(hook), Critical)
  {
    var head := [Entry(Information, TaskCleanUp)] + [Call(CustomGracefulShutdown, hook)];
    assert Calls(head) == [CustomGracefulShutdown] && Outcomes(head, CustomGracefulShutdown) == [hook] &&
      !LoggedAt(head, Warning) && !LoggedAt(head, Error) && !LoggedAt(head, Critical) by {
      OneEvent(Entry(Information, TaskCleanUp));
      OneEvent(Call(CustomGracefulShutdown, hook));
      Concat([Entry(Information, TaskCleanUp)], [Call(CustomGracefulShutdown, hook)]);
    }
    if hook.Ok? {
      assert ShutdownHookEvents(hook) == head;
    } else {
      var warn := Entry(Warning, ShutdownDidNotComplete(hook.fault));
      assert ShutdownHookEvents(hook) == head + [warn];
      OneEvent(warn);
      Concat(head, [warn]);
    }
  }

  /** The cancellation caller calls its hook once, and a fault becomes an error entry. */
  lemma CancellationHookContained(hook: Outcome)
    ensures Calls(CancellationHookEvents(hook)) == [CustomCancellation]
    ensures LoggedAt(CancellationHookEvents(hook), Error) <==> hook.Threw?
  {
    var err := if hook.Ok? then [] else [Entry(Error, CancellationFailed(hook.fault))];
    OneEvent(Call(CustomCancellation, hook));
    if hook.Threw? { OneEvent(err[0]); }
    Concat([Call(CustomCancellation, hook)], err);
  }

  /** The exit caller calls its hook once, and a fault becomes an error entry. */
  lemma ExitHookContained(hook: Outcome)
    ensures Calls(ExitHookEvents(hook)) == [CustomExit]
    ensures Outcomes(ExitHookEvents(hook), CustomGracefulShutdown) == []
    ensures LoggedAt(ExitHookEvents(hook), Error) <==> hook.Threw?
  {
    var err := if hook.Ok? then [] else [Entry(Error, ExitFailed(hook.fault))];
    OneEvent(Call(CustomExit, hook));
    if hook.Threw? { OneEvent(err[0]); }
    Concat([Call(CustomExit, hook)], err);
  }

  // ---------------------------------------------------------------------
  // The entry points.
  // ---------------------------------------------------------------------

  /**
   * `Run(insertedAction, finalAction)`: `inserted` is how the work action
   * ends, `final` how the final action ends if one is given. The second
   * component is what escapes from Run: the final action is not inside the
   * try, so its fault propagates.
   */
  function RunStep(s: RunState, inserted: Outcome, final: Option<Outcome>): (r: (RunState, Outcome))
    ensures r.0.taskComplete <==> inserted.Ok?
    ensures r.0.taskInterrupt == s.taskInterrupt
    ensures r.0.hasGracefullyShutdown == s.hasGracefullyShutdown
    ensures r.0.exitCode == s.exitCode
    ensures r.1.Threw? <==> final.Some? && final.value.Threw?
    ensures r.1.Threw? ==> r.1 == final.value
  {
    var afterWork := s.(
      taskComplete := inserted.Ok?,
      history := s.history + WorkEvents(inserted));
    match final
    case None => (afterWork, Ok)
    case Some(f) => (afterWork.(history := afterWork.history + [Call(FinalAction, f)]), f)
  }

  /** What the try block of Run and its catch log and call. */
  function WorkEvents(inserted: Outcome): seq<Event> {
    [Entry(Information, TaskStarting)] + [Call(InsertedAction, inserted)]
      + (if inserted.Ok? then [Entry(Information, TaskComplete)]
         else [Log(Critical, 0, WorkFailed, Some(inserted.fault))])
  }

  /**
   * `_BaseCancel`, reached from the console-cancel handler `Cancel` and from
   * `InvokeCancellation`. It does not run the graceful-shutdown hook, and
   * it ends the process with code 1 whatever the cancellation hook did.
   */
  function CancelStep(s: RunState, cancellation: Outcome): (r: RunState)
    ensures r.taskInterrupt && r.exitCode == Some(1)
    ensures r.taskComplete == s.taskComplete
    ensures r.hasGracefullyShutdown == s.hasGracefullyShutdown
  {
    s.(
      taskInterrupt := true,
      history := s.history + [Entry(Warning, CancelInvoked)] + CancellationHookEvents(cancellation),
      exitCode := Some(1))
  }

  /** What Run logs and calls before the work action is entered. */
  function WorkStarted(): seq<Event> {
    [Entry(Information, TaskStarting)] + [Entered(InsertedAction)]
  }

  /**
   * Run with a cancellation raised while its work action runs: the work
   * action calls `InvokeCancellation`, or the console-cancel handler fires.
   * `_BaseCancel` ends the process with `Environment.Exit(1)`, so neither the
   * work action nor Run returns: nothing after the call is logged, the
   * final action never runs, and `TaskComplete` keeps its value.
   */
  function InterruptedRunStep(s: RunState, cancellation: Outcome): (r: RunState)
    ensures r.taskInterrupt && r.exitCode == Some(1)
    ensures r.taskComplete == s.taskComplete
    ensures r.hasGracefullyShutdown == s.hasGracefullyShutdown
  {
    CancelStep(s.(history := s.history + WorkStarted()), cancellation)
  }

  /** The events `Exit` appends after the graceful-shutdown step, classifying the run. */
  function Classification(complete: bool, interrupt: bool, customExit: Outcome): seq<Event> {
    if interrupt then [Entry(Critical, InterruptedRun)]
    else if !complete then [Log(Critical, IncompleteEventId, IncompleteRun, None)]
    else ExitHookEvents(customExit) + [Entry(Information, RunComplete)]
  }

  /**
   * The process-exit handler `Exit`. The graceful-shutdown hook runs only
   * while the flag is false, and the flag becomes that call's success.
   */
  function ExitStep(s: RunState, gracefulShutdown: Outcome, customExit: Outcome): (r: RunState)
    ensures r.taskComplete == s.taskComplete && r.taskInterrupt == s.taskInterrupt
    ensures r.exitCode == s.exitCode
    ensures r.hasGracefullyShutdown <==> s.hasGracefullyShutdown || gracefulShutdown.Ok?
  {
    var afterShutdown :=
      if s.hasGracefullyShutdown then s
      else s.(
        hasGracefullyShutdown := gracefulShutdown.Ok?,
        history := s.history + ShutdownHookEvents(gracefulShutdown));
    afterShutdown.(history := afterShutdown.history
      + Classification(afterShutdown.taskComplete, afterShutdown.taskInterrupt, customExit))
  }

  // ---------------------------------------------------------------------
  // What each entry point logs and calls.
  // ---------------------------------------------------------------------

  /** What Run appends: the try block or its catch, then the final action's call, if any. */
  function RunAdded(inserted: Outcome, final: Option<Outcome>): seq<Event> {
    WorkEvents(inserted) + (if final.Some? then [Call(FinalAction, final.value)] else [])
  }

  lemma RunAppends(s: RunState, inserted: Outcome, final: Option<Outcome>)
    ensures s.history <= RunStep(s, inserted, final).0.history
    ensures Since(s, RunStep(s, inserted, final).0) == RunAdded(inserted, final)
  {
    var r := RunStep(s, inserted, final).0;
    assert r.history == s.history + RunAdded(inserted, final);
    assert (s.history + RunAdded(inserted, final))[|s.history|..] == RunAdded(inserted, final);
  }

  /**
   * Run logs the start before it calls the work action, and logs completion
   * only when the work action returned, right after it; a fault from the
   * work action is logged at critical level instead, with the fault attached.
   */
  lemma RunLogs(s: RunState, inserted: Outcome, final: Option<Outcome>)
    ensures s.history <= RunStep(s, inserted, final).0.history
    ensures var added := Since(s, RunStep(s, inserted, final).0);
      3 <= |added| &&
      added[0] == Entry(Information, TaskStarting) &&
      added[1] == Call(InsertedAction, inserted) &&
      (inserted.Ok? ==> added[2] == Entry(Information, TaskComplete)) &&
      (inserted.Threw? ==> added[2] == Log(Critical, 0, WorkFailed, Some(inserted.fault))) &&
      (Entry(Information, TaskComplete) in added <==> inserted.Ok?)
  {
    RunAppends(s, inserted, final);
    var added := RunAdded(inserted, final);
    assert added[..3] == WorkEvents(inserted);
    if inserted.Threw? {
      assert forall i :: 0 <= i < |added| ==> added[i] != Entry(Information, TaskComplete);
    }
  }

  /**
   * Run calls the work action once, then the final action, if there is
   * one, exactly once and last, whichever way the work action ended.
   */
  lemma RunCalls(s: RunState, inserted: Outcome, final: Option<Outcome>)
    ensures s.history <= RunStep(s, inserted, final).0.history
    ensures var added := Since(s, RunStep(s, inserted, final).0);
      added != [] &&
      Calls(added) == [InsertedAction] + (if final.Some? then [FinalAction] else []) &&
      (final.Some? ==> Last(added) == Call(FinalAction, final.value))
  {
    RunAppends(s, inserted, final);
    var tail := if final.Some? then [Call(FinalAction, final.value)] else [];
    WorkCalls(inserted);
    if final.Some? { OneEvent(tail[0]); }
    CallsAppend(WorkEvents(inserted), tail);
  }

  /** The try block of Run and its catch call the work action and nothing else. */
  lemma WorkCalls(inserted: Outcome)
    ensures Calls(WorkEvents(inserted)) == [InsertedAction]
  {
    var outcome :=
      if inserted.Ok? then Entry(Information, TaskComplete)
      else Log(Critical, 0, WorkFailed, Some(inserted.fault));
    OneEvent(Entry(Information, TaskStarting));
    OneEvent(Call(InsertedAction, inserted));
    OneEvent(outcome);
    CallsAppend([Entry(Information, TaskStarting)], [Call(InsertedAction, inserted)]);
    CallsAppend([Entry(Information, TaskStarting)] + [Call(InsertedAction, inserted)], [outcome]);
  }

  /**
   * Cancellation logs a warning first, calls the cancellation hook and no
   * other user code, and logs at error level exactly when the hook threw.
   */
  lemma CancelEvents(s: RunState, cancellation: Outcome)
    ensures var r := CancelStep(s, cancellation);
      s.history <= r.history && 2 <= |Since(s, r)| &&
      Since(s, r)[0] == Entry(Warning, CancelInvoked) &&
      Calls(Since(s, r)) == [CustomCancellation] &&
      (LoggedAt(Since(s, r), Error) <==> cancellation.Threw?)
  {
    var r := CancelStep(s, cancellation);
    var hook := CancellationHookEvents(cancellation);
    assert Since(s, r) == [Entry(Warning, CancelInvoked)] + hook;
    OneEvent(Entry(Warning, CancelInvoked));
    CancellationHookContained(cancellation);
    Concat([Entry(Warning, CancelInvoked)], hook);
  }

  /** What `_BaseCancel` appends: its warning, then the cancellation caller's events. */
  function CancelAdded(cancellation: Outcome): seq<Event> {
    [Entry(Warning, CancelInvoked)] + CancellationHookEvents(cancellation)
  }

  lemma InterruptedRunAppends(s: RunState, cancellation: Outcome)
    ensures s.history <= InterruptedRunStep(s, cancellation).history
    ensures Since(s, InterruptedRunStep(s, cancellation)) == WorkStarted() + CancelAdded(cancellation)
  {
    var r := InterruptedRunStep(s, cancellation);
    var added := WorkStarted() + CancelAdded(cancellation);
    assert r.history == s.history + added;
    assert (s.history + added)[|s.history|..] == added;
  }

  /**
   * A cancellation raised from the work action: "Task starting." is logged
   * and the work action entered, then the cancellation runs as on its own;
   * the work action and the cancellation hook are the only user code called.
   */
  lemma InterruptedRunEvents(s: RunState, cancellation: Outcome)
    ensures var r := InterruptedRunStep(s, cancellation);
      s.history <= r.history && 4 <= |Since(s, r)| &&
      Since(s, r)[0] == Entry(Information, TaskStarting) &&
      Since(s, r)[1] == Entered(InsertedAction) &&
      Since(s, r)[2] == Entry(Warning, CancelInvoked) &&
      Calls(Since(s, r)) == [InsertedAction, CustomCancellation] &&
      (LoggedAt(Since(s, r), Error) <==> cancellation.Threw?)
  {
    InterruptedRunAppends(s, cancellation);
    var started := WorkStarted();
    var cancel := CancelAdded(cancellation);
    assert Calls(started) == [InsertedAction] && !LoggedAt(started, Error) by {
      OneEvent(Entry(Information, TaskStarting));
      OneEvent(Entered(InsertedAction));
      Concat([Entry(Information, TaskStarting)], [Entered(InsertedAction)]);
    }
    assert Calls(cancel) == [CustomCancellation] && (LoggedAt(cancel, Error) <==> cancellation.Threw?) by {
      OneEvent(Entry(Warning, CancelInvoked));
      CancellationHookContained(cancellation);
      Concat([Entry(Warning, CancelInvoked)], CancellationHookEvents(cancellation));
    }
    CallsAppend(started, cancel);
    LoggedAtAppend(started, cancel, Error);
    assert (started + cancel)[2] == cancel[0];
  }

  /** What Exit appends: the graceful-shutdown step, if it runs, then the classification. */
  function ExitAdded(s: RunState, gracefulShutdown: Outcome, customExit: Outcome): seq<Event> {
    (if s.hasGracefullyShutdown then [] else ShutdownHookEvents(gracefulShutdown))
      + Classification(s.taskComplete, s.taskInterrupt, customExit)
  }

  lemma ExitAppends(s: RunState, gracefulShutdown: Outcome, customExit: Outcome)
    ensures s.history <= ExitStep(s, gracefulShutdown, customExit).history
    ensures Since(s, ExitStep(s, gracefulShutdown, customExit)) == ExitAdded(s, gracefulShutdown, customExit)
  {
    var r := ExitStep(s, gracefulShutdown, customExit);
    var added := ExitAdded(s, gracefulShutdown, customExit);
    assert r.history == s.history + added;
    assert (s.history + added)[|s.history|..] == added;
  }

  /**
   * Exit calls the graceful-shutdown hook exactly when the flag was false,
   * and then before anything else; the outcomes of the hook's calls are
   * that call's outcome or nothing.
   */
  lemma ExitShutdownEvents(s: RunState, gracefulShutdown: Outcome, customExit: Outcome)
    ensures s.history <= ExitStep(s, gracefulShutdown, customExit).history
    ensures var added := Since(s, ExitStep(s, gracefulShutdown, customExit));
      added != [] &&
      Outcomes(added, CustomGracefulShutdown) == (if s.hasGracefullyShutdown then [] else [gracefulShutdown]) &&
      (!s.hasGracefullyShutdown ==> added[0] == Entry(Information, TaskCleanUp))
  {
    ExitAppends(s, gracefulShutdown, customExit);
    var cleanUp := if s.hasGracefullyShutdown then [] else ShutdownHookEvents(gracefulShutdown);
    var classify := Classification(s.taskComplete, s.taskInterrupt, customExit);
    if !s.hasGracefullyShutdown {
      ShutdownHookContained(gracefulShutdown);
    }
    ClassificationEvents(s.taskComplete, s.taskInterrupt, customExit);
    OutcomesAppend(cleanUp, classify, CustomGracefulShutdown);
  }

  /**
   * Exit calls the graceful-shutdown hook only while the flag is false, and
   * the exit hook exactly when the run completed and was not interrupted.
   */
  lemma ExitCalls(s: RunState, gracefulShutdown: Outcome, customExit: Outcome)
    ensures s.history <= ExitStep(s, gracefulShutdown, customExit).history
    ensures var added := Since(s, ExitStep(s, gracefulShutdown, customExit));
      Calls(added) ==
        (if s.hasGracefullyShutdown then [] else [CustomGracefulShutdown]) +
        (if s.taskComplete && !s.taskInterrupt then [CustomExit] else []) &&
      (CustomExit in Calls(added) <==> s.taskComplete && !s.taskInterrupt)
  {
    ExitAppends(s, gracefulShutdown, customExit);
    var cleanUp := if s.hasGracefullyShutdown then [] else ShutdownHookEvents(gracefulShutdown);
    var classify := Classification(s.taskComplete, s.taskInterrupt, customExit);
    var shutdownCalls := if s.hasGracefullyShutdown then [] else [CustomGracefulShutdown];
    var exitCalls := if s.taskComplete && !s.taskInterrupt then [CustomExit] else [];
    assert Calls(cleanUp) == shutdownCalls by {
      if !s.hasGracefullyShutdown {
        ShutdownHookContained(gracefulShutdown);
      }
    }
    assert Calls(classify) == exitCalls by {
      ClassificationEvents(s.taskComplete, s.taskInterrupt, customExit);
    }
    CallsAppend(cleanUp, classify);
    assert CustomExit !in shutdownCalls;
  }

  /**
   * Exit ends by classifying the run: an interrupted run is classified as
   * such whatever `taskComplete` is; an uninterrupted incomplete run is
   * logged as incomplete under event id 1000; and on the complete path
   * "Run Complete." is logged last even when the exit hook threw, with an
   * error entry exactly when it did.
   */
  lemma ExitClassifies(s: RunState, gracefulShutdown: Outcome, customExit: Outcome)
    ensures s.history <= ExitStep(s, gracefulShutdown, customExit).history
    ensures var added := Since(s, ExitStep(s, gracefulShutdown, customExit));
      added != [] &&
      (s.taskInterrupt ==> Last(added) == Entry(Critical, InterruptedRun)) &&
      (!s.taskInterrupt && !s.taskComplete ==>
        Last(added) == Log(Critical, IncompleteEventId, IncompleteRun, None)) &&
      (s.taskComplete && !s.taskInterrupt ==>
        Last(added) == Entry(Information, RunComplete) &&
        (customExit.Threw? <==> LoggedAt(added, Error)))
  {
    ExitAppends(s, gracefulShutdown, customExit);
    var cleanUp := if s.hasGracefullyShutdown then [] else ShutdownHookEvents(gracefulShutdown);
    var classify := Classification(s.taskComplete, s.taskInterrupt, customExit);
    ClassificationEvents(s.taskComplete, s.taskInterrupt, customExit);
    assert Last(cleanUp + classify) == Last(classify);
    if s.taskComplete && !s.taskInterrupt {
      if !s.hasGracefullyShutdown {
        ShutdownHookContained(gracefulShutdown);
      }
      LoggedAtAppend(cleanUp, classify, Error);
    }
  }

  lemma ClassificationEvents(complete: bool, interrupt: bool, customExit: Outcome)
    ensures var es := Classification(complete, interrupt, customExit);
      es != [] &&
      Outcomes(es, CustomGracefulShutdown) == [] &&
      Calls(es) == (if complete && !interrupt then [CustomExit] else []) &&
      (complete && !interrupt ==> (customExit.Threw? <==> LoggedAt(es, Error))) &&
      (!(complete && !interrupt) ==> !LoggedAt(es, Error)) &&
      (interrupt ==> Last(es) == Entry(Critical, InterruptedRun)) &&
      (!interrupt && !complete ==> Last(es) == Log(Critical, IncompleteEventId, IncompleteRun, None)) &&
      (complete && !interrupt ==> Last(es) == Entry(Information, RunComplete))
  {
    var es := Classification(complete, interrupt, customExit);
    if interrupt || !complete {
      OneEvent(es[0]);
      assert es == [es[0]];
    } else {
      var hook := ExitHookEvents(customExit);
      var done := [Entry(Information, RunComplete)];
      ExitHookContained(customExit);
      OneEvent(done[0]);
      Concat(hook, done);
    }
  }

  // ---------------------------------------------------------------------
  // Any sequential order of Run, cancellation and process exit.
  // ---------------------------------------------------------------------

  /**
   * One call of an entry point, with how the user code it reaches ends. A
   * cancellation is `fromWork` when it is raised while the work action of
   * Run is running, so that Run never returns.
   */
  datatype Signal =
    | RunCalled(inserted: Outcome, final: Option<Outcome>)
    | Cancelled(cancellation: Outcome, fromWork: bool)
    | ProcessExited(gracefulShutdown: Outcome, customExit: Outcome)

  function Step(s: RunState, signal: Signal): RunState {
    match signal
    case RunCalled(inserted, final) => RunStep(s, inserted, final).0
    case Cancelled(cancellation, fromWork) =>
      if fromWork then InterruptedRunStep(s, cancellation) else CancelStep(s, cancellation)
    case ProcessExited(gracefulShutdown, customExit) => ExitStep(s, gracefulShutdown, customExit)
  }

  /** The state after the entry points are called in the order `signals` gives. */
  function Replay(s: RunState, signals: seq<Signal>): RunState
    decreases |signals|
  {
    if signals == [] then s else Replay(Step(s, signals[0]), signals[1..])
  }

  predicate AnyCancelled(signals: seq<Signal>) {
    exists i :: 0 <= i < |signals| && signals[i].Cancelled?
  }

  /**
   * How the work action of the latest Run in `signals` that finished its try
   * block ended (it returned or threw), if there is one. A Run cut short by
   * a cancellation never finishes it and is not counted.
   */
  function LastWork(signals: seq<Signal>): Option<Outcome>
    decreases |signals|
  {
    if signals == [] then None
    else if LastWork(signals[1..]).Some? then LastWork(signals[1..])
    else if signals[0].RunCalled? then Some(signals[0].inserted)
    else None
  }

  lemma {:induction false} ReplayAppend(s: RunState, a: seq<Signal>, b: seq<Signal>)
    ensures Replay(s, a + b) == Replay(Replay(s, a), b)
    decreases |a|
  {
    if a == [] {
      assert a + b == b;
    } else {
      assert (a + b)[1..] == a[1..] + b;
      ReplayAppend(Step(s, a[0]), a[1..], b);
    }
  }

  /** `TaskInterrupt` is write-once: it is true exactly when it was, or some cancellation ran. */
  lemma {:induction false} InterruptIffCancelled(s: RunState, signals: seq<Signal>)
    ensures Replay(s, signals).taskInterrupt <==> s.taskInterrupt || AnyCancelled(signals)
    decreases |signals|
  {
    if signals != [] {
      InterruptIffCancelled(Step(s, signals[0]), signals[1..]);
      if AnyCancelled(signals[1..]) {
        var i :| 0 <= i < |signals[1..]| && signals[1..][i].Cancelled?;
        assert signals[i + 1].Cancelled?;
      }
      if AnyCancelled(signals) && !signals[0].Cancelled? {
        var i :| 0 <= i < |signals| && signals[i].Cancelled?;
        assert signals[1..][i - 1].Cancelled?;
      }
    }
  }

  /** Environment.Exit(1) is requested exactly when some cancellation ran; no other code is set. */
  lemma {:induction false} ExitCodeIffCancelled(s: RunState, signals: seq<Signal>)
    ensures Replay(s, signals).exitCode == if AnyCancelled(signals) then Some(1) else s.exitCode
    decreases |signals|
  {
    if signals != [] {
      ExitCodeIffCancelled(Step(s, signals[0]), signals[1..]);
      if AnyCancelled(signals[1..]) {
        var i :| 0 <= i < |signals[1..]| && signals[1..][i].Cancelled?;
        assert signals[i + 1].Cancelled?;
      }
      if AnyCancelled(signals) && !signals[0].Cancelled? {
        var i :| 0 <= i < |signals| && signals[i].Cancelled?;
        assert signals[1..][i - 1].Cancelled?;
      }
    }
  }

  /**
   * `TaskComplete` says whether the work action of the latest Run that
   * finished its try block returned; a Run cut short by a cancellation,
   * cancellation itself and process exit leave it as it was, since Run
   * never resets it when it starts.
   */
  lemma {:induction false} CompleteIffLastWorkReturned(s: RunState, signals: seq<Signal>)
    ensures Replay(s, signals).taskComplete ==
      match LastWork(signals)
      case None => s.taskComplete
      case Some(work) => work.Ok?
    decreases |signals|
  {
    if signals != [] {
      CompleteIffLastWorkReturned(Step(s, signals[0]), signals[1..]);
    }
  }

  /** Once `HasGracefullyShutdown` is true it stays true. */
  lemma {:induction false} ShutdownFlagSticky(s: RunState, signals: seq<Signal>)
    requires s.hasGracefullyShutdown
    ensures Replay(s, signals).hasGracefullyShutdown
    decreases |signals|
  {
    if signals != [] {
      ShutdownFlagSticky(Step(s, signals[0]), signals[1..]);
    }
  }

  /**
   * The graceful-shutdown discipline Exit keeps: the hook is called again
   * only after a call that threw, never after one that returned, and the
   * flag says whether the latest call returned.
   */
  predicate ShutdownDiscipline(s: RunState) {
    var attempts := Outcomes(s.history, CustomGracefulShutdown);
    (forall k :: 0 <= k < |attempts| - 1 ==> attempts[k].Threw?) &&
    (s.hasGracefullyShutdown <==> attempts != [] && Last(attempts).Ok?)
  }

  /** Run leaves the graceful-shutdown hook alone. */
  lemma RunShutdownAttempts(s: RunState, inserted: Outcome, final: Option<Outcome>)
    ensures Outcomes(RunStep(s, inserted, final).0.history, CustomGracefulShutdown) ==
      Outcomes(s.history, CustomGracefulShutdown)
  {
    var r := RunStep(s, inserted, final).0;
    RunCalls(s, inserted, final);
    var added := Since(s, r);
    OutcomesWithoutCalls(added, CustomGracefulShutdown);
    assert r.history == s.history + added;
    OutcomesAppend(s.history, added, CustomGracefulShutdown);
  }

  /** The cancellation path leaves the graceful-shutdown hook alone. */
  lemma CancelShutdownAttempts(s: RunState, cancellation: Outcome)
    ensures Outcomes(CancelStep(s, cancellation).history, CustomGracefulShutdown) ==
      Outcomes(s.history, CustomGracefulShutdown)
  {
    var r := CancelStep(s, cancellation);
    CancelEvents(s, cancellation);
    var added := Since(s, r);
    OutcomesWithoutCalls(added, CustomGracefulShutdown);
    assert r.history == s.history + added;
    OutcomesAppend(s.history, added, CustomGracefulShutdown);
  }

  /** A cancellation raised from the work action leaves the graceful-shutdown hook alone. */
  lemma InterruptedRunShutdownAttempts(s: RunState, cancellation: Outcome)
    ensures Outcomes(InterruptedRunStep(s, cancellation).history, CustomGracefulShutdown) ==
      Outcomes(s.history, CustomGracefulShutdown)
  {
    var r := InterruptedRunStep(s, cancellation);
    InterruptedRunEvents(s, cancellation);
    var added := Since(s, r);
    OutcomesWithoutCalls(added, CustomGracefulShutdown);
    assert r.history == s.history + added;
    OutcomesAppend(s.history, added, CustomGracefulShutdown);
  }

  /** Exit calls the graceful-shutdown hook once while the flag is false, and not at all after. */
  lemma ExitShutdownAttempts(s: RunState, gracefulShutdown: Outcome, customExit: Outcome)
    ensures Outcomes(ExitStep(s, gracefulShutdown, customExit).history, CustomGracefulShutdown) ==
      Outcomes(s.history, CustomGracefulShutdown) +
      (if !s.hasGracefullyShutdown then [gracefulShutdown] else [])
  {
    var r := ExitStep(s, gracefulShutdown, customExit);
    ExitShutdownEvents(s, gracefulShutdown, customExit);
    assert r.history == s.history + Since(s, r);
    OutcomesAppend(s.history, Since(s, r), CustomGracefulShutdown);
  }

  /** Only Exit calls the graceful-shutdown hook, and only while the flag is false. */
  lemma StepShutdownAttempts(s: RunState, signal: Signal)
    ensures Outcomes(Step(s, signal).history, CustomGracefulShutdown) ==
      Outcomes(s.history, CustomGracefulShutdown) +
      (if signal.ProcessExited? && !s.hasGracefullyShutdown then [signal.gracefulShutdown] else [])
  {
    match signal {
      case RunCalled(inserted, final) =>
        RunShutdownAttempts(s, inserted, final);
      case Cancelled(cancellation, fromWork) =>
        if fromWork {
          InterruptedRunShutdownAttempts(s, cancellation);
        } else {
          CancelShutdownAttempts(s, cancellation);
        }
      case ProcessExited(gracefulShutdown, customExit) =>
        ExitShutdownAttempts(s, gracefulShutdown, customExit);
    }
  }

  lemma StepKeepsShutdownDiscipline(s: RunState, signal: Signal)
    requires ShutdownDiscipline(s)
    ensures ShutdownDiscipline(Step(s, signal))
  {
    StepShutdownAttempts(s, signal);
    var attempts := Outcomes(s.history, CustomGracefulShutdown);
    if signal.ProcessExited? && !s.hasGracefullyShutdown {
      assert forall k :: 0 <= k < |attempts| ==> attempts[k].Threw?;
    }
  }

  lemma {:induction false} ReplayKeepsShutdownDiscipline(s: RunState, signals: seq<Signal>)
    requires ShutdownDiscipline(s)
    ensures ShutdownDiscipline(Replay(s, signals))
    decreases |signals|
  {
    if signals != [] {
      StepKeepsShutdownDiscipline(s, signals[0]);
      ReplayKeepsShutdownDiscipline(Step(s, signals[0]), signals[1..]);
    }
  }

  /** Every state a Runner can reach keeps the graceful-shutdown discipline. */
  lemma ReachableShutdownDiscipline(signals: seq<Signal>)
    ensures ShutdownDiscipline(Replay(Initial(), signals))
  {
    ReplayKeepsShutdownDiscipline(Initial(), signals);
  }

  /**
   * Interruption wins: once a cancellation has run, every later Exit
   * classifies the run as interrupted and does not call the exit hook,
   * even if the work action completed before or after the cancellation.
   */
  lemma InterruptWins(
    s: RunState, pre: seq<Signal>, cancellation: Outcome, fromWork: bool, mid: seq<Signal>,
    gracefulShutdown: Outcome, customExit: Outcome)
    ensures var before := Replay(s, pre + [Cancelled(cancellation, fromWork)] + mid);
      var after := ExitStep(before, gracefulShutdown, customExit);
      before.history <= after.history && Since(before, after) != [] &&
      CustomExit !in Calls(Since(before, after)) &&
      Last(Since(before, after)) == Entry(Critical, InterruptedRun)
  {
    var signals := pre + [Cancelled(cancellation, fromWork)] + mid;
    assert signals[|pre|].Cancelled?;
    InterruptIffCancelled(s, signals);
    ExitCalls(Replay(s, signals), gracefulShutdown, customExit);
    ExitClassifies(Replay(s, signals), gracefulShutdown, customExit);
  }

  /**
   * Over a whole run from construction: the next Exit calls the exit hook
   * exactly when the last Run's work action returned and no cancellation
   * has run.
   */
  lemma ExitHookIffCompletedRun(signals: seq<Signal>, gracefulShutdown: Outcome, customExit: Outcome)
    ensures var before := Replay(Initial(), signals);
      var after := ExitStep(before, gracefulShutdown, customExit);
      before.history <= after.history &&
      (CustomExit in Calls(Since(before, after)) <==>
        LastWork(signals) == Some(Ok) && !AnyCancelled(signals))
  {
    InterruptIffCancelled(Initial(), signals);
    CompleteIffLastWorkReturned(Initial(), signals);
    ExitCalls(Replay(Initial(), signals), gracefulShutdown, customExit);
  }

  /** Without an Exit, neither the graceful-shutdown hook nor its flag is touched. */
  lemma {:induction false} NoExitNoShutdown(s: RunState, signals: seq<Signal>)
    requires forall i :: 0 <= i < |signals| ==> !signals[i].ProcessExited?
    ensures Outcomes(Replay(s, signals).history, CustomGracefulShutdown) ==
      Outcomes(s.history, CustomGracefulShutdown)
    ensures Replay(s, signals).hasGracefullyShutdown == s.hasGracefullyShutdown
    decreases |signals|
  {
    if signals != [] {
      StepShutdownAttempts(s, signals[0]);
      NoExitNoShutdown(Step(s, signals[0]), signals[1..]);
    }
  }

  /**
   * The process-exit notification comes once per process, so the
   * graceful-shutdown hook runs exactly once, from Exit, and the flag
   * records whether that call returned.
   */
  lemma ShutdownOnceOnFirstExit(pre: seq<Signal>, gracefulShutdown: Outcome, customExit: Outcome)
    requires forall i :: 0 <= i < |pre| ==> !pre[i].ProcessExited?
    ensures var r := Replay(Initial(), pre + [ProcessExited(gracefulShutdown, customExit)]);
      Outcomes(r.history, CustomGracefulShutdown) == [gracefulShutdown] &&
      (r.hasGracefullyShutdown <==> gracefulShutdown.Ok?)
  {
    var exit := ProcessExited(gracefulShutdown, customExit);
    ReplayAppend(Initial(), pre, [exit]);
    NoExitNoShutdown(Initial(), pre);
    var before := Replay(Initial(), pre);
    StepShutdownAttempts(before, exit);
    assert Replay(before, [exit]) == Step(before, exit);
  }

  /**
   * The orders one process can produce: the process-exit notification is
   * raised once, as the process ends, so no entry point follows it.
   */
  predicate ExitOnlyLast(signals: seq<Signal>) {
    forall i :: 0 <= i < |signals| - 1 ==> !signals[i].ProcessExited?
  }

  /**
   * Within one process the graceful-shutdown hook runs at most once, exactly
   * when the process-exit notification has been raised, and the flag is true
   * exactly when that one call returned.
   */
  lemma ShutdownAtMostOncePerProcess(signals: seq<Signal>)
    requires ExitOnlyLast(signals)
    ensures var r := Replay(Initial(), signals);
      var attempts := Outcomes(r.history, CustomGracefulShutdown);
      |attempts| <= 1 &&
      (attempts != [] <==> signals != [] && Last(signals).ProcessExited?) &&
      (r.hasGracefullyShutdown <==> attempts == [Ok])
  {
    if signals != [] && Last(signals).ProcessExited? {
      var pre := signals[..|signals| - 1];
      assert signals == pre + [Last(signals)];
      ShutdownOnceOnFirstExit(pre, Last(signals).gracefulShutdown, Last(signals).customExit);
    } else {
      NoExitNoShutdown(Initial(), signals);
    }
  }
}
