/**
 * Whole lifecycles of one process, from construction to the process-exit
 * notification, as the Runner of Runner.cs runs them.
 */
module Scenarios {
  import opened Events
  import opened Lifecycle

  lemma ReplayTwo(s: RunState, a: Signal, b: Signal)
    ensures Replay(s, [a, b]) == Step(Step(s, a), b)
  {
    assert [a, b][1..] == [b];
    assert [b][1..] == [];
    assert Replay(s, [a, b]) == Replay(Step(s, a), [b]);
    assert Replay(Step(s, a), [b]) == Replay(Step(Step(s, a), b), []);
  }

  /**
   * The work action returns and nobody interrupts: the graceful-shutdown
   * hook and the exit hook run once each, after the work, and the run is
   * logged as complete; no exit code is set.
   */
  lemma CompletedRun()
    ensures var r := Replay(Initial(), [RunCalled(Ok, None), ProcessExited(NoOp, NoOp)]);
      r.taskComplete && !r.taskInterrupt && r.hasGracefullyShutdown && r.exitCode == None &&
      Calls(r.history) == [InsertedAction, CustomGracefulShutdown, CustomExit] &&
      r.history != [] && Last(r.history) == Entry(Information, RunComplete)
  {
    var ran := RunStep(Initial(), Ok, None).0;
    var r := ExitStep(ran, NoOp, NoOp);
    assert Replay(Initial(), [RunCalled(Ok, None), ProcessExited(NoOp, NoOp)]) == r by {
      ReplayTwo(Initial(), RunCalled(Ok, None), ProcessExited(NoOp, NoOp));
    }
    assert ran.taskComplete && !ran.taskInterrupt && !ran.hasGracefullyShutdown;
    var added := Since(ran, r);
    assert r.history == ran.history + added;
    assert Calls(added) == [CustomGracefulShutdown, CustomExit] && added != [] &&
      Last(added) == Entry(Information, RunComplete) by {
      ExitCalls(ran, NoOp, NoOp);
      ExitClassifies(ran, NoOp, NoOp);
    }
    assert Calls(r.history) == [InsertedAction, CustomGracefulShutdown, CustomExit] by {
      assert Calls(ran.history) == [InsertedAction] by {
        RunCalls(Initial(), Ok, None);
        assert Since(Initial(), ran) == ran.history;
      }
      CallsAppend(ran.history, added);
    }
    assert Last(r.history) == Last(added);
  }

  lemma CutShortFromStart(cancellation: Outcome)
    ensures var cancelled := InterruptedRunStep(Initial(), cancellation);
      2 <= |cancelled.history| &&
      Calls(cancelled.history) == [InsertedAction, CustomCancellation] &&
      cancelled.history[0] == Entry(Information, TaskStarting) &&
      cancelled.history[1] == Entered(InsertedAction)
  {
    var cancelled := InterruptedRunStep(Initial(), cancellation);
    InterruptedRunEvents(Initial(), cancellation);
    assert Since(Initial(), cancelled) == cancelled.history;
  }

  /**
   * The work action is running when the cancellation is raised (it calls
   * `InvokeCancellation`, or the console-cancel handler fires), so Run never
   * returns: the cancellation hook runs after the work action was entered,
   * and exit code 1 is requested; the process-exit notification that
   * follows runs the graceful-shutdown hook and logs an interrupted run;
   * the exit hook never runs.
   */
  lemma InterruptedWhileWorking(cancellation: Outcome)
    ensures var r := Replay(Initial(), [Cancelled(cancellation, true), ProcessExited(NoOp, NoOp)]);
      r.taskInterrupt && !r.taskComplete && r.hasGracefullyShutdown && r.exitCode == Some(1) &&
      2 <= |r.history| &&
      r.history[0] == Entry(Information, TaskStarting) && r.history[1] == Entered(InsertedAction) &&
      Calls(r.history) == [InsertedAction, CustomCancellation, CustomGracefulShutdown] &&
      Last(r.history) == Entry(Critical, InterruptedRun)
  {
    var cancelled := InterruptedRunStep(Initial(), cancellation);
    var r := ExitStep(cancelled, NoOp, NoOp);
    assert Replay(Initial(), [Cancelled(cancellation, true), ProcessExited(NoOp, NoOp)]) == r by {
      ReplayTwo(Initial(), Cancelled(cancellation, true), ProcessExited(NoOp, NoOp));
    }
    var added := Since(cancelled, r);
    assert r.history == cancelled.history + added;
    assert Calls(added) == [CustomGracefulShutdown] && added != [] &&
      Last(added) == Entry(Critical, InterruptedRun) by {
      ExitCalls(cancelled, NoOp, NoOp);
      ExitClassifies(cancelled, NoOp, NoOp);
    }
    assert Calls(r.history) == [InsertedAction, CustomCancellation, CustomGracefulShutdown] &&
      r.history[0] == Entry(Information, TaskStarting) && r.history[1] == Entered(InsertedAction) by {
      CutShortFromStart(cancellation);
      CallsAppend(cancelled.history, added);
      assert r.history[0] == cancelled.history[0] && r.history[1] == cancelled.history[1];
    }
    assert Last(r.history) == Last(added);
  }

  /**
   * The work action throws: the fault is logged at critical level right
   * after the call, the final action still runs, and the process-exit
   * notification logs an incomplete run without calling the exit hook.
   */
  lemma FaultedRun(f: Fault)
    ensures var r := Replay(Initial(), [RunCalled(Threw(f), Some(Ok)), ProcessExited(NoOp, NoOp)]);
      !r.taskComplete && !r.taskInterrupt && r.exitCode == None &&
      3 <= |r.history| && r.history[2] == Log(Critical, 0, WorkFailed, Some(f)) &&
      Calls(r.history) == [InsertedAction, FinalAction, CustomGracefulShutdown] &&
      Last(r.history) == Log(Critical, IncompleteEventId, IncompleteRun, None)
  {
    var ran := RunStep(Initial(), Threw(f), Some(Ok)).0;
    var r := ExitStep(ran, NoOp, NoOp);
    assert Replay(Initial(), [RunCalled(Threw(f), Some(Ok)), ProcessExited(NoOp, NoOp)]) == r by {
      ReplayTwo(Initial(), RunCalled(Threw(f), Some(Ok)), ProcessExited(NoOp, NoOp));
    }
    var added := Since(ran, r);
    assert r.history == ran.history + added;
    assert Calls(added) == [CustomGracefulShutdown] && added != [] &&
      Last(added) == Log(Critical, IncompleteEventId, IncompleteRun, None) by {
      ExitCalls(ran, NoOp, NoOp);
      ExitClassifies(ran, NoOp, NoOp);
    }
    assert 3 <= |ran.history| && ran.history[2] == Log(Critical, 0, WorkFailed, Some(f)) &&
      Calls(ran.history) == [InsertedAction, FinalAction] by {
      RunLogs(Initial(), Threw(f), Some(Ok));
      RunCalls(Initial(), Threw(f), Some(Ok));
      assert Since(Initial(), ran) == ran.history;
    }
    assert r.history[2] == ran.history[2];
    assert Calls(r.history) == [InsertedAction, FinalAction, CustomGracefulShutdown] by {
      CallsAppend(ran.history, added);
    }
    assert Last(r.history) == Last(added);
  }

  /**
   * The final action throws after the work action returned: the run still
   * counts as complete, and the fault escapes Run to its caller.
   */
  lemma FinalActionFaultEscapes(f: Fault)
    ensures var (r, thrown) := RunStep(Initial(), Ok, Some(Threw(f)));
      thrown == Threw(f) && r.taskComplete &&
      Calls(r.history) == [InsertedAction, FinalAction]
  {
    RunCalls(Initial(), Ok, Some(Threw(f)));
    assert Since(Initial(), RunStep(Initial(), Ok, Some(Threw(f))).0) == RunStep(Initial(), Ok, Some(Threw(f))).0.history;
  }

  /**
   * Run does not reset `TaskComplete` when it starts: after a completed
   * Run, a second Run whose work action raises a cancellation never
   * returns, yet the flag still says complete. Exit classifies the run by
   * the interrupt all the same.
   */
  lemma CompleteSurvivesCutShortRun(cancellation: Outcome)
    ensures var signals := [RunCalled(Ok, None), Cancelled(cancellation, true), ProcessExited(NoOp, NoOp)];
      var r := Replay(Initial(), signals);
      ExitOnlyLast(signals) && LastWork(signals) == Some(Ok) &&
      r.taskComplete && r.taskInterrupt && r.history != [] &&
      Last(r.history) == Entry(Critical, InterruptedRun)
  {
    var signals := [RunCalled(Ok, None), Cancelled(cancellation, true), ProcessExited(NoOp, NoOp)];
    var ran := RunStep(Initial(), Ok, None).0;
    var cut := InterruptedRunStep(ran, cancellation);
    var r := ExitStep(cut, NoOp, NoOp);
    assert cut.taskComplete && cut.taskInterrupt;
    ExitClassifies(cut, NoOp, NoOp);
    assert r.history == cut.history + Since(cut, r);
    assert Last(r.history) == Last(Since(cut, r));
    assert signals[1..] == [Cancelled(cancellation, true), ProcessExited(NoOp, NoOp)];
    ReplayTwo(ran, Cancelled(cancellation, true), ProcessExited(NoOp, NoOp));
    assert signals[1..][1..] == [ProcessExited(NoOp, NoOp)];
    assert signals[1..][1..][1..] == [];
    assert LastWork(signals[1..][1..]) == None;
    assert LastWork(signals[1..]) == None;
  }

  /**
   * The guard on the graceful-shutdown step, over repeated calls of Exit: a
   * hook call that threw leaves the flag false, so a further Exit would call
   * the hook again; once a call returns, further Exits leave it alone. A
   * process raises the exit notification only once, so there the hook runs
   * at most once (`ShutdownAtMostOncePerProcess`).
   */
  lemma ShutdownRetriedUntilItReturns(f: Fault)
    ensures var r := Replay(Initial(),
        [ProcessExited(Threw(f), NoOp), ProcessExited(NoOp, NoOp), ProcessExited(NoOp, NoOp)]);
      Outcomes(r.history, CustomGracefulShutdown) == [Threw(f), Ok] && r.hasGracefullyShutdown
  {
    var signals := [ProcessExited(Threw(f), NoOp), ProcessExited(NoOp, NoOp), ProcessExited(NoOp, NoOp)];
    var s0 := Initial();
    var s1 := Step(s0, signals[0]);
    var s2 := Step(s1, signals[1]);
    var s3 := Step(s2, signals[2]);
    StepShutdownAttempts(s0, signals[0]);
    StepShutdownAttempts(s1, signals[1]);
    StepShutdownAttempts(s2, signals[2]);
    assert signals[1..] == [signals[1], signals[2]];
    ReplayTwo(s1, signals[1], signals[2]);
  }
}
