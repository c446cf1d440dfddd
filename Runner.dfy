/**
 * The `Runner` class of Runner.cs. Its three flags, its logger and the
 * process exit are fields updated in place; each method is proved to move
 * the object from one state to the next exactly as the matching transition
 * of the Lifecycle module does, so everything proved there holds of it.
 *
 * The user code a Runner calls (the work action, the final action and the
 * three overridable hooks) is given to each method as the Outcome that call
 * would have: `Ok` when it returns, `Threw(fault)` when it throws.
 */
module ScheduledTask {
  import opened Events
  import opened Lifecycle

  class Runner {
    var taskComplete: bool
    var taskInterrupt: bool
    var hasGracefullyShutdown: bool
    /** What has been written to the logger and which user code has been called, oldest first. */
    var history: seq<Event>
    /** The code passed to Environment.Exit, once it has been called. */
    var exitCode: Option<int>

    function State(): RunState
      reads this
    {
      RunState(taskComplete, taskInterrupt, hasGracefullyShutdown, history, exitCode)
    }

    /** Subscribing the two handlers to the console and the process is left to the caller. */
    constructor ()
      ensures State() == Initial()
    {
      taskComplete, taskInterrupt, hasGracefullyShutdown := false, false, false;
      history := [];
      exitCode := None;
    }

    /**
     * Runs the work action, containing its fault, then the final action if
     * there is one. A fault from the final action is returned: it escapes Run.
     */
    method Run(inserted: Outcome, final: Option<Outcome>) returns (thrown: Outcome)
      modifies this
      ensures taskComplete <==> inserted.Ok?
      ensures (State(), thrown) == RunStep(old(State()), inserted, final)
    {
      history := history + [Entry(Information, TaskStarting)];
      history := history + [Call(InsertedAction, inserted)];
      if inserted.Ok? {
        history := history + [Entry(Information, TaskComplete)];
        taskComplete := true;
      } else {
        history := history + [Log(Critical, 0, WorkFailed, Some(inserted.fault))];
        taskComplete := false;
      }
      assert history == old(history) + WorkEvents(inserted);
      thrown := Ok;
      if final.Some? {
        history := history + [Call(FinalAction, final.value)];
        thrown := final.value;
      }
    }

    /**
     * Run when the cancellation is raised while its work action runs (the
     * work action calls InvokeCancellation, or the console-cancel handler
     * fires): `_BaseCancel` ends the process inside the work action, so Run
     * never returns, never logs the work's end and never reaches the final
     * action.
     */
    method RunInterruptedByCancellation(cancellation: Outcome)
      modifies this
      ensures taskInterrupt && exitCode == Some(1) && taskComplete == old(taskComplete)
      ensures State() == InterruptedRunStep(old(State()), cancellation)
    {
      history := history + [Entry(Information, TaskStarting)];
      history := history + [Entered(InsertedAction)];
      InvokeCancellation(cancellation);
    }

    /** The public way to start the cancellation lifecycle. */
    method InvokeCancellation(cancellation: Outcome)
      modifies this
      ensures State() == CancelStep(old(State()), cancellation)
    {
      BaseCancel(cancellation);
    }

    /** The Console.CancelKeyPress handler. */
    method Cancel(cancellation: Outcome)
      modifies this
      ensures State() == CancelStep(old(State()), cancellation)
    {
      BaseCancel(cancellation);
    }

    method BaseCancel(cancellation: Outcome)
      modifies this
      ensures taskInterrupt && exitCode == Some(1)
      ensures State() == CancelStep(old(State()), cancellation)
    {
      taskInterrupt := true;
      history := history + [Entry(Warning, CancelInvoked)];
      CallerToCustomCancellation(cancellation);
      exitCode := Some(1);
    }

    /** Runs the graceful-shutdown hook; reports whether it returned, and never throws. */
    method CallerToCustomGracefulShutdown(hook: Outcome) returns (succeeded: bool)
      modifies this`history
      ensures succeeded <==> hook.Ok?
      ensures history == old(history) + ShutdownHookEvents(hook)
    {
      history := history + [Entry(Information, TaskCleanUp)];
      history := history + [Call(CustomGracefulShutdown, hook)];
      if hook.Ok? {
        return true;
      }
      history := history + [Entry(Warning, ShutdownDidNotComplete(hook.fault))];
      return false;
    }

    method CallerToCustomCancellation(hook: Outcome)
      modifies this`history
      ensures history == old(history) + CancellationHookEvents(hook)
    {
      history := history + [Call(CustomCancellation, hook)];
      if hook.Threw? {
        history := history + [Entry(Error, CancellationFailed(hook.fault))];
      }
    }

    method CallerToCustomExit(hook: Outcome)
      modifies this`history
      ensures history == old(history) + ExitHookEvents(hook)
    {
      history := history + [Call(CustomExit, hook)];
      if hook.Threw? {
        history := history + [Entry(Error, ExitFailed(hook.fault))];
        return;
      }
    }

    /**
     * The AppDomain.ProcessExit handler. The source tests `!TaskComplete ||
     * TaskInterrupt` around the two classifying branches; that guard is
     * implied by theirs, so the branches stand alone here.
     */
    method Exit(gracefulShutdown: Outcome, customExit: Outcome)
      modifies this
      ensures hasGracefullyShutdown <==> old(hasGracefullyShutdown) || gracefulShutdown.Ok?
      ensures State() == ExitStep(old(State()), gracefulShutdown, customExit)
    {
      if !hasGracefullyShutdown {
        hasGracefullyShutdown := CallerToCustomGracefulShutdown(gracefulShutdown);
      }
      if taskInterrupt {
        history := history + [Entry(Critical, InterruptedRun)];
        return;
      }
      if !taskComplete {
        history := history + [Log(Critical, IncompleteEventId, IncompleteRun, None)];
        return;
      }
      CallerToCustomExit(customExit);
      history := history + [Entry(Information, RunComplete)];
    }
  }
}
