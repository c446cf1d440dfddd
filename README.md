# Runner lifecycle (ConsolePOC.ScheduledTask)

This project models the `Runner` class of `Runner.cs`. A `Runner` safely runs
a scheduled task's work action and reacts to the two ways the process can be
told to stop: the console-cancel handler and the process-exit handler. It
keeps three flags, `TaskComplete`, `TaskInterrupt` and
`HasGracefullyShutdown`. It writes to a logger and calls user code: the work
action, an optional final action, and three overridable hooks
(`CustomCancellation`, `CustomExit`, `CustomGracefulShutdown`). It may also
end the process with `Environment.Exit(1)`.

The model has four modules:

- `Events` holds the observable record: log entries (level, event id,
  message, attached fault) and calls into user code, each with how the call
  ended (`Ok`, or `Threw(fault)`). A call inside which the process was
  ended, so that it never returned, is recorded as `Entered`.
  - `Text` renders each message as the string the source logs; the fixed
    messages render as pairwise different strings (`PlainTextsDiffer`).
  - `Calls`, `Outcomes` and `LoggedAt` are projections of that record.
- `Lifecycle` is the state machine on values.
  - `RunState` holds the three flags, the history and the exit code.
  - There is one transition per entry point: `RunStep`, `CancelStep` and
    `ExitStep`. `InterruptedRunStep` is a Run whose work action is cut short
    by a cancellation.
  - `Replay` runs the entry points in any sequential order.
  - The lemmas state what the transitions log, call and guarantee.
- `ScheduledTask` holds `class Runner`, whose fields are updated in place.
  Each method is proved to leave the object in exactly the state the
  matching `Lifecycle` transition computes, so every lemma about the
  transitions holds of the class.
- `Scenarios` runs whole lifecycles from construction.

How a piece of user code ends is given to the method that calls it as an
`Outcome` argument. The base class's empty hooks are `NoOp`, which always
returns. The process exit is the field `exitCode`. The process-exit
notification that `Environment.Exit` raises is the caller's next call of
`Exit`.

Three behaviours of the code are worth stating plainly:

- A fault thrown by the final action is not caught. `finalAction()` runs in
  the `finally` block, outside the try (Runner.cs:63-66), so it escapes
  `Run`. `RunStep` returns it, and `Runner.Run` returns it as `thrown`.
- `_BaseCancel` does not run the graceful-shutdown hook (Runner.cs:146-155).
  Only `Exit` does.
- `Run` does not reset `TaskComplete` when it starts (Runner.cs:49-56). A
  second Run on the same Runner that is cut short by a cancellation
  leaves the `true` of an earlier completed Run in place
  (`CompleteSurvivesCutShortRun`).
- `HasGracefullyShutdown` becomes the hook's success, not "the hook was
  called" (Runner.cs:181). A hook that threw would be called again by a
  further `Exit`. The program never makes that call: `Exit` is private and
  runs only from the process-exit notification (Runner.cs:38, 179), which a
  process raises once. In a real process the hook runs at most once
  (`ShutdownAtMostOncePerProcess`), and the flag only records whether that
  call returned.

## Model

| member | source | states |
|---|---|---|
| Events.PlainTextsDiffer | Runner.cs:51-196 | The fault-free messages Runner logs (start, completion, work failure, clean-up, cancel, the three Exit classifications) render as pairwise different strings, so each is told apart in the log |
| ScheduledTask.Runner.constructor | Runner.cs:10-12 | A new Runner starts with all three flags false, nothing logged and no exit requested |
| ScheduledTask.Runner.Run | Runner.cs:49-67 | `TaskComplete` ends true exactly when the work action returned; the new state and the escaping fault are those of `RunStep` |
| ScheduledTask.Runner.RunInterruptedByCancellation | Runner.cs:49-53 | A Run whose work action raises the cancellation ends with `TaskInterrupt` set, exit code 1 requested and `TaskComplete` unchanged; the new state is `InterruptedRunStep`'s |
| ScheduledTask.Runner.InvokeCancellation | Runner.cs:97 | The public entry point moves the Runner exactly as `_BaseCancel` does (`CancelStep`) |
| ScheduledTask.Runner.Cancel | Runner.cs:176 | The console-cancel handler moves the Runner exactly as `_BaseCancel` does (`CancelStep`) |
| ScheduledTask.Runner.BaseCancel | Runner.cs:146-155 | Afterwards `TaskInterrupt` is set and exit code 1 has been requested, whatever the hook did; the new state is `CancelStep`'s |
| ScheduledTask.Runner.CallerToCustomGracefulShutdown | Runner.cs:107-119 | Returns true exactly when the hook returned; logs clean-up, the call and, only on a fault, a warning; never throws |
| ScheduledTask.Runner.CallerToCustomCancellation | Runner.cs:122-129 | Calls the hook once; a fault is logged and does not propagate |
| ScheduledTask.Runner.CallerToCustomExit | Runner.cs:132-140 | Calls the hook once; a fault is logged and does not propagate |
| ScheduledTask.Runner.Exit | Runner.cs:179-198 | The flag ends true exactly when it was already true or the shutdown hook returned; the new state is `ExitStep`'s; Exit has no way to throw |
| Lifecycle.ShutdownHookEvents | Runner.cs:107-119 | The shutdown caller logs "Task clean up." first, then calls the hook, and ends with the warning when the hook threw |
| Lifecycle.CancellationHookEvents | Runner.cs:122-129 | The cancellation caller starts with the hook's call and ends with the error entry when the hook threw |
| Lifecycle.ExitHookEvents | Runner.cs:132-140 | The exit caller starts with the hook's call and ends with the error entry when the hook threw |
| Lifecycle.ShutdownHookContained | Runner.cs:107-119 | The shutdown caller calls only its hook, once; it logs a warning exactly when the hook threw, and never at error or critical level |
| Lifecycle.CancellationHookContained | Runner.cs:122-129 | The cancellation caller calls only its hook; it logs at error level exactly when the hook threw |
| Lifecycle.ExitHookContained | Runner.cs:132-140 | The exit caller calls only its hook and never the shutdown hook; it logs at error level exactly when the hook threw |
| Lifecycle.RunStep | Runner.cs:49-67 | `TaskComplete` becomes whether the work action returned, and the other flags and the exit code are untouched; a fault escapes Run exactly when the final action threw, and it is that fault |
| Lifecycle.CancelStep | Runner.cs:146-155 | Sets `TaskInterrupt` and requests exit code 1 whatever the hook did; leaves `TaskComplete` and the shutdown flag alone |
| Lifecycle.InterruptedRunStep | Runner.cs:49-53 | A cancellation raised from the work action sets `TaskInterrupt` and requests exit code 1, and leaves `TaskComplete` and the shutdown flag alone, because Run never returns |
| Lifecycle.ExitStep | Runner.cs:179-198 | Leaves `TaskComplete`, `TaskInterrupt` and the exit code alone; the shutdown flag ends true exactly when it was true or the hook returned |
| Lifecycle.RunLogs | Runner.cs:51-62 | Run logs "Task starting." before the work action is called; "Task complete." comes right after it only when it returned and never otherwise; a fault is logged at critical level with the fault attached |
| Lifecycle.WorkCalls | Runner.cs:50-62 | The try block and its catch call the work action and no other user code |
| Lifecycle.RunCalls | Runner.cs:49-67 | Run calls the work action, then the final action, if given, exactly once and last, whichever way the work action ended |
| Lifecycle.RunShutdownAttempts | Runner.cs:49-67 | Run never calls the graceful-shutdown hook |
| Lifecycle.CancelEvents | Runner.cs:146-155 | Cancellation logs its warning first, calls only the cancellation hook, and logs at error level exactly when that hook threw |
| Lifecycle.InterruptedRunEvents | Runner.cs:51-53 | A cancellation raised from the work action follows "Task starting." and the entered work call with the cancellation's warning; only the work action and the cancellation hook are called; an error is logged exactly when that hook threw |
| Lifecycle.InterruptedRunShutdownAttempts | Runner.cs:146-155 | A cancellation raised from the work action never calls the graceful-shutdown hook |
| Lifecycle.CancelShutdownAttempts | Runner.cs:146-155 | Cancellation never calls the graceful-shutdown hook |
| Lifecycle.ExitShutdownEvents | Runner.cs:180-181 | Exit calls the shutdown hook exactly when the flag was false, and then before anything else |
| Lifecycle.ExitShutdownAttempts | Runner.cs:180-181 | Exit adds one shutdown-hook call while the flag is false and none once it is true |
| Lifecycle.ExitCalls | Runner.cs:180-194 | Exit calls the shutdown hook only while the flag is false, and the exit hook exactly when `TaskComplete && !TaskInterrupt` |
| Lifecycle.ExitClassifies | Runner.cs:183-197 | An interrupted run is logged as interrupted whatever `TaskComplete` is; an uninterrupted incomplete run is logged under event id 1000; a complete run ends with "Run Complete." even when the exit hook threw, and logs an error exactly when it did |
| Lifecycle.ClassificationEvents | Runner.cs:183-197 | The three classification branches: which hook each calls, which entry each logs last, and when an error is logged |
| Lifecycle.StepShutdownAttempts | Runner.cs:180-181 | Of all entry points, only Exit calls the graceful-shutdown hook, and only while the flag is false |
| Lifecycle.InterruptIffCancelled | Runner.cs:147 | Over any order of entry points, `TaskInterrupt` is set exactly when it was set before or some cancellation ran; nothing clears it |
| Lifecycle.ExitCodeIffCancelled | Runner.cs:153 | Exit code 1 is requested exactly when some cancellation ran; no other code is ever requested |
| Lifecycle.CompleteIffLastWorkReturned | Runner.cs:56-61 | `TaskComplete` says whether the work action of the latest Run that finished its try block (its work returned or threw) returned; a Run cut short by a cancellation, cancellation itself and Exit leave it as it was |
| Lifecycle.ShutdownFlagSticky | Runner.cs:180-181 | Once `HasGracefullyShutdown` is true it stays true over any further entry points |
| Lifecycle.StepKeepsShutdownDiscipline | Runner.cs:180-181 | Each entry point keeps the discipline: every shutdown-hook call but the latest threw, and the flag is true exactly when the latest one returned |
| Lifecycle.ReplayKeepsShutdownDiscipline | Runner.cs:180-181 | Any sequence of entry points keeps that discipline |
| Lifecycle.ReachableShutdownDiscipline | Runner.cs:180-181 | Every state reachable from construction keeps it: the hook is never called again after a call that returned |
| Lifecycle.InterruptWins | Runner.cs:183-187 | Once a cancellation has run, every later Exit logs an interrupted run and does not call the exit hook, even if the work completed |
| Lifecycle.ExitHookIffCompletedRun | Runner.cs:183-194 | From construction, Exit calls the exit hook exactly when the latest Run's work action returned and no cancellation has run |
| Lifecycle.NoExitNoShutdown | Runner.cs:180-181 | Without an Exit, the shutdown hook is never called and its flag never changes |
| Lifecycle.ShutdownOnceOnFirstExit | Runner.cs:180-181 | In a real process, where the one Exit comes last, that Exit calls the shutdown hook exactly once, and a hook that threw leaves the flag false |
| Lifecycle.ShutdownAtMostOncePerProcess | Runner.cs:180-181 | Over any order one process can produce (Exit only last), the shutdown hook is called at most once, exactly when Exit ran, and the flag is true exactly when that call returned |
| Scenarios.CompletedRun | Runner.cs:179-198 | A run whose work returns, followed by process exit: work, shutdown hook and exit hook are called in that order; "Run Complete." is logged last; no exit code |
| Scenarios.InterruptedWhileWorking | Runner.cs:146-155 | A cancellation raised while the work action runs, then process exit: "Task starting." and the work call come first, then the cancellation hook and the shutdown hook; exit code 1 is requested, the run is logged as interrupted, and the exit hook never runs |
| Scenarios.FaultedRun | Runner.cs:49-67 | A work action that throws: the critical entry follows the call, the final action still runs, and process exit logs an incomplete run without the exit hook |
| Scenarios.FinalActionFaultEscapes | Runner.cs:63-66 | A final action that throws after the work returned: the run counts as complete and the fault escapes Run |
| Scenarios.CompleteSurvivesCutShortRun | Runner.cs:49-56 | A completed Run followed by a second Run whose work raises a cancellation: `TaskComplete` is still true although the latest Run never returned, and the run is logged as interrupted, not complete |
| Scenarios.ShutdownRetriedUntilItReturns | Runner.cs:180-181 | The guard alone, over repeated Exits that the program never makes: a hook call that threw is followed by another, and none follows a call that returned |

## Left out

- Logger construction and the NLog sink (Runner.cs:14) are foreign library code. Logging is an appended sequence of entries, and writing an entry never throws.
- Subscribing `Cancel` and `Exit` to `Console.CancelKeyPress` and `AppDomain.CurrentDomain.ProcessExit` (Runner.cs:30, 38) is host runtime plumbing. The handlers are called directly, in any sequential order.
- The handlers' `sender` and event-argument parameters are never read, so they are not modelled.
- What `Environment.Exit(1)` does to the process (Runner.cs:153) is not modelled. It is only recorded as `exitCode`. The process-exit notification it raises is a later call of `Exit`, and the model does not force that call.
- Races between signal delivery and a running `Run` are left out: no concurrency is modelled. A cancellation raised while the work action runs is modelled (`InterruptedRunStep`), whether the console handler fires or the work action calls `InvokeCancellation`.
- A cancellation raised from inside the final action or a hook (a re-entrant `InvokeCancellation` call from that code) is not modelled. There the model has no event for the call that never returned, and the caller's logging after it would not happen.
- `Replay` accepts orders of entry points that one process cannot produce: a second `Exit`, or any step after exit code 1 other than the one `Exit` it raises. `ExitOnlyLast` names the orders with the single final `Exit`. Lemmas stated over every order also hold for those impossible orders.
- The overridable hooks (Runner.cs:76, 83, 90) are not subclassed. Each call's outcome is an argument, and the base classes' empty bodies are `NoOp`.
- The exception's `Message` and `StackTrace` are opaque strings in `Fault`. How .NET builds them is not modelled.
- `Exit` tests `!TaskComplete || TaskInterrupt` around its two classifying branches (Runner.cs:183). Each branch's own guard implies that test, so `Runner.Exit` tests the two branches directly, with the same effect.
- Program.cs is not part of this model. Its `Main` and task body use timing, console output and random failure.
