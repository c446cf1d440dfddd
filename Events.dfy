/**
 * What a Runner makes observable: the entries it writes through its logger
 * and the calls it makes into user code (the work action, the final action
 * and the three override hooks), in the order in which they happen.
 */
module Events {

  datatype Option<T> = None | Some(value: T)

  /** The log levels Runner.cs writes at. */
  datatype Level = Information | Warning | Error | Critical

  /** An exception as the log sees it: its Message and its StackTrace. */
  datatype Fault = Fault(message: string, stackTrace: string)

  /** How a call into user code ended: it returned normally, or it threw. */
  datatype Outcome = Ok | Threw(fault: Fault)

  /** The base class's virtual hooks have empty bodies: calling one always returns. */
  const NoOp: Outcome := Ok

  /** The pieces of user code a Runner calls. */
  datatype Action =
    | InsertedAction
    | FinalAction
    | CustomCancellation
    | CustomExit
    | CustomGracefulShutdown

  /**
   * The messages Runner.cs logs, as structured values; `Text` renders each
   * as the string the source passes to the logger.
   */
  datatype Message =
    | TaskStarting
    | TaskComplete
    | WorkFailed
    | TaskCleanUp
    | ShutdownDidNotComplete(fault: Fault)
    | CancelInvoked
    | CancellationFailed(fault: Fault)
    | InterruptedRun
    | IncompleteRun
    | ExitFailed(fault: Fault)
    | RunComplete

  function Text(m: Message): string {
    match m
    case TaskStarting => "Task starting."
    case TaskComplete => "Task complete."
    case WorkFailed => "Critical Error executing insertedAction"
    case TaskCleanUp => "Task clean up."
    case ShutdownDidNotComplete(f) =>
      "Warning CustomGracefulShutdown Did not complete \nMessage: " + f.message + "\n" + f.stackTrace + " "
    case CancelInvoked => "Cancel, Invoked"
    case CancellationFailed(f) => "Error in the CustomCancellation\n " + f.message + "\n " + f.stackTrace
    case InterruptedRun => "Exit Invoked: Interrupted run."
    case IncompleteRun => "Exit Invoked: Incomplete run."
    case ExitFailed(f) => "Error in the CustomExit\n " + f.message + "\n " + f.stackTrace
    case RunComplete => "Exit, Invoked: Run Complete."
  }

  /** A message that carries no fault: its text is fixed. */
  predicate Plain(m: Message) {
    !m.ShutdownDidNotComplete? && !m.CancellationFailed? && !m.ExitFailed?
  }

  /** The fixed messages render as pairwise different strings, so the log tells them apart. */
  lemma PlainTextsDiffer(m: Message, n: Message)
    requires Plain(m) && Plain(n) && m != n
    ensures Text(m) != Text(n)
  {
  }

  /** The event id the incomplete-run entry is logged under; every other entry has the default, 0. */
  const IncompleteEventId := 1000

  /**
   * One observable step: a log entry, a call into user code and how it
   * ended, or a call into user code inside which the process was ended, so
   * that it never returned.
   */
  datatype Event =
    | Log(level: Level, eventId: int, message: Message, detail: Option<Fault>)
    | Call(action: Action, outcome: Outcome)
    | Entered(action: Action)

  /** An entry written by `_logger.LogX(message)`: default event id, no exception attached. */
  function Entry(level: Level, message: Message): Event {
    Log(level, 0, message, None)
  }

  function Last<T>(s: seq<T>): T
    requires s != []
  {
    s[|s| - 1]
  }

  /** The pieces of user code called in `es`, in the order they were called, whether or not they returned. */
  function Calls(es: seq<Event>): seq<Action> {
    if es == [] then []
    else (if !es[0].Log? then [es[0].action] else []) + Calls(es[1..])
  }

  /** How the successive calls to `a` in `es` that returned or threw ended. */
  function Outcomes(es: seq<Event>, a: Action): seq<Outcome> {
    if es == [] then []
    else (if es[0].Call? && es[0].action == a then [es[0].outcome] else []) + Outcomes(es[1..], a)
  }

  /** Some entry of `es` is logged at `level`. */
  predicate LoggedAt(es: seq<Event>, level: Level) {
    exists i :: 0 <= i < |es| && es[i].Log? && es[i].level == level
  }

  /** The projections of a single event. */
  lemma OneEvent(e: Event)
    ensures Calls([e]) == (if !e.Log? then [e.action] else [])
    ensures forall a :: Outcomes([e], a) == (if e.Call? && e.action == a then [e.outcome] else [])
    ensures forall level :: LoggedAt([e], level) <==> e.Log? && e.level == level
  {
    assert [e][1..] == [];
  }

  lemma {:induction false} CallsAppend(a: seq<Event>, b: seq<Event>)
    ensures Calls(a + b) == Calls(a) + Calls(b)
  {
    if a == [] {
      assert a + b == b;
    } else {
      var head := if !a[0].Log? then [a[0].action] else [];
      assert (a + b)[0] == a[0];
      assert (a + b)[1..] == a[1..] + b;
      CallsAppend(a[1..], b);
      calc {
        Calls(a + b);
        head + Calls(a[1..] + b);
        head + (Calls(a[1..]) + Calls(b));
        (head + Calls(a[1..])) + Calls(b);
        Calls(a) + Calls(b);
      }
    }
  }

  lemma {:induction false} OutcomesAppend(a: seq<Event>, b: seq<Event>, x: Action)
    ensures Outcomes(a + b, x) == Outcomes(a, x) + Outcomes(b, x)
  {
    if a == [] {
      assert a + b == b;
    } else {
      assert (a + b)[1..] == a[1..] + b;
      OutcomesAppend(a[1..], b, x);
    }
  }

  /** No call to `a`, no outcome for `a`. */
  lemma {:induction false} OutcomesWithoutCalls(es: seq<Event>, a: Action)
    requires a !in Calls(es)
    ensures Outcomes(es, a) == []
  {
    if es != [] {
      assert Calls(es) == (if !es[0].Log? then [es[0].action] else []) + Calls(es[1..]);
      OutcomesWithoutCalls(es[1..], a);
    }
  }

  lemma LoggedAtAppend(a: seq<Event>, b: seq<Event>, level: Level)
    ensures LoggedAt(a + b, level) <==> LoggedAt(a, level) || LoggedAt(b, level)
  {
    if LoggedAt(a + b, level) {
      var i :| 0 <= i < |a + b| && (a + b)[i].Log? && (a + b)[i].level == level;
      if i >= |a| {
        assert b[i - |a|] == (a + b)[i];
      }
    }
    if LoggedAt(a, level) {
      var i :| 0 <= i < |a| && a[i].Log? && a[i].level == level;
      assert (a + b)[i] == a[i];
    }
    if LoggedAt(b, level) {
      var i :| 0 <= i < |b| && b[i].Log? && b[i].level == level;
      assert (a + b)[|a| + i] == b[i];
    }
  }

  /** All three projections distribute over concatenation. */
  lemma Concat(a: seq<Event>, b: seq<Event>)
    ensures Calls(a + b) == Calls(a) + Calls(b)
    ensures forall x :: Outcomes(a + b, x) == Outcomes(a, x) + Outcomes(b, x)
    ensures forall level :: LoggedAt(a + b, level) <==> LoggedAt(a, level) || LoggedAt(b, level)
  {
    CallsAppend(a, b);
    forall x ensures Outcomes(a + b, x) == Outcomes(a, x) + Outcomes(b, x) {
      OutcomesAppend(a, b, x);
    }
    forall level ensures LoggedAt(a + b, level) <==> LoggedAt(a, level) || LoggedAt(b, level) {
      LoggedAtAppend(a, b, level);
    }
  }
}
