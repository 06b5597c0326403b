/** The process-wide uncaught-exception handler chain
    (CustomUncaughtExceptionHandler.kt, and its installation in the
    `CrashLogger` constructor at CrashLogger.kt). A crash logger installs a
    handler that records the crash and then hands the same thread and
    exception to whatever handler was installed before it. */
module UncaughtHandler {
  import opened Wrappers

  /** An installed default handler: the platform's own (an opaque identity),
      or a capturing handler of crash logger `logger` that forwards to
      `next`, the handler that was the default when it was installed. */
  datatype Handler = Platform(id: nat) | Capturing(logger: nat, next: Option<Handler>)

  /** What handling one uncaught exception does, in order: a crash logger
      records the crash, a crash logger's handling throws (`Timber.e` or
      `logCrash` raising something other than an `IOException`) and the
      throwable leaves `uncaughtException`, or a platform handler receives
      the exception. */
  datatype Effect =
    | Recorded(logger: nat, thread: nat, ex: string)
    | Escaped(logger: nat, thread: nat, ex: string)
    | Delivered(id: nat, thread: nat, ex: string)

  /** The crash loggers along the chain, outermost first. */
  function Loggers(h: Handler): seq<nat> {
    match h
    case Platform(_) => []
    case Capturing(logger, next) => [logger] + (if next.Some? then Loggers(next.value) else [])
  }

  /** The platform handler at the end of the chain, if the chain has one. */
  function Bottom(h: Handler): Option<nat> {
    match h
    case Platform(id) => Some(id)
    case Capturing(_, next) => if next.Some? then Bottom(next.value) else None
  }

  /** The `CrashLogger` constructor's `init`: the new default handler
      captures for `logger` and forwards to the previous default, so the new
      logger comes first among the chain's loggers and the platform handler
      at the end of the chain stays the same. */
  function Install(previous: Option<Handler>, logger: nat): (h: Handler)
    ensures Loggers(h) == [logger] + (if previous.Some? then Loggers(previous.value) else [])
    ensures Bottom(h) == (if previous.Some? then Bottom(previous.value) else None)
  {
    Capturing(logger, previous)
  }

  /** The position of the first logger in `loggers` whose handling throws,
      or `|loggers|` when every one of them returns. */
  function FirstThrowing(loggers: seq<nat>, throwing: set<nat>): (k: nat)
    ensures k <= |loggers|
    ensures forall i :: 0 <= i < k ==> loggers[i] !in throwing
    ensures k < |loggers| ==> loggers[k] in throwing
  {
    if |loggers| == 0 then 0
    else if loggers[0] in throwing then 0
    else 1 + FirstThrowing(loggers[1..], throwing)
  }

  /** No logger in `loggers` throws exactly when the search runs off the end. */
  lemma FirstThrowingNone(loggers: seq<nat>, throwing: set<nat>)
    ensures FirstThrowing(loggers, throwing) == |loggers| <==> forall l :: l in loggers ==> l !in throwing
  {
    var k := FirstThrowing(loggers, throwing);
    if k < |loggers| {
      assert loggers[k] in loggers;
    } else {
      forall l | l in loggers
        ensures l !in throwing
      {
        var i :| 0 <= i < |loggers| && loggers[i] == l;
      }
    }
  }

  /** `uncaughtException`, followed down the chain: each capturing handler
      logs and records the crash and then calls its next handler, if any,
      with the same thread and exception. `throwing` holds the crash loggers
      whose handling throws something `logCrash` does not catch (it catches
      only `IOException`): the throwable leaves that handler before it calls
      `nextHandler`, so nothing further down the chain runs. */
  function Uncaught(h: Handler, thread: nat, ex: string, throwing: set<nat>): (effects: seq<Effect>)
    ensures var k := FirstThrowing(Loggers(h), throwing);
            |effects| == (if k < |Loggers(h)| then k + 1 else k + (if Bottom(h).Some? then 1 else 0))
    ensures var k := FirstThrowing(Loggers(h), throwing);
            forall i :: 0 <= i < k ==> effects[i] == Recorded(Loggers(h)[i], thread, ex)
    ensures var k := FirstThrowing(Loggers(h), throwing);
            k < |Loggers(h)| ==> effects[k] == Escaped(Loggers(h)[k], thread, ex)
    ensures var k := FirstThrowing(Loggers(h), throwing);
            k == |Loggers(h)| && Bottom(h).Some? ==> effects[|effects| - 1] == Delivered(Bottom(h).value, thread, ex)
  {
    match h
    case Platform(id) => [Delivered(id, thread, ex)]
    case Capturing(logger, next) =>
      if logger in throwing then [Escaped(logger, thread, ex)]
      else
        var below := if next.Some? then Loggers(next.value) else [];
        var rest := if next.Some? then Uncaught(next.value, thread, ex, throwing) else [];
        assert Loggers(h)[1..] == below;
        assert FirstThrowing(Loggers(h), throwing) == 1 + FirstThrowing(below, throwing);
        [Recorded(logger, thread, ex)] + rest
  }

  /** Every effect of one uncaught exception concerns that thread and that
      exception. */
  lemma {:induction false} SameThreadAndException(h: Handler, thread: nat, ex: string, throwing: set<nat>)
    ensures forall e :: e in Uncaught(h, thread, ex, throwing) ==> e.thread == thread && e.ex == ex
  {
    match h
    case Platform(_) =>
    case Capturing(logger, next) =>
      if logger !in throwing && next.Some? {
        SameThreadAndException(next.value, thread, ex, throwing);
      }
  }

  /** A freshly installed handler records first and then behaves exactly as
      the handler it replaced; with no previous handler, the record is the
      only effect. When its own handling throws, the throwable escape is the
      only effect and the previous handler never runs. */
  lemma CaptureThenChain(previous: Option<Handler>, logger: nat, thread: nat, ex: string, throwing: set<nat>)
    ensures var effects := Uncaught(Install(previous, logger), thread, ex, throwing);
            && (logger in throwing ==> effects == [Escaped(logger, thread, ex)])
            && (logger !in throwing ==>
                  && effects[0] == Recorded(logger, thread, ex)
                  && (previous.Some? ==> effects[1..] == Uncaught(previous.value, thread, ex, throwing))
                  && (previous.None? ==> effects == [Recorded(logger, thread, ex)]))
  {
  }

  /** On any chain that ends in a platform handler, that handler receives
      the exception, last, exactly when no crash logger on the chain throws. */
  lemma PlatformReachedIffNoneThrow(h: Handler, thread: nat, ex: string, throwing: set<nat>)
    requires Bottom(h).Some?
    ensures var effects := Uncaught(h, thread, ex, throwing);
            var reached := effects[|effects| - 1] == Delivered(Bottom(h).value, thread, ex);
            reached <==> forall l :: l in Loggers(h) ==> l !in throwing
  {
    var effects := Uncaught(h, thread, ex, throwing);
    var k := FirstThrowing(Loggers(h), throwing);
    FirstThrowingNone(Loggers(h), throwing);
    if k < |Loggers(h)| {
      assert effects[|effects| - 1] == Escaped(Loggers(h)[k], thread, ex);
    }
  }

  /** Installing keeps the platform handler the chain ended in, but it is
      reached exactly when no crash logger on the new chain throws: the
      platform handler receives the exception, last, if and only if every
      logger's handling returns. */
  lemma InstallKeepsPlatform(previous: Handler, logger: nat, thread: nat, ex: string, throwing: set<nat>)
    requires Bottom(previous).Some?
    ensures var h := Install(Some(previous), logger);
            var effects := Uncaught(h, thread, ex, throwing);
            var reached := effects[|effects| - 1] == Delivered(Bottom(previous).value, thread, ex);
            reached <==> logger !in throwing && forall l :: l in Loggers(previous) ==> l !in throwing
  {
    var h := Install(Some(previous), logger);
    PlatformReachedIffNoneThrow(h, thread, ex, throwing);
    assert forall l :: l in Loggers(h) <==> l == logger || l in Loggers(previous);
  }
}
