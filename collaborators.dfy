/**
 The collaborators of the aggregate sink, as the aggregate sees them: log
 events and exceptions it only passes along, sink handles whose behaviour is
 scripted, and the observable effects it has on those sinks and on the
 diagnostic channel (Serilog's SelfLog).
 */
module Collaborators {

  /** `null` or a reference, for inputs the source may receive as null. */
  datatype Option<+T> = None | Some(value: T)

  /** Success with a value, or the exception the source would throw. */
  datatype Result<+T, +E> = Success(value: T) | Failure(error: E)

  /** A log event. The aggregate never looks inside it; it hands it on. */
  datatype LogEvent = LogEvent(rendered: string)

  /** An exception thrown by a sink. Opaque: it is only caught, reported and collected. */
  datatype Exception = Exception(typeName: string, message: string)

  /** What one call on a sink does: return normally or throw. */
  datatype Outcome = Returns | Throws(ex: Exception)

  /** The identity of a sink handle, as a diagnostic line prints it. */
  type SinkId = nat

  /**
   A sink handle: an ILogEventSink that may also be IDisposable, with the
   outcome its Emit has and, when it is disposable, the outcome its Dispose has.
   */
  datatype Sink = Sink(id: SinkId, disposable: bool, onEmit: Outcome, onDispose: Outcome)

  /** A call the aggregate makes on one of its sinks. */
  datatype Call = EmitTo(sink: SinkId, event: LogEvent) | DisposeOf(sink: SinkId)

  /**
   A line written to SelfLog, by the phrase it uses: "Caught exception while
   emitting to sink ..." or "Caught exception while disposing sink ...".
   */
  datatype Diag = Emitting(sink: SinkId, ex: Exception) | Disposing(sink: SinkId, ex: Exception)

  /** One observable effect of the aggregate, in the order it happens. */
  datatype Effect = Called(call: Call) | Logged(diag: Diag)

  /** The calls made on sinks, in order, that a trace of effects contains. */
  function Calls(t: seq<Effect>): (r: seq<Call>)
    ensures |r| <= |t|
    decreases |t|
  {
    if t == [] then []
    else
      var last := t[|t| - 1];
      Calls(t[..|t| - 1]) + if last.Called? then [last.call] else []
  }

  /** The SelfLog lines, in order, that a trace of effects contains. */
  function Diags(t: seq<Effect>): (r: seq<Diag>)
    ensures |r| <= |t|
    decreases |t|
  {
    if t == [] then []
    else
      var last := t[|t| - 1];
      Diags(t[..|t| - 1]) + if last.Logged? then [last.diag] else []
  }

  /** Every effect is either a call on a sink or a SelfLog line. */
  lemma {:induction false} CallsAndDiagsPartition(t: seq<Effect>)
    ensures |Calls(t)| + |Diags(t)| == |t|
    decreases |t|
  {
    if t != [] {
      CallsAndDiagsPartition(t[..|t| - 1]);
    }
  }

  lemma {:induction false} CallsAppend(a: seq<Effect>, b: seq<Effect>)
    ensures Calls(a + b) == Calls(a) + Calls(b)
    decreases |b|
  {
    if b == [] {
      assert a + b == a;
    } else {
      assert (a + b)[..|a + b| - 1] == a + b[..|b| - 1];
      CallsAppend(a, b[..|b| - 1]);
    }
  }

  lemma {:induction false} DiagsAppend(a: seq<Effect>, b: seq<Effect>)
    ensures Diags(a + b) == Diags(a) + Diags(b)
    decreases |b|
  {
    if b == [] {
      assert a + b == a;
    } else {
      assert (a + b)[..|a + b| - 1] == a + b[..|b| - 1];
      DiagsAppend(a, b[..|b| - 1]);
    }
  }
}
